/**
 * What the lineup methods keep true. `Balanced` is what survives every
 * operation of every variant, clones included, provided each add targets an
 * empty cell (the base add overwrites a cell without looking at it): the
 * weights are the column sums of rows 1..10, MixedLineup's counters are the
 * bench counts per gender, WomensLineup's bench is all "female" and MixedLineup's all "male" or
 * "female", and every
 * name in the index is seated. `Exact` adds that the index lists every
 * seated person and that no name is seated twice; a WomensLineup or
 * MixedLineup clone loses it, since its name index starts empty.
 */
module LineupFacts {
  import opened Wrappers
  import opened People
  import opened LineupModel
  import Text

  ghost predicate IndexKeyed(index: map<string, Person>)
  {
    forall k :: k in index ==> index[k].name == k
  }

  /** Everyone on the bench (rows 1..10) has one of the allowed genders. */
  ghost predicate BenchFrom(cells: seq<seq<Option<Person>>>, allowed: set<string>)
    requires Shaped(cells)
  {
    forall r, c :: 1 <= r < Rows && 0 <= c < Cols && cells[r][c].Some? ==> cells[r][c].value.gender in allowed
  }

  /** The genders a variant's add lets onto the bench. */
  function BenchGenders(v: Variant): set<string>
  {
    match v
    case Open => {}
    case Womens => {"female"}
    case Mixed => {"male", "female"}
  }

  ghost predicate Balanced(s: LineupState)
  {
    && Shaped(s.cells)
    && IndexKeyed(s.index)
    && s.left == LeftTotal(s.cells)
    && s.right == RightTotal(s.cells)
    && (forall k :: k in s.index ==> Seats(s.cells, k) >= 1)
    && (s.variant == Mixed ==>
          && s.guys == BenchCount(s.cells, "male") <= 10
          && s.girls == BenchCount(s.cells, "female") <= 10)
    && (s.variant != Mixed ==> s.guys == 0 && s.girls == 0)
    && (s.variant != Open ==> BenchFrom(s.cells, BenchGenders(s.variant)))
  }

  /** Every seated person is filed in the index under their name. */
  ghost predicate IndexComplete(s: LineupState)
    requires Shaped(s.cells)
  {
    forall r, c :: InGrid(r, c) && s.cells[r][c].Some? ==>
      s.cells[r][c].value.name in s.index && s.index[s.cells[r][c].value.name] == s.cells[r][c].value
  }

  /** No name sits in two cells. */
  ghost predicate NoDuplicates(cells: seq<seq<Option<Person>>>)
    requires Shaped(cells)
  {
    forall r1, c1, r2, c2 ::
      InGrid(r1, c1) && InGrid(r2, c2) && (r1 != r2 || c1 != c2) && cells[r1][c1].Some? && cells[r2][c2].Some? ==>
        cells[r1][c1].value.name != cells[r2][c2].value.name
  }

  ghost predicate Exact(s: LineupState)
  {
    Balanced(s) && IndexComplete(s) && NoDuplicates(s.cells)
  }

  // ---------------------------------------------------------------------
  // Totals under a change of one cell

  lemma {:induction false} RowsTotalUpdate(cells: seq<seq<Option<Person>>>, m: Metric, lo: int, hi: int,
                                           row: int, newRow: seq<Option<Person>>)
    requires Shaped(cells) && 0 <= lo <= hi <= Rows && 0 <= row < Rows && |newRow| == Cols
    ensures Shaped(cells[row := newRow])
    ensures RowsTotal(cells[row := newRow], m, lo, hi)
         == RowsTotal(cells, m, lo, hi) + (if lo <= row < hi then Measure(m, newRow) - Measure(m, cells[row]) else 0)
    decreases hi - lo
  {
    if lo < hi {
      RowsTotalUpdate(cells, m, lo + 1, hi, row, newRow);
    }
  }

  /** How writing v into cell (row, col) moves the two weight totals. */
  lemma SetCellWeights(cells: seq<seq<Option<Person>>>, row: int, col: int, v: Option<Person>)
    requires Shaped(cells) && InGrid(row, col)
    ensures Shaped(cells[row := cells[row][col := v]])
    ensures var t := cells[row := cells[row][col := v]];
      && LeftTotal(t) == LeftTotal(cells) + (if row != 0 && col == 0 then WeightOf(v) - WeightOf(cells[row][col]) else 0)
      && RightTotal(t) == RightTotal(cells) + (if row != 0 && col == 1 then WeightOf(v) - WeightOf(cells[row][col]) else 0)
  {
    var newRow := cells[row][col := v];
    RowsTotalUpdate(cells, LeftWeight, 1, Rows, row, newRow);
    RowsTotalUpdate(cells, RightWeight, 1, Rows, row, newRow);
  }

  /** How writing v into cell (row, col) moves the bench count of gender g. */
  lemma SetCellBench(cells: seq<seq<Option<Person>>>, row: int, col: int, v: Option<Person>, g: string)
    requires Shaped(cells) && InGrid(row, col)
    ensures Shaped(cells[row := cells[row][col := v]])
    ensures BenchCount(cells[row := cells[row][col := v]], g)
         == BenchCount(cells, g) + (if row != 0 then IsGender(v, g) - IsGender(cells[row][col], g) else 0)
  {
    var newRow := cells[row][col := v];
    RowsTotalUpdate(cells, Gender(g), 1, Rows, row, newRow);
    if col == 0 {
      assert newRow[1] == cells[row][1];
    } else {
      assert newRow[0] == cells[row][0];
    }
  }

  /** How writing v into cell (row, col) moves the number of seats held under name k. */
  lemma SetCellSeats(cells: seq<seq<Option<Person>>>, row: int, col: int, v: Option<Person>, k: string)
    requires Shaped(cells) && InGrid(row, col)
    ensures Shaped(cells[row := cells[row][col := v]])
    ensures Seats(cells[row := cells[row][col := v]], k) == Seats(cells, k) + IsNamed(v, k) - IsNamed(cells[row][col], k)
  {
    RowsTotalUpdate(cells, Named(k), 0, Rows, row, cells[row][col := v]);
  }

  lemma {:induction false} RowsTotalOfEmpty(cells: seq<seq<Option<Person>>>, m: Metric, lo: int, hi: int)
    requires Shaped(cells) && 0 <= lo <= hi <= Rows
    requires forall r, c :: InGrid(r, c) ==> cells[r][c] == None
    ensures RowsTotal(cells, m, lo, hi) == 0
    decreases hi - lo
  {
    if lo < hi {
      assert cells[lo][0] == None && cells[lo][1] == None;
      RowsTotalOfEmpty(cells, m, lo + 1, hi);
    }
  }

  // ---------------------------------------------------------------------
  // The constructor

  /** A new lineup of any class has zero weights, zero counters, an empty index, and is Exact. */
  lemma EmptyStateExact(v: Variant)
    ensures Exact(EmptyState(v))
    ensures EmptyState(v).left == 0 && EmptyState(v).right == 0 && EmptyState(v).index == map[]
  {
    var s := EmptyState(v);
    RowsTotalOfEmpty(s.cells, LeftWeight, 1, Rows);
    RowsTotalOfEmpty(s.cells, RightWeight, 1, Rows);
    RowsTotalOfEmpty(s.cells, Gender("male"), 1, Rows);
    RowsTotalOfEmpty(s.cells, Gender("female"), 1, Rows);
  }

  // ---------------------------------------------------------------------
  // Add, remove

  /** The base add into an empty cell keeps the invariant of the base fields. */
  lemma PlaceKeeps(s: LineupState, row: int, col: int, p: Person)
    requires Balanced(s) && InGrid(row, col) && s.cells[row][col] == None && p.name !in s.index
    ensures var t := Place(s, row, col, p);
      && Shaped(t.cells) && IndexKeyed(t.index)
      && t.left == LeftTotal(t.cells) && t.right == RightTotal(t.cells)
      && (forall k :: k in t.index ==> Seats(t.cells, k) >= 1)
      && BenchCount(t.cells, "male") == BenchCount(s.cells, "male") + (if row != 0 && p.gender == "male" then 1 else 0)
      && BenchCount(t.cells, "female") == BenchCount(s.cells, "female") + (if row != 0 && p.gender == "female" then 1 else 0)
  {
    var t := Place(s, row, col, p);
    SetCellWeights(s.cells, row, col, Some(p));
    SetCellBench(s.cells, row, col, Some(p), "male");
    SetCellBench(s.cells, row, col, Some(p), "female");
    forall k | k in t.index ensures Seats(t.cells, k) >= 1 {
      SetCellSeats(s.cells, row, col, Some(p), k);
    }
  }

  /** The base add into an empty cell, of a name not indexed, keeps the index complete and the names distinct. */
  lemma PlaceKeepsExact(s: LineupState, row: int, col: int, p: Person)
    requires Shaped(s.cells) && IndexComplete(s) && NoDuplicates(s.cells)
    requires InGrid(row, col) && s.cells[row][col] == None && p.name !in s.index
    ensures var t := Place(s, row, col, p); Shaped(t.cells) && IndexComplete(t) && NoDuplicates(t.cells)
  {
    var t := Place(s, row, col, p);
    forall r, c | InGrid(r, c) && t.cells[r][c].Some? && (r != row || c != col)
      ensures t.cells[r][c].value.name != p.name
    {
      assert t.cells[r][c] == s.cells[r][c];
    }
  }

  /** The base removal keeps the invariant of the base fields. */
  lemma ClearKeeps(s: LineupState, row: int, col: int)
    requires Balanced(s) && InGrid(row, col) && s.cells[row][col].Some?
    ensures var p := s.cells[row][col].value; var t := Clear(s, row, col, p);
      && Shaped(t.cells) && IndexKeyed(t.index)
      && t.left == LeftTotal(t.cells) && t.right == RightTotal(t.cells)
      && (forall k :: k in t.index ==> Seats(t.cells, k) >= 1)
      && BenchCount(t.cells, "male") == BenchCount(s.cells, "male") - (if row != 0 && p.gender == "male" then 1 else 0)
      && BenchCount(t.cells, "female") == BenchCount(s.cells, "female") - (if row != 0 && p.gender == "female" then 1 else 0)
  {
    var p := s.cells[row][col].value;
    var t := Clear(s, row, col, p);
    SetCellWeights(s.cells, row, col, None);
    SetCellBench(s.cells, row, col, None, "male");
    SetCellBench(s.cells, row, col, None, "female");
    forall k | k in t.index ensures Seats(t.cells, k) >= 1 {
      SetCellSeats(s.cells, row, col, None, k);
    }
  }

  /** The base removal keeps the index complete and the names distinct. */
  lemma ClearKeepsExact(s: LineupState, row: int, col: int)
    requires Shaped(s.cells) && IndexComplete(s) && NoDuplicates(s.cells)
    requires InGrid(row, col) && s.cells[row][col].Some?
    ensures var t := Clear(s, row, col, s.cells[row][col].value); Shaped(t.cells) && IndexComplete(t) && NoDuplicates(t.cells)
  {
    var t := Clear(s, row, col, s.cells[row][col].value);
    forall r, c | InGrid(r, c) && t.cells[r][c].Some?
      ensures t.cells[r][c].value.name in t.index && t.index[t.cells[r][c].value.name] == t.cells[r][c].value
    {
      assert t.cells[r][c] == s.cells[r][c];
      assert (r != row || c != col);
    }
  }

  lemma PlaceKeepsBench(s: LineupState, row: int, col: int, p: Person, allowed: set<string>)
    requires Shaped(s.cells) && BenchFrom(s.cells, allowed) && InGrid(row, col) && (row != 0 ==> p.gender in allowed)
    ensures Shaped(Place(s, row, col, p).cells) && BenchFrom(Place(s, row, col, p).cells, allowed)
  {
    var t := Place(s, row, col, p);
    forall r, c | 1 <= r < Rows && 0 <= c < Cols && t.cells[r][c].Some?
      ensures t.cells[r][c].value.gender in allowed
    {
      if r != row || c != col {
        assert t.cells[r][c] == s.cells[r][c];
      }
    }
  }

  lemma ClearKeepsBench(s: LineupState, row: int, col: int, p: Person, allowed: set<string>)
    requires Shaped(s.cells) && BenchFrom(s.cells, allowed) && InGrid(row, col)
    ensures Shaped(Clear(s, row, col, p).cells) && BenchFrom(Clear(s, row, col, p).cells, allowed)
  {
    var t := Clear(s, row, col, p);
    forall r, c | 1 <= r < Rows && 0 <= c < Cols && t.cells[r][c].Some?
      ensures t.cells[r][c].value.gender in allowed
    {
      assert t.cells[r][c] == s.cells[r][c];
    }
  }

  /** MixedLineup's counter adjustment for a bench seat of gender g; other variants and row 0 keep no counters. */
  function Recount(s: LineupState, row: int, g: string, d: int): LineupState
  {
    if s.variant != Mixed || row == 0 then s
    else if g == "male" then s.(guys := s.guys + d)
    else if g == "female" then s.(girls := s.girls + d)
    else s
  }

  /** A successful add of any variant is the base placement followed by the counter adjustment. */
  lemma AddPlaces(s: LineupState, row: int, col: int, p: Person)
    requires Shaped(s.cells) && Add(s, row, col, Some(p)).1 == Added
    ensures InGrid(row, col) && p.name !in s.index
    ensures Add(s, row, col, Some(p)).0 == Recount(Place(s, row, col, p), row, p.gender, 1)
  {
  }

  /** A removal of any variant from an occupied cell is the counter adjustment followed by the base clearing. */
  lemma RemoveClears(s: LineupState, row: int, col: int)
    requires Shaped(s.cells) && InGrid(row, col) && s.cells[row][col].Some?
    ensures var p := s.cells[row][col].value;
      Remove(s, row, col) == (Clear(Recount(s, row, p.gender, -1), row, col, p), false)
  {
  }

  /** What a variant's add asks of the person beyond a free name and a cell in the grid. */
  ghost predicate Admits(s: LineupState, row: int, p: Person)
  {
    && (s.variant != Open && row != 0 ==> p.gender in BenchGenders(s.variant))
    && (s.variant == Mixed && row != 0 && p.gender == "male" ==> s.guys < 10)
    && (s.variant == Mixed && row != 0 && p.gender == "female" ==> s.girls < 10)
  }

  /**
   * An add of any variant succeeds exactly when the name is not indexed, the
   * cell is in the grid, and the variant's gender rule and caps let the person in.
   */
  lemma AddAdmits(s: LineupState, row: int, col: int, p: Person)
    requires Shaped(s.cells)
    ensures Add(s, row, col, Some(p)).1 == Added <==> InGrid(row, col) && p.name !in s.index && Admits(s, row, p)
  {
  }

  /** Clearing what was just placed gives the state back. */
  lemma PlaceThenClear(s: LineupState, row: int, col: int, p: Person)
    requires Shaped(s.cells) && InGrid(row, col) && s.cells[row][col] == None && p.name !in s.index
    ensures Clear(Place(s, row, col, p), row, col, p) == s
  {
    var t := Clear(Place(s, row, col, p), row, col, p);
    assert t.cells[row] == s.cells[row];
    assert t.cells == s.cells;
    assert t.index == s.index;
  }

  /** Placing the occupant just cleared gives the state back when the index held them. */
  lemma ClearThenPlace(s: LineupState, row: int, col: int, p: Person)
    requires Shaped(s.cells) && InGrid(row, col) && s.cells[row][col] == Some(p)
    requires p.name in s.index && s.index[p.name] == p
    ensures Place(Clear(s, row, col, p), row, col, p) == s
  {
    var t := Place(Clear(s, row, col, p), row, col, p);
    assert t.cells[row] == s.cells[row];
    assert t.cells == s.cells;
    assert t.index == s.index;
  }

  /**
   * Every variant's add, into a cell that is empty, keeps Balanced and Exact,
   * whatever it returns.
   */
  lemma AddKeeps(s: LineupState, row: int, col: int, person: Option<Person>)
    requires Balanced(s)
    requires InGrid(row, col) ==> s.cells[row][col] == None
    ensures Balanced(Add(s, row, col, person).0)
    ensures Exact(s) ==> Exact(Add(s, row, col, person).0)
  {
    if Add(s, row, col, person).1 == Added {
      var p := person.value;
      AddPlaces(s, row, col, p);
      AddAdmits(s, row, col, p);
      PlaceRecountKeeps(s, row, col, p);
    }
  }

  /** The placement and counter step of a successful add keeps Balanced and Exact. */
  lemma PlaceRecountKeeps(s: LineupState, row: int, col: int, p: Person)
    requires Balanced(s) && InGrid(row, col) && s.cells[row][col] == None && p.name !in s.index && Admits(s, row, p)
    ensures Balanced(Recount(Place(s, row, col, p), row, p.gender, 1))
    ensures Exact(s) ==> Exact(Recount(Place(s, row, col, p), row, p.gender, 1))
  {
    var b := Place(s, row, col, p);
    var t := Recount(b, row, p.gender, 1);
    assert t.cells == b.cells && t.index == b.index && t.left == b.left && t.right == b.right;
    PlaceKeeps(s, row, col, p);
    if s.variant != Open {
      PlaceKeepsBench(s, row, col, p, BenchGenders(s.variant));
    }
    if Exact(s) {
      PlaceKeepsExact(s, row, col, p);
    }
  }

  /** Every variant's removal keeps Balanced and Exact. */
  lemma RemoveKeeps(s: LineupState, row: int, col: int)
    requires Balanced(s)
    ensures Balanced(Remove(s, row, col).0)
    ensures Exact(s) ==> Exact(Remove(s, row, col).0)
  {
    if InGrid(row, col) && s.cells[row][col].Some? {
      RemoveClears(s, row, col);
      RecountClearKeeps(s, row, col);
    }
  }

  /** The counter and clearing step of a removal keeps Balanced and Exact. */
  lemma RecountClearKeeps(s: LineupState, row: int, col: int)
    requires Balanced(s) && InGrid(row, col) && s.cells[row][col].Some?
    ensures var p := s.cells[row][col].value;
      Balanced(Clear(Recount(s, row, p.gender, -1), row, col, p))
    ensures var p := s.cells[row][col].value;
      Exact(s) ==> Exact(Clear(Recount(s, row, p.gender, -1), row, col, p))
  {
    var p := s.cells[row][col].value;
    var b := Clear(s, row, col, p);
    var t := Clear(Recount(s, row, p.gender, -1), row, col, p);
    assert t.cells == b.cells && t.index == b.index && t.left == b.left && t.right == b.right;
    ClearKeeps(s, row, col);
    if s.variant != Open {
      ClearKeepsBench(s, row, col, p, BenchGenders(s.variant));
    }
    if Exact(s) {
      ClearKeepsExact(s, row, col);
    }
  }

  /** Adding into an empty cell and removing again gives back the state exactly, for every variant. */
  lemma AddThenRemove(s: LineupState, row: int, col: int, p: Person)
    requires Shaped(s.cells) && InGrid(row, col) && s.cells[row][col] == None
    requires Add(s, row, col, Some(p)).1 == Added
    ensures Shaped(Add(s, row, col, Some(p)).0.cells)
    ensures Remove(Add(s, row, col, Some(p)).0, row, col) == (s, false)
  {
    AddPlaces(s, row, col, p);
    var t := Add(s, row, col, Some(p)).0;
    RemoveClears(t, row, col);
    assert Recount(t, row, p.gender, -1) == Place(s, row, col, p);
    PlaceThenClear(s, row, col, p);
  }

  /**
   * A person who was added is refused the second time, anywhere in the grid,
   * and the refusal changes nothing: no weight is counted twice.
   */
  lemma SecondAddRefused(s: LineupState, row: int, col: int, p: Person, row2: int, col2: int)
    requires Shaped(s.cells) && Add(s, row, col, Some(p)).1 == Added
    ensures Shaped(Add(s, row, col, Some(p)).0.cells)
    ensures var t := Add(s, row, col, Some(p)).0;
      Add(t, row2, col2, Some(p)).1 != Added && Add(t, row2, col2, Some(p)).0 == t
  {
    var t := Add(s, row, col, Some(p)).0;
    assert p.name in t.index;
  }

  // ---------------------------------------------------------------------
  // Swap

  /** Inside the grid neither add nor remove throws, so swap's inner calls never do. */
  lemma InGridNeverRaises(s: LineupState, row: int, col: int, p: Person)
    requires Shaped(s.cells) && InGrid(row, col)
    ensures Add(s, row, col, Some(p)).1 != Raised && !Remove(s, row, col).1
  {
  }

  /** Removing both occupants keeps Balanced and Exact. */
  lemma SwapClearedKeeps(s: LineupState, row1: int, col1: int, row2: int, col2: int)
    requires Balanced(s) && InGrid(row1, col1) && InGrid(row2, col2)
    ensures Balanced(SwapCleared(s, row1, col1, row2, col2))
    ensures Exact(s) ==> Exact(SwapCleared(s, row1, col1, row2, col2))
  {
    var s1 := s;
    if s.cells[row1][col1].Some? {
      RemoveKeeps(s, row1, col1);
      s1 := Remove(s, row1, col1).0;
    }
    if s.cells[row2][col2].Some? {
      RemoveKeeps(s1, row2, col2);
      assert SwapCleared(s, row1, col1, row2, col2) == Remove(s1, row2, col2).0;
    } else {
      assert SwapCleared(s, row1, col1, row2, col2) == s1;
    }
  }

  /** Swap of any variant keeps Balanced and Exact: each add lands on a cell just emptied. */
  lemma SwapKeeps(s: LineupState, row1: int, col1: int, row2: int, col2: int)
    requires Balanced(s)
    ensures Balanced(Swap(s, row1, col1, row2, col2).0)
    ensures Exact(s) ==> Exact(Swap(s, row1, col1, row2, col2).0)
  {
    if InGrid(row1, col1) && InGrid(row2, col2) {
      var p1 := s.cells[row1][col1];
      var p2 := s.cells[row2][col2];
      var s2 := SwapCleared(s, row1, col1, row2, col2);
      SwapClearedKeeps(s, row1, col1, row2, col2);
      var s3 := if p1.Some? then Add(s2, row2, col2, p1).0 else s2;
      AddKeeps(s2, row2, col2, p1);
      if p2.Some? {
        if row1 == row2 && col1 == col2 {
          // The same cell twice: the second add finds p1 back in place.
          SameCellSecondAdd(s2, row1, col1, p1.value);
        } else {
          assert s3.cells[row1][col1] == None;
          AddKeeps(s3, row1, col1, p2);
        }
      }
    }
  }

  /** Adding p twice at the same empty cell: the second add changes nothing. */
  lemma SameCellSecondAdd(s: LineupState, row: int, col: int, p: Person)
    requires Shaped(s.cells) && InGrid(row, col) && s.cells[row][col] == None
    ensures var t := Add(s, row, col, Some(p)).0; Add(t, row, col, Some(p)).0 == t
  {
    var (t, res) := Add(s, row, col, Some(p));
    if res != Added {
      assert t == s;
    }
  }

  /** Removing and re-adding the occupant of a cell of an Exact lineup gives the lineup back. */
  lemma ReseatRestores(s: LineupState, row: int, col: int)
    requires Exact(s) && InGrid(row, col) && s.cells[row][col].Some?
    ensures var t := Remove(s, row, col).0; Add(t, row, col, s.cells[row][col]) == (s, Added)
  {
    var p := s.cells[row][col].value;
    assert p.name in s.index && s.index[p.name] == p;
    assert s.variant != Open && row != 0 ==> p.gender in BenchGenders(s.variant);
    assert s.variant == Mixed ==> s.guys <= 10 && s.girls <= 10;
    Reseat(s, row, col, p);
  }

  /** Removing a person and adding them back where they sat restores the state when the add admits them. */
  lemma Reseat(s: LineupState, row: int, col: int, p: Person)
    requires Shaped(s.cells) && InGrid(row, col) && s.cells[row][col] == Some(p)
    requires p.name in s.index && s.index[p.name] == p
    requires s.variant != Open && row != 0 ==> p.gender in BenchGenders(s.variant)
    requires s.variant == Mixed ==> s.guys <= 10 && s.girls <= 10
    ensures Add(Remove(s, row, col).0, row, col, Some(p)) == (s, Added)
  {
    RemoveClears(s, row, col);
    var r := Recount(s, row, p.gender, -1);
    var t := Clear(r, row, col, p);
    AddAdmits(t, row, col, p);
    AddPlaces(t, row, col, p);
    ClearThenPlace(r, row, col, p);
  }

  /** Swapping a cell with itself changes nothing, for every variant. */
  lemma SwapSelf(s: LineupState, row: int, col: int)
    requires Exact(s) && InGrid(row, col)
    ensures Swap(s, row, col, row, col) == (s, false)
  {
    if s.cells[row][col].Some? {
      ReseatRestores(s, row, col);
      assert s.cells[row][col].value.name in s.index;
    }
  }

  /** The cells after exchanging the contents of two cells. */
  function Exchanged(cells: seq<seq<Option<Person>>>, row1: int, col1: int, row2: int, col2: int): (t: seq<seq<Option<Person>>>)
    requires Shaped(cells) && InGrid(row1, col1) && InGrid(row2, col2)
    ensures Shaped(t)
    ensures t[row1][col1] == cells[row2][col2] && t[row2][col2] == cells[row1][col1]
    ensures forall r, c :: InGrid(r, c) && (r != row1 || c != col1) && (r != row2 || c != col2) ==> t[r][c] == cells[r][c]
  {
    var a := cells[row1][col1];
    var b := cells[row2][col2];
    var c1 := cells[row1 := cells[row1][col1 := b]];
    c1[row2 := c1[row2][col2 := a]]
  }

  /** Two shaped grids that agree on every cell are equal. */
  lemma CellsEqual(a: seq<seq<Option<Person>>>, b: seq<seq<Option<Person>>>)
    requires Shaped(a) && Shaped(b)
    requires forall r, c :: InGrid(r, c) ==> a[r][c] == b[r][c]
    ensures a == b
  {
    forall r | 0 <= r < Rows ensures a[r] == b[r] {
      assert a[r][0] == b[r][0] && a[r][1] == b[r][1];
    }
  }

  /**
   * On a base-class lineup kept Exact, swap exchanges the two occupants and
   * leaves the index alone; the weights follow the new cells.
   */
  lemma OpenSwapExchanges(s: LineupState, row1: int, col1: int, row2: int, col2: int)
    requires Exact(s) && s.variant == Open && InGrid(row1, col1) && InGrid(row2, col2)
    ensures var t := Swap(s, row1, col1, row2, col2).0;
      t.cells == Exchanged(s.cells, row1, col1, row2, col2) && t.index == s.index && Exact(t)
  {
    SwapKeeps(s, row1, col1, row2, col2);
    if row1 == row2 && col1 == col2 {
      SwapSelf(s, row1, col1);
      CellsEqual(Exchanged(s.cells, row1, col1, row2, col2), s.cells);
    } else {
      var p1 := s.cells[row1][col1];
      var p2 := s.cells[row2][col2];
      assert p1.Some? ==> p1.value.name in s.index && s.index[p1.value.name] == p1.value;
      assert p2.Some? ==> p2.value.name in s.index && s.index[p2.value.name] == p2.value;
      assert p1.Some? && p2.Some? ==> p1.value.name != p2.value.name;
      OpenSwapDistinct(s, row1, col1, row2, col2);
    }
  }

  /** The two-distinct-cells case of a base-class swap, from the facts about the two occupants only. */
  lemma OpenSwapDistinct(s: LineupState, row1: int, col1: int, row2: int, col2: int)
    requires Shaped(s.cells) && s.variant == Open && InGrid(row1, col1) && InGrid(row2, col2)
    requires row1 != row2 || col1 != col2
    requires var p1 := s.cells[row1][col1]; p1.Some? ==> p1.value.name in s.index && s.index[p1.value.name] == p1.value
    requires var p2 := s.cells[row2][col2]; p2.Some? ==> p2.value.name in s.index && s.index[p2.value.name] == p2.value
    requires var p1 := s.cells[row1][col1]; var p2 := s.cells[row2][col2];
      p1.Some? && p2.Some? ==> p1.value.name != p2.value.name
    ensures var t := Swap(s, row1, col1, row2, col2).0;
      t.cells == Exchanged(s.cells, row1, col1, row2, col2) && t.index == s.index
  {
    var p1 := s.cells[row1][col1];
    var p2 := s.cells[row2][col2];
    var s2 := SwapCleared(s, row1, col1, row2, col2);
    OpenSwapClearedFacts(s, row1, col1, row2, col2);
    var s3 := if p1.Some? then Add(s2, row2, col2, p1).0 else s2;
    if p1.Some? {
      AddAdmits(s2, row2, col2, p1.value);
      AddPlaces(s2, row2, col2, p1.value);
    }
    var s4 := if p2.Some? then Add(s3, row1, col1, p2).0 else s3;
    if p2.Some? {
      AddAdmits(s3, row1, col1, p2.value);
      AddPlaces(s3, row1, col1, p2.value);
    }
    var e := Exchanged(s.cells, row1, col1, row2, col2);
    forall r, c | InGrid(r, c) ensures s4.cells[r][c] == e[r][c] {
    }
    CellsEqual(s4.cells, e);
    assert s3.index == (if p1.Some? then s2.index[p1.value.name := p1.value] else s2.index);
    assert s4.index == (if p2.Some? then s3.index[p2.value.name := p2.value] else s3.index);
    RestoredIndex(s.index, p1, p2);
  }

  /** Unindexing up to two distinct indexed people and indexing them again gives back the index. */
  lemma RestoredIndex(m: map<string, Person>, p1: Option<Person>, p2: Option<Person>)
    requires p1.Some? ==> p1.value.name in m && m[p1.value.name] == p1.value
    requires p2.Some? ==> p2.value.name in m && m[p2.value.name] == p2.value
    requires p1.Some? && p2.Some? ==> p1.value.name != p2.value.name
    ensures var m2 := m - (if p1.Some? then {p1.value.name} else {}) - (if p2.Some? then {p2.value.name} else {});
      var m3 := if p1.Some? then m2[p1.value.name := p1.value] else m2;
      (if p2.Some? then m3[p2.value.name := p2.value] else m3) == m
  {
  }

  /** The first half of a base-class swap on two distinct cells: both emptied, their names unindexed. */
  lemma OpenSwapClearedFacts(s: LineupState, row1: int, col1: int, row2: int, col2: int)
    requires Shaped(s.cells) && s.variant == Open && InGrid(row1, col1) && InGrid(row2, col2)
    requires row1 != row2 || col1 != col2
    ensures var t := SwapCleared(s, row1, col1, row2, col2);
      && t.variant == Open && Shaped(t.cells)
      && t.cells[row1][col1] == None && t.cells[row2][col2] == None
      && (forall r, c :: InGrid(r, c) && (r != row1 || c != col1) && (r != row2 || c != col2) ==> t.cells[r][c] == s.cells[r][c])
      && t.index == s.index - (if s.cells[row1][col1].Some? then {s.cells[row1][col1].value.name} else {})
                            - (if s.cells[row2][col2].Some? then {s.cells[row2][col2].value.name} else {})
  {
    var p1 := s.cells[row1][col1];
    var p2 := s.cells[row2][col2];
    var s1 := if p1.Some? then Remove(s, row1, col1).0 else s;
    if p1.Some? {
      RemoveClears(s, row1, col1);
    }
    assert s1.cells[row2][col2] == p2;
    if p2.Some? {
      RemoveClears(s1, row2, col2);
    }
  }

  /** Exchanging twice gives the cells back. */
  lemma ExchangedTwice(cells: seq<seq<Option<Person>>>, row1: int, col1: int, row2: int, col2: int)
    requires Shaped(cells) && InGrid(row1, col1) && InGrid(row2, col2)
    ensures Exchanged(Exchanged(cells, row1, col1, row2, col2), row1, col1, row2, col2) == cells
  {
    CellsEqual(Exchanged(Exchanged(cells, row1, col1, row2, col2), row1, col1, row2, col2), cells);
  }

  /** On a base-class lineup kept Exact, swapping the same two cells twice restores the lineup. */
  lemma OpenSwapTwice(s: LineupState, row1: int, col1: int, row2: int, col2: int)
    requires Exact(s) && s.variant == Open
    ensures Swap(Swap(s, row1, col1, row2, col2).0, row1, col1, row2, col2).0 == s
  {
    if InGrid(row1, col1) && InGrid(row2, col2) {
      var t := Swap(s, row1, col1, row2, col2).0;
      OpenSwapExchanges(s, row1, col1, row2, col2);
      OpenSwapExchanges(t, row1, col1, row2, col2);
      ExchangedTwice(s.cells, row1, col1, row2, col2);
    }
  }

  /**
   * Swap re-adds through WomensLineup's own add: a non-female in row 0 swapped
   * with an empty bench cell is seated nowhere afterwards.
   */
  lemma WomensSwapDropsNonFemale(s: LineupState, col0: int, row: int, col: int)
    requires Exact(s) && s.variant == Womens && 0 <= col0 < Cols && 1 <= row < Rows && 0 <= col < Cols
    requires s.cells[0][col0].Some? && s.cells[0][col0].value.gender != "female" && s.cells[row][col] == None
    ensures Seats(Swap(s, 0, col0, row, col).0.cells, s.cells[0][col0].value.name) == 0
  {
    var p := s.cells[0][col0].value;
    var t := Swap(s, 0, col0, row, col).0;
    assert t == Remove(s, 0, col0).0;
    SeatsNone(s, p.name, 0, col0);
    SetCellSeats(s.cells, 0, col0, None, p.name);
  }

  /** In an Exact lineup the person in a cell sits nowhere else. */
  lemma SeatsNone(s: LineupState, k: string, row: int, col: int)
    requires Exact(s) && InGrid(row, col) && s.cells[row][col].Some? && s.cells[row][col].value.name == k
    ensures Seats(s.cells, k) == 1
  {
    SeatsCount(s.cells, k, 0, row, col);
  }

  lemma {:induction false} SeatsCount(cells: seq<seq<Option<Person>>>, k: string, lo: int, row: int, col: int)
    requires Shaped(cells) && NoDuplicates(cells) && 0 <= lo <= Rows && InGrid(row, col)
    requires cells[row][col].Some? && cells[row][col].value.name == k
    ensures RowsTotal(cells, Named(k), lo, Rows) == if lo <= row then 1 else 0
    decreases Rows - lo
  {
    if lo < Rows {
      SeatsCount(cells, k, lo + 1, row, col);
      if lo == row {
        assert IsNamed(cells[lo][1 - col], k) == 0;
      } else {
        assert IsNamed(cells[lo][0], k) == 0;
        assert IsNamed(cells[lo][1], k) == 0;
      }
    }
  }

  /**
   * MixedLineup with ten men on the bench refuses an eleventh; once one of them
   * is removed, a new man fits into an empty bench cell.
   */
  lemma MixedCapacity(s: LineupState, row: int, col: int, man: Person, row2: int, col2: int)
    requires Balanced(s) && s.variant == Mixed && s.guys == 10
    requires man.gender == "male" && man.name !in s.index && InGrid(row2, col2) && row2 != 0
    requires InGrid(row, col) && row != 0 && s.cells[row][col].Some? && s.cells[row][col].value.gender == "male"
    requires row2 != row || col2 != col ==> s.cells[row2][col2] == None
    ensures Add(s, row2, col2, Some(man)) == (s, Rejected)
    ensures var t := Remove(s, row, col).0;
      Shaped(t.cells) && t.guys == 9
      && (man.name !in t.index ==> Add(t, row2, col2, Some(man)).1 == Added && Add(t, row2, col2, Some(man)).0.guys == 10)
  {
    RemoveKeeps(s, row, col);
  }

  // ---------------------------------------------------------------------
  // Clone

  /** The clone as written keeps Balanced, for every variant. */
  lemma CloneKeepsBalanced(s: LineupState)
    requires Balanced(s)
    ensures Balanced(CloneOf(s))
    ensures CloneOf(s).cells == s.cells && CloneOf(s).left == s.left && CloneOf(s).right == s.right
  {
  }

  /**
   * As written, a WomensLineup clone of a lineup with someone seated forgets
   * them: the same person can then be seated a second time.
   */
  lemma WomensCloneAdmitsDuplicate(s: LineupState, row: int, col: int, row2: int, col2: int)
    requires Exact(s) && s.variant == Womens && InGrid(row, col) && InGrid(row2, col2)
    requires s.cells[row][col].Some? && s.cells[row2][col2] == None
    requires row2 != 0 ==> s.cells[row][col].value.gender == "female"
    ensures var p := s.cells[row][col]; var c := CloneOf(s);
      && Shaped(c.cells)
      && Add(c, row2, col2, p).1 == Added
      && !NoDuplicates(Add(c, row2, col2, p).0.cells)
  {
    var p := s.cells[row][col].value;
    var c := CloneOf(s);
    AddAdmits(c, row2, col2, p);
    AddPlaces(c, row2, col2, p);
    var d := Add(c, row2, col2, Some(p)).0;
    assert d.cells[row][col] == Some(p) && d.cells[row2][col2] == Some(p);
    assert (row, col) != (row2, col2);
  }

  /** A clone that copies the name index keeps Exact for every variant. */
  lemma CloneKeepingIndexExact(s: LineupState)
    requires Exact(s)
    ensures Exact(CloneKeepingIndex(s)) && CloneKeepingIndex(s) == s
  {
  }

  /**
   * The corrected counterpart of WomensCloneAdmitsDuplicate, for every
   * variant: in a clone that copies the name index, adding a seated person
   * again does not succeed, nothing changes, and no name is seated twice.
   */
  lemma CloneKeepingIndexRefusesDuplicate(s: LineupState, row: int, col: int, row2: int, col2: int)
    requires Exact(s) && InGrid(row, col) && InGrid(row2, col2)
    requires s.cells[row][col].Some? && s.cells[row2][col2] == None
    ensures var p := s.cells[row][col]; var c := CloneKeepingIndex(s);
      && Shaped(c.cells)
      && Add(c, row2, col2, p).1 != Added && Add(c, row2, col2, p).0 == c
      && NoDuplicates(Add(c, row2, col2, p).0.cells)
  {
    CloneKeepingIndexExact(s);
    assert s.cells[row][col].value.name in s.index;
  }

  // ---------------------------------------------------------------------
  // The master sheet rows

  /** No seated name holds a tab, the sheet's column separator. */
  ghost predicate NoTabs(cells: seq<seq<Option<Person>>>)
    requires Shaped(cells)
  {
    forall r, c :: InGrid(r, c) ==> '\t' !in NameOf(cells[r][c])
  }

  /** Three tab-free fields joined by tabs split back into those fields. */
  lemma SplitThree(a: string, b: string, c: string)
    requires '\t' !in a && '\t' !in b && '\t' !in c
    ensures Text.Split(a + "\t" + b + "\t" + c, '\t') == [a, b, c]
  {
    assert a + "\t" + b + "\t" + c == a + ['\t'] + (b + ['\t'] + c);
    Text.SplitConcat(a, b + ['\t'] + c, '\t');
    Text.SplitConcat(b, c, '\t');
    Text.SplitNoSeparator(c, '\t');
  }

  /**
   * `mastersheetStr` gives 13 rows. Split on tabs, the first is "Caller"
   * with the name at (0, 0), the second the column labels, row i + 1 the
   * seat number i with the names at (i, 0) and (i, 1), and the last "Steer"
   * with the name at (0, 1); empty cells give "".
   */
  lemma SheetRowsParse(cells: seq<seq<Option<Person>>>)
    requires Shaped(cells) && NoTabs(cells)
    ensures var rows := SheetRows(cells);
      && |rows| == Rows + 2
      && Text.Split(rows[0], '\t') == ["Caller", NameOf(cells[0][0]), ""]
      && rows[1] == "Row\tLeft\tRight"
      && (forall i :: 1 <= i < Rows ==>
            Text.Split(rows[i + 1], '\t') == [Text.NatToString(i), NameOf(cells[i][0]), NameOf(cells[i][1])])
      && Text.Split(rows[Rows + 1], '\t') == ["Steer", "", NameOf(cells[0][1])]
  {
    var rows := SheetRows(cells);
    assert InGrid(0, 0) && InGrid(0, 1);
    assert rows[0] == "Caller" + "\t" + NameOf(cells[0][0]) + "\t" + "";
    SplitThree("Caller", NameOf(cells[0][0]), "");
    assert rows[Rows + 1] == "Steer" + "\t" + "" + "\t" + NameOf(cells[0][1]);
    SplitThree("Steer", "", NameOf(cells[0][1]));
    forall i | 1 <= i < Rows
      ensures Text.Split(rows[i + 1], '\t') == [Text.NatToString(i), NameOf(cells[i][0]), NameOf(cells[i][1])]
    {
      assert InGrid(i, 0) && InGrid(i, 1);
      var n := Text.NatToString(i);
      assert '\t' !in n by {
        forall k | 0 <= k < |n| ensures n[k] != '\t' {
        }
      }
      SplitThree(n, NameOf(cells[i][0]), NameOf(cells[i][1]));
    }
  }
}
