/**
 * The lineup of src/lineup_objects/Lineup.js and its two subclasses
 * (WomensLineup.js, MixedLineup.js) as values: one state record with a
 * variant tag, and one function per method giving the new state and the
 * method's outcome. Each function follows the branches of the JavaScript
 * method it is named after; the class in lineup.dfy is proved against them.
 */
module LineupModel {
  import opened Wrappers
  import opened People
  import Text

  const Rows := 11
  const Cols := 2

  /** Which class the lineup is: Lineup, WomensLineup or MixedLineup. */
  datatype Variant = Open | Womens | Mixed

  /**
   * The outcome of `addPerson`: it returns true or false, MixedLineup's
   * version returns undefined for a gender other than "male"/"female", and
   * the call may throw (a bounds error or a TypeError on null).
   */
  datatype AddResult = Added | Rejected | NoValue | Raised

  /**
   * The fields of a lineup object: `grid` (11 rows of 2 cells), `peopleMap`
   * (name to person), `leftWeight`, `rightWeight`, and MixedLineup's
   * `girlCount` and `guyCount` (0 for the other two variants).
   */
  datatype LineupState = LineupState(
    variant: Variant,
    cells: seq<seq<Option<Person>>>,
    index: map<string, Person>,
    left: int,
    right: int,
    girls: int,
    guys: int)

  predicate Shaped(cells: seq<seq<Option<Person>>>)
  {
    |cells| == Rows && forall r :: 0 <= r < Rows ==> |cells[r]| == Cols
  }

  predicate InGrid(row: int, col: int)
  {
    0 <= row < Rows && 0 <= col < Cols
  }

  /** A fresh lineup of the given variant: every cell null, weights and counters 0, empty index. */
  function EmptyState(v: Variant): (s: LineupState)
    ensures Shaped(s.cells)
    ensures forall r, c :: InGrid(r, c) ==> s.cells[r][c] == None
  {
    LineupState(v, seq(Rows, r => seq(Cols, c => None)), map[], 0, 0, 0, 0)
  }

  // ---------------------------------------------------------------------
  // Totals over rows: weights per column, gender counts, seats per name.

  datatype Metric = LeftWeight | RightWeight | Gender(g: string) | Named(k: string)

  function WeightOf(cell: Option<Person>): int
  {
    if cell.Some? then cell.value.weight else 0
  }

  function IsGender(cell: Option<Person>, g: string): nat
  {
    if cell.Some? && cell.value.gender == g then 1 else 0
  }

  function IsNamed(cell: Option<Person>, k: string): nat
  {
    if cell.Some? && cell.value.name == k then 1 else 0
  }

  function Measure(m: Metric, row: seq<Option<Person>>): int
    requires |row| == Cols
  {
    match m
    case LeftWeight => WeightOf(row[0])
    case RightWeight => WeightOf(row[1])
    case Gender(g) => IsGender(row[0], g) + IsGender(row[1], g)
    case Named(k) => IsNamed(row[0], k) + IsNamed(row[1], k)
  }

  /** The sum of the metric over rows lo..hi-1. */
  function RowsTotal(cells: seq<seq<Option<Person>>>, m: Metric, lo: int, hi: int): (t: int)
    requires Shaped(cells) && 0 <= lo <= hi <= Rows
    ensures !m.LeftWeight? && !m.RightWeight? ==> 0 <= t <= 2 * (hi - lo)
    decreases hi - lo
  {
    if lo == hi then 0 else Measure(m, cells[lo]) + RowsTotal(cells, m, lo + 1, hi)
  }

  /** Sum of the weights in column 0 of rows 1..10: row 0 (caller, steer) never counts. */
  function LeftTotal(cells: seq<seq<Option<Person>>>): int
    requires Shaped(cells)
  {
    RowsTotal(cells, LeftWeight, 1, Rows)
  }

  function RightTotal(cells: seq<seq<Option<Person>>>): int
    requires Shaped(cells)
  {
    RowsTotal(cells, RightWeight, 1, Rows)
  }

  /** Number of bench seats (rows 1..10) held by someone of gender g. */
  function BenchCount(cells: seq<seq<Option<Person>>>, g: string): int
    requires Shaped(cells)
  {
    RowsTotal(cells, Gender(g), 1, Rows)
  }

  /** Number of cells, row 0 included, held by someone named k. */
  function Seats(cells: seq<seq<Option<Person>>>, k: string): int
    requires Shaped(cells)
  {
    RowsTotal(cells, Named(k), 0, Rows)
  }

  // ---------------------------------------------------------------------
  // Lineup.js

  /** The body of a successful base `addPerson`: place, index, and weigh unless in row 0. */
  function Place(s: LineupState, row: int, col: int, p: Person): (t: LineupState)
    requires Shaped(s.cells) && InGrid(row, col)
  {
    s.(cells := s.cells[row := s.cells[row][col := Some(p)]],
       index := s.index[p.name := p],
       left := if row != 0 && col == 0 then s.left + p.weight else s.left,
       right := if row != 0 && col == 1 then s.right + p.weight else s.right)
  }

  /** The body of base `removePerson` on an occupied cell. */
  function Clear(s: LineupState, row: int, col: int, p: Person): (t: LineupState)
    requires Shaped(s.cells) && InGrid(row, col)
  {
    s.(cells := s.cells[row := s.cells[row][col := None]],
       index := s.index - {p.name},
       left := if col == 0 && row != 0 then s.left - p.weight else s.left,
       right := if col == 1 && row != 0 then s.right - p.weight else s.right)
  }

  /**
   * `Lineup.addPerson`: null or a name already indexed is refused before the
   * bounds are looked at; bad coordinates throw; the target cell is
   * overwritten without looking at what it holds.
   */
  function BaseAdd(s: LineupState, row: int, col: int, person: Option<Person>): (r: (LineupState, AddResult))
    requires Shaped(s.cells)
    ensures r.1 == Rejected <==> person.None? || person.value.name in s.index
    ensures r.1 == Raised <==> person.Some? && person.value.name !in s.index && !InGrid(row, col)
    ensures r.1 != Added ==> r.0 == s
    ensures r.1 == Added ==>
      && Shaped(r.0.cells) && r.0.cells[row][col] == person
      && (forall i, j :: InGrid(i, j) && (i != row || j != col) ==> r.0.cells[i][j] == s.cells[i][j])
      && r.0.index == s.index[person.value.name := person.value]
      && r.0.left == s.left + (if row != 0 && col == 0 then person.value.weight else 0)
      && r.0.right == s.right + (if row != 0 && col == 1 then person.value.weight else 0)
      && r.0.variant == s.variant && r.0.girls == s.girls && r.0.guys == s.guys
  {
    if person.None? || person.value.name in s.index then (s, Rejected)
    else if !InGrid(row, col) then (s, Raised)
    else (Place(s, row, col, person.value), Added)
  }

  /**
   * `Lineup.removePerson`: `grid[row]` of a bad row is undefined and indexing
   * it throws; in a good row a bad column reads undefined, which is not null,
   * and reading its name throws.
   */
  function BaseRemove(s: LineupState, row: int, col: int): (r: (LineupState, bool))
    requires Shaped(s.cells)
    ensures r.1 <==> !InGrid(row, col)
    ensures r.1 || s.cells[row][col].None? ==> r.0 == s
    ensures !r.1 && s.cells[row][col].Some? ==>
      var p := s.cells[row][col].value;
      && Shaped(r.0.cells) && r.0.cells[row][col].None?
      && (forall i, j :: InGrid(i, j) && (i != row || j != col) ==> r.0.cells[i][j] == s.cells[i][j])
      && r.0.index == s.index - {p.name}
      && r.0.left == s.left - (if row != 0 && col == 0 then p.weight else 0)
      && r.0.right == s.right - (if row != 0 && col == 1 then p.weight else 0)
      && r.0.variant == s.variant && r.0.girls == s.girls && r.0.guys == s.guys
  {
    if !InGrid(row, col) then (s, true)
    else match s.cells[row][col]
      case None => (s, false)
      case Some(p) => (Clear(s, row, col, p), false)
  }

  // ---------------------------------------------------------------------
  // WomensLineup.js and MixedLineup.js

  /** `WomensLineup.addPerson`: only "female" outside row 0; null there throws when logged. */
  function WomensAdd(s: LineupState, row: int, col: int, person: Option<Person>): (r: (LineupState, AddResult))
    requires Shaped(s.cells)
    ensures row == 0 ==> r == BaseAdd(s, row, col, person)
    ensures row != 0 && person.Some? && person.value.gender != "female" ==> r == (s, Rejected)
    ensures row != 0 && person.Some? && person.value.gender == "female" ==> r == BaseAdd(s, row, col, person)
  {
    if (person.Some? && person.value.gender == "female") || row == 0 then BaseAdd(s, row, col, person)
    else if person.None? then (s, Raised)
    else (s, Rejected)
  }

  /**
   * `MixedLineup.addPerson`: row 0 goes to the base; elsewhere at most 10 men
   * and 10 women, a counter rising only when the base add succeeded; any
   * other gender falls off the end and returns undefined.
   */
  function MixedAdd(s: LineupState, row: int, col: int, person: Option<Person>): (r: (LineupState, AddResult))
    requires Shaped(s.cells)
    ensures row == 0 ==> r == BaseAdd(s, row, col, person)
    ensures row != 0 && person.Some? && person.value.gender == "male" && s.guys >= 10 ==> r == (s, Rejected)
    ensures row != 0 && person.Some? && person.value.gender == "female" && s.girls >= 10 ==> r == (s, Rejected)
    ensures row != 0 && person.Some? && person.value.gender != "male" && person.value.gender != "female" ==> r == (s, NoValue)
    ensures row != 0 ==> r.0.guys == s.guys + (if r.1 == Added && person.Some? && person.value.gender == "male" then 1 else 0)
    ensures row != 0 ==> r.0.girls == s.girls + (if r.1 == Added && person.Some? && person.value.gender == "female" then 1 else 0)
    ensures row != 0 && r.1 != Added ==> r.0 == s
  {
    if row == 0 then BaseAdd(s, row, col, person)
    else if person.None? then (s, Raised)
    else if person.value.gender == "male" then
      if s.guys >= 10 then (s, Rejected)
      else
        var (t, r) := BaseAdd(s, row, col, person);
        if r != Added then (t, r) else (t.(guys := t.guys + 1), Added)
    else if person.value.gender == "female" then
      if s.girls >= 10 then (s, Rejected)
      else
        var (t, r) := BaseAdd(s, row, col, person);
        if r != Added then (t, r) else (t.(girls := t.girls + 1), Added)
    else (s, NoValue)
  }

  /** `MixedLineup.removePerson`: outside row 0, the occupant's counter drops before the base removal. */
  function MixedRemove(s: LineupState, row: int, col: int): (r: (LineupState, bool))
    requires Shaped(s.cells)
    ensures row == 0 ==> r == BaseRemove(s, row, col)
    ensures r.1 <==> !InGrid(row, col)
    ensures r.1 || s.cells[row][col].None? ==> r.0 == s
    ensures !r.1 && row != 0 && s.cells[row][col].Some? ==>
      var g := s.cells[row][col].value.gender;
      && r.0.guys == s.guys - (if g == "male" then 1 else 0)
      && r.0.girls == s.girls - (if g == "female" then 1 else 0)
  {
    if row == 0 then BaseRemove(s, row, col)
    else if !InGrid(row, col) then (s, true)
    else
      var p := s.cells[row][col];
      var s1 :=
        if p.Some? && p.value.gender == "male" then s.(guys := s.guys - 1)
        else if p.Some? && p.value.gender == "female" then s.(girls := s.girls - 1)
        else s;
      BaseRemove(s1, row, col)
  }

  /** `addPerson` as dispatched on the lineup's class: it writes at most the target cell. */
  function Add(s: LineupState, row: int, col: int, person: Option<Person>): (r: (LineupState, AddResult))
    requires Shaped(s.cells)
    ensures Shaped(r.0.cells) && r.0.variant == s.variant
    ensures forall i, j :: InGrid(i, j) && (i != row || j != col) ==> r.0.cells[i][j] == s.cells[i][j]
    ensures r.1 == Added ==> person.Some? && InGrid(row, col) && r.0.cells[row][col] == person && person.value.name in r.0.index
    ensures r.1 != Added ==> r.0 == s
    ensures person.Some? && person.value.name in s.index ==> r.1 != Added
  {
    match s.variant
    case Open => BaseAdd(s, row, col, person)
    case Womens => WomensAdd(s, row, col, person)
    case Mixed => MixedAdd(s, row, col, person)
  }

  /** `removePerson` as dispatched on the lineup's class: it empties at most the target cell. */
  function Remove(s: LineupState, row: int, col: int): (r: (LineupState, bool))
    requires Shaped(s.cells)
    ensures Shaped(r.0.cells) && r.0.variant == s.variant
    ensures forall i, j :: InGrid(i, j) && (i != row || j != col) ==> r.0.cells[i][j] == s.cells[i][j]
    ensures r.1 <==> !InGrid(row, col)
    ensures !r.1 ==> r.0.cells[row][col] == None
  {
    if s.variant == Mixed then MixedRemove(s, row, col) else BaseRemove(s, row, col)
  }

  /** The first half of `swapPerson`: each of the two cells' occupants, as read before either call, removed. */
  function SwapCleared(s: LineupState, row1: int, col1: int, row2: int, col2: int): (t: LineupState)
    requires Shaped(s.cells) && InGrid(row1, col1) && InGrid(row2, col2)
    ensures Shaped(t.cells) && t.variant == s.variant
    ensures t.cells[row1][col1] == None && t.cells[row2][col2] == None
  {
    var s1 := if s.cells[row1][col1].Some? then Remove(s, row1, col1).0 else s;
    if s.cells[row2][col2].Some? then Remove(s1, row2, col2).0 else s1
  }

  /**
   * `Lineup.swapPerson`: bounds first, then remove both occupants and add each
   * at the other's cell through the (overridable) add and remove. The inner
   * calls cannot throw once the bounds hold (LineupFacts.InGridNeverRaises),
   * so their outcomes are dropped as the source drops them.
   */
  function Swap(s: LineupState, row1: int, col1: int, row2: int, col2: int): (r: (LineupState, bool))
    requires Shaped(s.cells)
    ensures Shaped(r.0.cells) && r.0.variant == s.variant
    ensures r.1 <==> !InGrid(row1, col1) || !InGrid(row2, col2)
    ensures r.1 ==> r.0 == s
  {
    if !InGrid(row1, col1) || !InGrid(row2, col2) then (s, true)
    else
      var p1 := s.cells[row1][col1];
      var p2 := s.cells[row2][col2];
      var s2 := SwapCleared(s, row1, col1, row2, col2);
      var s3 := if p1.Some? then Add(s2, row2, col2, p1).0 else s2;
      (if p2.Some? then Add(s3, row1, col1, p2).0 else s3, false)
  }

  /**
   * `clone` as written for each class: the base copies `peopleMap`; the
   * WomensLineup and MixedLineup versions copy a `peopleSet` field the base
   * never defines, so their clone's `peopleMap` is the constructor's empty map.
   * MixedLineup also copies its counters.
   */
  function CloneOf(s: LineupState): (c: LineupState)
    ensures c.variant == s.variant && c.cells == s.cells && c.left == s.left && c.right == s.right
    ensures c.index == s.index <==> s.variant == Open || s.index == map[]
    ensures s.variant == Mixed ==> c.girls == s.girls && c.guys == s.guys
  {
    s.(index := if s.variant == Open then s.index else map[],
       girls := if s.variant == Mixed then s.girls else 0,
       guys := if s.variant == Mixed then s.guys else 0)
  }

  /** The clone every variant should have made: the name index copied too. */
  function CloneKeepingIndex(s: LineupState): (c: LineupState)
    ensures c.variant == s.variant && c.cells == s.cells && c.index == s.index
    ensures c.left == s.left && c.right == s.right
    ensures s.variant == Mixed ==> c.girls == s.girls && c.guys == s.guys
  {
    s.(girls := if s.variant == Mixed then s.girls else 0,
       guys := if s.variant == Mixed then s.guys else 0)
  }

  // ---------------------------------------------------------------------
  // mastersheetStr

  /** `grid[r][c]?.name ?? ""`. */
  function NameOf(cell: Option<Person>): string
  {
    if cell.Some? then cell.value.name else ""
  }

  function SeatRow(cells: seq<seq<Option<Person>>>, i: int): string
    requires Shaped(cells) && 1 <= i < Rows
  {
    Text.NatToString(i) + "\t" + NameOf(cells[i][0]) + "\t" + NameOf(cells[i][1])
  }

  /** The rows `mastersheetStr` returns: caller, column labels, seats 1..10, steer. */
  function SheetRows(cells: seq<seq<Option<Person>>>): (rows: seq<string>)
    requires Shaped(cells)
    ensures |rows| == Rows + 2 && rows[1] == "Row\tLeft\tRight"
  {
    ["Caller\t" + NameOf(cells[0][0]) + "\t", "Row\tLeft\tRight"]
    + seq(Rows - 1, k requires 0 <= k < Rows - 1 => SeatRow(cells, k + 1))
    + ["Steer\t\t" + NameOf(cells[0][1])]
  }
}
