/**
 * The two pieces of logic in src/react_components/BoatHeatsDisplay.jsx:
 * `getPeopleGrid`, which lays the roster out two people per row, and
 * `movePerson`, which applies a drag to a clone of the heats and hands the
 * clone on. A drag from the roster carries the (row, col) of this
 * two-column grid, while `BoatHeats.movePerson` turns it into a roster
 * index with a row width of 25; the lemmas at the end show what that does
 * and what a width of 2 would do.
 */
module Display {
  import opened Wrappers
  import opened People
  import opened LineupModel
  import opened HeatsModel
  import opened SortedArrays
  import opened BoatHeatsObjects

  /** The displayed roster's number of columns. */
  const GridCols := 2

  /** `getPeopleGrid` on the roster's items: ceil(n / 2) rows of two cells; cell (r, c) is item r * 2 + c, or null past the end. */
  function PeopleGrid(people: seq<Person>): (g: seq<seq<Option<Person>>>)
    ensures |g| == (|people| + 1) / GridCols
    ensures forall r :: 0 <= r < |g| ==> |g[r]| == GridCols
  {
    seq((|people| + 1) / GridCols, r => seq(GridCols, c => RosterAt(people, r * GridCols + c)))
  }

  /** The cells of a grid, row after row. */
  function Flatten(g: seq<seq<Option<Person>>>): seq<Option<Person>>
  {
    if |g| == 0 then [] else Flatten(g[..|g| - 1]) + g[|g| - 1]
  }

  /** Each item as a filled cell. */
  function Filled(people: seq<Person>): (cells: seq<Option<Person>>)
    ensures |cells| == |people| && forall i :: 0 <= i < |people| ==> cells[i] == Some(people[i])
  {
    seq(|people|, i requires 0 <= i < |people| => Some(people[i]))
  }

  /** The grid has ceil(n / 2) rows of two cells, and cell (r, c) holds item r * 2 + c exactly when there is one. */
  lemma PeopleGridShape(people: seq<Person>)
    ensures var g := PeopleGrid(people);
      && 2 * |g| - 1 <= |people| <= 2 * |g|
      && (forall r :: 0 <= r < |g| ==> |g[r]| == 2)
      && (forall r, c :: 0 <= r < |g| && 0 <= c < 2 ==>
            (g[r][c].Some? <==> r * 2 + c < |people|) && (g[r][c].Some? ==> g[r][c].value == people[r * 2 + c]))
  {
    var g := PeopleGrid(people);
    forall r, c | 0 <= r < |g| && 0 <= c < 2
      ensures g[r][c] == RosterAt(people, r * 2 + c)
    {
    }
  }

  /** The first m rows, read row by row, are the first 2 m indices of the roster. */
  lemma {:induction false} FlattenRows(people: seq<Person>, m: nat)
    requires m <= |PeopleGrid(people)|
    ensures Flatten(PeopleGrid(people)[..m]) == seq(2 * m, i => RosterAt(people, i))
  {
    var g := PeopleGrid(people);
    if m > 0 {
      FlattenRows(people, m - 1);
      assert g[..m][..m - 1] == g[..m - 1];
      assert g[..m][m - 1] == g[m - 1];
      assert seq(2 * m, i => RosterAt(people, i)) == seq(2 * (m - 1), i => RosterAt(people, i)) + g[m - 1];
    }
  }

  /**
   * Read row by row, the grid lists every roster item once, in roster
   * order, followed by one empty cell when the count is odd.
   */
  lemma PeopleGridRowMajor(people: seq<Person>)
    ensures Flatten(PeopleGrid(people)) == Filled(people) + if |people| % 2 == 1 then [None] else []
  {
    var g := PeopleGrid(people);
    FlattenRows(people, |g|);
    assert g[..|g|] == g;
  }

  /**
   * The display's `movePerson`: the heats are cloned and the move applied
   * to the clone with the roster's items. When the move completes the clone
   * is what is handed on; when it throws, nothing is handed on and the
   * display keeps `heats`. `heats` itself is never changed.
   */
  method DisplayMove(heats: BoatHeats, from: Loc, to: Loc, roster: SortedArray<Person>) returns (shown: BoatHeats, raised: bool)
    requires heats.Valid() && roster.Valid()
    ensures var r := Move(CloneHeats(old(heats.State())), from, to, old(roster.data), RosterStride);
      && raised == r.1
      && (raised ==> shown == heats)
      && (!raised ==> fresh(shown.Repr) && shown.Valid() && shown.State() == r.0)
  {
    var items := roster.GetAll();
    var next := heats.Clone();
    raised := next.MovePerson(from, to, items);
    shown := if raised then heats else next;
  }

  // ---------------------------------------------------------------------
  // The roster row width

  /**
   * As written: a drag from the displayed roster's second row or below,
   * with at most 25 people on the roster, finds no one at index
   * row * 25 + col and changes nothing, though the cell shows a person
   * whenever row * 2 + col is below the roster's length.
   */
  lemma RosterDragAsWritten(h: HeatsState, roster: seq<Person>, r: int, c: int, to: Loc)
    requires AllShaped(h) && to.Heat?
    requires 1 <= r && 0 <= c < GridCols && |roster| <= RosterStride
    ensures Move(h, RosterSlot(r, c), to, roster, RosterStride) == (h, false)
  {
  }

  /** For instance: three people, a drag of the third (shown at row 1, column 0) onto an empty heat cell does nothing. */
  lemma RosterDragExample(a: Person, b: Person, p: Person)
    ensures var roster := [a, b, p]; var h := NewHeats("Boat", 1, "Open");
      && PeopleGrid(roster)[1][0] == Some(p)
      && Move(h, RosterSlot(1, 0), Heat(0, 1, 0), roster, RosterStride) == (h, false)
  {
    var roster := [a, b, p];
    assert PeopleGrid(roster)[1] == [RosterAt(roster, 2), RosterAt(roster, 3)];
    RosterDragAsWritten(NewHeats("Boat", 1, "Open"), roster, 1, 0, Heat(0, 1, 0));
  }

  /**
   * Corrected: with the display's row width of 2, a drag from any cell
   * the grid shows filled moves exactly the person shown there.
   */
  lemma RosterDragCorrected(h: HeatsState, roster: seq<Person>, r: int, c: int, to: Loc)
    requires AllShaped(h) && to.Heat?
    requires 0 <= r < |PeopleGrid(roster)| && 0 <= c < GridCols && PeopleGrid(roster)[r][c].Some?
    ensures Move(h, RosterSlot(r, c), to, roster, GridCols) == RosterToHeat(h, to, PeopleGrid(roster)[r][c])
  {
  }
}
