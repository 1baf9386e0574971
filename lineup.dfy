/**
 * The lineup object of src/lineup_objects/Lineup.js, WomensLineup.js and
 * MixedLineup.js as one class with a variant tag. The grid is an 11 x 2
 * array updated in place; a ghost copy of its cells ties it to the value
 * model, and every method is proved to move the object's state exactly as
 * the function of the same name in LineupModel says.
 */
module Lineups {
  import opened Wrappers
  import opened People
  import opened LineupModel
  import Text

  class Lineup {
    var variant: Variant
    var grid: array2<Option<Person>>
    var peopleMap: map<string, Person>
    var leftWeight: int
    var rightWeight: int
    /** MixedLineup's counters; the other two classes have no such fields and keep them 0. */
    var girlCount: int
    var guyCount: int
    /** The contents of `grid`, row by row. */
    ghost var cells: seq<seq<Option<Person>>>

    ghost predicate Valid()
      reads this, grid
    {
      && grid.Length0 == Rows && grid.Length1 == Cols
      && Shaped(cells)
      && forall r, c :: 0 <= r < Rows && 0 <= c < Cols ==> grid[r, c] == cells[r][c]
    }

    /** The object's fields as a value of the model. */
    ghost function State(): LineupState
      reads this
    {
      LineupState(variant, cells, peopleMap, leftWeight, rightWeight, girlCount, guyCount)
    }

    /** `new Lineup()`, `new WomensLineup()` or `new MixedLineup()`: an empty grid, no names, zero totals. */
    constructor(v: Variant)
      ensures Valid() && fresh(grid)
      ensures State() == EmptyState(v)
    {
      variant := v;
      grid := new Option<Person>[Rows, Cols]((r, c) => None);
      cells := EmptyState(v).cells;
      peopleMap := map[];
      leftWeight := 0;
      rightWeight := 0;
      girlCount := 0;
      guyCount := 0;
    }

    /** Writes one cell of the grid and its ghost copy. */
    method SetCell(row: int, col: int, v: Option<Person>)
      requires Valid() && InGrid(row, col)
      modifies this, grid
      ensures Valid() && grid == old(grid)
      ensures cells == old(cells)[row := old(cells)[row][col := v]]
      ensures variant == old(variant) && peopleMap == old(peopleMap)
      ensures leftWeight == old(leftWeight) && rightWeight == old(rightWeight)
      ensures girlCount == old(girlCount) && guyCount == old(guyCount)
    {
      grid[row, col] := v;
      cells := cells[row := cells[row][col := v]];
    }

    /** The base class's `addPerson`. */
    method BaseAddPerson(row: int, col: int, person: Option<Person>) returns (res: AddResult)
      requires Valid()
      modifies this, grid
      ensures Valid() && grid == old(grid)
      ensures (State(), res) == BaseAdd(old(State()), row, col, person)
    {
      if person.None? || person.value.name in peopleMap {
        return Rejected;
      }
      if row < 0 || row >= Rows || col < 0 || col >= Cols {
        return Raised;
      }
      var p := person.value;
      SetCell(row, col, person);
      peopleMap := peopleMap[p.name := p];
      if row != 0 {
        if col == 0 {
          leftWeight := leftWeight + p.weight;
        } else if col == 1 {
          rightWeight := rightWeight + p.weight;
        }
      }
      res := Added;
    }

    /** `addPerson` as dispatched on the object's class. */
    method AddPerson(row: int, col: int, person: Option<Person>) returns (res: AddResult)
      requires Valid()
      modifies this, grid
      ensures Valid() && grid == old(grid)
      ensures (State(), res) == Add(old(State()), row, col, person)
    {
      match variant
      case Open =>
        res := BaseAddPerson(row, col, person);
      case Womens =>
        if (person.Some? && person.value.gender == "female") || row == 0 {
          res := BaseAddPerson(row, col, person);
        } else if person.None? {
          // Logging the refused person's name reads a field of null.
          res := Raised;
        } else {
          res := Rejected;
        }
      case Mixed =>
        if row == 0 {
          res := BaseAddPerson(row, col, person);
        } else if person.None? {
          res := Raised;
        } else if person.value.gender == "male" {
          if guyCount >= 10 {
            res := Rejected;
          } else {
            res := BaseAddPerson(row, col, person);
            if res == Added {
              guyCount := guyCount + 1;
            }
          }
        } else if person.value.gender == "female" {
          if girlCount >= 10 {
            res := Rejected;
          } else {
            res := BaseAddPerson(row, col, person);
            if res == Added {
              girlCount := girlCount + 1;
            }
          }
        } else {
          res := NoValue;
        }
    }

    /** The base class's `removePerson`; `raised` says the call threw. */
    method BaseRemovePerson(row: int, col: int) returns (raised: bool)
      requires Valid()
      modifies this, grid
      ensures Valid() && grid == old(grid)
      ensures (State(), raised) == BaseRemove(old(State()), row, col)
    {
      if row < 0 || row >= Rows || col < 0 || col >= Cols {
        return true;
      }
      var p := grid[row, col];
      if p.Some? {
        if col == 0 && row != 0 {
          leftWeight := leftWeight - p.value.weight;
        } else if col == 1 && row != 0 {
          rightWeight := rightWeight - p.value.weight;
        }
        SetCell(row, col, None);
        peopleMap := peopleMap - {p.value.name};
      }
      raised := false;
    }

    /** `removePerson` as dispatched on the object's class. */
    method RemovePerson(row: int, col: int) returns (raised: bool)
      requires Valid()
      modifies this, grid
      ensures Valid() && grid == old(grid)
      ensures (State(), raised) == Remove(old(State()), row, col)
    {
      if variant == Mixed && row != 0 {
        if row < 0 || row >= Rows || col < 0 || col >= Cols {
          return true;
        }
        var p := grid[row, col];
        if p.Some? && p.value.gender == "male" {
          guyCount := guyCount - 1;
        }
        if p.Some? && p.value.gender == "female" {
          girlCount := girlCount - 1;
        }
      }
      raised := BaseRemovePerson(row, col);
    }

    /** `swapPerson`: bounds check, then remove both occupants and add each at the other's cell. */
    method SwapPerson(row1: int, col1: int, row2: int, col2: int) returns (raised: bool)
      requires Valid()
      modifies this, grid
      ensures Valid() && grid == old(grid)
      ensures (State(), raised) == Swap(old(State()), row1, col1, row2, col2)
    {
      if !InGrid(row1, col1) || !InGrid(row2, col2) {
        return true;
      }
      ghost var s := State();
      var p1 := grid[row1, col1];
      var p2 := grid[row2, col2];
      var r: bool;
      if p1.Some? {
        r := RemovePerson(row1, col1);
      }
      if p2.Some? {
        r := RemovePerson(row2, col2);
      }
      assert State() == SwapCleared(s, row1, col1, row2, col2);
      var a: AddResult;
      if p1.Some? {
        a := AddPerson(row2, col2, p1);
      }
      if p2.Some? {
        a := AddPerson(row1, col1, p2);
      }
      raised := false;
    }

    /**
     * `clone`: a new object of the same class with a fresh copy of the grid
     * and the weights. Only the base class copies `peopleMap`; the two
     * subclasses copy a `peopleSet` field instead, so their clone's name
     * index is empty. Only MixedLineup copies the counters.
     */
    method Clone() returns (c: Lineup)
      requires Valid()
      ensures fresh(c) && fresh(c.grid)
      ensures c.Valid() && c.State() == CloneOf(State())
    {
      c := new Lineup(variant);
      for r := 0 to Rows
        invariant fresh(c) && fresh(c.grid) && c.grid.Length0 == Rows && c.grid.Length1 == Cols
        invariant c.State() == EmptyState(variant)
        invariant forall i, j :: 0 <= i < r && 0 <= j < Cols ==> c.grid[i, j] == grid[i, j]
      {
        for k := 0 to Cols
          invariant fresh(c) && fresh(c.grid) && c.grid.Length0 == Rows && c.grid.Length1 == Cols
          invariant c.State() == EmptyState(variant)
          invariant forall i, j :: 0 <= i < r && 0 <= j < Cols ==> c.grid[i, j] == grid[i, j]
          invariant forall j :: 0 <= j < k ==> c.grid[r, j] == grid[r, j]
        {
          c.grid[r, k] := grid[r, k];
        }
      }
      c.cells := cells;
      c.leftWeight := leftWeight;
      c.rightWeight := rightWeight;
      if variant == Open {
        c.peopleMap := peopleMap;
      }
      if variant == Mixed {
        c.girlCount := girlCount;
        c.guyCount := guyCount;
      }
    }

    /** `mastersheetStr`: caller, column labels, one line per seat row, steer. */
    method MastersheetStr() returns (rows: seq<string>)
      requires Valid()
      ensures rows == SheetRows(cells)
    {
      rows := ["Caller\t" + NameOf(grid[0, 0]) + "\t"];
      rows := rows + ["Row\tLeft\tRight"];
      for i := 1 to Rows
        invariant |rows| == i + 1
        invariant rows[..2] == SheetRows(cells)[..2]
        invariant forall k :: 1 <= k < i ==> rows[k + 1] == SeatRow(cells, k)
      {
        rows := rows + [Text.NatToString(i) + "\t" + NameOf(grid[i, 0]) + "\t" + NameOf(grid[i, 1])];
      }
      rows := rows + ["Steer\t\t" + NameOf(grid[0, 1])];
      assert rows == SheetRows(cells);
    }
  }
}
