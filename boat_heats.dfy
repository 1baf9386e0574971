/**
 * The BoatHeats object of src/data_objects/BoatHeats.js: a map from heat
 * index to a Lineup object. Every method is proved to move the object's
 * state exactly as the function of HeatsModel it is named after says, and
 * `Clone` to build an object sharing nothing with the original.
 */
module BoatHeatsObjects {
  import opened Wrappers
  import opened People
  import opened LineupModel
  import opened HeatsModel
  import opened Lineups
  import Text

  /** The row width `movePerson` uses to index the roster. */
  const RosterStride := 25

  /** The inner loop of `mastersheetStr`: each line gets the matching row of one heat and two tabs. */
  method AppendRows(rows: seq<string>, more: seq<string>) returns (r: seq<string>)
    requires |rows| == |more|
    ensures |r| == |rows|
    ensures forall j :: 0 <= j < |r| ==> r[j] == rows[j] + more[j] + "\t\t"
  {
    r := rows;
    for j := 0 to |more|
      invariant |r| == |rows|
      invariant forall k :: 0 <= k < j ==> r[k] == rows[k] + more[k] + "\t\t"
      invariant forall k :: j <= k < |r| ==> r[k] == rows[k]
    {
      r := r[j := r[j] + more[j] + "\t\t"];
    }
  }

  class BoatHeats {
    var boatName: string
    var numHeats: int
    var boatType: string
    var lineups: map<int, Lineup>
    /** This object, its lineups and their grids. */
    ghost var Repr: set<object>

    ghost predicate Valid()
      reads this, Repr
    {
      && this in Repr
      && (forall k :: 0 <= k < HeatCount(numHeats) <==> k in lineups)
      && (forall k :: k in lineups ==> lineups[k] in Repr && lineups[k].grid in Repr && lineups[k].Valid())
      && (forall j, k :: j in lineups && k in lineups && j != k ==>
            lineups[j] != lineups[k] && lineups[j].grid != lineups[k].grid)
    }

    /** The object's fields as a value of the model. */
    ghost function State(): HeatsState
      reads this, lineups.Values
    {
      HeatsState(boatName, numHeats, boatType, map k | k in lineups :: lineups[k].State())
    }

    /** `new BoatHeats(boatName, numHeats, boatType)`: one fresh lineup of the type's class per heat. */
    constructor(boatName: string, numHeats: int, boatType: string)
      ensures Valid() && fresh(Repr) && lineups.Values <= Repr
      ensures this.boatName == boatName && this.numHeats == numHeats && this.boatType == boatType
      ensures State() == NewHeats(boatName, numHeats, boatType)
    {
      var m: map<int, Lineup> := map[];
      ghost var repr: set<object> := {};
      var i := 0;
      while i < numHeats
        invariant 0 <= i <= HeatCount(numHeats)
        invariant forall k :: 0 <= k < i <==> k in m
        invariant forall k :: k in m ==> m[k] in repr && m[k].grid in repr && m[k].Valid()
        invariant forall k :: k in m ==> m[k].State() == EmptyState(VariantOf(boatType))
        invariant forall j, k :: j in m && k in m && j != k ==> m[j] != m[k] && m[j].grid != m[k].grid
        invariant fresh(repr)
      {
        var l := new Lineup(VariantOf(boatType));
        m := m[i := l];
        repr := repr + {l, l.grid};
        i := i + 1;
      }
      this.boatName := boatName;
      this.numHeats := numHeats;
      this.boatType := boatType;
      lineups := m;
      Repr := repr + {this};
      new;
      FreshState();
    }

    /** Heats whose lineups are all empty, one per index, have the constructor's state. */
    lemma FreshState()
      requires forall k :: 0 <= k < HeatCount(numHeats) <==> k in lineups
      requires forall k :: k in lineups ==> lineups[k].State() == EmptyState(VariantOf(boatType))
      ensures State() == NewHeats(boatName, numHeats, boatType)
    {
      var n := NewHeats(boatName, numHeats, boatType);
      assert State().lineups.Keys == n.lineups.Keys;
      forall k | k in n.lineups ensures State().lineups[k] == n.lineups[k] {
      }
      assert State().lineups == n.lineups;
    }

    /**
     * When at most the lineups under the two keys of `ks` changed, and they
     * are still valid over the same grids, the object is valid and its
     * state is the old one with those two lineups replaced. The keys come
     * as one pair because Dafny 4.11, run with
     * `--warn-contradictory-assumptions`, stops with a prover error
     * ("named expression already defined") on a two-state lemma with two
     * parameters.
     */
    twostate lemma TwoChanged(ks: (int, int))
      requires old(Valid()) && ks.0 in lineups && ks.1 in lineups
      requires lineups == old(lineups) && Repr == old(Repr)
      requires boatName == old(boatName) && numHeats == old(numHeats) && boatType == old(boatType)
      requires lineups[ks.0].Valid() && lineups[ks.0].grid == old(lineups[ks.0].grid)
      requires lineups[ks.1].Valid() && lineups[ks.1].grid == old(lineups[ks.1].grid)
      requires forall j :: j in lineups && j != ks.0 && j != ks.1 ==> unchanged(old(lineups[j]), old(lineups[j].grid))
      ensures Valid()
      ensures State() == old(State()).(lineups := old(State()).lineups[ks.0 := lineups[ks.0].State()][ks.1 := lineups[ks.1].State()])
    {
      var m := old(State()).lineups[ks.0 := lineups[ks.0].State()][ks.1 := lineups[ks.1].State()];
      assert State().lineups.Keys == m.Keys;
      forall k | k in m ensures State().lineups[k] == m[k] {
      }
      assert State().lineups == m;
    }

    /** The same for the lineup under one key. */
    twostate lemma OneChanged(k: int)
      requires old(Valid()) && k in lineups
      requires lineups == old(lineups) && Repr == old(Repr)
      requires boatName == old(boatName) && numHeats == old(numHeats) && boatType == old(boatType)
      requires lineups[k].Valid() && lineups[k].grid == old(lineups[k].grid)
      requires forall j :: j in lineups && j != k ==> unchanged(old(lineups[j]), old(lineups[j].grid))
      ensures Valid()
      ensures State() == old(State()).(lineups := old(State()).lineups[k := lineups[k].State()])
    {
      var m := old(State()).lineups[k := lineups[k].State()];
      assert State().lineups.Keys == m.Keys;
      forall j | j in m ensures State().lineups[j] == m[j] {
      }
      assert State().lineups == m;
    }

    /** The same-heat case of `movePerson`: that lineup's `swapPerson`. */
    method SwapWithin(k: int, from: Loc, to: Loc) returns (raised: bool)
      requires Valid() && from.Heat? && to.Heat?
      modifies Repr
      ensures Valid() && Repr == old(Repr) && lineups == old(lineups)
      ensures (State(), raised) == SameHeat(old(State()), k, from, to)
    {
      if k !in lineups {
        return true;
      }
      var l := lineups[k];
      assert old(State()).lineups[k] == old(l.State());
      raised := l.SwapPerson(from.row, from.col, to.row, to.col);
      OneChanged(k);
      ghost var t := Swap(old(State()).lineups[k], from.row, from.col, to.row, to.col);
      assert (l.State(), raised) == t;
      assert State() == old(State()).(lineups := old(State()).lineups[k := t.0]);
    }

    /** Removes the occupant of a cell of heat `src` and adds p at a cell of heat `dst`. */
    method Relocate(src: int, srow: int, scol: int, dst: int, drow: int, dcol: int, p: Option<Person>)
      returns (raised: bool)
      requires Valid() && src != dst && src in lineups && dst in lineups
      modifies Repr
      ensures Valid() && Repr == old(Repr) && lineups == old(lineups)
      ensures var h := old(State()); var (t, res) := Add(h.lineups[dst], drow, dcol, p);
        && State() == h.(lineups := h.lineups[src := Remove(h.lineups[src], srow, scol).0][dst := t])
        && raised == (res == Raised)
    {
      var sl := lineups[src];
      var dl := lineups[dst];
      ghost var h := State();
      assert h.lineups[src] == sl.State() && h.lineups[dst] == dl.State();
      var r := sl.RemovePerson(srow, scol);
      var a := dl.AddPerson(drow, dcol, p);
      raised := a == Raised;
      TwoChanged((src, dst));
    }

    /** Removes the occupants of a cell of each of two heats and adds each person at the other's cell. */
    method Exchange(k1: int, row1: int, col1: int, k2: int, row2: int, col2: int, p1: Option<Person>, p2: Option<Person>)
      requires Valid() && k1 != k2 && k1 in lineups && k2 in lineups
      modifies Repr
      ensures Valid() && Repr == old(Repr) && lineups == old(lineups)
      ensures var h := old(State());
        State() == h.(lineups := h.lineups
          [k1 := Add(Remove(h.lineups[k1], row1, col1).0, row1, col1, p2).0]
          [k2 := Add(Remove(h.lineups[k2], row2, col2).0, row2, col2, p1).0])
    {
      var l1 := lineups[k1];
      var l2 := lineups[k2];
      ghost var h := State();
      assert h.lineups[k1] == l1.State() && h.lineups[k2] == l2.State();
      var r := l1.RemovePerson(row1, col1);
      r := l2.RemovePerson(row2, col2);
      var a := l1.AddPerson(row1, col1, p2);
      a := l2.AddPerson(row2, col2, p1);
      TwoChanged((k1, k2));
    }

    /** The cross-heat case of `movePerson`: read both cells, then exchange or move their occupants. */
    method MoveAcross(from: Loc, to: Loc) returns (raised: bool)
      requires Valid() && from.Heat? && to.Heat? && from.heatIdx != to.heatIdx
      modifies Repr
      ensures Valid() && Repr == old(Repr) && lineups == old(lineups)
      ensures (State(), raised) == CrossHeat(old(State()), from, to)
    {
      if from.heatIdx !in lineups || to.heatIdx !in lineups {
        return true;
      }
      var fl := lineups[from.heatIdx];
      var tl := lineups[to.heatIdx];
      ghost var h := State();
      assert h.lineups[from.heatIdx] == fl.State() && h.lineups[to.heatIdx] == tl.State();
      if !(0 <= from.row < Rows) || !(0 <= to.row < Rows) {
        return true;
      }
      var fp := if 0 <= from.col < Cols then fl.grid[from.row, from.col] else None;
      var tp := if 0 <= to.col < Cols then tl.grid[to.row, to.col] else None;
      assert PeekCell(h.lineups[from.heatIdx], from.row, from.col) == Found(fp);
      assert PeekCell(h.lineups[to.heatIdx], to.row, to.col) == Found(tp);
      if fp.None? && tp.None? {
        return false;
      }
      if fp.Some? && tp.Some? {
        Exchange(from.heatIdx, from.row, from.col, to.heatIdx, to.row, to.col, fp, tp);
        raised := false;
      } else if fp.Some? {
        raised := Relocate(from.heatIdx, from.row, from.col, to.heatIdx, to.row, to.col, fp);
      } else {
        raised := Relocate(to.heatIdx, to.row, to.col, from.heatIdx, from.row, from.col, tp);
      }
    }

    /** The roster-to-heat case of `movePerson`, given the roster's entry at the computed index. */
    method PlaceFromRoster(to: Loc, person: Option<Person>) returns (raised: bool)
      requires Valid() && to.Heat?
      modifies Repr
      ensures Valid() && Repr == old(Repr) && lineups == old(lineups)
      ensures (State(), raised) == RosterToHeat(old(State()), to, person)
    {
      if person.None? {
        return false;
      }
      if to.heatIdx !in lineups {
        return true;
      }
      var l := lineups[to.heatIdx];
      ghost var s0 := State().lineups[to.heatIdx];
      assert s0 == l.State();
      raised := l.RemovePerson(to.row, to.col);
      if raised {
        OneChanged(to.heatIdx);
        assert old(State()).lineups[to.heatIdx := l.State()] == old(State()).lineups;
        return;
      }
      ghost var s1 := l.State();
      var a := l.AddPerson(to.row, to.col, person);
      raised := a == Raised;
      OneChanged(to.heatIdx);
      assert s1 == Remove(s0, to.row, to.col).0;
      assert (l.State(), a) == Add(s1, to.row, to.col, person);
    }

    /** The heat-to-roster case of `movePerson`: the occupant leaves the heat. */
    method SendToRoster(from: Loc) returns (raised: bool)
      requires Valid() && from.Heat?
      modifies Repr
      ensures Valid() && Repr == old(Repr) && lineups == old(lineups)
      ensures (State(), raised) == HeatToRoster(old(State()), from)
    {
      if from.heatIdx !in lineups {
        return true;
      }
      var l := lineups[from.heatIdx];
      ghost var s0 := State().lineups[from.heatIdx];
      assert s0 == l.State();
      if !(0 <= from.row < Rows) {
        return true;
      }
      if !(0 <= from.col < Cols) || l.grid[from.row, from.col].None? {
        return false;
      }
      assert PeekCell(s0, from.row, from.col).Found? && PeekCell(s0, from.row, from.col).cell.Some?;
      raised := l.RemovePerson(from.row, from.col);
      OneChanged(from.heatIdx);
      assert l.State() == Remove(s0, from.row, from.col).0;
    }

    /**
     * `movePerson({from, to}, roster)`, where `roster` is the sequence
     * `roster.getAll()` returns; `raised` says the call threw.
     */
    method MovePerson(from: Loc, to: Loc, roster: seq<Person>) returns (raised: bool)
      requires Valid()
      modifies Repr
      ensures Valid() && Repr == old(Repr) && lineups == old(lineups)
      ensures (State(), raised) == Move(old(State()), from, to, roster, RosterStride)
    {
      if from.Heat? && to.Heat? && from.heatIdx == to.heatIdx {
        raised := SwapWithin(from.heatIdx, from, to);
      } else if from.Heat? && to.Heat? {
        raised := MoveAcross(from, to);
      } else if from.RosterSlot? && to.Heat? {
        var index := from.row * RosterStride + from.col;
        var person := if 0 <= index < |roster| then Some(roster[index]) else None;
        raised := PlaceFromRoster(to, person);
      } else if from.Heat? && to.RosterSlot? {
        raised := SendToRoster(from);
      } else {
        raised := false;
      }
    }

    /** The lineups of `m` are valid, distinct, held in `repr`, and clones of this object's lineups under the same keys. */
    ghost predicate ClonesIn(m: map<int, Lineup>, repr: set<object>)
      reads this, lineups.Values, repr
    {
      && (forall k :: k in m ==>
            (k in lineups && m[k] in repr && m[k].grid in repr && m[k].Valid()
             && m[k].State() == CloneOf(lineups[k].State())))
      && (forall j, k :: j in m && k in m && j != k ==> m[j] != m[k] && m[j].grid != m[k].grid)
    }

    /** The loop of `clone`: a fresh clone of each lineup under its key. */
    method CloneLineups() returns (m: map<int, Lineup>, ghost repr: set<object>)
      requires Valid()
      ensures m.Keys == lineups.Keys && fresh(repr)
      ensures forall k :: k in m ==> m[k] in repr && m[k].grid in repr && m[k].Valid()
      ensures forall k :: k in m ==> m[k].State() == CloneOf(lineups[k].State())
      ensures forall j, k :: j in m && k in m && j != k ==> m[j] != m[k] && m[j].grid != m[k].grid
    {
      m := map[];
      repr := {};
      var i := 0;
      while i < numHeats
        invariant 0 <= i <= HeatCount(numHeats)
        invariant forall k :: 0 <= k < i <==> k in m
        invariant fresh(repr)
        invariant ClonesIn(m, repr)
      {
        var l := lineups[i].Clone();
        m := m[i := l];
        repr := repr + {l, l.grid};
        i := i + 1;
      }
    }

    /**
     * A heats object over the given valid, distinct lineups, whose states
     * are `states`: what `clone` leaves once it has replaced the lineups of
     * the object the ordinary constructor made.
     */
    constructor Assemble(boatName: string, numHeats: int, boatType: string,
                         m: map<int, Lineup>, ghost repr: set<object>, ghost states: map<int, LineupState>)
      requires m.Keys == states.Keys
      requires forall k :: 0 <= k < HeatCount(numHeats) <==> k in m
      requires forall k :: k in m ==> m[k] in repr && m[k].grid in repr && m[k].Valid() && m[k].State() == states[k]
      requires forall j, k :: j in m && k in m && j != k ==> m[j] != m[k] && m[j].grid != m[k].grid
      ensures Valid() && Repr == repr + {this}
      ensures State() == HeatsState(boatName, numHeats, boatType, states)
    {
      this.boatName := boatName;
      this.numHeats := numHeats;
      this.boatType := boatType;
      lineups := m;
      Repr := repr + {this};
      new;
      forall k | k in states ensures State().lineups[k] == states[k] {
      }
      assert State().lineups == states;
    }

    /**
     * `clone`: a new object with the same name, count and type and a clone
     * of each lineup under its key. The source runs the ordinary constructor
     * and then replaces its lineups; the copy is assembled here directly.
     */
    method Clone() returns (c: BoatHeats)
      requires Valid()
      ensures fresh(c.Repr) && c.Valid()
      ensures c.State() == CloneHeats(State())
    {
      var m;
      ghost var repr;
      m, repr := CloneLineups();
      ghost var states := CloneHeats(State()).lineups;
      c := new BoatHeats.Assemble(boatName, numHeats, boatType, m, repr, states);
    }

    /** `mastersheetStr`: the title line, then line j joining row j of every heat, each followed by two tabs. */
    method MastersheetStr() returns (text: string)
      requires Valid()
      ensures text == SheetText(State())
    {
      if numHeats <= 0 {
        return "";
      }
      ghost var h := State();
      assert HeatKeys(h) && AllShaped(h);
      var title := "";
      var rows: seq<string> := seq(Rows + 2, j => "");
      for i := 0 to numHeats
        invariant title == TitleLine(boatType, i)
        invariant |rows| == Rows + 2
        invariant forall j :: 0 <= j < Rows + 2 ==> rows[j] == SheetLine(h, i, j)
      {
        title := title + boatType + " Heat " + Text.NatToString(i + 1) + "\t\t\t\t";
        var lineupRows := lineups[i].MastersheetStr();
        assert h.lineups[i] == lineups[i].State();
        ghost var heatRows := SheetRows(h.lineups[i].cells);
        assert lineupRows == heatRows;
        assert forall j :: 0 <= j < Rows + 2 ==> SheetLine(h, i + 1, j) == SheetLine(h, i, j) + heatRows[j] + "\t\t";
        rows := AppendRows(rows, lineupRows);
      }
      var n := numHeats;
      assert rows == seq(Rows + 2, j requires 0 <= j < Rows + 2 => SheetLine(h, n, j));
      text := title + "\n" + Text.Join(rows, '\n');
    }
  }
}
