/**
 * What `BoatHeats.movePerson`, `clone` and `mastersheetStr` keep true and
 * what they do to the cells they touch: every move keeps each heat's lineup
 * Balanced (and Exact), since each add it makes lands on a cell it has just
 * emptied; a cross-heat move relocates the person when the other heat lets
 * them in and otherwise leaves them in neither cell.
 */
module HeatsFacts {
  import opened Wrappers
  import opened People
  import opened LineupModel
  import opened LineupFacts
  import opened HeatsModel
  import Text

  ghost predicate AllBalanced(h: HeatsState)
  {
    forall k :: k in h.lineups ==> Balanced(h.lineups[k])
  }

  ghost predicate AllExact(h: HeatsState)
  {
    forall k :: k in h.lineups ==> Exact(h.lineups[k])
  }

  /** A new boat has one empty, Exact lineup of the boat type's variant per heat. */
  lemma NewHeatsExact(boatName: string, numHeats: int, boatType: string)
    ensures var h := NewHeats(boatName, numHeats, boatType);
      && AllExact(h) && HeatKeys(h)
      && forall k :: k in h.lineups ==> h.lineups[k].variant == VariantOf(boatType)
  {
    EmptyStateExact(VariantOf(boatType));
  }

  /** Replacing one heat's lineup by a Balanced (Exact) one keeps every heat Balanced (Exact). */
  lemma UpdateKeeps(h: HeatsState, k: int, l: LineupState)
    requires AllBalanced(h) && Balanced(l)
    ensures AllBalanced(h.(lineups := h.lineups[k := l]))
    ensures AllExact(h) && Exact(l) ==> AllExact(h.(lineups := h.lineups[k := l]))
  {
  }

  /** Every move keeps each lineup Balanced, and Exact when it was. */
  lemma MoveKeeps(h: HeatsState, from: Loc, to: Loc, roster: seq<Person>, stride: int)
    requires AllBalanced(h)
    ensures AllBalanced(Move(h, from, to, roster, stride).0)
    ensures AllExact(h) ==> AllExact(Move(h, from, to, roster, stride).0)
  {
    var r := Move(h, from, to, roster, stride);
    if from.Heat? && to.Heat? && from.heatIdx == to.heatIdx {
      assert r == SameHeat(h, from.heatIdx, from, to);
      SameHeatKeeps(h, from.heatIdx, from, to);
    } else if from.Heat? && to.Heat? {
      assert r == CrossHeat(h, from, to);
      CrossHeatKeeps(h, from, to);
    } else if from.RosterSlot? && to.Heat? {
      var person := RosterAt(roster, from.row * stride + from.col);
      assert r == RosterToHeat(h, to, person);
      RosterToHeatKeeps(h, to, person);
    } else if from.Heat? && to.RosterSlot? {
      assert r == HeatToRoster(h, from);
      HeatToRosterKeeps(h, from);
    } else {
      assert r.0 == h;
    }
  }

  lemma SameHeatKeeps(h: HeatsState, k: int, from: Loc, to: Loc)
    requires AllBalanced(h) && from.Heat? && to.Heat?
    ensures AllBalanced(SameHeat(h, k, from, to).0)
    ensures AllExact(h) ==> AllExact(SameHeat(h, k, from, to).0)
  {
    if k in h.lineups {
      var l := h.lineups[k];
      var t := Swap(l, from.row, from.col, to.row, to.col).0;
      SwapKeeps(l, from.row, from.col, to.row, to.col);
      UpdateKeeps(h, k, t);
    }
  }

  lemma RosterToHeatKeeps(h: HeatsState, to: Loc, person: Option<Person>)
    requires AllBalanced(h) && to.Heat?
    ensures AllBalanced(RosterToHeat(h, to, person).0)
    ensures AllExact(h) ==> AllExact(RosterToHeat(h, to, person).0)
  {
    var k := to.heatIdx;
    if person.Some? && k in h.lineups {
      var l := h.lineups[k];
      var (l1, raised) := Remove(l, to.row, to.col);
      if !raised {
        var l2 := Add(l1, to.row, to.col, person).0;
        RemoveKeeps(l, to.row, to.col);
        AddKeeps(l1, to.row, to.col, person);
        UpdateKeeps(h, k, l2);
      }
    }
  }

  lemma HeatToRosterKeeps(h: HeatsState, from: Loc)
    requires AllBalanced(h) && from.Heat?
    ensures AllBalanced(HeatToRoster(h, from).0)
    ensures AllExact(h) ==> AllExact(HeatToRoster(h, from).0)
  {
    var k := from.heatIdx;
    if k in h.lineups {
      var l := h.lineups[k];
      var t := Remove(l, from.row, from.col).0;
      RemoveKeeps(l, from.row, from.col);
      UpdateKeeps(h, k, t);
    }
  }

  /** The cross-heat case of MoveKeeps. */
  lemma CrossHeatKeeps(h: HeatsState, from: Loc, to: Loc)
    requires AllBalanced(h) && from.Heat? && to.Heat? && from.heatIdx != to.heatIdx
    ensures AllBalanced(CrossHeat(h, from, to).0)
    ensures AllExact(h) ==> AllExact(CrossHeat(h, from, to).0)
  {
    if from.heatIdx in h.lineups && to.heatIdx in h.lineups {
      var fl := h.lineups[from.heatIdx];
      var tl := h.lineups[to.heatIdx];
      var fpeek := PeekCell(fl, from.row, from.col);
      var tpeek := PeekCell(tl, to.row, to.col);
      if fpeek.Found? && tpeek.Found? {
        var fp := fpeek.cell;
        var tp := tpeek.cell;
        if fp.Some? && tp.Some? {
          CrossBothKeeps(h, from, to, fp.value, tp.value);
        } else if fp.Some? {
          var fl1 := Remove(fl, from.row, from.col).0;
          var tl2 := Add(tl, to.row, to.col, fp).0;
          RemoveKeeps(fl, from.row, from.col);
          AddKeeps(tl, to.row, to.col, fp);
          UpdateKeeps(h, from.heatIdx, fl1);
          UpdateKeeps(h.(lineups := h.lineups[from.heatIdx := fl1]), to.heatIdx, tl2);
        } else if tp.Some? {
          var tl1 := Remove(tl, to.row, to.col).0;
          var fl2 := Add(fl, from.row, from.col, tp).0;
          RemoveKeeps(tl, to.row, to.col);
          AddKeeps(fl, from.row, from.col, tp);
          UpdateKeeps(h, to.heatIdx, tl1);
          UpdateKeeps(h.(lineups := h.lineups[to.heatIdx := tl1]), from.heatIdx, fl2);
        }
      }
    }
  }

  /** The cross-heat exchange of two occupants keeps both lineups Balanced (Exact). */
  lemma CrossBothKeeps(h: HeatsState, from: Loc, to: Loc, p1: Person, p2: Person)
    requires AllBalanced(h) && from.Heat? && to.Heat? && from.heatIdx != to.heatIdx
    requires from.heatIdx in h.lineups && to.heatIdx in h.lineups
    requires InGrid(from.row, from.col) && h.lineups[from.heatIdx].cells[from.row][from.col] == Some(p1)
    requires InGrid(to.row, to.col) && h.lineups[to.heatIdx].cells[to.row][to.col] == Some(p2)
    ensures AllBalanced(CrossHeat(h, from, to).0)
    ensures AllExact(h) ==> AllExact(CrossHeat(h, from, to).0)
  {
    var fl := h.lineups[from.heatIdx];
    var tl := h.lineups[to.heatIdx];
    var fl1 := Remove(fl, from.row, from.col).0;
    var tl1 := Remove(tl, to.row, to.col).0;
    var fl2 := Add(fl1, from.row, from.col, Some(p2)).0;
    var tl2 := Add(tl1, to.row, to.col, Some(p1)).0;
    RemoveKeeps(fl, from.row, from.col);
    AddKeeps(fl1, from.row, from.col, Some(p2));
    RemoveKeeps(tl, to.row, to.col);
    AddKeeps(tl1, to.row, to.col, Some(p1));
    UpdateKeeps(h, from.heatIdx, fl2);
    UpdateKeeps(h.(lineups := h.lineups[from.heatIdx := fl2]), to.heatIdx, tl2);
    assert CrossHeat(h, from, to).0 == h.(lineups := h.lineups[from.heatIdx := fl2][to.heatIdx := tl2]);
  }

  /**
   * A cross-heat move of one person onto an empty place: they leave their
   * cell; in the other heat's grid they are seated exactly when that lineup
   * lets them in, and otherwise are in neither cell. A column off the grid
   * reads as empty, so the add throws after the removal.
   */
  lemma CrossMoveOne(h: HeatsState, from: Loc, to: Loc, roster: seq<Person>, stride: int, p: Person)
    requires AllShaped(h) && from.Heat? && to.Heat? && from.heatIdx != to.heatIdx
    requires from.heatIdx in h.lineups && to.heatIdx in h.lineups
    requires InGrid(from.row, from.col) && h.lineups[from.heatIdx].cells[from.row][from.col] == Some(p)
    requires 0 <= to.row < Rows && (InGrid(to.row, to.col) ==> h.lineups[to.heatIdx].cells[to.row][to.col] == None)
    ensures var r := Move(h, from, to, roster, stride); var tl := h.lineups[to.heatIdx];
      && (InGrid(to.row, to.col) ==> !r.1)
      && r.0.lineups[from.heatIdx].cells[from.row][from.col] == None
      && r.0.lineups[from.heatIdx].index == h.lineups[from.heatIdx].index - {p.name}
      && (InGrid(to.row, to.col) ==>
            r.0.lineups[to.heatIdx].cells[to.row][to.col]
              == (if p.name !in tl.index && Admits(tl, to.row, p) then Some(p) else None))
  {
    var tl := h.lineups[to.heatIdx];
    assert PeekCell(tl, to.row, to.col) == Found(None);
    AddAdmits(tl, to.row, to.col, p);
    assert Move(h, from, to, roster, stride) == CrossHeat(h, from, to);
  }

  /**
   * A cross-heat exchange between two Open lineups: each person lands in the
   * other's cell unless their name is already seated in that heat (other
   * than by the person they displace), and then that cell is left empty.
   */
  lemma CrossSwapOpen(h: HeatsState, from: Loc, to: Loc, roster: seq<Person>, stride: int, p1: Person, p2: Person)
    requires AllShaped(h) && from.Heat? && to.Heat? && from.heatIdx != to.heatIdx
    requires from.heatIdx in h.lineups && to.heatIdx in h.lineups
    requires h.lineups[from.heatIdx].variant == Open && h.lineups[to.heatIdx].variant == Open
    requires InGrid(from.row, from.col) && h.lineups[from.heatIdx].cells[from.row][from.col] == Some(p1)
    requires InGrid(to.row, to.col) && h.lineups[to.heatIdx].cells[to.row][to.col] == Some(p2)
    ensures var r := Move(h, from, to, roster, stride);
      && !r.1
      && r.0.lineups[from.heatIdx].cells[from.row][from.col]
           == (if p2.name in h.lineups[from.heatIdx].index && p2.name != p1.name then None else Some(p2))
      && r.0.lineups[to.heatIdx].cells[to.row][to.col]
           == (if p1.name in h.lineups[to.heatIdx].index && p1.name != p2.name then None else Some(p1))
  {
    var fl := h.lineups[from.heatIdx];
    var tl := h.lineups[to.heatIdx];
    RemoveClears(fl, from.row, from.col);
    RemoveClears(tl, to.row, to.col);
    var fl1 := Remove(fl, from.row, from.col).0;
    var tl1 := Remove(tl, to.row, to.col).0;
    assert fl1.index == fl.index - {p1.name};
    assert tl1.index == tl.index - {p2.name};
    AddAdmits(fl1, from.row, from.col, p2);
    AddAdmits(tl1, to.row, to.col, p1);
    assert Move(h, from, to, roster, stride) == CrossHeat(h, from, to);
  }

  /**
   * The mirror of CrossMoveOne: the source cell is empty and the target
   * holds p. p is removed from the target heat and added at the source
   * cell, where it lands only if that heat admits it.
   */
  lemma CrossMoveBack(h: HeatsState, from: Loc, to: Loc, roster: seq<Person>, stride: int, p: Person)
    requires AllShaped(h) && from.Heat? && to.Heat? && from.heatIdx != to.heatIdx
    requires from.heatIdx in h.lineups && to.heatIdx in h.lineups
    requires 0 <= from.row < Rows && (InGrid(from.row, from.col) ==> h.lineups[from.heatIdx].cells[from.row][from.col] == None)
    requires InGrid(to.row, to.col) && h.lineups[to.heatIdx].cells[to.row][to.col] == Some(p)
    ensures var r := Move(h, from, to, roster, stride); var fl := h.lineups[from.heatIdx];
      && (InGrid(from.row, from.col) ==> !r.1)
      && r.0.lineups[to.heatIdx].cells[to.row][to.col] == None
      && r.0.lineups[to.heatIdx].index == h.lineups[to.heatIdx].index - {p.name}
      && (InGrid(from.row, from.col) ==>
            r.0.lineups[from.heatIdx].cells[from.row][from.col]
              == (if p.name !in fl.index && Admits(fl, from.row, p) then Some(p) else None))
  {
    var fl := h.lineups[from.heatIdx];
    RemoveClears(h.lineups[to.heatIdx], to.row, to.col);
    assert PeekCell(fl, from.row, from.col) == Found(None);
    AddAdmits(fl, from.row, from.col, p);
    assert Move(h, from, to, roster, stride) == CrossHeat(h, from, to);
  }

  /**
   * A cross-heat exchange in lineups of any kind: after both removes, each
   * person lands in the other's cell exactly when that heat, with its
   * occupant removed, admits them; otherwise that cell is left empty.
   */
  lemma CrossSwapAny(h: HeatsState, from: Loc, to: Loc, roster: seq<Person>, stride: int, p1: Person, p2: Person)
    requires AllShaped(h) && from.Heat? && to.Heat? && from.heatIdx != to.heatIdx
    requires from.heatIdx in h.lineups && to.heatIdx in h.lineups
    requires InGrid(from.row, from.col) && h.lineups[from.heatIdx].cells[from.row][from.col] == Some(p1)
    requires InGrid(to.row, to.col) && h.lineups[to.heatIdx].cells[to.row][to.col] == Some(p2)
    ensures var r := Move(h, from, to, roster, stride);
      var fl1 := Remove(h.lineups[from.heatIdx], from.row, from.col).0;
      var tl1 := Remove(h.lineups[to.heatIdx], to.row, to.col).0;
      && !r.1
      && fl1.index == h.lineups[from.heatIdx].index - {p1.name}
      && tl1.index == h.lineups[to.heatIdx].index - {p2.name}
      && r.0.lineups[from.heatIdx].cells[from.row][from.col]
           == (if p2.name !in fl1.index && Admits(fl1, from.row, p2) then Some(p2) else None)
      && r.0.lineups[to.heatIdx].cells[to.row][to.col]
           == (if p1.name !in tl1.index && Admits(tl1, to.row, p1) then Some(p1) else None)
  {
    CrossSwapShape(h, from, to, roster, stride, p1, p2);
    ReplaceOccupant(h.lineups[from.heatIdx], from.row, from.col, p2);
    ReplaceOccupant(h.lineups[to.heatIdx], to.row, to.col, p1);
  }

  /** The exchange case of a cross-heat move, written out as the two removes and crossed adds. */
  lemma CrossSwapShape(h: HeatsState, from: Loc, to: Loc, roster: seq<Person>, stride: int, p1: Person, p2: Person)
    requires AllShaped(h) && from.Heat? && to.Heat? && from.heatIdx != to.heatIdx
    requires from.heatIdx in h.lineups && to.heatIdx in h.lineups
    requires InGrid(from.row, from.col) && h.lineups[from.heatIdx].cells[from.row][from.col] == Some(p1)
    requires InGrid(to.row, to.col) && h.lineups[to.heatIdx].cells[to.row][to.col] == Some(p2)
    ensures var fl2 := Add(Remove(h.lineups[from.heatIdx], from.row, from.col).0, from.row, from.col, Some(p2)).0;
      var tl2 := Add(Remove(h.lineups[to.heatIdx], to.row, to.col).0, to.row, to.col, Some(p1)).0;
      Move(h, from, to, roster, stride) == (h.(lineups := h.lineups[from.heatIdx := fl2][to.heatIdx := tl2]), false)
  {
    assert PeekCell(h.lineups[from.heatIdx], from.row, from.col) == Found(Some(p1));
    assert PeekCell(h.lineups[to.heatIdx], to.row, to.col) == Found(Some(p2));
  }

  /**
   * Removing a cell's occupant and adding q there: the occupant's name leaves
   * the index, and q lands exactly when the emptied lineup admits it.
   */
  lemma ReplaceOccupant(l: LineupState, row: int, col: int, q: Person)
    requires Shaped(l.cells) && InGrid(row, col) && l.cells[row][col].Some?
    ensures var l1 := Remove(l, row, col).0;
      && Shaped(l1.cells)
      && l1.index == l.index - {l.cells[row][col].value.name}
      && Add(l1, row, col, Some(q)).0.cells[row][col] == (if q.name !in l1.index && Admits(l1, row, q) then Some(q) else None)
  {
    RemoveClears(l, row, col);
    var l1 := Remove(l, row, col).0;
    AddAdmits(l1, row, col, q);
  }

  /** Two empty cells of different heats: nothing to move, nothing changes. */
  lemma CrossBothEmpty(h: HeatsState, from: Loc, to: Loc, roster: seq<Person>, stride: int)
    requires AllShaped(h) && from.Heat? && to.Heat? && from.heatIdx != to.heatIdx
    requires from.heatIdx in h.lineups && to.heatIdx in h.lineups
    requires 0 <= from.row < Rows && (InGrid(from.row, from.col) ==> h.lineups[from.heatIdx].cells[from.row][from.col] == None)
    requires 0 <= to.row < Rows && (InGrid(to.row, to.col) ==> h.lineups[to.heatIdx].cells[to.row][to.col] == None)
    ensures Move(h, from, to, roster, stride) == (h, false)
  {
    assert PeekCell(h.lineups[from.heatIdx], from.row, from.col) == Found(None);
    assert PeekCell(h.lineups[to.heatIdx], to.row, to.col) == Found(None);
  }

  /** Any pairing other than heat-heat, roster-heat and heat-roster changes nothing and does not throw. */
  lemma OtherPairsNoOp(h: HeatsState, from: Loc, to: Loc, roster: seq<Person>, stride: int)
    requires AllShaped(h)
    requires !(from.Heat? && to.Heat?) && !(from.RosterSlot? && to.Heat?) && !(from.Heat? && to.RosterSlot?)
    ensures Move(h, from, to, roster, stride) == (h, false)
  {
  }

  /**
   * Roster to an empty cell of a heat: the roster person is seated exactly
   * when the lineup lets them in; the move never throws.
   */
  lemma RosterToHeatPlaces(h: HeatsState, to: Loc, p: Person)
    requires AllShaped(h) && to.Heat? && to.heatIdx in h.lineups
    requires InGrid(to.row, to.col) && h.lineups[to.heatIdx].cells[to.row][to.col] == None
    ensures var r := RosterToHeat(h, to, Some(p)); var l := h.lineups[to.heatIdx];
      && !r.1
      && r.0.lineups[to.heatIdx].cells[to.row][to.col]
           == (if p.name !in l.index && Admits(l, to.row, p) then Some(p) else None)
  {
    var l := h.lineups[to.heatIdx];
    assert Remove(l, to.row, to.col) == (l, false);
    AddAdmits(l, to.row, to.col, p);
  }

  /** Roster onto an occupied cell: the occupant is dropped from the heat, not sent anywhere. */
  lemma RosterToHeatDrops(h: HeatsState, to: Loc, p: Person, q: Person)
    requires AllShaped(h) && to.Heat? && to.heatIdx in h.lineups
    requires InGrid(to.row, to.col) && h.lineups[to.heatIdx].cells[to.row][to.col] == Some(q)
    requires p.name != q.name
    ensures var r := RosterToHeat(h, to, Some(p));
      && !r.1
      && q.name !in r.0.lineups[to.heatIdx].index
      && r.0.lineups[to.heatIdx].cells[to.row][to.col] != Some(q)
  {
    var l := h.lineups[to.heatIdx];
    RemoveClears(l, to.row, to.col);
    var l1 := Remove(l, to.row, to.col).0;
    assert q.name !in l1.index;
  }

  /** Heat to roster empties an occupied cell and forgets the name; an empty or off-grid cell is a no-op. */
  lemma HeatToRosterClears(h: HeatsState, from: Loc)
    requires AllShaped(h) && from.Heat? && from.heatIdx in h.lineups && 0 <= from.row < Rows
    ensures var r := HeatToRoster(h, from); var l := h.lineups[from.heatIdx];
      && !r.1
      && (InGrid(from.row, from.col) && l.cells[from.row][from.col].Some? ==>
            && r.0.lineups[from.heatIdx].cells[from.row][from.col] == None
            && r.0.lineups[from.heatIdx].index == l.index - {l.cells[from.row][from.col].value.name})
      && (!InGrid(from.row, from.col) || l.cells[from.row][from.col].None? ==> r.0 == h)
  {
    var l := h.lineups[from.heatIdx];
    if InGrid(from.row, from.col) && l.cells[from.row][from.col].Some? {
      RemoveClears(l, from.row, from.col);
    }
  }

  // ---------------------------------------------------------------------
  // clone

  /** A clone has the same heats with the same cells and weights, and keeps Balanced. */
  lemma CloneHeatsKeeps(h: HeatsState)
    requires AllBalanced(h)
    ensures var c := CloneHeats(h);
      && AllBalanced(c)
      && (HeatKeys(h) ==> HeatKeys(c))
      && c.boatName == h.boatName && c.numHeats == h.numHeats && c.boatType == h.boatType
      && forall k :: k in c.lineups ==>
           c.lineups[k].cells == h.lineups[k].cells && c.lineups[k].left == h.lineups[k].left
           && c.lineups[k].right == h.lineups[k].right
  {
    var c := CloneHeats(h);
    forall k | k in c.lineups ensures Balanced(c.lineups[k]) {
      CloneKeepsBalanced(h.lineups[k]);
    }
  }

  /** The clone exports the same master sheet. */
  lemma CloneHeatsSheet(h: HeatsState)
    requires HeatKeys(h) && AllShaped(h)
    ensures HeatKeys(CloneHeats(h)) && AllShaped(CloneHeats(h))
    ensures SheetText(CloneHeats(h)) == SheetText(h)
  {
    var c := CloneHeats(h);
    var n := HeatCount(h.numHeats);
    forall j | 0 <= j < Rows + 2 ensures SheetLine(c, n, j) == SheetLine(h, n, j) {
      CloneSheetLine(h, n, j);
    }
    assert seq(Rows + 2, j requires 0 <= j < Rows + 2 => SheetLine(c, n, j))
        == seq(Rows + 2, j requires 0 <= j < Rows + 2 => SheetLine(h, n, j));
  }

  lemma {:induction false} CloneSheetLine(h: HeatsState, n: nat, j: nat)
    requires HeatKeys(h) && AllShaped(h) && n <= HeatCount(h.numHeats) && j < Rows + 2
    ensures HeatKeys(CloneHeats(h)) && AllShaped(CloneHeats(h))
    ensures SheetLine(CloneHeats(h), n, j) == SheetLine(h, n, j)
  {
    if n > 0 {
      CloneSheetLine(h, n - 1, j);
    }
  }

  // ---------------------------------------------------------------------
  // mastersheetStr

  /** No seated name holds a newline, the sheet's line separator. */
  ghost predicate NoNewlines(h: HeatsState)
    requires AllShaped(h)
  {
    forall k, r, c :: k in h.lineups && InGrid(r, c) ==> '\n' !in NameOf(h.lineups[k].cells[r][c])
  }

  lemma DigitsNoNewline(i: nat)
    ensures '\n' !in Text.NatToString(i)
  {
    var s := Text.NatToString(i);
    forall k | 0 <= k < |s| ensures s[k] != '\n' {
    }
  }

  lemma {:induction false} TitleLineNoNewline(boatType: string, n: nat)
    requires '\n' !in boatType
    ensures '\n' !in TitleLine(boatType, n)
  {
    if n > 0 {
      TitleLineNoNewline(boatType, n - 1);
      DigitsNoNewline(n);
    }
  }

  lemma SheetRowsNoNewline(cells: seq<seq<Option<Person>>>, j: nat)
    requires Shaped(cells) && j < Rows + 2
    requires forall r, c :: InGrid(r, c) ==> '\n' !in NameOf(cells[r][c])
    ensures '\n' !in SheetRows(cells)[j]
  {
    var rows := SheetRows(cells);
    assert InGrid(0, 0) && InGrid(0, 1);
    if 1 < j < Rows + 1 {
      assert InGrid(j - 1, 0) && InGrid(j - 1, 1);
      DigitsNoNewline(j - 1);
      assert rows[j] == SeatRow(cells, j - 1);
    }
  }

  lemma {:induction false} SheetLineNoNewline(h: HeatsState, n: nat, j: nat)
    requires HeatKeys(h) && AllShaped(h) && NoNewlines(h) && n <= HeatCount(h.numHeats) && j < Rows + 2
    ensures '\n' !in SheetLine(h, n, j)
  {
    if n > 0 {
      SheetLineNoNewline(h, n - 1, j);
      var cells := h.lineups[n - 1].cells;
      forall r, c | InGrid(r, c) ensures '\n' !in NameOf(cells[r][c]) {
      }
      SheetRowsNoNewline(cells, j);
    }
  }

  /**
   * With at least one heat, the master sheet splits on newlines into the
   * title line and the 13 row lines, line j holding row j of every heat in
   * heat order, each followed by two tabs.
   */
  lemma SheetTextLines(h: HeatsState)
    requires HeatKeys(h) && AllShaped(h) && NoNewlines(h) && '\n' !in h.boatType && HeatCount(h.numHeats) > 0
    ensures var n := HeatCount(h.numHeats);
      Text.Split(SheetText(h), '\n')
        == [TitleLine(h.boatType, n)] + seq(Rows + 2, j requires 0 <= j < Rows + 2 => SheetLine(h, n, j))
    ensures |Text.Split(SheetText(h), '\n')| == Rows + 3
  {
    var n := HeatCount(h.numHeats);
    var lines := seq(Rows + 2, j requires 0 <= j < Rows + 2 => SheetLine(h, n, j));
    TitleLineNoNewline(h.boatType, n);
    forall j | 0 <= j < |lines| ensures '\n' !in lines[j] {
      SheetLineNoNewline(h, n, j);
    }
    Text.SplitJoin(lines, '\n');
    assert SheetText(h) == TitleLine(h.boatType, n) + ['\n'] + Text.Join(lines, '\n');
    Text.SplitConcat(TitleLine(h.boatType, n), Text.Join(lines, '\n'), '\n');
  }
}
