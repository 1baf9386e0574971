/**
 * The heats of one boat (src/data_objects/BoatHeats.js) as a value: the
 * boat's name, type and number of heats, and the lineup of each heat keyed
 * by its index. `Move` follows the four dispatch cases of `movePerson`,
 * including where the JavaScript throws on an undefined lineup or row.
 */
module HeatsModel {
  import opened Wrappers
  import opened People
  import opened LineupModel
  import Text

  datatype HeatsState = HeatsState(
    boatName: string,
    numHeats: int,
    boatType: string,
    lineups: map<int, LineupState>)

  /** A place a person is dragged from or to: a heat's cell, a cell of the displayed roster, or anything else. */
  datatype Loc = Heat(heatIdx: int, row: int, col: int) | RosterSlot(row: int, col: int) | Elsewhere

  /** The lineup class a boat type selects. */
  function VariantOf(boatType: string): (v: Variant)
    ensures v == Mixed <==> boatType == "Mixed"
    ensures v == Womens <==> boatType == "Womens"
  {
    if boatType == "Mixed" then Mixed else if boatType == "Womens" then Womens else Open
  }

  /** How many times the constructor's loop runs. */
  function HeatCount(numHeats: int): nat
  {
    if numHeats < 0 then 0 else numHeats
  }

  /** The heat indices the constructor creates, 0 to numHeats - 1. */
  function HeatIndices(numHeats: int): (ks: set<int>)
    ensures forall i :: i in ks <==> 0 <= i < HeatCount(numHeats)
    decreases HeatCount(numHeats)
  {
    if numHeats <= 0 then {} else HeatIndices(numHeats - 1) + {numHeats - 1}
  }

  /** The lineups are keyed exactly by the indices the constructor creates. */
  ghost predicate HeatKeys(h: HeatsState)
  {
    forall i :: i in h.lineups <==> 0 <= i < HeatCount(h.numHeats)
  }

  ghost predicate AllShaped(h: HeatsState)
  {
    forall k :: k in h.lineups ==> Shaped(h.lineups[k].cells)
  }

  /** `new BoatHeats(boatName, numHeats, boatType)`. */
  function NewHeats(boatName: string, numHeats: int, boatType: string): (h: HeatsState)
    ensures HeatKeys(h) && AllShaped(h)
    ensures h.boatName == boatName && h.numHeats == numHeats && h.boatType == boatType
    ensures forall k :: k in h.lineups ==> h.lineups[k] == EmptyState(VariantOf(boatType))
  {
    HeatsState(boatName, numHeats, boatType,
      map i | i in HeatIndices(numHeats) :: EmptyState(VariantOf(boatType)))
  }

  /** Reading `lineup.grid[row][col]`: a bad row throws, a bad column reads undefined. */
  datatype Peek = Threw | Found(cell: Option<Person>)

  function PeekCell(s: LineupState, row: int, col: int): (r: Peek)
    requires Shaped(s.cells)
    ensures r.Threw? <==> !(0 <= row < Rows)
    ensures InGrid(row, col) ==> r == Found(s.cells[row][col])
    ensures r.Found? && r.cell.Some? ==> InGrid(row, col) && s.cells[row][col] == r.cell
  {
    if !(0 <= row < Rows) then Threw
    else if !(0 <= col < Cols) then Found(None)
    else Found(s.cells[row][col])
  }

  /** Whether a location names heat k. */
  predicate InHeat(loc: Loc, k: int)
  {
    loc.Heat? && loc.heatIdx == k
  }

  /**
   * `movePerson` on two different heats: the two cells are read first (a
   * missing lineup or a bad row throws before anything changes); then both
   * occupants are removed and each added at the other's cell, or the one
   * occupant is removed and added at the other cell. A rejected add leaves
   * the person in neither cell.
   */
  function CrossHeat(h: HeatsState, from: Loc, to: Loc): (r: (HeatsState, bool))
    requires AllShaped(h) && from.Heat? && to.Heat? && from.heatIdx != to.heatIdx
    ensures AllShaped(r.0) && r.0.lineups.Keys == h.lineups.Keys
    ensures r.0.boatName == h.boatName && r.0.numHeats == h.numHeats && r.0.boatType == h.boatType
    ensures forall k :: k in h.lineups && k != from.heatIdx && k != to.heatIdx ==> r.0.lineups[k] == h.lineups[k]
  {
    if from.heatIdx !in h.lineups || to.heatIdx !in h.lineups then (h, true)
    else
      var fl := h.lineups[from.heatIdx];
      var tl := h.lineups[to.heatIdx];
      match (PeekCell(fl, from.row, from.col), PeekCell(tl, to.row, to.col))
      case (Threw, _) => (h, true)
      case (_, Threw) => (h, true)
      case (Found(fp), Found(tp)) =>
        if fp.None? && tp.None? then (h, false)
        else if fp.Some? && tp.Some? then
          var fl2 := Add(Remove(fl, from.row, from.col).0, from.row, from.col, tp).0;
          var tl2 := Add(Remove(tl, to.row, to.col).0, to.row, to.col, fp).0;
          (h.(lineups := h.lineups[from.heatIdx := fl2][to.heatIdx := tl2]), false)
        else if fp.Some? then
          var fl1 := Remove(fl, from.row, from.col).0;
          var (tl2, res) := Add(tl, to.row, to.col, fp);
          (h.(lineups := h.lineups[from.heatIdx := fl1][to.heatIdx := tl2]), res == Raised)
        else
          var tl1 := Remove(tl, to.row, to.col).0;
          var (fl2, res) := Add(fl, from.row, from.col, tp);
          (h.(lineups := h.lineups[to.heatIdx := tl1][from.heatIdx := fl2]), res == Raised)
  }

  /** `movePerson` within one heat: that lineup's `swapPerson`; a missing lineup throws. */
  function SameHeat(h: HeatsState, k: int, from: Loc, to: Loc): (r: (HeatsState, bool))
    requires AllShaped(h) && from.Heat? && to.Heat?
    ensures AllShaped(r.0) && r.0.lineups.Keys == h.lineups.Keys
    ensures r.0.boatName == h.boatName && r.0.numHeats == h.numHeats && r.0.boatType == h.boatType
    ensures forall j :: j in h.lineups && j != k ==> r.0.lineups[j] == h.lineups[j]
  {
    if k !in h.lineups then (h, true)
    else
      var (t, raised) := Swap(h.lineups[k], from.row, from.col, to.row, to.col);
      (h.(lineups := h.lineups[k := t]), raised)
  }

  /**
   * `movePerson` from the roster to a heat, given the person the roster
   * holds at the computed index: none is a no-op; a missing lineup throws;
   * else the target cell's occupant is removed (a bad cell throws there) and
   * the person added.
   */
  function RosterToHeat(h: HeatsState, to: Loc, person: Option<Person>): (r: (HeatsState, bool))
    requires AllShaped(h) && to.Heat?
    ensures AllShaped(r.0) && r.0.lineups.Keys == h.lineups.Keys
    ensures r.0.boatName == h.boatName && r.0.numHeats == h.numHeats && r.0.boatType == h.boatType
    ensures forall j :: j in h.lineups && j != to.heatIdx ==> r.0.lineups[j] == h.lineups[j]
  {
    if person.None? then (h, false)
    else if to.heatIdx !in h.lineups then (h, true)
    else
      var (l1, raised) := Remove(h.lineups[to.heatIdx], to.row, to.col);
      if raised then (h, true)
      else
        var (l2, res) := Add(l1, to.row, to.col, person);
        (h.(lineups := h.lineups[to.heatIdx := l2]), res == Raised)
  }

  /** `movePerson` from a heat to the roster: the occupant is removed from the heat; the roster is not touched. */
  function HeatToRoster(h: HeatsState, from: Loc): (r: (HeatsState, bool))
    requires AllShaped(h) && from.Heat?
    ensures AllShaped(r.0) && r.0.lineups.Keys == h.lineups.Keys
    ensures r.0.boatName == h.boatName && r.0.numHeats == h.numHeats && r.0.boatType == h.boatType
    ensures forall j :: j in h.lineups && j != from.heatIdx ==> r.0.lineups[j] == h.lineups[j]
  {
    if from.heatIdx !in h.lineups then (h, true)
    else
      var l := h.lineups[from.heatIdx];
      match PeekCell(l, from.row, from.col)
      case Threw => (h, true)
      case Found(None) => (h, false)
      case Found(Some(_)) => (h.(lineups := h.lineups[from.heatIdx := Remove(l, from.row, from.col).0]), false)
  }

  /** `peopleArray[index]`: undefined (none) outside the array. */
  function RosterAt(roster: seq<Person>, index: int): (p: Option<Person>)
    ensures p.Some? <==> 0 <= index < |roster|
    ensures p.Some? ==> p.value == roster[index]
  {
    if 0 <= index < |roster| then Some(roster[index]) else None
  }

  /**
   * `BoatHeats.movePerson({from, to}, roster)`. `roster` is what
   * `roster.getAll()` returns and `stride` the row width used to index it
   * (25 in BoatHeats.js). The flag says the call threw; the state is what
   * the object holds at that point.
   */
  function Move(h: HeatsState, from: Loc, to: Loc, roster: seq<Person>, stride: int): (r: (HeatsState, bool))
    requires AllShaped(h)
    ensures AllShaped(r.0) && r.0.lineups.Keys == h.lineups.Keys
    ensures r.0.boatName == h.boatName && r.0.numHeats == h.numHeats && r.0.boatType == h.boatType
    ensures forall k :: k in h.lineups && !InHeat(from, k) && !InHeat(to, k) ==> r.0.lineups[k] == h.lineups[k]
  {
    if from.Heat? && to.Heat? && from.heatIdx == to.heatIdx then SameHeat(h, from.heatIdx, from, to)
    else if from.Heat? && to.Heat? then CrossHeat(h, from, to)
    else if from.RosterSlot? && to.Heat? then RosterToHeat(h, to, RosterAt(roster, from.row * stride + from.col))
    else if from.Heat? && to.RosterSlot? then HeatToRoster(h, from)
    else (h, false)
  }

  /** `clone`: the same name, count and type, each lineup cloned under its own key. */
  function CloneHeats(h: HeatsState): (c: HeatsState)
    ensures c.lineups.Keys == h.lineups.Keys
    ensures forall k :: k in c.lineups ==> c.lineups[k] == CloneOf(h.lineups[k])
  {
    h.(lineups := map k | k in h.lineups :: CloneOf(h.lineups[k]))
  }

  // ---------------------------------------------------------------------
  // mastersheetStr

  /** The title line's first n heat titles, "<boatType> Heat <i>" each followed by four tabs. */
  function TitleLine(boatType: string, n: nat): string
  {
    if n == 0 then "" else TitleLine(boatType, n - 1) + boatType + " Heat " + Text.NatToString(n) + "\t\t\t\t"
  }

  /** Line j of the first n heats' sheets, each followed by two tabs. */
  function SheetLine(h: HeatsState, n: nat, j: nat): string
    requires HeatKeys(h) && AllShaped(h) && n <= HeatCount(h.numHeats) && j < Rows + 2
  {
    if n == 0 then "" else SheetLine(h, n - 1, j) + SheetRows(h.lineups[n - 1].cells)[j] + "\t\t"
  }

  /** The text `BoatHeats.mastersheetStr` returns: "" without heats, else the title line and 13 lines. */
  function SheetText(h: HeatsState): (text: string)
    requires HeatKeys(h) && AllShaped(h)
    ensures text == "" <==> HeatCount(h.numHeats) == 0
  {
    var n := HeatCount(h.numHeats);
    if n == 0 then ""
    else TitleLine(h.boatType, n) + "\n" + Text.Join(seq(Rows + 2, j requires 0 <= j < Rows + 2 => SheetLine(h, n, j)), '\n')
  }
}
