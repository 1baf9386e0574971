/**
 * The application-level state of src/App.jsx as values: the rows of a
 * roster sheet, the boat input rows, the plan by which `updateBoatInput`
 * rebuilds the boats map, and the per-name appearance tally of
 * `personCounts`.
 */
module AppModel {
  import opened Wrappers
  import opened People
  import opened LineupModel
  import opened LineupFacts
  import opened HeatsModel
  import opened Sorting
  import Text

  // ---------------------------------------------------------------------
  // Roster reload

  /** One parsed sheet row; a missing column reads as "". */
  datatype CsvRow = CsvRow(name: string, weight: int, gender: string)

  /** `compareByWeight`, given as the key it subtracts: ascending weight. */
  function WeightKey(p: Person): int
  {
    p.weight
  }

  /** The person a row with a name becomes: `new Person(name, weight, gender)`. */
  function RowPerson(row: CsvRow): Person
  {
    NewPerson(row.name, row.weight, row.gender)
  }

  /** The people the reload adds, in row order: one per row whose name is not empty. */
  function NamedPeople(rows: seq<CsvRow>): (people: seq<Person>)
    ensures |people| <= |rows|
    ensures forall p :: p in people ==> p.name != ""
  {
    if |rows| == 0 then []
    else NamedPeople(rows[..|rows| - 1]) + (if rows[|rows| - 1].name == "" then [] else [RowPerson(rows[|rows| - 1])])
  }

  /** The roster data after a reload from `rows`, given the data before it. */
  function Reloaded(data: seq<Person>, rows: seq<CsvRow>): (r: seq<Person>)
    ensures |r| == |data| + |NamedPeople(rows)|
  {
    SortByKey(data + NamedPeople(rows), WeightKey)
  }

  // ---------------------------------------------------------------------
  // Boat input rows

  /** One controlled input row: a boat name and a boat type. */
  datatype BoatInput = BoatInput(name: string, boatType: string)

  /** The partial update `{ name?, type? }`. */
  datatype InputChange = InputChange(name: Option<string>, boatType: Option<string>)

  /** The blank row the list starts with and grows by. */
  const Blank := BoatInput("", "")

  /** `{ ...row, ...changes }`. */
  function Merged(row: BoatInput, change: InputChange): BoatInput
  {
    BoatInput(
      if change.name.Some? then change.name.value else row.name,
      if change.boatType.Some? then change.boatType.value else row.boatType)
  }

  /** The input rows `updateBoatInput(i, changes)` leaves. */
  function NextInputs(prev: seq<BoatInput>, i: int, change: InputChange): (r: seq<BoatInput>)
    requires 0 <= i < |prev|
    ensures |prev| <= |r| <= |prev| + 1 && r[i] == Merged(prev[i], change)
    ensures forall j :: 0 <= j < |prev| && j != i ==> r[j] == prev[j]
  {
    var row := Merged(prev[i], change);
    var next := prev[i := row];
    if i == |prev| - 1 && Text.Trim(row.name) != "" then next + [Blank] else next
  }

  // ---------------------------------------------------------------------
  // Boats map reconciliation

  /** What the reconciliation puts under a name: the existing object, or a new `BoatHeats(name, 3, type)`. */
  datatype Entry = Keep | Fresh(boatType: string)

  /** The decision for one input row, given the types of the boats before the update. */
  function Decide(prevTypes: map<string, string>, name: string, boatType: string): Entry
  {
    if name in prevTypes && prevTypes[name] == boatType then Keep else Fresh(boatType)
  }

  /** The input rows with their names trimmed, as the reconciliation loop reads them. */
  function Trimmed(inputs: seq<BoatInput>): (r: seq<BoatInput>)
    ensures |r| == |inputs|
    ensures forall i :: 0 <= i < |r| ==> r[i] == BoatInput(Text.Trim(inputs[i].name), inputs[i].boatType)
  {
    seq(|inputs|, i requires 0 <= i < |inputs| => BoatInput(Text.Trim(inputs[i].name), inputs[i].boatType))
  }

  /**
   * The entries the loop over the (trimmed) input rows sets: a row with an
   * empty name is skipped, and a later row overwrites an earlier one.
   */
  function Plan(prevTypes: map<string, string>, rows: seq<BoatInput>): map<string, Entry>
  {
    if |rows| == 0 then map[]
    else
      var m := Plan(prevTypes, rows[..|rows| - 1]);
      var last := rows[|rows| - 1];
      if last.name == "" then m else m[last.name := Decide(prevTypes, last.name, last.boatType)]
  }

  // ---------------------------------------------------------------------
  // Person counts

  /** How many entries of one `peopleMap` hold a person of this name. */
  function NameCount(index: map<string, Person>, n: string): (c: nat)
    ensures c == 0 <==> forall k :: k in index ==> index[k].name != n
  {
    var named := set k | k in index && index[k].name == n;
    assert forall k :: k in index && index[k].name == n ==> k in named;
    assert (forall k :: k in index ==> index[k].name != n) ==> named == {};
    |named|
  }

  /** The tally over heats 0 .. upto - 1 of one boat. */
  function HeatTally(h: HeatsState, n: string, upto: nat): nat
    requires forall k :: 0 <= k < upto ==> k in h.lineups
  {
    if upto == 0 then 0 else HeatTally(h, n, upto - 1) + NameCount(h.lineups[upto - 1].index, n)
  }

  /** The tally over every heat of every boat. */
  function Tally(boats: seq<HeatsState>, n: string): nat
    requires forall i :: 0 <= i < |boats| ==> HeatKeys(boats[i])
  {
    if |boats| == 0 then 0
    else
      var h := boats[|boats| - 1];
      assert HeatKeys(h);
      Tally(boats[..|boats| - 1], n) + HeatTally(h, n, HeatCount(h.numHeats))
  }

  /** Reading `map.get(name) ?? 0`. */
  function Get(counts: map<string, nat>, n: string): nat
  {
    if n in counts then counts[n] else 0
  }
}

/** What the values of AppModel satisfy. */
module AppFacts {
  import opened Wrappers
  import opened People
  import opened LineupModel
  import opened LineupFacts
  import opened HeatsModel
  import opened Sorting
  import opened AppModel
  import Text

  // ---------------------------------------------------------------------
  // Roster reload

  /** The named rows' people are the people of exactly the rows with a non-empty name. */
  lemma {:induction false} NamedPeopleMembers(rows: seq<CsvRow>)
    ensures |NamedPeople(rows)| <= |rows|
    ensures forall p :: p in NamedPeople(rows) <==> exists i :: 0 <= i < |rows| && rows[i].name != "" && RowPerson(rows[i]) == p
  {
    if |rows| > 0 {
      var init := rows[..|rows| - 1];
      NamedPeopleMembers(init);
      forall p ensures p in NamedPeople(rows) <==> exists i :: 0 <= i < |rows| && rows[i].name != "" && RowPerson(rows[i]) == p {
        if p in NamedPeople(init) {
          var i :| 0 <= i < |init| && init[i].name != "" && RowPerson(init[i]) == p;
          assert rows[i] == init[i];
        }
        if exists i :: 0 <= i < |rows| && rows[i].name != "" && RowPerson(rows[i]) == p {
          var i :| 0 <= i < |rows| && rows[i].name != "" && RowPerson(rows[i]) == p;
          if i < |init| {
            assert init[i] == rows[i];
          }
        }
      }
    }
  }

  /** Reading rows in two batches adds the people of both, in order. */
  lemma {:induction false} NamedPeopleAppend(a: seq<CsvRow>, b: seq<CsvRow>)
    ensures NamedPeople(a + b) == NamedPeople(a) + NamedPeople(b)
    decreases |b|
  {
    if |b| > 0 {
      var b' := b[..|b| - 1];
      assert (a + b)[..|a + b| - 1] == a + b';
      NamedPeopleAppend(a, b');
    } else {
      assert a + b == a;
    }
  }

  /** The people of a row followed by more rows. */
  lemma NamedPeopleCons(r: CsvRow, rest: seq<CsvRow>)
    ensures NamedPeople([r] + rest) == (if r.name == "" then [] else [RowPerson(r)]) + NamedPeople(rest)
  {
    NamedPeopleAppend([r], rest);
    assert [r][..0] == [];
  }

  /**
   * A reload keeps every earlier entry and adds one person per named row,
   * ascending by weight; people of equal weight keep their order, earlier
   * entries first.
   */
  lemma ReloadContents(data: seq<Person>, rows: seq<CsvRow>)
    ensures multiset(Reloaded(data, rows)) == multiset(data) + multiset(NamedPeople(rows))
    ensures forall i, j :: 0 <= i < j < |Reloaded(data, rows)| ==> Reloaded(data, rows)[i].weight <= Reloaded(data, rows)[j].weight
    ensures forall w :: WithKey(Reloaded(data, rows), WeightKey, w) == WithKey(data + NamedPeople(rows), WeightKey, w)
  {
    SortByKeyCorrect(data + NamedPeople(rows), WeightKey);
    forall w ensures WithKey(Reloaded(data, rows), WeightKey, w) == WithKey(data + NamedPeople(rows), WeightKey, w) {
      SortByKeyStable(data + NamedPeople(rows), WeightKey, w);
    }
  }

  /** Nothing is deduplicated: reloading the same rows again adds their people a second time. */
  lemma ReloadAgainDuplicates(data: seq<Person>, rows: seq<CsvRow>)
    ensures multiset(Reloaded(Reloaded(data, rows), rows)) == multiset(data) + multiset(NamedPeople(rows)) + multiset(NamedPeople(rows))
    ensures |Reloaded(Reloaded(data, rows), rows)| == |data| + 2 * |NamedPeople(rows)|
  {
    ReloadContents(data, rows);
    ReloadContents(Reloaded(data, rows), rows);
  }

  // ---------------------------------------------------------------------
  // Boat input rows

  /**
   * Only row i changes, to the merged row; one blank row is appended
   * exactly when the edited row was the last and its name is not blank.
   */
  lemma NextInputsShape(prev: seq<BoatInput>, i: int, change: InputChange)
    requires 0 <= i < |prev|
    ensures var r := NextInputs(prev, i, change); var grows := i == |prev| - 1 && !Text.AllSpace(Merged(prev[i], change).name);
      && |r| == |prev| + (if grows then 1 else 0)
      && r[i] == Merged(prev[i], change)
      && (forall j :: 0 <= j < |prev| && j != i ==> r[j] == prev[j])
      && (grows ==> r[|prev|] == Blank)
  {
    Text.TrimFacts(Merged(prev[i], change).name);
  }

  /** The list always ends with a row whose name is blank, from the initial single blank row onwards. */
  lemma NextInputsEndsBlank(prev: seq<BoatInput>, i: int, change: InputChange)
    requires 0 <= i < |prev| && Text.AllSpace(prev[|prev| - 1].name)
    ensures var r := NextInputs(prev, i, change); |r| >= 1 && Text.AllSpace(r[|r| - 1].name)
  {
    Text.TrimFacts(Merged(prev[i], change).name);
  }

  // ---------------------------------------------------------------------
  // Boats map reconciliation

  /** The boats map's keys are exactly the non-empty (trimmed) input names. */
  lemma {:induction false} PlanKeys(prevTypes: map<string, string>, rows: seq<BoatInput>)
    ensures forall k :: k in Plan(prevTypes, rows) <==> k != "" && exists i :: 0 <= i < |rows| && rows[i].name == k
  {
    if |rows| > 0 {
      var init := rows[..|rows| - 1];
      var last := |rows| - 1;
      PlanKeys(prevTypes, init);
      forall k ensures k in Plan(prevTypes, rows) <==> k != "" && exists i :: 0 <= i < |rows| && rows[i].name == k {
        if k == rows[last].name && k != "" {
        } else {
          if k in Plan(prevTypes, init) {
            var i :| 0 <= i < |init| && init[i].name == k;
            assert rows[i] == init[i];
          }
          if k != "" && exists i :: 0 <= i < |rows| && rows[i].name == k {
            var i :| 0 <= i < |rows| && rows[i].name == k;
            assert init[i] == rows[i];
          }
        }
      }
    }
  }

  /**
   * The last row naming a boat decides its entry: the existing object when
   * a boat of that name had that type, else a fresh one of that type.
   */
  lemma {:induction false} PlanLastWins(prevTypes: map<string, string>, rows: seq<BoatInput>, i: int)
    requires 0 <= i < |rows| && rows[i].name != ""
    requires forall j :: i < j < |rows| ==> rows[j].name != rows[i].name
    ensures var k := rows[i].name; var p := Plan(prevTypes, rows);
      && k in p
      && (p[k] == Keep <==> k in prevTypes && prevTypes[k] == rows[i].boatType)
      && (p[k] != Keep ==> p[k] == Fresh(rows[i].boatType))
  {
    if i < |rows| - 1 {
      var init := rows[..|rows| - 1];
      assert init[i] == rows[i];
      PlanLastWins(prevTypes, init, i);
    }
  }

  /** One more row sets at most its own name's entry. */
  lemma PlanStep(prevTypes: map<string, string>, rows: seq<BoatInput>, i: int)
    requires 0 <= i < |rows|
    ensures Plan(prevTypes, rows[..i + 1]) ==
      if rows[i].name == "" then Plan(prevTypes, rows[..i])
      else Plan(prevTypes, rows[..i])[rows[i].name := Decide(prevTypes, rows[i].name, rows[i].boatType)]
  {
    assert rows[..i + 1][..i] == rows[..i];
  }

  /** The plan keeps only boats that existed before the update. */
  lemma {:induction false} PlanKeepsExisting(prevTypes: map<string, string>, rows: seq<BoatInput>, k: string)
    requires k in Plan(prevTypes, rows) && Plan(prevTypes, rows)[k] == Keep
    ensures k in prevTypes
  {
    if rows[|rows| - 1].name != k || k == "" {
      PlanKeepsExisting(prevTypes, rows[..|rows| - 1], k);
    }
  }

  // ---------------------------------------------------------------------
  // Person counts

  /** With a `peopleMap` keyed by name, a lineup adds one to a name exactly when its map holds that name. */
  lemma NameCountKeyed(index: map<string, Person>, n: string)
    requires IndexKeyed(index)
    ensures NameCount(index, n) == if n in index then 1 else 0
  {
    if n in index {
      assert (set k | k in index && index[k].name == n) == {n};
    } else {
      assert (set k | k in index && index[k].name == n) == {};
    }
  }

  /** Within one boat whose lineups are balanced, the tally counts the heats whose `peopleMap` holds the name. */
  lemma {:induction false} HeatTallyCounts(h: HeatsState, n: string, upto: nat)
    requires forall k :: 0 <= k < upto ==> k in h.lineups && IndexKeyed(h.lineups[k].index)
    ensures HeatTally(h, n, upto) == |set k | 0 <= k < upto && n in h.lineups[k].index|
  {
    if upto > 0 {
      HeatTallyCounts(h, n, upto - 1);
      NameCountKeyed(h.lineups[upto - 1].index, n);
      var before := set k | 0 <= k < upto - 1 && n in h.lineups[k].index;
      if n in h.lineups[upto - 1].index {
        assert (set k | 0 <= k < upto && n in h.lineups[k].index) == before + {upto - 1};
      } else {
        assert (set k | 0 <= k < upto && n in h.lineups[k].index) == before;
      }
    }
  }

  /** A name has no appearances exactly when no heat of any boat holds it. */
  lemma {:induction false} TallyZero(boats: seq<HeatsState>, n: string)
    requires forall i :: 0 <= i < |boats| ==> HeatKeys(boats[i])
    requires forall i, k :: 0 <= i < |boats| && k in boats[i].lineups ==> IndexKeyed(boats[i].lineups[k].index)
    ensures Tally(boats, n) == 0 <==> forall i, k :: 0 <= i < |boats| && k in boats[i].lineups ==> n !in boats[i].lineups[k].index
  {
    if |boats| > 0 {
      var init := boats[..|boats| - 1];
      var h := boats[|boats| - 1];
      TallyZero(init, n);
      HeatTallyCounts(h, n, HeatCount(h.numHeats));
      var s := set k | 0 <= k < HeatCount(h.numHeats) && n in h.lineups[k].index;
      if Tally(boats, n) == 0 {
        assert s == {};
        forall i, k | 0 <= i < |boats| && k in boats[i].lineups ensures n !in boats[i].lineups[k].index {
          if i < |init| {
            assert init[i] == boats[i];
          } else {
            assert k !in s;
          }
        }
      } else {
        if Tally(init, n) == 0 {
          var k :| k in s;
          assert n in boats[|boats| - 1].lineups[k].index;
        } else {
          var i, k :| 0 <= i < |init| && k in init[i].lineups && n in init[i].lineups[k].index;
          assert boats[i] == init[i];
        }
      }
    }
  }
}
