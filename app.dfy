/**
 * The loops of src/App.jsx that build the values the application then
 * publishes whole: the merged roster, the rebuilt boats map and the
 * per-name appearance counts. Each method is proved to produce the value
 * AppModel gives for its inputs.
 */
module App {
  import opened Wrappers
  import opened People
  import opened LineupModel
  import opened HeatsModel
  import opened Sorting
  import opened SortedArrays
  import opened BoatHeatsObjects
  import opened AppModel
  import opened AppFacts
  import Text

  // ---------------------------------------------------------------------
  // Roster reload

  /** `items.forEach(p => next.add(p))`, on a roster whose data is the sort of `base`. */
  method AddEach(next: SortedArray<Person>, ghost base: seq<Person>, items: seq<Person>)
    requires next.Valid() && next.key == WeightKey && next.data == SortByKey(base, WeightKey)
    modifies next
    ensures next.Valid() && next.data == SortByKey(base + items, WeightKey)
  {
    ghost var acc := base;
    for i := 0 to |items|
      invariant acc + items[i..] == base + items
      invariant next.Valid() && next.data == SortByKey(acc, WeightKey)
    {
      SortByKeySnoc(acc, items[i], WeightKey);
      next.Add(items[i]);
      ShiftOne(acc, items, i);
      acc := acc + [items[i]];
    }
    assert acc + items[|items|..] == acc;
  }

  /** Moving the first of the remaining items onto the accumulated ones. */
  lemma ShiftOne(acc: seq<Person>, items: seq<Person>, i: int)
    requires 0 <= i < |items|
    ensures acc + items[i..] == (acc + [items[i]]) + items[i + 1..]
  {
    assert items[i..] == [items[i]] + items[i + 1..];
  }

  /** Handling one more row: its person, if it has a name, joins the accumulated ones. */
  lemma NamedShift(acc: seq<Person>, rows: seq<CsvRow>, i: int)
    requires 0 <= i < |rows|
    ensures rows[i].name == "" ==> acc + NamedPeople(rows[i..]) == acc + NamedPeople(rows[i + 1..])
    ensures rows[i].name != "" ==>
      acc + NamedPeople(rows[i..]) == (acc + [RowPerson(rows[i])]) + NamedPeople(rows[i + 1..])
  {
    assert rows[i..] == [rows[i]] + rows[i + 1..];
    NamedPeopleCons(rows[i], rows[i + 1..]);
  }

  /** `rows.forEach(row => ...)`: one person per row with a name, on a roster whose data is the sort of `base`. */
  method AddNamedRows(next: SortedArray<Person>, ghost base: seq<Person>, rows: seq<CsvRow>)
    requires next.Valid() && next.key == WeightKey && next.data == SortByKey(base, WeightKey)
    modifies next
    ensures next.Valid() && next.data == SortByKey(base + NamedPeople(rows), WeightKey)
  {
    ghost var acc := base;
    assert rows[0..] == rows;
    for i := 0 to |rows|
      invariant acc + NamedPeople(rows[i..]) == base + NamedPeople(rows)
      invariant next.Valid() && next.data == SortByKey(acc, WeightKey)
    {
      NamedShift(acc, rows, i);
      if rows[i].name != "" {
        var p := NewPerson(rows[i].name, rows[i].weight, rows[i].gender);
        SortByKeySnoc(acc, p, WeightKey);
        next.Add(p);
        acc := acc + [p];
      }
    }
    assert NamedPeople(rows[|rows|..]) == [];
    assert acc == base + NamedPeople(rows);
  }

  /**
   * The completion of `populateRosterFromGoogleSheet`, given the parsed
   * rows: a new roster ordered by weight, holding every entry of the old
   * one followed by the person of each row with a name.
   */
  method ReloadRoster(roster: SortedArray<Person>, rows: seq<CsvRow>) returns (next: SortedArray<Person>)
    requires roster.Valid()
    ensures fresh(next) && next.Valid() && next.key == WeightKey
    ensures next.data == Reloaded(roster.data, rows)
  {
    next := new SortedArray(WeightKey);
    var items := roster.GetAll();
    assert [] + items == items;
    AddEach(next, [], items);
    AddNamedRows(next, items, rows);
  }

  // ---------------------------------------------------------------------
  // Boats map reconciliation

  /** The type of each boat in a boats map. */
  ghost function TypesOf(boats: map<string, BoatHeats>): map<string, string>
    reads boats.Values
  {
    map k | k in boats :: boats[k].boatType
  }

  /** A valid heats object in the state `new BoatHeats(name, 3, boatType)` leaves. */
  ghost predicate Built(b: BoatHeats, name: string, boatType: string)
    reads b, b.Repr
  {
    b.Valid() && b.lineups.Values <= b.Repr && b.State() == NewHeats(name, 3, boatType)
  }

  /**
   * The `setBoats` updater of `updateBoatInput`, given the new input rows:
   * under each non-blank trimmed name, the existing boat when its type is
   * unchanged, else a new `BoatHeats(name, 3, type)`; the entry of the last
   * row naming a boat wins.
   */
  method Reconcile(prevBoats: map<string, BoatHeats>, inputs: seq<BoatInput>) returns (next: map<string, BoatHeats>)
    ensures var plan := Plan(TypesOf(prevBoats), Trimmed(inputs));
      && next.Keys == plan.Keys
      && forall k :: k in next ==>
           && (plan[k] == Keep ==> k in prevBoats && next[k] == prevBoats[k])
           && (plan[k].Fresh? ==>
                 fresh(next[k].Repr) && Built(next[k], k, plan[k].boatType))
  {
    ghost var types := TypesOf(prevBoats);
    ghost var rows := Trimmed(inputs);
    ghost var plan: map<string, Entry> := map[];
    next := map[];
    for i := 0 to |inputs|
      invariant plan == Plan(types, rows[..i])
      invariant next.Keys == plan.Keys
      invariant forall k :: k in next ==>
           && (plan[k] == Keep ==> k in prevBoats && next[k] == prevBoats[k])
           && (plan[k].Fresh? ==>
                 fresh(next[k].Repr) && Built(next[k], k, plan[k].boatType))
    {
      PlanStep(types, rows, i);
      var trimmed := Text.Trim(inputs[i].name);
      var boatType := inputs[i].boatType;
      if trimmed != "" {
        if trimmed in prevBoats && prevBoats[trimmed].boatType == boatType {
          next := next[trimmed := prevBoats[trimmed]];
        } else {
          var b := new BoatHeats(trimmed, 3, boatType);
          next := next[trimmed := b];
        }
        plan := plan[trimmed := Decide(types, trimmed, boatType)];
      }
    }
    assert rows[..|inputs|] == rows;
  }

  // ---------------------------------------------------------------------
  // Person counts

  /** The states of a sequence of boats. */
  ghost function StatesOf(boats: seq<BoatHeats>): (hs: seq<HeatsState>)
    reads boats, set b, l | b in boats && l in b.lineups.Values :: l
    ensures |hs| == |boats| && forall i :: 0 <= i < |boats| ==> hs[i] == boats[i].State()
  {
    if |boats| == 0 then [] else StatesOf(boats[..|boats| - 1]) + [boats[|boats| - 1].State()]
  }

  /** How many entries of `index`, among those not in `todo`, hold a person of name n. */
  ghost function Counted(index: map<string, Person>, todo: set<string>, n: string): nat
  {
    |set j | j in index && j !in todo && index[j].name == n|
  }

  /** Taking one more key out of `todo` counts its entry for its person's name only. */
  lemma CountedStep(index: map<string, Person>, todo: set<string>, k: string, n: string)
    requires k in todo && k in index
    ensures Counted(index, todo - {k}, n) == Counted(index, todo, n) + if index[k].name == n then 1 else 0
  {
    var s := set j | j in index && j !in todo && index[j].name == n;
    if index[k].name == n {
      assert (set j | j in index && j !in todo - {k} && index[j].name == n) == s + {k};
    } else {
      assert (set j | j in index && j !in todo - {k} && index[j].name == n) == s;
    }
  }

  /** With nothing left to do, every entry is counted. */
  lemma CountedAll(index: map<string, Person>, todo: set<string>, n: string)
    requires todo == {}
    ensures Counted(index, todo, n) == NameCount(index, n)
  {
    assert (set j | j in index && j !in todo && index[j].name == n) == (set j | j in index && index[j].name == n);
  }

  /** The innermost loop of `personCounts`: one more for the name of each person in one `peopleMap`. */
  method CountIndex(counts: map<string, nat>, index: map<string, Person>) returns (r: map<string, nat>)
    requires forall n :: n in counts ==> counts[n] >= 1
    ensures forall n :: n in r ==> r[n] >= 1
    ensures forall n :: Get(r, n) == Get(counts, n) + NameCount(index, n)
  {
    r := counts;
    var todo := index.Keys;
    forall n ensures Counted(index, todo, n) == 0 {
      assert (set j | j in index && j !in todo && index[j].name == n) == {};
    }
    while todo != {}
      invariant todo <= index.Keys
      invariant forall n :: n in r ==> r[n] >= 1
      invariant forall n :: Get(r, n) == Get(counts, n) + Counted(index, todo, n)
      decreases |todo|
    {
      var k :| k in todo;
      var name := index[k].name;
      forall n ensures Counted(index, todo - {k}, n) == Counted(index, todo, n) + if name == n then 1 else 0 {
        CountedStep(index, todo, k, n);
      }
      r := r[name := Get(r, name) + 1];
      todo := todo - {k};
    }
    forall n ensures Counted(index, todo, n) == NameCount(index, n) {
      CountedAll(index, todo, n);
    }
  }

  /** The middle loop of `personCounts`: every heat of one boat, in key order. */
  method CountBoat(counts: map<string, nat>, b: BoatHeats) returns (r: map<string, nat>)
    requires b.Valid()
    requires forall n :: n in counts ==> counts[n] >= 1
    ensures forall n :: n in r ==> r[n] >= 1
    ensures HeatKeys(b.State())
    ensures forall n :: Get(r, n) == Get(counts, n) + HeatTally(b.State(), n, HeatCount(b.numHeats))
  {
    ghost var h := b.State();
    assert HeatKeys(h);
    r := counts;
    for k := 0 to HeatCount(b.numHeats)
      invariant forall n :: n in r ==> r[n] >= 1
      invariant forall n :: Get(r, n) == Get(counts, n) + HeatTally(h, n, k)
    {
      assert h.lineups[k].index == b.lineups[k].peopleMap;
      r := CountIndex(r, b.lineups[k].peopleMap);
    }
  }

  /**
   * `personCounts` over the boats map's values: for each name, the number
   * of entries across every `peopleMap` of every heat of every boat whose
   * person has that name; names with no entry are absent.
   */
  method PersonCounts(boats: seq<BoatHeats>) returns (counts: map<string, nat>)
    requires forall i :: 0 <= i < |boats| ==> boats[i].Valid()
    ensures forall i :: 0 <= i < |boats| ==> HeatKeys(StatesOf(boats)[i])
    ensures forall n :: n in counts ==> counts[n] >= 1
    ensures forall n :: Get(counts, n) == Tally(StatesOf(boats), n)
  {
    counts := map[];
    ghost var hs: seq<HeatsState> := [];
    for i := 0 to |boats|
      invariant |hs| == i && forall j :: 0 <= j < i ==> hs[j] == boats[j].State() && HeatKeys(hs[j])
      invariant forall n :: n in counts ==> counts[n] >= 1
      invariant forall n :: Get(counts, n) == Tally(hs, n)
    {
      counts := CountBoat(counts, boats[i]);
      assert (hs + [boats[i].State()])[..i] == hs;
      hs := hs + [boats[i].State()];
    }
    assert hs == StatesOf(boats);
  }
}
