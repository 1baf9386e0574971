# Dragon-boat lineup maker: a Dafny model of its seating and move logic

The lineup maker seats paddlers in dragon boats. It has these parts:

- A **lineup** is an 11 × 2 grid.
  - Row 0 holds the caller (left cell) and the steer (right cell).
  - Rows 1..10 are the benches.
  - It keeps a name index (`peopleMap`) that refuses a second seat for the same name.
  - It keeps running left and right bench weights.
- There are three kinds of lineup:
  - the base (open) lineup;
  - the women's lineup, which seats only women on the benches;
  - the mixed lineup, which caps men and women at ten each on the benches, with two counters.
- A **boat** (`BoatHeats`) maps each heat number to a lineup of the boat's type. Its `movePerson` handles:
  - a drag within one heat;
  - a drag between two heats;
  - a drag from the roster into a heat;
  - a drag from a heat back to the roster.

  A boat can also be cloned and exported as a tab-separated master sheet.
- The **roster** is a `SortedArray` of people kept in weight order.
- The application glue is also modelled:
  - the roster reload;
  - the rebuilding of the boats map when a boat-name input changes;
  - the per-name appearance counts;
  - the display's two-column roster grid;
  - the display's clone-then-move step.

The model has two layers.

**Values.** A lineup is a `LineupState` and a boat is a `HeatsState`. Each operation is a function on these values:

- `Add`, `Remove`, `Swap`, `CloneOf` and `SheetRows`;
- `Move`, `CloneHeats` and `SheetText`;
- `Insert` and `SortByKey`.

A thrown JavaScript exception becomes a `Raised` result, or a `true` flag beside the new state. Whatever the code changed before it threw is kept.

**Objects.** The source's objects are classes:

- `Lineup` over an `array2`;
- `BoatHeats` over a `map<int, Lineup>`;
- `SortedArray<T>` over a sequence and a sort key.

Each mutating method is proved to leave exactly the state the value function gives for the old state. The application loops are methods proved against the functions in `AppModel`.

The properties proved include:

- The lineup invariant `Balanced`:
  - the weights equal the column sums over rows 1..10;
  - the mixed counters equal the bench counts and stay at most 10;
  - the women's benches hold only women;
  - every indexed name is seated.

  Every add to an empty cell, every remove and every swap keeps it, and so does every boat move and clone.
- The stronger invariant `Exact` also requires every seated name to be indexed, with no name seated twice.
- Add-then-remove restores the lineup.
- A base-lineup swap exchanges the two cells, and applying it twice restores the lineup.
- The exports have the documented layout.
- The roster stays sorted, stable and a permutation of what was added.
- The boats map keeps exactly the trimmed names.
- The display grid lists the roster once, in order.

Two places where the code does not do what it evidently means are recorded under Findings.

The code names the roster location type `"sorted"`, not `"roster"`; the model follows the code (`Loc.RosterSlot`).

## Model

| member | source | states |
|---|---|---|
| People.NewPerson | src/data_objects/Person.js:14-21 | name, weight, gender, times and the steer/caller flags are stored exactly as given, with no validation |
| People.NewPersonDefaults | src/data_objects/Person.js:14-20 | without the optional arguments the 400 m times are [0, 0] and the person is neither steer nor caller |
| Text.TrimFacts | src/App.jsx:155-156 | a trimmed name is never longer than the input, is empty exactly when the input is all whitespace, and neither starts nor ends with whitespace |
| Text.TrimIdempotent | src/App.jsx:155 | trimming a trimmed name changes nothing |
| Text.SplitJoin | src/data_objects/BoatHeats.js:167 | splitting lines joined with a separator that none of them contains gives back the lines |
| LineupModel.EmptyState | src/lineup_objects/Lineup.js:15-22 | a new lineup has an 11 × 2 grid with every cell empty |
| LineupFacts.EmptyStateExact | src/lineup_objects/Lineup.js:15-22 | a new lineup of any kind has zero weights and an empty index and satisfies the full invariant |
| LineupModel.BaseAdd | src/lineup_objects/Lineup.js:33-57 | refused exactly when the person is null or their name is indexed, a check made before the bounds check; throws exactly for a new person at a position off the grid; otherwise seats and indexes the person, leaves every other cell alone, adds their weight to the left total in column 0 or the right total in column 1 unless the row is 0, and keeps the kind of lineup and the mixed counters |
| LineupModel.BaseRemove | src/lineup_objects/Lineup.js:65-79 | throws exactly off the grid; an empty cell is left alone; otherwise the cell is cleared, every other cell left alone, the name unindexed, the weight subtracted from the left total in column 0 or the right total in column 1 unless the row is 0, and the kind of lineup and the mixed counters kept |
| LineupModel.WomensAdd | src/lineup_objects/WomensLineup.js:19-26 | at row 0 it is the base add; on a bench a person whose gender is not "female" is refused with no change; a woman on a bench gets exactly the base add |
| LineupModel.MixedAdd | src/lineup_objects/MixedLineup.js:31-65 | at row 0 it is the base add; a bench man with 10 men seated, or a bench woman with 10 women seated, is refused with no change; any other gender gives the undefined result; a counter rises by one exactly when the base add succeeded |
| LineupModel.MixedRemove | src/lineup_objects/MixedLineup.js:73-88 | at row 0 it is the base remove; throws exactly off the grid; on a bench the occupant's gender counter drops by one and the occupant is removed |
| LineupModel.Place | src/lineup_objects/Lineup.js:46-53 | the base add's effect on the grid: the person seated and indexed and the weight added to their column's total off row 0; `BaseAdd` states this result, `LineupFacts.AddPlaces` shows every successful add is it, and `LineupFacts.PlaceThenClear` shows `Clear` undoes it |
| LineupModel.Clear | src/lineup_objects/Lineup.js:68-73 | the base remove's effect on an occupied cell: the cell emptied, the name unindexed and the weight taken off its column's total off row 0; `BaseRemove` states this result and `LineupFacts.ClearThenPlace` shows `Place` undoes it |
| LineupModel.Add | src/lineup_objects/Lineup.js:33-57 | for every kind of lineup: only the target cell can change; on success the person is seated there and indexed; on failure nothing changes; an indexed name is never added again |
| LineupModel.Remove | src/lineup_objects/Lineup.js:65-79 | for every kind of lineup: only the target cell can change and it ends empty; throws exactly off the grid |
| LineupModel.SwapCleared | src/lineup_objects/Lineup.js:107-108 | after the two removes both cells of the swap are empty |
| LineupModel.Swap | src/lineup_objects/Lineup.js:90-120 | throws, with no change, exactly when one of the four coordinates is off the grid |
| LineupFacts.AddPlaces | src/lineup_objects/Lineup.js:46-56 | a successful add was on the grid with a new name, and its result is that person placed and the counters updated |
| LineupFacts.RemoveClears | src/lineup_objects/MixedLineup.js:73-88 | removing an occupant is that occupant's gender counter decremented, then the cell cleared |
| LineupFacts.AddAdmits | src/lineup_objects/Lineup.js:33-57 | an add succeeds if and only if the position is on the grid, the name is new, and the kind of lineup admits the person on that row |
| LineupFacts.PlaceThenClear | src/lineup_objects/Lineup.js:46-47 | seating a new person in an empty cell and then clearing them restores the lineup |
| LineupFacts.ClearThenPlace | src/lineup_objects/Lineup.js:72-73 | clearing an indexed occupant and then seating them again restores the lineup |
| LineupFacts.AddKeeps | src/lineup_objects/Lineup.js:46-53 | an add to an empty cell, or off the grid, keeps the weight, counter, bench and index invariant and the full invariant |
| LineupFacts.RemoveKeeps | src/lineup_objects/Lineup.js:65-79 | every remove keeps the invariant and the full invariant |
| LineupFacts.SwapClearedKeeps | src/lineup_objects/Lineup.js:107-108 | the two removes of a swap keep the invariant and the full invariant |
| LineupFacts.SwapKeeps | src/lineup_objects/Lineup.js:90-120 | every swap keeps the invariant and the full invariant, in every kind of lineup |
| LineupFacts.AddThenRemove | src/lineup_objects/Lineup.js:33-79 | a successful add to an empty cell followed by a remove there restores the weights, the index and the grid |
| LineupFacts.SecondAddRefused | src/lineup_objects/Lineup.js:35-38 | after a successful add the same person is refused anywhere, even at a position off the grid, and nothing changes |
| LineupFacts.SameCellSecondAdd | src/lineup_objects/Lineup.js:35-38 | adding the same person to the same cell twice is the same as adding them once |
| LineupFacts.InGridNeverRaises | src/lineup_objects/Lineup.js:41-43 | on the grid, add and remove never throw |
| LineupFacts.ReseatRestores | src/lineup_objects/Lineup.js:65-79 | removing a seated person and adding them back at the same cell restores the lineup and succeeds |
| LineupFacts.Reseat | src/lineup_objects/Lineup.js:33-79 | the same round trip from the weaker premise that the person is indexed and admitted on that row |
| LineupFacts.SwapSelf | src/lineup_objects/Lineup.js:90-110 | swapping a cell with itself changes nothing and does not throw |
| LineupFacts.Exchanged | src/lineup_objects/Lineup.js:106-110 | the intended swap: the two cells trade contents and every other cell is unchanged |
| LineupFacts.OpenSwapExchanges | src/lineup_objects/Lineup.js:90-110 | in an open lineup a swap exchanges the two cells, keeps the index and keeps the full invariant |
| LineupFacts.OpenSwapDistinct | src/lineup_objects/Lineup.js:97-110 | the same for two distinct cells whose occupants are indexed and differently named |
| LineupFacts.OpenSwapClearedFacts | src/lineup_objects/Lineup.js:107-108 | in an open lineup the two removes empty both cells, leave every other cell alone and unindex exactly the two occupants |
| LineupFacts.ExchangedTwice | src/lineup_objects/Lineup.js:106-110 | exchanging the same two cells twice gives back the grid |
| LineupFacts.OpenSwapTwice | src/lineup_objects/Lineup.js:90-110 | in an open lineup, swapping the same two cells twice restores the lineup |
| LineupFacts.WomensSwapDropsNonFemale | src/lineup_objects/Lineup.js:107-110 | in a women's lineup, swapping a non-woman from row 0 to an empty bench leaves that person seated nowhere |
| LineupFacts.SeatsNone | src/lineup_objects/Lineup.js:35-47 | under the full invariant, a seated name is seated exactly once |
| LineupFacts.MixedCapacity | src/lineup_objects/MixedLineup.js:38-49 | with ten men on the benches another man is refused; after one bench man is removed the count is nine and a new man is admitted, bringing it back to ten |
| LineupFacts.CloneKeepsBalanced | src/lineup_objects/Lineup.js:139-146 | every kind of clone has the same grid and weights and keeps the invariant |
| LineupFacts.WomensCloneAdmitsDuplicate | src/lineup_objects/WomensLineup.js:33-40 | in a women's clone a person who is already seated can be added a second time, so a name ends up seated twice |
| LineupFacts.CloneKeepingIndexExact | src/lineup_objects/Lineup.js:139-146 | a clone that copies the name index equals the original and keeps the full invariant |
| LineupModel.CloneOf | src/lineup_objects/WomensLineup.js:33-40 | a clone has the same kind, grid and weights, and a mixed clone the same counters; the name index is copied exactly when the lineup is open or its index is already empty, because the women's and mixed clones copy the undefined `peopleSet` instead (also src/lineup_objects/MixedLineup.js:95-104) |
| LineupModel.CloneKeepingIndex | src/lineup_objects/Lineup.js:139-146 | the base clone, copying the grid, the weights and the name index, and for a mixed lineup its counters |
| LineupFacts.CloneKeepingIndexRefusesDuplicate | src/lineup_objects/Lineup.js:35-38 | in a clone that copies the index, for every kind of lineup, adding a seated person to another empty cell is refused, changes nothing and leaves no name seated twice |
| LineupModel.SheetRows | src/lineup_objects/Lineup.js:153-171 | the export has 13 rows and the second is the header `Row`, `Left`, `Right`; the full layout is `LineupFacts.SheetRowsParse` |
| LineupFacts.SheetRowsParse | src/lineup_objects/Lineup.js:153-171 | the export has 13 rows: a caller row, a header row, rows 1..10 as number, left name and right name, and a steer row; every row splits at tabs into its three fields |
| Lineups.Lineup.constructor | src/lineup_objects/Lineup.js:15-22 | a new lineup object of the given kind, with a fresh grid, in the empty state; a mixed lineup's counters start at 0 |
| Lineups.Lineup.BaseAddPerson | src/lineup_objects/Lineup.js:33-57 | the base add on the object: its new state and result are those of the base add function |
| Lineups.Lineup.AddPerson | src/lineup_objects/MixedLineup.js:31-65 | the add that dispatches on the kind of lineup: its new state and result are those of `Add` |
| Lineups.Lineup.BaseRemovePerson | src/lineup_objects/Lineup.js:65-79 | the base remove on the object, as the base remove function |
| Lineups.Lineup.RemovePerson | src/lineup_objects/MixedLineup.js:73-88 | the remove that dispatches on the kind of lineup, as `Remove` |
| Lineups.Lineup.SwapPerson | src/lineup_objects/Lineup.js:90-120 | the swap, through the dispatching remove and add, as `Swap` |
| Lineups.Lineup.Clone | src/lineup_objects/Lineup.js:139-146 | a fresh lineup with a fresh grid in the state the source's clone for that kind produces |
| Lineups.Lineup.MastersheetStr | src/lineup_objects/Lineup.js:153-171 | the export loop returns exactly the rows of `SheetRows` |
| Sorting.Insert | src/data_objects/SortedArray.js:23-25 | pushing one item onto sorted data and sorting: the result is one longer; `InsertPermutes`, `InsertSorted` and `InsertStable` state that it is a stable, sorted permutation |
| Sorting.SortByKey | src/data_objects/SortedArray.js:23-25 | the stable sort by the key, of the same length as its input; `SortByKeyCorrect` and `SortByKeyStable` state that it is sorted, stable and a permutation |
| Sorting.InsertPermutes | src/data_objects/SortedArray.js:23-25 | an add makes the data one longer, as the old data plus the item |
| Sorting.InsertSorted | src/data_objects/SortedArray.js:25 | adding to sorted data leaves it sorted by the key |
| Sorting.InsertStable | src/data_objects/SortedArray.js:25 | items with equal keys keep their order, and the new item comes after those already there |
| Sorting.SortByKeyCorrect | src/data_objects/SortedArray.js:24-25 | sorting gives sorted data, of the same length, that is a permutation of the input |
| Sorting.SortByKeyStable | src/data_objects/SortedArray.js:25 | sorting keeps the input order among equal keys |
| Sorting.SortByKeySortedFixed | src/data_objects/SortedArray.js:25 | sorting data that is already sorted changes nothing |
| Sorting.SortByKeySnoc | src/data_objects/SortedArray.js:23-25 | sorting the items with one more pushed is inserting that item into the sorted items |
| Sorting.PushSortIsInsert | src/data_objects/SortedArray.js:23-25 | pushing onto sorted data and sorting is the stable insert |
| Sorting.SortAppend | src/data_objects/SortedArray.js:23-25 | pushing onto the sorted items and sorting again equals sorting everything pushed so far |
| SortedArrays.SortedArray.constructor | src/data_objects/SortedArray.js:12-17 | a new sorted array is empty and keeps the given key |
| SortedArrays.SortedArray.Add | src/data_objects/SortedArray.js:23-26 | the data becomes the stable insertion of the item, with no duplicate suppression |
| SortedArrays.SortedArray.GetAll | src/data_objects/SortedArray.js:32-34 | the items are the data, sorted by the key |
| HeatsModel.VariantOf | src/data_objects/BoatHeats.js:24-26 | "Mixed" gives a mixed lineup, "Womens" a women's lineup, and any other type an open lineup |
| HeatsModel.HeatIndices | src/data_objects/BoatHeats.js:23-29 | the heat keys are exactly 0 .. numHeats - 1 |
| HeatsModel.NewHeats | src/data_objects/BoatHeats.js:21-35 | a new boat keeps its name, heat count and type, and every heat is an empty lineup of the type's kind |
| HeatsModel.PeekCell | src/data_objects/BoatHeats.js:76-77 | reading a cell throws exactly when the row is off the grid; on the grid it gives the occupant, and only a cell on the grid yields a person |
| HeatsModel.RosterAt | src/data_objects/BoatHeats.js:105-108 | the roster entry at an index, or none exactly past the ends |
| HeatsModel.SameHeat | src/data_objects/BoatHeats.js:60-69 | a drag within one heat changes only that heat |
| HeatsModel.CrossHeat | src/data_objects/BoatHeats.js:72-101 | a drag between heats changes only the two heats involved and keeps the boat's name, heat count and type |
| HeatsModel.RosterToHeat | src/data_objects/BoatHeats.js:104-116 | a drag from the roster changes only the target heat |
| HeatsModel.HeatToRoster | src/data_objects/BoatHeats.js:118-126 | a drag to the roster changes only the source heat |
| HeatsModel.Move | src/data_objects/BoatHeats.js:58-127 | any drag changes only the heats it names and keeps the boat's heat keys, name, count and type; other combinations change nothing |
| HeatsModel.CloneHeats | src/data_objects/BoatHeats.js:134-143 | a cloned boat has the same heat keys, each holding the source's clone of that heat's lineup |
| HeatsModel.TitleLine | src/data_objects/BoatHeats.js:155-160 | the title line for the first n heats: "<type> Heat i" and four tabs for each i from 1 to n; `HeatsFacts.SheetTextLines` proves its place in the sheet |
| HeatsModel.SheetLine | src/data_objects/BoatHeats.js:159-164 | line j across the first n heats: each heat's export row j followed by two tabs; `HeatsFacts.SheetTextLines` proves its place in the sheet |
| HeatsModel.SheetText | src/data_objects/BoatHeats.js:150-168 | the master sheet is empty exactly when the boat has no heats; its layout is `HeatsFacts.SheetTextLines` |
| HeatsFacts.NewHeatsExact | src/data_objects/BoatHeats.js:21-32 | a new boat has heats 0 .. numHeats - 1, all of the type's kind and satisfying the full invariant |
| HeatsFacts.MoveKeeps | src/data_objects/BoatHeats.js:58-127 | every drag keeps every heat's invariant and full invariant |
| HeatsFacts.SameHeatKeeps | src/data_objects/BoatHeats.js:60-69 | a drag within a heat keeps the invariants |
| HeatsFacts.CrossHeatKeeps | src/data_objects/BoatHeats.js:72-101 | a drag between heats keeps the invariants |
| HeatsFacts.CrossBothKeeps | src/data_objects/BoatHeats.js:83-89 | an exchange between two occupied cells of different heats keeps the invariants |
| HeatsFacts.RosterToHeatKeeps | src/data_objects/BoatHeats.js:104-116 | a drag from the roster keeps the invariants, since the target cell is emptied before the add |
| HeatsFacts.HeatToRosterKeeps | src/data_objects/BoatHeats.js:118-126 | a drag to the roster keeps the invariants |
| HeatsFacts.CrossMoveOne | src/data_objects/BoatHeats.js:91-94 | moving a person to an empty cell of another heat empties and unindexes the source; the person lands in the target only if that heat admits them, else they are seated in neither heat |
| HeatsFacts.CrossSwapOpen | src/data_objects/BoatHeats.js:83-89 | between two open heats each person lands in the other's cell, unless their name is already seated in that heat, and then that cell stays empty |
| HeatsFacts.CrossMoveBack | src/data_objects/BoatHeats.js:96-99 | moving a person from a heat back to an empty cell of another heat empties their cell and unindexes them; when the empty cell is on the grid nothing throws and it receives them exactly when their name is new to that heat and the heat admits them |
| HeatsFacts.CrossSwapAny | src/data_objects/BoatHeats.js:83-89 | an exchange between two occupied cells of different heats of any kind never throws; each occupant is unindexed from their own heat and lands in the other's cell exactly when their name is new there and that heat admits them, else that cell stays empty |
| HeatsFacts.CrossSwapShape | src/data_objects/BoatHeats.js:83-89 | that exchange is the two removes followed by the two crossed adds, and nothing else changes |
| HeatsFacts.ReplaceOccupant | src/data_objects/BoatHeats.js:84-88 | removing a cell's occupant and adding another person there unindexes the occupant and seats the newcomer exactly when their name is new and the lineup admits them |
| HeatsFacts.CrossBothEmpty | src/data_objects/BoatHeats.js:76-80 | a drag between two empty cells of different heats changes nothing and does not throw |
| HeatsFacts.OtherPairsNoOp | src/data_objects/BoatHeats.js:58-127 | a drag that is neither heat-to-heat, roster-to-heat nor heat-to-roster changes nothing |
| HeatsFacts.RosterToHeatPlaces | src/data_objects/BoatHeats.js:104-116 | a roster person dragged to an empty cell is seated exactly when the lineup admits them; no throw |
| HeatsFacts.RosterToHeatDrops | src/data_objects/BoatHeats.js:110-113 | a roster person dragged onto an occupied cell drops the occupant from the heat without returning them anywhere |
| HeatsFacts.HeatToRosterClears | src/data_objects/BoatHeats.js:118-126 | a drag to the roster empties an occupied cell and unindexes the name; an empty cell or one off the grid changes nothing |
| HeatsFacts.CloneHeatsKeeps | src/data_objects/BoatHeats.js:134-143 | a cloned boat has the same name, count, type, cells and weights in every heat and keeps the invariant |
| HeatsFacts.CloneHeatsSheet | src/data_objects/BoatHeats.js:134-168 | a cloned boat exports the same master sheet |
| HeatsFacts.SheetTextLines | src/data_objects/BoatHeats.js:150-168 | with at least one heat, the sheet is the title line followed by 13 lines, the concatenation across heats of each lineup row plus two tabs |
| BoatHeatsObjects.AppendRows | src/data_objects/BoatHeats.js:162-164 | each line gets the heat's row and two tabs appended |
| BoatHeatsObjects.BoatHeats.constructor | src/data_objects/BoatHeats.js:21-35 | a new boat object whose fresh lineups are in the `NewHeats` state |
| BoatHeatsObjects.BoatHeats.SwapWithin | src/data_objects/BoatHeats.js:60-69 | the same-heat case on the objects, as `SameHeat` |
| BoatHeatsObjects.BoatHeats.Exchange | src/data_objects/BoatHeats.js:83-89 | two removes and two crossed adds, each heat changed as the lineup functions say and every other heat unchanged |
| BoatHeatsObjects.BoatHeats.Relocate | src/data_objects/BoatHeats.js:91-99 | one remove and one add across heats, each heat changed as the lineup functions say |
| BoatHeatsObjects.BoatHeats.MoveAcross | src/data_objects/BoatHeats.js:72-101 | the cross-heat case on the objects, as `CrossHeat` |
| BoatHeatsObjects.BoatHeats.PlaceFromRoster | src/data_objects/BoatHeats.js:104-116 | the roster-to-heat case on the objects, as `RosterToHeat` |
| BoatHeatsObjects.BoatHeats.SendToRoster | src/data_objects/BoatHeats.js:118-126 | the heat-to-roster case on the objects, as `HeatToRoster` |
| BoatHeatsObjects.BoatHeats.MovePerson | src/data_objects/BoatHeats.js:58-127 | the whole dispatch on the objects, as `Move` with a roster row width of 25 |
| BoatHeatsObjects.BoatHeats.CloneLineups | src/data_objects/BoatHeats.js:136-141 | a fresh, distinct clone of every lineup under the same key |
| BoatHeatsObjects.BoatHeats.Assemble | src/data_objects/BoatHeats.js:135-140 | a boat built around the given lineups has exactly their states |
| BoatHeatsObjects.BoatHeats.Clone | src/data_objects/BoatHeats.js:134-143 | a boat with fresh objects throughout, in the `CloneHeats` state of the original |
| BoatHeatsObjects.BoatHeats.MastersheetStr | src/data_objects/BoatHeats.js:150-168 | the nested export loop returns exactly `SheetText` |
| AppModel.Trimmed | src/App.jsx:154-156 | each input row with its name trimmed and its type kept |
| AppModel.NamedPeople | src/App.jsx:81-89 | the people made from the rows with a non-empty name: never more than the rows and none with an empty name; `AppFacts.NamedPeopleMembers` states exactly which |
| AppModel.Reloaded | src/App.jsx:77-90 | the reloaded roster has one entry per old entry and per named row; `AppFacts.ReloadContents` states its contents and order |
| AppModel.NextInputs | src/App.jsx:144-149 | editing row i merges the change into row i, keeps every other row, and adds at most one row |
| AppModel.Decide | src/App.jsx:158-166 | the entry for one named row: the existing boat when one of that name has the row's type, else a fresh boat of that type; `AppFacts.PlanLastWins` states it for the whole map |
| AppModel.Plan | src/App.jsx:151-170 | the planned boats map; `AppFacts.PlanKeys`, `AppFacts.PlanLastWins` and `AppFacts.PlanKeepsExisting` state its keys and entries |
| AppModel.NameCount | src/App.jsx:122-123 | a lineup's count for a name is 0 exactly when none of its index entries carries that name |
| AppModel.HeatTally | src/App.jsx:121-125 | a boat's count for a name over its first heats; `AppFacts.HeatTallyCounts` states it |
| AppModel.Tally | src/App.jsx:118-128 | a name's count over all boats; `AppFacts.TallyZero` states when it is 0 |
| AppFacts.NamedPeopleMembers | src/App.jsx:81-89 | the reload adds one person for each row with a non-empty name and nobody else |
| AppFacts.NamedPeopleAppend | src/App.jsx:81-89 | the rows' people come in row order |
| AppFacts.ReloadContents | src/App.jsx:77-90 | the reloaded roster is the old entries plus the named rows' people, sorted by ascending weight, keeping the order among equal weights |
| AppFacts.ReloadAgainDuplicates | src/App.jsx:77-90 | reloading the same rows twice adds their people twice, since nothing is deduplicated |
| AppFacts.NextInputsShape | src/App.jsx:144-149 | editing row i changes only row i; exactly one blank row is appended when the last row gets a non-blank name |
| AppFacts.NextInputsEndsBlank | src/App.jsx:147-149 | the input list keeps ending with a blank-named row |
| AppFacts.PlanKeys | src/App.jsx:152-157 | the boats map's keys are exactly the non-empty trimmed input names |
| AppFacts.PlanLastWins | src/App.jsx:154-167 | the last row with a name decides its entry: the existing boat if one of that name had that type, else a fresh one of that type |
| AppFacts.PlanStep | src/App.jsx:154-167 | each row sets at most its own name's entry |
| AppFacts.PlanKeepsExisting | src/App.jsx:158-164 | only boats that existed before are kept |
| AppFacts.NameCountKeyed | src/App.jsx:122-123 | one lineup contributes 1 to a name's count if the name is in its index, else 0 |
| AppFacts.HeatTallyCounts | src/App.jsx:121-124 | a boat's count for a name is the number of its heats whose index holds the name |
| AppFacts.TallyZero | src/App.jsx:118-128 | a name's count is 0 exactly when no heat of any boat indexes it |
| App.AddEach | src/App.jsx:79 | copying the old entries one by one gives the sort of the old entries |
| App.AddNamedRows | src/App.jsx:81-89 | adding each named row's person gives the sort of everything added |
| App.ReloadRoster | src/App.jsx:77-90 | the new roster is fresh, ordered by weight, and holds `Reloaded(old, rows)` |
| App.Reconcile | src/App.jsx:151-170 | the new map has exactly the planned keys; a kept boat is the same object as before; every other entry is a fresh boat of the input's type with three empty heats |
| App.CountIndex | src/App.jsx:122-124 | one index adds, for each name, the number of its entries with that name |
| App.CountBoat | src/App.jsx:121-125 | one boat adds its per-heat counts |
| App.PersonCounts | src/App.jsx:118-128 | each name's count is the number of heat indexes, over all boats, that hold it; names never seen are absent |
| Display.PeopleGrid | src/react_components/BoatHeatsDisplay.jsx:77-84 | the roster grid has ceil(n / 2) rows of exactly two cells; `PeopleGridShape` and `PeopleGridRowMajor` state its contents |
| Display.PeopleGridShape | src/react_components/BoatHeatsDisplay.jsx:77-83 | the grid has ceil(n / 2) rows of two cells, and cell (r, c) holds item r × 2 + c when that index is below n, else null |
| Display.PeopleGridRowMajor | src/react_components/BoatHeatsDisplay.jsx:81-83 | read row by row, the grid lists every roster person once, in roster order, plus one null when n is odd |
| Display.DisplayMove | src/react_components/BoatHeatsDisplay.jsx:30-34 | the move is applied to a fresh clone, which is handed on; the heats it received are not changed |
| Display.RosterDragAsWritten | src/data_objects/BoatHeats.js:104-108 | with at most 25 people on the roster, a drag from displayed row 1 or below finds nobody and changes nothing |
| Display.RosterDragExample | src/react_components/BoatHeatsDisplay.jsx:82 | with three people, the third is shown at row 1, column 0, yet dragging it into a heat does nothing |
| Display.RosterDragCorrected | src/react_components/BoatHeatsDisplay.jsx:82 | with the display's row width of 2, dragging any shown cell moves exactly the person shown there |

## Left out

- Logging: the `console.log` calls, `showGrid` and `showPerson` print and return nothing.
- Weights are integers; `parseFloat` on a CSV field, NaN and rounding are not modelled.
- LineupModel.BaseRemove: on a row on the grid with a column off it, the source first writes a stray `null` property to that row and then throws. The model throws without that write. The write has a lasting effect: `removePerson(0, c)` with c ≥ 2 makes `grid[0].length` c + 1, and from then on the bounds checks of `addPerson` and `swapPerson` (src/lineup_objects/Lineup.js:41, 92-93, which measure `grid[0].length`) accept every column up to c, where the model still throws. The display only ever sends columns 0 and 1, so the application never reaches this.
- SortedArrays.SortedArray.GetAll: returns the data as a value. The source hands out its internal array, and a caller could mutate it; no caller in the core does.
- The roster comparator `(a, b) => a.weight - b.weight` is modelled as the sort key `WeightKey`. `Array.prototype.sort` with that comparator is the stable sort by that key.
- The `peopleSet` field that the women's and mixed clones create is never read, so it is not modelled. The consequence it causes, an empty `peopleMap`, is modelled.
- HeatsFacts.CrossMoveOne: states that the move does not throw only for a target on the grid. For a column off the grid it does not say whether the move throws.
- AppModel.NextInputs: requires the row index to be one of the rendered rows. Other indices are never passed by the page.
- App.Reconcile: the boats map is a Dafny `map`. The insertion order of the JavaScript `Map` is not modelled.
- App.PersonCounts: takes the boats map's values as a sequence. Heats are visited in key order, which is the order the constructor and clone insert them.
- BoatHeatsObjects.BoatHeats.Clone: the source first runs the constructor, whose lineups it then replaces. The model assembles the copy directly around the cloned lineups.
- Fetching the CSV with `Papa.parse`, the 30-second polling and the page's network access are not modelled. The reload is modelled from the parsed rows onward.
- The React state hooks, rendering, the drag-and-drop event plumbing (`dragHandler`), the clipboard button and the other components are not modelled.
- The superseded files `src/lineup.js`, `src/data_objects/Lineup.js`, `src/data_objects/Heats.js`, `src/data_objects/MixedLineup.js` and `src/components/*` are not part of this model. Nothing in the application reaches them.
- `BoatHeats.addLineup` is not part of this model, because nothing in the core calls it.

## Findings

| source | as written | input that shows it | evidently intended | confidence | as-written member | corrected member |
|---|---|---|---|---|---|---|
| src/lineup_objects/WomensLineup.js:38 | the women's and mixed clones copy a `peopleSet` field the base never defines, so the clone's `peopleMap` is empty (also src/lineup_objects/MixedLineup.js:100) | a women's lineup with a woman seated, cloned (every display move clones), then the same woman added to another empty cell: the add succeeds and she is seated twice | copy `peopleMap` as the base clone does, so duplicates stay refused | high, not executed | LineupFacts.WomensCloneAdmitsDuplicate | LineupFacts.CloneKeepingIndexRefusesDuplicate |
| src/data_objects/BoatHeats.js:106 | a roster drag's index is `row * 25 + col`, while the display lays the roster out two per row | roster [a, b, p]; p is shown at row 1, column 0; dragging it into a heat reads index 25 and does nothing | index `row * 2 + col`, the display's layout | high, not executed | Display.RosterDragAsWritten | Display.RosterDragCorrected |

The rest of the model keeps the code as written for both findings. `Lineup.Clone` uses `CloneOf` and `BoatHeats.MovePerson` uses a row width of 25. This is so that the proved properties describe the program as it runs. The corrected definitions are `CloneKeepingIndex` and `Move` with a row width of `GridCols`. Their intended properties are proved beside them.
