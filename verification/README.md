# Mapty workout store, modelled in Dafny

Mapty is a browser app for logging workouts. The user clicks a map, fills in a
form, and the app records a running or cycling workout. It shows each workout
as a list entry and as a map marker, and keeps the list in `localStorage`.
Nearly all of `script.js` is DOM, Leaflet and geolocation glue. This project
models the in-memory workout store underneath it:

- **Workouts** (`workouts.dfy`, module `Workouts`): the `Workout` class and its
  `Running`/`Cycling` subclasses, written as one datatype tagged by `Activity`.
  - The derived field (`pace` for a run, `speed` for a ride) follows JavaScript
    division. `numbers.dfy` (module `JsNumbers`) models NaN and the infinities.
  - Ids come from the clock: `(Date.now() + "").slice(-10)`.
- **Form check** (`validation.dfy`, module `Validation`): the check at the top
  of `_newWorkout`. Cadence is checked for sign; elevation is not.
- **Storage** (`storage.dfy`, module `Storage`): `_setLocalStorage` writes the
  list as plain records. `_getLocalStorage` rebuilds typed workouts from them
  by `name`, restores `id` and `date`, and recomputes the derived field.
- **Sort** (`sorting.dfy`, module `Sorting`): `Array.prototype.sort` with the
  comparator of `_sortWorkouts`. Elements with a falsy field go first; the
  rest are ordered by difference.
- **App state** (`app.dfy`, module `Mapty`): the two parallel lists `#workouts`
  and `#markers`, edit mode with the object `#editWorkoutEl` refers to, and the
  storage item. The handlers are pure
  transition functions:
  - create and edit (`NewWorkout`, `EditCurrentWorkout`);
  - delete (`DeleteWorkout`, `DeleteById`);
  - select for editing (`SelectForEdit`);
  - sort (`SortWorkouts`);
  - start-up and reset (`Start`, `DeleteAll`);
  - marker placement once the map is ready (`LoadMap`).
- **Properties across calls** (`properties.dfy`, module `MaptyProperties`):
  edit field preservation, the save-and-restart round trip, and the order the
  sort produces.
- **Defects** (`findings.dfy`, module `Findings`): each defect is shown on the
  code as written, next to a corrected definition that has the intended
  property.

Two invariants are stated over the app state:

- `Paired`: the marker list has the same length as the workout list, and
  marker i stands where workout i is and names its date.
- `Inv`: every workout passed the form's check and has an up-to-date derived
  field, and every stored record is one the form could have produced.

`NewWorkout` and `DeleteById` keep `Paired`, and so does `DeleteWorkout` for
a listed workout; `LoadMap` establishes it from no markers. The sort breaks it
(see Findings). `NewWorkout`, the deletes, the sort, the reload and the reset
all keep `Inv`.

A few behaviours of the code that the model keeps as they are:

- **Rejected input.** A submission that fails the check shows one alert and
  returns; nothing changes (`Verdict.Rejected`).
- **Loading records.** A record whose name is "running" loads as a
  `Running`; every other record loads as a `Cycling`. No record is refused.
- **Clicks on list entries.** A click on an entry's edit or delete icon first
  centres the map on the workout. When the id is unknown, or before the map
  exists, centring the map throws and nothing changes (`mapReady` in `App`).
- **Editing a detached object.** Every edit ends with a reload, so the edited
  object is no longer listed afterwards, yet edit mode stays on. The object
  keeps its class but takes the form's type as its `name`. The next edit
  recomputes the derived field with the method that `name` selects. If the
  first edit changed the kind, that method belongs to the other class, so a
  TypeError is thrown before anything is saved. Until an entry's edit icon is
  clicked again, every accepted submission throws and changes nothing
  (`EditThrows`). Such a click points edit mode at a listed workout again, and
  a delete click still saves the list.
- **Sort.** The sort reorders the workouts only, and the direction value
  "decend" sorts ascending (see Findings).

## Model

| member | source | states |
|---|---|---|
| Workouts.Pace | script.js:49-52 | for a positive distance the pace is finite and pace × distance = duration; positive for positive inputs |
| Workouts.Speed | script.js:37-40 | for a positive duration the speed is finite and speed × duration = 60 × distance (km/h from minutes); positive for positive inputs |
| Workouts.IdOf | script.js:23 | the id is the last ten digits of the clock reading's numeral (all of it when shorter) |
| Workouts.NewRunning | script.js:42-48 | the constructor keeps coordinates, distance and duration, takes date and id from the clock, tags the cadence, and leaves the derived field consistent |
| Workouts.NewCycling | script.js:30-36 | the same for a ride with its elevation and speed |
| Workouts.MetricMeaning | script.js:35-52 | a checked, consistent workout has a finite positive pace or speed that means min/km or km/h |
| Validation.Validate | script.js:132-166 | a ride is accepted iff distance, duration and elevation are finite and distance and duration are positive; a run iff all three are finite and positive; any other type is ignored; accepted values are carried over unchanged |
| Validation.CyclingElevationUnchecked | script.js:135-142 | a ride with any finite elevation, zero or negative included, is accepted |
| Validation.RunningCadenceChecked | script.js:159-166 | a run whose cadence is not a positive finite number is rejected |
| Validation.OtherFieldIgnored | script.js:135-160 | each type reads only its own third field |
| Storage.Save | script.js:325-327 | the record of a consistent workout is the normal form loading reproduces; the record is valid iff the workout is |
| Storage.Load | script.js:333-341 | id, date, coordinates, distance and duration are restored; name "running" gives a run and any other name a ride; the derived field is recomputed |
| Storage.LoadIgnoresStoredMetric | script.js:334-339 | the stored pace or speed is never read back |
| Storage.LoadSave | script.js:325-341 | saving a consistent workout and loading the record back gives the same workout |
| Storage.LoadAllSaveAll | script.js:325-342 | loading the saved list gives back the same list of consistent workouts |
| Storage.SaveLoad | script.js:325-342 | a record the app writes is written again unchanged after loading |
| Sorting.Compare | script.js:359-369 | a falsy first key answers -1; a truthy first key against a falsy second answers 1; for comparable keys, negative iff the second may not precede the first |
| Sorting.CompareInconsistent | script.js:360-361 | two falsy keys each claim to come first |
| Sorting.Insert | script.js:359-370 | an insertion step adds exactly the new element to the multiset |
| Sorting.SortBy | script.js:357-370 | the sorted list is a permutation of the input |
| Sorting.SortOrdered | script.js:357-370 | with every key truthy and finite, the result is ordered in the chosen direction |
| Sorting.SortTwo | script.js:357-370 | two elements are swapped exactly when the comparator answers negative for the second against the first |
| Sorting.SortFirsts | script.js:357-370 | sorting pairs by their first components moves those components exactly as sorting them alone |
| Mapty.GetLocalStorage | script.js:328-343 | with no item nothing changes; otherwise each record becomes a workout with its id and date restored and its derived field recomputed, and the markers are untouched |
| Mapty.SetLocalStorage | script.js:325-327 | the item is written and the lists, edit state and map are kept; when every derived field is up to date, the item reads back as the same list |
| Mapty.Start | script.js:62-64 | the app starts with no map, no markers, no edit mode and no edit object; its list is the item loaded record by record (empty without an item), and checked records give the invariant |
| Mapty.MarkerFor | script.js:221-243 | the marker has the handle the map gives it and shows the workout: it stands at the workout's coordinates and its popup names the workout's date |
| Mapty.Placed | script.js:87-89 | one marker per workout, in list order, each showing its workout |
| Mapty.LoadMap | script.js:78-89 | the map exists from now on; one marker per workout is appended in list order; from no markers the lists end up paired |
| Mapty.Create | script.js:152-153 | the new workout has the clicked coordinates, the clock's date and id, the entry's values, and a consistent derived field |
| Mapty.IndexOf | script.js:345 | the first position holding the workout, or -1 exactly when it is not listed |
| Mapty.FindById | script.js:313 | the first position with the id, or none exactly when no workout has it |
| Mapty.EditRecord | script.js:197-206 | the edited object keeps id, date and coordinates, takes the entry's distance and duration and the form's type as its name, carries the derived field of its old class (so it is the normal record when the kind is unchanged), and loads as the form's kind |
| Mapty.EditCurrentWorkout | script.js:196-210 | with no edit object, or one whose name selects the other class's method, nothing changes; otherwise the list keeps its length and every id, date and coordinate pair, the markers are untouched, every workout is consistent after the reload and the item reads back as the list, and the edited object is detached with its class kept and the form's type as its name, so the next edit throws exactly when this one changed the kind |
| Mapty.NewWorkout | script.js:123-195 | rejected input changes nothing, and neither does an accepted edit that throws; otherwise the list is saved; outside edit mode, accepted input appends exactly one workout and one marker at the end; in edit mode the list becomes the one the edit of the current workout produces, and the lengths and markers stay; both lists change length together; pairing and the invariant are kept; edit mode never changes |
| Mapty.RemoveAt | script.js:346 | `splice(i, 1)` inside the list drops exactly position i and keeps the others in order |
| Mapty.DropLast | script.js:346 | `splice(-1, 1)` drops the last workout, if any, and touches nothing else |
| Mapty.DeleteWorkout | script.js:344-351 | a listed workout's position is removed from both lists, the rest keeping their order, and the list is saved; an unlisted one makes `splice(-1, 1)` drop the last workout while the markers stay |
| Mapty.DeleteById | script.js:310-324 | before the map exists, or for an unknown id, nothing changes; otherwise the first workout with the id and its marker are removed, the others keep their order and the list is saved; edit mode and its object are kept |
| Mapty.SelectForEdit | script.js:96-118 | before the map exists, or for an unknown id, nothing changes; otherwise edit mode is turned on for the first workout with the id, which can be edited without a throw, and the lists are untouched |
| Mapty.KeyOf | script.js:360-368 | distance and duration of a checked workout are always comparable; cadence and elevation are falsy when zero or absent from the class; a pace or speed string is truthy exactly for its own class; any other field is undefined |
| Mapty.SortWorkouts | script.js:357-373 | the workouts are permuted; the markers and the storage item are unchanged |
| Mapty.DeleteAll | script.js:352-356 | after the reset the app has no workouts, markers or storage item |
| MaptyProperties.EditUpdatesOnlyTarget | script.js:196-210 | editing a listed workout replaces its distance, duration and kind field, recomputes its derived field, keeps id, date and coordinates, and leaves every other workout as it was |
| MaptyProperties.EditDetachedKeepsList | script.js:196-209 | editing an object that is no longer listed leaves the list unchanged |
| MaptyProperties.KindChangeRepairedByReload | script.js:203-209 | a kind-changing edit saves the derived field of the old class, and the reload replaces it with the right one |
| MaptyProperties.RestartRestoresList | script.js:325-342 | starting again from the saved item restores the same list |
| MaptyProperties.SortWorkoutsOrder | script.js:357-370 | with truthy finite keys, "decend" yields ascending order and any other direction descending |
| Findings.SortLeavesMarkersBehind | script.js:357-373 | any paired list of a shorter and a longer workout is unpaired by the sort with any direction value but "decend", and deleting the longer one then leaves the shorter one with the longer one's marker |
| Findings.SortWorkoutsFixed | script.js:357-373 | the corrected sort sorts the workouts, permutes the existing markers rather than replacing them, keeps the pairing, and sorts "decend" descending |
| Findings.FixedSortKeepsPairing | script.js:347 | after the corrected sort, a delete keeps the lists paired |
| Findings.DecendSortsAscending | script.js:358-362 | "decend" puts a shorter workout before a longer one |
| Findings.FixedSortDirection | script.js:358-369 | the corrected sort orders "decend" descending and the other direction ascending |
| Findings.EditModeSwallowsNewWorkouts | script.js:143-168 | after one edit, the next accepted submission adds nothing and edit mode stays on |
| Findings.KindChangeFreezesEditing | script.js:197-206 | after an edit that changes a workout's kind, the next accepted submission throws and changes nothing, and so does every one after it until an edit icon is clicked again |
| Findings.NewWorkoutFixed | script.js:123-195 | the corrected handler leaves edit mode after an accepted submission and otherwise agrees with the source |
| Findings.FixedEditThenAdd | script.js:143-175 | with the correction, the submission after any edit, a kind-changing one included, appends its workout and marker |
| Findings.IdsRepeat | script.js:23 | clock readings 10^10 ms apart give the same id |
| Findings.RepeatedIdDeletesEarlierWorkout | script.js:313 | of two workouts created 10^10 ms apart, deleting the later one by its id deletes the earlier one |
| Findings.IdOfFixed | script.js:23 | the corrected id is a numeral that parses back to the clock reading |
| Findings.FixedIdsDistinct | script.js:23 | distinct clock readings give distinct corrected ids |

## Left out

- DOM work is not modelled: the form (`_showForm`, `_hideForm`,
  `_toggleElevationField`, the field part of `_showEditForm`) and the list
  (`_renderWorkoutList`, entry removal). It is presentation only.
- The Leaflet map is not modelled: tiles, popups, `setView`, `fitBounds` and
  `_moveMap`. A marker is an opaque handle with the coordinates it stands at
  and the date its popup names. The popup's kind label is left out, so a
  kind-changing edit that leaves a stale label is not seen.
- Geolocation, `_fetchGeo`, `alert` and the page reload are browser I/O.
  `DeleteAll` models the reload as a fresh start. `LoadMap` stands for the
  geolocation success callback. Before it runs there are no markers, and
  `Paired` holds only from then on. `NewWorkout` takes the map click as its
  `at` parameter: the form is shown only by a map click or by an edit click,
  both of which need the map, so a submission before the map exists is not
  modelled.
- The JSON text and the `localStorage` API are left out; the item is a
  sequence of records. A record keeps only the kind field its `name` selects,
  which is the one loading reads. Storage edited by hand is not modelled:
  missing fields, other shapes, `JSON.parse` errors.
- `Storage.Load`: the `Date` object becomes an ISO string after a reload; the
  model keeps the date as an opaque timestamp.
- `Workouts.Pace`, `Workouts.Speed`: `toFixed(2)` rounding, the string type of
  the derived fields, IEEE rounding, signed zero and overflow to infinity are
  not modelled. The fields are exact quotients.
- `Sorting.SortBy`: with an inconsistent comparator, where some keys are falsy
  or not finite, the order is up to the engine. The model promises only a
  permutation there; its own insertion sort picks one such order.
- `Mapty.KeyOf`: only the sort fields distance, duration, cadence, elevation,
  pace and speed are modelled. Any other field name reads as `undefined`,
  although a field such as `id` or `date` would hold a value.
- `Validation.Validate`: the form fields reach the model as numbers; the
  string-to-number conversion of unary `+` is not modelled.
- `Mapty.IndexOf`: object identity is modelled as value equality. Listed
  workouts differ in their creation dates.
- `Intl.DateTimeFormat` and the `months` table are display formatting.

## Findings

| source | as written | input that shows it | evidently intended | confidence | as-written member | corrected member |
|---|---|---|---|---|---|---|
| script.js:357-373 | `_sortWorkouts` reorders `#workouts` but never `#markers`, so `_deleteWorkout`'s positional splice of `#markers` (script.js:347-348) removes another workout's marker | runs of 1 km and 2 km with their markers, sorted by distance with any direction value other than "decend", then delete the 2 km run | markers move with their workouts | high (not executed) | Findings.SortLeavesMarkersBehind | Findings.SortWorkoutsFixed |
| script.js:358-362 | the direction value "decend" sorts with `a - b`, i.e. ascending | runs of 2 km and 1 km sorted by distance with "decend" come out 1 km first | "decend" sorts descending | medium (not executed; the option labels live in the HTML) | Findings.DecendSortsAscending | Findings.FixedSortDirection |
| script.js:116 | `#editOn` is set by `_showEditForm` and never cleared, and after an edit `#editWorkoutEl` points at an object the reload has detached | edit any workout, then click the map and submit a valid new workout: nothing is added | edit mode ends once the edit is submitted | high (not executed) | Findings.EditModeSwallowsNewWorkouts | Findings.NewWorkoutFixed |
| script.js:203-206 | a kind-changing edit gives the object the other class's name; because edit mode stays on, the next submission calls a method the class lacks | edit a run with the form type set to cycling, then submit any valid form: `calcSpeed` is not a function, and until an entry's edit icon is clicked again every accepted submission throws and changes nothing | edit mode ends once the edit is submitted, so the renamed object is never edited again | high (not executed) | Findings.KindChangeFreezesEditing | Findings.FixedEditThenAdd |
| script.js:23 | the id keeps only the last ten digits of `Date.now()`, so readings 10^10 ms (about 115 days) apart share an id, and `find` by id (script.js:313) picks the earlier workout | a workout created at t = 1700000000000 and one at t + 10000000000; click delete on the later one | ids are unique | medium (not executed) | Findings.IdsRepeat | Findings.IdOfFixed |

The corrected members sit next to the as-written ones. The handlers in
`Mapty` keep the code's behaviour, so the as-written lemmas have something to
refer to.
