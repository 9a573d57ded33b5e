/**
  The state of the `App` class and the handlers that change it.

  The state is the two parallel lists `#workouts` and `#markers`, the edit
  mode (`#editOn` and the object `#editWorkoutEl` points to) and the
  `localStorage` item. Map markers are opaque handles placed at a workout's
  coordinates with a popup naming its date; the map click, the clock and
  the marker handles are parameters. The DOM list, the form and the map
  widget are not part of the model.
 */
module Mapty {
  import opened JsNumbers
  import opened Workouts
  import opened Storage
  import opened Validation
  import opened Sorting
  import opened Options

  /** A Leaflet marker: a handle, where it stands, and the date its popup names. */
  datatype Marker = Marker(handle: nat, coords: Coords, date: Timestamp)

  /**
    What `#editWorkoutEl` refers to: nothing yet; a workout taken from the
    list, as it was when it was taken; or an object an edit has already
    changed. An edit is always followed by a rebuild of the list from
    storage, so an edited object is never listed again; all that still
    matters about it is its class (`running` says whether it is a
    `Running`) and its `name`, which the edit set to the form's type.
   */
  datatype Target =
    | Unset
    | Selected(w: Workout)
    | Detached(running: bool, name: string)

  /**
    `target` is what `#editWorkoutEl` refers to; `editOn` may stay set
    after the object is detached. `stored` is the "workouts" item.
    `mapReady` says whether `#map` exists, which it does only once the
    geolocation callback `_loadMap` has run.
   */
  datatype App = App(
    workouts: seq<Workout>,
    markers: seq<Marker>,
    editOn: bool,
    target: Target,
    stored: Option<seq<Record>>,
    mapReady: bool)

  /** The marker `_bindPopup` places for a workout. */
  function MarkerFor(w: Workout, handle: nat): (m: Marker)
    ensures Shows(m, w) && m.handle == handle
  {
    Marker(handle, w.coords, w.date)
  }

  predicate Shows(m: Marker, w: Workout) {
    m.coords == w.coords && m.date == w.date
  }

  /** The positional pairing the handlers rely on: marker i belongs to workout i. */
  ghost predicate Paired(s: App) {
    && |s.markers| == |s.workouts|
    && forall i :: 0 <= i < |s.workouts| ==> Shows(s.markers[i], s.workouts[i])
  }

  /** Every listed workout passed the form's check and has an up-to-date derived field. */
  ghost predicate Inv(s: App) {
    && (forall w :: w in s.workouts ==> Valid(w) && Consistent(w))
    && (s.stored.Some? ==> forall i :: 0 <= i < |s.stored.value| ==> ValidRecord(s.stored.value[i]))
  }

  predicate AllConsistent(ws: seq<Workout>) {
    forall i :: 0 <= i < |ws| ==> Consistent(ws[i])
  }

  /**
    `_setLocalStorage`: the item becomes the serialised list, which reads
    back as the same list when every derived field is up to date.
   */
  function SetLocalStorage(s: App): (r: App)
    ensures r.workouts == s.workouts && r.markers == s.markers
    ensures r.editOn == s.editOn && r.target == s.target && r.mapReady == s.mapReady
    ensures r.stored.Some? && (AllConsistent(s.workouts) ==> LoadAll(r.stored.value) == s.workouts)
  {
    var r := s.(stored := Some(SaveAll(s.workouts)));
    if AllConsistent(s.workouts) then LoadAllSaveAll(s.workouts); r else r
  }

  /**
    `_getLocalStorage`: with no item the state is left alone; otherwise the
    list is rebuilt, record by record, with ids and dates restored and the
    derived field recomputed. The markers are not touched.
   */
  function GetLocalStorage(s: App): (r: App)
    ensures s.stored.None? ==> r == s
    ensures r.markers == s.markers && r.stored == s.stored
    ensures r.editOn == s.editOn && r.target == s.target
    ensures s.stored.Some? ==> |r.workouts| == |s.stored.value|
    ensures s.stored.Some? ==> forall i :: 0 <= i < |r.workouts| ==>
      && r.workouts[i].id == s.stored.value[i].id
      && r.workouts[i].date == s.stored.value[i].date
      && r.workouts[i].coords == s.stored.value[i].coords
      && r.workouts[i].distance == s.stored.value[i].distance
      && r.workouts[i].duration == s.stored.value[i].duration
      && r.workouts[i].activity == (if s.stored.value[i].name == "running" then Running(s.stored.value[i].value)
                                    else Cycling(s.stored.value[i].value))
      && Consistent(r.workouts[i])
    ensures Inv(s) ==> Inv(r)
  {
    match s.stored
    case None => s
    case Some(records) => s.(workouts := LoadAll(records))
  }

  /**
    The constructor: an empty app that then reads the storage item. The
    position request it starts answers later, so there is no map yet.
   */
  function Start(stored: Option<seq<Record>>): (r: App)
    ensures r.markers == [] && !r.editOn && r.target.Unset? && r.stored == stored && !r.mapReady
    ensures stored.None? ==> r.workouts == []
    ensures stored.Some? ==> r.workouts == LoadAll(stored.value)
    ensures (stored.Some? ==> forall i :: 0 <= i < |stored.value| ==> ValidRecord(stored.value[i])) ==> Inv(r)
  {
    GetLocalStorage(App([], [], false, Unset, stored, false))
  }

  /**
    `_loadMap`, once the position is known: `_bindPopup` places a marker
    for every listed workout, in list order. `base` stands for the handles
    the map widget hands out.
   */
  function LoadMap(s: App, base: nat): (r: App)
    ensures r.workouts == s.workouts && r.stored == s.stored && r.mapReady
    ensures |r.markers| == |s.markers| + |s.workouts|
    ensures r.markers[..|s.markers|] == s.markers
    ensures s.markers == [] ==> Paired(r)
    ensures Inv(s) ==> Inv(r)
  {
    var placed := Placed(s.workouts, base);
    assert s.markers == [] ==> s.markers + placed == placed;
    s.(markers := s.markers + placed, mapReady := true)
  }

  /** The markers `_bindPopup` places for a list, handles counting up from `base`. */
  function Placed(ws: seq<Workout>, base: nat): (ms: seq<Marker>)
    ensures |ms| == |ws|
    ensures forall i :: 0 <= i < |ws| ==> Shows(ms[i], ws[i])
  {
    seq(|ws|, i requires 0 <= i < |ws| => MarkerFor(ws[i], base + i))
  }

  /** `new Running(...)` or `new Cycling(...)` from an accepted entry. */
  function Create(e: Entry, at: Coords, date: Timestamp, now: nat): (w: Workout)
    ensures w.id == IdOf(now) && w.date == date && w.coords == at
    ensures w.distance == e.distance && w.duration == e.duration && w.activity == e.activity
    ensures Consistent(w)
    ensures ValidEntry(e) ==> Valid(w)
  {
    match e.activity
    case Running(cadence) => NewRunning(at, e.distance, e.duration, cadence, date, now)
    case Cycling(elevation) => NewCycling(at, e.distance, e.duration, elevation, date, now)
  }

  /**
    `Array.prototype.indexOf`: the first position holding `w`, or -1.
    Objects are compared by identity in the source; listed workouts differ
    in their creation dates, so equal values mean the same object.
   */
  function IndexOf(ws: seq<Workout>, w: Workout): (i: int)
    ensures -1 <= i < |ws|
    ensures i == -1 <==> w !in ws
    ensures 0 <= i ==> ws[i] == w && forall j :: 0 <= j < i ==> ws[j] != w
  {
    if |ws| == 0 then -1
    else if ws[0] == w then 0
    else
      var i := IndexOf(ws[1..], w);
      if i < 0 then -1 else i + 1
  }

  /** `Array.prototype.find` on ids: the first workout with the given id. */
  function FindById(ws: seq<Workout>, id: string): (r: Option<nat>)
    ensures r.None? <==> forall j :: 0 <= j < |ws| ==> ws[j].id != id
    ensures r.Some? ==> r.value < |ws| && ws[r.value].id == id
    ensures r.Some? ==> forall j :: 0 <= j < r.value ==> ws[j].id != id
  {
    if |ws| == 0 then None
    else if ws[0].id == id then Some(0)
    else
      match FindById(ws[1..], id)
      case None => None
      case Some(i) => Some(i + 1)
  }

  /** `splice(i, 1)` for an index inside the list. */
  function RemoveAt<T>(s: seq<T>, i: nat): (r: seq<T>)
    requires i < |s|
    ensures |r| == |s| - 1
    ensures forall k :: 0 <= k < i ==> r[k] == s[k]
    ensures forall k :: i <= k < |r| ==> r[k] == s[k + 1]
    ensures forall x :: x in r ==> x in s
  {
    var r := s[..i] + s[i + 1..];
    assert forall x :: x in r ==> x in s;
    r
  }

  /**
    The plain object the edited workout becomes: distance, duration and the
    field named after the form's type are overwritten, the derived field is
    recomputed by the method of the object's own class (`#editWorkoutEl.name`
    is read before it changes) and `name` becomes the form's type.
   */
  function EditRecord(w: Workout, typeName: string, e: Entry): (r: Record)
    ensures r.id == w.id && r.date == w.date && r.coords == w.coords
    ensures r.distance == e.distance && r.duration == e.duration && r.name == typeName
    ensures Name(w.activity) == typeName ==> Normal(r)
    ensures r.metric.PaceField? <==> w.activity.Running?
    ensures Name(e.activity) == typeName ==> Load(r).activity == e.activity
  {
    Record(w.id, w.date, w.coords, e.distance, e.duration, typeName, KindValue(e.activity),
           if w.activity.Running? then PaceField(Pace(e.distance, e.duration))
           else SpeedField(Speed(e.distance, e.duration)))
  }

  /**
    `_editCurrentWorkout`: the edited object is serialised with the rest of
    the list, and the list is rebuilt from that item. If the object is no
    longer listed, the list is saved and rebuilt unchanged. The object keeps
    its class and takes the form's type as its name.

    The derived field is recomputed by the method `name` selects, and only
    the object's own class has that method: an object whose name no longer
    matches its class (or no object at all) throws a TypeError before
    anything is saved, and the state stays as it was.
   */
  function EditCurrentWorkout(s: App, typeName: string, e: Entry): (r: App)
    ensures EditThrows(s) ==> r == s
    ensures !EditThrows(s) ==>
      && |r.workouts| == |s.workouts|
      && r.markers == s.markers && r.editOn == s.editOn && r.mapReady == s.mapReady
      && r.target == Detached(RunningObject(s.target), typeName)
      && (EditThrows(r) <==> (typeName == "running") != RunningObject(s.target))
      && (forall i :: 0 <= i < |s.workouts| ==>
            && r.workouts[i].id == s.workouts[i].id
            && r.workouts[i].date == s.workouts[i].date
            && r.workouts[i].coords == s.workouts[i].coords
            && Consistent(r.workouts[i]))
      && r.stored.Some? && LoadAll(r.stored.value) == r.workouts
  {
    if EditThrows(s) then s
    else
      GetLocalStorage(s.(stored := Some(EditedItem(s, typeName, e)),
                         target := Detached(RunningObject(s.target), typeName)))
  }

  /**
    Whether `_editCurrentWorkout` throws: there is no object, or the object's
    name selects the method of the other class. A workout taken from the list
    always carries its own class's name.
   */
  predicate EditThrows(s: App) {
    match s.target
    case Unset => true
    case Selected(_) => false
    case Detached(running, name) => (name == "running") != running
  }

  /** Whether the object `#editWorkoutEl` refers to is a `Running`. */
  function RunningObject(t: Target): bool
    requires !t.Unset?
  {
    if t.Selected? then t.w.activity.Running? else t.running
  }

  /** Whether `#editWorkoutEl` is still one of the listed objects. */
  predicate Listed(s: App) {
    s.target.Selected? && s.target.w in s.workouts
  }

  /**
    The item `_setLocalStorage` writes during an edit: every listed workout
    as saved, except that the edited object, when listed, is written as
    edited.
   */
  function EditedItem(s: App, typeName: string, e: Entry): (rs: seq<Record>)
    ensures |rs| == |s.workouts|
    ensures forall i :: 0 <= i < |rs| ==>
      rs[i].id == s.workouts[i].id && rs[i].date == s.workouts[i].date && rs[i].coords == s.workouts[i].coords
    ensures forall i :: 0 <= i < |rs| ==>
      rs[i] == if Listed(s) && i == IndexOf(s.workouts, s.target.w) then EditRecord(s.target.w, typeName, e)
               else Save(s.workouts[i])
  {
    var records := SaveAll(s.workouts);
    if Listed(s) then records[IndexOf(s.workouts, s.target.w) := EditRecord(s.target.w, typeName, e)]
    else records
  }

  /**
    `_newWorkout`: the check of the entry; in edit mode the current workout
    is edited, otherwise a new workout is appended together with its marker;
    then the form is hidden and the list saved. A rejected entry returns at
    the alert, before anything changes, and so does an edit that throws.
   */
  function NewWorkout(s: App, f: Form, at: Coords, date: Timestamp, now: nat, handle: nat): (r: App)
    ensures Validate(f).Rejected? ==> r == s
    ensures Validate(f).Ignored? ==> r.workouts == s.workouts && r.markers == s.markers
    ensures Validate(f).Accepted? && s.editOn && EditThrows(s) ==> r == s
    ensures !Validate(f).Rejected? && !(Validate(f).Accepted? && s.editOn && EditThrows(s)) ==>
      r.stored == Some(SaveAll(r.workouts))
    ensures Validate(f).Accepted? && !s.editOn ==>
      && |r.workouts| == |s.workouts| + 1
      && r.workouts[..|s.workouts|] == s.workouts
      && r.workouts[|s.workouts|].id == IdOf(now)
      && r.workouts[|s.workouts|].date == date
      && r.workouts[|s.workouts|].coords == at
      && r.workouts[|s.workouts|].distance == Validate(f).entry.distance
      && r.workouts[|s.workouts|].duration == Validate(f).entry.duration
      && r.workouts[|s.workouts|].activity == Validate(f).entry.activity
      && r.markers == s.markers + [Marker(handle, at, date)]
    ensures Validate(f).Accepted? && s.editOn ==>
      |r.workouts| == |s.workouts| && r.markers == s.markers
    ensures Validate(f).Accepted? && s.editOn && !EditThrows(s) ==>
      r.workouts == EditCurrentWorkout(s, f.typeName, Validate(f).entry).workouts
    ensures r.editOn == s.editOn
    ensures |r.workouts| - |r.markers| == |s.workouts| - |s.markers|
    ensures Paired(s) ==> Paired(r)
    ensures Inv(s) ==> Inv(r)
  {
    match Validate(f)
    case Rejected => s
    case Ignored =>
      SavedInv(s);
      SetLocalStorage(s)
    case Accepted(e) =>
      if s.editOn && EditThrows(s) then s
      else if s.editOn then
        var edited := EditCurrentWorkout(s, f.typeName, e);
        EditKeeps(s, f.typeName, e);
        SavedInv(edited);
        SetLocalStorage(edited)
      else
        var w := Create(e, at, date, now);
        var listed := s.(workouts := s.workouts + [w], markers := s.markers + [MarkerFor(w, handle)]);
        AppendKeeps(s, w, MarkerFor(w, handle));
        SavedInv(listed);
        SetLocalStorage(listed)
  }

  /** Saving a list of checked, consistent workouts leaves a state with the invariant. */
  lemma SavedInv(s: App)
    ensures (forall w :: w in s.workouts ==> Valid(w) && Consistent(w)) ==> Inv(SetLocalStorage(s))
  {
  }

  /** Appending a workout with its marker keeps the pairing and the workouts' invariant. */
  lemma AppendKeeps(s: App, w: Workout, m: Marker)
    requires Shows(m, w)
    ensures var r := s.(workouts := s.workouts + [w], markers := s.markers + [m]);
      && (Paired(s) ==> Paired(r))
      && (Inv(s) && Valid(w) && Consistent(w) ==> forall x :: x in r.workouts ==> Valid(x) && Consistent(x))
  {
  }

  /** An edit that goes through, with a checked entry, keeps the pairing and the workouts' invariant. */
  lemma EditKeeps(s: App, typeName: string, e: Entry)
    requires Name(e.activity) == typeName && !EditThrows(s)
    ensures var r := EditCurrentWorkout(s, typeName, e);
      && (Paired(s) ==> Paired(r))
      && (Inv(s) && ValidEntry(e) ==> forall x :: x in r.workouts ==> Valid(x) && Consistent(x))
  {
    var r := EditCurrentWorkout(s, typeName, e);
    if Paired(s) {
      forall i | 0 <= i < |r.workouts|
        ensures Shows(r.markers[i], r.workouts[i])
      {
        assert Shows(s.markers[i], s.workouts[i]);
      }
    }
    if Inv(s) && ValidEntry(e) {
      var written := EditedItem(s, typeName, e);
      EditedItemValid(s, typeName, e);
      forall x | x in r.workouts
        ensures Valid(x)
      {
        var i :| 0 <= i < |r.workouts| && r.workouts[i] == x;
        assert x == Load(written[i]);
      }
    }
  }

  /** With checked workouts and a checked entry, every record of the edited item is valid. */
  lemma EditedItemValid(s: App, typeName: string, e: Entry)
    requires Inv(s) && ValidEntry(e) && Name(e.activity) == typeName
    ensures forall i :: 0 <= i < |EditedItem(s, typeName, e)| ==> ValidRecord(EditedItem(s, typeName, e)[i])
  {
    var written := EditedItem(s, typeName, e);
    forall i | 0 <= i < |written|
      ensures ValidRecord(written[i])
    {
      if !(Listed(s) && i == IndexOf(s.workouts, s.target.w)) {
        assert s.workouts[i] in s.workouts;
      }
    }
  }

  /**
    `_deleteWorkout`: the position comes from `indexOf`, both lists are
    spliced there, and the list is saved. Nothing guards against -1:
    `splice(-1, 1)` then drops the last workout, and reading the marker at
    -1 throws before the markers or the storage change.
   */
  function DeleteWorkout(s: App, w: Workout): (r: App)
    ensures r.editOn == s.editOn && r.target == s.target
    ensures w in s.workouts ==>
      && |r.workouts| == |s.workouts| - 1
      && (forall k :: 0 <= k < IndexOf(s.workouts, w) ==> r.workouts[k] == s.workouts[k])
      && (forall k :: IndexOf(s.workouts, w) <= k < |r.workouts| ==> r.workouts[k] == s.workouts[k + 1])
    ensures w in s.workouts && |s.markers| == |s.workouts| ==>
      && |r.markers| == |s.markers| - 1
      && (forall k :: 0 <= k < IndexOf(s.workouts, w) ==> r.markers[k] == s.markers[k])
      && (forall k :: IndexOf(s.workouts, w) <= k < |r.markers| ==> r.markers[k] == s.markers[k + 1])
      && r.stored == Some(SaveAll(r.workouts))
    ensures w !in s.workouts && |s.workouts| > 0 ==>
      && r.workouts == s.workouts[..|s.workouts| - 1]
      && r.markers == s.markers && r.stored == s.stored
    ensures Paired(s) && w in s.workouts ==> Paired(r)
    ensures Inv(s) ==> Inv(r)
  {
    var i := IndexOf(s.workouts, w);
    if i < 0 then
      DropLast(s)
    else if i < |s.markers| then
      var spliced := s.(workouts := RemoveAt(s.workouts, i), markers := RemoveAt(s.markers, i));
      RemoveAtPaired(s, i);
      SavedInv(spliced);
      SetLocalStorage(spliced)
    else
      s.(workouts := RemoveAt(s.workouts, i))
  }

  /** `splice(-1, 1)` on the workouts alone: the last one goes, if there is one. */
  function DropLast(s: App): (r: App)
    ensures r.workouts == if |s.workouts| > 0 then s.workouts[..|s.workouts| - 1] else s.workouts
    ensures r.markers == s.markers && r.stored == s.stored && r.editOn == s.editOn && r.target == s.target
    ensures Inv(s) ==> Inv(r)
  {
    if |s.workouts| > 0 then
      var kept := s.workouts[..|s.workouts| - 1];
      assert forall x :: x in kept ==> x in s.workouts;
      s.(workouts := kept)
    else s
  }

  /** Splicing both lists at the same position keeps them paired. */
  lemma RemoveAtPaired(s: App, i: nat)
    requires i < |s.workouts| && i < |s.markers|
    ensures Paired(s) ==> Paired(s.(workouts := RemoveAt(s.workouts, i), markers := RemoveAt(s.markers, i)))
  {
    if Paired(s) {
      var ws, ms := RemoveAt(s.workouts, i), RemoveAt(s.markers, i);
      forall k | 0 <= k < |ws|
        ensures Shows(ms[k], ws[k])
      {
        if k < i {
          assert Shows(s.markers[k], s.workouts[k]);
        } else {
          assert Shows(s.markers[k + 1], s.workouts[k + 1]);
        }
      }
    }
  }

  /**
    A click on the delete icon of a list entry: `_moveToMarker` finds the
    workout by the entry's id and hands it to `_deleteWorkout`. It first
    centres the map on the workout, so before the map exists, or when the id
    is unknown, `setView` throws and nothing changes.
   */
  function DeleteById(s: App, id: string): (r: App)
    ensures !s.mapReady || FindById(s.workouts, id).None? ==> r == s
    ensures s.mapReady && FindById(s.workouts, id).Some? && Paired(s) ==>
      && |r.workouts| == |s.workouts| - 1
      && |r.markers| == |s.markers| - 1
      && (forall k :: 0 <= k < FindById(s.workouts, id).value ==>
            r.workouts[k] == s.workouts[k] && r.markers[k] == s.markers[k])
      && (forall k :: FindById(s.workouts, id).value <= k < |r.workouts| ==>
            r.workouts[k] == s.workouts[k + 1] && r.markers[k] == s.markers[k + 1])
      && r.stored == Some(SaveAll(r.workouts))
    ensures r.editOn == s.editOn && r.target == s.target
    ensures Paired(s) ==> Paired(r)
    ensures Inv(s) ==> Inv(r)
  {
    if !s.mapReady then s
    else
      match FindById(s.workouts, id)
      case None => s
      case Some(i) =>
        assert IndexOf(s.workouts, s.workouts[i]) == i;
        DeleteWorkout(s, s.workouts[i])
  }

  /**
    A click on the edit icon: `_showEditForm` turns edit mode on for the
    workout found by id. As for a delete, `setView` runs first and throws
    before the map exists or when the id is unknown.
   */
  function SelectForEdit(s: App, id: string): (r: App)
    ensures !s.mapReady || FindById(s.workouts, id).None? ==> r == s
    ensures s.mapReady && FindById(s.workouts, id).Some? ==>
      && r.editOn
      && r.target == Selected(s.workouts[FindById(s.workouts, id).value])
      && r.target.w.id == id
      && !EditThrows(r)
      && r.workouts == s.workouts && r.markers == s.markers && r.stored == s.stored
  {
    if !s.mapReady then s
    else
      match FindById(s.workouts, id)
      case None => s
      case Some(i) => s.(editOn := true, target := Selected(s.workouts[i]))
  }

  /**
    `a[inputSort.value]` for the sort fields of the form: the numeric fields
    are numbers, the derived fields are strings from `toFixed`, and a field
    the workout's class lacks is `undefined`.
   */
  function KeyOf(w: Workout, field: string): (k: Key)
    ensures Valid(w) && (field == "distance" || field == "duration") ==> Comparable(k)
    ensures field == "cadence" ==> (KeyTruthy(k) <==> w.activity.Running? && w.activity.cadence != 0.0)
    ensures field == "elevation" ==> (KeyTruthy(k) <==> w.activity.Cycling? && w.activity.elevation != 0.0)
    ensures field == "pace" ==> (KeyTruthy(k) <==> w.activity.Running?)
    ensures field == "speed" ==> (KeyTruthy(k) <==> w.activity.Cycling?)
    ensures field !in ["distance", "duration", "cadence", "elevation", "pace", "speed"] ==> k == Missing
  {
    match field
    case "distance" => Number(Fin(w.distance))
    case "duration" => Number(Fin(w.duration))
    case "cadence" => if w.activity.Running? then Number(Fin(w.activity.cadence)) else Missing
    case "elevation" => if w.activity.Cycling? then Number(Fin(w.activity.elevation)) else Missing
    case "pace" => if w.activity.Running? then Formatted(w.metric) else Missing
    case "speed" => if w.activity.Cycling? then Formatted(w.metric) else Missing
    case _ => Missing
  }

  function WorkoutKey(field: string): Workout -> Key {
    w => KeyOf(w, field)
  }

  /**
    `_sortWorkouts`: the list is sorted ascending when the direction is
    "decend" and descending otherwise. The markers are not reordered and
    nothing is saved.
   */
  function SortWorkouts(s: App, field: string, order: string): (r: App)
    ensures multiset(r.workouts) == multiset(s.workouts)
    ensures r.markers == s.markers && r.stored == s.stored
    ensures r.editOn == s.editOn && r.target == s.target
    ensures Inv(s) ==> Inv(r)
  {
    var sorted := SortBy(s.workouts, WorkoutKey(field), order == "decend");
    assert forall w :: w in sorted ==> w in multiset(s.workouts);
    s.(workouts := sorted)
  }

  /** `_deleteAllWorkouts`: the item is removed and the page reloads into an empty app. */
  function DeleteAll(s: App): (r: App)
    ensures r.workouts == [] && r.markers == [] && r.stored.None? && !r.editOn
    ensures Paired(r) && Inv(r)
  {
    Start(None)
  }
}
