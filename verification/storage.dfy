/**
  The `localStorage` item "workouts": `_setLocalStorage` writes the workout
  list through `JSON.stringify`, and `_getLocalStorage` rebuilds typed
  workouts from the parsed plain objects. The JSON text itself is not
  modelled; the item is a sequence of plain records.
 */
module Storage {
  import opened JsNumbers
  import opened Workouts

  /** The derived field a plain object carries: `pace` or `speed`. */
  datatype Metric = PaceField(pace: Num) | SpeedField(speed: Num)

  /**
    A workout as a plain object. `name` is the `name` field; `value` is the
    kind-specific field that `name` selects on load (`cadence` when `name`
    is "running", `elevation` otherwise); `metric` is the stored derived
    field, which loading never reads.
   */
  datatype Record = Record(
    id: string,
    date: Timestamp,
    coords: Coords,
    distance: real,
    duration: real,
    name: string,
    value: real,
    metric: Metric)

  /** The record a validated entry leaves behind. */
  predicate ValidRecord(r: Record) {
    && r.distance > 0.0
    && r.duration > 0.0
    && (r.name == "running" ==> r.value > 0.0)
  }

  /** A record exactly as `JSON.stringify` writes a consistent workout. */
  predicate Normal(r: Record) {
    || (r.name == "running" && r.metric == PaceField(Pace(r.distance, r.duration)))
    || (r.name == "cycling" && r.metric == SpeedField(Speed(r.distance, r.duration)))
  }

  /** One element of `JSON.stringify(this.#workouts)`. */
  function Save(w: Workout): (r: Record)
    ensures Consistent(w) ==> Normal(r)
    ensures ValidRecord(r) <==> Valid(w)
    ensures r.name == "running" <==> w.activity.Running?
  {
    Record(w.id, w.date, w.coords, w.distance, w.duration, Name(w.activity), KindValue(w.activity),
           if w.activity.Running? then PaceField(w.metric) else SpeedField(w.metric))
  }

  function SaveAll(ws: seq<Workout>): (rs: seq<Record>)
    ensures |rs| == |ws|
    ensures forall i :: 0 <= i < |ws| ==> rs[i] == Save(ws[i])
  {
    seq(|ws|, i requires 0 <= i < |ws| => Save(ws[i]))
  }

  /**
    One step of the `map` in `_getLocalStorage`: a `Running` when the
    record's name is "running", a `Cycling` for every other name; the
    constructor recomputes the derived field and its fresh `date` and `id`
    are overwritten with the stored ones (so the clock readings handed to
    it do not matter).
   */
  function Load(r: Record): (w: Workout)
    ensures w.id == r.id && w.date == r.date && w.coords == r.coords
    ensures w.distance == r.distance && w.duration == r.duration
    ensures w.activity == if r.name == "running" then Running(r.value) else Cycling(r.value)
    ensures Consistent(w)
    ensures Valid(w) <==> ValidRecord(r)
  {
    var built :=
      if r.name == "running" then NewRunning(r.coords, r.distance, r.duration, r.value, 0, 0)
      else NewCycling(r.coords, r.distance, r.duration, r.value, 0, 0);
    built.(date := r.date, id := r.id)
  }

  function LoadAll(rs: seq<Record>): (ws: seq<Workout>)
    ensures |ws| == |rs|
    ensures forall i :: 0 <= i < |rs| ==> ws[i] == Load(rs[i])
  {
    seq(|rs|, i requires 0 <= i < |rs| => Load(rs[i]))
  }

  /** Loading never reads the stored derived field: only the other fields decide the workout. */
  lemma LoadIgnoresStoredMetric(r: Record, m: Metric)
    ensures Load(r.(metric := m)) == Load(r)
  {
  }

  /** Saving a consistent workout and loading it back gives the same workout. */
  lemma LoadSave(w: Workout)
    requires Consistent(w)
    ensures Load(Save(w)) == w
  {
  }

  /** The list round trip: `_getLocalStorage` after `_setLocalStorage` restores the list. */
  lemma LoadAllSaveAll(ws: seq<Workout>)
    requires forall i :: 0 <= i < |ws| ==> Consistent(ws[i])
    ensures LoadAll(SaveAll(ws)) == ws
  {
    var back := LoadAll(SaveAll(ws));
    forall i | 0 <= i < |ws|
      ensures back[i] == ws[i]
    {
      LoadSave(ws[i]);
    }
  }

  /** The other direction: a record the app writes is written again unchanged after loading. */
  lemma SaveLoad(r: Record)
    requires Normal(r)
    ensures Save(Load(r)) == r
  {
  }
}
