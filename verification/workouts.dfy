/**
  The workout entities of script.js: the `Workout` base class with its
  `Running` and `Cycling` subclasses, written as one datatype whose
  `activity` tag carries the subclass and its kind-specific field.
 */
module Workouts {
  import opened JsNumbers

  /** The time value of the `Date` a workout was created with. */
  type Timestamp = int

  /** A `[lat, lng]` pair taken from a map click. */
  datatype Coords = Coords(lat: real, lng: real)

  /** The subclass of a workout together with the field only that subclass has. */
  datatype Activity = Running(cadence: real) | Cycling(elevation: real)

  /**
    A workout object. `metric` is the derived field the subclass keeps:
    `pace` (minutes per km) for a run, `speed` (km per hour) for a ride.
   */
  datatype Workout = Workout(
    id: string,
    date: Timestamp,
    coords: Coords,
    distance: real,
    duration: real,
    activity: Activity,
    metric: Num)

  /** The `name` class field of each subclass. */
  function Name(a: Activity): string {
    match a
    case Running(_) => "running"
    case Cycling(_) => "cycling"
  }

  /** The kind-specific field, whichever subclass holds it. */
  function KindValue(a: Activity): real {
    match a
    case Running(cadence) => cadence
    case Cycling(elevation) => elevation
  }

  /** `calcPace`: minutes per kilometre. */
  function Pace(distance: real, duration: real): (p: Num)
    ensures distance > 0.0 ==> p.Fin? && p.value * distance == duration
    ensures distance > 0.0 && duration > 0.0 ==> p.value > 0.0
  {
    Div(duration, distance)
  }

  /** `calcSpeed`: kilometres per hour, the duration being in minutes. */
  function Speed(distance: real, duration: real): (v: Num)
    ensures duration > 0.0 ==> v.Fin? && v.value * duration == 60.0 * distance
    ensures distance > 0.0 && duration > 0.0 ==> v.value > 0.0
  {
    var q := Div(distance, duration / 60.0);
    assert duration > 0.0 ==> q.value * duration == 60.0 * (q.value * (duration / 60.0));
    q
  }

  /** The derived field the subclass of `a` computes from distance and duration. */
  function MetricOf(a: Activity, distance: real, duration: real): Num {
    match a
    case Running(_) => Pace(distance, duration)
    case Cycling(_) => Speed(distance, duration)
  }

  /** The derived field agrees with the current distance and duration. */
  predicate Consistent(w: Workout) {
    w.metric == MetricOf(w.activity, w.distance, w.duration)
  }

  /** What the form demands of every workout it lets through. */
  predicate Valid(w: Workout) {
    && w.distance > 0.0
    && w.duration > 0.0
    && (w.activity.Running? ==> w.activity.cadence > 0.0)
  }

  /** `n + ""`: the decimal numeral of a non-negative integer. */
  function Decimal(n: nat): (r: string)
    ensures |r| >= 1
    ensures forall i :: 0 <= i < |r| ==> '0' <= r[i] <= '9'
  {
    if n < 10 then [Digit(n)] else Decimal(n / 10) + [Digit(n % 10)]
  }

  function Digit(d: nat): (c: char)
    requires d < 10
    ensures '0' <= c <= '9'
  {
    ('0' as int + d) as char
  }

  /** `(Date.now() + "").slice(-10)`: the last ten digits of the clock reading. */
  function IdOf(now: nat): (id: string)
    ensures |id| <= 10 && |id| <= |Decimal(now)|
    ensures id == Decimal(now)[|Decimal(now)| - |id|..]
    ensures |Decimal(now)| >= 10 ==> |id| == 10
    ensures |Decimal(now)| <= 10 ==> id == Decimal(now)
  {
    var d := Decimal(now);
    if |d| <= 10 then d else d[|d| - 10..]
  }

  /**
    The `Running` constructor: the base class takes the clock readings for
    `date` and `id`, then `calcPace` sets the derived field.
   */
  function NewRunning(coords: Coords, distance: real, duration: real, cadence: real,
                      date: Timestamp, now: nat): (w: Workout)
    ensures w.id == IdOf(now) && w.date == date && w.coords == coords
    ensures w.distance == distance && w.duration == duration
    ensures w.activity == Running(cadence)
    ensures Consistent(w)
  {
    Workout(IdOf(now), date, coords, distance, duration, Running(cadence), Pace(distance, duration))
  }

  /** The `Cycling` constructor: `calcSpeed` sets the derived field. */
  function NewCycling(coords: Coords, distance: real, duration: real, elevation: real,
                      date: Timestamp, now: nat): (w: Workout)
    ensures w.id == IdOf(now) && w.date == date && w.coords == coords
    ensures w.distance == distance && w.duration == duration
    ensures w.activity == Cycling(elevation)
    ensures Consistent(w)
  {
    Workout(IdOf(now), date, coords, distance, duration, Cycling(elevation), Speed(distance, duration))
  }

  /** A valid, consistent workout carries a finite, positive metric that means what it says. */
  lemma MetricMeaning(w: Workout)
    requires Valid(w) && Consistent(w)
    ensures w.metric.Fin? && w.metric.value > 0.0
    ensures w.activity.Running? ==> w.metric.value * w.distance == w.duration
    ensures w.activity.Cycling? ==> w.metric.value * w.duration == 60.0 * w.distance
  {
  }
}
