/**
  The input check at the top of `_newWorkout`: the form's type selects which
  third field is read, `validInputs` demands finite numbers and `allPositive`
  demands numbers above zero. A ride's elevation is checked for finiteness
  only; a run's cadence must also be positive.
 */
module Validation {
  import opened JsNumbers
  import opened Workouts

  /** The form fields, each already converted with unary `+`. */
  datatype Form = Form(typeName: string, distance: Num, duration: Num, cadence: Num, elevation: Num)

  /** The values of an accepted submission. */
  datatype Entry = Entry(activity: Activity, distance: real, duration: real)

  /**
    `Accepted`: the inputs pass; `Rejected`: the alert fires and the handler
    returns; `Ignored`: the type is neither "cycling" nor "running", so
    neither branch runs.
   */
  datatype Verdict = Accepted(entry: Entry) | Rejected | Ignored

  /** `validInputs(...inputs)` */
  predicate AllFinite(inputs: seq<Num>) {
    forall i :: 0 <= i < |inputs| ==> IsFinite(inputs[i])
  }

  /** `allPositive(...inputs)` */
  predicate AllPositive(inputs: seq<Num>) {
    forall i :: 0 <= i < |inputs| ==> IsPositive(inputs[i])
  }

  predicate ValidEntry(e: Entry) {
    && e.distance > 0.0
    && e.duration > 0.0
    && (e.activity.Running? ==> e.activity.cadence > 0.0)
  }

  function Validate(f: Form): (v: Verdict)
    ensures v.Ignored? <==> f.typeName != "cycling" && f.typeName != "running"
    ensures f.typeName == "cycling" ==>
      (v.Accepted? <==>
        && f.distance.Fin? && f.duration.Fin? && f.elevation.Fin?
        && f.distance.value > 0.0 && f.duration.value > 0.0)
    ensures f.typeName == "running" ==>
      (v.Accepted? <==>
        && f.distance.Fin? && f.duration.Fin? && f.cadence.Fin?
        && f.distance.value > 0.0 && f.duration.value > 0.0 && f.cadence.value > 0.0)
    ensures v.Accepted? ==>
      && v.entry.distance == f.distance.value
      && v.entry.duration == f.duration.value
      && v.entry.activity == (if f.typeName == "running" then Running(f.cadence.value)
                              else Cycling(f.elevation.value))
      && Name(v.entry.activity) == f.typeName
      && ValidEntry(v.entry)
  {
    if f.typeName == "cycling" then
      var inputs := [f.distance, f.duration, f.elevation];
      if !AllFinite(inputs) || !AllPositive(inputs[..2]) then Rejected
      else
        assert IsFinite(inputs[0]) && IsFinite(inputs[1]) && IsFinite(inputs[2]);
        Accepted(Entry(Cycling(f.elevation.value), f.distance.value, f.duration.value))
    else if f.typeName == "running" then
      var inputs := [f.distance, f.duration, f.cadence];
      if !AllFinite(inputs) || !AllPositive(inputs) then Rejected
      else
        assert IsFinite(inputs[0]) && IsFinite(inputs[1]) && IsFinite(inputs[2]);
        assert IsPositive(inputs[2]);
        Accepted(Entry(Running(f.cadence.value), f.distance.value, f.duration.value))
    else Ignored
  }

  /** A ride is accepted whatever the sign of its (finite) elevation. */
  lemma CyclingElevationUnchecked(f: Form, elevation: real)
    requires f.typeName == "cycling"
    requires f.distance.Fin? && f.distance.value > 0.0
    requires f.duration.Fin? && f.duration.value > 0.0
    ensures Validate(f.(elevation := Fin(elevation))).Accepted?
  {
  }

  /** A run with a cadence of zero or below, NaN or an infinity is rejected. */
  lemma RunningCadenceChecked(f: Form)
    requires f.typeName == "running"
    requires !(f.cadence.Fin? && f.cadence.value > 0.0)
    ensures Validate(f).Rejected?
  {
  }

  /** Each kind reads only its own third field: the other one may hold anything. */
  lemma OtherFieldIgnored(f: Form, n: Num)
    ensures f.typeName == "running" ==> Validate(f.(elevation := n)) == Validate(f)
    ensures f.typeName != "running" ==> Validate(f.(cadence := n)) == Validate(f)
  {
  }
}
