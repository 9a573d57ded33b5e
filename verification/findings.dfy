/**
  Defects of the store, each shown on the handler as written and paired
  with a corrected definition that has the intended property.
 */
module Findings {
  import opened JsNumbers
  import opened Workouts
  import opened Validation
  import opened Sorting
  import opened Options
  import opened Mapty
  import opened MaptyProperties

  // ---------------------------------------------------------------------
  // The sort moves the workouts but not their markers.

  /**
    A paired list of a shorter and a longer workout, created at different
    times: sorting by distance with any direction value but "decend" swaps
    the workouts but not the markers, and deleting the longer workout
    afterwards removes the shorter one's marker, leaving the shorter
    workout with a marker that does not show it.
   */
  lemma SortLeavesMarkersBehind(s: App, short: Workout, long: Workout)
    requires s.workouts == [short, long] && Paired(s) && s.mapReady
    requires 0.0 < short.distance < long.distance && short.date != long.date
    ensures
      var sorted := SortWorkouts(s, "distance", "ascend");
      && sorted.workouts == [long, short]
      && !Paired(sorted)
      && DeleteById(sorted, long.id).workouts == [short]
      && DeleteById(sorted, long.id).markers == [s.markers[1]]
      && !Shows(s.markers[1], short)
  {
    var sorted := SortWorkouts(s, "distance", "ascend");
    var key := WorkoutKey("distance");
    assert key(short) == Number(Fin(short.distance)) && key(long) == Number(Fin(long.distance));
    SortTwo(short, long, key, false);
    assert Shows(s.markers[0], short) && Shows(s.markers[1], long);
    assert !Shows(sorted.markers[0], sorted.workouts[0]);
    DeleteFirstOfTwo(sorted, long.id);
  }

  /** Deleting by the id the first of two workouts has removes the first entry of both lists. */
  lemma DeleteFirstOfTwo(s: App, id: string)
    requires s.mapReady && |s.workouts| == 2 && |s.markers| == 2 && s.workouts[0].id == id
    ensures DeleteById(s, id).workouts == [s.workouts[1]]
    ensures DeleteById(s, id).markers == [s.markers[1]]
  {
    assert FindById(s.workouts, id) == Some(0);
    assert IndexOf(s.workouts, s.workouts[0]) == 0;
  }

  function Zip(ws: seq<Workout>, ms: seq<Marker>): (ps: seq<(Workout, Marker)>)
    requires |ws| == |ms|
    ensures Firsts(ps) == ws && Seconds(ps) == ms
  {
    seq(|ws|, i requires 0 <= i < |ws| => (ws[i], ms[i]))
  }

  /** Every pair holds a workout and a marker that shows it. */
  ghost predicate AllShow(ps: seq<(Workout, Marker)>) {
    forall k :: 0 <= k < |ps| ==> Shows(ps[k].1, ps[k].0)
  }

  /** Reordering pairs keeps every marker with its workout. */
  lemma PermutationShows(ps: seq<(Workout, Marker)>, qs: seq<(Workout, Marker)>)
    requires multiset(qs) == multiset(ps)
    ensures AllShow(ps) ==> AllShow(qs)
  {
    if AllShow(ps) {
      forall k | 0 <= k < |qs|
        ensures Shows(qs[k].1, qs[k].0)
      {
        assert qs[k] in multiset(ps);
        var j :| 0 <= j < |ps| && ps[j] == qs[k];
      }
    }
  }

  /** Sorting workouts zipped with their markers sorts the workouts and keeps each pair together. */
  lemma SortZipped(ws: seq<Workout>, ms: seq<Marker>, field: string, ascending: bool)
    requires |ws| == |ms|
    ensures
      var sorted := SortBy(Zip(ws, ms), OnFirst(WorkoutKey(field)), ascending);
      && Firsts(sorted) == SortBy(ws, WorkoutKey(field), ascending)
      && ((forall k :: 0 <= k < |ws| ==> Shows(ms[k], ws[k])) ==>
            forall k :: 0 <= k < |sorted| ==> Shows(Seconds(sorted)[k], Firsts(sorted)[k]))
  {
    var pairs := Zip(ws, ms);
    var sorted := SortBy(pairs, OnFirst(WorkoutKey(field)), ascending);
    SortFirsts(pairs, WorkoutKey(field), ascending);
    PermutationShows(pairs, sorted);
  }

  /**
    The sort as intended: each marker travels with its workout, and the
    direction "decend" sorts descending. Before the map has placed any
    markers only the workouts are sorted.
   */
  function SortWorkoutsFixed(s: App, field: string, order: string): (r: App)
    ensures r.workouts == SortBy(s.workouts, WorkoutKey(field), order != "decend")
    ensures multiset(r.workouts) == multiset(s.workouts)
    ensures |s.markers| == |s.workouts| ==> multiset(r.markers) == multiset(s.markers)
    ensures Paired(s) ==> Paired(r)
    ensures r.stored == s.stored && r.editOn == s.editOn && r.target == s.target
  {
    var ascending := order != "decend";
    if |s.markers| == |s.workouts| then
      var sorted := SortBy(Zip(s.workouts, s.markers), OnFirst(WorkoutKey(field)), ascending);
      SortZipped(s.workouts, s.markers, field, ascending);
      SecondsMultiset(Zip(s.workouts, s.markers), sorted);
      s.(workouts := Firsts(sorted), markers := Seconds(sorted))
    else
      s.(workouts := SortBy(s.workouts, WorkoutKey(field), ascending))
  }

  /** The corrected sort keeps every marker with its workout, so deleting stays correct. */
  lemma FixedSortKeepsPairing(s: App, field: string, order: string, id: string)
    requires Paired(s)
    ensures Paired(DeleteById(SortWorkoutsFixed(s, field, order), id))
  {
  }

  // ---------------------------------------------------------------------
  // The direction called "decend" sorts ascending.

  /** With the direction "decend", a longer workout listed first ends up behind a shorter one. */
  lemma DecendSortsAscending(s: App, short: Workout, long: Workout)
    requires s.workouts == [long, short]
    requires 0.0 < short.distance < long.distance
    ensures SortWorkouts(s, "distance", "decend").workouts == [short, long]
  {
    var key := WorkoutKey("distance");
    assert key(short) == Number(Fin(short.distance)) && key(long) == Number(Fin(long.distance));
    SortTwo(long, short, key, true);
  }

  /** The corrected sort orders "decend" descending and every other direction ascending. */
  lemma FixedSortDirection(s: App, field: string, order: string)
    requires forall w :: w in s.workouts ==> Comparable(KeyOf(w, field))
    ensures order == "decend" ==> Ordered(SortWorkoutsFixed(s, field, order).workouts, WorkoutKey(field), false)
    ensures order != "decend" ==> Ordered(SortWorkoutsFixed(s, field, order).workouts, WorkoutKey(field), true)
  {
    SortOrdered(s.workouts, WorkoutKey(field), order != "decend");
  }

  // ---------------------------------------------------------------------
  // Edit mode is never left.

  /**
    After one edit, `#editOn` is still set and `#editWorkoutEl` points at a
    detached object: the next accepted submission, meant to add a workout,
    edits that object instead (or throws, when the first edit changed the
    kind), and the list stays as it was.
   */
  lemma EditModeSwallowsNewWorkouts(s: App, id: string, edit: Form, add: Form,
                                    at: Coords, date: Timestamp, now: nat, handle: nat)
    requires s.mapReady && FindById(s.workouts, id).Some?
    requires Validate(edit).Accepted? && Validate(add).Accepted?
    ensures
      var edited := NewWorkout(SelectForEdit(s, id), edit, at, date, now, handle);
      var added := NewWorkout(edited, add, at, date, now, handle);
      && added.workouts == edited.workouts
      && |added.workouts| == |s.workouts|
      && added.markers == s.markers
      && added.editOn
  {
    var selected := SelectForEdit(s, id);
    var edited := NewWorkout(selected, edit, at, date, now, handle);
    assert edited.target.Detached?;
    if !EditThrows(edited) {
      EditDetachedKeepsList(edited, add.typeName, Validate(add).entry);
    }
  }

  /**
    An edit that changes the workout's kind leaves the detached object with
    the other class's name, and the next accepted submission throws in
    `_editCurrentWorkout` and changes nothing; so does every one after it,
    until an edit icon points edit mode at a listed workout again.
   */
  lemma KindChangeFreezesEditing(s: App, id: string, edit: Form, next: Form,
                                 at: Coords, date: Timestamp, now: nat, handle: nat)
    requires s.mapReady && FindById(s.workouts, id).Some?
    requires Validate(edit).Accepted? && Validate(next).Accepted?
    requires Name(s.workouts[FindById(s.workouts, id).value].activity) != edit.typeName
    ensures
      var edited := NewWorkout(SelectForEdit(s, id), edit, at, date, now, handle);
      && EditThrows(edited)
      && NewWorkout(edited, next, at, date, now, handle) == edited
  {
  }

  /** `_newWorkout` with edit mode ended once an edit has been attempted. */
  function NewWorkoutFixed(s: App, f: Form, at: Coords, date: Timestamp, now: nat, handle: nat): (r: App)
    ensures Validate(f).Accepted? ==> !r.editOn
    ensures !(Validate(f).Accepted? && s.editOn) ==> r == NewWorkout(s, f, at, date, now, handle)
    ensures Validate(f).Accepted? && s.editOn ==>
      r == NewWorkout(s, f, at, date, now, handle).(editOn := false)
  {
    match Validate(f)
    case Rejected => s
    case Ignored => SetLocalStorage(s)
    case Accepted(e) =>
      if s.editOn && EditThrows(s) then s.(editOn := false)
      else if s.editOn then
        SetLocalStorage(EditCurrentWorkout(s, f.typeName, e).(editOn := false))
      else
        var w := Create(e, at, date, now);
        var listed := s.(workouts := s.workouts + [w]);
        SetLocalStorage(listed.(markers := listed.markers + [MarkerFor(w, handle)]))
  }

  /** With edit mode ended, the submission after an edit adds its workout and marker. */
  lemma FixedEditThenAdd(s: App, id: string, edit: Form, add: Form,
                         at: Coords, date: Timestamp, now: nat, handle: nat)
    requires s.mapReady && FindById(s.workouts, id).Some?
    requires Validate(edit).Accepted? && Validate(add).Accepted?
    ensures
      var edited := NewWorkoutFixed(SelectForEdit(s, id), edit, at, date, now, handle);
      var added := NewWorkoutFixed(edited, add, at, date, now, handle);
      && !added.editOn
      && |added.workouts| == |s.workouts| + 1
      && added.workouts[..|s.workouts|] == edited.workouts
      && added.markers == s.markers + [Marker(handle, at, date)]
  {
  }

  // ---------------------------------------------------------------------
  // Ids repeat every 10^10 milliseconds.

  function Pow10(k: nat): (p: nat)
    ensures p >= 1
  {
    if k == 0 then 1 else 10 * Pow10(k - 1)
  }

  /** The last `k` decimal digits of `n`, padded with zeros. */
  function LastDigits(n: nat, k: nat): (r: string)
    ensures |r| == k
  {
    if k == 0 then [] else LastDigits(n / 10, k - 1) + [Digit(n % 10)]
  }

  /** A numeral of at least `k` digits ends with the last `k` digits of its number. */
  lemma {:induction false} DecimalSuffix(n: nat, k: nat)
    requires 1 <= k && n >= Pow10(k - 1)
    ensures |Decimal(n)| >= k
    ensures Decimal(n)[|Decimal(n)| - k..] == LastDigits(n, k)
  {
    if k == 1 {
      assert LastDigits(n, 1) == [Digit(n % 10)];
    } else {
      assert n / 10 >= Pow10(k - 2);
      DecimalSuffix(n / 10, k - 1);
      var d := Decimal(n / 10);
      assert Decimal(n) == d + [Digit(n % 10)];
      assert Decimal(n)[|Decimal(n)| - k..] == d[|d| - (k - 1)..] + [Digit(n % 10)];
    }
  }

  /** The last `k` digits do not see a multiple of `10^k`. */
  lemma {:induction false} LastDigitsPeriodic(n: nat, k: nat)
    ensures LastDigits(n + Pow10(k), k) == LastDigits(n, k)
  {
    if k > 0 {
      var p := Pow10(k - 1);
      assert n + Pow10(k) == (n / 10 + p) * 10 + n % 10;
      assert (n + Pow10(k)) / 10 == n / 10 + p;
      assert (n + Pow10(k)) % 10 == n % 10;
      LastDigitsPeriodic(n / 10, k - 1);
    }
  }

  lemma Pow10Values()
    ensures Pow10(9) == 1_000_000_000 && Pow10(10) == 10_000_000_000
  {
    assert Pow10(1) == 10;
    assert Pow10(2) == 100;
    assert Pow10(3) == 1000;
    assert Pow10(4) == 10000;
    assert Pow10(5) == 100000;
    assert Pow10(6) == 1000000;
    assert Pow10(7) == 10000000;
    assert Pow10(8) == 100000000;
  }

  /** From ten digits on, the id is the reading's last ten digits. */
  lemma IdIsLastDigits(now: nat)
    requires now >= Pow10(9)
    ensures IdOf(now) == LastDigits(now, 10)
  {
    DecimalSuffix(now, 10);
  }

  /** Readings of at least ten digits that are `10^10` apart share their last ten digits. */
  lemma {:induction false} LastTenRepeat(now: nat)
    requires now >= Pow10(9)
    ensures IdOf(now + Pow10(10)) == IdOf(now)
  {
    IdIsLastDigits(now);
    IdIsLastDigits(now + Pow10(10));
    LastDigitsPeriodic(now, 10);
  }

  /** Two clock readings 10^10 ms (about 115 days) apart give the same id. */
  lemma IdsRepeat(now: nat)
    requires now >= 1_000_000_000
    ensures IdOf(now + 10_000_000_000) == IdOf(now)
  {
    Pow10Values();
    LastTenRepeat(now);
  }

  /**
    The consequence: of two listed workouts created 10^10 ms apart, a
    click on the later one's delete icon deletes the earlier one.
   */
  lemma RepeatedIdDeletesEarlierWorkout(s: App, now: nat)
    requires Paired(s) && |s.workouts| == 2 && s.mapReady
    requires now >= 1_000_000_000
    requires s.workouts[0].id == IdOf(now) && s.workouts[1].id == IdOf(now + 10_000_000_000)
    ensures DeleteById(s, s.workouts[1].id).workouts == [s.workouts[1]]
  {
    IdsRepeat(now);
    assert FindById(s.workouts, s.workouts[1].id) == Some(0);
  }

  /** The id as intended: the whole clock reading. */
  function IdOfFixed(now: nat): (id: string)
    ensures AllDigits(id) && ParseDecimal(id) == now
  {
    DecimalRoundTrip(now);
    Decimal(now)
  }

  function DigitValue(c: char): nat
    requires '0' <= c <= '9'
  {
    (c as int - '0' as int) as nat
  }

  predicate AllDigits(s: string) {
    forall i :: 0 <= i < |s| ==> '0' <= s[i] <= '9'
  }

  /** The number a numeral denotes. */
  function ParseDecimal(s: string): nat
    requires AllDigits(s)
  {
    if |s| == 0 then 0 else ParseDecimal(s[..|s| - 1]) * 10 + DigitValue(s[|s| - 1])
  }

  lemma {:induction false} DecimalRoundTrip(n: nat)
    ensures AllDigits(Decimal(n)) && ParseDecimal(Decimal(n)) == n
  {
    if n >= 10 {
      DecimalRoundTrip(n / 10);
      var d := Decimal(n);
      assert d[..|d| - 1] == Decimal(n / 10);
    }
  }

  /** Distinct clock readings give distinct corrected ids. */
  lemma FixedIdsDistinct(a: nat, b: nat)
    requires a != b
    ensures IdOfFixed(a) != IdOfFixed(b)
  {
  }
}
