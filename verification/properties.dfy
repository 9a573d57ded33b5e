/**
  Properties of the handlers that relate several calls: editing, the
  storage round trip and the order the sort produces.
 */
module MaptyProperties {
  import opened Workouts
  import opened Storage
  import opened Validation
  import opened Sorting
  import opened Options
  import opened Mapty

  /**
    Editing a listed workout replaces its distance, duration and kind field
    and recomputes its derived field, keeps its id, date and coordinates,
    and leaves every other workout as it was.
   */
  lemma EditUpdatesOnlyTarget(s: App, typeName: string, e: Entry)
    requires AllConsistent(s.workouts)
    requires Listed(s)
    requires Name(e.activity) == typeName
    ensures
      var i := IndexOf(s.workouts, s.target.w);
      var r := EditCurrentWorkout(s, typeName, e);
      && r.workouts[i] == Workout(s.workouts[i].id, s.workouts[i].date, s.workouts[i].coords,
                                  e.distance, e.duration, e.activity,
                                  MetricOf(e.activity, e.distance, e.duration))
      && forall j :: 0 <= j < |s.workouts| && j != i ==> r.workouts[j] == s.workouts[j]
  {
    var i := IndexOf(s.workouts, s.target.w);
    var r := EditCurrentWorkout(s, typeName, e);
    var written := SaveAll(s.workouts)[i := EditRecord(s.target.w, typeName, e)];
    assert r.workouts == LoadAll(written);
    assert Load(written[i]).activity == e.activity;
    forall j | 0 <= j < |s.workouts| && j != i
      ensures r.workouts[j] == s.workouts[j]
    {
      LoadSave(s.workouts[j]);
    }
  }

  /**
    Editing an object that is no longer listed saves and reloads the list
    unchanged, whether the edit goes through or throws.
   */
  lemma EditDetachedKeepsList(s: App, typeName: string, e: Entry)
    requires AllConsistent(s.workouts)
    requires !Listed(s)
    ensures EditCurrentWorkout(s, typeName, e).workouts == s.workouts
  {
    LoadAllSaveAll(s.workouts);
  }

  /**
    When the form's type differs from the edited workout's class, the saved
    object carries the derived field of the old class under the new name;
    the reload that follows replaces it with the right one.
   */
  lemma KindChangeRepairedByReload(w: Workout, typeName: string, e: Entry)
    requires Name(e.activity) == typeName && Name(w.activity) != typeName
    ensures !Normal(EditRecord(w, typeName, e))
    ensures Load(EditRecord(w, typeName, e)).activity == e.activity
    ensures Consistent(Load(EditRecord(w, typeName, e)))
  {
  }

  /** Saving the list and starting the app again restores the same list. */
  lemma RestartRestoresList(s: App)
    requires Inv(s)
    ensures Start(Some(SaveAll(s.workouts))).workouts == s.workouts
  {
    LoadAllSaveAll(s.workouts);
  }

  /**
    When every workout has a truthy, finite value for the sort field, the
    list comes out ascending for the direction "decend" and descending for
    any other direction.
   */
  lemma SortWorkoutsOrder(s: App, field: string, order: string)
    requires forall w :: w in s.workouts ==> Comparable(KeyOf(w, field))
    ensures order == "decend" ==> Ordered(SortWorkouts(s, field, order).workouts, WorkoutKey(field), true)
    ensures order != "decend" ==> Ordered(SortWorkouts(s, field, order).workouts, WorkoutKey(field), false)
  {
    SortOrdered(s.workouts, WorkoutKey(field), order == "decend");
  }
}
