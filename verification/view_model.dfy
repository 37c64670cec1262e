/**
 The detail/edit view model: a single-task slot (`task`, initially null) with
 `loadTask` and the `saveTask` upsert. The view model does not own a store:
 the application gives every view model the same repository instance, so
 here each operation takes that shared `Store` and `saveTask` returns its
 next state. Every view model that reads the store afterwards sees the change.
 */
module TaskViewModel {
  import opened Wrappers
  import opened TaskModel
  import opened TaskRepository

  /** The view model's own state: its published task slot. */
  datatype ViewModel = ViewModel(task: Option<Task>)

  /** A new view model; its task slot starts out null. */
  function NewViewModel(): (vm: ViewModel)
    ensures vm.task.None?
  {
    ViewModel(None)
  }

  /**
   `loadTask`: publishes in the slot the stored task carrying `id`, or null
   when no task carries it. The store is only read, so it cannot change.
   */
  function LoadTask(repository: Store, vm: ViewModel, id: Int32): (r: ViewModel)
    ensures r.task.None? <==> !HasId(repository.tasks, id)
    ensures r.task.Some? ==> r.task.value.id == id
    ensures forall k :: IsFirstWithId(repository.tasks, id, k) ==> r.task == Some(repository.tasks[k])
  {
    vm.(task := GetTaskById(repository, id))
  }

  /**
   `saveTask`: an upsert on the shared store. When no stored task carries
   `t.id` the task is appended; otherwise the first task carrying `t.id` is
   replaced in place. Either way the snapshot is republished. The slot is not
   an input, so `saveTask` cannot touch it.
   */
  function SaveTask(repository: Store, t: Task): (r: Store)
    ensures !HasId(repository.tasks, t.id) ==> r.tasks == repository.tasks + [t]
    ensures HasId(repository.tasks, t.id) ==> |r.tasks| == |repository.tasks|
    ensures forall k :: IsFirstWithId(repository.tasks, t.id, k) ==> r.tasks == repository.tasks[k := t]
    ensures Published(r)
  {
    if GetTaskById(repository, t.id).None? then
      var r := AddTask(repository, t);
      assert r.tasks == repository.tasks + [t];
      r
    else
      UpdateTask(repository, t)
  }

  /** After either branch of `saveTask(t)`, looking `t.id` up yields `t`. */
  lemma SaveThenGet(repository: Store, t: Task)
    ensures GetTaskById(SaveTask(repository, t), t.id) == Some(t)
  {
    if HasId(repository.tasks, t.id) {
      UpdateThenGet(repository, t);
    } else {
      AddThenGet(repository, t);
    }
  }

  /** `saveTask(t)` leaves the lookup of every other id as it was. */
  lemma SaveKeepsOtherLookups(repository: Store, t: Task, id: Int32)
    requires id != t.id
    ensures GetTaskById(SaveTask(repository, t), id) == GetTaskById(repository, id)
  {
    if HasId(repository.tasks, t.id) {
      UpdateKeepsOtherLookups(repository, t, id);
    } else {
      AddKeepsOtherLookups(repository, t, id);
    }
  }

  /** Loading `t.id` after saving `t` puts `t` in the slot, whatever the slot held before. */
  lemma LoadAfterSave(repository: Store, vm: ViewModel, t: Task)
    ensures LoadTask(SaveTask(repository, t), vm, t.id).task == Some(t)
  {
    SaveThenGet(repository, t);
  }

  /**
   The store is shared: after one view model saves `t`, every view model that
   loads `t.id` from the store sees `t`, and the list that the home screen
   observes contains `t`.
   */
  lemma SaveIsSeenByEveryViewModel(repository: Store, saver: ViewModel, other: ViewModel, t: Task)
    ensures LoadTask(SaveTask(repository, t), saver, t.id).task == Some(t)
    ensures LoadTask(SaveTask(repository, t), other, t.id).task == Some(t)
    ensures t in SaveTask(repository, t).tasksFlow
  {
    SaveThenGet(repository, t);
  }

  /**
   Seen as a map from id to task, `saveTask(t)` is exactly the map update
   `m[t.id := t]`: "if it doesn't exist, add it, otherwise update it".
   */
  lemma SaveIsMapUpdate(repository: Store, t: Task)
    ensures AsMap(SaveTask(repository, t).tasks) == AsMap(repository.tasks)[t.id := t]
  {
    var before := repository.tasks;
    var after := SaveTask(repository, t).tasks;
    forall id
      ensures (id in AsMap(after)) == (id in AsMap(before)[t.id := t])
      ensures id in AsMap(after) ==> AsMap(after)[id] == AsMap(before)[t.id := t][id]
    {
      LookupMatchesMap(before, id);
      LookupMatchesMap(after, id);
      if id == t.id {
        SaveThenGet(repository, t);
      } else {
        SaveKeepsOtherLookups(repository, t, id);
      }
    }
  }

  /** If ids are unique before `saveTask(t)`, they are unique after it. */
  lemma SaveKeepsIdsUnique(repository: Store, t: Task)
    requires UniqueIds(repository.tasks)
    ensures UniqueIds(SaveTask(repository, t).tasks)
  {
    var before := repository.tasks;
    var after := SaveTask(repository, t).tasks;
    if HasId(before, t.id) {
      var k := IndexOfFirst(before, t.id);
      assert forall i :: 0 <= i < |after| ==> after[i].id == before[i].id;
    } else {
      assert forall i :: 0 <= i < |before| ==> after[i] == before[i];
      assert after[|before|] == t;
    }
  }

  /** `saveTask(t); saveTask(t)` leaves the same store as one `saveTask(t)`: the second call takes the update branch. */
  lemma SaveIsIdempotent(repository: Store, t: Task)
    ensures SaveTask(SaveTask(repository, t), t) == SaveTask(repository, t)
  {
    var once := SaveTask(repository, t);
    SaveThenGet(repository, t);
    var k := IndexOfFirst(once.tasks, t.id);
    assert once.tasks[k] == t;
    assert once.tasks[k := t] == once.tasks;
  }

  /** A run of `saveTask` calls on the shared store, in call order. */
  function SaveAll(repository: Store, ts: seq<Task>): Store
    decreases |ts|
  {
    if |ts| == 0 then repository else SaveAll(SaveTask(repository, ts[0]), ts[1..])
  }

  /**
   Sequential upserts keep at most one task per id, whatever ids the callers
   supply, and the published snapshot shows the list.
   */
  lemma {:induction false} SaveAllKeepsIdsUnique(repository: Store, ts: seq<Task>)
    requires UniqueIds(repository.tasks)
    ensures UniqueIds(SaveAll(repository, ts).tasks)
    ensures |ts| > 0 ==> Published(SaveAll(repository, ts))
    decreases |ts|
  {
    if |ts| > 0 {
      SaveKeepsIdsUnique(repository, ts[0]);
      SaveAllKeepsIdsUnique(SaveTask(repository, ts[0]), ts[1..]);
    }
  }

  /** From a fresh store, any run of `saveTask` calls leaves at most one task per id. */
  lemma SaveAllFromNewKeepsIdsUnique(ts: seq<Task>)
    ensures UniqueIds(SaveAll(NewRepository(), ts).tasks)
  {
    SaveAllKeepsIdsUnique(NewRepository(), ts);
  }

  /**
   A concrete run: add a task with id 1, save an edited copy with the same id
   (the update branch), then look up and load the absent id 2.
   */
  lemma EditScenario()
    ensures var added := AddTask(NewRepository(), Task(1, "A", "d1", "2024-01-01"));
      var saved := SaveTask(added, Task(1, "A2", "d1", "2024-01-01", true));
      && saved.tasksFlow == [Task(1, "A2", "d1", "2024-01-01", true)]
      && GetTaskById(saved, 2).None?
      && LoadTask(saved, NewViewModel(), 2).task.None?
  {
    var added := AddTask(NewRepository(), Task(1, "A", "d1", "2024-01-01"));
    assert added.tasks == [Task(1, "A", "d1", "2024-01-01")];
    assert IsFirstWithId(added.tasks, 1, 0);
  }
}
