/**
 The in-memory task store. `tasks` is the store's own ordered list and
 `tasksFlow` is the snapshot it publishes to observers. The store is a value,
 and every operation returns the next state. A published snapshot is a Dafny
 sequence, which is immutable, so a reader's copy cannot change after a later
 mutation.
 */
module TaskRepository {
  import opened Wrappers
  import opened TaskModel

  /** Some stored task carries `id`. */
  predicate HasId(ts: seq<Task>, id: Int32) {
    exists i :: 0 <= i < |ts| && ts[i].id == id
  }

  /** `k` is the position of the first task carrying `id`. */
  predicate IsFirstWithId(ts: seq<Task>, id: Int32, k: int) {
    && 0 <= k < |ts|
    && ts[k].id == id
    && forall j :: 0 <= j < k ==> ts[j].id != id
  }

  /** At most one stored task per id, as `id` is documented to be the task's unique identifier. */
  predicate UniqueIds(ts: seq<Task>) {
    forall i, j :: 0 <= i < |ts| && 0 <= j < |ts| && ts[i].id == ts[j].id ==> i == j
  }

  /**
   Kotlin's `indexOfFirst { it.id == id }`: the position of the first task
   carrying `id`, or -1 when there is none.
   */
  function IndexOfFirst(ts: seq<Task>, id: Int32): (r: int)
    ensures -1 <= r < |ts|
    ensures r == -1 <==> !HasId(ts, id)
    ensures r != -1 ==> IsFirstWithId(ts, id, r)
    decreases |ts|
  {
    if |ts| == 0 then -1
    else if ts[0].id == id then 0
    else
      var k := IndexOfFirst(ts[1..], id);
      if k == -1 then
        assert forall i :: 1 <= i < |ts| ==> ts[i] == ts[1..][i - 1];
        -1
      else
        assert forall j :: 1 <= j <= k ==> ts[j] == ts[1..][j - 1];
        k + 1
  }

  /**
   Kotlin's `find { it.id == id }`: the first task carrying `id`, or null
   when there is none.
   */
  function Find(ts: seq<Task>, id: Int32): (r: Option<Task>)
    ensures r.None? <==> !HasId(ts, id)
    ensures forall k :: IsFirstWithId(ts, id, k) ==> r == Some(ts[k])
    decreases |ts|
  {
    if |ts| == 0 then None
    else if ts[0].id == id then Some(ts[0])
    else
      var r := Find(ts[1..], id);
      assert forall i :: 1 <= i < |ts| ==> ts[i] == ts[1..][i - 1];
      assert forall k :: IsFirstWithId(ts, id, k) ==> IsFirstWithId(ts[1..], id, k - 1);
      r
  }

  /** The store: its list and the snapshot it last published. */
  datatype Store = Store(tasks: seq<Task>, tasksFlow: seq<Task>)

  /** The published snapshot shows the current list. */
  predicate Published(s: Store) {
    s.tasksFlow == s.tasks
  }

  /** A freshly constructed store: no tasks, and the snapshot starts out as the empty list. */
  function NewRepository(): (s: Store)
    ensures |s.tasks| == 0 && s.tasksFlow == []
    ensures Published(s)
    ensures forall id :: !HasId(s.tasks, id)
  {
    Store([], [])
  }

  /**
   `addTask`: appends `t` without looking for an existing task with the same
   id, then publishes a copy of the list.
   */
  function AddTask(s: Store, t: Task): (r: Store)
    ensures |r.tasks| == |s.tasks| + 1
    ensures forall i :: 0 <= i < |s.tasks| ==> r.tasks[i] == s.tasks[i]
    ensures r.tasks[|s.tasks|] == t
    ensures Published(r)
  {
    var ts := s.tasks + [t];
    Store(ts, ts)
  }

  /**
   `updateTask`: replaces the first task carrying `t.id` by `t` and publishes a
   copy of the list; when no task carries `t.id` nothing changes and nothing is
   published.
   */
  function UpdateTask(s: Store, t: Task): (r: Store)
    ensures |r.tasks| == |s.tasks|
    ensures forall j :: 0 <= j < |s.tasks| ==>
      r.tasks[j] == (if IsFirstWithId(s.tasks, t.id, j) then t else s.tasks[j])
    ensures HasId(s.tasks, t.id) ==> Published(r)
    ensures !HasId(s.tasks, t.id) ==> r == s
  {
    var index := IndexOfFirst(s.tasks, t.id);
    if index != -1 then
      var ts := s.tasks[index := t];
      Store(ts, ts)
    else
      s
  }

  /** `getTaskById`: the first task carrying `id`, or null. The store is a value, so nothing is changed. */
  function GetTaskById(s: Store, id: Int32): (r: Option<Task>)
    ensures r.None? <==> !HasId(s.tasks, id)
    ensures r.Some? ==> r.value.id == id && r.value in s.tasks
    ensures forall k :: IsFirstWithId(s.tasks, id, k) ==> r == Some(s.tasks[k])
  {
    var r := Find(s.tasks, id);
    // the found task sits at the first matching position, hence it is stored
    assert r.Some? ==> r == Some(s.tasks[IndexOfFirst(s.tasks, id)]);
    r
  }

  /** Lookup and update see the same task: the one at `IndexOfFirst`. */
  lemma LookupAndUpdateAgree(s: Store, id: Int32)
    ensures var k := IndexOfFirst(s.tasks, id);
      GetTaskById(s, id) == if k == -1 then None else Some(s.tasks[k])
  {
  }

  /** After adding a task whose id was absent, looking the id up yields that task. */
  lemma AddThenGet(s: Store, t: Task)
    requires !HasId(s.tasks, t.id)
    ensures GetTaskById(AddTask(s, t), t.id) == Some(t)
  {
    var r := AddTask(s, t);
    assert IsFirstWithId(r.tasks, t.id, |s.tasks|);
  }

  /**
   Adding a task whose id is already stored keeps it, but the earlier task
   shadows it: lookup still returns the earlier task and an update of that id
   never reaches the added one.
   */
  lemma AddDuplicateIsShadowed(s: Store, t: Task, u: Task)
    requires HasId(s.tasks, t.id)
    requires u.id == t.id
    ensures GetTaskById(AddTask(s, t), t.id) == GetTaskById(s, t.id)
    ensures UpdateTask(AddTask(s, t), u).tasks[|s.tasks|] == t
  {
    var r := AddTask(s, t);
    var k := IndexOfFirst(s.tasks, t.id);
    assert IsFirstWithId(r.tasks, t.id, k);
  }

  /** Adding a task leaves lookups of every other id as they were. */
  lemma AddKeepsOtherLookups(s: Store, t: Task, id: Int32)
    requires id != t.id
    ensures GetTaskById(AddTask(s, t), id) == GetTaskById(s, id)
  {
    var r := AddTask(s, t);
    if HasId(s.tasks, id) {
      var k := IndexOfFirst(s.tasks, id);
      assert IsFirstWithId(r.tasks, id, k);
    } else {
      assert !HasId(r.tasks, id);
    }
  }

  /** After updating a task whose id is stored, looking the id up yields the new task. */
  lemma UpdateThenGet(s: Store, t: Task)
    requires HasId(s.tasks, t.id)
    ensures GetTaskById(UpdateTask(s, t), t.id) == Some(t)
  {
    var k := IndexOfFirst(s.tasks, t.id);
    assert IsFirstWithId(UpdateTask(s, t).tasks, t.id, k);
  }

  /** Updating a task leaves lookups of every other id as they were. */
  lemma UpdateKeepsOtherLookups(s: Store, t: Task, id: Int32)
    requires id != t.id
    ensures GetTaskById(UpdateTask(s, t), id) == GetTaskById(s, id)
  {
    var r := UpdateTask(s, t);
    assert forall j :: 0 <= j < |s.tasks| ==> (r.tasks[j].id == id <==> s.tasks[j].id == id);
    if HasId(s.tasks, id) {
      var k := IndexOfFirst(s.tasks, id);
      assert IsFirstWithId(r.tasks, id, k);
    } else {
      assert !HasId(r.tasks, id);
    }
  }

  /** A run of `addTask` calls, in call order. */
  function AddAll(s: Store, ts: seq<Task>): Store
    decreases |ts|
  {
    if |ts| == 0 then s else AddAll(AddTask(s, ts[0]), ts[1..])
  }

  /** A run of `addTask` calls appends the tasks in call order, and the snapshot follows. */
  lemma {:induction false} AddAllAppends(s: Store, ts: seq<Task>)
    requires Published(s)
    ensures AddAll(s, ts).tasks == s.tasks + ts
    ensures Published(AddAll(s, ts))
    decreases |ts|
  {
    if |ts| > 0 {
      var s' := AddTask(s, ts[0]);
      assert s'.tasks == s.tasks + [ts[0]];
      AddAllAppends(s', ts[1..]);
      assert s.tasks + [ts[0]] + ts[1..] == s.tasks + ts;
    }
  }

  /** Starting from a new store, a run of `addTask` calls publishes exactly the added tasks in call order. */
  lemma AddAllFromNewPublishesInOrder(ts: seq<Task>)
    ensures AddAll(NewRepository(), ts).tasksFlow == ts
  {
    AddAllAppends(NewRepository(), ts);
  }

  /**
   Starting from a new store, after a run of `addTask` calls with distinct ids
   each added task is found by its id and every other id is absent.
   */
  lemma AddAllFromNew(ts: seq<Task>)
    requires UniqueIds(ts)
    ensures forall i :: 0 <= i < |ts| ==> GetTaskById(AddAll(NewRepository(), ts), ts[i].id) == Some(ts[i])
    ensures forall id :: !HasId(ts, id) ==> GetTaskById(AddAll(NewRepository(), ts), id) == None
  {
    AddAllAppends(NewRepository(), ts);
    var s := AddAll(NewRepository(), ts);
    assert s.tasks == ts;
    forall i | 0 <= i < |ts|
      ensures GetTaskById(s, ts[i].id) == Some(ts[i])
    {
      assert IsFirstWithId(ts, ts[i].id, i);
    }
  }

  /**
   The store seen as a map from id to task, built independently of the
   scans: the first task carrying an id wins.
   */
  function AsMap(ts: seq<Task>): map<Int32, Task>
    decreases |ts|
  {
    if |ts| == 0 then map[] else AsMap(ts[1..])[ts[0].id := ts[0]]
  }

  /** Lookup by id agrees with the map view of the store. */
  lemma {:induction false} LookupMatchesMap(ts: seq<Task>, id: Int32)
    ensures Find(ts, id) == if id in AsMap(ts) then Some(AsMap(ts)[id]) else None
    decreases |ts|
  {
    if |ts| > 0 && ts[0].id != id {
      LookupMatchesMap(ts[1..], id);
    }
  }
}
