# Task manager store: a Dafny model

This project models the logic core of a small Android task-manager app:

- the immutable `Task` record;
- the in-memory `TaskRepository`, which holds an ordered list of tasks and publishes a copy of it (`tasksFlow`) after every change;
- the `TaskViewModel` facade, which has a nullable single-task slot, `loadTask`, and the `saveTask` upsert.

The Kotlin classes mutate state. Here each class is a datatype holding the state, and each operation is a pure function from the old state to the new one:

- `Store(tasks, tasksFlow)` models the repository's `tasks` list and the value of its `_tasksFlow`.
- `ViewModel(task)` models the value of the view model's `_task` slot. The view model does not own a store. The app gives all its view models the one repository instance, so `LoadTask` and `SaveTask` take that shared `Store` as a parameter, and `SaveTask` returns its next state. Any view model that later reads the store sees the change.

A published snapshot is a Dafny sequence. Sequences are immutable values, so a snapshot a reader already holds cannot change when the store later mutates. This copy-on-publish isolation holds by construction and needs no lemma.

Kotlin's `indexOfFirst` and `find` are modelled as the recursive scans `IndexOfFirst` and `Find`. `AsMap` is a reference view of the store as a map from id to task, where the first task carrying an id wins. It is defined independently of the scans. `LookupMatchesMap` ties lookup to this view, and `SaveIsMapUpdate` proves that `saveTask(t)` is the map update `m[t.id := t]`.

Kotlin's `Int` id becomes the newtype `Int32`. Ids are only compared, so there is no arithmetic to wrap. Kotlin's `null` becomes `Option.None`.

## Model

| member | source | states |
|---|---|---|
| TaskModel.OmittedCompletionIsFalse | app/src/main/java/com/example/taskmanagerapp/model/Task.kt:12 | a task built without `isCompleted` is not completed, and equals the same task built with `false` |
| TaskModel.EqualityIsFieldwise | app/src/main/java/com/example/taskmanagerapp/model/Task.kt:7-13 | two tasks are equal exactly when all five fields are equal |
| TaskModel.AnyFieldsMakeATask | app/src/main/java/com/example/taskmanagerapp/model/Task.kt:8-12 | every combination of id, strings and flag makes a task that holds exactly those values (no validation) |
| TaskModel.CopyWithCompletionKeepsOtherFields | app/src/main/java/com/example/taskmanagerapp/model/Task.kt:8-12 | "changing" a task builds a new value that keeps every other field; it equals the original only if nothing changed |
| TaskRepository.IndexOfFirst | app/src/main/java/com/example/taskmanagerapp/repository/TaskRepository.kt:41 | the result is -1 exactly when no task has the id; otherwise it is the first position whose task has the id |
| TaskRepository.Find | app/src/main/java/com/example/taskmanagerapp/repository/TaskRepository.kt:54 | the result is null exactly when no task has the id; otherwise it is the task at the first matching position |
| TaskRepository.NewRepository | app/src/main/java/com/example/taskmanagerapp/repository/TaskRepository.kt:18-24 | a new store holds no task, and its published snapshot is the empty list |
| TaskRepository.AddTask | app/src/main/java/com/example/taskmanagerapp/repository/TaskRepository.kt:30-33 | the list grows by exactly one and ends with `t` (even when its id is already stored); earlier tasks are unchanged; the snapshot equals the list |
| TaskRepository.UpdateTask | app/src/main/java/com/example/taskmanagerapp/repository/TaskRepository.kt:40-46 | only the first task carrying `t.id` becomes `t`, and length and every other position are unchanged; the snapshot is republished when the id was found; when the id is absent, the list and snapshot stay as they were |
| TaskRepository.GetTaskById | app/src/main/java/com/example/taskmanagerapp/repository/TaskRepository.kt:53-55 | the result is null exactly when the id is absent; otherwise it is a stored task with that id, the first one |
| TaskRepository.LookupAndUpdateAgree | app/src/main/java/com/example/taskmanagerapp/repository/TaskRepository.kt:40-55 | lookup returns the task at the position that update would replace |
| TaskRepository.AddThenGet | app/src/main/java/com/example/taskmanagerapp/repository/TaskRepository.kt:30-55 | after adding `t` when its id was absent, looking up `t.id` yields `t` |
| TaskRepository.AddDuplicateIsShadowed | app/src/main/java/com/example/taskmanagerapp/repository/TaskRepository.kt:30-55 | when a duplicate id is added, lookup still returns the earlier task, and updating that id never reaches the added task |
| TaskRepository.AddKeepsOtherLookups | app/src/main/java/com/example/taskmanagerapp/repository/TaskRepository.kt:30-33 | adding a task does not change the lookup of any other id |
| TaskRepository.UpdateThenGet | app/src/main/java/com/example/taskmanagerapp/repository/TaskRepository.kt:40-55 | after updating `t` when its id is present, looking up `t.id` yields `t` |
| TaskRepository.UpdateKeepsOtherLookups | app/src/main/java/com/example/taskmanagerapp/repository/TaskRepository.kt:40-46 | an update does not change the lookup of any other id |
| TaskRepository.AddAllAppends | app/src/main/java/com/example/taskmanagerapp/repository/TaskRepository.kt:30-33 | a run of adds appends the tasks in call order and keeps the snapshot equal to the list |
| TaskRepository.AddAllFromNewPublishesInOrder | app/src/main/java/com/example/taskmanagerapp/repository/TaskRepository.kt:18-33 | from a new store, a run of adds publishes exactly the added tasks in call order, whatever their ids |
| TaskRepository.AddAllFromNew | app/src/main/java/com/example/taskmanagerapp/repository/TaskRepository.kt:18-55 | from a new store, after a run of adds with distinct ids, each added task is found by its id and every other id is absent |
| TaskRepository.LookupMatchesMap | app/src/main/java/com/example/taskmanagerapp/repository/TaskRepository.kt:53-55 | lookup agrees with the first-wins map view of the list |
| TaskViewModel.NewViewModel | app/src/main/java/com/example/taskmanagerapp/viewmodel/TaskViewModel.kt:16-20 | a new view model's task slot starts out null |
| TaskViewModel.LoadTask | app/src/main/java/com/example/taskmanagerapp/viewmodel/TaskViewModel.kt:22-25 | the slot becomes the first stored task with the id, or null when the id is absent; the store is only read |
| TaskViewModel.SaveTask | app/src/main/java/com/example/taskmanagerapp/viewmodel/TaskViewModel.kt:27-34 | an absent id appends `t`; a present id replaces the first match in place, so length is unchanged; the snapshot equals the list afterwards; the slot is not an input, so it is untouched |
| TaskViewModel.SaveThenGet | app/src/main/java/com/example/taskmanagerapp/viewmodel/TaskViewModel.kt:28-34 | after either branch of `saveTask(t)`, looking up `t.id` yields `t` |
| TaskViewModel.SaveKeepsOtherLookups | app/src/main/java/com/example/taskmanagerapp/viewmodel/TaskViewModel.kt:28-34 | `saveTask(t)` does not change the lookup of any other id |
| TaskViewModel.LoadAfterSave | app/src/main/java/com/example/taskmanagerapp/viewmodel/TaskViewModel.kt:22-34 | loading `t.id` after saving `t` puts `t` in the slot |
| TaskViewModel.SaveIsSeenByEveryViewModel | app/src/main/java/com/example/taskmanagerapp/viewmodel/TaskViewModel.kt:13-34 | the repository is shared: after one view model saves `t`, every view model that loads `t.id` gets `t`, and the observed list contains `t` |
| TaskViewModel.SaveIsMapUpdate | app/src/main/java/com/example/taskmanagerapp/viewmodel/TaskViewModel.kt:27-34 | in the id-to-task map view, `saveTask(t)` is exactly the update `m[t.id := t]` |
| TaskViewModel.SaveKeepsIdsUnique | app/src/main/java/com/example/taskmanagerapp/viewmodel/TaskViewModel.kt:28-34 | if ids are unique before `saveTask`, they are unique after it |
| TaskViewModel.SaveIsIdempotent | app/src/main/java/com/example/taskmanagerapp/viewmodel/TaskViewModel.kt:28-34 | saving the same task twice leaves the same state as saving it once |
| TaskViewModel.SaveAllKeepsIdsUnique | app/src/main/java/com/example/taskmanagerapp/viewmodel/TaskViewModel.kt:28-34 | any run of sequential saves keeps ids unique, and the snapshot equals the list |
| TaskViewModel.SaveAllFromNewKeepsIdsUnique | app/src/main/java/com/example/taskmanagerapp/viewmodel/TaskViewModel.kt:28-34 | starting from a new store, any run of saves leaves at most one task per id |
| TaskViewModel.EditScenario | app/src/main/java/com/example/taskmanagerapp/viewmodel/TaskViewModel.kt:22-34 | a concrete run: after add then edit of id 1, the snapshot holds only the edited task; id 2 is absent, and loading it puts null in the slot |

## Left out

- The Compose screens (`HomeScreen.kt`, `CreateTaskScreen.kt`, `EditTaskScreen.kt`) are declarative UI with no algorithmic content. The create and edit screens call `saveTask` and `loadTask`. The home screen collects the task list that `HomeViewModel` exposes. The edit screen keeps the task's id. The create screen draws a random id from `0..100000`. The model takes ids as parameters, so randomness is not modelled.
- `NavGraph.kt` and `MainActivity.kt` are route wiring and activity setup.
- `AppModule.kt` and the Hilt annotations are dependency injection. The app-wide singleton repository is modelled by threading one `Store` value through the operations. `SaveTask` returns the next store, and the caller passes it to every later `LoadTask` or `SaveTask`, whichever view model makes the call. The model has no object identity, so sharing holds only as far as callers do this threading.
- `HomeViewModel.kt` only re-exposes `tasksFlow`. Reading the `tasksFlow` field of a `Store` models it.
- StateFlow subscription, replay and coroutines are library behaviour. Each flow is modelled as a plain value field, holding the last value assigned to it.
- The race where two concurrent `saveTask` calls both add the same new id is not modelled. The app assumes one thread, and the model is sequential.
- The Gradle build files are configuration only.
