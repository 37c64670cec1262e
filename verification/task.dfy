/**
 The task record of the application: an immutable value with five fields.
 A Kotlin `data class` compares by its fields, which is what a Dafny datatype does.
 */
module TaskModel {

  /** Kotlin's `Int`: a signed 32-bit integer. Ids are only compared, never computed on. */
  newtype Int32 = x: int | -0x8000_0000 <= x < 0x8000_0000

  /**
   A task. `dueDate` is free text: nothing is parsed or validated, so every
   combination of field values is a task. `isCompleted` defaults to `false`.
   */
  datatype Task = Task(
    id: Int32,
    title: string,
    description: string,
    dueDate: string,
    isCompleted: bool := false
  )

  /** A task built without naming `isCompleted` (as the create screen does) is not completed. */
  lemma OmittedCompletionIsFalse(id: Int32, title: string, description: string, dueDate: string)
    ensures !Task(id, title, description, dueDate).isCompleted
    ensures Task(id, title, description, dueDate) == Task(id, title, description, dueDate, false)
  {
  }

  /** Two tasks are equal exactly when all five fields are equal. */
  lemma EqualityIsFieldwise(a: Task, b: Task)
    ensures a == b <==>
      && a.id == b.id
      && a.title == b.title
      && a.description == b.description
      && a.dueDate == b.dueDate
      && a.isCompleted == b.isCompleted
  {
  }

  /**
   Any strings are acceptable field values: the constructed task holds exactly
   the values it was given, unchanged.
   */
  lemma AnyFieldsMakeATask(id: Int32, title: string, description: string, dueDate: string, isCompleted: bool)
    ensures var t := Task(id, title, description, dueDate, isCompleted);
      && t.id == id
      && t.title == title
      && t.description == description
      && t.dueDate == dueDate
      && t.isCompleted == isCompleted
  {
  }

  /**
   "Changing" a task is building a new value: a copy with one field replaced
   leaves the original untouched and keeps every other field.
   */
  lemma CopyWithCompletionKeepsOtherFields(t: Task, done: bool)
    ensures var u := t.(isCompleted := done);
      && u.id == t.id
      && u.title == t.title
      && u.description == t.description
      && u.dueDate == t.dueDate
      && u.isCompleted == done
      && (u == t <==> t.isCompleted == done)
  {
  }
}
