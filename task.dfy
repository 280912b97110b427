/** The task record shared by the store and the shell (`struct Task` in src/main.rs). */
module Tasks {

  /** A named unit of work; `status` is true once the task is complete. */
  datatype Task = Task(name: string, status: bool)

  /** `Task::new`: a freshly created task carries the given name and is still open. */
  function NewTask(name: string): (t: Task)
    ensures t.name == name && !t.status
  {
    Task(name, false)
  }
}
