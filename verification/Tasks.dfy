/** Task states and the guarded transitions of kernel/scheduler/scheduler.h. */
module Tasks {
  datatype TaskState = Ready | Running | Blocked | Dead

  /** task_set_ready */
  function SetReady(s: TaskState): TaskState { if s == Blocked then Ready else s }

  /** task_set_blocked */
  function SetBlocked(s: TaskState): TaskState { if s != Dead then Blocked else s }
}
