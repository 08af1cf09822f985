/** The external task representation returned by the service (package `model`). */
module Model {
  import opened Wrappers
  import opened Constants
  import opened Entity

  /**
   * The wire-facing task. The due date and the timestamps are kept as the
   * abstract values of the record; their text and calendar conversions are
   * library code and not modelled.
   */
  datatype Task = Task(
    id: Option<int>,
    title: Option<string>,
    description: Option<string>,
    status: TaskStatus,
    dueDate: Date,
    createdAt: Timestamp,
    updatedAt: Timestamp)
}
