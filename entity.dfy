/** The persisted task record (package `persist.entity`). */
module Entity {
  import opened Wrappers
  import opened Constants

  /** A calendar date without time of day; the service only copies and compares dates. */
  datatype Date = Date(epochDay: int)

  /** A point in time, written by the store, never by the service. */
  datatype Timestamp = Timestamp(millis: int)

  /**
   * One row of the task table. Every reference-typed column may be null
   * (`None`): the id before the first save, the title and description when
   * the caller passed null, and the timestamps until the store fills them in.
   */
  datatype TaskEntity = TaskEntity(
    id: Option<int>,
    title: Option<string>,
    description: Option<string>,
    status: TaskStatus,
    dueDate: Option<Date>,
    createdAt: Option<Timestamp>,
    updatedAt: Option<Timestamp>)

  /** The fields that the mapping to the external form dereferences are set. */
  predicate Mapped(e: TaskEntity) {
    e.dueDate.Some? && e.createdAt.Some? && e.updatedAt.Some?
  }

  /** `e` is a row as the store keeps it under key `k`. */
  predicate Stored(k: int, e: TaskEntity) {
    e.id == Some(k) && Mapped(e)
  }
}
