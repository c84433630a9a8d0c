/** The `Task` record produced by the action extractor (models/Task.kt). */
module Tasks {
  import opened Wrappers
  import opened Calendar

  /** One extracted unit: the trimmed fragment, its resolved date if any, and the key-point flag. */
  datatype Task = Task(description: string, dueDate: Option<Instant>, isKeyPoint: bool)
}
