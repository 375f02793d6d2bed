/** A delivery job (`Task.java`). */
module Tasks {
  /** The constructor takes `(task, start_x, start_y, end_x, end_y)` and stores
      each argument in the field of the same name. */
  datatype Task = Task(task: string, startX: int, startY: int, endX: int, endY: int)
}
