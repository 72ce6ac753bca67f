/** The values a task record holds, and the error kinds the core raises. */
module Records {

  datatype Option<T> = None | Some(value: T)

  /** The two exceptions the modelled code can raise: a dictionary lookup of an
      unknown duration label, and a comparison of a timestamp with text while sorting. */
  datatype Error = KeyError(key: string) | TypeError

  datatype Result<T> = Ok(value: T) | Err(error: Error)

  /** The "Entry Time" and "Deadlines" fields hold a datetime while the record was
      created in this run (microseconds since an epoch, datetime's resolution), and
      the text of a CSV cell once the record has been read back from the file. */
  datatype Value = Stamp(micros: int) | Text(text: string)

  /** One row of the task list: the five keys of the record dictionary. */
  datatype Task = Task(goal: string, duration: string, entryTime: Value, deadline: Value, status: string)
}
