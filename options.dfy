/** The optional result shared by the models: `None` stands for Python's `None`,
    JavaScript's `null`/`undefined` and the infinite sentinels the sources return
    when there is no answer. */
module Options {
  datatype Option<T> = None | Some(value: T)

  /** A call that either returns `value` or raises an exception (Python's
      `ZeroDivisionError` or `IndexError`). */
  datatype Outcome<T> = Normal(value: T) | Raised
}
