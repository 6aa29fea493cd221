/** Datatypes shared by every module of the model. */
module Base {

  /** Python's `None` versus a present value. */
  datatype Option<+T> = None | Some(value: T)

  /** The Python exceptions the modelled code can raise on its own. */
  datatype PyError =
    | IndexError      // an index past the end of a list
    | TypeError       // `None + str`
    | AttributeError  // a method called on `None`
    | ValueError      // `str.index` or `list.index` with the item absent
    | RuntimeError    // raised by the plugin itself when a subprocess fails

  /** A value, or the exception raised instead of returning one. */
  datatype Outcome<T> = Ok(value: T) | Raise(error: PyError)

  /** A completion offered to the editor: the `trigger` shown in the list (its label) and
      the `insertText` typed in, whose `${n:text}` markers are the editor's numbered
      placeholders. The plugin builds these as two-element lists `[trigger, result]`. */
  datatype Completion = Completion(trigger: string, insertText: string)
}
