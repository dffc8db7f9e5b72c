/** The exceptions the modelled Python code can raise, and the result types that carry them. */
module Errors {

  /** The Python exception classes that the chore engine can raise. */
  datatype Error =
    | IndexError        // a list index out of range, or an empty list indexed or popped
    | ValueError        // list.index/list.remove of an absent value, int() or strptime of bad text
    | KeyError          // a dict lookup or deletion of an absent key
    | TypeError         // a call with the wrong number or kind of arguments
    | OverflowError     // a date or a time delta outside the range Python allows
    | UnboundLocalError // a for-loop variable read after a loop that never ran

  /** The value of a call that either returns or raises. */
  datatype Result<T> = Ok(value: T) | Err(error: Error)

  datatype Option<T> = None | Some(value: T)
}

/** What a store finds in its backing file when it is constructed. */
module Storage {

  /**
   * Missing: there is no file; Corrupt: the file holds text that is not valid JSON;
   * Saved: the records that the store last wrote.
   */
  datatype StoredFile<T> = Missing | Corrupt | Saved(content: T)
}
