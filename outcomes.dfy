/**
 * Optional values and the exceptions of the Python scraper, as values.
 * Every Python exception the core raises or catches becomes an `Err` of `Result`.
 */
module Outcomes {

  /** A value that may be absent (Python's `None`, or a dictionary key that is not present). */
  datatype Option<T> = None | Some(value: T)

  /** The Python exceptions that the modelled code raises or catches. */
  datatype PyError =
    | KeyError(key: string)   // a dictionary lookup of a missing key
    | TypeError               // unpacking `None` into two names
    | IndexError              // indexing past the end of a list
    | ValueError              // `csv.DictWriter.writerow` given a key that is not a column
    | StopIteration           // `next` on an exhausted result stream
    | ConnectionError         // raised by `scrapeGS` after the last failed attempt
    | ServiceError            // any failure inside a call to an upstream service

  /** A computation that either yields a value or raises a `PyError`; usable with `:-`. */
  datatype Result<T> = Ok(value: T) | Err(error: PyError) {
    predicate IsFailure() {
      Err?
    }

    function PropagateFailure<U>(): Result<U>
      requires Err?
    {
      Err(error)
    }

    function Extract(): T
      requires Ok?
    {
      value
    }
  }
}
