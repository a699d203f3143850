/** Failure-compatible wrappers used for the converter's exceptions. */
module Wrappers {

  datatype Option<+T> = None | Some(value: T)

  /** A value or the error that aborted the computation. Usable with `:-`. */
  datatype Result<+R, +E> = Success(value: R) | Failure(error: E) {

    predicate IsFailure() {
      Failure?
    }

    function PropagateFailure<U>(): Result<U, E>
      requires Failure?
    {
      Failure(error)
    }

    function Extract(): R
      requires Success?
    {
      value
    }
  }

  /** The elements of an option, as a sequence of length zero or one. */
  function OptionToSeq<T>(o: Option<T>): (s: seq<T>)
    ensures o.None? ==> s == []
    ensures o.Some? ==> s == [o.value]
  {
    if o.Some? then [o.value] else []
  }
}

/** The exceptions the converter can raise; each one aborts the conversion. */
module Errors {

  datatype Error =
    | UnknownState(state: int, c: char)   // the final `raise` of `next_char`
    | MissingArgument(command: string)    // IndexError on `command_arguments[0]` or `[-1]`
    | NestedBlock(open: string)           // `\begin` while a block is already open
    | UnknownCitation(key: string)        // KeyError on `bibtex[key]`
    | MalformedUrl(url: string)           // IndexError on `url.split('/')[2]`
}
