/** The two option-unwrapping helpers of the file-system layer. */
module CoupOptional {
  import opened Wrappers

  /** unwrap_or: the value held, or the fallback. */
  function UnwrapOr<T>(opt: Option<T>, fallback: T): (r: T)
    ensures opt.Some? ==> r == opt.value
    ensures opt.None? ==> r == fallback
  {
    match opt
    case Some(v) => v
    case None => fallback
  }

  /** unwrap_or_throw: the value held, or a runtime_error "No optional value". */
  function UnwrapOrThrow<T>(opt: Option<T>): (r: Result<T>)
    ensures opt.Some? ==> r == Ok(opt.value)
    ensures opt.None? ==> r == Err("No optional value")
  {
    match opt
    case Some(v) => Ok(v)
    case None => Err("No optional value")
  }

  /** Unwrapping with a fallback never fails and loses nothing that the
      throwing variant would have returned. */
  lemma UnwrapAgree<T>(opt: Option<T>, fallback: T)
    ensures UnwrapOrThrow(opt).Ok? <==> opt.Some?
    ensures UnwrapOrThrow(opt).Ok? ==> UnwrapOrThrow(opt).value == UnwrapOr(opt, fallback)
  {
  }
}
