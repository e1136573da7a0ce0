/** Python's `None`-or-value, used wherever the program reads an optional
    request field or returns a tuple whose parts may be `None`. */
module Base {

  datatype Option<+T> = None | Some(value: T) {

    /** The value, or `default` when there is none. */
    function GetOr(default: T): T
    {
      match this
      case Some(v) => v
      case None => default
    }
  }

  /** `bool(x)` for an optional string. */
  predicate Truthy(x: Option<string>)
  {
    x.Some? && x.value != ""
  }

  /** `f"{x}"` (equally `str(x)`) for an optional string. */
  function Show(x: Option<string>): string
  {
    x.GetOr("None")
  }

  /** An exception raised by a call the program makes to a service it does
      not control. PyGithub raises `GithubException`, which carries the HTTP
      status of the failed request; everything else (a network error, a
      missing key in a reply, a file that cannot be read) is some other
      exception. `text` is the exception's `str(e)`. */
  datatype Failure = GithubError(status: int, text: string) | OtherError(text: string)

  /** The outcome of one such call: the value it returned, or the exception
      it raised. */
  datatype Reply<+T> = Ok(value: T) | Raised(error: Failure)
}
