/**
 * The GET handler of the mint-log endpoint.
 *
 * It reads an optional `limit` query parameter (absent means 0), fetches the
 * recently minted patents, keeps only the first `limit` of them when `limit`
 * is positive, and answers `{success: true, patents}`. If fetching fails, it
 * answers `{success: false, error}` with HTTP status 500, where `error` is the
 * thrown error's message, or a fixed text when what was thrown is not an
 * `Error`.
 */
module MintLogs {
  import opened Wrappers

  /** What the patent fetch threw: an `Error` carrying a message, or any other value. */
  datatype Thrown = ErrorObject(message: string) | OtherValue

  /** The handler's answer: the JSON body `{success, patents | error}` and its HTTP status. */
  datatype Response<T> = Listed(patents: seq<T>) | Failed(error: string, status: int)
  {
    /** The `success` field of the JSON body. */
    predicate Success()
    {
      Listed?
    }

    /** The HTTP status: the JSON helper's default 200 on success. */
    function Status(): int
    {
      match this
      case Listed(_) => OkStatus
      case Failed(_, status) => status
    }
  }

  const OkStatus := 200
  const ServerErrorStatus := 500
  const UnknownErrorMessage := "An unknown error occurred"

  function Min(a: int, b: int): int
  {
    if a <= b then a else b
  }

  /** The `limit` query parameter, 0 when it is absent. */
  function LimitOf(param: Option<int>): int
  {
    match param
    case None => 0
    case Some(n) => n
  }

  /**
   * `patents.slice(0, limit)` when `limit` is positive, the whole list otherwise.
   * A positive limit keeps the leading `min(limit, |patents|)` entries in order.
   */
  function Truncate<T>(patents: seq<T>, limit: int): (r: seq<T>)
    ensures limit > 0 ==> |r| == Min(limit, |patents|)
    ensures limit > 0 ==> forall i :: 0 <= i < |r| ==> r[i] == patents[i]
    ensures limit <= 0 ==> r == patents
  {
    if limit > 0 then patents[..Min(limit, |patents|)] else patents
  }

  /** The `error` field of a failure answer. */
  function ErrorMessage(thrown: Thrown): string
  {
    match thrown
    case ErrorObject(message) => message
    case OtherValue => UnknownErrorMessage
  }

  /**
   * The handler, given the `limit` parameter and the outcome of fetching the
   * recent patents: a success answer with a prefix of the fetched list, or a
   * 500 failure answer carrying the thrown error's message and no list.
   */
  function Get<T>(limitParam: Option<int>, fetched: Result<seq<T>, Thrown>): (resp: Response<T>)
    ensures resp.Success() <==> fetched.Ok?
    ensures fetched.Ok? ==> resp.Status() == OkStatus && resp.patents <= fetched.value
    ensures fetched.Ok? && LimitOf(limitParam) > 0 ==>
              |resp.patents| == Min(LimitOf(limitParam), |fetched.value|)
    ensures fetched.Ok? && LimitOf(limitParam) <= 0 ==> resp.patents == fetched.value
    ensures fetched.Err? ==> resp.Status() == ServerErrorStatus
    ensures fetched.Err?  && fetched.error.ErrorObject? ==> resp.error == fetched.error.message
    ensures fetched.Err?  && fetched.error.OtherValue? ==> resp.error == UnknownErrorMessage
  {
    match fetched
    case Ok(patents) => Listed(Truncate(patents, LimitOf(limitParam)))
    case Err(thrown) => Failed(ErrorMessage(thrown), ServerErrorStatus)
  }

  /** Without a `limit` parameter the whole fetched list is returned. */
  lemma AbsentLimitReturnsAll<T>(patents: seq<T>)
    ensures Get(None, Ok(patents)) == Listed(patents)
  {
  }

  /** The answer is the whole list exactly when the limit is non-positive or no smaller than the list. */
  lemma TruncateKeepsAll<T>(patents: seq<T>, limit: int)
    ensures Truncate(patents, limit) == patents <==> limit <= 0 || limit >= |patents|
  {
  }
}
