/** What a fetch reports: the closed set of result kinds, their names, and the
    result record (TResult) that Fetch fills in. */
module Results {
  import opened Common
  import opened Numbers

  datatype ResultType =
    | Success
    | ConnectionTimeout
    | SocketTimeout
    | SocketError
    | HostNotFound
    | ResolveError
    | WrongUrl
    | HttpError
    | InitializationError

  /** The name of a result kind, as GetUrl's exception reports it. The source's
      "Unknown" branch is for values outside the enumeration, which a Dafny datatype
      cannot hold. */
  function ResultTypeToStr(t: ResultType): (name: string)
    ensures name != "Unknown" && |name| >= 7
    ensures ResultTypeOfName(name) == Some(t)
  {
    match t
    case Success => "Success"
    case ConnectionTimeout => "ConnectionTimeout"
    case SocketTimeout => "SocketTimeout"
    case SocketError => "SocketError"
    case HostNotFound => "HostNotFound"
    case ResolveError => "ResolveError"
    case WrongUrl => "WrongUrl"
    case HttpError => "HttpError"
    case InitializationError => "InitializationError"
  }

  /** The result kind a name stands for: the inverse of ResultTypeToStr. */
  function ResultTypeOfName(name: string): Option<ResultType>
  {
    if name == "Success" then Some(Success)
    else if name == "ConnectionTimeout" then Some(ConnectionTimeout)
    else if name == "SocketTimeout" then Some(SocketTimeout)
    else if name == "SocketError" then Some(SocketError)
    else if name == "HostNotFound" then Some(HostNotFound)
    else if name == "ResolveError" then Some(ResolveError)
    else if name == "WrongUrl" then Some(WrongUrl)
    else if name == "HttpError" then Some(HttpError)
    else if name == "InitializationError" then Some(InitializationError)
    else None
  }

  /** Different result kinds have different names, so the message of GetUrl's
      exception identifies the kind. */
  lemma ResultTypeNamesDistinct(a: ResultType, b: ResultType)
    ensures ResultTypeToStr(a) == ResultTypeToStr(b) ==> a == b
  {
    assert ResultTypeOfName(ResultTypeToStr(a)) == Some(a);
    assert ResultTypeOfName(ResultTypeToStr(b)) == Some(b);
  }

  /** An int stored into the size_t field TResult::Code: taken modulo 2^64, so that a
      negative value wraps around. */
  function AsSizeT(v: int): (r: nat)
    ensures r <= SizeMax
    ensures 0 <= v <= SizeMax ==> r == v
    ensures v < 0 && 0 <= v + SizeModulus ==> r == v + SizeModulus
  {
    v % SizeModulus
  }

  /** The code Fetch stores for every failure: -1, which the size_t field holds as its
      largest value. */
  const ErrorCode: nat := AsSizeT(-1)

  lemma ErrorCodeIsSizeMax()
    ensures ErrorCode == SizeMax
  {
  }

  /** TResult. `code` is None while Fetch has not assigned it (the source leaves the
      field uninitialised then). ResolvedUrl is never assigned by Fetch and is omitted. */
  datatype FetchResult = FetchResult(
    kind: ResultType,
    code: Option<nat>,
    headers: map<string, string>,
    content: string)
}
