/** Fetch: parse the URL, resolve the host, connect, send the request and read the
    response. The network is a parameter: a `Peer` says how each call that Fetch makes
    into the socket layer comes out, and what the server's reads deliver. */
module Fetcher {
  import opened Common
  import opened Numbers
  import opened Results
  import opened Url
  import opened Fields
  import opened Request
  import opened Response
  import opened ResponseFacts

  /** How the host lookup ends: an address, a failure whose error is HOST_NOT_FOUND,
      or any other failure. */
  datatype Resolution = Resolved | HostUnknown | ResolveFailed

  /** The network during one fetch: the lookup, whether connect and send succeed, and
      the data of the first read and of the reads after it. */
  datatype Peer = Peer(resolution: Resolution, connects: bool, sends: bool, first: string, later: seq<string>)

  /** What Fetch returns, together with the request it hands to send, if it gets that
      far. */
  datatype Exchange = Exchange(result: Outcome<FetchResult>, sent: Option<string>)

  /** A result that reports only its kind: the code is -1 stored in a size_t. */
  function Failure(kind: ResultType): (r: FetchResult)
    ensures r.kind == kind && r.code == Some(SizeMax) && r.headers == map[] && r.content == ""
  {
    ErrorCodeIsSizeMax();
    FetchResult(kind, Some(ErrorCode), map[], "")
  }

  /** Fetch once the URL is parsed: the lookup, connect, send of `request`, and the
      reading of the answer. */
  function Connected(request: string, peer: Peer): (x: Exchange)
    // the request goes out exactly when the lookup and connect succeed
    ensures x.sent.Some? <==> peer.resolution == Resolved && peer.connects
    ensures x.sent.Some? ==> x.sent.value == request
    // every result other than Success carries the code SIZE_MAX and no content
    ensures x.result.Returned? && x.result.value.kind != Success ==>
      x.result.value.code == Some(SizeMax) && x.result.value.content == ""
    // the answer is read only after a successful send
    ensures x.result.Returned? && x.result.value.kind == Success ==> x.sent.Some? && peer.sends
  {
    ErrorCodeIsSizeMax();
    match peer.resolution
    case HostUnknown => Exchange(Returned(Failure(HostNotFound)), None)
    case ResolveFailed => Exchange(Returned(Failure(ResolveError)), None)
    case Resolved =>
      if !peer.connects then Exchange(Returned(Failure(ConnectionTimeout)), None)
      else if !peer.sends then Exchange(Returned(Failure(SocketError)), Some(request))
      else Exchange(ResponseSpec(peer.first, peer.later), Some(request))
  }

  /** The whole of Fetch: an exception of the URL parser propagates out of it, and a
      parsed URL goes on with the request built from it. */
  function FetchSpec(url: string, headers: map<string, string>, order: seq<string>, peer: Peer): (x: Exchange)
    requires EnumeratesKeys(order, headers)
    ensures ParseUrl(url).Threw? ==> x == Exchange(Threw(ParseUrl(url).exception), None)
    ensures ParseUrl(url).Returned? ==> x == Connected(RequestText(ParseUrl(url).value, headers, order), peer)
  {
    match ParseUrl(url)
    case Threw(e) => Exchange(Threw(e), None)
    case Returned(addr) => Connected(RequestText(addr, headers, order), peer)
  }

  /** Fetch as the client runs it, against the network `peer`. */
  method Fetch(url: string, headers: map<string, string>, order: seq<string>, peer: Peer)
    returns (r: Outcome<FetchResult>, sent: Option<string>)
    requires EnumeratesKeys(order, headers)
    ensures Exchange(r, sent) == FetchSpec(url, headers, order, peer)
  {
    sent := None;
    var parsed := ParseUrl(url);
    if parsed.Threw? {
      r := Threw(parsed.exception);
      return;
    }
    var addr := parsed.value;
    if peer.resolution != Resolved {
      var kind := if peer.resolution == HostUnknown then HostNotFound else ResolveError;
      r := Returned(Failure(kind));
      return;
    }
    if !peer.connects {
      r := Returned(Failure(ConnectionTimeout));
      return;
    }
    var request := BuildRequest(addr, headers, order);
    sent := Some(request);
    if !peer.sends {
      r := Returned(Failure(SocketError));
      return;
    }
    r := ReadResponse(peer.first, peer.later);
  }

  /** End to end: fetching the URL of `a` from a server that answers with a well-formed
      head sends the request for `a` and returns the server's code, its header map and
      its body followed by everything read after the first read. */
  lemma FetchRoundTrip(a: Addr, headers: map<string, string>, order: seq<string>,
                       version: string, code: nat, reason: string, fields: seq<Field>, body: string, later: seq<string>)
    requires EnumeratesKeys(order, headers)
    requires '/' !in a.host && ':' !in a.host && |a.action| > 0 && a.action[0] == '/'
    requires ' ' !in version && PlainLine(version) && PlainLine(reason) && code <= IntMax
    requires forall j :: 0 <= j < |fields| ==> WellFormed(fields[j])
    ensures var first := ResponseText(StatusLineText(version, code, reason), FieldTexts(fields), body);
      var received := MapOf(fields, map[]);
      FetchSpec(UrlText(a), headers, order, Peer(Resolved, true, true, first, later))
      == Exchange(Returned(FetchResult(Success, Some(code), received, Decoded(received, body + Concat(UntilEof(later))))),
                  Some(RequestText(a, headers, order)))
  {
    ParseUrlOfUrlText(a);
    ResponseRoundTrip(version, code, reason, fields, body, later);
  }
}
