/** URL decomposition (ParseUrl): a URL becomes the host to resolve, the TCP port and
    the request target ("action") that goes on the request line. */
module Url {
  import opened Common
  import opened Numbers

  /** unsigned short: the type of TAddr::Port. */
  type Port = p: int | 0 <= p < 0x1_0000

  const Scheme: string := "http://"
  const DefaultPort: Port := 80

  /** TAddr. Its Protocol member is never assigned by ParseUrl and is omitted. */
  datatype Addr = Addr(host: string, port: Port, action: string)

  /** The URL without its scheme: "http://" is removed only where url.find finds it at
      position 0, that is, only when the URL starts with it. */
  function Remainder(url: string): (rest: string)
    ensures |url| >= 7 && url[..7] == Scheme ==> rest == url[7..]
    ensures !(|url| >= 7 && url[..7] == Scheme) ==> rest == url
  {
    if FindSub(url, Scheme) == Some(0) then url[|Scheme|..] else url
  }

  /** `action` is the part of `rest` that starts at its first '/'. */
  predicate SuffixFromFirstSlash(rest: string, action: string)
  {
    |action| <= |rest| && action == rest[|rest| - |action|..] && '/' !in rest[..|rest| - |action|]
  }

  /** ParseUrl. Without a '/' the whole remainder is the host, on port 80, and the action
      is "/". Otherwise the action is everything from the first '/', and the text before
      it is split at its first ':' into host and a port read by std::stoi and truncated to
      unsigned short; a port that std::stoi rejects raises its exception. */
  function ParseUrl(url: string): (r: Outcome<Addr>)
    ensures r.Returned? ==> |r.value.action| > 0 && r.value.action[0] == '/'
    ensures r.Returned? ==> r.value.action == "/" || SuffixFromFirstSlash(Remainder(url), r.value.action)
    ensures r.Threw? ==> r.exception != LengthError && '/' in Remainder(url)
  {
    var rest := Remainder(url);
    FindFacts(rest, '/');
    match Find(rest, '/')
    case None => Returned(Addr(rest, DefaultPort, "/"))
    case Some(slash) =>
      var hostPort := rest[..slash];
      var action := rest[slash..];
      match Find(hostPort, ':')
      case None => Returned(Addr(hostPort, DefaultPort, action))
      case Some(colon) =>
        match Stoi(hostPort[colon + 1..])
        case Threw(e) => Threw(e)
        case Returned(v) => Returned(Addr(hostPort[..colon], v % 0x1_0000, action))
  }

  /** With no '/' after the scheme, the host is the whole remainder (a ':' in it is kept),
      the port is 80 and the action is "/". */
  lemma {:induction false} ParseUrlWithoutPath(url: string)
    requires '/' !in Remainder(url)
    ensures ParseUrl(url) == Returned(Addr(Remainder(url), DefaultPort, "/"))
  {
  }

  /** With a path and no ':' before it, the host is the text before the first '/', the
      port is 80, and host followed by action gives back the remainder. */
  lemma {:induction false} ParseUrlWithoutPort(url: string, host: string, path: string)
    requires Remainder(url) == host + path
    requires '/' !in host && ':' !in host
    requires |path| > 0 && path[0] == '/'
    ensures ParseUrl(url) == Returned(Addr(host, DefaultPort, path))
  {
    var rest := Remainder(url);
    assert rest[|host|] == '/';
    assert rest[..|host|] == host;
    FindFirst(rest, '/', |host|);
    assert rest[|host|..] == path;
  }

  /** With a path and a ':' before it, the host is the text before the ':' and the port
      is what std::stoi makes of the text between the ':' and the '/', modulo 2^16. */
  lemma {:induction false} ParseUrlWithPort(url: string, host: string, portText: string, path: string)
    requires Remainder(url) == host + ":" + portText + path
    requires '/' !in host && ':' !in host && '/' !in portText
    requires |path| > 0 && path[0] == '/'
    ensures ParseUrl(url) == match Stoi(portText)
      case Threw(e) => Threw(e)
      case Returned(v) => Returned(Addr(host, v % 0x1_0000, path))
  {
    var rest := Remainder(url);
    var hostPort := host + ":" + portText;
    assert rest == hostPort + path;
    NoSlashInHostPort(host, portText);
    var slash := |hostPort|;
    assert rest[slash] == '/';
    FindFirst(rest, '/', slash);
    assert rest[..slash] == hostPort;
    assert rest[slash..] == path;
    assert hostPort[|host|] == ':';
    FindFirst(hostPort, ':', |host|);
    assert hostPort[..|host|] == host;
    assert hostPort[|host| + 1..] == portText;
  }

  lemma {:induction false} NoSlashInHostPort(host: string, portText: string)
    requires '/' !in host && '/' !in portText
    ensures '/' !in host + ":" + portText
  {
    var hostPort := host + ":" + portText;
    forall k | 0 <= k < |hostPort| ensures hostPort[k] != '/' {
      if k < |host| { assert hostPort[k] == host[k]; }
      else if k > |host| { assert hostPort[k] == portText[k - |host| - 1]; }
    }
  }

  /** The URL a caller writes for an address: scheme, host, ":" and the decimal port,
      then the path. */
  function UrlText(a: Addr): string
  {
    Scheme + a.host + ":" + DecimalText(a.port) + a.action
  }

  /** ParseUrl gives back every address whose host has no '/' or ':' and whose action
      starts with '/'. */
  lemma {:induction false} ParseUrlOfUrlText(a: Addr)
    requires '/' !in a.host && ':' !in a.host
    requires |a.action| > 0 && a.action[0] == '/'
    ensures ParseUrl(UrlText(a)) == Returned(a)
  {
    var portText := DecimalText(a.port);
    RemainderOfUrlText(a);
    StoiOfDecimalText(a.port, []);
    assert portText + [] == portText;
    ParseUrlWithPort(UrlText(a), a.host, portText, a.action);
    assert a.port % 0x1_0000 == a.port;
  }

  lemma {:induction false} RemainderOfUrlText(a: Addr)
    ensures Remainder(UrlText(a)) == a.host + ":" + DecimalText(a.port) + a.action
    ensures '/' !in DecimalText(a.port)
  {
    var portText := DecimalText(a.port);
    var url := UrlText(a);
    assert url == Scheme + (a.host + ":" + portText + a.action);
    assert url[..7] == Scheme;
    assert url[7..] == a.host + ":" + portText + a.action;
    forall k | 0 <= k < |portText| ensures portText[k] != '/' {
      assert IsDigit(portText[k]);
    }
  }
}
