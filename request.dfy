/** The request Fetch sends: the request line, a generated Host field unless the caller
    supplied one, every caller header field, and "Connection: close" followed by the
    blank line that ends the header block. */
module Request {
  import opened Common
  import opened Url
  import opened Fields

  /** The last field line and the blank line: the client always asks the server to
      close the connection after the response, so the body can be read until the end
      of the stream. */
  const ConnectionClose: string := "Connection: close\r\n\r\n"

  /** "GET <action> HTTP/1.1\r\n". */
  function RequestLine(addr: Addr): string
  {
    "GET " + addr.action + " HTTP/1.1\r\n"
  }

  /** `order` is an iteration order of the caller's header map: every key exactly once. */
  predicate EnumeratesKeys(order: seq<string>, headers: map<string, string>)
  {
    (forall k :: 0 <= k < |order| ==> order[k] in headers) &&
    (forall key :: key in headers ==> key in order) &&
    (forall j, k :: 0 <= j < k < |order| ==> order[j] != order[k])
  }

  /** The caller's fields, in iteration order. */
  function CallerFields(headers: map<string, string>, order: seq<string>): (r: seq<Field>)
    requires forall k :: 0 <= k < |order| ==> order[k] in headers
    ensures |r| == |order|
  {
    if order == [] then [] else [Field(order[0], headers[order[0]])] + CallerFields(headers, order[1..])
  }

  /** The caller's field at position `k` is the k-th visited key with its value. */
  lemma {:induction false} CallerFieldsAt(headers: map<string, string>, order: seq<string>)
    requires forall k :: 0 <= k < |order| ==> order[k] in headers
    ensures forall k :: 0 <= k < |order| ==> CallerFields(headers, order)[k] == Field(order[k], headers[order[k]])
  {
    if order != [] {
      CallerFieldsAt(headers, order[1..]);
      forall k | 0 <= k < |order| ensures CallerFields(headers, order)[k] == Field(order[k], headers[order[k]]) {
        if k > 0 {
          assert CallerFields(headers, order)[k] == CallerFields(headers, order[1..])[k - 1];
          assert order[1..][k - 1] == order[k];
        }
      }
    }
  }

  /** The generated Host field: present exactly when the caller's map has no "Host" key. */
  function HostFields(addr: Addr, headers: map<string, string>): seq<Field>
  {
    if "Host" in headers then [] else [Field("Host", addr.host)]
  }

  /** The fields of the request, in the order they are written. */
  function RequestFields(addr: Addr, headers: map<string, string>, order: seq<string>): seq<Field>
    requires forall k :: 0 <= k < |order| ==> order[k] in headers
  {
    HostFields(addr, headers) + CallerFields(headers, order)
  }

  /** The request text for `addr` and the caller's headers visited in `order`. */
  function RequestText(addr: Addr, headers: map<string, string>, order: seq<string>): (r: string)
    requires forall k :: 0 <= k < |order| ==> order[k] in headers
    ensures |RequestLine(addr)| + |ConnectionClose| <= |r|
    ensures r[..|RequestLine(addr)|] == RequestLine(addr)
    ensures r[|r| - |ConnectionClose|..] == ConnectionClose
  {
    RequestLine(addr) + FieldBlock(RequestFields(addr, headers, order)) + ConnectionClose
  }

  /** The request builder of Fetch: appends to `request` piece by piece, visiting the
      caller's header map in `order`. */
  method BuildRequest(addr: Addr, headers: map<string, string>, order: seq<string>) returns (request: string)
    requires EnumeratesKeys(order, headers)
    ensures request == RequestText(addr, headers, order)
  {
    request := "GET " + addr.action + " HTTP/1.1\r\n";
    if "Host" !in headers {
      request := request + "Host: " + addr.host + "\r\n";
    }
    HostBlock(addr, headers);
    assert order[..0] == [];
    var k := 0;
    while k < |order|
      invariant 0 <= k <= |order|
      invariant request == RequestLine(addr) + FieldBlock(HostFields(addr, headers) + CallerFields(headers, order[..k]))
    {
      AppendField(HostFields(addr, headers), headers, order, k);
      request := request + (order[k] + ": " + headers[order[k]] + "\r\n");
      k := k + 1;
    }
    assert order[..k] == order;
    request := request + "Connection: close\r\n\r\n";
  }

  /** The block of the generated Host field. */
  lemma {:induction false} HostBlock(addr: Addr, headers: map<string, string>)
    ensures FieldBlock(HostFields(addr, headers) + CallerFields(headers, []))
      == if "Host" in headers then "" else "Host: " + addr.host + "\r\n"
  {
    var fs := HostFields(addr, headers) + CallerFields(headers, []);
    assert fs == HostFields(addr, headers);
    if "Host" !in headers {
      assert FieldTexts(fs) == [FieldText(Field("Host", addr.host))];
      assert FieldText(Field("Host", addr.host)) == "Host: " + addr.host;
      assert Lines(FieldTexts(fs)) == FieldText(Field("Host", addr.host)) + "\r\n" + Lines([]);
    } else {
      assert FieldTexts(fs) == [];
    }
  }

  /** The field block grows by one line per visited key. */
  lemma {:induction false} AppendField(host: seq<Field>, headers: map<string, string>, order: seq<string>, k: nat)
    requires forall j :: 0 <= j < |order| ==> order[j] in headers
    requires k < |order|
    ensures FieldBlock(host + CallerFields(headers, order[..k + 1]))
      == FieldBlock(host + CallerFields(headers, order[..k])) + (order[k] + ": " + headers[order[k]] + "\r\n")
  {
    var before := host + CallerFields(headers, order[..k]);
    var f := Field(order[k], headers[order[k]]);
    CallerFieldsPrefix(headers, order, k);
    assert host + CallerFields(headers, order[..k + 1]) == before + [f];
    FieldBlockAppend(before, f);
  }

  /** One more key of the order adds its field at the end. */
  lemma CallerFieldsPrefix(headers: map<string, string>, order: seq<string>, k: nat)
    requires forall j :: 0 <= j < |order| ==> order[j] in headers
    requires k < |order|
    ensures CallerFields(headers, order[..k + 1])
      == CallerFields(headers, order[..k]) + [Field(order[k], headers[order[k]])]
  {
    var a := CallerFields(headers, order[..k + 1]);
    var b := CallerFields(headers, order[..k]) + [Field(order[k], headers[order[k]])];
    CallerFieldsAt(headers, order[..k + 1]);
    CallerFieldsAt(headers, order[..k]);
    assert |a| == |b|;
    forall j | 0 <= j < |a| ensures a[j] == b[j] {
      assert order[..k + 1][j] == order[j];
      if j < k {
        assert order[..k][j] == order[j];
      }
    }
  }

  /** The caller's fields store the caller's value for every visited key on top of
      `acc`, and leave every other key as `acc` has it. */
  lemma {:induction false} MapOfCallerFields(headers: map<string, string>, order: seq<string>, acc: map<string, string>)
    requires forall k :: 0 <= k < |order| ==> order[k] in headers
    ensures forall key :: key in order ==>
      key in MapOf(CallerFields(headers, order), acc) && MapOf(CallerFields(headers, order), acc)[key] == headers[key]
    ensures forall key :: key !in order ==> (key in MapOf(CallerFields(headers, order), acc) <==> key in acc)
    ensures forall key :: key !in order && key in acc ==> MapOf(CallerFields(headers, order), acc)[key] == acc[key]
  {
    if order != [] {
      var o := order[0];
      assert CallerFields(headers, order)[1..] == CallerFields(headers, order[1..]);
      MapOfCallerFields(headers, order[1..], acc[o := headers[o]]);
      forall key | key in order ensures key == o || key in order[1..] {
        var k :| 0 <= k < |order| && order[k] == key;
        if k > 0 { assert order[1..][k - 1] == key; }
      }
    }
  }

  /** Storing fields one list after another is storing their concatenation. */
  lemma {:induction false} MapOfConcat(a: seq<Field>, b: seq<Field>, acc: map<string, string>)
    ensures MapOf(a + b, acc) == MapOf(b, MapOf(a, acc))
  {
    if a != [] {
      assert (a + b)[1..] == a[1..] + b;
      MapOfConcat(a[1..], b, acc[a[0].name := a[0].value]);
    } else {
      assert a + b == b;
    }
  }

  /** The number of fields named `name`. */
  function CountNamed(fields: seq<Field>, name: string): nat
  {
    if fields == [] then 0
    else (if fields[0].name == name then 1 else 0) + CountNamed(fields[1..], name)
  }

  lemma {:induction false} CountCallerFields(headers: map<string, string>, order: seq<string>, name: string)
    requires forall k :: 0 <= k < |order| ==> order[k] in headers
    requires forall j, k :: 0 <= j < k < |order| ==> order[j] != order[k]
    ensures CountNamed(CallerFields(headers, order), name) == if name in order then 1 else 0
  {
    if order != [] {
      assert CallerFields(headers, order)[1..] == CallerFields(headers, order[1..]);
      CountCallerFields(headers, order[1..], name);
      if order[0] == name {
        forall k | 0 <= k < |order[1..]| ensures order[1..][k] != name {
          assert order[1..][k] == order[k + 1];
        }
      }
    }
  }

  lemma {:induction false} CountConcat(a: seq<Field>, b: seq<Field>, name: string)
    ensures CountNamed(a + b, name) == CountNamed(a, name) + CountNamed(b, name)
  {
    if a != [] {
      assert (a + b)[1..] == a[1..] + b;
      CountConcat(a[1..], b, name);
    } else {
      assert a + b == b;
    }
  }

  /** A request carries exactly one Host field: the generated one when the caller gave
      none, otherwise the caller's own. */
  lemma {:induction false} ExactlyOneHostField(addr: Addr, headers: map<string, string>, order: seq<string>)
    requires EnumeratesKeys(order, headers)
    ensures CountNamed(RequestFields(addr, headers, order), "Host") == 1
  {
    CountConcat(HostFields(addr, headers), CallerFields(headers, order), "Host");
    CountCallerFields(headers, order, "Host");
    if "Host" !in headers {
      assert CountNamed(HostFields(addr, headers), "Host") == 1;
    }
  }

  /** Every field of the caller's map is written as its own "name: value\r\n" line. */
  lemma {:induction false} CallerFieldWritten(addr: Addr, headers: map<string, string>, order: seq<string>, key: string)
    returns (at: nat)
    requires EnumeratesKeys(order, headers)
    requires key in headers
    ensures OccursAt(RequestText(addr, headers, order), key + ": " + headers[key] + "\r\n", at)
  {
    var fs := RequestFields(addr, headers, order);
    var j := CallerFieldIndex(addr, headers, order, key);
    CallerLineText(key, headers[key]);
    at := FieldLineWritten(RequestLine(addr), fs, ConnectionClose, j,
      RequestText(addr, headers, order), key + ": " + headers[key] + "\r\n");
  }

  /** The line of field `j` occurs in a text made of a block of fields between `pre`
      and `post`. */
  lemma {:induction false} FieldLineWritten(pre: string, fs: seq<Field>, post: string, j: nat, whole: string, line: string)
    returns (at: nat)
    requires j < |fs| && whole == pre + FieldBlock(fs) + post && line == FieldText(fs[j]) + "\r\n"
    ensures OccursAt(whole, line, at)
  {
    var p := FieldLineInBlock(fs, j);
    OccursInMiddle(pre, FieldBlock(fs), post, line, p);
    at := |pre| + p;
  }

  /** Where the caller's field for `key` sits among the request's fields. */
  lemma {:induction false} CallerFieldIndex(addr: Addr, headers: map<string, string>, order: seq<string>, key: string)
    returns (j: nat)
    requires EnumeratesKeys(order, headers)
    requires key in headers
    ensures j < |RequestFields(addr, headers, order)|
    ensures RequestFields(addr, headers, order)[j] == Field(key, headers[key])
  {
    var k :| 0 <= k < |order| && order[k] == key;
    CallerFieldsAt(headers, order);
    j := |HostFields(addr, headers)| + k;
  }

  lemma {:induction false} CallerLineText(name: string, value: string)
    ensures FieldText(Field(name, value)) + "\r\n" == name + ": " + value + "\r\n"
  {
  }

  lemma {:induction false} OccursInMiddle(a: string, b: string, c: string, x: string, p: nat)
    requires OccursAt(b, x, p)
    ensures OccursAt(a + b + c, x, |a| + p)
  {
    OccursAfter(a, b, x, p);
    OccursBefore(a + b, c, x, |a| + p);
  }

  /** Field `j` is a line of the block. */
  lemma {:induction false} FieldLineInBlock(fs: seq<Field>, j: nat) returns (p: nat)
    requires j < |fs|
    ensures OccursAt(FieldBlock(fs), FieldText(fs[j]) + "\r\n", p)
  {
    LineInLines(FieldTexts(fs), j);
    p := |Lines(FieldTexts(fs)[..j])|;
  }

  /** The header fields a server reads from the request: the caller's map, the
      generated Host unless the caller gave one, and "Connection: close" last. */
  lemma {:induction false} RequestAsServerReadsIt(addr: Addr, headers: map<string, string>, order: seq<string>)
    requires EnumeratesKeys(order, headers)
    requires '\r' !in addr.host
    requires forall key :: key in headers ==> ':' !in key && '\r' !in key && '\r' !in headers[key]
    ensures var all := RequestFields(addr, headers, order) + [Field("Connection", "close")];
      RequestText(addr, headers, order) == RequestLine(addr) + FieldBlock(all) + "\r\n" &&
      ParseFieldLines(FieldBlock(all), map[])
        == Fields((map["Host" := addr.host] + headers)["Connection" := "close"])
  {
    var fs := RequestFields(addr, headers, order);
    var all := fs + [Field("Connection", "close")];
    RequestTextWithClose(addr, headers, order);
    RequestFieldsWellFormed(addr, headers, order);
    FieldBlockRoundTrip(all);
    RequestFieldMap(addr, headers, order);
  }

  /** "Connection: close" is the last field line, and the blank line ends the block. */
  lemma {:induction false} RequestTextWithClose(addr: Addr, headers: map<string, string>, order: seq<string>)
    requires forall k :: 0 <= k < |order| ==> order[k] in headers
    ensures RequestText(addr, headers, order)
      == RequestLine(addr) + FieldBlock(RequestFields(addr, headers, order) + [Field("Connection", "close")]) + "\r\n"
  {
    var fs := RequestFields(addr, headers, order);
    BlockWithClose(fs);
    assert RequestText(addr, headers, order) == RequestLine(addr) + (FieldBlock(fs) + ConnectionClose);
  }

  lemma {:induction false} BlockWithClose(fs: seq<Field>)
    ensures FieldBlock(fs) + ConnectionClose == FieldBlock(fs + [Field("Connection", "close")]) + "\r\n"
  {
    var close := Field("Connection", "close");
    assert FieldTexts(fs + [close]) == FieldTexts(fs) + [FieldText(close)];
    LinesAppend(FieldTexts(fs), FieldText(close));
    CloseLineText();
  }

  lemma {:induction false} CloseLineText()
    ensures FieldText(Field("Connection", "close")) + "\r\n" + "\r\n" == ConnectionClose
  {
  }

  lemma {:induction false} RequestFieldsWellFormed(addr: Addr, headers: map<string, string>, order: seq<string>)
    requires forall k :: 0 <= k < |order| ==> order[k] in headers
    requires '\r' !in addr.host
    requires forall key :: key in headers ==> ':' !in key && '\r' !in key && '\r' !in headers[key]
    ensures var all := RequestFields(addr, headers, order) + [Field("Connection", "close")];
      forall j :: 0 <= j < |all| ==> WellFormed(all[j])
  {
    var fs := RequestFields(addr, headers, order);
    var all := fs + [Field("Connection", "close")];
    var h := |HostFields(addr, headers)|;
    CallerFieldsAt(headers, order);
    forall j | 0 <= j < |all| ensures WellFormed(all[j]) {
      if j < h {
        assert all[j] == Field("Host", addr.host);
      } else if j < |fs| {
        assert all[j] == CallerFields(headers, order)[j - h];
      }
    }
  }

  /** The map the request's fields write. */
  lemma {:induction false} RequestFieldMap(addr: Addr, headers: map<string, string>, order: seq<string>)
    requires EnumeratesKeys(order, headers)
    ensures MapOf(RequestFields(addr, headers, order) + [Field("Connection", "close")], map[])
      == (map["Host" := addr.host] + headers)["Connection" := "close"]
  {
    var fs := RequestFields(addr, headers, order);
    var hostMap := MapOf(HostFields(addr, headers), map[]);
    MapOfAppend(fs, Field("Connection", "close"), map[]);
    MapOfConcat(HostFields(addr, headers), CallerFields(headers, order), map[]);
    MapOfCallerFields(headers, order, hostMap);
    var m := MapOf(CallerFields(headers, order), hostMap);
    assert hostMap == if "Host" in headers then map[] else map["Host" := addr.host];
    assert m == map["Host" := addr.host] + headers;
  }
}
