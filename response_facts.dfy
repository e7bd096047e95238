/** What Fetch returns for a response written the way an HTTP/1.1 server writes it: a
    status line, field lines and a blank line, then the body. */
module ResponseFacts {
  import opened Common
  import opened Numbers
  import opened Fields
  import opened Chunked
  import opened Results
  import opened Response

  /** The status line "<version> <code> <reason>". */
  function StatusLineText(version: string, code: nat, reason: string): string
  {
    version + " " + DecimalText(code) + " " + reason
  }

  /** A response head and body: the status line, the lines of `block`, each ended by
      "\r\n", the blank line, and the body. */
  function ResponseText(status: string, block: seq<string>, body: string): string
  {
    status + "\r\n" + Lines(block) + "\r\n" + body
  }

  /** A line that holds no line-end characters. */
  predicate PlainLine(line: string)
  {
    '\r' !in line && '\n' !in line
  }

  // ---------------------------------------------------------------- status line

  /** A status line whose version has no space yields its code, whatever the reason
      phrase holds. */
  lemma StatusLineCode(version: string, code: nat, reason: string)
    requires ' ' !in version && code <= IntMax
    ensures StatusCode(StatusLineText(version, code, reason)) == Returned(Some(code))
  {
    var digits := DecimalText(code);
    var s := StatusLineText(version, code, reason);
    var f := |version|;
    var g := |version| + 1 + |digits|;
    assert s[f] == ' ' && s[g] == ' ';
    forall k | 0 <= k < f ensures s[k] != ' ' {
      assert s[k] == version[k];
    }
    forall k | f < k < g ensures s[k] != ' ' {
      assert s[k] == digits[k - f - 1];
    }
    CodeTextOfSpaces(s, |s|, f, g);
    assert s[..|s|] == s;
    assert s[f + 1..g] == digits;
    assert digits + [] == digits;
    StoiOfDecimalText(code, []);
  }

  /** A status line built from plain parts is plain. */
  lemma StatusLinePlain(version: string, code: nat, reason: string)
    requires PlainLine(version) && PlainLine(reason)
    ensures PlainLine(StatusLineText(version, code, reason))
    ensures |StatusLineText(version, code, reason)| > 0
  {
    var digits := DecimalText(code);
    var s := StatusLineText(version, code, reason);
    forall k | 0 <= k < |s| ensures s[k] != '\r' && s[k] != '\n' {
      if k < |version| {
        assert s[k] == version[k];
      } else if k == |version| {
      } else if k < |version| + 1 + |digits| {
        assert s[k] == digits[k - |version| - 1];
        assert IsDigit(digits[k - |version| - 1]);
      } else if k > |version| + 1 + |digits| {
        assert s[k] == reason[k - |version| - 2 - |digits|];
      }
    }
  }

  // ---------------------------------------------------------------- layout

  /** The delimiter of a response head is the blank line after the last line of its
      block. */
  lemma LayoutDelimiter(status: string, block: seq<string>, body: string)
    requires |status| > 0 && PlainLine(status)
    requires forall j :: 0 <= j < |block| ==> |block[j]| > 0 && '\r' !in block[j]
    ensures FindSub(ResponseText(status, block, body), "\r\n\r\n") == Some(|status| + |Lines(block)|)
  {
    HeadDelimiter(status, block, body, ResponseText(status, block, body));
  }

  lemma HeadDelimiter(status: string, block: seq<string>, body: string, whole: string)
    requires |status| > 0 && PlainLine(status)
    requires forall j :: 0 <= j < |block| ==> |block[j]| > 0 && '\r' !in block[j]
    requires whole == status + "\r\n" + Lines(block) + "\r\n" + body
    ensures FindSub(whole, "\r\n\r\n") == Some(|status| + |Lines(block)|)
  {
    HeadLines(status, block);
    DelimiterOfHead([status] + block, status + "\r\n" + Lines(block), body, whole);
  }

  /** The status line and the block are the lines of the head. */
  lemma HeadLines(status: string, block: seq<string>)
    requires |status| > 0 && PlainLine(status)
    requires forall j :: 0 <= j < |block| ==> |block[j]| > 0 && '\r' !in block[j]
    ensures Lines([status] + block) == status + "\r\n" + Lines(block)
    ensures forall j :: 0 <= j < |[status] + block| ==> |([status] + block)[j]| > 0 && '\r' !in ([status] + block)[j]
  {
    var lines := [status] + block;
    assert lines[0] == status && lines[1..] == block;
    forall j | 0 <= j < |lines| ensures |lines[j]| > 0 && '\r' !in lines[j] {
      if j > 0 {
        assert lines[j] == block[j - 1];
      }
    }
  }

  lemma DelimiterOfHead(lines: seq<string>, head: string, body: string, whole: string)
    requires |lines| > 0
    requires forall j :: 0 <= j < |lines| ==> |lines[j]| > 0 && '\r' !in lines[j]
    requires Lines(lines) == head && whole == head + "\r\n" + body
    ensures FindSub(whole, "\r\n\r\n") == Some(|head| - 2)
  {
    BlankLineIsFirstDelimiter(lines, body);
  }

  /** The status loop stops at the end of a plain status line. */
  lemma LayoutStatusEnd(status: string, block: seq<string>, body: string, d: nat)
    requires |status| > 0 && PlainLine(status) && d == |status| + |Lines(block)|
    requires DelimAt(ResponseText(status, block, body), d)
    ensures StatusEnd(ResponseText(status, block, body), d) == |status|
  {
    var s := ResponseText(status, block, body);
    var n := |status|;
    assert s[n] == '\r';
    forall k | 0 <= k < n ensures !StopsAt(s, k) {
      assert s[k] == status[k];
      if k + 1 < n {
        assert s[k + 1] == status[k + 1];
      }
    }
    StatusEndIs(s, d, n);
  }

  /** The parts of a response head: the status line, the field region the header loop
      reads, and the body after the blank line. */
  lemma LayoutParts(status: string, block: seq<string>, body: string, d: nat)
    requires d == |status| + |Lines(block)|
    ensures var s := ResponseText(status, block, body);
      d + 4 <= |s| && s[..|status|] == status && s[|status| + 2..d + 2] == Lines(block)
      && s[d..d + 4] == "\r\n\r\n" && s[d + 4..] == body
  {
    var s := ResponseText(status, block, body);
    var n := |status|;
    var head := status + "\r\n" + Lines(block);
    assert s == head + "\r\n" + body;
    assert s[..n] == status;
    assert s[n + 2..d + 2] == Lines(block);
    if |block| > 0 {
      LastLineEnds(block);
      assert s[d..d + 2] == Lines(block)[|Lines(block)| - 2..];
    } else {
      assert Lines(block) == "";
      assert s[d..d + 2] == "\r\n";
    }
    assert s[d + 2..d + 4] == "\r\n";
    assert s[d..d + 4] == s[d..d + 2] + s[d + 2..d + 4];
    assert s[d + 4..] == body;
  }

  /** Where Fetch finds the parts of a response head whose lines are plain. */
  lemma ResponseLayout(status: string, block: seq<string>, body: string, s: string, d: nat)
    requires |status| > 0 && PlainLine(status)
    requires forall j :: 0 <= j < |block| ==> |block[j]| > 0 && '\r' !in block[j]
    requires s == ResponseText(status, block, body) && d == |status| + |Lines(block)|
    ensures FindSub(s, "\r\n\r\n") == Some(d) && DelimAt(s, d)
    ensures StatusEnd(s, d) == |status| && s[..|status|] == status
    ensures s[|status| + 2..d + 2] == Lines(block) && FirstBody(s, d) == body
  {
    LayoutDelimiter(status, block, body);
    LayoutParts(status, block, body, d);
    LayoutStatusEnd(status, block, body, d);
  }

  // ---------------------------------------------------------------- round trips

  /** The text of a well-formed field has no '\r' and is not empty. */
  lemma FieldTextsPlain(fields: seq<Field>)
    requires forall j :: 0 <= j < |fields| ==> WellFormed(fields[j])
    ensures forall j :: 0 <= j < |FieldTexts(fields)| ==>
      |FieldTexts(fields)[j]| > 0 && '\r' !in FieldTexts(fields)[j]
  {
    forall j | 0 <= j < |FieldTexts(fields)|
      ensures |FieldTexts(fields)[j]| > 0 && '\r' !in FieldTexts(fields)[j]
    {
      var f := fields[j];
      var t := FieldText(f);
      assert WellFormed(f);
      forall k | 0 <= k < |t| ensures t[k] != '\r' {
        if k < |f.name| {
          assert t[k] == f.name[k];
        } else if k >= |f.name| + 2 {
          assert t[k] == f.value[k - |f.name| - 2];
        }
      }
    }
  }


  /** For a plain status line that gives `code` and a block of plain lines, Fetch's
      outcome is decided by reading the block's text as field lines: a value of
      negative length throws, a line without ':' is an HTTP error with the fields read
      before it, and otherwise the result is success with the code, the headers, and
      the body followed by the later reads, decoded when the headers declare it chunked. */
  lemma ResponseOfHead(status: string, block: seq<string>, body: string, later: seq<string>, code: Option<int>)
    requires |status| > 0 && PlainLine(status) && StatusCode(status) == Returned(code)
    requires forall j :: 0 <= j < |block| ==> |block[j]| > 0 && '\r' !in block[j]
    ensures ResponseSpec(ResponseText(status, block, body), later)
      == OutcomeOf(ParseFieldLines(Lines(block), map[]), code, body + Concat(UntilEof(later)))
  {
    var s := ResponseText(status, block, body);
    var d := |status| + |Lines(block)|;
    ResponseLayout(status, block, body, s, d);
    SpecOfParts(s, later, d, status, Lines(block), body, code);
  }

  /** Fetch's result from where it finds the parts of the first read. */
  lemma SpecOfParts(s: string, later: seq<string>, d: nat, status: string, lines: string, body: string, code: Option<int>)
    requires FindSub(s, "\r\n\r\n") == Some(d) && DelimAt(s, d)
    requires StatusEnd(s, d) == |status| && s[..|status|] == status
    requires s[|status| + 2..d + 2] == lines && FirstBody(s, d) == body
    requires StatusCode(status) == Returned(code)
    ensures ResponseSpec(s, later) == OutcomeOf(ParseFieldLines(lines, map[]), code, body + Concat(UntilEof(later)))
  {
    FieldsInIsParse(s, |status| + 2, d + 2, map[]);
    SpecAfterLayout(s, later, d, |status|, code);
  }

  lemma SpecAfterLayout(s: string, later: seq<string>, d: nat, e: nat, code: Option<int>)
    requires FindSub(s, "\r\n\r\n") == Some(d) && DelimAt(s, d) && e <= d && StatusEnd(s, d) == e
    requires StatusCode(s[..e]) == Returned(code)
    ensures ResponseSpec(s, later)
      == OutcomeOf(FieldsIn(s, e + 2, d + 2, map[]), code, FirstBody(s, d) + Concat(UntilEof(later)))
  {
  }

  /** Fetch reads back a response written from a status code, well-formed fields and a
      body: success, that code, the fields' map (a later field with the same name wins),
      and the body followed by the later reads up to the end of the stream, decoded
      when the fields declare the chunked coding. */
  lemma ResponseRoundTrip(version: string, code: nat, reason: string, fields: seq<Field>, body: string, later: seq<string>)
    requires ' ' !in version && PlainLine(version) && PlainLine(reason) && code <= IntMax
    requires forall j :: 0 <= j < |fields| ==> WellFormed(fields[j])
    ensures var headers := MapOf(fields, map[]);
      ResponseSpec(ResponseText(StatusLineText(version, code, reason), FieldTexts(fields), body), later)
      == Returned(FetchResult(Success, Some(code), headers, Decoded(headers, body + Concat(UntilEof(later)))))
  {
    StatusLinePlain(version, code, reason);
    StatusLineCode(version, code, reason);
    FieldTextsPlain(fields);
    FieldBlockRoundTrip(fields);
    ResponseOfHead(StatusLineText(version, code, reason), FieldTexts(fields), body, later, Some(code));
  }

  /** A chunked response written by the chunked coding of section 7.1 of RFC 9112 comes
      back as the data of its chunks. */
  lemma ChunkedResponseRoundTrip(version: string, code: nat, reason: string, fields: seq<Field>,
                                 body: string, later: seq<string>, parts: seq<string>, upper: bool)
    requires ' ' !in version && PlainLine(version) && PlainLine(reason) && code <= IntMax
    requires forall j :: 0 <= j < |fields| ==> WellFormed(fields[j])
    requires DeclaresChunked(MapOf(fields, map[]))
    requires forall j :: 0 <= j < |parts| ==> |parts[j]| <= SizeMax
    requires body + Concat(UntilEof(later)) == Encode(parts, upper)
    ensures ResponseSpec(ResponseText(StatusLineText(version, code, reason), FieldTexts(fields), body), later)
      == Returned(FetchResult(Success, Some(code), MapOf(fields, map[]), Concat(parts)))
  {
    ResponseRoundTrip(version, code, reason, fields, body, later);
    DechunkEncode(parts, upper);
  }

  /** A field line without ':' after well-formed fields ends the reading with an HTTP
      error that keeps the fields read before it. */
  lemma ResponseMissingColon(status: string, code: Option<int>, fields: seq<Field>, bad: string, body: string, later: seq<string>)
    requires |status| > 0 && PlainLine(status) && StatusCode(status) == Returned(code)
    requires forall j :: 0 <= j < |fields| ==> WellFormed(fields[j])
    requires |bad| > 0 && ':' !in bad && '\r' !in bad
    ensures ResponseSpec(ResponseText(status, FieldTexts(fields) + [bad], body), later)
      == Returned(FetchResult(HttpError, Some(ErrorCode), MapOf(fields, map[]), ""))
  {
    var block := FieldTexts(fields) + [bad];
    FieldTextsPlain(fields);
    forall j | 0 <= j < |block| ensures |block[j]| > 0 && '\r' !in block[j] {
      if j < |FieldTexts(fields)| {
        assert block[j] == FieldTexts(fields)[j];
      }
    }
    LinesAppend(FieldTexts(fields), bad);
    BadLineAfterBlock(fields, bad);
    ResponseOfHead(status, block, body, later, code);
  }

  /** Reading a block of well-formed fields followed by a line without ':'. */
  lemma BadLineAfterBlock(fields: seq<Field>, bad: string)
    requires forall j :: 0 <= j < |fields| ==> WellFormed(fields[j])
    requires ':' !in bad && '\r' !in bad
    ensures ParseFieldLines(FieldBlock(fields) + bad + "\r\n", map[]) == MissingColon(MapOf(fields, map[]))
  {
    var line := bad + "\r\n";
    assert FieldBlock(fields) + bad + "\r\n" == FieldBlock(fields) + line;
    ParseFieldBlock(fields, line, map[]);
    NoCrlfInside(bad, "\r\n");
    assert IsCrlfAt(line, |bad|);
    FindCrlfFirst(line, |bad|);
    assert line[..|bad|] == bad;
    FindFacts(bad, ':');
    ParseFieldLinesMissing(line, |bad|, MapOf(fields, map[]));
  }

  // ---------------------------------------------------------------- body start

  /** The index at which the source starts the body in the first read: three past
      where the header loop stops, which is d + 1 after field lines and two past the
      status line's stop `e` when there are none. */
  function BodyStartAsWritten(e: nat, d: nat): (r: nat)
    ensures r >= d + 4
    ensures e < d ==> r == d + 4
    ensures e == d ==> r == d + 5
  {
    Max(e + 2, d + 1) + 3
  }

  /** The body of the first read as the source takes it, with std::string's
      length_error when the length count - i - 3 is negative. */
  function FirstBodyAsWritten(first: string, e: nat, d: nat): (r: Outcome<string>)
    ensures r.Threw? ==> r.exception == LengthError
    ensures r.Returned? ==> d + 4 + |r.value| <= |first|
  {
    var b := BodyStartAsWritten(e, d);
    if b <= |first| then Returned(first[b..]) else Threw(LengthError)
  }

  /** With at least one field line the source's body start is right after the blank
      line. */
  lemma BodyStartWithFieldLines(first: string, e: nat, d: nat)
    requires DelimAt(first, d) && e < d
    ensures FirstBodyAsWritten(first, e, d) == Returned(FirstBody(first, d))
  {
  }

  /** With no field lines the source skips the body's first character, and an empty
      body makes it throw length_error, while the body after the blank line is `body`. */
  lemma NoFieldLinesDropsFirstByte(status: string, body: string)
    requires |status| > 0 && PlainLine(status)
    ensures var s := ResponseText(status, [], body);
      var d := |status|;
      FindSub(s, "\r\n\r\n") == Some(d) && DelimAt(s, d) && FirstBody(s, d) == body
      && FirstBodyAsWritten(s, StatusEnd(s, d), d) == if body == "" then Threw(LengthError) else Returned(body[1..])
  {
    var s := ResponseText(status, [], body);
    var d := |status|;
    ResponseLayout(status, [], body, s, d);
    assert |s| == d + 4 + |body|;
    if body != "" {
      assert s[d + 5..] == body[1..];
    }
  }

  /** The response "HTTP/1.1 200 OK\r\n\r\nhello" gives the body "ello" as the source computes it. */
  lemma HelloLosesItsFirstByte()
    ensures var s := ResponseText("HTTP/1.1 200 OK", [], "hello");
      FindSub(s, "\r\n\r\n") == Some(15) && DelimAt(s, 15) && FirstBody(s, 15) == "hello"
      && FirstBodyAsWritten(s, StatusEnd(s, 15), 15) == Returned("ello")
  {
    var status := "HTTP/1.1 200 OK";
    assert PlainLine(status);
    NoFieldLinesDropsFirstByte(status, "hello");
  }
}
