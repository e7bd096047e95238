/** How Fetch reads the server's answer: the search for the blank line that ends the
    header, the status line, the header field lines, the body held by the first read and
    the reads after it, and the switch to the chunked decoder. */
module Response {
  import opened Common
  import opened Numbers
  import opened Fields
  import opened Chunked
  import opened Results

  function Max(a: nat, b: nat): (m: nat)
    ensures m >= a && m >= b && (m == a || m == b)
  {
    if a >= b then a else b
  }

  /** The header delimiter "\r\n\r\n" starts at `d`. */
  predicate DelimAt(s: string, d: nat)
  {
    d + 4 <= |s| && s[d] == '\r' && s[d + 1] == '\n' && s[d + 2] == '\r' && s[d + 3] == '\n'
  }

  lemma DelimFound(s: string, d: nat)
    requires FindSub(s, "\r\n\r\n") == Some(d)
    ensures DelimAt(s, d)
  {
    var w := s[d..d + 4];
    assert w == "\r\n\r\n";
    assert s[d] == w[0] && s[d + 1] == w[1] && s[d + 2] == w[2] && s[d + 3] == w[3];
  }

  // ---------------------------------------------------------------- status line

  /** The status loop stops at `k`: s[k] == '\r' or s[k + 1] == '\n' (it goes on only
      while neither holds). */
  predicate StopsAt(s: string, k: nat)
    requires k + 1 < |s|
  {
    s[k] == '\r' || s[k + 1] == '\n'
  }

  /** Where the status loop stops: the first such position. The delimiter at `d`
      bounds it. */
  function StatusEnd(s: string, d: nat): (e: nat)
    requires DelimAt(s, d)
    ensures e <= d && StopsAt(s, e)
  {
    StatusEndFrom(s, d, 0)
  }

  function StatusEndFrom(s: string, d: nat, i: nat): (e: nat)
    requires DelimAt(s, d) && i <= d
    ensures i <= e <= d && StopsAt(s, e)
    decreases d - i
  {
    if StopsAt(s, i) then i else StatusEndFrom(s, d, i + 1)
  }

  /** The loop does not stop before StatusEndFrom. */
  lemma {:induction false} StatusEndFromFirst(s: string, d: nat, i: nat)
    requires DelimAt(s, d) && i <= d
    ensures forall k :: i <= k < StatusEndFrom(s, d, i) ==> !StopsAt(s, k)
    decreases d - i
  {
    if !StopsAt(s, i) {
      StatusEndFromFirst(s, d, i + 1);
    }
  }

  /** The stop position is the only one with no stop before it. */
  lemma StatusEndIs(s: string, d: nat, e: nat)
    requires DelimAt(s, d) && e <= d && StopsAt(s, e)
    requires forall k :: 0 <= k < e ==> !StopsAt(s, k)
    ensures StatusEnd(s, d) == e
  {
    StatusEndFromFirst(s, d, 0);
  }

  /** The first `c` in s[i..j], as an index into `s`. */
  function FindIn(s: string, c: char, i: nat, j: nat): (r: Option<nat>)
    requires j <= |s|
    ensures r.Some? ==> i <= r.value < j
    decreases j - i
  {
    if i >= j then None else if s[i] == c then Some(i) else FindIn(s, c, i + 1, j)
  }

  /** FindIn finds the first `c`, and finds none only when there is none. */
  lemma {:induction false} FindInFacts(s: string, c: char, i: nat, j: nat)
    requires j <= |s|
    ensures var r := FindIn(s, c, i, j);
      (r.Some? ==> s[r.value] == c && forall k :: i <= k < r.value ==> s[k] != c) &&
      (r.None? ==> forall k :: i <= k < j ==> s[k] != c)
    decreases j - i
  {
    if i < j && s[i] != c {
      FindInFacts(s, c, i + 1, j);
    }
  }

  lemma {:induction false} FindInAt(s: string, c: char, i: nat, j: nat, p: nat)
    requires j <= |s| && i <= p < j && s[p] == c
    requires forall k :: i <= k < p ==> s[k] != c
    ensures FindIn(s, c, i, j) == Some(p)
    decreases p - i
  {
    if i < p {
      FindInAt(s, c, i + 1, j, p);
    }
  }

  lemma {:induction false} FindInNone(s: string, c: char, i: nat, j: nat)
    requires j <= |s|
    requires forall k :: i <= k < j ==> s[k] != c
    ensures FindIn(s, c, i, j) == None
    decreases j - i
  {
    if i < j {
      FindInNone(s, c, i + 1, j);
    }
  }

  /** The text of the status line `line` between its first and second spaces, if it
      has two. */
  function CodeText(line: string): (r: Option<string>)
    ensures r.Some? ==> ' ' !in r.value && |r.value| + 2 <= |line|
    ensures ' ' !in line ==> r.None?
  {
    FindInFacts(line, ' ', 0, |line|);
    match FindIn(line, ' ', 0, |line|)
    case None => None
    case Some(f) =>
      FindInFacts(line, ' ', f + 1, |line|);
      match FindIn(line, ' ', f + 1, |line|)
      case None => None
      case Some(g) => Some(line[f + 1..g])
  }

  /** std::stoi applied to the code text, if there is one. */
  function ReadCode(text: Option<string>): (r: Outcome<Option<int>>)
    ensures r.Threw? ==> r.exception != LengthError
    ensures r.Returned? && r.value.Some? ==> IntMin <= r.value.value <= IntMax
    ensures r == Returned(None) <==> text == None
  {
    match text
    case None => Returned(None)
    case Some(t) =>
      match Stoi(t)
      case Threw(x) => Threw(x)
      case Returned(v) => Returned(Some(v))
  }

  /** The status code read from the status line `line`: std::stoi of the text between
      its first and second spaces, an exception if std::stoi throws, and nothing if the
      line has fewer than two spaces. */
  function StatusCode(line: string): (r: Outcome<Option<int>>)
    ensures r.Returned? && r.value.Some? ==> IntMin <= r.value.value <= IntMax
    ensures r.Threw? ==> r.exception != LengthError
    ensures ' ' !in line ==> r == Returned(None)
  {
    ReadCode(CodeText(line))
  }

  /** With its first space at `f` and its second at `g`, the line s[..n] has the code
      text s[f + 1..g]. */
  lemma CodeTextOfSpaces(s: string, n: nat, f: nat, g: nat)
    requires f < g < n <= |s| && s[f] == ' ' && s[g] == ' '
    requires forall k :: 0 <= k < f ==> s[k] != ' '
    requires forall k :: f < k < g ==> s[k] != ' '
    ensures CodeText(s[..n]) == Some(s[f + 1..g])
  {
    var line := s[..n];
    FindInAt(line, ' ', 0, n, f);
    FindInAt(line, ' ', f + 1, n, g);
    assert line[f + 1..g] == s[f + 1..g];
  }

  /** The line s[..n] with a single space, at `f`, has no code text. */
  lemma CodeTextOfOneSpace(s: string, n: nat, f: nat)
    requires f < n <= |s| && s[f] == ' '
    requires forall k :: 0 <= k < f ==> s[k] != ' '
    requires forall k :: f < k < n ==> s[k] != ' '
    ensures CodeText(s[..n]) == None
  {
    var line := s[..n];
    FindInAt(line, ' ', 0, n, f);
    FindInNone(line, ' ', f + 1, n);
  }

  /** The line s[..n] without a space has no code text. */
  lemma CodeTextOfNoSpace(s: string, n: nat)
    requires n <= |s|
    requires forall k :: 0 <= k < n ==> s[k] != ' '
    ensures CodeText(s[..n]) == None
  {
    FindInNone(s[..n], ' ', 0, n);
  }

  /** The status loop of Fetch. It counts spaces up to the stop position; at the second
      space it runs std::stoi on the text since the first, whose exception leaves Fetch. */
  method ScanStatusLine(s: string, d: nat) returns (e: nat, status: Outcome<Option<int>>)
    requires DelimAt(s, d)
    ensures status == StatusCode(s[..StatusEnd(s, d)])
    ensures status.Returned? ==> e == StatusEnd(s, d)
  {
    var code: Option<int> := None;
    var i: nat, spaces: nat, start: nat := 0, 0, 0;
    ghost var f: nat, g: nat := 0, 0;
    ghost var end := StatusEnd(s, d);
    while s[i] != '\r' && s[i + 1] != '\n'
      invariant i <= end
      invariant forall k :: 0 <= k < i ==> !StopsAt(s, k)
      invariant spaces == 0 ==> forall k :: 0 <= k < i ==> s[k] != ' '
      invariant spaces >= 1 ==> f < i && s[f] == ' ' && forall k :: 0 <= k < f ==> s[k] != ' '
      invariant spaces == 1 ==> start == f + 1 && forall k :: f < k < i ==> s[k] != ' '
      invariant spaces >= 2 ==> f < g < i && s[g] == ' ' && forall k :: f < k < g ==> s[k] != ' '
      invariant spaces < 2 ==> code == None
      invariant spaces >= 2 ==> code.Some? && Stoi(s[f + 1..g]) == Returned(code.value)
      decreases end - i
    {
      if s[i] == ' ' {
        spaces := spaces + 1;
        if spaces == 1 {
          f := i;
        }
        if spaces == 2 {
          g := i;
          var v := Stoi(s[start..i]);
          if v.Threw? {
            CodeTextOfSpaces(s, end, f, g);
            assert CodeText(s[..end]) == Some(s[start..i]);
            assert StatusCode(s[..end]) == Threw(v.exception);
            return i, Threw(v.exception);
          }
          code := Some(v.value);
        }
        start := i + 1;
      }
      i := i + 1;
    }
    StatusEndIs(s, d, i);
    e := i;
    StatusCodeOfScan(s, i, spaces, f, g, code);
    assert StatusCode(s[..end]) == Returned(code);
    status := Returned(code);
  }

  /** What the status loop has gathered when it stops at `n` is the code of s[..n]. */
  lemma StatusCodeOfScan(s: string, n: nat, spaces: nat, f: nat, g: nat, code: Option<int>)
    requires n <= |s|
    requires spaces == 0 ==> forall k :: 0 <= k < n ==> s[k] != ' '
    requires spaces >= 1 ==> f < n && s[f] == ' ' && forall k :: 0 <= k < f ==> s[k] != ' '
    requires spaces == 1 ==> forall k :: f < k < n ==> s[k] != ' '
    requires spaces >= 2 ==> f < g < n && s[g] == ' ' && forall k :: f < k < g ==> s[k] != ' '
    requires spaces < 2 ==> code == None
    requires spaces >= 2 ==> code.Some? && Stoi(s[f + 1..g]) == Returned(code.value)
    ensures StatusCode(s[..n]) == Returned(code)
  {
    if spaces == 0 {
      CodeTextOfNoSpace(s, n);
    } else if spaces == 1 {
      CodeTextOfOneSpace(s, n, f);
    } else {
      CodeTextOfSpaces(s, n, f, g);
    }
  }

  // ---------------------------------------------------------------- header fields

  /** The first "\r\n" at or after `i` that ends before `end`. */
  function CrlfIn(s: string, i: nat, end: nat): (r: Option<nat>)
    requires end <= |s|
    ensures r.Some? ==> i <= r.value && r.value + 1 < end
    decreases end - i
  {
    if i + 1 >= end then None else if IsCrlfAt(s, i) then Some(i) else CrlfIn(s, i + 1, end)
  }

  /** CrlfIn finds the first "\r\n", and finds none only when there is none. */
  lemma {:induction false} CrlfInFacts(s: string, i: nat, end: nat)
    requires end <= |s|
    ensures var r := CrlfIn(s, i, end);
      (r.Some? ==> IsCrlfAt(s, r.value) && forall k :: i <= k < r.value ==> !IsCrlfAt(s, k)) &&
      (r.None? ==> forall k :: i <= k && k + 1 < end ==> !IsCrlfAt(s, k))
    decreases end - i
  {
    if i + 1 < end && !IsCrlfAt(s, i) {
      CrlfInFacts(s, i + 1, end);
    }
  }

  lemma {:induction false} CrlfInAt(s: string, i: nat, end: nat, j: nat)
    requires end <= |s| && i <= j && j + 1 < end && IsCrlfAt(s, j)
    requires forall k :: i <= k < j ==> !IsCrlfAt(s, k)
    ensures CrlfIn(s, i, end) == Some(j)
    decreases j - i
  {
    if i < j {
      CrlfInAt(s, i + 1, end, j);
    }
  }

  lemma {:induction false} CrlfInNone(s: string, i: nat, end: nat)
    requires end <= |s|
    requires forall k :: i <= k && k + 1 < end ==> !IsCrlfAt(s, k)
    ensures CrlfIn(s, i, end) == None
    decreases end - i
  {
    if i + 1 < end {
      CrlfInNone(s, i + 1, end);
    }
  }

  /** The field lines of s[start..end] read into `acc`, by positions in `s`: each line
      ends at a "\r\n", is split at its first ':', names the text before it and takes
      as value the text from two characters after it. */
  function FieldsIn(s: string, start: nat, end: nat, acc: map<string, string>): (r: HeaderParse)
    requires start <= end <= |s|
    ensures r.Fields? ==> acc.Keys <= r.headers.Keys
    ensures r.MissingColon? ==> acc.Keys <= r.partial.Keys
    decreases end - start
  {
    match CrlfIn(s, start, end)
    case None => Fields(acc)
    case Some(j) =>
      match FindIn(s, ':', start, j)
      case None => MissingColon(acc)
      case Some(c) =>
        if j < c + 2 then ValueUnderflow
        else FieldsIn(s, j + 2, end, acc[s[start..c] := s[c + 2..j]])
  }

  /** What the header loop knows about the current line s[start..i]: no "\r\n" in
      it, and `delim` is its first ':' if it has one. */
  predicate Scanned(s: string, start: nat, i: nat, delim: Option<nat>)
  {
    i <= |s|
    && (forall k :: start <= k < i ==> !IsCrlfAt(s, k))
    && (delim.None? ==> forall k :: start <= k < i ==> s[k] != ':')
    && (delim.Some? ==> start <= delim.value < i && s[delim.value] == ':'
                        && forall k :: start <= k < delim.value ==> s[k] != ':')
  }

  /** A character that does not start a "\r\n" extends the current line, and becomes
      its delimiter if it is the line's first ':'. */
  lemma ScanOne(s: string, start: nat, i: nat, delim: Option<nat>)
    requires start <= i < |s| && Scanned(s, start, i, delim) && !IsCrlfAt(s, i)
    ensures Scanned(s, start, i + 1, if s[i] == ':' && delim.None? then Some(i) else delim)
  {
    assert forall k :: start <= k < i + 1 ==> !IsCrlfAt(s, k) by {
      forall k | start <= k < i + 1 ensures !IsCrlfAt(s, k) {
        if k < i {
          assert !IsCrlfAt(s, k);
        }
      }
    }
    if delim.None? && s[i] != ':' {
      forall k | start <= k < i + 1 ensures s[k] != ':' {
        if k < i {
          assert s[k] != ':';
        }
      }
    }
  }

  /** A new line holds nothing yet. */
  lemma ScanStart(s: string, start: nat)
    requires start <= |s|
    ensures Scanned(s, start, start, None)
  {
  }

  /** A line of the header loop ended by the "\r\n" at `i` and holding no ':' stops
      the reading with the fields read so far. */
  lemma LineWithoutColon(s: string, start: nat, i: nat, end: nat, acc: map<string, string>)
    requires start <= i && i + 1 < end <= |s| && IsCrlfAt(s, i) && Scanned(s, start, i, None)
    ensures FieldsIn(s, start, end, acc) == MissingColon(acc)
  {
    CrlfInAt(s, start, end, i);
    FindInNone(s, ':', start, i);
  }

  /** A line of the header loop ended by the "\r\n" at `i` whose first ':' at `c` is
      directly before the "\r\n": the value's length is negative. */
  lemma LineUnderflows(s: string, start: nat, i: nat, end: nat, c: nat, acc: map<string, string>)
    requires start <= i && i + 1 < end <= |s| && IsCrlfAt(s, i) && Scanned(s, start, i, Some(c))
    requires i < c + 2
    ensures FieldsIn(s, start, end, acc) == ValueUnderflow
  {
    CrlfInAt(s, start, end, i);
    FindInAt(s, ':', start, i, c);
  }

  /** A line of the header loop ended by the "\r\n" at `i`, split at its first ':' at
      `c`: it stores s[start..c] as the name of s[c + 2..i] and the reading goes on
      after the "\r\n". */
  lemma LineStored(s: string, start: nat, i: nat, end: nat, c: nat, acc: map<string, string>)
    requires start <= i && i + 1 < end <= |s| && IsCrlfAt(s, i) && Scanned(s, start, i, Some(c))
    requires c + 2 <= i
    ensures FieldsIn(s, start, end, acc) == FieldsIn(s, i + 2, end, acc[s[start..c] := s[c + 2..i]])
  {
    CrlfInAt(s, start, end, i);
    FindInAt(s, ':', start, i, c);
  }

  /** At the end of the loop, text with no "\r\n" holds no more field lines. */
  lemma ScanEnd(s: string, start: nat, i: nat, end: nat, delim: Option<nat>, acc: map<string, string>)
    requires start <= end <= |s| && end <= i + 1 && Scanned(s, start, i, delim)
    ensures FieldsIn(s, start, end, acc) == Fields(acc)
  {
    NoLineLeft(s, start, end, acc);
  }

  /** Text with no "\r\n" holds no more field lines. */
  lemma NoLineLeft(s: string, start: nat, end: nat, acc: map<string, string>)
    requires start <= end <= |s|
    requires forall k :: start <= k && k + 1 < end ==> !IsCrlfAt(s, k)
    ensures FieldsIn(s, start, end, acc) == Fields(acc)
  {
    CrlfInNone(s, start, end);
  }

  /** One pass of the header loop's body at index `i`, with the current line starting
      at `start` (one past `i` right after a line end, when s[i] is its '\n'): a first
      ':' becomes the delimiter, and a "\r\n" ends the line, which either stops the
      reading (`stop`) or is stored and starts the next line. */
  method ReadFieldChar(s: string, start: nat, i: nat, end: nat, delim: Option<nat>, headers: map<string, string>)
    returns (stop: Option<HeaderParse>, nextStart: nat, nextDelim: Option<nat>, nextHeaders: map<string, string>)
    requires start <= i + 1 && i + 1 < end <= |s|
    requires start == i + 1 ==> s[i] == '\n' && delim.None?
    requires start <= i ==> Scanned(s, start, i, delim)
    ensures stop.Some? ==> stop.value == FieldsIn(s, start, end, headers) && !stop.value.Fields?
    ensures stop.None? ==> start <= nextStart <= i + 2
    ensures stop.None? && nextStart == i + 2 ==> s[i + 1] == '\n' && nextDelim.None?
    ensures stop.None? && nextStart <= i + 1 ==> Scanned(s, nextStart, i + 1, nextDelim)
    ensures stop.None? ==> FieldsIn(s, start, end, headers) == FieldsIn(s, nextStart, end, nextHeaders)
  {
    stop, nextStart, nextDelim, nextHeaders := None, start, delim, headers;
    if s[i] == ':' && delim.None? {
      ScanOne(s, start, i, delim);
      nextDelim := Some(i);
    } else if s[i] == '\r' && s[i + 1] == '\n' {
      if delim.None? {
        LineWithoutColon(s, start, i, end, headers);
        return Some(MissingColon(headers)), start, delim, headers;
      }
      var c := delim.value;
      if i < c + 2 {
        // the value's length i - delim - 2 is negative: std::string throws
        LineUnderflows(s, start, i, end, c, headers);
        return Some(ValueUnderflow), start, delim, headers;
      }
      LineStored(s, start, i, end, c, headers);
      nextHeaders := headers[s[start..c] := s[c + 2..i]];
      nextDelim := None;
      nextStart := i + 2;
    } else if start <= i {
      ScanOne(s, start, i, delim);
    } else {
      // the '\n' of the line end just read
      ScanStart(s, start);
    }
  }

  /** The header loop of Fetch, from two past the status line's stop `e` up to the
      delimiter at `d`. It reads the field lines of s[e + 2..d + 2] and returns them
      with the index at which it stops. */
  method ParseHeaderFields(s: string, e: nat, d: nat) returns (parse: HeaderParse, i: nat)
    requires e <= d && DelimAt(s, d)
    ensures parse == FieldsIn(s, e + 2, d + 2, map[])
    ensures parse.Fields? ==> i == Max(e + 2, d + 1)
  {
    var headers: map<string, string> := map[];
    var delim: Option<nat> := None;
    i := e + 2;
    var start := i;
    ghost var goal := FieldsIn(s, e + 2, d + 2, map[]);
    ScanStart(s, start);
    while i < d + 1
      invariant e + 2 <= start <= i + 1 && i <= Max(e + 2, d + 1)
      invariant start == i + 1 ==> s[i] == '\n' && delim.None?
      invariant start <= i ==> Scanned(s, start, i, delim)
      invariant goal == FieldsIn(s, start, d + 2, headers)
    {
      var stop;
      stop, start, delim, headers := ReadFieldChar(s, start, i, d + 2, delim, headers);
      if stop.Some? {
        return stop.value, i;
      }
      i := i + 1;
    }
    if start <= i {
      ScanEnd(s, start, i, d + 2, delim, headers);
    } else {
      NoLineLeft(s, start, d + 2, headers);
    }
    parse := Fields(headers);
  }

  /** Reading field lines by positions agrees with reading the text they span. */
  lemma {:induction false} FieldsInIsParse(s: string, start: nat, end: nat, acc: map<string, string>)
    requires start <= end <= |s|
    ensures FieldsIn(s, start, end, acc) == ParseFieldLines(s[start..end], acc)
    decreases end - start
  {
    match CrlfIn(s, start, end)
    case None =>
      NoLineIsParse(s, start, end, acc);
    case Some(j) =>
      match FindIn(s, ':', start, j)
      case None =>
        NoColonIsParse(s, start, j, end, acc);
      case Some(c) =>
        if j < c + 2 {
          UnderflowIsParse(s, start, j, c, end, acc);
        } else {
          var next := acc[s[start..c] := s[c + 2..j]];
          FieldsInIsParse(s, j + 2, end, next);
          StoredIsParse(s, start, j, c, end, acc, next);
        }
  }

  lemma NoLineIsParse(s: string, start: nat, end: nat, acc: map<string, string>)
    requires start <= end <= |s| && CrlfIn(s, start, end) == None
    ensures FieldsIn(s, start, end, acc) == ParseFieldLines(s[start..end], acc)
  {
    TextWithoutLine(s, start, end, acc);
  }

  lemma NoColonIsParse(s: string, start: nat, j: nat, end: nat, acc: map<string, string>)
    requires start <= end <= |s| && CrlfIn(s, start, end) == Some(j)
    requires FindIn(s, ':', start, j) == None
    ensures FieldsIn(s, start, end, acc) == ParseFieldLines(s[start..end], acc)
  {
    TextLineWithoutColon(s, start, j, end, acc);
  }

  lemma UnderflowIsParse(s: string, start: nat, j: nat, c: nat, end: nat, acc: map<string, string>)
    requires start <= end <= |s| && CrlfIn(s, start, end) == Some(j)
    requires FindIn(s, ':', start, j) == Some(c) && j < c + 2
    ensures FieldsIn(s, start, end, acc) == ParseFieldLines(s[start..end], acc)
  {
    TextLineWithColon(s, start, j, c, end, acc);
  }

  lemma StoredIsParse(s: string, start: nat, j: nat, c: nat, end: nat, acc: map<string, string>, next: map<string, string>)
    requires start <= end <= |s| && CrlfIn(s, start, end) == Some(j)
    requires FindIn(s, ':', start, j) == Some(c) && c + 2 <= j
    requires next == acc[s[start..c] := s[c + 2..j]]
    requires j + 2 <= end && FieldsIn(s, j + 2, end, next) == ParseFieldLines(s[j + 2..end], next)
    ensures FieldsIn(s, start, end, acc) == ParseFieldLines(s[start..end], acc)
  {
    FieldsInStored(s, start, j, c, end, acc, next);
    TextLineStored(s, start, j, c, end, acc, next);
  }

  lemma FieldsInStored(s: string, start: nat, j: nat, c: nat, end: nat, acc: map<string, string>, next: map<string, string>)
    requires start <= end <= |s| && CrlfIn(s, start, end) == Some(j)
    requires FindIn(s, ':', start, j) == Some(c) && c + 2 <= j
    requires next == acc[s[start..c] := s[c + 2..j]]
    ensures FieldsIn(s, start, end, acc) == FieldsIn(s, j + 2, end, next)
  {
  }

  lemma TextLineStored(s: string, start: nat, j: nat, c: nat, end: nat, acc: map<string, string>, next: map<string, string>)
    requires start <= end <= |s| && CrlfIn(s, start, end) == Some(j)
    requires FindIn(s, ':', start, j) == Some(c) && c + 2 <= j
    requires next == acc[s[start..c] := s[c + 2..j]]
    ensures ParseFieldLines(s[start..end], acc) == ParseFieldLines(s[j + 2..end], next)
  {
    TextLineWithColon(s, start, j, c, end, acc);
  }

  lemma TextWithoutLine(s: string, start: nat, end: nat, acc: map<string, string>)
    requires start <= end <= |s| && CrlfIn(s, start, end) == None
    ensures ParseFieldLines(s[start..end], acc) == Fields(acc)
  {
    CrlfInFacts(s, start, end);
    NoCrlfInSlice(s, start, end);
    ParseFieldLinesNone(s[start..end], acc);
  }

  lemma TextLineWithoutColon(s: string, start: nat, j: nat, end: nat, acc: map<string, string>)
    requires start <= end <= |s| && CrlfIn(s, start, end) == Some(j)
    requires FindIn(s, ':', start, j) == None
    ensures ParseFieldLines(s[start..end], acc) == MissingColon(acc)
  {
    LineOfCrlfIn(s, start, j, end);
    NoColonOfFindIn(s, start, j);
    ParseFieldLinesMissing(s[start..end], j - start, acc);
  }

  lemma TextLineWithColon(s: string, start: nat, j: nat, c: nat, end: nat, acc: map<string, string>)
    requires start <= end <= |s| && CrlfIn(s, start, end) == Some(j)
    requires FindIn(s, ':', start, j) == Some(c)
    ensures ParseFieldLines(s[start..end], acc)
      == if j < c + 2 then ValueUnderflow
         else ParseFieldLines(s[j + 2..end], acc[s[start..c] := s[c + 2..j]])
  {
    var t := s[start..end];
    LineOfCrlfIn(s, start, j, end);
    ColonOfFindIn(s, start, j, c);
    var line := s[start..j];
    assert t[..j - start] == line;
    assert Find(t[..j - start], ':') == Some(c - start);
    if j < c + 2 {
      ParseFieldLinesStep(t, j - start, c - start, acc);
    } else {
      ParseFieldLinesStored(t, j - start, c - start, acc, s[start..c], s[c + 2..j], s[j + 2..end]);
    }
  }

  lemma LineOfCrlfIn(s: string, start: nat, j: nat, end: nat)
    requires start <= end <= |s| && CrlfIn(s, start, end) == Some(j)
    ensures start <= j && j + 1 < end
    ensures FindCrlf(s[start..end]) == Some(j - start)
    ensures s[start..end][..j - start] == s[start..j]
    ensures s[start..end][j - start + 2..] == s[j + 2..end]
  {
    CrlfInFacts(s, start, end);
    LineEndsAt(s, start, j, end);
  }

  lemma NoColonOfFindIn(s: string, start: nat, j: nat)
    requires start <= j <= |s| && FindIn(s, ':', start, j) == None
    ensures Find(s[start..j], ':') == None
  {
    FindInFacts(s, ':', start, j);
    NoColonInSlice(s, start, j);
  }

  lemma ColonOfFindIn(s: string, start: nat, j: nat, c: nat)
    requires start <= j <= |s| && FindIn(s, ':', start, j) == Some(c)
    ensures start <= c < j
    ensures Find(s[start..j], ':') == Some(c - start)
    ensures c + 2 <= j ==> s[start..j][..c - start] == s[start..c] && s[start..j][c - start + 2..] == s[c + 2..j]
  {
    FindInFacts(s, ':', start, j);
    ColonInSlice(s, start, j, c);
  }

  lemma NoCrlfInSlice(s: string, start: nat, end: nat)
    requires start <= end <= |s|
    requires forall k :: start <= k && k + 1 < end ==> !IsCrlfAt(s, k)
    ensures FindCrlf(s[start..end]) == None
  {
    var t := s[start..end];
    forall k | 0 <= k < |t| ensures !IsCrlfAt(t, k) {
      if k + 1 < |t| {
        assert t[k] == s[start + k] && t[k + 1] == s[start + k + 1];
        assert !IsCrlfAt(s, start + k);
      }
    }
  }

  /** A "\r\n" at `j`, the first since `start`, ends the line s[start..j] of the text
      s[start..end]; what follows it is s[j + 2..end]. */
  lemma LineEndsAt(s: string, start: nat, j: nat, end: nat)
    requires start <= j && j + 1 < end <= |s| && IsCrlfAt(s, j)
    requires forall k :: start <= k < j ==> !IsCrlfAt(s, k)
    ensures FindCrlf(s[start..end]) == Some(j - start)
    ensures s[start..end][..j - start] == s[start..j]
    ensures s[start..end][j - start + 2..] == s[j + 2..end]
  {
    var t := s[start..end];
    forall k | 0 <= k < j - start ensures !IsCrlfAt(t, k) {
      assert !IsCrlfAt(s, start + k);
    }
    assert t[j - start] == s[j] && t[j - start + 1] == s[j + 1];
    FindCrlfFirst(t, j - start);
  }

  lemma NoColonInSlice(s: string, start: nat, j: nat)
    requires start <= j <= |s|
    requires forall k :: start <= k < j ==> s[k] != ':'
    ensures Find(s[start..j], ':') == None
  {
    var line := s[start..j];
    assert ':' !in line by {
      forall k | 0 <= k < |line| ensures line[k] != ':' {
        assert line[k] == s[start + k];
      }
    }
  }

  lemma ColonInSlice(s: string, start: nat, j: nat, c: nat)
    requires start <= c < j <= |s| && s[c] == ':'
    requires forall k :: start <= k < c ==> s[k] != ':'
    ensures Find(s[start..j], ':') == Some(c - start)
    ensures c + 2 <= j ==> s[start..j][..c - start] == s[start..c] && s[start..j][c - start + 2..] == s[c + 2..j]
  {
    var line := s[start..j];
    forall k | 0 <= k < c - start ensures line[k] != ':' {
      assert line[k] == s[start + k];
    }
    FindFirst(line, ':', c - start);
  }

  // ---------------------------------------------------------------- body

  /** The later reads up to the first empty one, which is the end of the stream. */
  function UntilEof(received: seq<string>): (r: seq<string>)
    ensures |r| <= |received| && r == received[..|r|]
    ensures |r| < |received| ==> received[|r|] == ""
  {
    if received == [] || received[0] == "" then [] else [received[0]] + UntilEof(received[1..])
  }

  /** The reads before `k` are all non-empty and the one at `k` ends the stream. */
  lemma {:induction false} UntilEofAt(received: seq<string>, k: nat)
    requires k <= |received| && (k == |received| || received[k] == "")
    requires forall j :: 0 <= j < k ==> received[j] != ""
    ensures UntilEof(received) == received[..k]
  {
    if k > 0 {
      UntilEofAt(received[1..], k - 1);
      assert received[..k] == [received[0]] + received[1..][..k - 1];
    }
  }

  /** The read loop of Fetch after the first read: each read is appended until one
      returns nothing. A read past the end of `received` returns nothing. */
  method ReadRest(received: seq<string>) returns (rest: string)
    ensures rest == Concat(UntilEof(received))
  {
    rest := "";
    var k := 0;
    var more := true;
    while more
      invariant k <= |received| + 1
      invariant more ==> k <= |received| && rest == Concat(received[..k])
      invariant more ==> forall j :: 0 <= j < k ==> received[j] != ""
      invariant !more ==> rest == Concat(UntilEof(received))
      decreases if more then |received| + 1 - k else 0
    {
      var data := if k < |received| then received[k] else "";
      if data == "" {
        UntilEofAt(received, k);
        assert rest + data == rest;
      } else {
        assert received[..k + 1] == received[..k] + [data];
        ConcatAppend(received[..k], data);
      }
      rest := rest + data;
      k := k + 1;
      more := |data| > 0;
    }
  }

  /** Where the body starts in the first read: right after the blank line. */
  function FirstBody(first: string, d: nat): (body: string)
    requires DelimAt(first, d)
    ensures first == first[..d] + "\r\n\r\n" + body
  {
    assert first[d..d + 4] == "\r\n\r\n";
    assert first == first[..d] + first[d..d + 4] + first[d + 4..];
    first[d + 4..]
  }

  /** Whether the header map declares the chunked coding, as Fetch tests it. */
  predicate DeclaresChunked(headers: map<string, string>)
  {
    "Transfer-Encoding" in headers && headers["Transfer-Encoding"] == "chunked"
  }

  /** The body as Fetch returns it: decoded when the headers declare it chunked. */
  function Decoded(headers: map<string, string>, raw: string): (r: string)
    ensures |r| <= |raw|
    ensures !DeclaresChunked(headers) ==> r == raw
  {
    if DeclaresChunked(headers) then Dechunk(raw) else raw
  }

  /** The code field from what the status loop read. */
  function StoredCode(code: Option<int>): (r: Option<nat>)
    ensures r.Some? <==> code.Some?
    ensures code.Some? && 0 <= code.value <= SizeMax ==> r == code
  {
    if code.Some? then Some(AsSizeT(code.value)) else None
  }

  /** Fetch's result for the first read `first` and the later received `later`: an HTTP
      error when the first read holds no blank line or a field line has no ':' (code -1,
      the headers read so far kept), an exception from std::stoi or from a field value
      of negative length, and otherwise success with the status code, the headers and
      the body, decoded when the headers declare it chunked. */
  function ResponseSpec(first: string, later: seq<string>): (r: Outcome<FetchResult>)
    ensures r.Returned? ==> r.value.kind == Success || r.value.kind == HttpError
    ensures r.Returned? && r.value.kind == HttpError ==> r.value.code == Some(ErrorCode) && r.value.content == ""
    ensures FindSub(first, "\r\n\r\n").None? ==> r == Returned(FetchResult(HttpError, Some(ErrorCode), map[], ""))
  {
    match FindSub(first, "\r\n\r\n")
    case None => Returned(FetchResult(HttpError, Some(ErrorCode), map[], ""))
    case Some(d) =>
      DelimFound(first, d);
      var e := StatusEnd(first, d);
      match StatusCode(first[..e])
      case Threw(x) => Threw(x)
      case Returned(code) => AfterStatus(first, e, d, code, later)
  }

  /** Fetch's result once the field lines read as `parse`, for the status code `code`
      and the undecoded body `raw`. */
  function OutcomeOf(parse: HeaderParse, code: Option<int>, raw: string): Outcome<FetchResult>
  {
    match parse
    case ValueUnderflow => Threw(LengthError)
    case MissingColon(partial) => Returned(FetchResult(HttpError, Some(ErrorCode), partial, ""))
    case Fields(headers) => Returned(FetchResult(Success, StoredCode(code), headers, Decoded(headers, raw)))
  }

  /** The rest of the response once the status line, which stops at `e`, gave `code`. */
  function AfterStatus(first: string, e: nat, d: nat, code: Option<int>, later: seq<string>): (r: Outcome<FetchResult>)
    requires e <= d && DelimAt(first, d)
    ensures r.Returned? ==> r.value.kind == Success || r.value.kind == HttpError
    ensures r.Returned? && r.value.kind == HttpError ==> r.value.code == Some(ErrorCode) && r.value.content == ""
  {
    OutcomeOf(FieldsIn(first, e + 2, d + 2, map[]), code, FirstBody(first, d) + Concat(UntilEof(later)))
  }

  lemma BodyIs(first: string, d: nat, later: seq<string>, rest: string, headers: map<string, string>, content: string)
    requires DelimAt(first, d) && rest == Concat(UntilEof(later))
    requires content == if DeclaresChunked(headers) then Dechunk(first[d + 4..] + rest) else first[d + 4..] + rest
    ensures content == Decoded(headers, FirstBody(first, d) + Concat(UntilEof(later)))
  {
  }

  /** Fetch from the first read on. The body of the first read starts right after the
      blank line; the source starts it one character later when there are no field
      lines (BodyStartAsWritten). */
  method ReadResponse(first: string, later: seq<string>) returns (r: Outcome<FetchResult>)
    ensures r == ResponseSpec(first, later)
  {
    var found := FindSub(first, "\r\n\r\n");
    if found.None? {
      return Returned(FetchResult(HttpError, Some(ErrorCode), map[], ""));
    }
    var d := found.value;
    DelimFound(first, d);
    var e, status := ScanStatusLine(first, d);
    if status.Threw? {
      return Threw(status.exception);
    }
    r := ReadFieldsAndBody(first, e, d, status.value, later);
  }

  /** The header loop and the body of Fetch, after the status line. */
  method ReadFieldsAndBody(first: string, e: nat, d: nat, code: Option<int>, later: seq<string>)
    returns (r: Outcome<FetchResult>)
    requires e <= d && DelimAt(first, d)
    ensures r == AfterStatus(first, e, d, code, later)
  {
    var parse, i := ParseHeaderFields(first, e, d);
    if parse.ValueUnderflow? {
      return Threw(LengthError);
    }
    if parse.MissingColon? {
      return Returned(FetchResult(HttpError, Some(ErrorCode), parse.partial, ""));
    }
    var headers := parse.headers;
    var rest := ReadRest(later);
    var content := first[d + 4..] + rest;
    if "Transfer-Encoding" in headers && headers["Transfer-Encoding"] == "chunked" {
      content := DecodeChunked(content);
    }
    BodyIs(first, d, later, rest, headers, content);
    r := Returned(FetchResult(Success, StoredCode(code), headers, content));
  }
}
