/** Values shared by every part of the fetcher: optional values, the outcome of a
    computation that may raise a C++ standard exception, and the searches over
    strings that the code does with std::string::find. */
module Common {

  datatype Option<+T> = None | Some(value: T)

  /** The standard-library exceptions that can escape the fetcher. */
  datatype StdException =
    | InvalidArgument   // std::stoi found no digits
    | OutOfRange        // std::stoi result does not fit an int
    | LengthError       // std::string built from a negative (wrapped) length

  /** Either a value, or an exception that propagates out of the caller. */
  datatype Outcome<+T> = Returned(value: T) | Threw(exception: StdException)

  /** All the strings of `parts`, in order, one after the other. */
  function Concat(parts: seq<string>): (r: string)
    ensures |parts| == 1 ==> r == parts[0]
  {
    if parts == [] then "" else parts[0] + Concat(parts[1..])
  }

  lemma {:induction false} ConcatAppend(parts: seq<string>, last: string)
    ensures Concat(parts + [last]) == Concat(parts) + last
  {
    if parts != [] {
      assert (parts + [last])[1..] == parts[1..] + [last];
      ConcatAppend(parts[1..], last);
    }
  }

  /** std::string::substr(pos, n): at most `n` characters from `pos`, cut at the end of
      the string. */
  function Substr(s: string, pos: nat, n: nat): (r: string)
    requires pos <= |s|
    ensures |r| <= n && pos + |r| <= |s| && r == s[pos..pos + |r|]
    ensures pos + n <= |s| ==> |r| == n
    ensures pos + n > |s| ==> r == s[pos..]
  {
    if pos + n <= |s| then s[pos..pos + n] else s[pos..]
  }

  /** `p` occurs in `s` starting at index `k`. */
  predicate OccursAt(s: string, p: string, k: nat)
  {
    k + |p| <= |s| && s[k..k + |p|] == p
  }

  /** std::string::find(char): the first index of `c` in `s`, None for npos. */
  function Find(s: string, c: char): (r: Option<nat>)
    ensures r.Some? ==> r.value < |s| && s[r.value] == c
  {
    if s == [] then None
    else if s[0] == c then Some(0)
    else
      match Find(s[1..], c)
      case None => None
      case Some(k) => Some(k + 1)
  }

  /** Find returns the first occurrence, and npos exactly when there is none. */
  lemma {:induction false} FindFacts(s: string, c: char)
    ensures var r := Find(s, c);
      (r.Some? ==> c !in s[..r.value]) && (r.None? <==> c !in s)
  {
    if s != [] && s[0] != c {
      FindFacts(s[1..], c);
      match Find(s[1..], c)
      case None =>
      case Some(k) =>
        assert s[..k + 1] == [s[0]] + s[1..][..k];
    }
  }

  /** Find returns the index of the first occurrence. */
  lemma {:induction false} FindFirst(s: string, c: char, k: nat)
    requires k < |s| && s[k] == c
    requires forall j :: 0 <= j < k ==> s[j] != c
    ensures Find(s, c) == Some(k)
  {
    if k > 0 {
      FindFirst(s[1..], c, k - 1);
    }
  }

  /** std::string::find(string): the first index at which `p` occurs in `s`. */
  function FindSub(s: string, p: string): (r: Option<nat>)
    ensures r.Some? ==> OccursAt(s, p, r.value)
    decreases |s|
  {
    if OccursAt(s, p, 0) then Some(0)
    else if s == [] then None
    else
      match FindSub(s[1..], p)
      case None => None
      case Some(k) => Some(k + 1)
  }

  /** FindSub finds the first occurrence, and None means there is none. */
  lemma {:induction false} FindSubFacts(s: string, p: string)
    ensures var r := FindSub(s, p);
      (r.Some? ==> forall k :: 0 <= k < r.value ==> !OccursAt(s, p, k))
      && (r.None? ==> forall k :: 0 <= k <= |s| ==> !OccursAt(s, p, k))
    decreases |s|
  {
    if !OccursAt(s, p, 0) && s != [] {
      ShiftOccurs(s, p);
      FindSubFacts(s[1..], p);
    }
  }

  /** An occurrence with none before it is the one FindSub returns. */
  lemma FindSubIs(s: string, p: string, k: nat)
    requires OccursAt(s, p, k)
    requires forall j :: 0 <= j < k ==> !OccursAt(s, p, j)
    ensures FindSub(s, p) == Some(k)
  {
    FindSubFacts(s, p);
  }

  lemma ShiftOccurs(s: string, p: string)
    requires s != []
    ensures forall k: nat :: 1 <= k ==> (OccursAt(s[1..], p, k - 1) <==> OccursAt(s, p, k))
  {
    forall k: nat | 1 <= k ensures OccursAt(s[1..], p, k - 1) <==> OccursAt(s, p, k) {
      if k + |p| <= |s| {
        assert s[1..][k - 1..k - 1 + |p|] == s[k..k + |p|];
      }
    }
  }

  /** A line terminator "\r\n" starts at index `k` of `s`. */
  predicate IsCrlfAt(s: string, k: nat)
  {
    k + 1 < |s| && s[k] == '\r' && s[k + 1] == '\n'
  }

  /** The first index at which a "\r\n" starts in `s`. */
  function FindCrlf(s: string): (r: Option<nat>)
    ensures r.Some? ==> IsCrlfAt(s, r.value)
  {
    FindCrlfFrom(s, 0)
  }

  function FindCrlfFrom(s: string, i: nat): (r: Option<nat>)
    ensures r.Some? ==> i <= r.value && IsCrlfAt(s, r.value)
    decreases |s| - i
  {
    if i + 1 >= |s| then None
    else if IsCrlfAt(s, i) then Some(i)
    else FindCrlfFrom(s, i + 1)
  }

  lemma {:induction false} FindCrlfFromFacts(s: string, i: nat)
    ensures var r := FindCrlfFrom(s, i);
      (r.Some? ==> forall k :: i <= k < r.value ==> !IsCrlfAt(s, k))
      && (r.None? ==> forall k :: i <= k < |s| ==> !IsCrlfAt(s, k))
    decreases |s| - i
  {
    if i + 1 < |s| && !IsCrlfAt(s, i) {
      FindCrlfFromFacts(s, i + 1);
    }
  }

  /** FindCrlf finds the first "\r\n", and None means there is none. */
  lemma FindCrlfFacts(s: string)
    ensures var r := FindCrlf(s);
      (r.Some? ==> forall k :: 0 <= k < r.value ==> !IsCrlfAt(s, k))
      && (r.None? ==> forall k :: 0 <= k < |s| ==> !IsCrlfAt(s, k))
  {
    FindCrlfFromFacts(s, 0);
  }

  /** FindCrlf returns the index of the first "\r\n". */
  lemma FindCrlfFirst(s: string, k: nat)
    requires IsCrlfAt(s, k)
    requires forall j :: 0 <= j < k ==> !IsCrlfAt(s, j)
    ensures FindCrlf(s) == Some(k)
  {
    FindCrlfFacts(s);
  }

  /** A text without '\r' holds no "\r\n", whatever follows it. */
  lemma NoCrlfInside(line: string, rest: string)
    requires '\r' !in line
    ensures forall k :: 0 <= k < |line| ==> !IsCrlfAt(line + rest, k)
  {
    forall k | 0 <= k < |line| ensures !IsCrlfAt(line + rest, k) {
      assert (line + rest)[k] == line[k];
    }
  }

  /** Each of `lines` followed by "\r\n": the text of a header block. */
  function Lines(lines: seq<string>): (r: string)
    ensures |r| >= 2 * |lines|
  {
    if lines == [] then "" else lines[0] + "\r\n" + Lines(lines[1..])
  }

  /** Adding a line at the end of a block adds its text and its "\r\n". */
  lemma {:induction false} LinesAppend(lines: seq<string>, last: string)
    ensures Lines(lines + [last]) == Lines(lines) + last + "\r\n"
  {
    if lines != [] {
      assert (lines + [last])[1..] == lines[1..] + [last];
      LinesAppend(lines[1..], last);
    } else {
      assert Lines([last]) == last + "\r\n" + Lines([]);
    }
  }

  /** Line `j` of a block, with its "\r\n", starts right after the lines before it. */
  lemma {:induction false} LineInLines(lines: seq<string>, j: nat)
    requires j < |lines|
    ensures OccursAt(Lines(lines), lines[j] + "\r\n", |Lines(lines[..j])|)
  {
    if j == 0 {
      assert lines[..0] == [];
      assert Lines(lines) == (lines[0] + "\r\n") + Lines(lines[1..]);
    } else {
      LineInLines(lines[1..], j - 1);
      assert lines[1..][..j - 1] == lines[..j][1..];
      assert Lines(lines) == (lines[0] + "\r\n") + Lines(lines[1..]);
      assert Lines(lines[..j]) == (lines[0] + "\r\n") + Lines(lines[..j][1..]);
      OccursAfter(lines[0] + "\r\n", Lines(lines[1..]), lines[j] + "\r\n", |Lines(lines[1..][..j - 1])|);
    }
  }

  /** An occurrence stays an occurrence when text is put before it. */
  lemma OccursAfter(prefix: string, s: string, p: string, k: nat)
    requires OccursAt(s, p, k)
    ensures OccursAt(prefix + s, p, |prefix| + k)
  {
    assert (prefix + s)[|prefix| + k..|prefix| + k + |p|] == s[k..k + |p|];
  }

  /** An occurrence stays an occurrence when text is put after it. */
  lemma OccursBefore(s: string, suffix: string, p: string, k: nat)
    requires OccursAt(s, p, k)
    ensures OccursAt(s + suffix, p, k)
  {
    assert (s + suffix)[k..k + |p|] == s[k..k + |p|];
  }

  /** In a block of non-empty lines without a carriage return, followed by an empty
      line, the first "\r\n\r\n" is the one that ends the last line. */
  lemma {:induction false} BlankLineIsFirstDelimiter(lines: seq<string>, tail: string)
    requires |lines| > 0
    requires forall j :: 0 <= j < |lines| ==> |lines[j]| > 0 && '\r' !in lines[j]
    ensures FindSub(Lines(lines) + "\r\n" + tail, "\r\n\r\n") == Some(|Lines(lines)| - 2)
  {
    var s := Lines(lines) + "\r\n" + tail;
    var d := |Lines(lines)| - 2;
    NoDelimiterInsideLines(lines, "\r\n" + tail);
    assert s == Lines(lines) + ("\r\n" + tail);
    LastLineEnds(lines);
    assert s[d..d + 4] == "\r\n\r\n";
    assert OccursAt(s, "\r\n\r\n", d);
    FindSubIs(s, "\r\n\r\n", d);
  }

  lemma {:induction false} LastLineEnds(lines: seq<string>)
    requires |lines| > 0
    ensures |Lines(lines)| >= 2 && Lines(lines)[|Lines(lines)| - 2..] == "\r\n"
  {
    if |lines| > 1 {
      LastLineEnds(lines[1..]);
      var rest := Lines(lines[1..]);
      assert Lines(lines) == (lines[0] + "\r\n") + rest;
    } else {
      assert Lines(lines[1..]) == "";
    }
  }

  lemma NoDelimiterInsideLines(lines: seq<string>, tail: string)
    requires |lines| > 0
    requires forall j :: 0 <= j < |lines| ==> |lines[j]| > 0 && '\r' !in lines[j]
    requires |tail| >= 2
    ensures forall k :: 0 <= k < |Lines(lines)| - 2 ==> !OccursAt(Lines(lines) + tail, "\r\n\r\n", k)
  {
    forall k | 0 <= k < |Lines(lines)| - 2 ensures !OccursAt(Lines(lines) + tail, "\r\n\r\n", k) {
      NoDelimiterAt(lines, tail, k);
    }
  }

  /** No "\r\n\r\n" starts at position `k` inside a block of non-empty lines without '\r'. */
  lemma {:induction false} NoDelimiterAt(lines: seq<string>, tail: string, k: nat)
    requires |lines| > 0
    requires forall j :: 0 <= j < |lines| ==> |lines[j]| > 0 && '\r' !in lines[j]
    requires |tail| >= 2 && k < |Lines(lines)| - 2
    ensures !OccursAt(Lines(lines) + tail, "\r\n\r\n", k)
    decreases |lines|
  {
    var l := lines[0];
    var rest := Lines(lines[1..]);
    assert l + "\r\n" + rest + tail == l + "\r\n" + (rest + tail);
    if k <= |l| + 1 {
      if k == |l| {
        assert lines[1..][0] == lines[1];
        assert rest[0] == lines[1][0];
      }
      NoDelimiterInHead(l, rest + tail, k);
    } else {
      assert forall j :: 0 <= j < |lines[1..]| ==> lines[1..][j] == lines[j + 1];
      NoDelimiterAt(lines[1..], tail, k - |l| - 2);
      OccursInThird(l, rest + tail, "\r\n\r\n", k);
    }
  }

  /** No "\r\n\r\n" starts within a line without '\r' or on its own line end, when the
      next line does not start with '\r'. */
  lemma NoDelimiterInHead(l: string, u: string, k: nat)
    requires '\r' !in l && k <= |l| + 1
    requires k == |l| ==> |u| > 0 && u[0] != '\r'
    ensures !OccursAt(l + "\r\n" + u, "\r\n\r\n", k)
  {
    var s := l + "\r\n" + u;
    if k + 4 <= |s| {
      if k < |l| {
        assert s[k] == l[k];
      } else if k == |l| {
        assert s[k + 2] == u[0];
      } else {
        assert s[k] == '\n';
      }
    }
  }

  /** An occurrence after the first line end is an occurrence in the rest. */
  lemma OccursInThird(l: string, u: string, p: string, k: nat)
    requires |l| + 2 <= k
    ensures OccursAt(l + "\r\n" + u, p, k) <==> OccursAt(u, p, k - |l| - 2)
  {
    var s := l + "\r\n" + u;
    if k + |p| <= |s| {
      assert s[k..k + |p|] == u[k - |l| - 2..k - |l| - 2 + |p|];
    }
  }
}
