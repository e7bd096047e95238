/** The chunked transfer coding (section 4.1 of RFC 7230) and the decoder Fetch applies
    to a body declared "Transfer-Encoding: chunked". The decoder scans for "\r\n"; the
    text between the end of the previous chunk and that "\r\n" is read as a hexadecimal
    size, that many bytes after the "\r\n" are copied, and the scan resumes after the
    two bytes that end the chunk data. */
module Chunked {
  import opened Common
  import opened Numbers
  import opened Results

  /** The text the decoder reads as the chunk size when it meets a "\r\n" at `i`:
      content.substr(start, i - start). Right after a chunk, `start` is one past `i`;
      i - start is then npos and substr takes everything from `start`. */
  function SizeText(s: string, start: nat, i: nat): (r: string)
    requires i < |s| && start <= i + 1
    ensures start <= i ==> r == s[start..i]
    ensures start == i + 1 ==> r == s[start..]
  {
    if start <= i then s[start..i] else s[start..]
  }

  /** SizeText is what content.substr(start, i - start) returns when the subtraction is
      done in size_t: with `start` one past `i` the count wraps to SIZE_MAX, and substr
      clips it to the rest of the content. */
  lemma {:induction false} SizeTextIsSubstr(s: string, start: nat, i: nat)
    requires i < |s| && start <= i + 1 && |s| <= SizeMax
    ensures SizeText(s, start, i) == Substr(s, start, AsSizeT(i - start))
  {
    if start == i + 1 {
      assert AsSizeT(i - start) == SizeMax;
    }
  }

  /** The state of the decoding loop: what has been decoded, the scan position and
      where the current size line starts. */
  datatype Scan = Scan(out: string, i: nat, start: nat)

  /** What the decoding loop produces when it runs from state `st` to the end of `s`.
      A pass away from a "\r\n" moves the scan on by one byte. The positions are
      unbounded here (see StepWrapping for the size_t arithmetic). */
  function Run(s: string, st: Scan): (r: string)
    requires st.start <= st.i + 1
    ensures |r| <= |st.out| + if st.i < |s| then |s| - st.i else 0
    decreases |s| - st.i, 1
  {
    if st.i >= |s| then st.out
    else if IsCrlfAt(s, st.i) then RunAtChunk(s, st)
    else Run(s, Scan(st.out, st.i + 1, st.start))
  }

  /** A pass at a "\r\n": the text since `start` is read as a hexadecimal size, that
      many bytes after the "\r\n" are appended (fewer at the end of the text), and the
      scan jumps over them and the two bytes that end the chunk; the next size line
      starts right after. */
  function RunAtChunk(s: string, st: Scan): (r: string)
    requires IsCrlfAt(s, st.i) && st.start <= st.i + 1
    ensures |r| <= |st.out| + |s| - st.i - 2
    decreases |s| - st.i, 0
  {
    var n := Stoh(SizeText(s, st.start, st.i));
    Run(s, Scan(st.out + Substr(s, st.i + 2, n), st.i + n + 3, st.i + n + 4))
  }

  /** The decoded body. It is never longer than the content: every decoded byte is a
      byte of a distinct chunk's data. */
  function Dechunk(s: string): (r: string)
    ensures |r| <= |s|
  {
    Run(s, Scan("", 0, 0))
  }

  /** The chunk-decoding block of Fetch. The source reads content[i + 1] even at the
      last index, where std::string yields '\0'; the bound test stands for that. */
  method DecodeChunked(content: string) returns (result: string)
    ensures result == Dechunk(content)
  {
    result := "";
    var i: nat, start: nat := 0, 0;
    while i < |content|
      invariant start <= i + 1
      invariant Run(content, Scan(result, i, start)) == Dechunk(content)
      decreases |content| - i
    {
      if content[i] == '\r' && i + 1 < |content| && content[i + 1] == '\n' {
        var chunkSize := Stoh(SizeText(content, start, i));
        var piece := Substr(content, i + 2, chunkSize);
        RunAtCrlf(content, result, i, start, chunkSize, piece);
        result := result + piece;
        i := i + chunkSize + 2;
        start := i + 2;
      } else {
        RunElsewhere(content, result, i, start, i + 1);
      }
      i := i + 1;
    }
  }

  /** One chunk of the coding: its size in hexadecimal, "\r\n", the data and "\r\n". */
  function Chunk(data: string, upper: bool): (r: string)
    ensures |r| == |HexText(|data|, upper)| + |data| + 4
  {
    HexText(|data|, upper) + "\r\n" + data + "\r\n"
  }

  /** The chunks of `parts`, one after the other. */
  function Chunks(parts: seq<string>, upper: bool): string
  {
    if parts == [] then "" else Chunk(parts[0], upper) + Chunks(parts[1..], upper)
  }

  /** The last chunk, of size 0, with no trailer fields. */
  const LastChunk: string := "0\r\n\r\n"

  /** A body sent with the chunked coding, cut into `parts`. */
  function Encode(parts: seq<string>, upper: bool): string
  {
    Chunks(parts, upper) + LastChunk
  }

  /** At a "\r\n", the loop reads the size `n` there, adds `piece`, the `n` bytes after
      the "\r\n" (fewer at the end of the text), and goes on past the chunk. */
  lemma {:induction false} RunAtCrlf(s: string, out: string, i: nat, start: nat, n: nat, piece: string)
    requires IsCrlfAt(s, i) && start <= i + 1
    requires n == Stoh(SizeText(s, start, i)) && piece == Substr(s, i + 2, n)
    ensures Run(s, Scan(out, i, start)) == Run(s, Scan(out + piece, i + n + 3, i + n + 4))
  {
  }

  /** Elsewhere the loop only moves on. */
  lemma {:induction false} RunElsewhere(s: string, out: string, i: nat, start: nat, next: nat)
    requires i < |s| && !IsCrlfAt(s, i) && start <= i + 1 && next == i + 1
    ensures Run(s, Scan(out, i, start)) == Run(s, Scan(out, next, start))
  {
  }

  /** Positions without a "\r\n" are passed over. */
  lemma {:induction false} RunSkip(s: string, out: string, start: nat, i: nat, j: nat)
    requires start <= i + 1 && i <= j <= |s|
    requires forall k :: i <= k < j ==> !IsCrlfAt(s, k)
    ensures Run(s, Scan(out, i, start)) == Run(s, Scan(out, j, start))
    decreases j - i
  {
    if i < j {
      RunElsewhere(s, out, i, start, i + 1);
      RunSkip(s, out, start, i + 1, j);
    }
  }

  /** Where the parts of a size line, "\r\n", data and "\r\n" lie in the text that
      holds them from `p` on. */
  lemma {:induction false} FrameLayout(s: string, p: nat, h: string, data: string)
    requires forall k :: 0 <= k < |h| ==> h[k] != '\r'
    requires p + |h| + |data| + 4 <= |s|
    requires s[p..p + |h| + |data| + 4] == h + "\r\n" + data + "\r\n"
    ensures forall k :: p <= k < p + |h| ==> !IsCrlfAt(s, k)
    ensures IsCrlfAt(s, p + |h|) && !IsCrlfAt(s, p + |h| + |data| + 3)
    ensures s[p..p + |h|] == h && s[p + |h| + 2..p + |h| + 2 + |data|] == data
  {
    var c := h + "\r\n" + data + "\r\n";
    var q := p + |c|;
    assert forall k :: p <= k < q ==> s[k] == c[k - p];
    forall k | p <= k < p + |h| ensures !IsCrlfAt(s, k) {
      assert s[k] == h[k - p];
    }
    assert s[p..p + |h|] == s[p..q][..|h|];
    assert s[p + |h| + 2..p + |h| + 2 + |data|] == s[p..q][|h| + 2..|h| + 2 + |data|];
  }

  /** The scan from a size line at `p` whose "\r\n" is at `i`, over a chunk `data` read
      with size `n`, to the byte after the "\r\n" that ends the chunk. */
  lemma {:induction false} RunFrame(s: string, out: string, p: nat, i: nat, n: nat, data: string, q: nat)
    requires p <= i && forall k :: p <= k < i ==> !IsCrlfAt(s, k)
    requires IsCrlfAt(s, i) && n == Stoh(SizeText(s, p, i)) && data == Substr(s, i + 2, n)
    requires q == i + n + 4 && q <= |s| && !IsCrlfAt(s, i + n + 3)
    ensures Run(s, Scan(out, p, p)) == Run(s, Scan(out + data, q, q))
  {
    RunSkip(s, out, p, p, i);
    RunAtCrlf(s, out, i, p, n, data);
    RunElsewhere(s, out + data, i + n + 3, i + n + 4, q);
  }

  /** Where the size line `h`, "\r\n", `data` and "\r\n" starting at `p` lie. */
  lemma {:induction false} ChunkAt(s: string, p: nat, h: string, data: string, q: nat)
    requires forall k :: 0 <= k < |h| ==> h[k] != '\r'
    requires Stoh(h) == |data|
    requires q == p + |h| + |data| + 4 && q <= |s|
    requires s[p..q] == h + "\r\n" + data + "\r\n"
    ensures var i := p + |h|;
      (forall k :: p <= k < i ==> !IsCrlfAt(s, k)) && IsCrlfAt(s, i) &&
      |data| == Stoh(SizeText(s, p, i)) && data == Substr(s, i + 2, |data|) &&
      !IsCrlfAt(s, i + |data| + 3)
  {
    var i := p + |h|;
    FrameLayout(s, p, h, data);
    assert SizeText(s, p, i) == h;
  }

  /** Where the parts of a chunk starting at `p` lie. */
  lemma {:induction false} ChunkFacts(s: string, p: nat, data: string, upper: bool, q: nat)
    requires |data| <= SizeMax
    requires q == p + |Chunk(data, upper)| && q <= |s| && s[p..q] == Chunk(data, upper)
    ensures var i := p + |HexText(|data|, upper)|;
      (forall k :: p <= k < i ==> !IsCrlfAt(s, k)) && IsCrlfAt(s, i) &&
      |data| == Stoh(SizeText(s, p, i)) && data == Substr(s, i + 2, |data|) &&
      !IsCrlfAt(s, i + |data| + 3) && q == i + |data| + 4
  {
    var h := HexText(|data|, upper);
    StohOfHexText(|data|, upper);
    assert s[p..q] == h + "\r\n" + data + "\r\n";
    ChunkAt(s, p, h, data, q);
  }

  /** A chunk starting at `p` adds its data, and the scan goes on at the next chunk. */
  lemma {:induction false} RunChunk(s: string, out: string, p: nat, data: string, upper: bool, q: nat)
    requires |data| <= SizeMax
    requires q == p + |Chunk(data, upper)| && q <= |s| && s[p..q] == Chunk(data, upper)
    ensures Run(s, Scan(out, p, p)) == Run(s, Scan(out + data, q, q))
  {
    ChunkFacts(s, p, data, upper, q);
    RunFrame(s, out, p, p + |HexText(|data|, upper)|, |data|, data, q);
  }

  /** The last chunk adds nothing and ends the body. */
  lemma {:induction false} RunLastChunk(s: string, out: string, p: nat)
    requires p + |LastChunk| == |s| && s[p..] == LastChunk
    ensures Run(s, Scan(out, p, p)) == out
  {
    assert s[p] == '0' && s[p + 1] == '\r' && s[p + 2] == '\n' && s[p + 4] == '\n';
    assert SizeText(s, p, p + 1) == HexText(0, false);
    StohOfHexText(0, false);
    RunElsewhere(s, out, p, p, p + 1);
    assert Substr(s, p + 1 + 2, 0) == "" && out + "" == out;
    RunAtCrlf(s, out, p + 1, p, 0, "");
    RunElsewhere(s, out, p + 1 + 0 + 3, p + 1 + 0 + 4, p + 5);
  }

  lemma {:induction false} SplitSuffix(s: string, p: nat, c: string, rest: string)
    requires p <= |s| && s[p..] == c + rest
    ensures p + |c| <= |s| && s[p..p + |c|] == c && s[p + |c|..] == rest
  {
    assert s[p..p + |c|] == s[p..][..|c|];
    assert s[p + |c|..] == s[p..][|c|..];
  }

  lemma {:induction false} RunChunks(s: string, out: string, p: nat, parts: seq<string>, upper: bool)
    requires forall j :: 0 <= j < |parts| ==> |parts[j]| <= SizeMax
    requires p <= |s| && s[p..] == Encode(parts, upper)
    ensures Run(s, Scan(out, p, p)) == out + Concat(parts)
    decreases |parts|
  {
    if parts == [] {
      RunLastChunk(s, out, p);
    } else {
      var c := Chunk(parts[0], upper);
      var q := p + |c|;
      assert Encode(parts, upper) == c + Encode(parts[1..], upper);
      SplitSuffix(s, p, c, Encode(parts[1..], upper));
      RunChunk(s, out, p, parts[0], upper, q);
      RunChunks(s, out + parts[0], q, parts[1..], upper);
      assert out + parts[0] + Concat(parts[1..]) == out + (parts[0] + Concat(parts[1..]));
    }
  }

  /** Decoding inverts the chunked coding, for any cutting of the body into chunks
      (empty chunks in the middle included) and for data holding "\r\n". */
  lemma {:induction false} DechunkEncode(parts: seq<string>, upper: bool)
    requires forall j :: 0 <= j < |parts| ==> |parts[j]| <= SizeMax
    ensures Dechunk(Encode(parts, upper)) == Concat(parts)
  {
    RunChunks(Encode(parts, upper), "", 0, parts, upper);
  }

  /** One pass of the decoding loop as the source computes it: `i += chunkSize + 2`,
      `start = i + 2` and the `i++` that ends the pass wrap around modulo 2^64. */
  function StepWrapping(s: string, st: Scan): (r: Scan)
    requires st.i < |s| && st.start <= st.i + 1
    ensures r.start <= r.i + 1
  {
    if IsCrlfAt(s, st.i) then
      var n := Stoh(SizeText(s, st.start, st.i));
      var j := (st.i + n + 2) % SizeModulus;
      Scan(st.out + Substr(s, st.i + 2, n), (j + 1) % SizeModulus, (j + 2) % SizeModulus)
    else
      Scan(st.out, st.i + 1, st.start)
  }

  /** The state of the wrapping loop after `k` passes, or the state in which its test
      `i < content.size()` fails, if that comes first. */
  function IterateWrapping(s: string, st: Scan, k: nat): (r: Scan)
    requires st.start <= st.i + 1
    ensures r.start <= r.i + 1
    ensures k == 0 ==> r == st
    decreases k
  {
    if k == 0 || st.i >= |s| then st else IterateWrapping(s, StepWrapping(s, st), k - 1)
  }

  /** A body of 19 bytes, " ffffffffffffffec\r\n" for n = 2^64 - 20: a blank, a size
      line of 16 digits and its "\r\n". */
  function HangText(n: nat): string
  {
    " " + HexText(n, false) + "\r\n"
  }

  /** The states the wrapping loop keeps to on HangText: nothing decoded, the scan
      within the first 18 bytes, the size line starting at byte 0 or 1. */
  predicate Stuck(st: Scan)
  {
    st.out == "" && st.i <= 17 && st.start <= 1
  }

  lemma HangLayout(n: nat)
    requires n == SizeMax - 19
    ensures |HangText(n)| == 19
    ensures forall k :: 0 <= k < 17 ==> !IsCrlfAt(HangText(n), k)
    ensures IsCrlfAt(HangText(n), 17)
    ensures Stoh(SizeText(HangText(n), 0, 17)) == n && Stoh(SizeText(HangText(n), 1, 17)) == n
  {
    var h := HexText(n, false);
    var t := HangText(n);
    assert Pow16(15) == 0x1000_0000_0000_0000;
    HexTextLength(n, false, 15);
    forall k | 0 <= k < 17 ensures !IsCrlfAt(t, k) {
      if k > 0 {
        assert t[k] == h[k - 1];
      }
    }
    assert SizeText(t, 1, 17) == h;
    assert SizeText(t, 0, 17) == [' '] + h;
    StohSkipsSpace(' ', h);
    StohOfHexText(n, false);
  }

  /** A pass of the wrapping loop from a Stuck state on HangText ends in a Stuck state:
      at byte 17 the size 2^64 - 20 takes `i` round to 2^64 - 1, and the `i++` to 0. */
  lemma HangStep(n: nat, st: Scan)
    requires n == SizeMax - 19 && Stuck(st)
    ensures st.i < |HangText(n)| && Stuck(StepWrapping(HangText(n), st))
  {
    HangLayout(n);
    var t := HangText(n);
    if st.i == 17 {
      assert (17 + n + 2) % SizeModulus == SizeMax;
      assert Substr(t, 19, n) == "";
    }
  }

  /** The wrapping loop never ends on HangText: whatever the number of passes, the scan
      position is still inside the 19 bytes. */
  lemma {:induction false} WrappingLoopNeverEnds(n: nat, st: Scan, k: nat)
    requires n == SizeMax - 19 && Stuck(st)
    ensures Stuck(IterateWrapping(HangText(n), st, k))
    ensures IterateWrapping(HangText(n), st, k).i < |HangText(n)|
    decreases k
  {
    HangStep(n, st);
    if k > 0 {
      WrappingLoopNeverEnds(n, StepWrapping(HangText(n), st), k - 1);
    }
  }
}
