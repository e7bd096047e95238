/** The two number conversions the fetcher relies on, written out digit by digit:
    std::stoi (port numbers and status codes) and the hexadecimal extraction
    `stringstream >> hex` behind `stoh` (chunk sizes), together with the decimal and
    hexadecimal renderings they invert. */
module Numbers {
  import opened Common

  const IntMin: int := -0x8000_0000
  const IntMax: int := 0x7FFF_FFFF
  /** The largest size_t of a 64-bit platform. */
  const SizeMax: nat := 0xFFFF_FFFF_FFFF_FFFF
  /** size_t arithmetic wraps around modulo 2^64. */
  const SizeModulus: nat := SizeMax + 1

  /** isspace in the "C" locale. */
  predicate IsSpace(c: char)
  {
    c == ' ' || c == '\t' || c == '\n' || c == '\U{0B}' || c == '\U{0C}' || c == '\r'
  }

  predicate IsDigit(c: char)
  {
    '0' <= c <= '9'
  }

  function DigitValue(c: char): (v: nat)
    requires IsDigit(c)
    ensures v < 10
  {
    c as int - '0' as int
  }

  function DigitChar(v: nat): (c: char)
    requires v < 10
    ensures IsDigit(c) && DigitValue(c) == v
  {
    ('0' as int + v) as char
  }

  /** The number of decimal digits at the front of `s`. */
  function DigitRun(s: string): (n: nat)
    ensures n <= |s|
    ensures forall k :: 0 <= k < n ==> IsDigit(s[k])
    ensures n < |s| ==> !IsDigit(s[n])
  {
    if s != [] && IsDigit(s[0]) then 1 + DigitRun(s[1..]) else 0
  }

  /** The value of a string of decimal digits, most significant first. */
  function DecValue(ds: string): nat
    requires forall k :: 0 <= k < |ds| ==> IsDigit(ds[k])
  {
    if ds == [] then 0 else DecValue(ds[..|ds| - 1]) * 10 + DigitValue(ds[|ds| - 1])
  }

  /** std::stoi: skip white space, take an optional sign and the longest run of decimal
      digits; no digit raises invalid_argument and a value outside int raises out_of_range.
      Whatever follows the digits is ignored. */
  function Stoi(s: string): (r: Outcome<int>)
    ensures r.Returned? ==> IntMin <= r.value <= IntMax
    ensures r.Threw? ==> r.exception != LengthError
    decreases |s|
  {
    if s != [] && IsSpace(s[0]) then Stoi(s[1..])
    else
      var negative := s != [] && s[0] == '-';
      var u := if s != [] && (s[0] == '-' || s[0] == '+') then s[1..] else s;
      var n := DigitRun(u);
      if n == 0 then Threw(InvalidArgument)
      else
        var magnitude: int := DecValue(u[..n]);
        var v: int := if negative then -magnitude else magnitude;
        if v < IntMin || v > IntMax then Threw(OutOfRange) else Returned(v)
  }

  /** The decimal rendering of `n`, without leading zeros. */
  function DecimalText(n: nat): (r: string)
    ensures |r| > 0 && forall k :: 0 <= k < |r| ==> IsDigit(r[k])
  {
    if n < 10 then [DigitChar(n)] else DecimalText(n / 10) + [DigitChar(n % 10)]
  }

  lemma {:induction false} DecValueOfDecimalText(n: nat)
    ensures DecValue(DecimalText(n)) == n
  {
    if n >= 10 {
      var t := DecimalText(n);
      assert t[..|t| - 1] == DecimalText(n / 10);
      DecValueOfDecimalText(n / 10);
    }
  }

  lemma {:induction false} DigitRunOfDigits(ds: string, rest: string)
    requires forall k :: 0 <= k < |ds| ==> IsDigit(ds[k])
    requires rest == [] || !IsDigit(rest[0])
    ensures DigitRun(ds + rest) == |ds|
  {
    if ds != [] {
      assert (ds + rest)[1..] == ds[1..] + rest;
      DigitRunOfDigits(ds[1..], rest);
    }
  }

  /** std::stoi of digits `ds` followed by a non-digit reads the value of `ds`. */
  lemma {:induction false} StoiOfDigits(ds: string, rest: string)
    requires |ds| > 0 && forall k :: 0 <= k < |ds| ==> IsDigit(ds[k])
    requires rest == [] || !IsDigit(rest[0])
    requires DecValue(ds) <= IntMax
    ensures Stoi(ds + rest) == Returned(DecValue(ds))
  {
    DigitRunOfDigits(ds, rest);
    var t := ds + rest;
    assert t[0] == ds[0];
    assert t[..|ds|] == ds;
  }

  /** std::stoi reads back the decimal rendering of any int-sized natural number,
      and stops at the first character that is not a digit. */
  lemma StoiOfDecimalText(n: nat, rest: string)
    requires n <= IntMax
    requires rest == [] || !IsDigit(rest[0])
    ensures Stoi(DecimalText(n) + rest) == Returned(n)
  {
    DecValueOfDecimalText(n);
    StoiOfDigits(DecimalText(n), rest);
  }

  predicate IsHexDigit(c: char)
  {
    IsDigit(c) || 'a' <= c <= 'f' || 'A' <= c <= 'F'
  }

  function HexDigitValue(c: char): (v: nat)
    requires IsHexDigit(c)
    ensures v < 16
  {
    if IsDigit(c) then DigitValue(c)
    else if 'a' <= c <= 'f' then c as int - 'a' as int + 10
    else c as int - 'A' as int + 10
  }

  /** The hexadecimal digit for `v`, lower case or upper case. */
  function HexDigitChar(v: nat, upper: bool): (c: char)
    requires v < 16
    ensures IsHexDigit(c) && HexDigitValue(c) == v
  {
    if v < 10 then DigitChar(v)
    else if upper then ('A' as int + v - 10) as char
    else ('a' as int + v - 10) as char
  }

  /** The value of the hexadecimal digits `hs` read after digits worth `acc`, most
      significant first. */
  function HexValue(acc: nat, hs: string): (v: nat)
    requires forall k :: 0 <= k < |hs| ==> IsHexDigit(hs[k])
    ensures acc <= v
    decreases |hs|
  {
    if hs == [] then acc else HexValue(acc * 16 + HexDigitValue(hs[0]), hs[1..])
  }

  /** The extraction `>> hex` into a size_t from the text `s` still unread, after digits
      worth `acc` (`read` says whether any digit was taken): white space before the
      first digit is skipped, then hexadecimal digits are taken as long as they last.
      No digit leaves 0; a value too large for size_t saturates at its maximum. */
  function HexExtract(s: string, acc: nat, read: bool): (r: nat)
    requires !read ==> acc == 0
    ensures r <= SizeMax
    ensures !read && (s == [] || !(IsSpace(s[0]) || IsHexDigit(s[0]))) ==> r == 0
    decreases |s|
  {
    if s != [] && !read && IsSpace(s[0]) then HexExtract(s[1..], acc, read)
    else if s != [] && IsHexDigit(s[0]) then HexExtract(s[1..], acc * 16 + HexDigitValue(s[0]), true)
    else if acc > SizeMax then SizeMax
    else acc
  }

  /** `stoh`: a size_t read in hexadecimal from a string stream. */
  function Stoh(s: string): (r: nat)
    ensures r <= SizeMax
  {
    HexExtract(s, 0, false)
  }

  /** The hexadecimal rendering of `n`, without leading zeros. */
  function HexText(n: nat, upper: bool): (r: string)
    ensures |r| > 0 && forall k :: 0 <= k < |r| ==> IsHexDigit(r[k])
    ensures forall k :: 0 <= k < |r| ==> r[k] != '\r'
  {
    if n < 16 then [HexDigitChar(n, upper)]
    else HexText(n / 16, upper) + [HexDigitChar(n % 16, upper)]
  }

  function Pow16(k: nat): (p: nat)
    ensures p >= 1
  {
    if k == 0 then 1 else 16 * Pow16(k - 1)
  }

  /** A value in [16^k, 16^(k+1)) is rendered with k + 1 digits. */
  lemma {:induction false} HexTextLength(n: nat, upper: bool, k: nat)
    requires Pow16(k) <= n < Pow16(k + 1)
    ensures |HexText(n, upper)| == k + 1
  {
    if k > 0 {
      HexTextLength(n / 16, upper, k - 1);
    }
  }

  /** A digit read last is the least significant one. */
  lemma {:induction false} HexValueAppend(acc: nat, hs: string, c: char)
    requires forall k :: 0 <= k < |hs| ==> IsHexDigit(hs[k])
    requires IsHexDigit(c)
    ensures HexValue(acc, hs + [c]) == HexValue(acc, hs) * 16 + HexDigitValue(c)
    decreases |hs|
  {
    if hs != [] {
      assert (hs + [c])[1..] == hs[1..] + [c];
      HexValueAppend(acc * 16 + HexDigitValue(hs[0]), hs[1..], c);
    }
  }

  lemma {:induction false} HexValueOfHexText(n: nat, upper: bool)
    ensures HexValue(0, HexText(n, upper)) == n
  {
    if n >= 16 {
      HexValueOfHexText(n / 16, upper);
      HexValueAppend(0, HexText(n / 16, upper), HexDigitChar(n % 16, upper));
    }
  }

  /** Once a digit is read, the extraction takes the whole run of digits `hs` and stops
      at the first character that is not a digit. */
  lemma {:induction false} HexExtractDigits(hs: string, rest: string, acc: nat)
    requires forall k :: 0 <= k < |hs| ==> IsHexDigit(hs[k])
    requires rest == [] || !IsHexDigit(rest[0])
    ensures HexExtract(hs + rest, acc, true) == Min(HexValue(acc, hs), SizeMax)
    decreases |hs|
  {
    if hs != [] {
      assert (hs + rest)[1..] == hs[1..] + rest;
      HexExtractDigits(hs[1..], rest, acc * 16 + HexDigitValue(hs[0]));
    } else {
      assert hs + rest == rest;
    }
  }

  function Min(a: nat, b: nat): (m: nat)
    ensures m <= a && m <= b && (m == a || m == b)
  {
    if a <= b then a else b
  }

  /** `stoh` reads back the lower-case or upper-case hexadecimal rendering of every
      size_t value. */
  lemma StohOfHexText(n: nat, upper: bool)
    requires n <= SizeMax
    ensures Stoh(HexText(n, upper)) == n
  {
    var t := HexText(n, upper);
    assert !IsSpace(t[0]) && IsHexDigit(t[0]);
    HexExtractDigits(t[1..], [], HexDigitValue(t[0]));
    assert t[1..] + [] == t[1..];
    HexValueOfHexText(n, upper);
  }

  /** White space before the size is skipped. */
  lemma StohSkipsSpace(c: char, s: string)
    requires IsSpace(c)
    ensures Stoh([c] + s) == Stoh(s)
  {
    assert ([c] + s)[1..] == s;
  }
}
