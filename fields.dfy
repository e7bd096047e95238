/** Header fields on the wire: the "name: value" lines the request builder writes and
    the reading of such lines into a header map, which is what the response parser does
    between the status line and the blank line. */
module Fields {
  import opened Common

  /** One header field line, as written: name and value. */
  datatype Field = Field(name: string, value: string)

  /** "name: value", the text of a field line without its "\r\n". */
  function FieldText(f: Field): (r: string)
    ensures |r| == |f.name| + 2 + |f.value|
  {
    f.name + ": " + f.value
  }

  /** The texts of `fields`, in order. */
  function FieldTexts(fields: seq<Field>): (r: seq<string>)
    ensures |r| == |fields| && forall j :: 0 <= j < |r| ==> r[j] == FieldText(fields[j])
  {
    if fields == [] then [] else [FieldText(fields[0])] + FieldTexts(fields[1..])
  }

  /** A block of field lines, each ended by "\r\n". */
  function FieldBlock(fields: seq<Field>): string
  {
    Lines(FieldTexts(fields))
  }

  /** Adding a field at the end of a block adds its line. */
  lemma FieldBlockAppend(fields: seq<Field>, f: Field)
    ensures FieldBlock(fields + [f]) == FieldBlock(fields) + FieldText(f) + "\r\n"
  {
    assert FieldTexts(fields + [f]) == FieldTexts(fields) + [FieldText(f)];
    LinesAppend(FieldTexts(fields), FieldText(f));
  }

  /** The header map after storing `fields` into `acc` one by one, so that a later
      field with the same name overwrites an earlier one. */
  function MapOf(fields: seq<Field>, acc: map<string, string>): (r: map<string, string>)
    ensures acc.Keys <= r.Keys
    ensures fields != [] ==> fields[|fields| - 1].name in r && r[fields[|fields| - 1].name] == fields[|fields| - 1].value
  {
    if fields == [] then acc else MapOf(fields[1..], acc[fields[0].name := fields[0].value])
  }

  /** A field that can be written and read back: the name has no ':' and no '\r', and
      the value has no '\r'. */
  predicate WellFormed(f: Field)
  {
    ':' !in f.name && '\r' !in f.name && '\r' !in f.value
  }

  /** The outcome of reading field lines: the header map, or a line without ':'
      (the map read so far is kept), or a line whose ':' is directly followed by the
      line end, so that the value length "i - delim - 2" is negative. */
  datatype HeaderParse =
    | Fields(headers: map<string, string>)
    | MissingColon(partial: map<string, string>)
    | ValueUnderflow

  /** Reads the "\r\n"-terminated lines of `t` into `acc`. Each line is split at its
      first ':'; the name is the text before it and the value starts two characters
      after it. Text after the last "\r\n" is not a line and is ignored. */
  function ParseFieldLines(t: string, acc: map<string, string>): (r: HeaderParse)
    ensures r.Fields? ==> acc.Keys <= r.headers.Keys
    ensures r.MissingColon? ==> acc.Keys <= r.partial.Keys
    decreases |t|
  {
    match FindCrlf(t)
    case None => Fields(acc)
    case Some(j) =>
      var line := t[..j];
      match Find(line, ':')
      case None => MissingColon(acc)
      case Some(c) =>
        if j < c + 2 then ValueUnderflow
        else ParseFieldLines(t[j + 2..], acc[line[..c] := line[c + 2..]])
  }

  /** Text without a line end holds no field line. */
  lemma ParseFieldLinesNone(t: string, acc: map<string, string>)
    requires FindCrlf(t) == None
    ensures ParseFieldLines(t, acc) == Fields(acc)
  {
  }

  /** A first line without ':' stops the reading. */
  lemma ParseFieldLinesMissing(t: string, j: nat, acc: map<string, string>)
    requires FindCrlf(t) == Some(j) && Find(t[..j], ':') == None
    ensures ParseFieldLines(t, acc) == MissingColon(acc)
  {
  }

  /** A first line with its first ':' at `c` stores its name and value, unless the
      value would have a negative length. */
  lemma ParseFieldLinesStep(t: string, j: nat, c: nat, acc: map<string, string>)
    requires FindCrlf(t) == Some(j) && Find(t[..j], ':') == Some(c)
    ensures ParseFieldLines(t, acc)
      == if j < c + 2 then ValueUnderflow
         else ParseFieldLines(t[j + 2..], acc[t[..j][..c] := t[..j][c + 2..]])
  {
  }

  /** The same step with the stored name and value and the remaining text given by
      name. */
  lemma ParseFieldLinesStored(t: string, j: nat, c: nat, acc: map<string, string>, name: string, value: string, rest: string)
    requires FindCrlf(t) == Some(j) && Find(t[..j], ':') == Some(c) && c + 2 <= j
    requires name == t[..j][..c] && value == t[..j][c + 2..] && rest == t[j + 2..]
    ensures ParseFieldLines(t, acc) == ParseFieldLines(rest, acc[name := value])
  {
    ParseFieldLinesStep(t, j, c, acc);
  }

  /** A line "name: value" with a well-formed field is split back into that name and
      value: a ':' inside the value does not split it again. */
  lemma {:induction false} ParseOneField(f: Field, rest: string, acc: map<string, string>)
    requires WellFormed(f)
    ensures ParseFieldLines(FieldText(f) + "\r\n" + rest, acc)
      == ParseFieldLines(rest, acc[f.name := f.value])
  {
    var line := FieldText(f);
    var t := line + "\r\n" + rest;
    FieldTextParts(f);
    NoCrlfInside(line, "\r\n" + rest);
    assert t == line + ("\r\n" + rest);
    FindCrlfFirst(t, |line|);
    assert t[..|line|] == line;
    assert t[|line| + 2..] == rest;
  }

  /** The name of a well-formed field is the text of its line before the first ':',
      and its value the text from two characters after that ':'. */
  lemma {:induction false} FieldTextParts(f: Field)
    requires WellFormed(f)
    ensures '\r' !in FieldText(f)
    ensures Find(FieldText(f), ':') == Some(|f.name|)
    ensures FieldText(f)[..|f.name|] == f.name && FieldText(f)[|f.name| + 2..] == f.value
  {
    var line := FieldText(f);
    forall k | 0 <= k < |line| ensures line[k] != '\r' && (k < |f.name| ==> line[k] != ':') {
      if k < |f.name| {
        assert line[k] == f.name[k];
      } else if k >= |f.name| + 2 {
        assert line[k] == f.value[k - |f.name| - 2];
      }
    }
    FindFirst(line, ':', |f.name|);
    assert line[..|f.name|] == f.name;
    assert line[|f.name| + 2..] == f.value;
  }

  /** Reading back a block of well-formed field lines gives the map those fields
      write, with the last of several fields of one name winning. */
  lemma {:induction false} ParseFieldBlock(fields: seq<Field>, rest: string, acc: map<string, string>)
    requires forall j :: 0 <= j < |fields| ==> WellFormed(fields[j])
    ensures ParseFieldLines(FieldBlock(fields) + rest, acc)
      == ParseFieldLines(rest, MapOf(fields, acc))
  {
    if fields != [] {
      var f := fields[0];
      assert FieldTexts(fields)[1..] == FieldTexts(fields[1..]);
      assert FieldBlock(fields) + rest == FieldText(f) + "\r\n" + (FieldBlock(fields[1..]) + rest);
      ParseOneField(f, FieldBlock(fields[1..]) + rest, acc);
      ParseFieldBlock(fields[1..], rest, acc[f.name := f.value]);
    } else {
      assert FieldBlock(fields) + rest == rest;
    }
  }

  /** The round trip: a block of well-formed field lines reads back as the map of its
      fields. */
  lemma {:induction false} FieldBlockRoundTrip(fields: seq<Field>)
    requires forall j :: 0 <= j < |fields| ==> WellFormed(fields[j])
    ensures ParseFieldLines(FieldBlock(fields), map[]) == Fields(MapOf(fields, map[]))
  {
    ParseFieldBlock(fields, "", map[]);
    assert FieldBlock(fields) + "" == FieldBlock(fields);
  }

  /** The names that `fields` carry. */
  function Names(fields: seq<Field>): (r: set<string>)
    ensures forall j :: 0 <= j < |fields| ==> fields[j].name in r
    ensures forall n :: n in r ==> exists j :: 0 <= j < |fields| && fields[j].name == n
  {
    set j | 0 <= j < |fields| :: fields[j].name
  }

  /** Last write wins: a field stored after the others overwrites whatever value they
      gave its name. */
  lemma {:induction false} MapOfAppend(fields: seq<Field>, f: Field, acc: map<string, string>)
    ensures MapOf(fields + [f], acc) == MapOf(fields, acc)[f.name := f.value]
  {
    if fields != [] {
      assert (fields + [f])[1..] == fields[1..] + [f];
      MapOfAppend(fields[1..], f, acc[fields[0].name := fields[0].value]);
    }
  }

  /** The map has the names of `acc` and of every field, and no other; a name that no
      field carries keeps its value from `acc`. */
  lemma {:induction false} MapOfKeys(fields: seq<Field>, acc: map<string, string>)
    ensures MapOf(fields, acc).Keys == acc.Keys + Names(fields)
    ensures forall n :: n in acc && n !in Names(fields) ==> MapOf(fields, acc)[n] == acc[n]
  {
    if fields != [] {
      var acc' := acc[fields[0].name := fields[0].value];
      MapOfKeys(fields[1..], acc');
      assert Names(fields) == {fields[0].name} + Names(fields[1..]) by {
        forall n | n in Names(fields) ensures n in {fields[0].name} + Names(fields[1..]) {
          var j :| 0 <= j < |fields| && fields[j].name == n;
          if j > 0 { assert fields[1..][j - 1].name == n; }
        }
        forall n | n in Names(fields[1..]) ensures n in Names(fields) {
          var j :| 0 <= j < |fields[1..]| && fields[1..][j].name == n;
          assert fields[j + 1].name == n;
        }
      }
    }
  }
}
