/**
 * The line structure of an Internet message as the mail builders write it
 * (section 2.2 of RFC 5322): header fields "Name: value", each line ended by
 * CRLF, then an empty line, then the body. The reader here is the reference
 * against which the builders' output is checked.
 */
module MimeText {
  import opened PhpString

  const COLON: byte := 58

  /** The header line "Name: value". */
  function Field(name: bytes, value: bytes): bytes {
    name + [COLON, SPACE] + value
  }

  /** A header field whose line reads back unchanged: a non-empty name with no ':' or CR, a value with no CR. */
  predicate GoodField(f: (bytes, bytes)) {
    |f.0| > 0 && Free(f.0, COLON) && Free(f.0, CR) && Free(f.1, CR)
  }

  predicate GoodFields(fields: seq<(bytes, bytes)>) {
    forall i :: 0 <= i < |fields| ==> GoodField(fields[i])
  }

  /** The header lines of a list of fields. */
  function FieldLines(fields: seq<(bytes, bytes)>): (r: seq<bytes>)
    ensures |r| == |fields|
    ensures forall i :: 0 <= i < |fields| ==> r[i] == Field(fields[i].0, fields[i].1)
  {
    seq(|fields|, i requires 0 <= i < |fields| => Field(fields[i].0, fields[i].1))
  }

  lemma FieldLinesAppend(a: seq<(bytes, bytes)>, b: seq<(bytes, bytes)>)
    ensures FieldLines(a + b) == FieldLines(a) + FieldLines(b)
  {
  }

  /** A message: every header line ended by CRLF, an empty line, then the body. */
  function Compose(fields: seq<(bytes, bytes)>, body: bytes): bytes {
    Concat(Terminated(FieldLines(fields), CRLF())) + CRLF() + body
  }

  /** The index of the first b in s. */
  function FirstIndex(s: bytes, b: byte): (r: Option<nat>)
    ensures r.None? <==> Free(s, b)
    ensures r.Some? ==> r.value < |s| && s[r.value] == b && Free(s[..r.value], b)
    decreases |s|
  {
    if |s| == 0 then None
    else if s[0] == b then Some(0)
    else match FirstIndex(s[1..], b)
      case None => None
      case Some(i) =>
        assert s[..i + 1] == [s[0]] + s[1..][..i];
        Some(i + 1)
  }

  /** The first line of s and the text after its CRLF; None when s holds no CRLF. */
  function BreakLine(s: bytes): (r: Option<(bytes, bytes)>)
    ensures r.Some? ==> s == r.value.0 + CRLF() + r.value.1
    decreases |s|
  {
    if |s| < 2 then None
    else if s[0] == CR && s[1] == LF then Some(([], s[2..]))
    else match BreakLine(s[1..])
      case None => None
      case Some(split) => Some(([s[0]] + split.0, split.1))
  }

  /** The header lines up to the first empty line, and the body after it; None when there is no empty line. */
  function ReadLines(raw: bytes): Option<(seq<bytes>, bytes)>
    decreases |raw|
  {
    match BreakLine(raw)
    case None => None
    case Some(split) =>
      if split.0 == [] then Some(([], split.1))
      else match ReadLines(split.1)
        case None => None
        case Some(rest) => Some(([split.0] + rest.0, rest.1))
  }

  /** A header line cut at its first ':', dropping one space after it; None when there is no ':'. */
  function SplitField(line: bytes): Option<(bytes, bytes)> {
    match FirstIndex(line, COLON)
    case None => None
    case Some(i) =>
      var rest := line[i + 1..];
      Some((line[..i], if |rest| > 0 && rest[0] == SPACE then rest[1..] else rest))
  }

  function SplitFields(lines: seq<bytes>): Option<seq<(bytes, bytes)>>
    decreases |lines|
  {
    if |lines| == 0 then Some([])
    else match (SplitField(lines[0]), SplitFields(lines[1..]))
      case (Some(f), Some(fs)) => Some([f] + fs)
      case _ => None
  }

  /** A message read back as its header fields and its body. */
  function Parse(raw: bytes): Option<(seq<(bytes, bytes)>, bytes)> {
    match ReadLines(raw)
    case None => None
    case Some(read) =>
      match SplitFields(read.0)
      case None => None
      case Some(fields) => Some((fields, read.1))
  }

  lemma {:induction false} FirstIndexAfter(x: bytes, b: byte, y: bytes)
    requires Free(x, b)
    ensures FirstIndex(x + [b] + y, b) == Some(|x|)
    decreases |x|
  {
    if |x| > 0 {
      assert (x + [b] + y)[1..] == x[1..] + [b] + y;
      FirstIndexAfter(x[1..], b, y);
    }
  }

  lemma {:induction false} BreakLineAfter(x: bytes, y: bytes)
    requires Free(x, CR)
    ensures BreakLine(x + CRLF() + y) == Some((x, y))
    decreases |x|
  {
    var s := x + CRLF() + y;
    if |x| == 0 {
      assert s[2..] == y;
    } else {
      assert s[0] == x[0] != CR;
      assert s[1..] == x[1..] + CRLF() + y;
      BreakLineAfter(x[1..], y);
      assert [x[0]] + x[1..] == x;
    }
  }

  /** A field's line reads back as that field. */
  lemma SplitFieldOf(f: (bytes, bytes))
    requires Free(f.0, COLON)
    ensures SplitField(Field(f.0, f.1)) == Some(f)
  {
    var line := Field(f.0, f.1);
    FirstIndexAfter(f.0, COLON, [SPACE] + f.1);
    assert line == f.0 + [COLON] + ([SPACE] + f.1);
    assert line[..|f.0|] == f.0;
    assert line[|f.0| + 1..] == [SPACE] + f.1;
  }

  lemma {:induction false} SplitFieldLines(fields: seq<(bytes, bytes)>)
    requires GoodFields(fields)
    ensures SplitFields(FieldLines(fields)) == Some(fields)
    decreases |fields|
  {
    if |fields| > 0 {
      SplitFieldOf(fields[0]);
      assert FieldLines(fields)[1..] == FieldLines(fields[1..]);
      SplitFieldLines(fields[1..]);
      assert [fields[0]] + fields[1..] == fields;
    }
  }

  lemma FieldLineFree(f: (bytes, bytes))
    requires GoodField(f)
    ensures |Field(f.0, f.1)| > 0 && Free(Field(f.0, f.1), CR)
  {
    var line := Field(f.0, f.1);
    forall k | 0 <= k < |line| ensures line[k] != CR {
      if k < |f.0| {
        assert line[k] == f.0[k];
      } else if k >= |f.0| + 2 {
        assert line[k] == f.1[k - |f.0| - 2];
      }
    }
  }

  lemma {:induction false} ReadComposedLines(fields: seq<(bytes, bytes)>, body: bytes)
    requires GoodFields(fields)
    ensures ReadLines(Compose(fields, body)) == Some((FieldLines(fields), body))
    decreases |fields|
  {
    var lines := FieldLines(fields);
    var t := Terminated(lines, CRLF());
    if |fields| == 0 {
      assert Compose(fields, body) == [] + CRLF() + body;
      BreakLineAfter([], body);
    } else {
      FieldLineFree(fields[0]);
      assert t[1..] == Terminated(FieldLines(fields[1..]), CRLF());
      assert lines[1..] == FieldLines(fields[1..]);
      assert Compose(fields, body) == lines[0] + CRLF() + Compose(fields[1..], body);
      BreakLineAfter(lines[0], Compose(fields[1..], body));
      ReadComposedLines(fields[1..], body);
      assert [lines[0]] + lines[1..] == lines;
    }
  }

  /** Reading a composed message gives back its fields, in order, and its body, whatever the body holds. */
  lemma ParseCompose(fields: seq<(bytes, bytes)>, body: bytes)
    requires GoodFields(fields)
    ensures Parse(Compose(fields, body)) == Some((fields, body))
  {
    ReadComposedLines(fields, body);
    SplitFieldLines(fields);
  }

  /** Header lines joined with CRLF and followed by an empty line: the composed form. */
  lemma JoinedHeaders(fields: seq<(bytes, bytes)>, body: bytes)
    requires |fields| > 0
    ensures Join(FieldLines(fields), CRLF()) + CRLF() + CRLF() + body == Compose(fields, body)
  {
    JoinThenTerminate(FieldLines(fields), CRLF());
  }

  lemma FreeJoin(parts: seq<bytes>, sep: bytes, b: byte)
    requires Free(sep, b) && forall i :: 0 <= i < |parts| ==> Free(parts[i], b)
    ensures Free(Join(parts, sep), b)
    decreases |parts|
  {
    if |parts| > 1 {
      FreeJoin(parts[1..], sep, b);
      FreeAppend(parts[0], sep, b);
      FreeAppend(parts[0] + sep, Join(parts[1..], sep), b);
    }
  }

  lemma FreeAppend(x: bytes, y: bytes, b: byte)
    requires Free(x, b) && Free(y, b)
    ensures Free(x + y, b)
  {
    forall k | 0 <= k < |x + y| ensures (x + y)[k] != b {
      if k >= |x| {
        assert (x + y)[k] == y[k - |x|];
      }
    }
  }

  /** An ASCII literal of printable characters holds no CR. */
  lemma PrintableText(s: string)
    requires forall i :: 0 <= i < |s| ==> ' ' <= s[i] <= '~'
    ensures Free(Ascii(s), CR)
  {
  }

  /** A header name made of letters and '-' is a good name. */
  lemma NameText(s: string)
    requires |s| > 0
    requires forall i :: 0 <= i < |s| ==> 'A' <= s[i] <= 'Z' || 'a' <= s[i] <= 'z' || s[i] == '-'
    ensures |Ascii(s)| > 0 && Free(Ascii(s), COLON) && Free(Ascii(s), CR)
  {
  }
}
