/**
 * Reading a multipart/mixed body back (section 5.1.1 of RFC 2046). An
 * independent splitter cuts the body at its boundary delimiters: after the
 * opening "--boundary" line every part runs up to the next "--boundary",
 * which either opens another part (followed by CRLF) or closes the body
 * (followed by "--"). The body the sending code writes splits back into its
 * body part and one part per attachment, in order, as long as the boundary
 * is made of letters, digits and '_' (uniqid gives hex digits) and occurs in
 * none of the texts the message carries: the body, and each attachment's
 * MIME type and client name. Each of those parts then reads back on its own.
 */
module MultipartSplit {
  import opened PhpString
  import opened Base64
  import opened MimeText
  import opened OutgoingMessage

  const SEMICOLON: byte := 59

  /** The first index at which m occurs in s, if any (strpos). */
  function FirstOccurrence(s: bytes, m: bytes): (r: Option<nat>)
    ensures r.Some? ==> OccursAt(s, m, r.value) && forall j :: 0 <= j < r.value ==> !OccursAt(s, m, j)
    ensures r.None? ==> forall j :: !OccursAt(s, m, j)
    decreases |s|
  {
    if |s| < |m| then None
    else if s[..|m|] == m then Some(0)
    else
      OccursShift(s, m);
      match FirstOccurrence(s[1..], m)
      case None => None
      case Some(i) => Some(i + 1)
  }

  /** An occurrence after the first byte is an occurrence in the rest. */
  lemma OccursShift(s: bytes, m: bytes)
    requires |s| > 0
    ensures forall j :: 1 <= j ==> (OccursAt(s, m, j) <==> OccursAt(s[1..], m, j - 1))
  {
    forall j | 1 <= j
      ensures OccursAt(s, m, j) <==> OccursAt(s[1..], m, j - 1)
    {
      if j + |m| <= |s| {
        SliceShift(s, j, |m|);
      }
    }
  }

  lemma SliceShift(s: bytes, j: int, n: nat)
    requires 1 <= j && j + n <= |s|
    ensures s[j..j + n] == s[1..][j - 1..j - 1 + n]
  {
    var shifted, direct := s[1..][j - 1..j - 1 + n], s[j..j + n];
    assert forall i :: 0 <= i < n ==> shifted[i] == direct[i];
  }

  /**
   * The parts after the opening delimiter line, m being "--" + boundary:
   * each part ends where m next occurs; a CRLF after m opens another part,
   * "--" after m closes the body, which must then end.
   */
  function SplitParts(rest: bytes, m: bytes): Option<seq<bytes>>
    decreases |rest|
  {
    match FirstOccurrence(rest, m)
    case None => None
    case Some(i) =>
      var after := rest[i + |m|..];
      if after == DASHES then Some([rest[..i]])
      else if |after| >= 2 && after[..2] == CRLF() then
        match SplitParts(after[2..], m)
        case None => None
        case Some(ps) => Some([rest[..i]] + ps)
      else None
  }

  /** The parts of a multipart body with boundary b: it must open with the line "--b". */
  function SplitMultipart(text: bytes, b: bytes): Option<seq<bytes>> {
    var m := DASHES + b;
    if |text| >= |m| + 2 && text[..|m| + 2] == m + CRLF() then SplitParts(text[|m| + 2..], m) else None
  }

  /** Parts separated by the delimiter m, each occurrence of m followed by CRLF. */
  function Delimited(ps: seq<bytes>, m: bytes): bytes
    requires |ps| > 0
    decreases |ps|
  {
    if |ps| == 1 then ps[0] else Delimited(ps[..|ps| - 1], m) + m + CRLF() + ps[|ps| - 1]
  }

  /** The attachment parts, in order. */
  function AttachmentParts(atts: seq<Attachment>): (ps: seq<bytes>)
    ensures |ps| == |atts|
  {
    seq(|atts|, i requires 0 <= i < |atts| => AttachmentPart(atts[i]))
  }

  /** The parts the multipart body carries: the body part, then the attachment parts. */
  function Parts(d: MailData): seq<bytes> {
    [BodyPart(d)] + AttachmentParts(d.attachments)
  }

  /** A part whose end the splitter finds: non-empty, free of m, and ending in a byte m lacks. */
  predicate Separable(p: bytes, m: bytes) {
    |p| > 0 && !Contains(p, m) && Free(m, p[|p| - 1])
  }

  /** The bytes a boundary is made of here: ASCII letters, digits and '_'. */
  predicate WordBytes(s: bytes) {
    forall k :: 0 <= k < |s| ==>
      48 <= s[k] <= 57 || 65 <= s[k] <= 90 || 97 <= s[k] <= 122 || s[k] == 95
  }

  /** A delimiter that starts with "--" and holds none of the separator bytes the parts use. */
  predicate Marker(m: bytes) {
    && |m| >= 2 && m[0] == MINUS && m[1] == MINUS
    && Free(m, COLON) && Free(m, SPACE) && Free(m, SEMICOLON) && Free(m, QUOTE)
    && Free(m, CR) && Free(m, LF)
  }

  /** No two consecutive '-'. */
  predicate NoDoubleDash(s: bytes) {
    forall k :: 0 <= k < |s| - 1 ==> !(s[k] == MINUS && s[k + 1] == MINUS)
  }

  /** The texts of the message in which the delimiter "--" + b must not occur. */
  predicate BoundaryAbsent(d: MailData, b: bytes) {
    && !Contains(d.body, DASHES + b)
    && forall i :: 0 <= i < |d.attachments| ==>
         !Contains(d.attachments[i].mimeType, DASHES + b) && !Contains(d.attachments[i].clientName, DASHES + b)
  }

  /** Read from the front, the delimited parts are the first part, m, CRLF and the rest delimited. */
  lemma {:induction false} DelimitedFront(ps: seq<bytes>, m: bytes)
    requires |ps| >= 2
    ensures Delimited(ps, m) == ps[0] + m + CRLF() + Delimited(ps[1..], m)
    decreases |ps|
  {
    var n := |ps|;
    if n == 2 {
      assert ps[..1] == [ps[0]];
      assert ps[1..] == [ps[1]];
    } else {
      var init := ps[..n - 1];
      DelimitedFront(init, m);
      assert init[1..] == ps[1..][..n - 2];
      assert ps[1..][n - 2] == ps[n - 1];
      calc {
        Delimited(ps, m);
        Delimited(init, m) + m + CRLF() + ps[n - 1];
        ps[0] + m + CRLF() + Delimited(init[1..], m) + m + CRLF() + ps[n - 1];
        ps[0] + m + CRLF() + (Delimited(ps[1..][..n - 2], m) + m + CRLF() + ps[1..][n - 2]);
        ps[0] + m + CRLF() + Delimited(ps[1..], m);
      }
    }
  }

  /** In x + m + y the first occurrence of m is the one after x, when x is separable. */
  lemma FirstAt(x: bytes, m: bytes, y: bytes)
    requires Separable(x, m)
    ensures FirstOccurrence(x + m + y, m) == Some(|x|)
  {
    var s := x + m + y;
    assert s[|x|..|x| + |m|] == m;
    assert OccursAt(s, m, |x|);
    forall j | 0 <= j < |x| && j + |m| <= |s|
      ensures !OccursAt(s, m, j)
    {
      if j + |m| <= |x| {
        assert s[j..j + |m|] == x[j..j + |m|];
        assert !OccursAt(x, m, j);
      } else {
        assert s[j..j + |m|][|x| - 1 - j] == x[|x| - 1];
      }
    }
  }

  /** Separable parts, delimited and closed with m + "--", split back into themselves. */
  lemma {:induction false} SplitDelimited(ps: seq<bytes>, m: bytes)
    requires |ps| > 0 && forall i :: 0 <= i < |ps| ==> Separable(ps[i], m)
    ensures SplitParts(Delimited(ps, m) + m + DASHES, m) == Some(ps)
    decreases |ps|
  {
    var p := ps[0];
    if |ps| == 1 {
      assert Delimited(ps, m) == p && ps == [p];
      SplitLast(p, m);
    } else {
      DelimitedFront(ps, m);
      var tail := Delimited(ps[1..], m) + m + DASHES;
      RegroupFront(p, m, CRLF(), Delimited(ps[1..], m), DASHES);
      SplitDelimited(ps[1..], m);
      SplitNext(p, m, tail);
      assert [p] + ps[1..] == ps;
    }
  }

  /** A separable part closed with m + "--" is the only part. */
  lemma SplitLast(p: bytes, m: bytes)
    requires Separable(p, m)
    ensures SplitParts(p + m + DASHES, m) == Some([p])
  {
    var t := p + m + DASHES;
    FirstAt(p, m, DASHES);
    assert t[|p| + |m|..] == DASHES;
    assert t[..|p|] == p;
  }

  /** A separable part followed by m and CRLF comes first, before the parts of the rest. */
  lemma SplitNext(p: bytes, m: bytes, tail: bytes)
    requires Separable(p, m)
    ensures SplitParts(tail, m).Some? ==> SplitParts(p + m + (CRLF() + tail), m) == Some([p] + SplitParts(tail, m).value)
  {
    var rest := CRLF() + tail;
    var t := p + m + rest;
    FirstAt(p, m, rest);
    assert t[|p| + |m|..] == rest;
    assert t[..|p|] == p;
    assert rest[0] == CR && DASHES[0] == MINUS;
    assert rest[..2] == CRLF() && rest[2..] == tail;
  }

  /** Regrouping the front part off delimited parts. */
  lemma {:induction false} RegroupFront(p: bytes, m: bytes, nl: bytes, rest: bytes, close: bytes)
    ensures p + m + nl + rest + m + close == p + m + (nl + (rest + m + close))
  {
  }

  /** x followed by the first k attachment sections is x and those attachment parts, delimited. */
  lemma {:induction false} SectionsDelimited(x: bytes, b: bytes, atts: seq<Attachment>, k: nat)
    requires k <= |atts|
    ensures x + AttachmentSections(b, atts, k) == Delimited([x] + AttachmentParts(atts)[..k], DASHES + b)
    decreases k
  {
    if k == 0 {
      assert [x] + AttachmentParts(atts)[..k] == [x];
    } else {
      var ps := AttachmentParts(atts);
      var init := [x] + ps[..k - 1];
      var p := ps[k - 1];
      assert p == AttachmentPart(atts[k - 1]);
      var before := AttachmentSections(b, atts, k - 1);
      SectionsDelimited(x, b, atts, k - 1);
      assert AttachmentSections(b, atts, k) == before + (DASHES + b + CRLF() + p);
      DelimitedSnoc(init, x, before, DASHES + b, CRLF(), p);
      TakeSnoc(ps, k);
      AssociateSeq([x], ps[..k - 1], [p]);
      assert [x] + ps[..k] == init + [p];
    }
  }

  /** Appending a delimiter line and a part to delimited parts delimits one part more. */
  lemma DelimitedSnoc(ps: seq<bytes>, x: bytes, a: bytes, m: bytes, nl: bytes, p: bytes)
    requires |ps| > 0 && x + a == Delimited(ps, m) && nl == CRLF()
    ensures x + (a + (m + nl + p)) == Delimited(ps + [p], m)
  {
    var q := ps + [p];
    assert q[..|q| - 1] == ps && q[|q| - 1] == p;
    AssociateSeq(x, a, m + nl + p);
    AssociateSeq(x + a, m + nl, p);
    AssociateSeq(x + a, m, nl);
  }

  lemma TakeSnoc<T>(s: seq<T>, k: nat)
    requires 0 < k <= |s|
    ensures s[..k] == s[..k - 1] + [s[k - 1]]
  {
  }

  /** The multipart body is the opening delimiter line, the parts delimited, and the close delimiter. */
  lemma MultipartDelimited(d: MailData, b: bytes)
    ensures Multipart(d, b) == (DASHES + b) + CRLF() + (Delimited(Parts(d), DASHES + b) + (DASHES + b) + DASHES)
  {
    var atts := d.attachments;
    SectionsDelimited(BodyPart(d), b, atts, |atts|);
    assert AttachmentParts(atts)[..|atts|] == AttachmentParts(atts);
    RegroupClose(DASHES + b, CRLF(), BodyPart(d), AttachmentSections(b, atts, |atts|), DASHES, b);
  }

  /** Regrouping the opening delimiter line and the close delimiter off the parts. */
  lemma {:induction false} RegroupClose(m: bytes, nl: bytes, first: bytes, sections: bytes, dashes: bytes, b: bytes)
    requires m == dashes + b
    ensures m + nl + first + sections + dashes + b + dashes == m + nl + ((first + sections) + m + dashes)
  {
  }

  /** A body whose parts are all separable splits back into exactly those parts. */
  lemma SplitsIntoParts(d: MailData, b: bytes)
    requires forall i :: 0 <= i < |Parts(d)| ==> Separable(Parts(d)[i], DASHES + b)
    ensures SplitMultipart(Multipart(d, b), b) == Some(Parts(d))
  {
    var m := DASHES + b;
    var rest := Delimited(Parts(d), m) + m + DASHES;
    MultipartDelimited(d, b);
    var text := Multipart(d, b);
    assert text == (m + CRLF()) + rest;
    assert text[..|m| + 2] == m + CRLF();
    assert text[|m| + 2..] == rest;
    SplitDelimited(Parts(d), m);
  }

  /** "--" and a boundary of word bytes make a delimiter without separator bytes. */
  lemma MarkerOf(b: bytes)
    requires WordBytes(b)
    ensures Marker(DASHES + b)
  {
    var m := DASHES + b;
    assert forall k :: 2 <= k < |m| ==> m[k] == b[k - 2];
  }

  /** uniqid('boundary_') is made of word bytes when the unique part is. */
  lemma BoundaryWordBytes(uniq: bytes)
    requires WordBytes(uniq)
    ensures WordBytes(Boundary(uniq))
  {
    var p := Ascii("boundary_");
    assert forall k :: 0 <= k < |p| ==> 97 <= p[k] <= 122 || p[k] == 95;
    assert forall k :: |p| <= k < |Boundary(uniq)| ==> Boundary(uniq)[k] == uniq[k - |p|];
  }

  /** A printable literal without "--". */
  lemma DashText(s: string)
    requires forall k :: 0 <= k < |s| ==> ' ' <= s[k] <= '~'
    requires forall k :: 0 <= k < |s| - 1 ==> !(s[k] == '-' && s[k + 1] == '-')
    ensures NoDoubleDash(Ascii(s))
  {
  }

  /** A text without "--" holds no delimiter. */
  lemma NoDelimiterIn(s: bytes, m: bytes)
    requires Marker(m) && NoDoubleDash(s)
    ensures !Contains(s, m)
  {
    forall j | 0 <= j <= |s| - |m|
      ensures !OccursAt(s, m, j)
    {
      assert s[j..j + |m|][0] == s[j] && s[j..j + |m|][1] == s[j + 1];
    }
  }

  /** Two texts free of m stay free of it when joined at a byte m lacks. */
  lemma AvoidsJoin(x: bytes, y: bytes, m: bytes)
    requires !Contains(x, m) && !Contains(y, m)
    requires |x| == 0 || |y| == 0 || Free(m, x[|x| - 1]) || Free(m, y[0])
    ensures !Contains(x + y, m)
  {
    var s := x + y;
    forall j | 0 <= j <= |s| - |m|
      ensures !OccursAt(s, m, j)
    {
      if j + |m| <= |x| {
        assert s[j..j + |m|] == x[j..j + |m|];
        assert !OccursAt(x, m, j);
      } else if j >= |x| {
        assert s[j..j + |m|] == y[j - |x|..j - |x| + |m|];
        assert !OccursAt(y, m, j - |x|);
      } else if Free(m, x[|x| - 1]) {
        assert s[j..j + |m|][|x| - 1 - j] == x[|x| - 1];
      } else {
        assert s[j..j + |m|][|x| - j] == y[0];
      }
    }
  }

  /** A header line "name: value" holds no delimiter when its name and value hold none. */
  lemma FieldAvoids(name: bytes, value: bytes, m: bytes)
    requires Marker(m) && !Contains(name, m) && !Contains(value, m)
    ensures !Contains(Field(name, value), m)
  {
    var sep: bytes := [COLON, SPACE];
    NoDelimiterIn(sep, m);
    AvoidsJoin(name, sep, m);
    AvoidsJoin(name + sep, value, m);
  }

  /** The line break holds no delimiter. */
  lemma LineBreakAvoids(m: bytes)
    requires Marker(m)
    ensures !Contains(CRLF(), m)
  {
    NoDelimiterIn(CRLF(), m);
  }

  /** The body part is separable when the body holds no delimiter. */
  lemma BodyPartAvoids(d: MailData, m: bytes)
    requires Marker(m) && !Contains(d.body, m)
    ensures Separable(BodyPart(d), m)
  {
    DashText("Content-Type");
    DashText("text/html");
    DashText("text/plain");
    DashText("; charset=utf-8");
    NoDelimiterIn(CONTENT_TYPE, m);
    NoDelimiterIn(MediaType(d.isHtml), m);
    NoDelimiterIn(CHARSET, m);
    AvoidsJoin(MediaType(d.isHtml), CHARSET, m);
    FieldAvoids(CONTENT_TYPE, ContentType(d.isHtml), m);
    var f := Field(CONTENT_TYPE, ContentType(d.isHtml));
    var nl := CRLF();
    LineBreakAvoids(m);
    AvoidsJoin(f, nl, m);
    AvoidsJoin(f + nl, nl, m);
    AvoidsJoin(f + nl + nl, d.body, m);
    AvoidsJoin(f + nl + nl + d.body, nl, m);
    AvoidsJoin(f + nl + nl + d.body + nl, nl, m);
  }

  /** A quoted text holds no delimiter when the text holds none. */
  lemma QuotedAvoids(s: bytes, m: bytes)
    requires Marker(m) && !Contains(s, m)
    ensures !Contains(Quoted(s), m)
  {
    NoDelimiterIn([QUOTE], m);
    AvoidsJoin([QUOTE], s, m);
    AvoidsJoin([QUOTE] + s, [QUOTE], m);
  }

  /** The Content-Type line of an attachment part holds no delimiter. */
  lemma TypeFieldAvoids(a: Attachment, m: bytes)
    requires Marker(m) && !Contains(a.mimeType, m) && !Contains(a.clientName, m)
    ensures !Contains(Field(CONTENT_TYPE, a.mimeType + NAME_PARAM + Quoted(a.clientName)), m)
  {
    DashText("Content-Type");
    DashText("; name=");
    NoDelimiterIn(CONTENT_TYPE, m);
    NoDelimiterIn(NAME_PARAM, m);
    QuotedAvoids(a.clientName, m);
    AvoidsJoin(a.mimeType, NAME_PARAM, m);
    AvoidsJoin(a.mimeType + NAME_PARAM, Quoted(a.clientName), m);
    FieldAvoids(CONTENT_TYPE, a.mimeType + NAME_PARAM + Quoted(a.clientName), m);
  }

  /** The Content-Disposition line of an attachment part holds no delimiter. */
  lemma DispositionFieldAvoids(a: Attachment, m: bytes)
    requires Marker(m) && !Contains(a.clientName, m)
    ensures !Contains(Field(CONTENT_DISPOSITION, FILENAME_PARAM + Quoted(a.clientName)), m)
  {
    DashText("Content-Disposition");
    DashText("attachment; filename=");
    NoDelimiterIn(CONTENT_DISPOSITION, m);
    NoDelimiterIn(FILENAME_PARAM, m);
    QuotedAvoids(a.clientName, m);
    AvoidsJoin(FILENAME_PARAM, Quoted(a.clientName), m);
    FieldAvoids(CONTENT_DISPOSITION, FILENAME_PARAM + Quoted(a.clientName), m);
  }

  /** The Content-Transfer-Encoding line holds no delimiter. */
  lemma EncodingFieldAvoids(m: bytes)
    requires Marker(m)
    ensures !Contains(Field(TRANSFER_ENCODING, BASE64), m)
  {
    DashText("Content-Transfer-Encoding");
    DashText("base64");
    NoDelimiterIn(TRANSFER_ENCODING, m);
    NoDelimiterIn(BASE64, m);
    FieldAvoids(TRANSFER_ENCODING, BASE64, m);
  }

  /** chunk_split adds only line breaks, so a byte other than CR and LF stays absent. */
  lemma {:induction false} ChunkSplitFree(s: bytes, c: byte)
    requires Free(s, c) && c != CR && c != LF
    ensures Free(ChunkSplit(s), c)
    decreases |s|
  {
    if |s| <= CHUNK {
      FreeAppend(s, CRLF(), c);
    } else {
      ChunkSplitFree(s[CHUNK..], c);
      FreeAppend(s[..CHUNK], CRLF(), c);
      FreeAppend(s[..CHUNK] + CRLF(), ChunkSplit(s[CHUNK..]), c);
    }
  }

  /** The chunked base64 content holds no '-', so no delimiter. */
  lemma PayloadAvoids(content: bytes, m: bytes)
    requires Marker(m)
    ensures !Contains(ChunkSplit(Encode(content)), m)
  {
    EncodedHasNoUrlSymbols(content);
    ChunkSplitFree(Encode(content), MINUS);
    NoDelimiterIn(ChunkSplit(Encode(content)), m);
  }

  /** An attachment part is separable when its MIME type and client name hold no delimiter. */
  lemma AttachmentPartAvoids(a: Attachment, m: bytes)
    requires Marker(m) && !Contains(a.mimeType, m) && !Contains(a.clientName, m)
    ensures Separable(AttachmentPart(a), m)
  {
    var f1 := Field(CONTENT_TYPE, a.mimeType + NAME_PARAM + Quoted(a.clientName));
    var f2 := Field(CONTENT_DISPOSITION, FILENAME_PARAM + Quoted(a.clientName));
    var f3 := Field(TRANSFER_ENCODING, BASE64);
    var p := ChunkSplit(Encode(a.content));
    var nl := CRLF();
    TypeFieldAvoids(a, m);
    DispositionFieldAvoids(a, m);
    EncodingFieldAvoids(m);
    PayloadAvoids(a.content, m);
    LineBreakAvoids(m);
    AvoidsJoin(f1, nl, m);
    AvoidsJoin(f1 + nl, f2, m);
    AvoidsJoin(f1 + nl + f2, nl, m);
    AvoidsJoin(f1 + nl + f2 + nl, f3, m);
    AvoidsJoin(f1 + nl + f2 + nl + f3, nl, m);
    AvoidsJoin(f1 + nl + f2 + nl + f3 + nl, nl, m);
    AvoidsJoin(f1 + nl + f2 + nl + f3 + nl + nl, p, m);
    AvoidsJoin(f1 + nl + f2 + nl + f3 + nl + nl + p, nl, m);
  }

  /**
   * The multipart body splits back into the body part and the attachment
   * parts, in order, when the boundary is made of word bytes and occurs in
   * neither the body nor any attachment's MIME type or client name.
   */
  lemma MultipartSplits(d: MailData, b: bytes)
    requires WordBytes(b) && BoundaryAbsent(d, b)
    ensures SplitMultipart(Multipart(d, b), b) == Some([BodyPart(d)] + AttachmentParts(d.attachments))
  {
    var m := DASHES + b;
    MarkerOf(b);
    BodyPartAvoids(d, m);
    forall i | 0 <= i < |d.attachments|
      ensures Separable(AttachmentPart(d.attachments[i]), m)
    {
      AttachmentPartAvoids(d.attachments[i], m);
    }
    SplitsIntoParts(d, b);
  }

  /**
   * A message with attachments reads back whole: its header fields, then
   * from its body the body text (followed by the two line breaks the source
   * writes after it) under the chosen Content-Type, and for each attachment,
   * in order, its MIME type and client name in the part's header fields and
   * its content from the base64 payload.
   */
  lemma AttachmentMessageReadsBack(from: bytes, d: MailData, uniq: bytes)
    requires SafeMail(from, d, uniq) && d.attachments != []
    requires WordBytes(uniq) && BoundaryAbsent(d, Boundary(uniq))
    requires forall i :: 0 <= i < |d.attachments| ==>
      Free(d.attachments[i].mimeType, CR) && Free(d.attachments[i].clientName, CR)
    ensures Parse(RawMessage(from, d, uniq)) == Some((HeaderFields(from, d, uniq), Multipart(d, Boundary(uniq))))
    ensures var parts := SplitMultipart(Multipart(d, Boundary(uniq)), Boundary(uniq));
      && parts.Some? && |parts.value| == |d.attachments| + 1
      && Parse(parts.value[0]) == Some(([(CONTENT_TYPE, ContentType(d.isHtml))], d.body + CRLF() + CRLF()))
      && forall i :: 0 <= i < |d.attachments| ==>
           && Parse(parts.value[i + 1]) == Some((AttachmentFields(d.attachments[i]), Payload(d.attachments[i])))
           && Decode(Payload(d.attachments[i])) == d.attachments[i].content
  {
    RawMessageReadsBack(from, d, uniq);
    BoundaryWordBytes(uniq);
    MultipartSplits(d, Boundary(uniq));
    BodyPartReadsBack(d);
    PartsReadBack(d);
  }

  /** Each attachment part reads back to its header fields and its content. */
  lemma PartsReadBack(d: MailData)
    requires forall i :: 0 <= i < |d.attachments| ==>
      Free(d.attachments[i].mimeType, CR) && Free(d.attachments[i].clientName, CR)
    ensures var ps := [BodyPart(d)] + AttachmentParts(d.attachments);
      forall i :: 0 <= i < |d.attachments| ==>
        && Parse(ps[i + 1]) == Some((AttachmentFields(d.attachments[i]), Payload(d.attachments[i])))
        && Decode(Payload(d.attachments[i])) == d.attachments[i].content
  {
    var ps := [BodyPart(d)] + AttachmentParts(d.attachments);
    forall i | 0 <= i < |d.attachments|
      ensures Parse(ps[i + 1]) == Some((AttachmentFields(d.attachments[i]), Payload(d.attachments[i])))
      ensures Decode(Payload(d.attachments[i])) == d.attachments[i].content
    {
      assert ps[i + 1] == AttachmentPart(d.attachments[i]);
      AttachmentPartReadsBack(d.attachments[i]);
    }
  }
}
