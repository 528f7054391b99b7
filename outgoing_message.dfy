/**
 * The raw message EmailController.sendEmail builds and hands to the Gmail
 * API: header lines joined with CRLF, an empty line, then either the body as
 * is or, with attachments, a multipart/mixed body (section 5.1.1 of
 * RFC 2046) whose attachment parts carry base64 content cut into 76-column
 * lines (section 6.8 of RFC 2045). The whole message is then encoded with
 * standard base64. The boundary suffix (uniqid), the sender address and the
 * attachment bytes are inputs.
 */
module OutgoingMessage {
  import opened PhpString
  import opened Base64
  import opened MimeText

  datatype Attachment = Attachment(mimeType: bytes, clientName: bytes, content: bytes)

  /** The mail data sendEmail receives; a single `to` string is the one-element list. */
  datatype MailData = MailData(to: seq<bytes>, subject: bytes, body: bytes, isHtml: Option<bool>,
                               cc: seq<bytes>, bcc: seq<bytes>, attachments: seq<Attachment>)

  /** The array sendEmail returns. */
  datatype SendResult = Sent(messageId: Option<bytes>) | NotSent(message: bytes)

  /** What the Gmail send call does: returns a message id, or throws a Google or another exception. */
  datatype ApiOutcome = Delivered(id: Option<bytes>) | ApiError(error: bytes) | OtherError(error: bytes)

  const QUOTE: byte := 34
  const FROM: bytes := Ascii("From")
  const TO: bytes := Ascii("To")
  const SUBJECT: bytes := Ascii("Subject")
  const CONTENT_TYPE: bytes := Ascii("Content-Type")
  const CC: bytes := Ascii("Cc")
  const BCC: bytes := Ascii("Bcc")
  const MIME_VERSION: bytes := Ascii("MIME-Version")
  const CONTENT_DISPOSITION: bytes := Ascii("Content-Disposition")
  const TRANSFER_ENCODING: bytes := Ascii("Content-Transfer-Encoding")
  const LIST_SEPARATOR: bytes := Ascii(", ")
  const CHARSET: bytes := Ascii("; charset=utf-8")
  const VERSION: bytes := Ascii("1.0")
  const MULTIPART: bytes := Ascii("multipart/mixed; boundary=")
  const NAME_PARAM: bytes := Ascii("; name=")
  const FILENAME_PARAM: bytes := Ascii("attachment; filename=")
  const BASE64: bytes := Ascii("base64")
  const DASHES: bytes := Ascii("--")

  /** `$data['is_html'] ?? true`: HTML unless the caller says false. */
  predicate Html(isHtml: Option<bool>) {
    isHtml != Some(false)
  }

  function MediaType(isHtml: Option<bool>): bytes {
    if Html(isHtml) then Ascii("text/html") else Ascii("text/plain")
  }

  function ContentType(isHtml: Option<bool>): bytes {
    MediaType(isHtml) + CHARSET
  }

  /** uniqid('boundary_') with its unique suffix as an input. */
  function Boundary(uniq: bytes): bytes {
    Ascii("boundary_") + uniq
  }

  function Quoted(s: bytes): bytes {
    [QUOTE] + s + [QUOTE]
  }

  /** The header fields, in the order sendEmail writes them. */
  function HeaderFields(from: bytes, d: MailData, uniq: bytes): seq<(bytes, bytes)> {
    [(FROM, from), (TO, Join(d.to, LIST_SEPARATOR)), (SUBJECT, d.subject), (CONTENT_TYPE, ContentType(d.isHtml))]
    + (if d.cc != [] then [(CC, Join(d.cc, LIST_SEPARATOR))] else [])
    + (if d.bcc != [] then [(BCC, Join(d.bcc, LIST_SEPARATOR))] else [])
    + (if d.attachments != [] then [(MIME_VERSION, VERSION), (CONTENT_TYPE, MULTIPART + Quoted(Boundary(uniq)))] else [])
  }

  /** "--boundary" and its line break. */
  function Delimiter(b: bytes): bytes {
    DASHES + b + CRLF()
  }

  /** The first part of a multipart body: its Content-Type line, an empty line, the body text and two line breaks. */
  function BodyPart(d: MailData): bytes {
    Field(CONTENT_TYPE, ContentType(d.isHtml)) + CRLF() + CRLF() + d.body + CRLF() + CRLF()
  }

  /** The header fields of an attachment part. */
  function AttachmentFields(a: Attachment): seq<(bytes, bytes)> {
    [(CONTENT_TYPE, a.mimeType + NAME_PARAM + Quoted(a.clientName)),
     (CONTENT_DISPOSITION, FILENAME_PARAM + Quoted(a.clientName)),
     (TRANSFER_ENCODING, BASE64)]
  }

  /** The encoded content of an attachment: chunk_split(base64_encode(bytes)) and one more line break. */
  function Payload(a: Attachment): bytes {
    ChunkSplit(Encode(a.content)) + CRLF()
  }

  /** One attachment part, after its delimiter: three header lines, an empty line, the encoded content. */
  function AttachmentPart(a: Attachment): bytes {
    Field(CONTENT_TYPE, a.mimeType + NAME_PARAM + Quoted(a.clientName)) + CRLF()
    + Field(CONTENT_DISPOSITION, FILENAME_PARAM + Quoted(a.clientName)) + CRLF()
    + Field(TRANSFER_ENCODING, BASE64) + CRLF() + CRLF()
    + ChunkSplit(Encode(a.content)) + CRLF()
  }

  /** An attachment part with its delimiter. */
  function Section(b: bytes, a: Attachment): bytes {
    Delimiter(b) + AttachmentPart(a)
  }

  /** The delimited parts of the first k attachments. */
  function AttachmentSections(b: bytes, atts: seq<Attachment>, k: nat): bytes
    requires k <= |atts|
  {
    if k == 0 then [] else AttachmentSections(b, atts, k - 1) + Section(b, atts[k - 1])
  }

  /** The multipart body: the body part, one part per attachment, and the close delimiter. */
  function Multipart(d: MailData, b: bytes): bytes {
    Delimiter(b) + BodyPart(d) + AttachmentSections(b, d.attachments, |d.attachments|) + DASHES + b + DASHES
  }

  function MessageBody(d: MailData, uniq: bytes): bytes {
    if d.attachments == [] then d.body else Multipart(d, Boundary(uniq))
  }

  /** The raw message: header lines joined with CRLF, an empty line, the body. */
  function RawMessage(from: bytes, d: MailData, uniq: bytes): bytes {
    Join(FieldLines(HeaderFields(from, d, uniq)), CRLF()) + CRLF() + CRLF() + MessageBody(d, uniq)
  }

  /** The first half of sendEmail's construction: the list of header lines, and the boundary when there are attachments. */
  method BuildHeaders(from: bytes, d: MailData, uniq: bytes) returns (headers: seq<bytes>, boundary: Option<bytes>)
    ensures headers == FieldLines(HeaderFields(from, d, uniq))
    ensures boundary == if d.attachments != [] then Some(Boundary(uniq)) else None
  {
    headers := [Field(FROM, from), Field(TO, Join(d.to, LIST_SEPARATOR)), Field(SUBJECT, d.subject),
                    Field(CONTENT_TYPE, ContentType(d.isHtml))];
    ghost var fields := [(FROM, from), (TO, Join(d.to, LIST_SEPARATOR)), (SUBJECT, d.subject),
                         (CONTENT_TYPE, ContentType(d.isHtml))];
    assert headers == FieldLines(fields);
    if d.cc != [] {
      var line := Field(CC, Join(d.cc, LIST_SEPARATOR));
      fields := Extended(headers, fields, [(CC, Join(d.cc, LIST_SEPARATOR))], [line]);
      headers := headers + [line];
    }
    if d.bcc != [] {
      var line := Field(BCC, Join(d.bcc, LIST_SEPARATOR));
      fields := Extended(headers, fields, [(BCC, Join(d.bcc, LIST_SEPARATOR))], [line]);
      headers := headers + [line];
    }
    boundary := None;
    if d.attachments != [] {
      boundary := Some(Boundary(uniq));
      var lines := [Field(MIME_VERSION, VERSION), Field(CONTENT_TYPE, MULTIPART + Quoted(boundary.value))];
      fields := Extended(headers, fields, [(MIME_VERSION, VERSION), (CONTENT_TYPE, MULTIPART + Quoted(Boundary(uniq)))], lines);
      headers := headers + lines;
    }
    assert fields == HeaderFields(from, d, uniq);
  }

  /** Appending the lines of more fields to the lines of some fields gives the lines of both. */
  ghost method Extended(lines: seq<bytes>, fields: seq<(bytes, bytes)>, more: seq<(bytes, bytes)>, added: seq<bytes>)
      returns (fields': seq<(bytes, bytes)>)
    requires lines == FieldLines(fields) && added == FieldLines(more)
    ensures fields' == fields + more && lines + added == FieldLines(fields')
  {
    FieldLinesAppend(fields, more);
    fields' := fields + more;
  }

  /** The raw-message construction of sendEmail, step by step. */
  method BuildRawMessage(from: bytes, d: MailData, uniq: bytes) returns (raw: bytes)
    ensures raw == RawMessage(from, d, uniq)
  {
    var headers, boundary := BuildHeaders(from, d, uniq);
    raw := Join(headers, CRLF()) + CRLF() + CRLF();
    if boundary.Some? {
      raw := AppendMultipart(raw, d, boundary.value);
    } else {
      raw := raw + d.body;
    }
  }

  /** The second half with attachments: the body part, one part per attachment, the close delimiter. */
  method AppendMultipart(top: bytes, d: MailData, b: bytes) returns (raw: bytes)
    ensures raw == top + Multipart(d, b)
  {
    raw := AppendBodyPart(top, d, b);
    raw := AppendSections(raw, b, d.attachments);
    raw := raw + DASHES + b + DASHES;
    RegroupEnd(top, Delimiter(b), BodyPart(d), AttachmentSections(b, d.attachments, |d.attachments|), DASHES, b);
  }

  /** The opening delimiter and the message body's own part. */
  method AppendBodyPart(top: bytes, d: MailData, b: bytes) returns (raw: bytes)
    ensures raw == top + Delimiter(b) + BodyPart(d)
  {
    raw := top;
    raw := raw + Delimiter(b);
    raw := raw + Field(CONTENT_TYPE, ContentType(d.isHtml)) + CRLF() + CRLF();
    raw := raw + d.body + CRLF() + CRLF();
    Regroup(top, Delimiter(b), Field(CONTENT_TYPE, ContentType(d.isHtml)), CRLF(), d.body);
  }

  /** The loop over the attachments, one delimited part each. */
  method AppendSections(head: bytes, b: bytes, atts: seq<Attachment>) returns (raw: bytes)
    ensures raw == head + AttachmentSections(b, atts, |atts|)
  {
    raw := head;
    for i := 0 to |atts|
      invariant raw == head + AttachmentSections(b, atts, i)
    {
      raw := AppendAttachment(raw, b, atts[i]);
      Associate(head, AttachmentSections(b, atts, i), Section(b, atts[i]));
    }
  }

  /** The loop body for one attachment: its delimiter, its three header lines, an empty line, its encoded content. */
  method AppendAttachment(before: bytes, b: bytes, a: Attachment) returns (raw: bytes)
    ensures raw == before + Section(b, a)
  {
    raw := before;
    raw := raw + Delimiter(b);
    raw := raw + Field(CONTENT_TYPE, a.mimeType + NAME_PARAM + Quoted(a.clientName)) + CRLF();
    raw := raw + Field(CONTENT_DISPOSITION, FILENAME_PARAM + Quoted(a.clientName)) + CRLF();
    raw := raw + Field(TRANSFER_ENCODING, BASE64) + CRLF() + CRLF();
    raw := raw + ChunkSplit(Encode(a.content)) + CRLF();
    RegroupPart(before, Delimiter(b),
                Field(CONTENT_TYPE, a.mimeType + NAME_PARAM + Quoted(a.clientName)), CRLF(),
                Field(CONTENT_DISPOSITION, FILENAME_PARAM + Quoted(a.clientName)),
                Field(TRANSFER_ENCODING, BASE64), ChunkSplit(Encode(a.content)));
  }

  lemma {:induction false} Associate(x: bytes, y: bytes, z: bytes)
    ensures x + y + z == x + (y + z)
  {
  }

  /** Regrouping the appends of the body part. */
  lemma {:induction false} Regroup(top: bytes, delim: bytes, field: bytes, crlf: bytes, body: bytes)
    ensures top + delim + field + crlf + crlf + body + crlf + crlf
         == top + delim + (field + crlf + crlf + body + crlf + crlf)
  {
  }

  /** Regrouping the appends of one attachment part. */
  lemma {:induction false} RegroupPart(before: bytes, delim: bytes, f1: bytes, crlf: bytes, f2: bytes, f3: bytes, payload: bytes)
    ensures before + delim + f1 + crlf + f2 + crlf + f3 + crlf + crlf + payload + crlf
         == before + (delim + (f1 + crlf + f2 + crlf + f3 + crlf + crlf + payload + crlf))
  {
  }

  /** Regrouping the close delimiter. */
  lemma {:induction false} RegroupEnd(top: bytes, delim: bytes, first: bytes, sections: bytes, dashes: bytes, b: bytes)
    ensures top + delim + first + sections + dashes + b + dashes == top + (delim + first + sections + dashes + b + dashes)
  {
  }

  /**
   * sendEmail once the sender address is known. Without an authenticated
   * client nothing is sent. Otherwise the raw message is encoded with
   * standard base64, the call waits `delay` seconds when that is positive,
   * and the API outcome decides the result and its message.
   */
  method SendEmail(authenticated: bool, from: bytes, d: MailData, uniq: bytes, delay: int, api: ApiOutcome)
      returns (result: SendResult, wire: Option<bytes>, pause: nat)
    ensures !authenticated ==> (wire.None? && pause == 0 &&
      result == NotSent(Ascii("Failed to authenticate with Google. Please reconnect your Google account.")))
    ensures authenticated ==> wire == Some(Encode(RawMessage(from, d, uniq)))
    ensures authenticated ==> pause == (if delay > 0 then delay else 0)
    ensures authenticated ==> match api
      case Delivered(id) => result == Sent(id)
      case ApiError(e) => result == NotSent(Ascii("Google API error: ") + e)
      case OtherError(e) => result == NotSent(Ascii("Failed to send email: ") + e)
  {
    pause := 0;
    wire := None;
    if !authenticated {
      result := NotSent(Ascii("Failed to authenticate with Google. Please reconnect your Google account."));
      return;
    }
    var raw := BuildRawMessage(from, d, uniq);
    wire := Some(Encode(raw));
    if delay > 0 {
      pause := delay;
    }
    match api {
      case Delivered(id) => result := Sent(id);
      case ApiError(e) => result := NotSent(Ascii("Google API error: ") + e);
      case OtherError(e) => result := NotSent(Ascii("Failed to send email: ") + e);
    }
  }

  /** The inputs whose text lands in a header line hold no CR, so no header line is broken or added. */
  predicate SafeMail(from: bytes, d: MailData, uniq: bytes) {
    Free(from, CR) && Free(d.subject, CR) && Free(uniq, CR) &&
    (forall i :: 0 <= i < |d.to| ==> Free(d.to[i], CR)) &&
    (forall i :: 0 <= i < |d.cc| ==> Free(d.cc[i], CR)) &&
    (forall i :: 0 <= i < |d.bcc| ==> Free(d.bcc[i], CR))
  }

  lemma {:induction false} QuotedFree(s: bytes)
    requires Free(s, CR)
    ensures Free(Quoted(s), CR)
  {
    FreeAppend([QUOTE], s, CR);
    FreeAppend([QUOTE] + s, [QUOTE], CR);
  }

  lemma {:induction false} HeaderFieldsGood(from: bytes, d: MailData, uniq: bytes)
    requires SafeMail(from, d, uniq)
    ensures GoodFields(HeaderFields(from, d, uniq))
  {
    var base := [(FROM, from), (TO, Join(d.to, LIST_SEPARATOR)), (SUBJECT, d.subject), (CONTENT_TYPE, ContentType(d.isHtml))];
    var ccs := if d.cc != [] then [(CC, Join(d.cc, LIST_SEPARATOR))] else [];
    var bccs := if d.bcc != [] then [(BCC, Join(d.bcc, LIST_SEPARATOR))] else [];
    var mime := if d.attachments != [] then [(MIME_VERSION, VERSION), (CONTENT_TYPE, MULTIPART + Quoted(Boundary(uniq)))] else [];
    assert HeaderFields(from, d, uniq) == base + ccs + bccs + mime;
    BaseFieldsGood(from, d);
    ListFieldsGood(d);
    MimeFieldsGood(uniq);
    GoodFieldsAppend(base, ccs);
    GoodFieldsAppend(base + ccs, bccs);
    GoodFieldsAppend(base + ccs + bccs, mime);
  }

  lemma {:induction false} GoodFieldsAppend(a: seq<(bytes, bytes)>, b: seq<(bytes, bytes)>)
    requires GoodFields(a) && GoodFields(b)
    ensures GoodFields(a + b)
  {
    forall i | 0 <= i < |a + b| ensures GoodField((a + b)[i]) {
      if i >= |a| {
        assert (a + b)[i] == b[i - |a|];
      }
    }
  }

  lemma {:induction false} BaseFieldsGood(from: bytes, d: MailData)
    requires Free(from, CR) && Free(d.subject, CR) && forall i :: 0 <= i < |d.to| ==> Free(d.to[i], CR)
    ensures GoodFields([(FROM, from), (TO, Join(d.to, LIST_SEPARATOR)), (SUBJECT, d.subject), (CONTENT_TYPE, ContentType(d.isHtml))])
  {
    NameText("From");
    NameText("To");
    NameText("Subject");
    NameText("Content-Type");
    PrintableText(", ");
    PrintableText("text/html");
    PrintableText("text/plain");
    PrintableText("; charset=utf-8");
    FreeJoin(d.to, LIST_SEPARATOR, CR);
    FreeAppend(MediaType(d.isHtml), CHARSET, CR);
  }

  lemma {:induction false} ListFieldsGood(d: MailData)
    requires forall i :: 0 <= i < |d.cc| ==> Free(d.cc[i], CR)
    requires forall i :: 0 <= i < |d.bcc| ==> Free(d.bcc[i], CR)
    ensures GoodFields(if d.cc != [] then [(CC, Join(d.cc, LIST_SEPARATOR))] else [])
    ensures GoodFields(if d.bcc != [] then [(BCC, Join(d.bcc, LIST_SEPARATOR))] else [])
  {
    NameText("Cc");
    NameText("Bcc");
    PrintableText(", ");
    FreeJoin(d.cc, LIST_SEPARATOR, CR);
    FreeJoin(d.bcc, LIST_SEPARATOR, CR);
  }

  lemma {:induction false} MimeFieldsGood(uniq: bytes)
    requires Free(uniq, CR)
    ensures GoodFields([(MIME_VERSION, VERSION), (CONTENT_TYPE, MULTIPART + Quoted(Boundary(uniq)))])
  {
    NameText("MIME-Version");
    NameText("Content-Type");
    PrintableText("1.0");
    PrintableText("multipart/mixed; boundary=");
    PrintableText("boundary_");
    FreeAppend(Ascii("boundary_"), uniq, CR);
    QuotedFree(Boundary(uniq));
    FreeAppend(MULTIPART, Quoted(Boundary(uniq)), CR);
  }

  /**
   * Read back, the raw message has exactly the header fields above, with
   * their values, and then the body: the message body verbatim when there
   * are no attachments, the multipart body otherwise.
   */
  lemma {:induction false} RawMessageReadsBack(from: bytes, d: MailData, uniq: bytes)
    requires SafeMail(from, d, uniq)
    ensures Parse(RawMessage(from, d, uniq)) == Some((HeaderFields(from, d, uniq), MessageBody(d, uniq)))
    ensures d.attachments == [] ==> Parse(RawMessage(from, d, uniq)).value.1 == d.body
  {
    var fields := HeaderFields(from, d, uniq);
    HeaderFieldsGood(from, d, uniq);
    JoinedHeaders(fields, MessageBody(d, uniq));
    ParseCompose(fields, MessageBody(d, uniq));
  }

  /** The number of header fields named `name`. */
  function CountNamed(fields: seq<(bytes, bytes)>, name: bytes): nat
    decreases |fields|
  {
    if |fields| == 0 then 0
    else CountNamed(fields[..|fields| - 1], name) + (if fields[|fields| - 1].0 == name then 1 else 0)
  }

  /**
   * The header fields: From, To (the list joined with ", "), Subject and
   * Content-Type come first, in that order; there is one Cc and one Bcc
   * field exactly when those lists are non-empty; with attachments
   * MIME-Version 1.0 and the multipart Content-Type naming the boundary close
   * the block.
   */
  lemma {:induction false} HeaderLayout(from: bytes, d: MailData, uniq: bytes)
    ensures var f := HeaderFields(from, d, uniq);
      && |f| >= 4
      && f[..4] == [(FROM, from), (TO, Join(d.to, LIST_SEPARATOR)), (SUBJECT, d.subject), (CONTENT_TYPE, ContentType(d.isHtml))]
      && CountNamed(f, CC) == (if d.cc != [] then 1 else 0)
      && CountNamed(f, BCC) == (if d.bcc != [] then 1 else 0)
      && CountNamed(f, MIME_VERSION) == (if d.attachments != [] then 1 else 0)
      && CountNamed(f, CONTENT_TYPE) == (if d.attachments != [] then 2 else 1)
      && (d.attachments != [] ==>
            f[|f| - 2..] == [(MIME_VERSION, VERSION), (CONTENT_TYPE, MULTIPART + Quoted(Boundary(uniq)))])
  {
    var f := HeaderFields(from, d, uniq);
    assert f[..4] == [(FROM, from), (TO, Join(d.to, LIST_SEPARATOR)), (SUBJECT, d.subject), (CONTENT_TYPE, ContentType(d.isHtml))];
    NamesDistinct();
    LayoutCount(from, d, uniq, CC);
    LayoutCount(from, d, uniq, BCC);
    LayoutCount(from, d, uniq, MIME_VERSION);
    LayoutCount(from, d, uniq, CONTENT_TYPE);
  }

  function Hit(a: bytes, name: bytes): nat {
    if a == name then 1 else 0
  }

  /** How often a name occurs in the header fields, block by block. */
  lemma {:induction false} LayoutCount(from: bytes, d: MailData, uniq: bytes, name: bytes)
    ensures CountNamed(HeaderFields(from, d, uniq), name) ==
      Hit(FROM, name) + Hit(TO, name) + Hit(SUBJECT, name) + Hit(CONTENT_TYPE, name)
      + (if d.cc != [] then Hit(CC, name) else 0) + (if d.bcc != [] then Hit(BCC, name) else 0)
      + (if d.attachments != [] then Hit(MIME_VERSION, name) + Hit(CONTENT_TYPE, name) else 0)
  {
    var base := [(FROM, from), (TO, Join(d.to, LIST_SEPARATOR)), (SUBJECT, d.subject), (CONTENT_TYPE, ContentType(d.isHtml))];
    var ccs := if d.cc != [] then [(CC, Join(d.cc, LIST_SEPARATOR))] else [];
    var bccs := if d.bcc != [] then [(BCC, Join(d.bcc, LIST_SEPARATOR))] else [];
    var mime := if d.attachments != [] then [(MIME_VERSION, VERSION), (CONTENT_TYPE, MULTIPART + Quoted(Boundary(uniq)))] else [];
    assert HeaderFields(from, d, uniq) == base + ccs + bccs + mime;
    CountNamedAppend(base + ccs + bccs, mime, name);
    CountNamedAppend(base + ccs, bccs, name);
    CountNamedAppend(base, ccs, name);
    CountFour(base, name);
    CountSmall(ccs, name);
    CountSmall(bccs, name);
    CountSmall(mime, name);
  }

  lemma {:induction false} CountNamedAppend(a: seq<(bytes, bytes)>, b: seq<(bytes, bytes)>, name: bytes)
    ensures CountNamed(a + b, name) == CountNamed(a, name) + CountNamed(b, name)
    decreases |b|
  {
    if |b| == 0 {
      assert a + b == a;
    } else {
      assert (a + b)[..|a + b| - 1] == a + b[..|b| - 1];
      CountNamedAppend(a, b[..|b| - 1], name);
    }
  }

  lemma {:induction false} CountOne(x: (bytes, bytes), name: bytes)
    ensures CountNamed([x], name) == if x.0 == name then 1 else 0
  {
    var s := [x];
    assert s[..0] == [];
  }

  /** Counting in lists of up to four fields. */
  lemma {:induction false} CountFour(f: seq<(bytes, bytes)>, name: bytes)
    requires |f| == 4
    ensures CountNamed(f, name) ==
      (if f[0].0 == name then 1 else 0) + (if f[1].0 == name then 1 else 0) +
      (if f[2].0 == name then 1 else 0) + (if f[3].0 == name then 1 else 0)
  {
    assert f == [f[0]] + [f[1]] + [f[2]] + [f[3]];
    CountNamedAppend([f[0]] + [f[1]] + [f[2]], [f[3]], name);
    CountNamedAppend([f[0]] + [f[1]], [f[2]], name);
    CountNamedAppend([f[0]], [f[1]], name);
    CountOne(f[0], name);
    CountOne(f[1], name);
    CountOne(f[2], name);
    CountOne(f[3], name);
  }

  lemma {:induction false} CountSmall(f: seq<(bytes, bytes)>, name: bytes)
    requires |f| <= 2
    ensures CountNamed(f, name) ==
      (if |f| > 0 && f[0].0 == name then 1 else 0) + (if |f| > 1 && f[1].0 == name then 1 else 0)
  {
    if |f| == 1 {
      assert f == [f[0]];
      CountOne(f[0], name);
    } else if |f| == 2 {
      assert f == [f[0]] + [f[1]];
      CountNamedAppend([f[0]], [f[1]], name);
      CountOne(f[0], name);
      CountOne(f[1], name);
    }
  }

  /** The header names sendEmail writes differ from one another. */
  lemma {:induction false} NamesDistinct()
    ensures FROM != CC && TO != CC && SUBJECT != CC && CONTENT_TYPE != CC
    ensures FROM != BCC && TO != BCC && SUBJECT != BCC && CONTENT_TYPE != BCC && CC != BCC
    ensures FROM != MIME_VERSION && TO != MIME_VERSION && SUBJECT != MIME_VERSION
    ensures CONTENT_TYPE != MIME_VERSION && CC != MIME_VERSION && BCC != MIME_VERSION
    ensures FROM != CONTENT_TYPE && TO != CONTENT_TYPE && SUBJECT != CONTENT_TYPE
  {
    assert FROM[0] != CC[0] && TO[0] != CC[0] && SUBJECT[0] != CC[0] && CONTENT_TYPE[1] != CC[1];
    assert FROM[0] != BCC[0] && TO[0] != BCC[0] && SUBJECT[0] != BCC[0] && CONTENT_TYPE[0] != BCC[0] && CC[0] != BCC[0];
    assert FROM[0] != MIME_VERSION[0] && TO[0] != MIME_VERSION[0] && SUBJECT[0] != MIME_VERSION[0];
    assert CONTENT_TYPE[0] != MIME_VERSION[0] && CC[0] != MIME_VERSION[0] && BCC[0] != MIME_VERSION[0];
    assert FROM[0] != CONTENT_TYPE[0] && TO[0] != CONTENT_TYPE[0] && SUBJECT[0] != CONTENT_TYPE[0];
  }

  /** Read back, the body part has one Content-Type field and then the body text. */
  lemma {:induction false} BodyPartReadsBack(d: MailData)
    ensures Parse(BodyPart(d)) == Some(([(CONTENT_TYPE, ContentType(d.isHtml))], d.body + CRLF() + CRLF()))
  {
    var f := [(CONTENT_TYPE, ContentType(d.isHtml))];
    NameText("Content-Type");
    PrintableText("text/html");
    PrintableText("text/plain");
    PrintableText("; charset=utf-8");
    FreeAppend(MediaType(d.isHtml), CHARSET, CR);
    assert GoodFields(f);
    var t := Terminated(FieldLines(f), CRLF());
    assert t == [Field(CONTENT_TYPE, ContentType(d.isHtml)) + CRLF()];
    assert Concat(t) == t[0] + Concat(t[1..]) && t[1..] == [];
    assert BodyPart(d) == Compose(f, d.body + CRLF() + CRLF());
    ParseCompose(f, d.body + CRLF() + CRLF());
  }

  /**
   * Read back, an attachment part has its three fields (the client name as
   * name and filename, base64 as transfer encoding) and then the payload:
   * lines of at most 76 base64 characters, each ended by CRLF, then one CRLF
   * more, which base64_decode turns back into the attachment's bytes.
   */
  lemma {:induction false} AttachmentPartReadsBack(a: Attachment)
    requires Free(a.mimeType, CR) && Free(a.clientName, CR)
    ensures Parse(AttachmentPart(a)) == Some((AttachmentFields(a), Payload(a)))
    ensures Payload(a) == Concat(Terminated(Chunks(Encode(a.content)), CRLF())) + CRLF()
    ensures Decode(Payload(a)) == a.content
  {
    var f := AttachmentFields(a);
    AttachmentFieldsGood(a);
    AttachmentPartComposed(a);
    ParseCompose(f, Payload(a));
    ChunkSplitLines(Encode(a.content));
    ChunkedRoundTrip(a.content);
    DecodeSkipsTrailingLineBreak(ChunkSplit(Encode(a.content)));
  }

  lemma {:induction false} AttachmentFieldsGood(a: Attachment)
    requires Free(a.mimeType, CR) && Free(a.clientName, CR)
    ensures GoodFields(AttachmentFields(a))
  {
    NameText("Content-Type");
    NameText("Content-Disposition");
    NameText("Content-Transfer-Encoding");
    PrintableText("; name=");
    PrintableText("attachment; filename=");
    PrintableText("base64");
    QuotedFree(a.clientName);
    FreeAppend(a.mimeType, NAME_PARAM, CR);
    FreeAppend(a.mimeType + NAME_PARAM, Quoted(a.clientName), CR);
    FreeAppend(FILENAME_PARAM, Quoted(a.clientName), CR);
  }

  lemma {:induction false} AttachmentPartComposed(a: Attachment)
    ensures AttachmentPart(a) == Compose(AttachmentFields(a), Payload(a))
  {
    var lines := FieldLines(AttachmentFields(a));
    var t := Terminated(lines, CRLF());
    ConcatThree(t);
    RegroupAttachment(lines[0], lines[1], lines[2], CRLF(), ChunkSplit(Encode(a.content)));
  }

  lemma {:induction false} ConcatThree(t: seq<bytes>)
    requires |t| == 3
    ensures Concat(t) == t[0] + t[1] + t[2]
  {
    var none: seq<bytes> := [];
    assert t[1..][1..][1..] == none;
    assert t[1..][0] == t[1] && t[1..][1..][0] == t[2];
    assert Concat(t[1..][1..]) == t[2] + Concat(none);
  }

  lemma {:induction false} RegroupAttachment(l0: bytes, l1: bytes, l2: bytes, crlf: bytes, chunks: bytes)
    ensures l0 + crlf + l1 + crlf + l2 + crlf + crlf + chunks + crlf
         == (l0 + crlf) + (l1 + crlf) + (l2 + crlf) + crlf + (chunks + crlf)
  {
  }
}
