/**
 * Header lookup for inbound messages (EmailController): the header list is
 * folded into a map keyed by the lower-cased header name, and the message
 * details and list summaries read their fields from that map with defaults.
 */
module InboundHeaders {
  import opened PhpString
  import opened InboundMessage

  datatype Header = Header(name: bytes, value: bytes)

  /** A message fetched in "full" format. */
  datatype Message = Message(id: bytes, threadId: bytes, headers: seq<Header>, payload: Part,
                             snippet: bytes, labelIds: seq<bytes>)

  /** The data getEmailDetails returns for one message. */
  datatype Details = Details(id: bytes, threadId: bytes, subject: bytes, from: bytes, to: bytes,
                             cc: bytes, bcc: bytes, date: bytes, body: bytes, htmlBody: bytes,
                             plainBody: bytes, attachments: seq<AttachmentInfo>,
                             labelIds: seq<bytes>, snippet: bytes)

  /** The entry formatMessage builds for a message list. */
  datatype Summary = Summary(id: bytes, threadId: bytes, subject: bytes, from: bytes, to: bytes,
                             cc: bytes, bcc: bytes, date: bytes, snippet: bytes, hasAttachments: bool)

  /** The header map after folding the headers in order: later entries overwrite earlier ones. */
  function HeaderMap(headers: seq<Header>): map<bytes, bytes>
    decreases |headers|
  {
    if |headers| == 0 then map[]
    else HeaderMap(headers[..|headers| - 1])[Lower(headers[|headers| - 1].name) := headers[|headers| - 1].value]
  }

  /** The source's foreach loop building the header map. */
  method FoldHeaders(headers: seq<Header>) returns (m: map<bytes, bytes>)
    ensures m == HeaderMap(headers)
  {
    m := map[];
    var i := 0;
    while i < |headers|
      invariant 0 <= i <= |headers|
      invariant m == HeaderMap(headers[..i])
    {
      assert headers[..i + 1][..i] == headers[..i];
      m := m[Lower(headers[i].name) := headers[i].value];
      i := i + 1;
    }
    assert headers[..i] == headers;
  }

  /** The index of the last header whose lower-cased name is key. */
  predicate LastNamed(headers: seq<Header>, key: bytes, i: int) {
    0 <= i < |headers| && Lower(headers[i].name) == key &&
    forall j :: i < j < |headers| ==> Lower(headers[j].name) != key
  }

  /**
   * The keys are exactly the lower-cased header names, and each maps to the
   * value of the last header with that name, whatever its original case.
   */
  lemma {:induction false} HeaderMapLastWins(headers: seq<Header>, key: bytes)
    ensures key in HeaderMap(headers) <==> exists i :: 0 <= i < |headers| && Lower(headers[i].name) == key
    ensures key in HeaderMap(headers) ==>
      exists i :: LastNamed(headers, key, i) && HeaderMap(headers)[key] == headers[i].value
    decreases |headers|
  {
    if |headers| > 0 {
      var n := |headers| - 1;
      var init := headers[..n];
      HeaderMapLastWins(init, key);
      if Lower(headers[n].name) == key {
        assert LastNamed(headers, key, n);
      } else {
        if exists i :: 0 <= i < |headers| && Lower(headers[i].name) == key {
          var i :| 0 <= i < |headers| && Lower(headers[i].name) == key;
          assert init[i] == headers[i];
        }
        if key in HeaderMap(init) {
          var i :| LastNamed(init, key, i) && HeaderMap(init)[key] == init[i].value;
          assert init[i] == headers[i];
          assert LastNamed(headers, key, i);
        }
      }
    }
  }

  /** Every key of the header map is already lower case. */
  lemma HeaderKeysLowerCase(headers: seq<Header>, key: bytes)
    requires key in HeaderMap(headers)
    ensures Lower(key) == key
  {
    HeaderMapLastWins(headers, key);
    var i :| 0 <= i < |headers| && Lower(headers[i].name) == key;
    LowerIdempotent(headers[i].name);
  }

  /** `$headerMap[key] ?? default`. */
  function Lookup(m: map<bytes, bytes>, key: string, default: bytes): (r: bytes)
    ensures Ascii(key) in m ==> r == m[Ascii(key)]
    ensures Ascii(key) !in m ==> r == default
  {
    if Ascii(key) in m then m[Ascii(key)] else default
  }

  /** getEmailDetails once the message has been fetched: headers default to "". */
  method GetEmailDetails(msg: Message) returns (d: Details)
    ensures var m := HeaderMap(msg.headers);
      && d.id == msg.id && d.threadId == msg.threadId
      && d.subject == Lookup(m, "subject", []) && d.from == Lookup(m, "from", [])
      && d.to == Lookup(m, "to", []) && d.cc == Lookup(m, "cc", [])
      && d.bcc == Lookup(m, "bcc", []) && d.date == Lookup(m, "date", [])
    ensures d.body == MessageBody(msg.payload)
    ensures d.htmlBody == BodyByMimeType(msg.payload, Ascii("text/html"))
    ensures d.plainBody == BodyByMimeType(msg.payload, Ascii("text/plain"))
    ensures d.attachments == Attachments(msg.payload)
    ensures d.labelIds == msg.labelIds && d.snippet == msg.snippet
  {
    var body := GetMessageBody(msg.payload);
    var m := FoldHeaders(msg.headers);
    var html := GetBodyByMimeType(msg.payload, Ascii("text/html"));
    var plain := GetBodyByMimeType(msg.payload, Ascii("text/plain"));
    var attachments := GetAttachments(msg.payload);
    d := Details(msg.id, msg.threadId, Lookup(m, "subject", []), Lookup(m, "from", []),
                 Lookup(m, "to", []), Lookup(m, "cc", []), Lookup(m, "bcc", []),
                 Lookup(m, "date", []), body, html, plain, attachments, msg.labelIds, msg.snippet);
  }

  /** formatMessage: the same lookups, but a missing subject reads "(No Subject)". */
  method FormatMessage(msg: Message) returns (s: Summary)
    ensures var m := HeaderMap(msg.headers);
      && s.id == msg.id && s.threadId == msg.threadId
      && s.subject == Lookup(m, "subject", Ascii("(No Subject)")) && s.from == Lookup(m, "from", [])
      && s.to == Lookup(m, "to", []) && s.cc == Lookup(m, "cc", [])
      && s.bcc == Lookup(m, "bcc", []) && s.date == Lookup(m, "date", [])
    ensures s.snippet == msg.snippet
    ensures s.hasAttachments == HasAttachments(msg.payload)
  {
    var m := FoldHeaders(msg.headers);
    var has := CheckHasAttachments(msg.payload);
    s := Summary(msg.id, msg.threadId, Lookup(m, "subject", Ascii("(No Subject)")), Lookup(m, "from", []),
                 Lookup(m, "to", []), Lookup(m, "cc", []), Lookup(m, "bcc", []),
                 Lookup(m, "date", []), msg.snippet, has);
  }

  /**
   * A header is found whatever the case of its name: looking up any key in
   * the header map gives the value of the last header whose lower-cased name
   * is that key, and the default when the message has no such header.
   */
  lemma LookupLastHeader(headers: seq<Header>, key: string, default: bytes)
    ensures (forall i :: 0 <= i < |headers| ==> Lower(headers[i].name) != Ascii(key)) ==>
      Lookup(HeaderMap(headers), key, default) == default
    ensures forall i :: LastNamed(headers, Ascii(key), i) ==>
      Lookup(HeaderMap(headers), key, default) == headers[i].value
    ensures (exists i :: 0 <= i < |headers| && Lower(headers[i].name) == Ascii(key)) ==>
      exists i :: LastNamed(headers, Ascii(key), i) && Lookup(HeaderMap(headers), key, default) == headers[i].value
  {
    var k := Ascii(key);
    HeaderMapLastWins(headers, k);
    forall i | LastNamed(headers, k, i)
      ensures Lookup(HeaderMap(headers), key, default) == headers[i].value
    {
      var i' :| LastNamed(headers, k, i') && HeaderMap(headers)[k] == headers[i'].value;
      assert i == i';
    }
  }

  /** "SUBJECT: Re: hi" followed by "Subject: Fwd" gives the later value. */
  lemma LaterHeaderWins()
    ensures var headers := [Header(Ascii("SUBJECT"), Ascii("Re: hi")), Header(Ascii("Subject"), Ascii("Fwd"))];
      Lookup(HeaderMap(headers), "subject", []) == Ascii("Fwd")
  {
    var headers := [Header(Ascii("SUBJECT"), Ascii("Re: hi")), Header(Ascii("Subject"), Ascii("Fwd"))];
    assert Lower(headers[1].name) == Ascii("subject");
    assert headers[..1][..0] == [];
  }
}
