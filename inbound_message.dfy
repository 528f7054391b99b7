/**
 * The inbound side of EmailController: reading a message payload fetched
 * from Gmail. A payload is a tree of parts; every walk here looks at the
 * root's children and grandchildren only, in the order of the source's
 * nested loops (child 1, its children, child 2, its children, ...).
 */
module InboundMessage {
  import opened PhpString
  import Base64

  /** A message part as the mail API returns it; `data` is base64url text. */
  datatype Part = Part(mimeType: bytes, data: bytes, filename: bytes, attachmentId: bytes,
                       size: nat, parts: seq<Part>)

  /** The attachment metadata getAttachments reports for one part. */
  datatype AttachmentInfo = AttachmentInfo(id: bytes, filename: bytes, mimeType: bytes, size: nat)

  /** The parts under a list of children, in visiting order: each child, then its own children. */
  function Visit(children: seq<Part>): seq<Part>
    decreases |children|
  {
    if |children| == 0 then [] else [children[0]] + children[0].parts + Visit(children[1..])
  }

  /** The depth-1 and depth-2 parts of p, in the order the source visits them. */
  function Scan(p: Part): seq<Part> {
    Visit(p.parts)
  }

  lemma {:induction false} VisitAppend(a: seq<Part>, b: seq<Part>)
    ensures Visit(a + b) == Visit(a) + Visit(b)
    decreases |a|
  {
    if |a| == 0 {
      assert a + b == b;
    } else {
      assert (a + b)[0] == a[0];
      assert (a + b)[1..] == a[1..] + b;
      VisitAppend(a[1..], b);
    }
  }

  lemma {:induction false} VisitSnoc(children: seq<Part>, i: nat)
    requires i < |children|
    ensures Visit(children[..i + 1]) == Visit(children[..i]) + [children[i]] + children[i].parts
  {
    assert children[..i + 1] == children[..i] + [children[i]];
    VisitAppend(children[..i], [children[i]]);
    assert Visit([children[i]]) == [children[i]] + children[i].parts + Visit([]);
  }

  /** Scan holds exactly the children and the grandchildren of p: nothing deeper, not the root. */
  lemma {:induction false} ScanMembers(p: Part, q: Part)
    ensures q in Scan(p) <==>
      (exists i :: 0 <= i < |p.parts| && p.parts[i] == q) ||
      (exists i, j :: 0 <= i < |p.parts| && 0 <= j < |p.parts[i].parts| && p.parts[i].parts[j] == q)
  {
    VisitMembers(p.parts, q);
  }

  lemma {:induction false} VisitMembers(cs: seq<Part>, q: Part)
    ensures q in Visit(cs) <==>
      (exists i :: 0 <= i < |cs| && cs[i] == q) ||
      (exists i, j :: 0 <= i < |cs| && 0 <= j < |cs[i].parts| && cs[i].parts[j] == q)
    decreases |cs|
  {
    if |cs| > 0 {
      VisitMembers(cs[1..], q);
      var rest := Visit(cs[1..]);
      assert Visit(cs) == [cs[0]] + cs[0].parts + rest;
      if q in Visit(cs) {
        if q == cs[0] {
        } else if q in cs[0].parts {
          var j :| 0 <= j < |cs[0].parts| && cs[0].parts[j] == q;
          assert cs[0].parts[j] == q;
        } else {
          assert q in rest;
          if exists i :: 0 <= i < |cs[1..]| && cs[1..][i] == q {
            var i :| 0 <= i < |cs[1..]| && cs[1..][i] == q;
            assert cs[i + 1] == q;
          } else {
            var i, j :| 0 <= i < |cs[1..]| && 0 <= j < |cs[1..][i].parts| && cs[1..][i].parts[j] == q;
            assert cs[i + 1].parts[j] == q;
          }
        }
      }
      if exists i :: 0 <= i < |cs| && cs[i] == q {
        var i :| 0 <= i < |cs| && cs[i] == q;
        if i > 0 {
          assert cs[1..][i - 1] == q;
        }
      }
      if exists i, j :: 0 <= i < |cs| && 0 <= j < |cs[i].parts| && cs[i].parts[j] == q {
        var i, j :| 0 <= i < |cs| && 0 <= j < |cs[i].parts| && cs[i].parts[j] == q;
        if i > 0 {
          assert cs[1..][i - 1].parts[j] == q;
        } else {
          assert q in cs[0].parts;
        }
      }
    }
  }

  /** What a first-match walk looks for in a part. */
  datatype Criterion =
    | OfType(mimeType: bytes)   // getBodyByMimeType: this MIME type and body data
    | WithData                  // getMessageBody: body data, whatever the type
    | Named                     // hasAttachments: a filename

  predicate Hit(c: Criterion, q: Part) {
    match c
    case OfType(t) => q.mimeType == t && Truthy(q.data)
    case WithData => Truthy(q.data)
    case Named => Truthy(q.filename)
  }

  /** The index of the first part of s that c hits. */
  function FirstHit(s: seq<Part>, c: Criterion): (r: Option<nat>)
    ensures r.None? <==> forall i :: 0 <= i < |s| ==> !Hit(c, s[i])
    ensures r.Some? ==> r.value < |s| && Hit(c, s[r.value]) && forall i :: 0 <= i < r.value ==> !Hit(c, s[i])
    decreases |s|
  {
    if |s| == 0 then None
    else if Hit(c, s[0]) then Some(0)
    else match FirstHit(s[1..], c)
      case None => None
      case Some(k) => Some(k + 1)
  }

  lemma {:induction false} FirstHitAt(s: seq<Part>, c: Criterion, k: nat)
    requires FirstHitIs(s, c, k)
    ensures FirstHit(s, c) == Some(k)
  {
  }

  /** Part k of s is hit and none before it is. */
  predicate FirstHitIs(s: seq<Part>, c: Criterion, k: nat) {
    k < |s| && Hit(c, s[k]) && forall i :: 0 <= i < k ==> !Hit(c, s[i])
  }

  predicate NoHit(s: seq<Part>, c: Criterion) {
    forall i :: 0 <= i < |s| ==> !Hit(c, s[i])
  }

  // ---------------------------------------------------------------- getBodyByMimeType

  /** The part getBodyByMimeType decodes: the root if it matches, else the first match in Scan order. */
  function FindByMimeType(p: Part, mimeType: bytes): Option<Part> {
    if Hit(OfType(mimeType), p) then Some(p)
    else match FirstHit(Scan(p), OfType(mimeType))
      case Some(k) => Some(Scan(p)[k])
      case None => None
  }

  function BodyByMimeType(p: Part, mimeType: bytes): bytes {
    match FindByMimeType(p, mimeType)
    case Some(q) => Base64.UrlSafeDecode(q.data)
    case None => []
  }

  /**
   * The search order is the root, then Scan(p); the part found is the first
   * one in that order of the requested type with body data, and nothing is
   * found exactly when no part at depth 0, 1 or 2 qualifies.
   */
  lemma {:induction false} FindByMimeTypeIsFirst(p: Part, mimeType: bytes)
    ensures var order := [p] + Scan(p);
      && (FindByMimeType(p, mimeType).None? <==> NoHit(order, OfType(mimeType)))
      && (FindByMimeType(p, mimeType).Some? ==>
            FirstHit(order, OfType(mimeType)).Some? &&
            FindByMimeType(p, mimeType).value == order[FirstHit(order, OfType(mimeType)).value])
  {
    var order := [p] + Scan(p);
    var c := OfType(mimeType);
    assert order[1..] == Scan(p);
    if !Hit(c, p) {
      assert FindByMimeType(p, mimeType).None? <==> FirstHit(Scan(p), c).None?;
      assert FirstHit(Scan(p), c).None? <==> NoHit(Scan(p), c);
      if NoHit(Scan(p), c) {
        forall i | 0 <= i < |order| ensures !Hit(c, order[i]) {
          if i > 0 { assert order[i] == Scan(p)[i - 1]; }
        }
      }
      if NoHit(order, c) {
        forall i | 0 <= i < |Scan(p)| ensures !Hit(c, Scan(p)[i]) {
          assert Scan(p)[i] == order[i + 1];
        }
      }
    } else {
      assert order[0] == p;
    }
  }

  /** getBodyByMimeType: the source's nested loops with early returns. */
  method GetBodyByMimeType(payload: Part, mimeType: bytes) returns (body: bytes)
    ensures body == BodyByMimeType(payload, mimeType)
  {
    var c := OfType(mimeType);
    if payload.mimeType == mimeType && Truthy(payload.data) {
      return Base64.UrlSafeDecode(payload.data);
    }
    var parts := payload.parts;
    var i := 0;
    while i < |parts|
      invariant 0 <= i <= |parts|
      invariant NoHit(Visit(parts[..i]), c)
    {
      var part := parts[i];
      if part.mimeType == mimeType && Truthy(part.data) {
        BodyAtChild(payload, mimeType, i);
        return Base64.UrlSafeDecode(part.data);
      }
      var subParts := part.parts;
      var found := FindInChildren(subParts, c);
      if found.Some? {
        BodyAtGrandchild(payload, mimeType, i, found.value);
        return Base64.UrlSafeDecode(subParts[found.value].data);
      }
      NoHitThrough(payload.parts, i, c);
      i := i + 1;
    }
    assert parts[..i] == parts;
    return [];
  }

  /** The body comes from child i when it is the first to qualify. */
  lemma {:induction false} BodyAtChild(p: Part, mimeType: bytes, i: nat)
    requires !Hit(OfType(mimeType), p) && i < |p.parts| && Hit(OfType(mimeType), p.parts[i])
    requires NoHit(Visit(p.parts[..i]), OfType(mimeType))
    ensures BodyByMimeType(p, mimeType) == Base64.UrlSafeDecode(p.parts[i].data)
  {
    var parts := p.parts;
    VisitAround(parts, i);
    HitAtHead(Visit(parts[..i]), parts[i], parts[i].parts, Visit(parts[i + 1..]), OfType(mimeType));
  }

  /** The body comes from grandchild j of child i when that is the first to qualify. */
  lemma {:induction false} BodyAtGrandchild(p: Part, mimeType: bytes, i: nat, j: nat)
    requires !Hit(OfType(mimeType), p) && i < |p.parts| && !Hit(OfType(mimeType), p.parts[i])
    requires NoHit(Visit(p.parts[..i]), OfType(mimeType))
    requires FirstHit(p.parts[i].parts, OfType(mimeType)) == Some(j)
    ensures BodyByMimeType(p, mimeType) == Base64.UrlSafeDecode(p.parts[i].parts[j].data)
  {
    var k := GrandchildFirstInScan(p, OfType(mimeType), i, j);
  }

  /** The first hit under child i, after a walk without hits up to it, is the first hit of the scan. */
  lemma {:induction false} GrandchildFirstInScan(p: Part, c: Criterion, i: nat, j: nat) returns (k: nat)
    requires i < |p.parts| && !Hit(c, p.parts[i])
    requires NoHit(Visit(p.parts[..i]), c)
    requires FirstHit(p.parts[i].parts, c) == Some(j)
    ensures FirstHit(Scan(p), c) == Some(k) && k < |Scan(p)| && Scan(p)[k] == p.parts[i].parts[j]
  {
    var parts := p.parts;
    var before, after := Visit(parts[..i]), Visit(parts[i + 1..]);
    assert Scan(p) == before + ([parts[i]] + parts[i].parts) + after by {
      VisitAround(parts, i);
    }
    HitInChildren(Scan(p), before, parts[i], parts[i].parts, after, c, j);
    k := |before| + 1 + j;
    FirstHitAt(Scan(p), c, k);
  }

  /** A child and its children without a hit extend the walk without hits. */
  lemma {:induction false} NoHitThrough(parts: seq<Part>, i: nat, c: Criterion)
    requires i < |parts| && NoHit(Visit(parts[..i]), c) && !Hit(c, parts[i])
    requires FirstHit(parts[i].parts, c).None?
    ensures NoHit(Visit(parts[..i + 1]), c)
  {
    VisitAround(parts, i);
    NoHitBlock(Visit(parts[..i]), parts[i], parts[i].parts, c);
  }

  /**
   * The inner loop over a child's own parts: the index of the first one the
   * criterion hits (for a part: the requested type with data, or a filename).
   */
  method FindInChildren(children: seq<Part>, c: Criterion) returns (found: Option<nat>)
    ensures found == FirstHit(children, c)
  {
    var j := 0;
    while j < |children|
      invariant 0 <= j <= |children|
      invariant forall k :: 0 <= k < j ==> !Hit(c, children[k])
    {
      if Hit(c, children[j]) {
        FirstHitAt(children, c, j);
        return Some(j);
      }
      j := j + 1;
    }
    return None;
  }

  /** The walk around child i: the parts before it, the child and its children, the parts after. */
  lemma {:induction false} VisitAround(parts: seq<Part>, i: nat)
    requires i < |parts|
    ensures Visit(parts[..i + 1]) == Visit(parts[..i]) + ([parts[i]] + parts[i].parts)
    ensures Visit(parts) == Visit(parts[..i]) + ([parts[i]] + parts[i].parts) + Visit(parts[i + 1..])
  {
    VisitSnoc(parts, i);
    VisitAppend(parts[..i + 1], parts[i + 1..]);
    assert parts[..i + 1] + parts[i + 1..] == parts;
  }

  /** A child that qualifies after parts that do not is the first hit. */
  lemma {:induction false} HitAtHead(before: seq<Part>, head: Part, children: seq<Part>, after: seq<Part>, c: Criterion)
    requires NoHit(before, c) && Hit(c, head)
    ensures FirstHit(before + ([head] + children) + after, c) == Some(|before|)
    ensures (before + ([head] + children) + after)[|before|] == head
  {
    var s := before + ([head] + children) + after;
    assert s[|before|] == head;
    forall k | 0 <= k < |before| ensures !Hit(c, s[k]) {
      assert s[k] == before[k];
    }
    FirstHitAt(s, c, |before|);
  }

  /** The first qualifying grandchild under a child that does not qualify is the first hit. */
  lemma {:induction false} HitInChildren(s: seq<Part>, before: seq<Part>, head: Part, children: seq<Part>, after: seq<Part>, c: Criterion, j: nat)
    requires s == before + ([head] + children) + after
    requires NoHit(before, c) && !Hit(c, head)
    requires FirstHitIs(children, c, j)
    ensures FirstHitIs(s, c, |before| + 1 + j)
    ensures s[|before| + 1 + j] == children[j]
  {
    var pre := before + [head];
    PhpString.AssociateSeq(before, [head], children);
    NoHitSnoc(before, head, c);
    HitAfterPrefix(s, pre, children, after, c, j);
  }

  /** A part without a hit extends a sequence without hits. */
  lemma {:induction false} NoHitSnoc(before: seq<Part>, head: Part, c: Criterion)
    requires NoHit(before, c) && !Hit(c, head)
    ensures NoHit(before + [head], c)
  {
    var pre := before + [head];
    forall k | 0 <= k < |pre| ensures !Hit(c, pre[k]) {
      if k < |before| {
        assert pre[k] == before[k];
      }
    }
  }

  /** The first hit of the middle block, after a prefix without hits, is the first hit overall. */
  lemma {:induction false} HitAfterPrefix(s: seq<Part>, pre: seq<Part>, mid: seq<Part>, after: seq<Part>, c: Criterion, j: nat)
    requires s == pre + mid + after
    requires NoHit(pre, c) && FirstHitIs(mid, c, j)
    ensures FirstHitIs(s, c, |pre| + j)
    ensures s[|pre| + j] == mid[j]
  {
    ConcatIndex(s, pre, mid, after);
    forall k | 0 <= k < |pre| + j ensures !Hit(c, s[k]) {
      if k >= |pre| {
        var m := k - |pre|;
        assert s[|pre| + m] == mid[m];
      }
    }
  }

  /** Where the elements of a three-way concatenation sit. */
  lemma {:induction false} ConcatIndex<T>(s: seq<T>, pre: seq<T>, mid: seq<T>, after: seq<T>)
    requires s == pre + mid + after
    ensures |s| == |pre| + |mid| + |after|
    ensures forall k :: 0 <= k < |pre| ==> s[k] == pre[k]
    ensures forall m :: 0 <= m < |mid| ==> s[|pre| + m] == mid[m]
  {
  }

  /** A child and its children that do not qualify extend a walk without hits. */
  lemma {:induction false} NoHitBlock(before: seq<Part>, head: Part, children: seq<Part>, c: Criterion)
    requires NoHit(before, c) && !Hit(c, head) && NoHit(children, c)
    ensures NoHit(before + ([head] + children), c)
  {
    var s := before + ([head] + children);
    forall k | 0 <= k < |s| ensures !Hit(c, s[k]) {
      if k < |before| {
        assert s[k] == before[k];
      } else if k > |before| {
        assert s[k] == children[k - |before| - 1];
      }
    }
  }

  // ---------------------------------------------------------------- getMessageBody

  /** getMessageBody: the root's data, else the first direct child with data; MIME types play no part. */
  function MessageBody(p: Part): bytes {
    if Truthy(p.data) then Base64.UrlSafeDecode(p.data)
    else match FirstHit(p.parts, WithData)
      case Some(k) => Base64.UrlSafeDecode(p.parts[k].data)
      case None => []
  }

  method GetMessageBody(payload: Part) returns (body: bytes)
    ensures body == MessageBody(payload)
  {
    if Truthy(payload.data) {
      return Base64.UrlSafeDecode(payload.data);
    }
    var parts := payload.parts;
    var i := 0;
    while i < |parts|
      invariant 0 <= i <= |parts|
      invariant forall k :: 0 <= k < i ==> !Truthy(parts[k].data)
    {
      if Truthy(parts[i].data) {
        FirstHitAt(parts, WithData, i);
        return Base64.UrlSafeDecode(parts[i].data);
      }
      i := i + 1;
    }
    return [];
  }

  /**
   * getMessageBody reads only the root's data and its children's data: two
   * payloads that agree on those give the same body, whatever their MIME
   * types, filenames or grandchildren.
   */
  lemma {:induction false} MessageBodyReadsOnlyData(p: Part, p': Part)
    requires p.data == p'.data && |p.parts| == |p'.parts|
    requires forall i :: 0 <= i < |p.parts| ==> p.parts[i].data == p'.parts[i].data
    ensures MessageBody(p) == MessageBody(p')
  {
    FirstHitPointwise(p.parts, p'.parts, WithData);
  }

  lemma {:induction false} FirstHitPointwise(s: seq<Part>, s': seq<Part>, c: Criterion)
    requires |s| == |s'|
    requires forall i :: 0 <= i < |s| ==> Hit(c, s[i]) == Hit(c, s'[i])
    ensures FirstHit(s, c) == FirstHit(s', c)
    decreases |s|
  {
    if |s| > 0 {
      FirstHitPointwise(s[1..], s'[1..], c);
    }
  }

  // ---------------------------------------------------------------- getAttachments / hasAttachments

  predicate IsAttachment(q: Part) {
    Truthy(q.filename) && Truthy(q.attachmentId)
  }

  function Info(q: Part): AttachmentInfo {
    AttachmentInfo(q.attachmentId, q.filename, q.mimeType, q.size)
  }

  /** The metadata of the attachment parts of s, in order. */
  function AttachmentsOf(s: seq<Part>): seq<AttachmentInfo>
    decreases |s|
  {
    if |s| == 0 then []
    else (if IsAttachment(s[0]) then [Info(s[0])] else []) + AttachmentsOf(s[1..])
  }

  lemma {:induction false} AttachmentsOfAppend(a: seq<Part>, b: seq<Part>)
    ensures AttachmentsOf(a + b) == AttachmentsOf(a) + AttachmentsOf(b)
    decreases |a|
  {
    if |a| == 0 {
      assert a + b == b;
    } else {
      assert (a + b)[0] == a[0];
      assert (a + b)[1..] == a[1..] + b;
      AttachmentsOfAppend(a[1..], b);
      AssociateSeq(if IsAttachment(a[0]) then [Info(a[0])] else [], AttachmentsOf(a[1..]), AttachmentsOf(b));
    }
  }

  lemma {:induction false} AttachmentsOfOne(q: Part)
    ensures AttachmentsOf([q]) == if IsAttachment(q) then [Info(q)] else []
  {
    assert [q][1..] == [];
  }

  /** getAttachments reports the attachment parts among the children and grandchildren. */
  function Attachments(p: Part): seq<AttachmentInfo> {
    AttachmentsOf(Scan(p))
  }

  /** getAttachments: nested loops appending to the result list. */
  method GetAttachments(payload: Part) returns (attachments: seq<AttachmentInfo>)
    ensures attachments == Attachments(payload)
  {
    attachments := [];
    var parts := payload.parts;
    if |parts| == 0 {
      return;
    }
    var i := 0;
    while i < |parts|
      invariant 0 <= i <= |parts|
      invariant attachments == AttachmentsOf(Visit(parts[..i]))
    {
      var part := parts[i];
      var before := attachments;
      if Truthy(part.filename) && Truthy(part.attachmentId) {
        attachments := attachments + [Info(part)];
      }
      attachments := AppendChildAttachments(attachments, part.parts);
      AttachmentsThrough(parts, i);
      i := i + 1;
    }
    assert parts[..i] == parts;
  }

  /** The inner loop: the attachment entries of a child's own parts appended in order. */
  method AppendChildAttachments(start: seq<AttachmentInfo>, children: seq<Part>)
      returns (attachments: seq<AttachmentInfo>)
    ensures attachments == start + AttachmentsOf(children)
  {
    attachments := start;
    var j := 0;
    while j < |children|
      invariant 0 <= j <= |children|
      invariant attachments == start + AttachmentsOf(children[..j])
    {
      var subPart := children[j];
      AttachmentsOfSnoc(children, j);
      if Truthy(subPart.filename) && Truthy(subPart.attachmentId) {
        attachments := attachments + [Info(subPart)];
      }
      j := j + 1;
    }
    assert children[..j] == children;
  }

  /** Child i adds its own entry, then its children's. */
  lemma {:induction false} AttachmentsThrough(parts: seq<Part>, i: nat)
    requires i < |parts|
    ensures AttachmentsOf(Visit(parts[..i + 1])) ==
      AttachmentsOf(Visit(parts[..i])) + (if IsAttachment(parts[i]) then [Info(parts[i])] else []) +
      AttachmentsOf(parts[i].parts)
  {
    VisitAround(parts, i);
    AttachmentsOfBlock(Visit(parts[..i]), parts[i], parts[i].parts);
    AttachmentsOfOne(parts[i]);
  }

  /** One more part adds its own entry, if it is an attachment. */
  lemma {:induction false} AttachmentsOfSnoc(s: seq<Part>, j: nat)
    requires j < |s|
    ensures AttachmentsOf(s[..j + 1]) == AttachmentsOf(s[..j]) + (if IsAttachment(s[j]) then [Info(s[j])] else [])
  {
    assert s[..j + 1] == s[..j] + [s[j]];
    AttachmentsOfAppend(s[..j], [s[j]]);
    AttachmentsOfOne(s[j]);
  }

  /** A child and its children add their entries in that order. */
  lemma {:induction false} AttachmentsOfBlock(before: seq<Part>, head: Part, children: seq<Part>)
    ensures AttachmentsOf(before + ([head] + children)) ==
      AttachmentsOf(before) + AttachmentsOf([head]) + AttachmentsOf(children)
  {
    AttachmentsOfAppend(before, [head] + children);
    AttachmentsOfAppend([head], children);
  }

  /** An entry of AttachmentsOf(s) comes from an attachment part of s, and every such part has its entry. */
  lemma {:induction false} AttachmentsOfMembers(s: seq<Part>, a: AttachmentInfo)
    ensures a in AttachmentsOf(s) <==> exists k :: 0 <= k < |s| && IsAttachment(s[k]) && Info(s[k]) == a
    decreases |s|
  {
    if |s| > 0 {
      AttachmentsOfMembers(s[1..], a);
      if exists k :: 0 <= k < |s| && IsAttachment(s[k]) && Info(s[k]) == a {
        var k :| 0 <= k < |s| && IsAttachment(s[k]) && Info(s[k]) == a;
        if k > 0 {
          assert s[1..][k - 1] == s[k];
        }
      }
      if a in AttachmentsOf(s[1..]) {
        var k :| 0 <= k < |s[1..]| && IsAttachment(s[1..][k]) && Info(s[1..][k]) == a;
        assert s[k + 1] == s[1..][k];
      }
    }
  }

  /**
   * The attachments reported are exactly the children and grandchildren that
   * carry both a filename and an attachment id; the root itself never counts.
   */
  lemma {:induction false} AttachmentsExactly(p: Part, a: AttachmentInfo)
    ensures a in Attachments(p) <==>
      exists k :: 0 <= k < |Scan(p)| && IsAttachment(Scan(p)[k]) && Info(Scan(p)[k]) == a
    ensures |p.parts| == 0 ==> Attachments(p) == []
  {
    AttachmentsOfMembers(Scan(p), a);
  }

  /** hasAttachments: some child or grandchild has a filename. */
  predicate HasAttachments(p: Part) {
    !NoHit(Scan(p), Named)
  }

  /** hasAttachments: the same nested loops, returning at the first part with a filename. */
  method CheckHasAttachments(payload: Part) returns (has: bool)
    ensures has == HasAttachments(payload)
  {
    var parts := payload.parts;
    if |parts| == 0 {
      return false;
    }
    var i := 0;
    while i < |parts|
      invariant 0 <= i <= |parts|
      invariant NoHit(Visit(parts[..i]), Named)
    {
      var part := parts[i];
      VisitAround(parts, i);
      var before, after := Visit(parts[..i]), Visit(parts[i + 1..]);
      if Truthy(part.filename) && |part.filename| > 0 {
        HitAtHead(before, part, part.parts, after, Named);
        return true;
      }
      var subParts := part.parts;
      var found := FindInChildren(subParts, Named);
      if found.Some? {
        HitInChildren(Visit(parts), before, part, subParts, after, Named, found.value);
        FirstHitAt(Visit(parts), Named, |before| + 1 + found.value);
        return true;
      }
      NoHitBlock(before, part, subParts, Named);
      i := i + 1;
    }
    assert parts[..i] == parts;
    return false;
  }

  /** Whatever getAttachments lists makes hasAttachments true. */
  lemma {:induction false} AttachmentsImplyHasAttachments(p: Part)
    ensures Attachments(p) != [] ==> HasAttachments(p)
  {
    if Attachments(p) != [] {
      var a := Attachments(p)[0];
      AttachmentsOfMembers(Scan(p), a);
      var k :| 0 <= k < |Scan(p)| && IsAttachment(Scan(p)[k]) && Info(Scan(p)[k]) == a;
      assert Hit(Named, Scan(p)[k]);
    }
  }

  /** The converse fails: a child with a filename but no attachment id is not listed. */
  lemma {:induction false} HasAttachmentsWithoutAttachments()
    ensures var child := Part(Ascii("text/plain"), [], Ascii("notes.txt"), [], 0, []);
      var p := Part(Ascii("multipart/mixed"), [], [], [], 0, [child]);
      HasAttachments(p) && Attachments(p) == []
  {
    var child := Part(Ascii("text/plain"), [], Ascii("notes.txt"), [], 0, []);
    var p := Part(Ascii("multipart/mixed"), [], [], [], 0, [child]);
    assert [child][1..] == [];
    assert Scan(p) == [child] + child.parts + Visit([]);
    assert Hit(Named, Scan(p)[0]);
    AttachmentsOfOne(child);
  }

  // ---------------------------------------------------------------- depth limit

  /** p with every part below depth 2 removed. */
  function Prune(p: Part): (r: Part)
    ensures r.(parts := []) == p.(parts := []) && |r.parts| == |p.parts|
  {
    p.(parts := seq(|p.parts|, i requires 0 <= i < |p.parts| =>
      p.parts[i].(parts := seq(|p.parts[i].parts|, j requires 0 <= j < |p.parts[i].parts| =>
        p.parts[i].parts[j].(parts := [])))))
  }

  /** The same part apart from its children. */
  predicate SameNode(a: Part, b: Part) {
    a.(parts := []) == b.(parts := [])
  }

  lemma {:induction false} VisitPruned(cs: seq<Part>, cs': seq<Part>)
    requires |cs| == |cs'|
    requires forall i :: 0 <= i < |cs| ==> SameNode(cs[i], cs'[i]) && |cs[i].parts| == |cs'[i].parts|
    requires forall i, j :: 0 <= i < |cs| && 0 <= j < |cs[i].parts| ==> SameNode(cs[i].parts[j], cs'[i].parts[j])
    ensures |Visit(cs)| == |Visit(cs')|
    ensures forall k :: 0 <= k < |Visit(cs)| ==> SameNode(Visit(cs)[k], Visit(cs')[k])
    decreases |cs|
  {
    if |cs| > 0 {
      VisitPruned(cs[1..], cs'[1..]);
      var v, v' := Visit(cs), Visit(cs');
      var h, h' := [cs[0]] + cs[0].parts, [cs'[0]] + cs'[0].parts;
      assert v == h + Visit(cs[1..]) && v' == h' + Visit(cs'[1..]);
      forall k | 0 <= k < |v| ensures SameNode(v[k], v'[k]) {
        if k == 0 {
        } else if k < |h| {
          assert v[k] == cs[0].parts[k - 1] && v'[k] == cs'[0].parts[k - 1];
        } else {
          assert v[k] == Visit(cs[1..])[k - |h|] && v'[k] == Visit(cs'[1..])[k - |h|];
        }
      }
    }
  }

  lemma {:induction false} ScanPruned(p: Part)
    ensures |Scan(Prune(p))| == |Scan(p)|
    ensures forall k :: 0 <= k < |Scan(p)| ==> SameNode(Scan(p)[k], Scan(Prune(p))[k])
  {
    VisitPruned(p.parts, Prune(p).parts);
  }

  /**
   * The depth limit: nothing below the grandchildren affects getBodyByMimeType,
   * getAttachments or hasAttachments, so a match at depth 3 is never found.
   */
  lemma {:induction false} DeeperPartsIgnored(p: Part, mimeType: bytes)
    ensures BodyByMimeType(Prune(p), mimeType) == BodyByMimeType(p, mimeType)
    ensures Attachments(Prune(p)) == Attachments(p)
    ensures HasAttachments(Prune(p)) == HasAttachments(p)
  {
    ScanPruned(p);
    var s, s' := Scan(p), Scan(Prune(p));
    FirstHitPointwise(s, s', OfType(mimeType));
    FirstHitPointwise(s, s', Named);
    AttachmentsOfPointwise(s, s');
  }

  lemma {:induction false} AttachmentsOfPointwise(s: seq<Part>, s': seq<Part>)
    requires |s| == |s'| && forall k :: 0 <= k < |s| ==> SameNode(s[k], s'[k])
    ensures AttachmentsOf(s) == AttachmentsOf(s')
    decreases |s|
  {
    if |s| > 0 {
      assert s[0].(parts := []) == s'[0].(parts := []);
      assert Info(s[0]) == Info(s'[0]);
      AttachmentsOfPointwise(s[1..], s'[1..]);
    }
  }

  /** Gmail body data for non-empty content is truthy. */
  lemma {:induction false} EncodedDataTruthy(raw: bytes)
    requires raw != []
    ensures Truthy(Base64.EncodeUnpaddedUrlSafe(raw))
  {
    assert |Base64.Encode(raw)| >= 4;
    TruthyNotZero(Base64.EncodeUnpaddedUrlSafe(raw));
  }

  /** A leaf part carrying the given content as unpadded base64url data. */
  function Leaf(mimeType: bytes, content: bytes): Part {
    Part(mimeType, Base64.EncodeUnpaddedUrlSafe(content), [], [], |content|, [])
  }

  function Container(mimeType: bytes, parts: seq<Part>): Part {
    Part(mimeType, [], [], [], 0, parts)
  }

  /** A leaf of the requested type found after parts that do not qualify supplies the body. */
  lemma {:induction false} BodyFoundAt(root: Part, k: nat, mimeType: bytes, content: bytes)
    requires content != [] && !Hit(OfType(mimeType), root)
    requires k < |Scan(root)| && Scan(root)[k] == Leaf(mimeType, content)
    requires forall i :: 0 <= i < k ==> !Hit(OfType(mimeType), Scan(root)[i])
    ensures BodyByMimeType(root, mimeType) == content
  {
    EncodedDataTruthy(content);
    FirstHitAt(Scan(root), OfType(mimeType), k);
    Base64.UrlSafeRoundTrip(content);
  }

  /**
   * The plain/HTML layout: a container root (multipart/mixed) with a leaf of
   * one type (text/plain) and a container child (multipart/related) holding a
   * leaf of another type (text/html); both bodies are found, the second one
   * at depth 2.
   */
  lemma {:induction false} PlainAndHtmlBodies(plain: bytes, html: bytes, plainType: bytes, htmlType: bytes,
                                              mixed: bytes, related: bytes)
    requires plain != [] && html != [] && plainType != htmlType
    ensures var root := Container(mixed, [Leaf(plainType, plain), Container(related, [Leaf(htmlType, html)])]);
      BodyByMimeType(root, plainType) == plain && BodyByMimeType(root, htmlType) == html
  {
    var textPart := Leaf(plainType, plain);
    var htmlPart := Leaf(htmlType, html);
    var inner := Container(related, [htmlPart]);
    var root := Container(mixed, [textPart, inner]);
    ScanOfLayout(mixed, textPart, related, htmlPart);
    assert BodyByMimeType(root, plainType) == plain by {
      BodyFoundAt(root, 0, plainType, plain);
    }
    assert BodyByMimeType(root, htmlType) == html by {
      assert !Hit(OfType(htmlType), textPart) && !Hit(OfType(htmlType), inner);
      BodyFoundAt(root, 2, htmlType, html);
    }
  }

  /**
   * The scan of a root holding a part without children and a container of
   * one part: the first part, the container, then the container's part.
   */
  lemma {:induction false} ScanOfLayout(mixed: bytes, first: Part, related: bytes, nested: Part)
    requires first.parts == []
    ensures var inner := Container(related, [nested]);
      Scan(Container(mixed, [first, inner])) == [first, inner, nested]
  {
    var inner := Container(related, [nested]);
    var root := Container(mixed, [first, inner]);
    assert root.parts[1..] == [inner];
    assert [inner][1..] == [];
    assert Visit([inner]) == [inner] + [nested] + Visit([]);
  }
}
