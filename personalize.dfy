/**
 * Personalisation of bulk e-mails (EmailController.personalizeEmail and
 * personalizeSubject): `{{name}}` placeholders are replaced by lead data
 * with one str_replace call over an array of searches, which applies the
 * searches one after another to the whole text.
 */
module Personalize {
  import opened PhpString

  const OPEN: byte := 123   // '{'
  const CLOSE: byte := 125  // '}'

  /** The placeholder names, without their braces. */
  const LEAD_NAME: bytes := Ascii("lead_name")
  const FIRST_NAME: bytes := Ascii("first_name")
  const COMPANY: bytes := Ascii("company")
  const POSITION: bytes := Ascii("position")
  const LOCATION: bytes := Ascii("location")

  /** The lead fields personalisation reads; company, position and location may be null. */
  datatype Lead = Lead(id: int, email: bytes, fullName: bytes,
                       company: Option<bytes>, position: Option<bytes>, location: Option<bytes>)

  /** `$value ?? ''`. */
  function OrEmpty(o: Option<bytes>): bytes {
    if o.Some? then o.value else []
  }

  /** The text `{{name}}`. */
  function Placeholder(name: bytes): (r: bytes)
    ensures |r| == |name| + 4 && r[0] == OPEN && r[1] == OPEN
    ensures r[2..|name| + 2] == name && r[|name| + 2] == CLOSE && r[|name| + 3] == CLOSE
  {
    [OPEN, OPEN] + name + [CLOSE, CLOSE]
  }

  /** Search/replace pairs for str_replace from (placeholder name, value) assignments. */
  function Pairs(assigns: seq<(bytes, bytes)>): (r: seq<(bytes, bytes)>)
    ensures |r| == |assigns|
    ensures forall i :: 0 <= i < |assigns| ==> r[i] == (Placeholder(assigns[i].0), assigns[i].1)
  {
    seq(|assigns|, i requires 0 <= i < |assigns| => (Placeholder(assigns[i].0), assigns[i].1))
  }

  /** The replacements personalizeSubject makes, in order. */
  function SubjectAssignments(lead: Lead): seq<(bytes, bytes)> {
    [(LEAD_NAME, lead.fullName),
     (FIRST_NAME, FirstWord(lead.fullName)),
     (COMPANY, OrEmpty(lead.company))]
  }

  /** The replacements personalizeEmail makes, in order: the subject's and two more. */
  function BodyAssignments(lead: Lead): seq<(bytes, bytes)> {
    SubjectAssignments(lead) +
    [(POSITION, OrEmpty(lead.position)),
     (LOCATION, OrEmpty(lead.location))]
  }

  /** personalizeEmail. */
  function PersonalizeEmail(body: bytes, lead: Lead, personalize: bool): (r: bytes)
    ensures !personalize ==> r == body
  {
    if !personalize then body else ReplacePairs(Pairs(BodyAssignments(lead)), body)
  }

  /** personalizeSubject. */
  function PersonalizeSubject(subject: bytes, lead: Lead, personalize: bool): (r: bytes)
    ensures !personalize ==> r == subject
  {
    if !personalize then subject else ReplacePairs(Pairs(SubjectAssignments(lead)), subject)
  }

  /** The body version does everything the subject version does, then replaces position and location. */
  lemma {:induction false} EmailExtendsSubject(text: bytes, lead: Lead, personalize: bool)
    ensures personalize ==>
      PersonalizeEmail(text, lead, personalize) ==
      ReplacePairs(Pairs([(POSITION, OrEmpty(lead.position)), (LOCATION, OrEmpty(lead.location))]),
                   PersonalizeSubject(text, lead, personalize))
  {
    var extra := [(POSITION, OrEmpty(lead.position)), (LOCATION, OrEmpty(lead.location))];
    assert Pairs(BodyAssignments(lead)) == Pairs(SubjectAssignments(lead)) + Pairs(extra);
    ReplacePairsAppend(Pairs(SubjectAssignments(lead)), Pairs(extra), text);
  }

  // ---------------------------------------------------------------- templates

  /** A template: literal text and `{{name}}` slots. */
  datatype Piece = Text(text: bytes) | Slot(name: bytes)

  predicate ValidName(name: bytes) {
    Free(name, OPEN) && Free(name, CLOSE)
  }

  /** Literal text holds no '{' and slot names hold no braces. */
  predicate WellFormed(t: seq<Piece>) {
    forall i :: 0 <= i < |t| ==>
      (t[i].Text? ==> Free(t[i].text, OPEN)) && (t[i].Slot? ==> ValidName(t[i].name))
  }

  /** Every value bound so far holds no '{'. */
  predicate BraceFreeValues(values: map<bytes, bytes>) {
    forall n :: n in values ==> Free(values[n], OPEN)
  }

  /** The template's text with bound slots filled in and unbound slots left as `{{name}}`. */
  function Render(t: seq<Piece>, values: map<bytes, bytes>): bytes
    decreases |t|
  {
    if |t| == 0 then [] else Fill(t[0], values) + Render(t[1..], values)
  }

  function Fill(p: Piece, values: map<bytes, bytes>): bytes {
    match p
    case Text(x) => x
    case Slot(n) => if n in values then values[n] else Placeholder(n)
  }

  lemma {:induction false} RenderFour(t: seq<Piece>, values: map<bytes, bytes>)
    requires |t| == 4
    ensures Render(t, values) == Fill(t[0], values) + Fill(t[1], values) + Fill(t[2], values) + Fill(t[3], values)
  {
    var t1 := t[1..];
    var t2 := t1[1..];
    var t3 := t2[1..];
    assert t3[1..] == [];
    assert Render(t3, values) == Fill(t[3], values);
    assert Render(t2, values) == Fill(t[2], values) + Render(t3, values);
    assert Render(t1, values) == Fill(t[1], values) + Render(t2, values);
  }

  /** A placeholder for another name is not an occurrence of this one and passes through. */
  lemma {:induction false} OtherPlaceholder(other: bytes, name: bytes, z: bytes, v: bytes)
    requires ValidName(other) && ValidName(name) && other != name
    ensures ReplaceAll(Placeholder(other) + z, Placeholder(name), v) == Placeholder(other) + ReplaceAll(z, Placeholder(name), v)
  {
    var key := Placeholder(name);
    var tail := other + [CLOSE, CLOSE];
    OpeningBracesSkipped(other, name, z, v);
    ReplaceAllPrefix(tail, z, key, v);
    Regroup3([OPEN], [OPEN], tail, ReplaceAll(z, key, v));
  }

  /** The two opening braces of another placeholder are not the start of a match. */
  lemma {:induction false} OpeningBracesSkipped(other: bytes, name: bytes, z: bytes, v: bytes)
    requires ValidName(other) && ValidName(name) && other != name
    ensures Placeholder(other) == [OPEN] + [OPEN] + (other + [CLOSE, CLOSE])
    ensures ReplaceAll(Placeholder(other) + z, Placeholder(name), v) ==
      [OPEN] + ([OPEN] + ReplaceAll(other + [CLOSE, CLOSE] + z, Placeholder(name), v))
  {
    var key := Placeholder(name);
    var tail := other + [CLOSE, CLOSE];
    var s1 := [OPEN] + (tail + z);
    var s := [OPEN] + s1;
    assert s == Placeholder(other) + z;
    PlaceholderMismatch(other, name, z);
    ReplaceAllSkip(s, key, v);
    assert s[1..] == s1;
    assert !(|s1| >= |key| && s1[..|key|] == key) by {
      if |s1| >= |key| {
        assert s1[..|key|][1] == tail[0] != OPEN;
      }
    }
    ReplaceAllSkip(s1, key, v);
    assert s1[1..] == tail + z;
  }

  lemma Regroup3(a: bytes, b: bytes, c: bytes, d: bytes)
    ensures a + (b + (c + d)) == a + b + c + d
  {
  }

  /** Text starting with the placeholder for another name does not start with this one. */
  lemma PlaceholderMismatch(other: bytes, name: bytes, z: bytes)
    requires ValidName(other) && ValidName(name) && other != name
    ensures var s, key := Placeholder(other) + z, Placeholder(name);
      !(|s| >= |key| && s[..|key|] == key)
  {
    var s, key := Placeholder(other) + z, Placeholder(name);
    if |s| >= |key| {
      if |other| < |name| {
        assert s[|other| + 2] == CLOSE && key[|other| + 2] == name[|other|];
      } else if |other| > |name| {
        assert s[|name| + 2] == other[|name|] && key[|name| + 2] == CLOSE;
      } else {
        var k :| 0 <= k < |other| && other[k] != name[k];
        assert s[k + 2] == other[k] && key[k + 2] == name[k];
      }
      assert s[..|key|] != key;
    }
  }

  /** One str_replace pass for `{{name}}` fills exactly the slots called name. */
  lemma {:induction false} ReplaceSlot(t: seq<Piece>, values: map<bytes, bytes>, name: bytes, v: bytes)
    requires WellFormed(t) && BraceFreeValues(values)
    requires ValidName(name) && name !in values
    ensures ReplaceAll(Render(t, values), Placeholder(name), v) == Render(t, values[name := v])
    decreases |t|
  {
    var key := Placeholder(name);
    if |t| > 0 {
      assert WellFormed(t[1..]) by {
        forall i | 0 <= i < |t[1..]| ensures (t[1..][i].Text? ==> Free(t[1..][i].text, OPEN)) && (t[1..][i].Slot? ==> ValidName(t[1..][i].name)) {
          assert t[1..][i] == t[i + 1];
        }
      }
      ReplaceSlot(t[1..], values, name, v);
      var rest := Render(t[1..], values);
      match t[0]
      case Text(x) =>
        assert t[0] == t[0];
        ReplaceAllPrefix(x, rest, key, v);
      case Slot(n) =>
        if n in values {
          ReplaceAllPrefix(values[n], rest, key, v);
        } else if n == name {
          ReplaceAllAtStart(key, rest, v);
        } else {
          OtherPlaceholder(n, name, rest, v);
        }
    }
  }

  /** The bindings after the assignments, added one by one. */
  function Bind(values: map<bytes, bytes>, assigns: seq<(bytes, bytes)>): map<bytes, bytes>
    decreases |assigns|
  {
    if |assigns| == 0 then values else Bind(values[assigns[0].0 := assigns[0].1], assigns[1..])
  }

  predicate DistinctNames(assigns: seq<(bytes, bytes)>) {
    forall i, j :: 0 <= i < j < |assigns| ==> assigns[i].0 != assigns[j].0
  }

  /** A name no assignment mentions keeps its binding. */
  lemma {:induction false} BindOther(values: map<bytes, bytes>, assigns: seq<(bytes, bytes)>, k: bytes)
    requires forall i :: 0 <= i < |assigns| ==> assigns[i].0 != k
    ensures (k in Bind(values, assigns)) == (k in values)
    ensures k in values ==> Bind(values, assigns)[k] == values[k]
    decreases |assigns|
  {
    if |assigns| > 0 {
      forall i | 0 <= i < |assigns[1..]| ensures assigns[1..][i].0 != k {
        assert assigns[1..][i] == assigns[i + 1];
      }
      BindOther(values[assigns[0].0 := assigns[0].1], assigns[1..], k);
    }
  }

  /** With distinct names, each name is bound to its own value. */
  lemma {:induction false} BindLookup(values: map<bytes, bytes>, assigns: seq<(bytes, bytes)>, i: nat)
    requires DistinctNames(assigns) && i < |assigns|
    ensures assigns[i].0 in Bind(values, assigns) && Bind(values, assigns)[assigns[i].0] == assigns[i].1
    decreases |assigns|
  {
    var rest := assigns[1..];
    var next := values[assigns[0].0 := assigns[0].1];
    if i == 0 {
      forall j | 0 <= j < |rest| ensures rest[j].0 != assigns[0].0 {
        assert rest[j] == assigns[j + 1];
      }
      BindOther(next, rest, assigns[0].0);
    } else {
      forall j, k | 0 <= j < k < |rest| ensures rest[j].0 != rest[k].0 {
        assert rest[j] == assigns[j + 1] && rest[k] == assigns[k + 1];
      }
      assert rest[i - 1] == assigns[i];
      BindLookup(next, rest, i - 1);
    }
  }

  /**
   * Sequential replacement over distinct, well-formed placeholder names
   * with brace-free values fills each slot with its value: the result does
   * not depend on the order of the searches.
   */
  lemma {:induction false} ReplacePairsRender(t: seq<Piece>, values: map<bytes, bytes>, assigns: seq<(bytes, bytes)>)
    requires WellFormed(t) && BraceFreeValues(values) && DistinctNames(assigns)
    requires forall i :: 0 <= i < |assigns| ==> ValidName(assigns[i].0) && assigns[i].0 !in values && Free(assigns[i].1, OPEN)
    ensures ReplacePairs(Pairs(assigns), Render(t, values)) == Render(t, Bind(values, assigns))
    decreases |assigns|
  {
    if |assigns| > 0 {
      var (n, v) := assigns[0];
      ReplaceSlot(t, values, n, v);
      var rest := assigns[1..];
      assert Pairs(assigns)[1..] == Pairs(rest);
      forall i | 0 <= i < |rest| ensures ValidName(rest[i].0) && rest[i].0 !in values[n := v] && Free(rest[i].1, OPEN) {
        assert rest[i] == assigns[i + 1];
      }
      ReplacePairsRender(t, values[n := v], rest);
    }
  }

  /** The values personalizeEmail substitutes, by placeholder name. */
  function LeadValues(lead: Lead): map<bytes, bytes> {
    Bind(map[], BodyAssignments(lead))
  }

  lemma {:induction false} FirstWordBraceFree(s: bytes)
    requires Free(s, OPEN)
    ensures Free(FirstWord(s), OPEN)
  {
    var w := FirstWord(s);
    forall k | 0 <= k < |w| ensures w[k] != OPEN {
      assert w[k] == s[k];
    }
  }

  /** A name made of lower-case letters and '_' is a valid placeholder name. */
  lemma LetterName(s: string)
    requires forall i :: 0 <= i < |s| ==> 'a' <= s[i] <= 'z' || s[i] == '_'
    ensures ValidName(Ascii(s))
  {
  }

  /** The five placeholder names are well formed and distinct. */
  lemma {:induction false} BodyNamesDistinct(lead: Lead)
    ensures DistinctNames(BodyAssignments(lead))
    ensures forall i :: 0 <= i < |BodyAssignments(lead)| ==> ValidName(BodyAssignments(lead)[i].0)
  {
    var a := BodyAssignments(lead);
    assert a[0].0 == LEAD_NAME && a[1].0 == FIRST_NAME && a[2].0 == COMPANY && a[3].0 == POSITION && a[4].0 == LOCATION;
    NamesValid();
    NamesDiffer();
  }

  lemma NamesValid()
    ensures ValidName(LEAD_NAME) && ValidName(FIRST_NAME) && ValidName(COMPANY)
    ensures ValidName(POSITION) && ValidName(LOCATION)
  {
    LetterName("lead_name");
    LetterName("first_name");
    LetterName("company");
    LetterName("position");
    LetterName("location");
  }

  lemma NamesDiffer()
    ensures LEAD_NAME != FIRST_NAME && LEAD_NAME != COMPANY && LEAD_NAME != POSITION && LEAD_NAME != LOCATION
    ensures FIRST_NAME != COMPANY && FIRST_NAME != POSITION && FIRST_NAME != LOCATION
    ensures COMPANY != POSITION && COMPANY != LOCATION && POSITION != LOCATION
  {
    assert LEAD_NAME[0] != FIRST_NAME[0] && LEAD_NAME[0] != COMPANY[0] && LEAD_NAME[0] != POSITION[0];
    assert LEAD_NAME[1] != LOCATION[1];
    assert FIRST_NAME[0] != COMPANY[0] && FIRST_NAME[0] != POSITION[0] && FIRST_NAME[0] != LOCATION[0];
    assert COMPANY[0] != POSITION[0] && COMPANY[0] != LOCATION[0] && POSITION[0] != LOCATION[0];
  }

  /** A lead whose data holds no '{': substituting into it cannot create a new placeholder. */
  predicate BraceFreeLead(lead: Lead) {
    Free(lead.fullName, OPEN) && Free(OrEmpty(lead.company), OPEN) &&
    Free(OrEmpty(lead.position), OPEN) && Free(OrEmpty(lead.location), OPEN)
  }

  /**
   * personalizeEmail on a template fills every `{{lead_name}}`,
   * `{{first_name}}`, `{{company}}`, `{{position}}` and `{{location}}` slot
   * with the lead's value and leaves other slots and all text alone,
   * provided the lead's data holds no '{'.
   */
  lemma {:induction false} PersonalizeTemplate(t: seq<Piece>, lead: Lead)
    requires WellFormed(t) && BraceFreeLead(lead)
    ensures PersonalizeEmail(Render(t, map[]), lead, true) == Render(t, LeadValues(lead))
  {
    var a := BodyAssignments(lead);
    BodyNamesDistinct(lead);
    FirstWordBraceFree(lead.fullName);
    forall i | 0 <= i < |a| ensures Free(a[i].1, OPEN) {
    }
    ReplacePairsRender(t, map[], a);
  }

  /**
   * personalizeSubject fills only `{{lead_name}}`, `{{first_name}}` and
   * `{{company}}`; `{{position}}` and `{{location}}` stay in the subject as written.
   */
  lemma {:induction false} PersonalizeSubjectTemplate(t: seq<Piece>, lead: Lead)
    requires WellFormed(t) && BraceFreeLead(lead)
    ensures PersonalizeSubject(Render(t, map[]), lead, true) == Render(t, Bind(map[], SubjectAssignments(lead)))
    ensures POSITION !in Bind(map[], SubjectAssignments(lead)) && LOCATION !in Bind(map[], SubjectAssignments(lead))
  {
    var a := SubjectAssignments(lead);
    var b := BodyAssignments(lead);
    BodyNamesDistinct(lead);
    assert a == b[..3];
    FirstWordBraceFree(lead.fullName);
    forall i | 0 <= i < |a| ensures ValidName(a[i].0) && Free(a[i].1, OPEN) {
      assert a[i] == b[i];
    }
    ReplacePairsRender(t, map[], a);
    forall i | 0 <= i < |a| ensures a[i].0 != POSITION && a[i].0 != LOCATION {
      assert a[i] == b[i];
    }
    BindOther(map[], a, POSITION);
    BindOther(map[], a, LOCATION);
  }

  /** A template without placeholders (no '{' at all) is sent as written. */
  lemma {:induction false} NoPlaceholderUnchanged(pairs: seq<(bytes, bytes)>, s: bytes)
    requires forall i :: 0 <= i < |pairs| ==> |pairs[i].0| > 0 && pairs[i].0[0] == OPEN
    requires Free(s, OPEN)
    ensures ReplacePairs(pairs, s) == s
    decreases |pairs|
  {
    if |pairs| > 0 {
      forall i ensures !OccursAt(s, pairs[0].0, i) {
        if 0 <= i && i + |pairs[0].0| <= |s| {
          assert s[i..i + |pairs[0].0|][0] == s[i] != OPEN;
        }
      }
      ReplaceAllAbsent(s, pairs[0].0, pairs[0].1);
      NoPlaceholderUnchanged(pairs[1..], s);
    }
  }

  lemma {:induction false} PersonalizeWithoutPlaceholders(body: bytes, lead: Lead, personalize: bool)
    requires Free(body, OPEN)
    ensures PersonalizeEmail(body, lead, personalize) == body
    ensures PersonalizeSubject(body, lead, personalize) == body
  {
    NoPlaceholderUnchanged(Pairs(BodyAssignments(lead)), body);
    NoPlaceholderUnchanged(Pairs(SubjectAssignments(lead)), body);
  }

  /**
   * Because the searches run one after another, a value that itself looks
   * like a later placeholder is replaced again: a company named
   * "{{position}}" comes out as the lead's position.
   */
  lemma {:induction false} EarlierValueReplacedLater(body: bytes, companyName: bytes, fullName: bytes, position: bytes)
    requires body == Placeholder(COMPANY) && companyName == Placeholder(POSITION)
    requires Free(position, OPEN)
    ensures PersonalizeEmail(body, Lead(0, [], fullName, Some(companyName), Some(position), None), true) == position
  {
    var lead := Lead(0, [], fullName, Some(companyName), Some(position), None);
    var p := Pairs(BodyAssignments(lead));
    BodyNamesDistinct(lead);
    ReplacePairsFive(p, body);
    assert body + [] == body && companyName + [] == companyName && position + [] == position;
    // {{lead_name}} and {{first_name}} do not occur
    OtherPlaceholder(COMPANY, LEAD_NAME, [], fullName);
    var s1 := ReplaceAll(body, p[0].0, p[0].1);
    assert s1 == body;
    OtherPlaceholder(COMPANY, FIRST_NAME, [], FirstWord(fullName));
    var s2 := ReplaceAll(s1, p[1].0, p[1].1);
    assert s2 == body;
    // {{company}} becomes "{{position}}", which the next search replaces
    ReplaceAllAtStart(Placeholder(COMPANY), [], companyName);
    var s3 := ReplaceAll(s2, p[2].0, p[2].1);
    assert s3 == Placeholder(POSITION);
    ReplaceAllAtStart(Placeholder(POSITION), [], position);
    var s4 := ReplaceAll(s3, p[3].0, p[3].1);
    assert s4 == position;
    NoPlaceholderUnchanged(p[4..], position);
  }

  lemma {:induction false} ReplacePairsFive<T>(p: seq<(seq<T>, seq<T>)>, s: seq<T>)
    requires |p| == 5
    ensures ReplacePairs(p, s) ==
      ReplacePairs(p[4..], ReplaceAll(ReplaceAll(ReplaceAll(ReplaceAll(s, p[0].0, p[0].1), p[1].0, p[1].1), p[2].0, p[2].1), p[3].0, p[3].1))
  {
    var s1 := ReplaceAll(s, p[0].0, p[0].1);
    var s2 := ReplaceAll(s1, p[1].0, p[1].1);
    var s3 := ReplaceAll(s2, p[2].0, p[2].1);
    var p1, p2, p3 := p[1..], p[2..], p[3..];
    assert p1[0] == p[1] && p1[1..] == p2 && p2[0] == p[2] && p2[1..] == p3 && p3[0] == p[3] && p3[1..] == p[4..];
    assert ReplacePairs(p, s) == ReplacePairs(p1, s1);
    assert ReplacePairs(p1, s1) == ReplacePairs(p2, s2);
    assert ReplacePairs(p2, s2) == ReplacePairs(p3, s3);
  }

  lemma {:induction false} AnaLee(fullName: bytes, first: bytes)
    requires fullName == Ascii("Ana Lee") && first == Ascii("Ana")
    ensures Free(fullName, OPEN) && FirstWord(fullName) == first
  {
    assert fullName[1..][1..][1..][0] == SPACE;
    assert FirstWord(fullName[1..][1..][1..]) == [];
  }

  /** "Hi {{first_name}} from {{company}}" for "Ana Lee" with no company reads "Hi Ana from ". */
  lemma {:induction false} GreetingExample(hi: bytes, from: bytes, fullName: bytes, first: bytes, email: bytes)
    requires hi == Ascii("Hi ") && from == Ascii(" from ")
    requires fullName == Ascii("Ana Lee") && first == Ascii("Ana")
    ensures PersonalizeEmail(hi + Placeholder(FIRST_NAME) + from + Placeholder(COMPANY),
                             Lead(1, email, fullName, None, None, None), true) == hi + first + from
  {
    var lead := Lead(1, email, fullName, None, None, None);
    var t := [Text(hi), Slot(FIRST_NAME), Text(from), Slot(COMPANY)];
    GreetingTemplate(hi, from);
    AnaLee(fullName, first);
    PersonalizeTemplate(t, lead);
    GreetingValues(lead, first);
    RenderFour(t, LeadValues(lead));
    assert Render(t, LeadValues(lead)) == hi + first + from + [];
  }

  lemma {:induction false} GreetingTemplate(hi: bytes, from: bytes)
    requires hi == Ascii("Hi ") && from == Ascii(" from ")
    ensures var t := [Text(hi), Slot(FIRST_NAME), Text(from), Slot(COMPANY)];
      WellFormed(t) && Render(t, map[]) == hi + Placeholder(FIRST_NAME) + from + Placeholder(COMPANY)
  {
    var t := [Text(hi), Slot(FIRST_NAME), Text(from), Slot(COMPANY)];
    LetterName("first_name");
    LetterName("company");
    assert WellFormed(t);
    RenderFour(t, map[]);
  }

  lemma {:induction false} GreetingValues(lead: Lead, first: bytes)
    requires FirstWord(lead.fullName) == first && lead.company.None?
    ensures FIRST_NAME in LeadValues(lead) && LeadValues(lead)[FIRST_NAME] == first
    ensures COMPANY in LeadValues(lead) && LeadValues(lead)[COMPANY] == []
  {
    var a := BodyAssignments(lead);
    BodyNamesDistinct(lead);
    BindLookup(map[], a, 1);
    BindLookup(map[], a, 2);
  }
}
