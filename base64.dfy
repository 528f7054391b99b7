/**
 * Base64 as PHP's base64_encode and (non-strict) base64_decode implement it:
 * the alphabet of section 4 of RFC 4648, the url-safe alphabet of section 5
 * obtained by swapping two symbols, and the unpadded url-safe form the Gmail
 * API accepts for raw messages.
 */
module Base64 {
  import opened PhpString

  type sextet = x: int | 0 <= x < 64

  const PAD: byte := 61       // '='
  const PLUS: byte := 43      // '+'
  const SLASH: byte := 47     // '/'
  const MINUS: byte := 45     // '-'
  const UNDERSCORE: byte := 95 // '_'

  /** The encoding table of section 4 of RFC 4648: A-Z, a-z, 0-9, '+', '/'. */
  function Symbol(v: sextet): (c: byte)
    ensures c != PAD && c != MINUS && c != UNDERSCORE && c != CR && c != LF
  {
    if v < 26 then 65 + v
    else if v < 52 then 71 + v
    else if v < 62 then v - 4
    else if v == 62 then PLUS
    else SLASH
  }

  /** PHP's reverse table: the value of a symbol; '=' and every other byte have none. */
  function Value(c: byte): (r: Option<sextet>)
    ensures r.Some? ==> Symbol(r.value) == c
  {
    if 65 <= c <= 90 then Some(c - 65)
    else if 97 <= c <= 122 then Some(c - 71)
    else if 48 <= c <= 57 then Some(c + 4)
    else if c == PLUS then Some(62)
    else if c == SLASH then Some(63)
    else None
  }

  lemma ValueOfSymbol(v: sextet)
    ensures Value(Symbol(v)) == Some(v)
  {
  }

  /** The symbols for a sequence of values. */
  function Symbols(vs: seq<sextet>): (r: bytes)
    ensures |r| == |vs|
    ensures forall k :: 0 <= k < |vs| ==> r[k] == Symbol(vs[k])
  {
    seq(|vs|, k requires 0 <= k < |vs| => Symbol(vs[k]))
  }

  /** The four values for the three bytes a, b, c: their 24 bits cut into four groups of six. */
  function QuadValues(a: byte, b: byte, c: byte): seq<sextet> {
    [a / 4, a % 4 * 16 + b / 16, b % 16 * 4 + c / 64, c % 64]
  }

  /** base64_encode: three bytes to four symbols, a short last group padded with '='. */
  function Encode(s: bytes): (r: bytes)
    ensures |r| == 4 * ((|s| + 2) / 3)
    decreases |s|
  {
    if |s| == 0 then []
    else if |s| == 1 then Symbols([s[0] / 4, s[0] % 4 * 16]) + [PAD, PAD]
    else if |s| == 2 then Symbols([s[0] / 4, s[0] % 4 * 16 + s[1] / 16, s[1] % 16 * 4]) + [PAD]
    else Symbols(QuadValues(s[0], s[1], s[2])) + Encode(s[3..])
  }

  /** The values of the symbols of s, in order; PHP's non-strict decoder skips '=' and every non-symbol byte. */
  function Sextets(s: bytes): seq<sextet>
    decreases |s|
  {
    if |s| == 0 then []
    else match Value(s[0])
      case Some(v) => [v] + Sextets(s[1..])
      case None => Sextets(s[1..])
  }

  /** Four values make three bytes; a trailing group of two or three makes one or two; a lone value makes none. */
  function DecodeSextets(v: seq<sextet>): bytes
    decreases |v|
  {
    if |v| < 2 then []
    else
      var b0: byte := (v[0] as int) * 4 + v[1] / 16;
      if |v| == 2 then [b0]
      else
        var b1: byte := (v[1] as int) % 16 * 16 + v[2] / 4;
        if |v| == 3 then [b0, b1]
        else
          var b2: byte := (v[2] as int) % 4 * 64 + v[3];
          [b0, b1, b2] + DecodeSextets(v[4..])
  }

  /** base64_decode in its default (non-strict) mode. */
  function Decode(s: bytes): bytes {
    DecodeSextets(Sextets(s))
  }

  lemma {:induction false} SextetsAppend(a: bytes, b: bytes)
    ensures Sextets(a + b) == Sextets(a) + Sextets(b)
    decreases |a|
  {
    if |a| == 0 {
      assert a + b == b;
    } else {
      assert (a + b)[0] == a[0];
      assert (a + b)[1..] == a[1..] + b;
      SextetsAppend(a[1..], b);
    }
  }

  /** Every byte of s is a symbol or '='. */
  predicate IsEncoded(s: bytes) {
    forall k :: 0 <= k < |s| ==> s[k] == PAD || Value(s[k]).Some?
  }

  lemma {:induction false} EncodeIsEncoded(s: bytes)
    ensures IsEncoded(Encode(s))
    decreases |s|
  {
    if |s| >= 3 {
      EncodeIsEncoded(s[3..]);
      var q, e := Symbols(QuadValues(s[0], s[1], s[2])), Encode(s[3..]);
      forall k | 0 <= k < |q + e| ensures (q + e)[k] == PAD || Value((q + e)[k]).Some? {
        if k < 4 {
          ValueOfSymbol(QuadValues(s[0], s[1], s[2])[k]);
        } else {
          assert (q + e)[k] == e[k - 4];
        }
      }
    } else if |s| == 2 {
      ValueOfSymbol(s[0] / 4);
      ValueOfSymbol(s[0] % 4 * 16 + s[1] / 16);
      ValueOfSymbol(s[1] % 16 * 4);
    } else if |s| == 1 {
      ValueOfSymbol(s[0] / 4);
      ValueOfSymbol(s[0] % 4 * 16);
    }
  }

  lemma {:induction false} SextetsOfSymbols(vs: seq<sextet>)
    ensures Sextets(Symbols(vs)) == vs
    decreases |vs|
  {
    if |vs| > 0 {
      ValueOfSymbol(vs[0]);
      assert Symbols(vs)[1..] == Symbols(vs[1..]);
      SextetsOfSymbols(vs[1..]);
    }
  }

  lemma SextetsOfPadding(n: nat)
    ensures Sextets(seq(n, _ => PAD)) == []
  {
    if n > 0 {
      assert seq(n, _ => PAD)[1..] == seq(n - 1, _ => PAD);
      SextetsOfPadding(n - 1);
    }
  }

  lemma QuadBytes(a: byte, b: byte, c: byte)
    ensures DecodeSextets(QuadValues(a, b, c)) == [a, b, c]
  {
    var v := QuadValues(a, b, c);
    assert v[4..] == [];
    var x, y, z, w := a / 4, a % 4 * 16 + b / 16, b % 16 * 4 + c / 64, c % 64;
    assert v == [x, y, z, w];
    assert x * 4 + y / 16 == a by {
      assert y / 16 == a % 4;
    }
    assert y % 16 * 16 + z / 4 == b by {
      assert y % 16 == b / 16 && z / 4 == b % 16;
    }
    assert z % 4 * 64 + w == c by {
      assert z % 4 == c / 64;
    }
  }

  /** Decoding what base64_encode produced gives back the input. */
  lemma {:induction false} DecodeEncode(s: bytes)
    ensures Decode(Encode(s)) == s
    decreases |s|
  {
    if |s| >= 3 {
      DecodeEncode(s[3..]);
      DecodeGroup(s);
    } else if |s| == 2 {
      DecodeTwo(s);
    } else if |s| == 1 {
      DecodeOne(s);
    }
  }

  /** A leading three-byte group decodes on its own, in front of the rest. */
  lemma {:induction false} DecodeGroup(s: bytes)
    requires |s| >= 3 && Decode(Encode(s[3..])) == s[3..]
    ensures Decode(Encode(s)) == s
  {
    var v := QuadValues(s[0], s[1], s[2]);
    SextetsAppend(Symbols(v), Encode(s[3..]));
    SextetsOfSymbols(v);
    var w := v + Sextets(Encode(s[3..]));
    assert w[..4] == v && w[4..] == Sextets(Encode(s[3..]));
    QuadBytes(s[0], s[1], s[2]);
    assert DecodeSextets(w) == DecodeSextets(v)[..3] + DecodeSextets(w[4..]);
    assert s == [s[0], s[1], s[2]] + s[3..];
  }

  lemma {:induction false} DecodeTwo(s: bytes)
    requires |s| == 2
    ensures Decode(Encode(s)) == s
  {
    var v: seq<sextet> := [s[0] / 4, s[0] % 4 * 16 + s[1] / 16, s[1] % 16 * 4];
    SextetsAppend(Symbols(v), [PAD]);
    SextetsOfSymbols(v);
    SextetsOfPadding(1);
    assert seq(1, _ => PAD) == [PAD];
  }

  lemma {:induction false} DecodeOne(s: bytes)
    requires |s| == 1
    ensures Decode(Encode(s)) == s
  {
    var v: seq<sextet> := [s[0] / 4, s[0] % 4 * 16];
    SextetsAppend(Symbols(v), [PAD, PAD]);
    SextetsOfSymbols(v);
    SextetsOfPadding(2);
    assert seq(2, _ => PAD) == [PAD, PAD];
  }

  /** strtr(s, '+/', '-_'): the url-safe alphabet of section 5 of RFC 4648. */
  function ToUrlSafe(s: bytes): (r: bytes)
    ensures |r| == |s|
    ensures forall k :: 0 <= k < |s| ==>
      r[k] == (if s[k] == PLUS then MINUS else if s[k] == SLASH then UNDERSCORE else s[k])
  {
    seq(|s|, k requires 0 <= k < |s| =>
      if s[k] == PLUS then MINUS else if s[k] == SLASH then UNDERSCORE else s[k])
  }

  /**
   * str_replace(['-', '_'], ['+', '/'], s). Both searches are single bytes
   * and neither replacement is searched for later, so it is a byte-by-byte map.
   */
  function FromUrlSafe(s: bytes): (r: bytes)
    ensures |r| == |s|
    ensures forall k :: 0 <= k < |s| ==>
      r[k] == (if s[k] == MINUS then PLUS else if s[k] == UNDERSCORE then SLASH else s[k])
  {
    seq(|s|, k requires 0 <= k < |s| =>
      if s[k] == MINUS then PLUS else if s[k] == UNDERSCORE then SLASH else s[k])
  }

  /**
   * The inbound decoder's base64Decode: back to the standard alphabet, then
   * base64_decode. Data without '-' and '_' is decoded as base64_decode
   * alone would decode it.
   */
  function UrlSafeDecode(data: bytes): (r: bytes)
    ensures (forall k :: 0 <= k < |data| ==> data[k] != MINUS && data[k] != UNDERSCORE) ==> r == Decode(data)
  {
    assert (forall k :: 0 <= k < |data| ==> data[k] != MINUS && data[k] != UNDERSCORE) ==> FromUrlSafe(data) == data;
    Decode(FromUrlSafe(data))
  }

  /** rtrim(strtr(base64_encode(raw), '+/', '-_'), '='): unpadded base64url. */
  function EncodeUnpaddedUrlSafe(raw: bytes): (r: bytes)
    ensures |Encode(raw)| - 2 <= |r| <= |Encode(raw)|
    ensures r == ToUrlSafe(Encode(raw))[..|r|]
    ensures forall k :: 0 <= k < |r| ==> r[k] != PLUS && r[k] != SLASH && r[k] != PAD
  {
    var e := Encode(raw);
    EncodedPaddingAtEnd(raw);
    UnpaddedShape(e, ToUrlSafe(e));
    TrimRight(ToUrlSafe(e), PAD)
  }

  /** Trimming '=' from the url-safe form of text whose padding sits only at its end. */
  lemma UnpaddedShape(e: bytes, u: bytes)
    requires forall k :: 0 <= k < |e| - 2 ==> e[k] != PAD
    requires |e| >= 2 && e[|e| - 2] == PAD ==> e[|e| - 1] == PAD
    requires u == ToUrlSafe(e)
    ensures |e| - 2 <= |TrimRight(u, PAD)|
    ensures forall k :: 0 <= k < |TrimRight(u, PAD)| ==>
      TrimRight(u, PAD)[k] != PLUS && TrimRight(u, PAD)[k] != SLASH && TrimRight(u, PAD)[k] != PAD
  {
    var r := TrimRight(u, PAD);
    var n, m := |u|, |r|;
    if n >= 3 {
      assert e[n - 3] != PAD;
      assert u[n - 3] != PAD;
    }
    forall k | 0 <= k < m ensures r[k] != PLUS && r[k] != SLASH && r[k] != PAD {
      assert r[k] == u[k];
      if k < n - 2 {
        assert e[k] != PAD;
      } else if k == n - 2 && m == n {
        assert u[n - 1] == r[m - 1];
        assert e[n - 1] != PAD;
      }
    }
  }

  /** Padding only ever stands in the last two places of base64_encode's output. */
  lemma {:induction false} EncodedPaddingAtEnd(s: bytes)
    ensures forall k :: 0 <= k < |Encode(s)| - 2 ==> Encode(s)[k] != PAD
    ensures |Encode(s)| >= 2 ==> Encode(s)[|Encode(s)| - 2] == PAD ==> Encode(s)[|Encode(s)| - 1] == PAD
    decreases |s|
  {
    if |s| >= 3 {
      EncodedPaddingAtEnd(s[3..]);
      var q, e := Symbols(QuadValues(s[0], s[1], s[2])), Encode(s[3..]);
      assert Encode(s) == q + e;
      forall k | 0 <= k < |q + e| - 2 ensures (q + e)[k] != PAD {
        if k >= 4 {
          assert (q + e)[k] == e[k - 4];
        }
      }
    }
  }

  lemma {:induction false} FromUrlSafeOfToUrlSafe(s: bytes)
    requires forall k :: 0 <= k < |s| ==> s[k] != MINUS && s[k] != UNDERSCORE
    ensures FromUrlSafe(ToUrlSafe(s)) == s
  {
  }

  lemma {:induction false} SextetsTrimPad(s: bytes)
    ensures Sextets(TrimRight(s, PAD)) == Sextets(s)
    decreases |s|
  {
    if |s| > 0 && s[|s| - 1] == PAD {
      var init := s[..|s| - 1];
      SextetsTrimPad(init);
      assert s == init + [PAD];
      SextetsAppend(init, [PAD]);
    }
  }

  /** Encoded text holds none of the url-safe symbols, so the two alphabets map onto each other. */
  lemma EncodedHasNoUrlSymbols(s: bytes)
    ensures forall k :: 0 <= k < |Encode(s)| ==> Encode(s)[k] != MINUS && Encode(s)[k] != UNDERSCORE
  {
    EncodeIsEncoded(s);
  }

  /**
   * The inbound base64Decode inverts the url-safe form of base64_encode,
   * padded or not.
   */
  lemma UrlSafeRoundTrip(raw: bytes)
    ensures UrlSafeDecode(ToUrlSafe(Encode(raw))) == raw
    ensures UrlSafeDecode(EncodeUnpaddedUrlSafe(raw)) == raw
  {
    var e := Encode(raw);
    EncodedHasNoUrlSymbols(raw);
    FromUrlSafeOfToUrlSafe(e);
    DecodeEncode(raw);
    UnpaddedBack(raw);
    SextetsTrimPad(e);
  }

  /** Mapped back to the standard alphabet, the unpadded form is base64_encode's output without its '='. */
  lemma {:induction false} UnpaddedBack(raw: bytes)
    ensures FromUrlSafe(EncodeUnpaddedUrlSafe(raw)) == TrimRight(Encode(raw), PAD)
  {
    var e := Encode(raw);
    var u := ToUrlSafe(e);
    EncodedHasNoUrlSymbols(raw);
    EncodedPaddingAtEnd(raw);
    TrimRightLength(e, u);
    var r := EncodeUnpaddedUrlSafe(raw);
    assert r == TrimRight(u, PAD);
    var t := TrimRight(e, PAD);
    assert |r| == |t|;
    forall k | 0 <= k < |r| ensures FromUrlSafe(r)[k] == t[k] {
      assert r[k] == u[k] && t[k] == e[k];
    }
  }

  /** Trimming '=' from the url-safe text stops at the same place as trimming the original. */
  lemma {:induction false} TrimRightLength(e: bytes, u: bytes)
    requires |u| == |e|
    requires forall k :: 0 <= k < |e| ==> (u[k] == PAD <==> e[k] == PAD)
    ensures |TrimRight(u, PAD)| == |TrimRight(e, PAD)|
    decreases |e|
  {
    if |e| > 0 && e[|e| - 1] == PAD {
      TrimRightLength(e[..|e| - 1], u[..|u| - 1]);
    }
  }

  lemma {:induction false} SextetsSkipLineBreaks(lines: seq<bytes>)
    ensures Sextets(Concat(Terminated(lines, CRLF()))) == Sextets(Concat(lines))
    decreases |lines|
  {
    if |lines| > 0 {
      var t := Terminated(lines, CRLF());
      assert t[1..] == Terminated(lines[1..], CRLF());
      SextetsSkipLineBreaks(lines[1..]);
      SextetsAppend(lines[0] + CRLF(), Concat(t[1..]));
      SextetsAppend(lines[0], CRLF());
      SextetsAppend(lines[0], Concat(lines[1..]));
      assert Sextets(CRLF()) == [];
    }
  }

  /** An attachment wrapped by chunk_split(base64_encode(bytes)) decodes back to its bytes. */
  lemma ChunkedRoundTrip(content: bytes)
    ensures Decode(ChunkSplit(Encode(content))) == content
  {
    var e := Encode(content);
    ChunkSplitLines(e);
    SextetsSkipLineBreaks(Chunks(e));
    DecodeEncode(content);
  }

  /** A line break after encoded text changes nothing for the lenient decoder. */
  lemma DecodeSkipsTrailingLineBreak(s: bytes)
    ensures Decode(s + CRLF()) == Decode(s)
  {
    SextetsAppend(s, CRLF());
    var crlf := CRLF();
    assert Value(crlf[0]) == None && Value(crlf[1]) == None;
    assert crlf[1..][1..] == [];
    assert Sextets(crlf) == Sextets(crlf[1..]) == Sextets(crlf[1..][1..]) == [];
    assert Sextets(s + crlf) == Sextets(s);
  }

  /**
   * Standard base64 holds no '-' or '_', so the inbound base64Decode also
   * reads it: both wire forms of a message decode to the same raw text.
   */
  lemma StandardFormUrlSafeDecodes(raw: bytes)
    ensures UrlSafeDecode(Encode(raw)) == raw
    ensures UrlSafeDecode(Encode(raw)) == UrlSafeDecode(EncodeUnpaddedUrlSafe(raw))
  {
    EncodedHasNoUrlSymbols(raw);
    assert FromUrlSafe(Encode(raw)) == Encode(raw);
    DecodeEncode(raw);
    UrlSafeRoundTrip(raw);
  }
}
