/**
 * PHP byte strings and the few string built-ins the mail core relies on:
 * truthiness, strtolower, implode, str_replace, explode, str_contains,
 * chunk_split and rtrim.
 */
module PhpString {

  datatype Option<+T> = None | Some(value: T)

  /** A PHP string is a sequence of bytes. */
  type byte = x: int | 0 <= x < 0x100
  type bytes = seq<byte>

  const CR: byte := 13
  const LF: byte := 10
  const SPACE: byte := 32
  const DIGIT_ZERO: byte := 48

  /** The bytes of an ASCII literal (every character the model uses is below 128). */
  function Ascii(s: string): (r: bytes)
    ensures |r| == |s|
    ensures forall i :: 0 <= i < |s| ==> r[i] == (s[i] as int) % 0x100
  {
    seq(|s|, i requires 0 <= i < |s| => (s[i] as int) % 0x100)
  }

  function CRLF(): (r: bytes)
    ensures r == [CR, LF]
  {
    Ascii("\r\n")
  }

  /** PHP's boolean reading of a string: "" and "0" are false, everything else true. */
  predicate Truthy(s: bytes) {
    s != [] && s != [DIGIT_ZERO]
  }

  lemma TruthyNotZero(s: bytes)
    requires |s| >= 2
    ensures Truthy(s)
  {
  }

  /** True when the byte b does not occur in s. */
  predicate Free(s: bytes, b: byte) {
    forall k :: 0 <= k < |s| ==> s[k] != b
  }

  /** strtolower: only the ASCII letters A-Z change. */
  function Lower(s: bytes): (r: bytes)
    ensures |r| == |s|
    ensures forall i :: 0 <= i < |s| ==>
      r[i] == (if 65 <= s[i] <= 90 then s[i] + 32 else s[i])
  {
    seq(|s|, i requires 0 <= i < |s| => if 65 <= s[i] <= 90 then s[i] + 32 else s[i])
  }

  lemma LowerIdempotent(s: bytes)
    ensures Lower(Lower(s)) == Lower(s)
  {
  }

  /** implode(sep, parts). */
  function Join(parts: seq<bytes>, sep: bytes): bytes
    decreases |parts|
  {
    if |parts| == 0 then []
    else if |parts| == 1 then parts[0]
    else parts[0] + sep + Join(parts[1..], sep)
  }

  /** Concatenation of a sequence of strings. */
  function Concat(parts: seq<bytes>): bytes
    decreases |parts|
  {
    if |parts| == 0 then [] else parts[0] + Concat(parts[1..])
  }

  lemma ConcatAppend(a: seq<bytes>, b: seq<bytes>)
    ensures Concat(a + b) == Concat(a) + Concat(b)
    decreases |a|
  {
    if |a| > 0 {
      assert (a + b)[0] == a[0];
      assert (a + b)[1..] == a[1..] + b;
      ConcatAppend(a[1..], b);
    } else {
      assert a + b == b;
    }
  }

  /** Terminated(lines, t): every line followed by the terminator t. */
  function Terminated(lines: seq<bytes>, t: bytes): (r: seq<bytes>)
    ensures |r| == |lines|
    ensures forall i :: 0 <= i < |lines| ==> r[i] == lines[i] + t
  {
    seq(|lines|, i requires 0 <= i < |lines| => lines[i] + t)
  }

  /**
   * Joining with a separator and then appending one more separator is the
   * same as terminating every part with it.
   */
  lemma {:induction false} JoinThenTerminate(parts: seq<bytes>, sep: bytes)
    requires |parts| > 0
    ensures Join(parts, sep) + sep == Concat(Terminated(parts, sep))
    decreases |parts|
  {
    if |parts| > 1 {
      JoinThenTerminate(parts[1..], sep);
      assert Terminated(parts, sep)[1..] == Terminated(parts[1..], sep);
    } else {
      assert Terminated(parts, sep)[1..] == [];
    }
  }

  /**
   * str_replace(search, replace, subject) for one non-array search string:
   * the leftmost occurrence is replaced first, the scan resumes after the
   * inserted text, and an empty search string leaves the subject unchanged.
   */
  function ReplaceAll<T(==)>(s: seq<T>, search: seq<T>, replace: seq<T>): seq<T>
    decreases |s|
  {
    if |search| == 0 || |s| < |search| then s
    else if s[..|search|] == search then replace + ReplaceAll(s[|search|..], search, replace)
    else [s[0]] + ReplaceAll(s[1..], search, replace)
  }

  /** True when `search` occurs in s starting at index i. */
  predicate OccursAt<T(==)>(s: seq<T>, search: seq<T>, i: int) {
    0 <= i && i + |search| <= |s| && s[i..i + |search|] == search
  }

  /** Concatenation regrouped; the solver does not find this step on its own in larger terms. */
  lemma {:induction false} AssociateSeq<T>(x: seq<T>, y: seq<T>, z: seq<T>)
    ensures x + y + z == x + (y + z)
  {
  }

  /** str_contains(haystack, needle). */
  predicate Contains<T(==)>(haystack: seq<T>, needle: seq<T>) {
    exists i | 0 <= i <= |haystack| - |needle| :: OccursAt(haystack, needle, i)
  }

  /** A subject in which the search string does not occur is left unchanged. */
  lemma {:induction false} ReplaceAllAbsent<T>(s: seq<T>, search: seq<T>, replace: seq<T>)
    requires forall i :: !OccursAt(s, search, i)
    ensures ReplaceAll(s, search, replace) == s
    decreases |s|
  {
    if |search| == 0 || |s| < |search| {
    } else {
      assert !OccursAt(s, search, 0);
      assert s[..|search|] == s[0..0 + |search|];
      forall i ensures !OccursAt(s[1..], search, i) {
        if OccursAt(s[1..], search, i) {
          assert s[1..][i..i + |search|] == s[i + 1..i + 1 + |search|];
          assert OccursAt(s, search, i + 1);
        }
      }
      ReplaceAllAbsent(s[1..], search, replace);
    }
  }

  /** Text that cannot start a match (its bytes never equal the search's first one) passes through. */
  lemma {:induction false} ReplaceAllPrefix<T>(x: seq<T>, z: seq<T>, search: seq<T>, replace: seq<T>)
    requires |search| > 0
    requires forall k :: 0 <= k < |x| ==> x[k] != search[0]
    ensures ReplaceAll(x + z, search, replace) == x + ReplaceAll(z, search, replace)
    decreases |x|
  {
    if |x| == 0 {
      assert x + z == z;
    } else {
      var s := x + z;
      assert s[0] == x[0];
      assert s[1..] == x[1..] + z;
      if |s| >= |search| {
        assert s[..|search|][0] == x[0];
      }
      ReplaceAllSkip(s, search, replace);
      ReplaceAllPrefix(x[1..], z, search, replace);
      AssociateSeq([x[0]], x[1..], ReplaceAll(z, search, replace));
      assert [x[0]] + x[1..] == x;
    }
  }

  /** Where the search string does not start s, str_replace keeps s's first element and goes on after it. */
  lemma {:induction false} ReplaceAllSkip<T>(s: seq<T>, search: seq<T>, replace: seq<T>)
    requires |search| > 0 && |s| > 0 && !(|s| >= |search| && s[..|search|] == search)
    ensures ReplaceAll(s, search, replace) == [s[0]] + ReplaceAll(s[1..], search, replace)
  {
    if |s| < |search| {
      assert ReplaceAll(s[1..], search, replace) == s[1..];
      assert s == [s[0]] + s[1..];
    }
  }

  /** A subject that starts with the search string has that occurrence replaced. */
  lemma ReplaceAllAtStart<T>(search: seq<T>, z: seq<T>, replace: seq<T>)
    requires |search| > 0
    ensures ReplaceAll(search + z, search, replace) == replace + ReplaceAll(z, search, replace)
  {
    var s := search + z;
    assert s[..|search|] == search;
    assert s[|search|..] == z;
  }

  /** str_replace(array_keys(pairs), array_values(pairs), s): the pairs are applied one after another. */
  function ReplacePairs<T(==)>(pairs: seq<(seq<T>, seq<T>)>, s: seq<T>): seq<T>
    decreases |pairs|
  {
    if |pairs| == 0 then s
    else ReplacePairs(pairs[1..], ReplaceAll(s, pairs[0].0, pairs[0].1))
  }

  /** Applying a + b is applying a, then b. */
  lemma {:induction false} ReplacePairsAppend<T>(a: seq<(seq<T>, seq<T>)>, b: seq<(seq<T>, seq<T>)>, s: seq<T>)
    ensures ReplacePairs(a + b, s) == ReplacePairs(b, ReplacePairs(a, s))
    decreases |a|
  {
    if |a| > 0 {
      assert (a + b)[0] == a[0];
      assert (a + b)[1..] == a[1..] + b;
      ReplacePairsAppend(a[1..], b, ReplaceAll(s, a[0].0, a[0].1));
    } else {
      assert a + b == b;
    }
  }

  /** explode(' ', s)[0]: the text before the first space, or all of s. */
  function FirstWord(s: bytes): (r: bytes)
    ensures |r| <= |s| && r == s[..|r|]
    ensures Free(r, SPACE)
    ensures |r| == |s| || s[|r|] == SPACE
    decreases |s|
  {
    if |s| == 0 || s[0] == SPACE then [] else [s[0]] + FirstWord(s[1..])
  }

  /** rtrim(s, c): drop every trailing c. */
  function TrimRight(s: bytes, c: byte): (r: bytes)
    ensures |r| <= |s| && r == s[..|r|]
    ensures forall k :: |r| <= k < |s| ==> s[k] == c
    ensures |r| == 0 || r[|r| - 1] != c
    decreases |s|
  {
    if |s| > 0 && s[|s| - 1] == c then TrimRight(s[..|s| - 1], c) else s
  }

  const CHUNK: nat := 76

  /** chunk_split(s): s cut into 76-byte lines, each (the last one too) followed by CRLF. */
  function ChunkSplit(s: bytes): bytes
    decreases |s|
  {
    if |s| <= CHUNK then s + CRLF() else s[..CHUNK] + CRLF() + ChunkSplit(s[CHUNK..])
  }

  /** The lines chunk_split produces: 76 bytes each except the last, which is 1 to 76 long (or empty for an empty input). */
  function Chunks(s: bytes): (cs: seq<bytes>)
    ensures |cs| > 0 && Concat(cs) == s
    ensures forall k :: 0 <= k < |cs| ==> |cs[k]| <= CHUNK
    ensures forall k :: 0 <= k < |cs| - 1 ==> |cs[k]| == CHUNK
    decreases |s|
  {
    if |s| <= CHUNK then [s] else [s[..CHUNK]] + Chunks(s[CHUNK..])
  }

  /** chunk_split(s) is the lines of Chunks(s), each terminated by CRLF. */
  lemma {:induction false} ChunkSplitLines(s: bytes)
    ensures ChunkSplit(s) == Concat(Terminated(Chunks(s), CRLF()))
    decreases |s|
  {
    var t := Terminated(Chunks(s), CRLF());
    if |s| <= CHUNK {
      assert t[1..] == [];
    } else {
      ChunkSplitLines(s[CHUNK..]);
      assert t[1..] == Terminated(Chunks(s[CHUNK..]), CRLF());
    }
  }
}
