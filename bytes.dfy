/**
 * Byte strings. Every JavaScript string that the credential decoders push
 * through `Buffer` is modelled by its UTF-8 encoding, a `Bytes` value.
 */
module Bytes {

  type byte = x: int | 0 <= x < 256

  type Bytes = seq<byte>

  /**
   * The bytes of an ASCII literal. The function is total: a character
   * beyond one byte would keep its low byte, which no literal here has.
   */
  function Ascii(s: string): (r: Bytes)
    ensures |r| == |s|
    ensures forall i :: 0 <= i < |s| && s[i] as int < 256 ==> r[i] == s[i] as int
  {
    seq(|s|, i requires 0 <= i < |s| => s[i] as int % 256)
  }

  /** Encoding distributes over concatenation. */
  lemma AsciiAppend(a: string, b: string)
    ensures Ascii(a + b) == Ascii(a) + Ascii(b)
  {
    assert forall i :: 0 <= i < |a + b| ==> Ascii(a + b)[i] == (Ascii(a) + Ascii(b))[i];
  }

  const PIPE: byte := '|' as int

  /** `s.startsWith(p)`, on byte strings and on text alike. */
  predicate StartsWith<T(==)>(s: seq<T>, p: seq<T>) {
    |p| <= |s| && s[..|p|] == p
  }

  /** Regrouping a concatenation of five parts to the right, for any element type. */
  lemma Regroup<T>(a: seq<T>, b: seq<T>, c: seq<T>, d: seq<T>, e: seq<T>)
    ensures a + b + c + d + e == a + (b + (c + (d + e)))
  {
  }

  /** The ASCII lower-case form of one byte; other bytes are unchanged. */
  function LowerByte(b: byte): (r: byte)
    ensures 'A' as int <= b <= 'Z' as int ==> r == b + 32
    ensures !('A' as int <= b <= 'Z' as int) ==> r == b
  {
    if 'A' as int <= b <= 'Z' as int then b + 32 else b
  }

  /** Equality up to ASCII case, as JavaScript's `i` flag compares ASCII patterns. */
  predicate EqualsIgnoreCase(s: Bytes, t: Bytes) {
    |s| == |t| && forall i :: 0 <= i < |s| ==> LowerByte(s[i]) == LowerByte(t[i])
  }

  lemma EqualsIgnoreCaseReflexive(s: Bytes)
    ensures EqualsIgnoreCase(s, s)
  {
  }

  predicate IsDigit(b: byte) {
    '0' as int <= b <= '9' as int
  }

  predicate IsAsciiLetter(b: byte) {
    'a' as int <= b <= 'z' as int || 'A' as int <= b <= 'Z' as int
  }

  /** A UTF-8 continuation byte, `10xxxxxx`. */
  predicate IsContinuation(b: byte) {
    0x80 <= b < 0xC0
  }

  /**
   * JavaScript's `length` of the string whose UTF-8 encoding is `s`: one
   * UTF-16 code unit per code point, two for a code point that takes four
   * UTF-8 bytes (leading byte 0xF0 or above).
   */
  function JsLength(s: Bytes): (n: nat)
    ensures n <= 2 * |s|
    ensures (forall i :: 0 <= i < |s| ==> s[i] < 0x80) ==> n == |s|
  {
    if s == [] then 0
    else (if IsContinuation(s[0]) then 0 else if s[0] >= 0xF0 then 2 else 1) + JsLength(s[1..])
  }

  /** The number of occurrences of byte `b` in `s`. */
  function Count(s: Bytes, b: byte): (n: nat)
    ensures n <= |s|
    ensures n == 0 <==> b !in s
  {
    if s == [] then 0 else (if s[0] == b then 1 else 0) + Count(s[1..], b)
  }

  lemma {:induction false} CountAppend(s: Bytes, t: Bytes, b: byte)
    ensures Count(s + t, b) == Count(s, b) + Count(t, b)
  {
    if s == [] {
      assert s + t == t;
    } else {
      assert (s + t)[1..] == s[1..] + t;
      CountAppend(s[1..], t, b);
    }
  }

  /** `parts.join(sep)`. */
  function Join(parts: seq<Bytes>, sep: byte): (r: Bytes)
    decreases |parts|
  {
    if parts == [] then []
    else if |parts| == 1 then parts[0]
    else parts[0] + [sep] + Join(parts[1..], sep)
  }

  /**
   * `s.split(sep)` for a one-byte separator: the maximal separator-free
   * pieces between separators. It never returns an empty list; the empty
   * string splits into one empty piece.
   */
  function Split(s: Bytes, sep: byte): (r: seq<Bytes>)
    ensures |r| >= 1
    ensures forall i :: 0 <= i < |r| ==> sep !in r[i]
    ensures |r| == Count(s, sep) + 1
    ensures Join(r, sep) == s
    decreases |s|
  {
    if s == [] then [[]]
    else
      var rest := Split(s[1..], sep);
      if s[0] == sep then
        assert s == [sep] + s[1..];
        JoinEmptyFirst(rest, sep);
        [[]] + rest
      else
        assert s == [s[0]] + s[1..];
        JoinPrepend(s[0], rest, sep);
        [[s[0]] + rest[0]] + rest[1..]
  }

  /** An empty first part adds just one separator in front. */
  lemma JoinEmptyFirst(rest: seq<Bytes>, sep: byte)
    requires |rest| >= 1
    ensures Join([[]] + rest, sep) == [sep] + Join(rest, sep)
  {
    assert ([[]] + rest)[1..] == rest;
  }

  /** A byte put in front of the first part comes first in the joined string. */
  lemma JoinPrepend(b: byte, rest: seq<Bytes>, sep: byte)
    requires |rest| >= 1
    ensures Join([[b] + rest[0]] + rest[1..], sep) == [b] + Join(rest, sep)
  {
    var parts := [[b] + rest[0]] + rest[1..];
    assert parts[0] == [b] + rest[0] && parts[1..] == rest[1..];
    if |rest| > 1 {
      assert Join(parts, sep) == ([b] + rest[0]) + [sep] + Join(rest[1..], sep);
    }
  }

  /** Splitting what was joined gives back the parts, when none holds the separator. */
  lemma {:induction false} SplitJoin(parts: seq<Bytes>, sep: byte)
    requires |parts| >= 1
    requires forall i :: 0 <= i < |parts| ==> sep !in parts[i]
    ensures Split(Join(parts, sep), sep) == parts
    decreases |parts|
  {
    if |parts| == 1 {
      SplitFree(parts[0], sep);
    } else {
      var tail := Join(parts[1..], sep);
      SplitJoin(parts[1..], sep);
      SplitPrefix(parts[0], tail, sep);
      assert [parts[0]] + parts[1..] == parts;
    }
  }

  /** A separator-free string splits into itself. */
  lemma {:induction false} SplitFree(s: Bytes, sep: byte)
    requires sep !in s
    ensures Split(s, sep) == [s]
    decreases |s|
  {
    if s != [] {
      SplitFree(s[1..], sep);
      assert [s[0]] + s[1..] == s;
    }
  }

  /** Splitting `p + [sep] + t` with a separator-free `p` yields `p` followed by the pieces of `t`. */
  lemma {:induction false} SplitPrefix(p: Bytes, t: Bytes, sep: byte)
    requires sep !in p
    ensures Split(p + [sep] + t, sep) == [p] + Split(t, sep)
    decreases |p|
  {
    var s := p + [sep] + t;
    if p == [] {
      assert s[0] == sep && s[1..] == t;
    } else {
      assert s[0] == p[0] != sep;
      assert s[1..] == p[1..] + [sep] + t;
      SplitPrefix(p[1..], t, sep);
      var rest := Split(s[1..], sep);
      assert Split(s, sep) == [[p[0]] + rest[0]] + rest[1..];
      assert [p[0]] + p[1..] == p;
    }
  }

  /** Joining n separator-free parts places exactly n - 1 separators. */
  lemma {:induction false} JoinCount(parts: seq<Bytes>, sep: byte)
    requires |parts| >= 1
    requires forall i :: 0 <= i < |parts| ==> sep !in parts[i]
    ensures Count(Join(parts, sep), sep) == |parts| - 1
    decreases |parts|
  {
    if |parts| > 1 {
      JoinCount(parts[1..], sep);
      CountAppend(parts[0], [sep], sep);
      CountAppend(parts[0] + [sep], Join(parts[1..], sep), sep);
      assert Count([sep], sep) == 1 by {
        assert [sep][1..] == [];
      }
    }
  }
}
