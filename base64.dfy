/**
 * Base64 with the standard alphabet and `=` padding (section 4 of RFC 4648),
 * as `Buffer.toString('base64')` produces it and `Buffer.from(s, 'base64')`
 * reads it back.
 */
module Base64 {
  import opened Bytes

  /** A 6-bit value. */
  type Sextet = x: int | 0 <= x < 64

  const PAD: byte := '=' as int

  /** The alphabet of section 4 of RFC 4648: A-Z, a-z, 0-9, `+`, `/`. */
  function CharOf(v: Sextet): (c: byte)
    ensures c != PAD && c != PIPE
  {
    if v < 26 then 'A' as int + v
    else if v < 52 then 'a' as int + (v - 26)
    else if v < 62 then '0' as int + (v - 52)
    else if v == 62 then '+' as int
    else '/' as int
  }

  /**
   * The value of an alphabet byte. The lenient decoder reads any other
   * byte as 0; on canonical encodings that never happens.
   */
  function ValueOf(c: byte): (v: Sextet)
  {
    if 'A' as int <= c <= 'Z' as int then c - 'A' as int
    else if 'a' as int <= c <= 'z' as int then c - 'a' as int + 26
    else if '0' as int <= c <= '9' as int then c - '0' as int + 52
    else if c == '+' as int then 62
    else if c == '/' as int then 63
    else 0
  }

  lemma ValueOfCharOf(v: Sextet)
    ensures ValueOf(CharOf(v)) == v
  {
  }

  /** Encodes three bytes as four characters: each 6-bit slice, most significant first. */
  function Group(b0: byte, b1: byte, b2: byte): (r: Bytes)
    ensures |r| == 4
  {
    [CharOf(b0 / 4), CharOf((b0 % 4) * 16 + b1 / 16), CharOf((b1 % 16) * 4 + b2 / 64), CharOf(b2 % 64)]
  }

  /** The canonical, padded encoding of `data`. */
  function Encode(data: Bytes): (r: Bytes)
    ensures |r| == if |data| % 3 == 0 then |data| / 3 * 4 else (|data| / 3 + 1) * 4
    ensures PIPE !in r
    decreases |data|
  {
    if |data| == 0 then []
    else if |data| == 1 then Group(data[0], 0, 0)[..2] + [PAD, PAD]
    else if |data| == 2 then Group(data[0], data[1], 0)[..3] + [PAD]
    else Group(data[0], data[1], data[2]) + Encode(data[3..])
  }

  /** Trailing `=` characters removed. */
  function StripPadding(s: Bytes): (r: Bytes)
    ensures |r| <= |s| && r == s[..|r|]
    ensures r == [] || r[|r| - 1] != PAD
  {
    if s == [] || s[|s| - 1] != PAD then s else StripPadding(s[..|s| - 1])
  }

  /** Decodes unpadded base64: whole groups of four, then a two- or three-character tail. */
  function DecodeUnpadded(s: Bytes): (r: Bytes)
    decreases |s|
  {
    if |s| < 2 then []
    else
      var v0, v1 := ValueOf(s[0]), ValueOf(s[1]);
      var first: byte := v0 * 4 + v1 / 16;
      if |s| == 2 then [first]
      else
        var v2 := ValueOf(s[2]);
        var second: byte := (v1 % 16) * 16 + v2 / 4;
        if |s| == 3 then [first, second]
        else
          var third: byte := (v2 % 4) * 64 + ValueOf(s[3]);
          [first, second, third] + DecodeUnpadded(s[4..])
  }

  /** `Buffer.from(s, 'base64')`: total; it never rejects its input. */
  function Decode(s: Bytes): (r: Bytes)
  {
    DecodeUnpadded(StripPadding(s))
  }

  /** The unpadded encoding, which `StripPadding` recovers from `Encode`. */
  function EncodeUnpadded(data: Bytes): (r: Bytes)
    decreases |data|
  {
    if |data| == 0 then []
    else if |data| == 1 then Group(data[0], 0, 0)[..2]
    else if |data| == 2 then Group(data[0], data[1], 0)[..3]
    else Group(data[0], data[1], data[2]) + EncodeUnpadded(data[3..])
  }

  lemma {:induction false} StripEncode(data: Bytes)
    ensures StripPadding(Encode(data)) == EncodeUnpadded(data)
    decreases |data|
  {
    if |data| == 1 {
      var g := Group(data[0], 0, 0)[..2];
      assert StripPadding(g + [PAD, PAD]) == StripPadding(g + [PAD]) by {
        assert (g + [PAD, PAD])[..|g + [PAD, PAD]| - 1] == g + [PAD];
      }
      assert StripPadding(g + [PAD]) == StripPadding(g) by {
        assert (g + [PAD])[..|g + [PAD]| - 1] == g;
      }
    } else if |data| == 2 {
      var g := Group(data[0], data[1], 0)[..3];
      assert (g + [PAD])[..|g + [PAD]| - 1] == g;
    } else if |data| >= 3 {
      StripEncode(data[3..]);
      StripAppend(Group(data[0], data[1], data[2]), Encode(data[3..]));
    }
  }

  /** Padding is stripped only from the end, so a pad-free head survives. */
  lemma {:induction false} StripAppend(g: Bytes, t: Bytes)
    requires |g| > 0 && g[|g| - 1] != PAD
    ensures StripPadding(g + t) == g + StripPadding(t)
    decreases |t|
  {
    if t != [] && t[|t| - 1] == PAD {
      assert (g + t)[..|g + t| - 1] == g + t[..|t| - 1];
      StripAppend(g, t[..|t| - 1]);
    }
  }

  /** The four characters of a group decode to its three bytes. */
  lemma GroupValues(b0: byte, b1: byte, b2: byte)
    ensures var g := Group(b0, b1, b2);
      ValueOf(g[0]) * 4 + ValueOf(g[1]) / 16 == b0 &&
      (ValueOf(g[1]) % 16) * 16 + ValueOf(g[2]) / 4 == b1 &&
      (ValueOf(g[2]) % 4) * 64 + ValueOf(g[3]) == b2
  {
    ValueOfCharOf(b0 / 4);
    ValueOfCharOf((b0 % 4) * 16 + b1 / 16);
    ValueOfCharOf((b1 % 16) * 4 + b2 / 64);
    ValueOfCharOf(b2 % 64);
  }

  /** A whole group at the front decodes to its bytes, and decoding goes on after it. */
  lemma DecodeGroup(b0: byte, b1: byte, b2: byte, t: Bytes)
    ensures DecodeUnpadded(Group(b0, b1, b2) + t) == [b0, b1, b2] + DecodeUnpadded(t)
  {
    var g := Group(b0, b1, b2);
    GroupValues(b0, b1, b2);
    assert (g + t)[4..] == t;
    assert (g + t)[0] == g[0] && (g + t)[1] == g[1] && (g + t)[2] == g[2] && (g + t)[3] == g[3];
  }

  lemma {:induction false} DecodeEncodeUnpadded(data: Bytes)
    ensures DecodeUnpadded(EncodeUnpadded(data)) == data
    decreases |data|
  {
    if |data| >= 3 {
      DecodeGroup(data[0], data[1], data[2], EncodeUnpadded(data[3..]));
      DecodeEncodeUnpadded(data[3..]);
      assert data == [data[0], data[1], data[2]] + data[3..];
    } else if |data| == 2 {
      GroupValues(data[0], data[1], 0);
    } else if |data| == 1 {
      GroupValues(data[0], 0, 0);
    }
  }

  /** Decoding inverts encoding (the lossless law of RFC 4648). */
  lemma RoundTrip(data: Bytes)
    ensures Decode(Encode(data)) == data
  {
    StripEncode(data);
    DecodeEncodeUnpadded(data);
  }
}
