/**
 * Hand-written recognisers for the two regular expressions of
 * `GoogleDriveOAuth2Token.valid()`. Both carry the `i` flag and only ASCII
 * in their patterns, so case is folded on ASCII letters only.
 */
module TokenPatterns {
  import opened Bytes

  /** `[a-z0-9\-]` under the `i` flag. */
  predicate IsIdByte(b: byte) {
    IsAsciiLetter(b) || IsDigit(b) || b == '-' as int
  }

  const ID_SUFFIX: Bytes := Ascii(".apps.googleusercontent.com")

  /**
   * `/^([a-z0-9\-]+)\.apps\.googleusercontent\.com$/i`. The suffix has a
   * fixed length and starts with `.`, which the subdomain class excludes,
   * so there is exactly one way to split a matching string.
   */
  predicate MatchesClientId(s: Bytes) {
    |s| > |ID_SUFFIX| &&
    (forall i :: 0 <= i < |s| - |ID_SUFFIX| ==> IsIdByte(s[i])) &&
    EqualsIgnoreCase(s[|s| - |ID_SUFFIX|..], ID_SUFFIX)
  }

  /** The client-id pattern in the regular expression's own terms: a non-empty subdomain, then the suffix. */
  lemma ClientIdShape(sub: Bytes, suffix: Bytes)
    requires |sub| > 0 && forall i :: 0 <= i < |sub| ==> IsIdByte(sub[i])
    requires EqualsIgnoreCase(suffix, ID_SUFFIX)
    ensures MatchesClientId(sub + suffix)
  {
    assert (sub + suffix)[|sub + suffix| - |ID_SUFFIX|..] == suffix;
  }

  /** `[a-z0-9\._\-&#\?=%]` under the `i` flag. */
  predicate IsUrlByte(b: byte) {
    IsAsciiLetter(b) || IsDigit(b) ||
    b == '.' as int || b == '_' as int || b == '-' as int || b == '&' as int ||
    b == '#' as int || b == '?' as int || b == '=' as int || b == '%' as int
  }

  /** The length of the longest prefix of `s` whose bytes are all URL bytes. */
  function UrlRun(s: Bytes): (n: nat)
    ensures n <= |s|
    ensures forall i :: 0 <= i < n ==> IsUrlByte(s[i])
    ensures n < |s| ==> !IsUrlByte(s[n])
  {
    if s == [] || !IsUrlByte(s[0]) then 0 else 1 + UrlRun(s[1..])
  }

  /** The length of the longest prefix of `s` whose bytes are all decimal digits. */
  function DigitRun(s: Bytes): (n: nat)
    ensures n <= |s|
    ensures forall i :: 0 <= i < n ==> IsDigit(s[i])
    ensures n < |s| ==> !IsDigit(s[n])
  {
    if s == [] || !IsDigit(s[0]) then 0 else 1 + DigitRun(s[1..])
  }

  const SLASH: byte := '/' as int
  const COLON: byte := ':' as int

  /** Prefix test under the `i` flag. */
  predicate StartsWithIgnoreCase(s: Bytes, p: Bytes) {
    |p| <= |s| && EqualsIgnoreCase(s[..|p|], p)
  }

  /**
   * The length of the `(((https?):\/\/)|\/)` alternative that `s` starts
   * with. The first byte decides between the scheme and the bare slash,
   * and `s?` is tried before it is dropped.
   */
  function SchemeLength(s: Bytes): (r: nat)
    ensures r <= |s|
  {
    if StartsWithIgnoreCase(s, Ascii("https://")) then 8
    else if StartsWithIgnoreCase(s, Ascii("http://")) then 7
    else if |s| > 0 && s[0] == SLASH then 1
    else 0
  }

  /**
   * `(\/[a-z0-9\._\-&#\?=%]+)*\/?$`. Each segment is taken greedily: a
   * shorter segment would leave a URL byte where only `/` or the end may
   * follow, so greed loses no match.
   */
  predicate PathTail(s: Bytes)
    decreases |s|
  {
    s == [] || s == [SLASH] ||
    (s[0] == SLASH && UrlRun(s[1..]) > 0 && PathTail(s[1 + UrlRun(s[1..])..]))
  }

  /** `(:[0-9]+)?` followed by the path tail. */
  predicate AfterHost(s: Bytes) {
    if |s| > 0 && s[0] == COLON then
      var d := DigitRun(s[1..]);
      d > 0 && PathTail(s[1 + d..])
    else PathTail(s)
  }

  /** `/^(((https?):\/\/)|\/)([a-z0-9\._\-&#\?=%]+)(:[0-9]+)?(\/[a-z0-9\._\-&#\?=%]+)*\/?$/i`. */
  predicate MatchesUrl(s: Bytes) {
    var k := SchemeLength(s);
    k > 0 &&
    var rest := s[k..];
    var h := UrlRun(rest);
    h > 0 && AfterHost(rest[h..])
  }

  /** The segments `/seg1/seg2...` of a path. */
  function JoinSegments(segs: seq<Bytes>): (r: Bytes)
  {
    if segs == [] then [] else [SLASH] + segs[0] + JoinSegments(segs[1..])
  }

  predicate IsUrlRun(s: Bytes) {
    |s| > 0 && forall i :: 0 <= i < |s| ==> IsUrlByte(s[i])
  }

  /** A run of URL bytes followed by a byte outside the class (or nothing) is read whole. */
  lemma {:induction false} UrlRunOf(run: Bytes, t: Bytes)
    requires forall i :: 0 <= i < |run| ==> IsUrlByte(run[i])
    requires t == [] || !IsUrlByte(t[0])
    ensures UrlRun(run + t) == |run|
    decreases |run|
  {
    if run != [] {
      assert (run + t)[1..] == run[1..] + t;
      UrlRunOf(run[1..], t);
    }
  }

  lemma {:induction false} DigitRunOf(run: Bytes, t: Bytes)
    requires forall i :: 0 <= i < |run| ==> IsDigit(run[i])
    requires t == [] || !IsDigit(t[0])
    ensures DigitRun(run + t) == |run|
    decreases |run|
  {
    if run != [] {
      assert (run + t)[1..] == run[1..] + t;
      DigitRunOf(run[1..], t);
    }
  }

  /** Every sequence of non-empty segments, followed by `tail` (nothing or one slash), is a path tail. */
  lemma {:induction false} PathTailOf(segs: seq<Bytes>, tail: Bytes)
    requires forall i :: 0 <= i < |segs| ==> IsUrlRun(segs[i])
    requires tail == [] || tail == [SLASH]
    ensures PathTail(JoinSegments(segs) + tail)
    decreases |segs|
  {
    if segs != [] {
      var rest := JoinSegments(segs[1..]) + tail;
      var s := JoinSegments(segs) + tail;
      assert s == [SLASH] + (segs[0] + rest);
      assert s[1..] == segs[0] + rest;
      assert rest == [] || rest[0] == SLASH;
      UrlRunOf(segs[0], rest);
      assert s[1 + |segs[0]|..] == rest;
      PathTailOf(segs[1..], tail);
    }
  }

  /**
   * Every string in the language of the URL expression is recognised: a
   * scheme or a bare slash, a non-empty host, an optional numeric port,
   * any number of non-empty segments and an optional trailing slash.
   */
  lemma UrlShape(scheme: Bytes, host: Bytes, port: Bytes, segs: seq<Bytes>, tail: Bytes)
    requires EqualsIgnoreCase(scheme, Ascii("https://")) || EqualsIgnoreCase(scheme, Ascii("http://")) || scheme == [SLASH]
    requires IsUrlRun(host)
    requires port == [] || (|port| > 1 && port[0] == COLON && forall i :: 1 <= i < |port| ==> IsDigit(port[i]))
    requires forall i :: 0 <= i < |segs| ==> IsUrlRun(segs[i])
    requires tail == [] || tail == [SLASH]
    ensures MatchesUrl(scheme + host + port + JoinSegments(segs) + tail)
  {
    var path := JoinSegments(segs) + tail;
    PathTailOf(segs, tail);
    SchemeOf(scheme, host + (port + path));
    AfterScheme(scheme, host, port, path);
    Regroup(scheme, host, port, JoinSegments(segs), tail);
  }

  /** After a scheme read in full, a host, an optional port and a path tail complete a match. */
  lemma AfterScheme(scheme: Bytes, host: Bytes, port: Bytes, path: Bytes)
    requires IsUrlRun(host)
    requires port == [] || (|port| > 1 && port[0] == COLON && forall i :: 1 <= i < |port| ==> IsDigit(port[i]))
    requires PathTail(path)
    requires 0 < |scheme| == SchemeLength(scheme + (host + (port + path)))
    ensures MatchesUrl(scheme + (host + (port + path)))
  {
    var rest := host + (port + path);
    assert path == [] || path[0] == SLASH;
    UrlRunOf(host, port + path);
    assert rest[|host|..] == port + path;
    PortThenPath(port, path);
    assert (scheme + rest)[|scheme|..] == rest;
  }

  /** After the host, an optional `:digits` port and then a path tail are accepted. */
  lemma PortThenPath(port: Bytes, path: Bytes)
    requires port == [] || (|port| > 1 && port[0] == COLON && forall i :: 1 <= i < |port| ==> IsDigit(port[i]))
    requires PathTail(path)
    ensures AfterHost(port + path)
  {
    PathTailStart(path);
    if port == [] {
      assert port + path == path;
    } else {
      var digits := port[1..];
      var s := port + path;
      assert s[0] == COLON;
      assert s[1..] == digits + path;
      DigitRunOf(digits, path);
      assert s[1 + |digits|..] == path;
    }
  }

  /** A path tail is empty or starts with a slash. */
  lemma PathTailStart(path: Bytes)
    requires PathTail(path)
    ensures path == [] || path[0] == SLASH
  {
  }

  /** Each of the three alternatives of the scheme group is read in full, and the host begins after it. */
  lemma SchemeOf(scheme: Bytes, t: Bytes)
    requires EqualsIgnoreCase(scheme, Ascii("https://")) || EqualsIgnoreCase(scheme, Ascii("http://")) || scheme == [SLASH]
    requires |t| > 0 && IsUrlByte(t[0])
    ensures SchemeLength(scheme + t) == |scheme|
  {
    var s := scheme + t;
    assert s[..|scheme|] == scheme;
    if scheme == [SLASH] {
      assert LowerByte(s[0]) != LowerByte('h' as int);
    } else if EqualsIgnoreCase(scheme, Ascii("http://")) {
      assert LowerByte(s[4]) == ':' as int;
      assert LowerByte(Ascii("https://")[4]) == 's' as int;
    }
  }

  /** Conversely, a recognised path tail is a sequence of non-empty segments followed by nothing or one slash. */
  lemma {:induction false} PathTailSplit(s: Bytes) returns (segs: seq<Bytes>, tail: Bytes)
    requires PathTail(s)
    ensures forall i :: 0 <= i < |segs| ==> IsUrlRun(segs[i])
    ensures tail == [] || tail == [SLASH]
    ensures s == JoinSegments(segs) + tail
    decreases |s|
  {
    if s == [] || s == [SLASH] {
      segs, tail := [], s;
    } else {
      var seg, rest := PathTailHead(s);
      var more;
      more, tail := PathTailSplit(rest);
      segs := [seg] + more;
      JoinSegmentsCons(seg, more);
      assert s == JoinSegments(segs) + tail;
      forall i | 0 <= i < |segs|
        ensures IsUrlRun(segs[i])
      {
        if i > 0 {
          assert segs[i] == more[i - 1];
        }
      }
    }
  }

  /** A path tail with a segment: a slash, the segment read greedily, and a shorter path tail. */
  lemma PathTailHead(s: Bytes) returns (seg: Bytes, rest: Bytes)
    requires PathTail(s) && s != [] && s != [SLASH]
    ensures IsUrlRun(seg) && PathTail(rest) && |rest| < |s|
    ensures s == [SLASH] + seg + rest
  {
    var n := UrlRun(s[1..]);
    seg, rest := s[1..1 + n], s[1 + n..];
    assert forall i :: 0 <= i < n ==> seg[i] == s[1..][i];
    assert s == [s[0]] + seg + rest;
  }

  lemma JoinSegmentsCons(seg: Bytes, more: seq<Bytes>)
    ensures JoinSegments([seg] + more) == [SLASH] + seg + JoinSegments(more)
  {
    assert ([seg] + more)[1..] == more;
  }

  /** The optional `:digits` port after the host, read greedily, and the path tail after it. */
  lemma PortSplit(t: Bytes) returns (port: Bytes, path: Bytes)
    requires AfterHost(t)
    ensures port == [] || (|port| > 1 && port[0] == COLON && forall i :: 1 <= i < |port| ==> IsDigit(port[i]))
    ensures PathTail(path) && t == port + path
  {
    if |t| > 0 && t[0] == COLON {
      var d := DigitRun(t[1..]);
      port, path := t[..1 + d], t[1 + d..];
      assert forall i :: 1 <= i < |port| ==> port[i] == t[1..][i - 1];
    } else {
      port, path := [], t;
    }
  }

  /** After the host, a recognised rest is an optional numeric port, segments and an optional slash. */
  lemma AfterHostSplit(t: Bytes) returns (port: Bytes, segs: seq<Bytes>, tail: Bytes)
    requires AfterHost(t)
    ensures port == [] || (|port| > 1 && port[0] == COLON && forall i :: 1 <= i < |port| ==> IsDigit(port[i]))
    ensures forall i :: 0 <= i < |segs| ==> IsUrlRun(segs[i])
    ensures tail == [] || tail == [SLASH]
    ensures t == port + (JoinSegments(segs) + tail)
  {
    var path;
    port, path := PortSplit(t);
    segs, tail := PathTailSplit(path);
  }

  /**
   * Soundness of the URL recogniser: every string it accepts is a scheme
   * or a bare slash, a non-empty host, an optional numeric port, non-empty
   * segments and an optional trailing slash, exactly the parts `UrlShape`
   * assembles.
   */
  lemma UrlSound(s: Bytes)
    requires MatchesUrl(s)
    ensures exists scheme, host, port, segs, tail :: UrlParts(s, scheme, host, port, segs, tail)
  {
    var scheme, host, port, segs, tail := UrlSplit(s);
  }

  /** The parts the recogniser reads off an accepted string. */
  lemma UrlSplit(s: Bytes) returns (scheme: Bytes, host: Bytes, port: Bytes, segs: seq<Bytes>, tail: Bytes)
    requires MatchesUrl(s)
    ensures UrlParts(s, scheme, host, port, segs, tail)
  {
    var k := SchemeLength(s);
    scheme := s[..k];
    SchemeSound(s);
    host, port, segs, tail := HostSplit(s[k..]);
    assert s == scheme + s[k..];
  }

  /** What follows the scheme: the host read greedily, then the port and the path. */
  lemma HostSplit(rest: Bytes) returns (host: Bytes, port: Bytes, segs: seq<Bytes>, tail: Bytes)
    requires UrlRun(rest) > 0 && AfterHost(rest[UrlRun(rest)..])
    ensures IsUrlRun(host)
    ensures port == [] || (|port| > 1 && port[0] == COLON && forall i :: 1 <= i < |port| ==> IsDigit(port[i]))
    ensures forall i :: 0 <= i < |segs| ==> IsUrlRun(segs[i])
    ensures tail == [] || tail == [SLASH]
    ensures rest == host + (port + (JoinSegments(segs) + tail))
  {
    var h := UrlRun(rest);
    host := rest[..h];
    port, segs, tail := AfterHostSplit(rest[h..]);
    assert rest == host + rest[h..];
  }

  /** The parts of a URL as the expression names them, and `s` their concatenation. */
  predicate UrlParts(s: Bytes, scheme: Bytes, host: Bytes, port: Bytes, segs: seq<Bytes>, tail: Bytes) {
    && (EqualsIgnoreCase(scheme, Ascii("https://")) || EqualsIgnoreCase(scheme, Ascii("http://")) || scheme == [SLASH])
    && IsUrlRun(host)
    && (port == [] || (|port| > 1 && port[0] == COLON && forall i :: 1 <= i < |port| ==> IsDigit(port[i])))
    && (forall i :: 0 <= i < |segs| ==> IsUrlRun(segs[i]))
    && (tail == [] || tail == [SLASH])
    && s == scheme + (host + (port + (JoinSegments(segs) + tail)))
  }

  /** The scheme the recogniser reads is one of the three alternatives. */
  lemma SchemeSound(s: Bytes)
    requires SchemeLength(s) > 0
    ensures var scheme := s[..SchemeLength(s)];
            EqualsIgnoreCase(scheme, Ascii("https://")) || EqualsIgnoreCase(scheme, Ascii("http://")) || scheme == [SLASH]
  {
  }

  /** A recognised URL starts with a slash or with an http or https scheme. */
  lemma UrlStart(s: Bytes)
    requires MatchesUrl(s)
    ensures (|s| > 0 && s[0] == SLASH) || StartsWithIgnoreCase(s, Ascii("http://")) || StartsWithIgnoreCase(s, Ascii("https://"))
  {
  }

  /** A recognised path tail holds only URL bytes and slashes. */
  lemma {:induction false} PathTailBytes(s: Bytes)
    requires PathTail(s)
    ensures forall i :: 0 <= i < |s| ==> IsUrlByte(s[i]) || s[i] == SLASH
    decreases |s|
  {
    if s != [] && s != [SLASH] {
      var n := UrlRun(s[1..]);
      PathTailBytes(s[1 + n..]);
      forall i | 0 <= i < |s| ensures IsUrlByte(s[i]) || s[i] == SLASH {
        if 1 <= i < 1 + n {
          assert s[i] == s[1..][i - 1];
        } else if i >= 1 + n {
          assert s[i] == s[1 + n..][i - 1 - n];
        }
      }
    }
  }

  /** After its scheme, a recognised URL holds only URL bytes, `:` and `/`: no spaces, quotes or other punctuation. */
  lemma UrlBytes(s: Bytes)
    requires MatchesUrl(s)
    ensures forall i :: SchemeLength(s) <= i < |s| ==> IsUrlByte(s[i]) || s[i] == COLON || s[i] == SLASH
  {
    var k := SchemeLength(s);
    var rest := s[k..];
    var h := UrlRun(rest);
    var t := rest[h..];
    var tail := if |t| > 0 && t[0] == COLON then t[1 + DigitRun(t[1..])..] else t;
    PathTailBytes(tail);
    forall i | k <= i < |s| ensures IsUrlByte(s[i]) || s[i] == COLON || s[i] == SLASH {
      assert s[i] == rest[i - k];
      if i - k >= h {
        assert rest[i - k] == t[i - k - h];
        if |t| > 0 && t[0] == COLON && i - k - h >= 1 {
          var d := DigitRun(t[1..]);
          if i - k - h < 1 + d {
            assert t[i - k - h] == t[1..][i - k - h - 1];
          } else {
            assert t[i - k - h] == tail[i - k - h - 1 - d];
          }
        }
      }
    }
  }
}
