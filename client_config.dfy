/**
 * The OAuth client configuration compiled into the Chrome framework binary
 * (`GetGoogleChromeClientConfig`): a byte-at-a-time scan for the dummy
 * token that precedes the key table, the NUL-terminated strings of a
 * 1024-byte window read from there, and the pairing of each known key
 * with the string stored just before it.
 *
 * The binary's bytes and the version read from `Info.plist` are
 * parameters; opening and reading the files is not modelled.
 */
module ClientConfig {
  import opened Wrappers
  import opened Bytes

  /** `FIRST_STRING`: the dummy token the scan looks for. */
  const FIRST_STRING: Bytes := Ascii("dummytoken")

  /** The scan reads the binary in blocks of this many bytes. */
  const BLOCK_SIZE: nat := 512

  /** The number of bytes read from the match onwards. */
  const TABLE_SIZE: nat := 1024

  /** The dummy token occurs at `p`. */
  predicate OccursAt(file: Bytes, p: int) {
    0 <= p && p + |FIRST_STRING| <= |file| && file[p..p + |FIRST_STRING|] == FIRST_STRING
  }

  /** The start of the block after the one holding `p`. */
  function NextBlock(p: nat): (r: nat)
    ensures p < r <= p + BLOCK_SIZE && r % BLOCK_SIZE == 0
  {
    (p / BLOCK_SIZE + 1) * BLOCK_SIZE
  }

  /**
   * The scan from absolute position `p` with match state `state` and
   * `found` the last match recorded so far. A byte that equals the
   * expected character advances the state; any other byte resets it to 0
   * and is not tested again. Completing the token records its start and
   * skips to the next block, which begins with state 10: no byte equals
   * the (missing) eleventh character, so that block's first byte only
   * resets the state.
   */
  function Scan(file: Bytes, p: nat, state: nat, found: int): (r: int)
    decreases |file| - p
  {
    if p >= |file| then found
    else if state < |FIRST_STRING| && file[p] == FIRST_STRING[state] then
      if state + 1 == |FIRST_STRING| then Scan(file, NextBlock(p), state + 1, p - state)
      else Scan(file, p + 1, state + 1, found)
    else Scan(file, p + 1, 0, found)
  }

  /** What the scan of a whole binary leaves in `strings_pos`. */
  function ScanFile(file: Bytes): int {
    Scan(file, 0, 0, -1)
  }

  /** The match state `state` at `p` means the `state` bytes before `p` are the token's first `state` characters. */
  predicate StateHolds(file: Bytes, p: nat, state: nat) {
    state >= |FIRST_STRING| || (state <= p <= |file| && file[p - state..p] == FIRST_STRING[..state])
  }

  /** A byte that matches the expected character extends the matched prefix by one. */
  lemma StateAdvances(file: Bytes, p: nat, state: nat)
    requires StateHolds(file, p, state)
    requires p < |file| && state < |FIRST_STRING| && file[p] == FIRST_STRING[state]
    ensures state <= p && file[p - state..p + 1] == FIRST_STRING[..state + 1]
  {
    assert file[p - state..p + 1] == file[p - state..p] + [file[p]];
    assert FIRST_STRING[..state + 1] == FIRST_STRING[..state] + [FIRST_STRING[state]];
  }

  /** Soundness: every position the scan records is an occurrence of the dummy token. */
  lemma {:induction false} ScanSound(file: Bytes, p: nat, state: nat, found: int)
    requires StateHolds(file, p, state)
    requires found == -1 || OccursAt(file, found)
    ensures Scan(file, p, state, found) == -1 || OccursAt(file, Scan(file, p, state, found))
    decreases |file| - p
  {
    if p < |file| {
      if state < |FIRST_STRING| && file[p] == FIRST_STRING[state] {
        StateAdvances(file, p, state);
        if state + 1 == |FIRST_STRING| {
          assert FIRST_STRING[..state + 1] == FIRST_STRING;
          assert OccursAt(file, p - state);
          ScanSound(file, NextBlock(p), state + 1, p - state);
        } else {
          ScanSound(file, p + 1, state + 1, found);
        }
      } else {
        ScanSound(file, p + 1, 0, found);
      }
    }
  }

  /** A binary without the dummy token yields no position, and the call fails. */
  lemma NotFoundWithoutToken(file: Bytes)
    requires forall p :: 0 <= p ==> !OccursAt(file, p)
    ensures ScanFile(file) == -1
  {
    ScanSound(file, 0, 0, -1);
  }

  /** Positions only grow: the result is never before a match already recorded. */
  lemma {:induction false} ScanKeepsLater(file: Bytes, p: nat, state: nat, found: int)
    requires found + state <= p
    ensures Scan(file, p, state, found) >= found
    decreases |file| - p
  {
    if p < |file| {
      if state < |FIRST_STRING| && file[p] == FIRST_STRING[state] {
        if state + 1 == |FIRST_STRING| {
          ScanKeepsLater(file, NextBlock(p), state + 1, p - state);
        } else {
          ScanKeepsLater(file, p + 1, state + 1, found);
        }
      } else {
        ScanKeepsLater(file, p + 1, 0, found);
      }
    }
  }

  /**
   * The scan passes every block boundary `b` at or after `p`, carrying a
   * match state that still describes the bytes before `b` and some
   * position recorded before `b`.
   */
  lemma {:induction false} ScanReachesBlock(file: Bytes, p: nat, state: nat, found: int, b: nat)
    requires p <= b && b % BLOCK_SIZE == 0
    requires found < p
    requires StateHolds(file, p, state)
    ensures exists s: nat, f: int :: f < b && StateHolds(file, b, s) && Scan(file, p, state, found) == Scan(file, b, s, f)
    decreases b - p
  {
    if p == b {
      assert Scan(file, p, state, found) == Scan(file, b, state, found);
    } else if p >= |file| {
      assert Scan(file, p, state, found) == Scan(file, b, |FIRST_STRING|, found);
    } else if state < |FIRST_STRING| && file[p] == FIRST_STRING[state] {
      StateAdvances(file, p, state);
      if state + 1 == |FIRST_STRING| {
        assert NextBlock(p) <= b by {
          assert p / BLOCK_SIZE < b / BLOCK_SIZE;
        }
        ScanReachesBlock(file, NextBlock(p), state + 1, p - state, b);
      } else {
        ScanReachesBlock(file, p + 1, state + 1, found, b);
      }
    } else {
      ScanReachesBlock(file, p + 1, 0, found, b);
    }
  }

  /** Bytes other than `d` keep the match state at 0. */
  lemma {:induction false} SkipPlain(file: Bytes, p: nat, q: nat, found: int)
    requires p <= q <= |file|
    requires forall i | p <= i < q :: file[i] != FIRST_STRING[0]
    ensures Scan(file, p, 0, found) == Scan(file, q, 0, found)
    decreases q - p
  {
    if p < q {
      SkipPlain(file, p + 1, q, found);
    }
  }

  /**
   * The match state persists across blocks: a token after bytes that hold
   * no `d` is found wherever it starts, also when it runs over the end of
   * a block.
   */
  lemma FoundAfterPlainPrefix(pre: Bytes, rest: Bytes)
    requires forall i | 0 <= i < |pre| :: pre[i] != FIRST_STRING[0]
    ensures ScanFile(pre + FIRST_STRING + rest) >= |pre|
  {
    var file := pre + FIRST_STRING + rest;
    assert forall i | 0 <= i < |pre| :: file[i] == pre[i];
    SkipPlain(file, 0, |pre|, -1);
    assert file[|pre|..|pre| + |FIRST_STRING|] == FIRST_STRING;
    TokenAt(file, |pre|, -1);
  }

  /** A token at offset 505 spans the first block boundary (512) and is still recorded. */
  lemma TokenSplitByBoundary(rest: Bytes)
    ensures 505 < BLOCK_SIZE < 505 + |FIRST_STRING|
    ensures ScanFile(seq(505, _ => 0) + FIRST_STRING + rest) >= 505
  {
    FoundAfterPlainPrefix(seq(505, _ => 0), rest);
  }

  /**
   * A later match overwrites `strings_pos`: whatever the first `|a|`
   * bytes (a whole number of blocks) held, a token one byte into the next
   * block is recorded, and the result is at or after it.
   */
  lemma LaterBlockOverwrites(a: Bytes, x: byte, rest: Bytes)
    requires |a| % BLOCK_SIZE == 0
    requires x !in FIRST_STRING
    ensures ScanFile(a + [x] + FIRST_STRING + rest) >= |a| + 1
  {
    var file := a + [x] + FIRST_STRING + rest;
    ScanReachesBlock(file, 0, 0, -1, |a|);
    var s: nat, f: int :| f < |a| && ScanFile(file) == Scan(file, |a|, s, f);
    assert file[|a|] == x;
    assert Scan(file, |a|, s, f) == Scan(file, |a| + 1, 0, f);
    TokenAt(file, |a| + 1, f);
  }

  /** From state 0 at the start of a complete token, the token is recorded and the result is at or after it. */
  lemma TokenAt(file: Bytes, p: nat, found: int)
    requires OccursAt(file, p) && found < p
    ensures Scan(file, p, 0, found) >= p
  {
    var k := 0;
    while k < |FIRST_STRING| - 1
      invariant 0 <= k <= |FIRST_STRING| - 1
      invariant Scan(file, p, 0, found) == Scan(file, p + k, k, found)
    {
      assert file[p + k] == file[p..p + |FIRST_STRING|][k];
      k := k + 1;
    }
    assert file[p + k] == file[p..p + |FIRST_STRING|][k];
    ScanKeepsLater(file, NextBlock(p + k), k + 1, p);
  }

  /**
   * The byte that breaks a partial match is not tested against the token's
   * first character, so a `d` directly before the token hides it: the scan
   * of `ddummytoken` finds nothing although the token is at offset 1.
   */
  lemma RepeatedFirstByteHidesToken()
    ensures OccursAt(Ascii("ddummytoken"), 1)
    ensures ScanFile(Ascii("ddummytoken")) == -1
  {
    var file := Ascii("ddummytoken");
    assert file[1..11] == FIRST_STRING;
    assert Scan(file, 0, 0, -1) == Scan(file, 2, 0, -1);
    var p := 2;
    while p < |file|
      invariant 2 <= p <= |file|
      invariant Scan(file, 0, 0, -1) == Scan(file, p, 0, -1)
    {
      p := p + 1;
    }
  }

  /**
   * After a match the rest of its block is skipped: a second token right
   * after the first, in the same block, is not recorded.
   */
  lemma RestOfBlockSkipped(rest: Bytes)
    requires 2 * |FIRST_STRING| + |rest| <= BLOCK_SIZE
    ensures ScanFile(FIRST_STRING + FIRST_STRING + rest) == 0
  {
    var file := FIRST_STRING + FIRST_STRING + rest;
    var k := 0;
    while k < |FIRST_STRING| - 1
      invariant 0 <= k <= |FIRST_STRING| - 1
      invariant Scan(file, 0, 0, -1) == Scan(file, k, k, -1)
    {
      assert file[k] == FIRST_STRING[k];
      k := k + 1;
    }
    assert file[k] == FIRST_STRING[k];
    assert NextBlock(k) == BLOCK_SIZE;
  }

  /**
   * The signature scan: 512-byte blocks, one match state across them, and
   * a `break` that leaves only the loop over the current block.
   */
  method FindStringsPos(file: Bytes) returns (stringsPos: int)
    ensures stringsPos == ScanFile(file)
  {
    stringsPos := -1;
    var state: nat := 0;
    var pos: nat := 0;
    var blockSize := BLOCK_SIZE;
    while pos < |file|
      invariant pos % BLOCK_SIZE == 0
      invariant stringsPos < pos
      invariant ScanFile(file) == Scan(file, pos, state, stringsPos)
      decreases |file| - pos
    {
      var n := if blockSize < |file| - pos then blockSize else |file| - pos;
      var i := 0;
      while i < n
        invariant 0 <= i <= n
        invariant stringsPos < pos + i
        invariant ScanFile(file) == Scan(file, pos + i, state, stringsPos)
      {
        if state < |FIRST_STRING| && file[pos + i] == FIRST_STRING[state] {
          state := state + 1;
          if state == |FIRST_STRING| {
            assert NextBlock(pos + i) == pos + BLOCK_SIZE;
            stringsPos := pos + i - state + 1;
            break;
          }
        } else {
          state := 0;
        }
        i := i + 1;
      }
      pos := pos + 512;
    }
  }

  /**
   * The table buffer: 1024 bytes allocated without clearing, of which
   * the bytes from `pos` to the end of the binary (at most 1024) are
   * overwritten by the read; `stale` is what the buffer held before.
   */
  function Table(file: Bytes, pos: nat, stale: Bytes): (t: Bytes)
    requires |stale| == TABLE_SIZE
    ensures |t| == TABLE_SIZE
    ensures pos + TABLE_SIZE <= |file| ==> t == file[pos..pos + TABLE_SIZE]
  {
    if pos >= |file| then stale
    else
      var n := if |file| - pos < TABLE_SIZE then |file| - pos else TABLE_SIZE;
      file[pos..pos + n] + stale[n..]
  }

  /** The index of the first NUL byte of `s`. */
  function FirstNul(s: Bytes): (k: nat)
    requires 0 in s
    ensures k < |s| && s[k] == 0 && 0 !in s[..k]
  {
    if s[0] == 0 then 0
    else
      var k := 1 + FirstNul(s[1..]);
      assert s[..k] == [s[0]] + s[1..][..k - 1];
      k
  }

  lemma FirstNulUnique(s: Bytes, k: nat)
    requires k < |s| && s[k] == 0 && 0 !in s[..k]
    ensures FirstNul(s) == k
  {
  }

  /** One step of the reading: a NUL-free string up to the first NUL, then the strings after it. */
  lemma TableStringsStep(t: Bytes, v: Bytes)
    requires |v| < |t| && t[..|v|] == v && t[|v|] == 0 && 0 !in v
    ensures TableStrings(t) == [v] + TableStrings(t[|v| + 1..])
  {
    FirstNulUnique(t, |v|);
  }

  /**
   * The strings `readTableString` returns one after another: every
   * NUL-terminated run of the table in order, without the terminators; a
   * run the table ends in before any NUL is dropped.
   */
  function TableStrings(t: Bytes): (r: seq<Bytes>)
    ensures forall i :: 0 <= i < |r| ==> 0 !in r[i]
    decreases |t|
  {
    if 0 !in t then []
    else
      var k := FirstNul(t);
      [t[..k]] + TableStrings(t[k + 1..])
  }

  /** The strings written back with a NUL after each. */
  function Terminated(strs: seq<Bytes>): (r: Bytes)
    ensures |r| >= |strs|
  {
    if strs == [] then [] else strs[0] + [0] + Terminated(strs[1..])
  }

  lemma TerminatedCons(strs: seq<Bytes>)
    requires strs != []
    ensures Terminated(strs) == strs[0] + [0] + Terminated(strs[1..])
  {
  }

  /** The pieces of `v`, a NUL, then `tail`. */
  lemma Pieces(v: Bytes, tail: Bytes)
    ensures var t := v + [0] + tail;
            |v| < |t| && t[..|v|] == v && t[|v|] == 0 && t[|v| + 1..] == tail
  {
  }

  /** A terminated string at the front of `t`, then a prefix of what follows, is a prefix of `t`. */
  lemma PrefixStep(t: Bytes, k: nat, tr: Bytes)
    requires k < |t| && t[k] == 0 && tr <= t[k + 1..]
    ensures t[..k] + [0] + tr <= t
    ensures t[|t[..k] + [0] + tr|..] == t[k + 1..][|tr|..]
  {
    assert t == t[..k] + [0] + t[k + 1..];
  }

  /**
   * The strings and their terminators are a prefix of the table, and
   * what follows holds no NUL: only a trailing run without one is lost.
   */
  lemma {:induction false} TableStringsCover(t: Bytes)
    ensures Terminated(TableStrings(t)) <= t
    ensures 0 !in t[|Terminated(TableStrings(t))|..]
    decreases |t|
  {
    if 0 !in t {
      assert TableStrings(t) == [];
    } else {
      var k := FirstNul(t);
      var rest := t[k + 1..];
      TableStringsCover(rest);
      var tr := Terminated(TableStrings(rest));
      var strs := TableStrings(t);
      assert strs == [t[..k]] + TableStrings(rest);
      assert strs[1..] == TableStrings(rest);
      TerminatedCons(strs);
      PrefixStep(t, k, tr);
    }
  }

  /** Reading back NUL-free strings written with terminators, before any trailing NUL-free bytes, gives them back. */
  lemma {:induction false} TableStringsRoundTrip(strs: seq<Bytes>, rest: Bytes)
    requires forall i :: 0 <= i < |strs| ==> 0 !in strs[i]
    requires 0 !in rest
    ensures TableStrings(Terminated(strs) + rest) == strs
  {
    if strs == [] {
      assert Terminated(strs) + rest == rest;
    } else {
      var v := strs[0];
      var tail := Terminated(strs[1..]) + rest;
      TerminatedCons(strs);
      var t := Terminated(strs) + rest;
      assert t == v + [0] + tail;
      Pieces(v, tail);
      TableStringsStep(t, v);
      TableStringsRoundTrip(strs[1..], rest);
      assert [v] + strs[1..] == strs;
    }
  }

  /**
   * `readTableString`: the string from `idx` to the next NUL and the
   * index after that NUL, or nothing (index unchanged) when no NUL
   * follows.
   */
  method ReadTableString(table: Bytes, idx: nat) returns (str: Option<Bytes>, next: nat)
    requires idx <= |table|
    ensures str.None? <==> 0 !in table[idx..]
    ensures str.None? ==> next == idx
    ensures str.Some? ==>
              && next == idx + |str.value| + 1 <= |table|
              && table[idx..next - 1] == str.value
              && table[next - 1] == 0
              && 0 !in str.value
  {
    var start := idx;
    var end := start;
    while true
      invariant start <= end <= |table|
      invariant 0 !in table[start..end]
      decreases |table| - end
    {
      if end >= |table| {
        return None, idx;
      }
      if table[end] == 0 {
        break;
      }
      assert table[start..end + 1] == table[start..end] + [table[end]];
      end := end + 1;
    }
    next := end + 1;
    str := Some(table[start..end]);
  }

  lemma ReadStep(table: Bytes, idx: nat, v: Bytes, next: nat)
    requires next == idx + |v| + 1 <= |table|
    requires table[idx..next - 1] == v && table[next - 1] == 0 && 0 !in v
    ensures TableStrings(table[idx..]) == [v] + TableStrings(table[next..])
  {
    var rest := table[idx..];
    assert rest[..|v|] == v;
    TableStringsStep(rest, v);
    assert rest[|v| + 1..] == table[next..];
  }

  /** Appending the string just read keeps the collected strings a prefix of the table's strings. */
  lemma CollectStep(table: Bytes, idx: nat, v: Bytes, next: nat, strs: seq<Bytes>)
    requires next == idx + |v| + 1 <= |table|
    requires table[idx..next - 1] == v && table[next - 1] == 0 && 0 !in v
    requires strs + TableStrings(table[idx..]) == TableStrings(table)
    ensures (strs + [v]) + TableStrings(table[next..]) == TableStrings(table)
  {
    ReadStep(table, idx, v, next);
    assert (strs + [v]) + TableStrings(table[next..]) == strs + ([v] + TableStrings(table[next..]));
  }

  /** Reading strings until `readTableString` gives none collects exactly the table's strings. */
  method ReadAllStrings(table: Bytes) returns (strs: seq<Bytes>)
    ensures strs == TableStrings(table)
  {
    strs := [];
    var tableIdx := 0;
    while true
      invariant tableIdx <= |table|
      invariant strs + TableStrings(table[tableIdx..]) == TableStrings(table)
      decreases |table| - tableIdx
    {
      var str, next := ReadTableString(table, tableIdx);
      if str.None? {
        assert TableStrings(table[tableIdx..]) == [];
        break;
      }
      CollectStep(table, tableIdx, str.value, next, strs);
      strs := strs + [str.value];
      tableIdx := next;
    }
  }

  /** The clients whose id and secret the binary holds. */
  datatype Client = Default | Main | CloudPrint | Remoting | RemotingHost

  /** A field of the configuration the table can fill. */
  datatype Slot = ApiKey | ClientId(client: Client) | ClientSecret(client: Client)

  datatype OAuthClient = OAuthClient(client_id: Option<Bytes>, client_secret: Option<Bytes>)
  /**
   * `GoogleChromeClientConfig`; `None` stands for `null`. `stray` is the
   * property named `undefined`, which the declared interface lacks: only a
   * key whose path is `[undefined]` creates it, and `None` means absent.
   */
  datatype Config = Config(
    version: string,
    api_key: Option<Bytes>,
    default: OAuthClient,
    main: OAuthClient,
    cloud_print: OAuthClient,
    remoting: OAuthClient,
    remoting_host: OAuthClient,
    stray: Option<Bytes>)

  /** Where a key's path writes: one of the declared fields, or the property `undefined`. */
  datatype Target = Field(slot: Slot) | Undefined

  /** The configuration with every field `null` and no property `undefined`. */
  function EmptyConfig(version: string): (c: Config)
    ensures c.version == version && forall t :: Get(c, t) == None
  {
    var none := OAuthClient(None, None);
    Config(version, None, none, none, none, none, none, None)
  }

  function ClientOf(c: Config, client: Client): OAuthClient {
    match client
    case Default => c.default
    case Main => c.main
    case CloudPrint => c.cloud_print
    case Remoting => c.remoting
    case RemotingHost => c.remoting_host
  }

  function WithClient(c: Config, client: Client, o: OAuthClient): (r: Config)
    ensures r.version == c.version && r.api_key == c.api_key && r.stray == c.stray
    ensures ClientOf(r, client) == o
    ensures forall other :: other != client ==> ClientOf(r, other) == ClientOf(c, other)
  {
    match client
    case Default => c.(default := o)
    case Main => c.(main := o)
    case CloudPrint => c.(cloud_print := o)
    case Remoting => c.(remoting := o)
    case RemotingHost => c.(remoting_host := o)
  }

  /** Reads the property a key path names. */
  function Get(c: Config, t: Target): Option<Bytes> {
    match t
    case Undefined => c.stray
    case Field(ApiKey) => c.api_key
    case Field(ClientId(client)) => ClientOf(c, client).client_id
    case Field(ClientSecret(client)) => ClientOf(c, client).client_secret
  }

  /** Stores `v` in the property a key path names, and nowhere else. */
  function Set(c: Config, t: Target, v: Bytes): (r: Config)
    ensures r.version == c.version
    ensures Get(r, t) == Some(v)
    ensures forall other :: other != t ==> Get(r, other) == Get(c, other)
  {
    match t
    case Undefined => c.(stray := Some(v))
    case Field(ApiKey) => c.(api_key := Some(v))
    case Field(ClientId(client)) => WithClient(c, client, ClientOf(c, client).(client_id := Some(v)))
    case Field(ClientSecret(client)) => WithClient(c, client, ClientOf(c, client).(client_secret := Some(v)))
  }

  /** Two configurations that agree on the version and on every property are the same. */
  lemma {:induction false} ConfigExtensional(a: Config, b: Config)
    requires a.version == b.version
    requires forall t :: Get(a, t) == Get(b, t)
    ensures a == b
  {
    assert Get(a, Field(ApiKey)) == Get(b, Field(ApiKey));
    assert Get(a, Undefined) == Get(b, Undefined);
    forall client
      ensures ClientOf(a, client) == ClientOf(b, client)
    {
      assert Get(a, Field(ClientId(client))) == Get(b, Field(ClientId(client)));
      assert Get(a, Field(ClientSecret(client))) == Get(b, Field(ClientSecret(client)));
    }
    assert ClientOf(a, Default) == ClientOf(b, Default);
    assert ClientOf(a, Main) == ClientOf(b, Main);
    assert ClientOf(a, CloudPrint) == ClientOf(b, CloudPrint);
    assert ClientOf(a, Remoting) == ClientOf(b, Remoting);
    assert ClientOf(a, RemotingHost) == ClientOf(b, RemotingHost);
  }

  /** `VAR_MAP`: the Chromium variable names and the field each fills. */
  const VAR_MAP: map<Bytes, Slot> := map[
    Ascii("GOOGLE_API_KEY") := ApiKey,
    Ascii("GOOGLE_DEFAULT_CLIENT_ID") := ClientId(Default),
    Ascii("GOOGLE_DEFAULT_CLIENT_SECRET") := ClientSecret(Default),
    Ascii("GOOGLE_CLIENT_ID_MAIN") := ClientId(Main),
    Ascii("GOOGLE_CLIENT_SECRET_MAIN") := ClientSecret(Main),
    Ascii("GOOGLE_CLIENT_ID_CLOUD_PRINT") := ClientId(CloudPrint),
    Ascii("GOOGLE_CLIENT_SECRET_CLOUD_PRINT") := ClientSecret(CloudPrint),
    Ascii("GOOGLE_CLIENT_ID_REMOTING") := ClientId(Remoting),
    Ascii("GOOGLE_CLIENT_SECRET_REMOTING") := ClientSecret(Remoting),
    Ascii("GOOGLE_CLIENT_ID_REMOTING_HOST") := ClientId(RemotingHost),
    Ascii("GOOGLE_CLIENT_SECRET_REMOTING_HOST") := ClientSecret(RemotingHost)]

  /*
   * `VAR_MAP` is an object literal, so looking up a name every object
   * inherits from `Object.prototype` also gives a truthy value: a method,
   * or the prototype itself for `__proto__`. The loop then treats the
   * value's `length` as the length of a path whose names `p[0]` and
   * `p[1]` are `undefined`.
   */

  /** Inherited methods of one parameter: the path is `[undefined]`, a write to the property `undefined`. */
  const ONE_PARAM_NAMES: set<Bytes> := {
    Ascii("constructor"), Ascii("hasOwnProperty"), Ascii("isPrototypeOf"),
    Ascii("propertyIsEnumerable"), Ascii("__lookupGetter__"), Ascii("__lookupSetter__")
  }

  /**
   * Inherited methods of two parameters: the path is `[undefined, undefined]`
   * and the write goes through `cfg.undefined`, which is absent or a string,
   * so it throws a `TypeError`.
   */
  const TWO_PARAM_NAMES: set<Bytes> := {Ascii("__defineGetter__"), Ascii("__defineSetter__")}

  /** Inherited members whose `length` is neither 1 nor 2: nothing is written. */
  const INERT_NAMES: set<Bytes> := {
    Ascii("toString"), Ascii("toLocaleString"), Ascii("valueOf"), Ascii("__proto__")
  }

  /** What the loop does with a string `VAR_MAP` gives a truthy value for. */
  datatype KeyKind =
    | Path(target: Target)  // a path that names a property: the value is stored there
    | UndefinedPair         // the path `[undefined, undefined]`: storing throws
    | Inert                 // a `length` other than 1 or 2: nothing is stored

  /** `VAR_MAP[s]` read as a path, or `None` when it is falsy. */
  function Key(s: Bytes): Option<KeyKind> {
    if s in VAR_MAP then Some(Path(Field(VAR_MAP[s])))
    else if s in ONE_PARAM_NAMES then Some(Path(Undefined))
    else if s in TWO_PARAM_NAMES then Some(UndefinedPair)
    else if s in INERT_NAMES then Some(Inert)
    else None
  }

  /** `VAR_MAP[s]` is truthy. */
  predicate IsKey(s: Bytes) {
    Key(s).Some?
  }

  /**
   * The string at `i` is a key that follows a value: the first string is
   * the dummy token and is skipped, and the second never follows a value.
   */
  predicate Fires(strs: seq<Bytes>, i: int) {
    2 <= i < |strs| && IsKey(strs[i]) && !IsKey(strs[i - 1])
  }

  /** The string at `i` stores the string before it into `t`. */
  predicate Assigns(strs: seq<Bytes>, i: int, t: Target) {
    Fires(strs, i) && Key(strs[i]) == Some(Path(t))
  }

  /** The string at `i` makes the loop throw. */
  predicate ThrowsAt(strs: seq<Bytes>, i: int) {
    Fires(strs, i) && Key(strs[i]) == Some(UndefinedPair)
  }

  /** Interpreting `strs` throws somewhere. */
  predicate Throws(strs: seq<Bytes>) {
    exists i | 2 <= i < |strs| :: ThrowsAt(strs, i)
  }

  /** The value of `t` once the strings before `n` are interpreted: the latest assignment wins. */
  function Paired(strs: seq<Bytes>, t: Target, n: nat): Option<Bytes>
  {
    if n == 0 then None
    else if Assigns(strs, n - 1, t) then Some(strs[n - 2])
    else Paired(strs, t, n - 1)
  }

  /** Why reading the configuration fails. */
  datatype ConfigError =
    | TableNotFound           // the scan found no `dummytoken`
    | UndefinedPathTypeError  // a write through the path `[undefined, undefined]`

  /**
   * The outcome of interpreting `strs`: the `TypeError` when a
   * two-parameter inherited name follows a value, and otherwise the
   * configuration in which every property holds its last assignment.
   */
  function Interpretation(strs: seq<Bytes>, version: string): (r: Result<Config, ConfigError>)
    ensures r.Err? <==> exists i :: ThrowsAt(strs, i)
    ensures r.Err? ==> r.error == UndefinedPathTypeError
    ensures r.Ok? ==> r.value.version == version && forall t :: Get(r.value, t) == Paired(strs, t, |strs|)
  {
    var n := |strs|;
    if Throws(strs) then Err(UndefinedPathTypeError)
    else Ok(Config(
      version,
      Paired(strs, Field(ApiKey), n),
      OAuthClient(Paired(strs, Field(ClientId(Default)), n), Paired(strs, Field(ClientSecret(Default)), n)),
      OAuthClient(Paired(strs, Field(ClientId(Main)), n), Paired(strs, Field(ClientSecret(Main)), n)),
      OAuthClient(Paired(strs, Field(ClientId(CloudPrint)), n), Paired(strs, Field(ClientSecret(CloudPrint)), n)),
      OAuthClient(Paired(strs, Field(ClientId(Remoting)), n), Paired(strs, Field(ClientSecret(Remoting)), n)),
      OAuthClient(Paired(strs, Field(ClientId(RemotingHost)), n), Paired(strs, Field(ClientSecret(RemotingHost)), n)),
      Paired(strs, Undefined, n)))
  }

  /** A property holds `v` exactly when its last assignment stored `v`. */
  lemma {:induction false} PairedIsLast(strs: seq<Bytes>, t: Target, n: nat)
    requires Paired(strs, t, n).Some?
    ensures exists i :: Assigns(strs, i, t) && i < n && strs[i - 1] == Paired(strs, t, n).value
                        && forall j :: i < j < n ==> !Assigns(strs, j, t)
  {
    if Assigns(strs, n - 1, t) {
      assert strs[n - 2] == Paired(strs, t, n).value;
    } else {
      PairedIsLast(strs, t, n - 1);
    }
  }

  /** Conversely, the last assignment before `n` is the value. */
  lemma {:induction false} LastIsPaired(strs: seq<Bytes>, t: Target, n: nat, i: int)
    requires Assigns(strs, i, t) && i < n
    requires forall j :: i < j < n ==> !Assigns(strs, j, t)
    ensures Paired(strs, t, n) == Some(strs[i - 1])
  {
    if n - 1 != i {
      LastIsPaired(strs, t, n - 1, i);
    }
  }

  /** A property stays `null` (or absent) exactly when nothing assigns it. */
  lemma {:induction false} PairedNone(strs: seq<Bytes>, t: Target, n: nat)
    ensures Paired(strs, t, n).None? <==> forall i :: i < n ==> !Assigns(strs, i, t)
  {
    if n > 0 {
      PairedNone(strs, t, n - 1);
    }
  }

  /**
   * The pairing loop: `lastWasKey` starts true and the loop starts at the
   * second string; a write through `[undefined, undefined]` ends it with
   * the `TypeError`.
   */
  method Interpret(strs: seq<Bytes>, version: string) returns (r: Result<Config, ConfigError>)
    ensures r == Interpretation(strs, version)
  {
    var cfg := EmptyConfig(version);
    var lastWasKey := true;
    var i := 1;
    while i < |strs|
      invariant 1 <= i && (i <= |strs| || i == 1)
      invariant cfg.version == version
      invariant lastWasKey <==> i == 1 || IsKey(strs[i - 1])
      invariant forall j :: j < i ==> !ThrowsAt(strs, j)
      invariant forall t :: Get(cfg, t) == Paired(strs, t, i)
    {
      var s := strs[i];
      var k := Key(s);
      if k.Some? {
        if !lastWasKey {
          var v := strs[i - 1];
          match k.value
          case Path(t) =>
            cfg := Set(cfg, t, v);
          case UndefinedPair =>
            assert ThrowsAt(strs, i);
            return Err(UndefinedPathTypeError);
          case Inert =>
        }
        lastWasKey := true;
      } else {
        lastWasKey := false;
      }
      i := i + 1;
    }
    if |strs| == 0 {
      assert forall t :: Paired(strs, t, i) == Paired(strs, t, |strs|);
    }
    ConfigExtensional(cfg, Interpretation(strs, version).value);
    return Ok(cfg);
  }

  /**
   * The configuration a binary holds, as the whole procedure computes it:
   * the scan fails, the pairing throws, or the pairing's configuration.
   */
  function ConfigOf(file: Bytes, version: string, stale: Bytes): (r: Result<Config, ConfigError>)
    requires |stale| == TABLE_SIZE
    ensures r == Err(TableNotFound) <==> ScanFile(file) < 0
    ensures r == Err(UndefinedPathTypeError) <==>
              ScanFile(file) >= 0 && Interpretation(TableStrings(Table(file, ScanFile(file), stale)), version).Err?
    ensures r.Ok? ==> r == Interpretation(TableStrings(Table(file, ScanFile(file), stale)), version)
  {
    var pos := ScanFile(file);
    if pos < 0 then Err(TableNotFound)
    else Interpretation(TableStrings(Table(file, pos, stale)), version)
  }

  /**
   * `GetGoogleChromeClientConfig` on the binary's bytes and the `KSVersion`
   * read from `Info.plist`; `stale` is the table buffer's prior content.
   */
  method GetGoogleChromeClientConfig(file: Bytes, version: string, stale: Bytes)
    returns (r: Result<Config, ConfigError>)
    requires |stale| == TABLE_SIZE
    ensures r == ConfigOf(file, version, stale)
  {
    var stringsPos := FindStringsPos(file);
    if stringsPos < 0 {
      return Err(TableNotFound);
    }
    var table := Table(file, stringsPos, stale);
    var strs := ReadAllStrings(table);
    r := Interpret(strs, version);
  }

  /**
   * A value comes before its key: in the table `DUMMY v1 GOOGLE_API_KEY
   * secret1 GOOGLE_DEFAULT_CLIENT_ID`, the API key is `v1` and the
   * default client id is `secret1`.
   */
  lemma ValueBeforeKeyExample()
    ensures var strs := [Ascii("DUMMY"), Ascii("v1"), Ascii("GOOGLE_API_KEY"), Ascii("secret1"), Ascii("GOOGLE_DEFAULT_CLIENT_ID")];
            var r := Interpretation(strs, "70.0");
            r.Ok? && r.value.api_key == Some(Ascii("v1")) && r.value.default.client_id == Some(Ascii("secret1"))
              && r.value.default.client_secret == None && r.value.main.client_id == None
  {
    var strs := [Ascii("DUMMY"), Ascii("v1"), Ascii("GOOGLE_API_KEY"), Ascii("secret1"), Ascii("GOOGLE_DEFAULT_CLIENT_ID")];
    ExampleKeys(strs[2], strs[4]);
    ExampleValues(strs[1], strs[3]);
    ValueBeforeKey(strs);
    NoThrowWithoutSetter(strs);
    ValueBeforeKeyUnset(strs, Field(ClientSecret(Default)));
    ValueBeforeKeyUnset(strs, Field(ClientId(Main)));
    var r := Interpretation(strs, "70.0");
    assert r.Ok?;
    var c := r.value;
    assert Get(c, Field(ApiKey)) == c.api_key && Get(c, Field(ClientId(Default))) == c.default.client_id;
    assert Get(c, Field(ClientSecret(Default))) == c.default.client_secret && Get(c, Field(ClientId(Main))) == c.main.client_id;
  }

  /** The two variable names of the example. */
  lemma ExampleKeys(api: Bytes, id: Bytes)
    requires api == Ascii("GOOGLE_API_KEY") && id == Ascii("GOOGLE_DEFAULT_CLIENT_ID")
    ensures Key(api) == Some(Path(Field(ApiKey))) && Key(id) == Some(Path(Field(ClientId(Default))))
  {
  }

  /** The two values of the example are not keys. */
  lemma ExampleValues(v: Bytes, secret: Bytes)
    requires v == Ascii("v1") && secret == Ascii("secret1")
    ensures !IsKey(v) && !IsKey(secret)
  {
    assert secret[0] != Ascii("valueOf")[0];
  }

  /** Five strings in the order dummy, value, API key name, value, client id name: each value goes to the key after it. */
  lemma ValueBeforeKey(strs: seq<Bytes>)
    requires |strs| == 5
    requires !IsKey(strs[1]) && !IsKey(strs[3])
    requires Key(strs[2]) == Some(Path(Field(ApiKey))) && Key(strs[4]) == Some(Path(Field(ClientId(Default))))
    ensures Paired(strs, Field(ApiKey), 5) == Some(strs[1]) && Paired(strs, Field(ClientId(Default)), 5) == Some(strs[3])
  {
    var api := Field(ApiKey);
    assert Assigns(strs, 2, api);
    assert Paired(strs, api, 3) == Some(strs[1]);
    assert !Assigns(strs, 3, api) && !Assigns(strs, 4, api);
    assert Paired(strs, api, 5) == Paired(strs, api, 4) == Paired(strs, api, 3);
    LastKeyAfterValue(strs, Field(ClientId(Default)));
  }

  /** A key that ends the strings and follows a value decides its property. */
  lemma LastKeyAfterValue(strs: seq<Bytes>, t: Target)
    requires |strs| >= 3 && !IsKey(strs[|strs| - 2]) && Key(strs[|strs| - 1]) == Some(Path(t))
    ensures Paired(strs, t, |strs|) == Some(strs[|strs| - 2])
  {
    assert Assigns(strs, |strs| - 1, t);
  }

  /** Strings with no two-parameter inherited name after the second never throw. */
  lemma NoThrowWithoutSetter(strs: seq<Bytes>)
    requires forall i | 2 <= i < |strs| :: Key(strs[i]) != Some(UndefinedPair)
    ensures !Throws(strs)
  {
  }

  /** In the same five strings, properties no key names stay `null`. */
  lemma ValueBeforeKeyUnset(strs: seq<Bytes>, t: Target)
    requires |strs| == 5
    requires !IsKey(strs[1]) && !IsKey(strs[3])
    requires Key(strs[2]) == Some(Path(Field(ApiKey))) && Key(strs[4]) == Some(Path(Field(ClientId(Default))))
    requires t != Field(ApiKey) && t != Field(ClientId(Default))
    ensures Paired(strs, t, 5).None?
  {
    forall i | i < 5 ensures !Assigns(strs, i, t) {
    }
    PairedNone(strs, t, 5);
  }

  /** A key right after another key neither stores nor throws. */
  lemma KeyAfterKeyIgnored(strs: seq<Bytes>, i: int)
    requires 1 <= i < |strs| && IsKey(strs[i - 1]) && IsKey(strs[i])
    ensures forall t :: !Assigns(strs, i, t)
    ensures !ThrowsAt(strs, i)
  {
  }

  /** Every variable name of `VAR_MAP` starts with `G`. */
  lemma VarNamesStartWithG(s: Bytes)
    requires s in VAR_MAP
    ensures |s| > 0 && s[0] == 'G' as byte
  {
  }

  /** The two-parameter inherited names. */
  lemma SetterNames(s: Bytes)
    requires s == Ascii("__defineGetter__") || s == Ascii("__defineSetter__")
    ensures Key(s) == Some(UndefinedPair)
  {
    if s in VAR_MAP {
      VarNamesStartWithG(s);
    }
    assert s !in ONE_PARAM_NAMES by {
      assert s[2] != Ascii("__lookupGetter__")[2];
    }
  }

  /** The one-parameter inherited names write to the property `undefined`. */
  lemma OneParamNames(s: Bytes)
    requires s in ONE_PARAM_NAMES
    ensures Key(s) == Some(Path(Undefined))
  {
    if s in VAR_MAP {
      VarNamesStartWithG(s);
    }
  }

  /**
   * A value followed by `__defineGetter__` or `__defineSetter__` makes the
   * whole call throw: `dummytoken x __defineGetter__` has no configuration.
   */
  lemma SetterAfterValueThrows(strs: seq<Bytes>, version: string)
    requires strs == [Ascii("dummytoken"), Ascii("x"), Ascii("__defineGetter__")]
    ensures Interpretation(strs, version) == Err(UndefinedPathTypeError)
  {
    SetterNames(strs[2]);
    NotAKey(strs[1]);
    assert ThrowsAt(strs, 2);
  }

  /** `x` is not a key. */
  lemma NotAKey(s: Bytes)
    requires s == Ascii("x")
    ensures !IsKey(s)
  {
    assert s[0] != Ascii("GOOGLE_API_KEY")[0];
  }

  /**
   * A value followed by `constructor` is stored in the property `undefined`
   * and in no declared field: `DUMMY x constructor` yields every field
   * `null` and `undefined` set to `x`.
   */
  lemma ConstructorStoresStray(strs: seq<Bytes>, version: string)
    requires strs == [Ascii("DUMMY"), Ascii("x"), Ascii("constructor")]
    ensures var r := Interpretation(strs, version);
            r.Ok? && r.value.stray == Some(Ascii("x")) && forall slot :: Get(r.value, Field(slot)) == None
  {
    OneParamNames(strs[2]);
    NotAKey(strs[1]);
    assert Assigns(strs, 2, Undefined);
    LastIsPaired(strs, Undefined, 3, 2);
    forall slot ensures Paired(strs, Field(slot), 3).None? {
      forall i | i < 3 ensures !Assigns(strs, i, Field(slot)) {
      }
      PairedNone(strs, Field(slot), 3);
    }
  }
}
