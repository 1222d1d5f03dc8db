/**
 * The Backup and Sync credentials in the keyring (`GetGoogleDriveCredentials`):
 * entries of the `Google Drive` service are grouped by the e-mail in their
 * account label, an unsuffixed entry carrying a token blob and a
 * `- machine` entry the machine id.
 *
 * The keyring lookup is not modelled: its entries are the input. Labels
 * are Dafny strings; passwords are held as the UTF-8 bytes the token
 * decoder reads.
 */
module DriveCredentials {
  import opened Wrappers
  import opened Bytes
  import opened OAuth2Token

  /** One `{ account, password }` pair returned by `keytar.findCredentials`. */
  datatype KeyringEntry = KeyringEntry(account: string, password: Bytes)

  /** `GoogleDriveCredential`. */
  datatype Credential = Credential(email: string, machine_id: Option<Bytes>, token: Option<Token>)

  /** The messages logged while grouping; none of them stops the loop. */
  datatype Warning =
    | UnknownAccountName(account: string)
    | InvalidToken(account: string, error: BlobError)
    | PossiblyInvalidToken(account: string)
    | UnsupportedAccountData(account: string)

  /** An account label: the e-mail and the optional type suffix. */
  datatype Label = Label(email: string, suffix: Option<string>)

  /** JavaScript's `\s`: the white space and line terminator code points. */
  predicate IsSpace(c: char) {
    var n := c as int;
    (0x09 <= n <= 0x0D) || n == 0x20 || n == 0xA0 || n == 0x1680 || (0x2000 <= n <= 0x200A) ||
    n == 0x2028 || n == 0x2029 || n == 0x202F || n == 0x205F || n == 0x3000 || n == 0xFEFF
  }

  predicate NoSpace(s: string) {
    forall i :: 0 <= i < |s| ==> !IsSpace(s[i])
  }

  predicate AllSpace(s: string) {
    forall i :: 0 <= i < |s| ==> IsSpace(s[i])
  }

  /** The length of the longest space-free prefix. */
  function WordRun(s: string): (n: nat)
    ensures n <= |s| && NoSpace(s[..n])
    ensures n < |s| ==> IsSpace(s[n])
  {
    if s == [] || IsSpace(s[0]) then 0
    else
      var n := 1 + WordRun(s[1..]);
      assert s[..n] == [s[0]] + s[1..][..n - 1];
      n
  }

  /** The length of the longest all-space prefix. */
  function SpaceRun(s: string): (n: nat)
    ensures n <= |s| && AllSpace(s[..n])
    ensures n < |s| ==> !IsSpace(s[n])
  {
    if s == [] || !IsSpace(s[0]) then 0
    else
      var n := 1 + SpaceRun(s[1..]);
      assert s[..n] == [s[0]] + s[1..][..n - 1];
      n
  }

  /**
   * `/^([^\s]+)(?:\s+-\s+([^\s]+))?$/`. Each run is taken whole: a shorter
   * run would leave a byte of its own class where the next part must
   * begin with the other class, so greed loses no match.
   */
  function ParseLabel(account: string): (r: Option<Label>)
  {
    var n := WordRun(account);
    if n == 0 then None
    else if n == |account| then Some(Label(account, None))
    else
      match ParseSuffix(account[n..])
      case None => None
      case Some(t) => Some(Label(account[..n], Some(t)))
  }

  /**
   * The optional group `(?:\s+-\s+([^\s]+))` up to the end: spaces, a dash,
   * spaces and a space-free word, which it returns.
   */
  function ParseSuffix(rest: string): (r: Option<string>)
    ensures r.Some? ==> |r.value| > 0 && NoSpace(r.value) && |rest| > |r.value| && rest[|rest| - |r.value|..] == r.value
  {
    var w1 := SpaceRun(rest);
    if w1 == 0 || w1 == |rest| || rest[w1] != '-' then None
    else
      var after := rest[w1 + 1..];
      var w2 := SpaceRun(after);
      if w2 == 0 || w2 == |after| || WordRun(after[w2..]) != |after| - w2 then None
      else
        assert after[w2..][..|after| - w2] == after[w2..];
        assert rest[|rest| - (|after| - w2)..] == after[w2..];
        Some(after[w2..])
  }

  /**
   * Soundness of the label pattern: the e-mail is a non-empty space-free
   * prefix of the name; without a suffix it is the whole name, and a
   * suffix is a non-empty space-free word ending the name.
   */
  lemma ParseLabelSound(account: string)
    requires ParseLabel(account).Some?
    ensures var l := ParseLabel(account).value;
      && |l.email| > 0 && NoSpace(l.email) && StartsWith(account, l.email)
      && (l.suffix.None? ==> account == l.email)
      && (l.suffix.Some? ==> |l.suffix.value| > 0 && NoSpace(l.suffix.value)
                             && |account| > |l.suffix.value| && account[|account| - |l.suffix.value|..] == l.suffix.value)
      && (l.suffix.Some? ==> exists gap1, gap2 :: |gap1| > 0 && AllSpace(gap1) && |gap2| > 0 && AllSpace(gap2)
                                                && account == l.email + gap1 + "-" + gap2 + l.suffix.value)
  {
    var n := WordRun(account);
    if n < |account| {
      var rest := account[n..];
      var t := ParseSuffix(rest).value;
      assert rest[|rest| - |t|..] == account[|account| - |t|..];
      var gap1, gap2 := SuffixGaps(rest);
      assert account == account[..n] + rest;
      Regroup(account[..n], gap1, "-", gap2, t);
    }
  }

  /** The suffix group read back: the two gaps around the dash are non-empty runs of spaces. */
  lemma SuffixGaps(rest: string) returns (gap1: string, gap2: string)
    requires ParseSuffix(rest).Some?
    ensures |gap1| > 0 && AllSpace(gap1) && |gap2| > 0 && AllSpace(gap2)
    ensures rest == gap1 + ("-" + (gap2 + ParseSuffix(rest).value))
  {
    var w1 := SpaceRun(rest);
    var after := rest[w1 + 1..];
    var w2 := SpaceRun(after);
    gap1, gap2 := rest[..w1], after[..w2];
    assert after == gap2 + after[w2..];
    assert rest == gap1 + [rest[w1]] + after;
  }

  /** Every space-free non-empty label is a bare e-mail. */
  lemma ParsePlain(email: string)
    requires |email| > 0 && NoSpace(email)
    ensures ParseLabel(email) == Some(Label(email, None))
  {
    WordRunOf(email, "");
    assert email + "" == email;
  }

  /** Every `email <spaces> - <spaces> suffix` label is read as that e-mail and suffix. */
  lemma ParseSuffixed(email: string, gap1: string, gap2: string, suffix: string)
    requires |email| > 0 && NoSpace(email) && |suffix| > 0 && NoSpace(suffix)
    requires |gap1| > 0 && AllSpace(gap1) && |gap2| > 0 && AllSpace(gap2)
    ensures ParseLabel(email + gap1 + "-" + gap2 + suffix) == Some(Label(email, Some(suffix)))
  {
    var rest := gap1 + ("-" + (gap2 + suffix));
    Regroup(email, gap1, "-", gap2, suffix);
    SuffixPart(gap1, gap2, suffix);
    WordRunOf(email, rest);
    assert (email + rest)[..|email|] == email;
    assert (email + rest)[|email|..] == rest;
  }

  /** The part after the e-mail: the gap, the dash, the second gap and the suffix are each read whole. */
  lemma SuffixPart(gap1: string, gap2: string, suffix: string)
    requires |suffix| > 0 && NoSpace(suffix)
    requires |gap1| > 0 && AllSpace(gap1) && |gap2| > 0 && AllSpace(gap2)
    ensures var after := gap2 + suffix;
      var rest := gap1 + ("-" + after);
      SpaceRun(rest) == |gap1| && rest[|gap1|] == '-' && rest[|gap1| + 1..] == after &&
      SpaceRun(after) == |gap2| && after[|gap2|..] == suffix && WordRun(suffix) == |suffix|
  {
    var after := gap2 + suffix;
    SpaceRunOf(gap1, "-" + after);
    assert (gap1 + ("-" + after))[|gap1| + 1..] == after;
    SpaceRunOf(gap2, suffix);
    WordRunOf(suffix, "");
    assert suffix + "" == suffix;
  }

  lemma {:induction false} WordRunOf(w: string, t: string)
    requires NoSpace(w)
    requires t == [] || IsSpace(t[0])
    ensures WordRun(w + t) == |w|
    decreases |w|
  {
    if w != [] {
      assert (w + t)[1..] == w[1..] + t;
      WordRunOf(w[1..], t);
    }
  }

  lemma {:induction false} SpaceRunOf(w: string, t: string)
    requires AllSpace(w)
    requires t == [] || !IsSpace(t[0])
    ensures SpaceRun(w + t) == |w|
    decreases |w|
  {
    if w != [] {
      assert (w + t)[1..] == w[1..] + t;
      SpaceRunOf(w[1..], t);
    }
  }

  /** The distinct e-mails of the entries with a readable label, in order of first appearance. */
  function Emails(entries: seq<KeyringEntry>): (r: seq<string>)
  {
    if entries == [] then []
    else
      var r := Emails(entries[..|entries| - 1]);
      match ParseLabel(entries[|entries| - 1].account)
      case None => r
      case Some(l) => if l.email in r then r else r + [l.email]
  }

  /** An unsuffixed entry for `email` whose blob decodes. */
  predicate TokenEntry(e: KeyringEntry, email: string) {
    ParseLabel(e.account) == Some(Label(email, None)) && FromBlob(e.password).Ok?
  }

  const MACHINE: string := "machine"

  /** A `- machine` entry for `email`. */
  predicate MachineEntry(e: KeyringEntry, email: string) {
    ParseLabel(e.account) == Some(Label(email, Some(MACHINE)))
  }

  /** The token of the last unsuffixed entry for `email` whose blob decodes. */
  function LastToken(entries: seq<KeyringEntry>, email: string): Option<Token>
  {
    if entries == [] then None
    else
      var e := entries[|entries| - 1];
      var prev := LastToken(entries[..|entries| - 1], email);
      if TokenEntry(e, email) then Some(FromBlob(e.password).value)
      else prev
  }

  /** The password of the last `- machine` entry for `email`. */
  function LastMachineId(entries: seq<KeyringEntry>, email: string): Option<Bytes>
  {
    if entries == [] then None
    else
      var e := entries[|entries| - 1];
      var prev := LastMachineId(entries[..|entries| - 1], email);
      if MachineEntry(e, email) then Some(e.password) else prev
  }

  /** What one entry logs. */
  function EntryWarnings(e: KeyringEntry): seq<Warning>
  {
    match ParseLabel(e.account)
    case None => [UnknownAccountName(e.account)]
    case Some(Label(_, None)) =>
      (match FromBlob(e.password)
       case Err(err) => [InvalidToken(e.account, err)]
       case Ok(tok) => if IsValid(tok) then [] else [PossiblyInvalidToken(e.account)])
    case Some(Label(_, Some(t))) => if t == MACHINE then [] else [UnsupportedAccountData(e.account)]
  }

  function Warnings(entries: seq<KeyringEntry>): seq<Warning>
  {
    if entries == [] then [] else Warnings(entries[..|entries| - 1]) + EntryWarnings(entries[|entries| - 1])
  }

  /** The credential the entries build up for `email`. */
  function CredentialFor(entries: seq<KeyringEntry>, email: string): Credential {
    Credential(email, LastMachineId(entries, email), LastToken(entries, email))
  }

  /** What one more entry does to the credential of `c.email`. */
  function Apply(c: Credential, e: KeyringEntry): Credential {
    if TokenEntry(e, c.email) then
      c.(token := Some(FromBlob(e.password).value))
    else if MachineEntry(e, c.email) then
      c.(machine_id := Some(e.password))
    else c
  }

  /** The credentials the entries build up, one per e-mail in order of first appearance. */
  function Grouping(entries: seq<KeyringEntry>): (r: seq<Credential>)
    ensures |r| == |Emails(entries)|
  {
    var emails := Emails(entries);
    seq(|emails|, k requires 0 <= k < |emails| => CredentialFor(entries, emails[k]))
  }

  /** The e-mails are distinct. */
  lemma {:induction false} EmailsDistinct(entries: seq<KeyringEntry>)
    ensures forall a, b :: 0 <= a < b < |Emails(entries)| ==> Emails(entries)[a] != Emails(entries)[b]
    decreases |entries|
  {
    if entries != [] {
      EmailsDistinct(entries[..|entries| - 1]);
    }
  }

  /** The label of `e` parses and names `email`. */
  predicate Names(e: KeyringEntry, email: string) {
    ParseLabel(e.account).Some? && ParseLabel(e.account).value.email == email
  }

  /** An e-mail has a credential exactly when some entry's label names it. */
  lemma EmailsHas(entries: seq<KeyringEntry>, email: string)
    ensures email in Emails(entries) <==> exists i :: 0 <= i < |entries| && Names(entries[i], email)
  {
    if email in Emails(entries) {
      EmailsFrom(entries, email);
    } else {
      forall i | 0 <= i < |entries|
        ensures !Names(entries[i], email)
      {
        if Names(entries[i], email) {
          EmailsOf(entries, email, i);
        }
      }
    }
  }

  /** Every e-mail listed comes from an entry naming it. */
  lemma {:induction false} EmailsFrom(entries: seq<KeyringEntry>, email: string)
    requires email in Emails(entries)
    ensures exists i :: 0 <= i < |entries| && Names(entries[i], email)
    decreases |entries|
  {
    var last := |entries| - 1;
    var init := entries[..last];
    if !Names(entries[last], email) {
      assert entries == init + [entries[last]];
      StepEmails(init, entries[last]);
      assert email in Emails(init);
      EmailsFrom(init, email);
      var i :| 0 <= i < |init| && Names(init[i], email);
      assert init[i] == entries[i];
    }
  }

  /** Every e-mail an entry names is listed. */
  lemma {:induction false} EmailsOf(entries: seq<KeyringEntry>, email: string, i: int)
    requires 0 <= i < |entries| && Names(entries[i], email)
    ensures email in Emails(entries)
    decreases |entries|
  {
    var last := |entries| - 1;
    var init := entries[..last];
    assert entries == init + [entries[last]];
    EmailsExtend(init, entries[last]);
    if i < last {
      assert init[i] == entries[i];
      EmailsOf(init, email, i);
    }
  }

  /** One more entry keeps every e-mail listed and lists the one its label names. */
  lemma EmailsExtend(init: seq<KeyringEntry>, e: KeyringEntry)
    ensures forall x :: x in Emails(init) ==> x in Emails(init + [e])
    ensures ParseLabel(e.account).Some? ==> ParseLabel(e.account).value.email in Emails(init + [e])
  {
    StepEmails(init, e);
  }

  /** The last decoding token entry for an e-mail gives its token; later entries for it whose blob fails change nothing. */
  lemma {:induction false} TokenIsLast(entries: seq<KeyringEntry>, email: string, i: int)
    requires 0 <= i < |entries| && TokenEntry(entries[i], email)
    requires forall j :: i < j < |entries| ==> !TokenEntry(entries[j], email)
    ensures LastToken(entries, email) == Some(FromBlob(entries[i].password).value)
    decreases |entries|
  {
    var init := entries[..|entries| - 1];
    if i < |entries| - 1 {
      assert init[i] == entries[i];
      assert forall j :: i < j < |init| ==> init[j] == entries[j];
      TokenIsLast(init, email, i);
    }
  }

  /** An e-mail has no token exactly when none of its unsuffixed entries decodes. */
  lemma TokenNone(entries: seq<KeyringEntry>, email: string)
    ensures LastToken(entries, email).None? <==> forall j :: 0 <= j < |entries| ==> !TokenEntry(entries[j], email)
  {
    if LastToken(entries, email).None? {
      forall j | 0 <= j < |entries|
        ensures !TokenEntry(entries[j], email)
      {
        if TokenEntry(entries[j], email) {
          TokenSome(entries, email, j);
        }
      }
    } else {
      TokenFrom(entries, email);
    }
  }

  lemma {:induction false} TokenSome(entries: seq<KeyringEntry>, email: string, i: int)
    requires 0 <= i < |entries| && TokenEntry(entries[i], email)
    ensures LastToken(entries, email).Some?
    decreases |entries|
  {
    var init := entries[..|entries| - 1];
    if i < |entries| - 1 && !TokenEntry(entries[|entries| - 1], email) {
      assert init[i] == entries[i];
      TokenSome(init, email, i);
    }
  }

  lemma {:induction false} TokenFrom(entries: seq<KeyringEntry>, email: string)
    requires LastToken(entries, email).Some?
    ensures exists j :: 0 <= j < |entries| && TokenEntry(entries[j], email)
    decreases |entries|
  {
    var last := |entries| - 1;
    if !TokenEntry(entries[last], email) {
      var init := entries[..last];
      TokenFrom(init, email);
      var j :| 0 <= j < |init| && TokenEntry(init[j], email);
      assert init[j] == entries[j];
    }
  }

  /** The last `- machine` entry for an e-mail gives its machine id. */
  lemma {:induction false} MachineIdIsLast(entries: seq<KeyringEntry>, email: string, i: int)
    requires 0 <= i < |entries| && MachineEntry(entries[i], email)
    requires forall j :: i < j < |entries| ==> !MachineEntry(entries[j], email)
    ensures LastMachineId(entries, email) == Some(entries[i].password)
    decreases |entries|
  {
    var init := entries[..|entries| - 1];
    if i < |entries| - 1 {
      assert init[i] == entries[i];
      assert forall j :: i < j < |init| ==> init[j] == entries[j];
      MachineIdIsLast(init, email, i);
    }
  }

  /**
   * The record is created before the password is parsed: an e-mail whose
   * every blob fails to decode still gets a credential, with no token.
   */
  lemma FailedBlobsKeepCredential(entries: seq<KeyringEntry>, i: int)
    requires 0 <= i < |entries| && ParseLabel(entries[i].account).Some?
    requires var email := ParseLabel(entries[i].account).value.email;
             forall j :: 0 <= j < |entries| ==> !TokenEntry(entries[j], email)
    ensures var email := ParseLabel(entries[i].account).value.email;
            email in Emails(entries) && CredentialFor(entries, email).token.None?
  {
    var email := ParseLabel(entries[i].account).value.email;
    EmailsHas(entries, email);
    TokenNone(entries, email);
  }

  /**
   * The e-mails seen after any prefix of the entries come first, in the
   * same order: credentials are listed in order of first appearance.
   */
  lemma {:induction false} EmailsGrow(entries: seq<KeyringEntry>, n: nat)
    requires n <= |entries|
    ensures var before := Emails(entries[..n]);
            |before| <= |Emails(entries)| && Emails(entries)[..|before|] == before
    decreases |entries|
  {
    if n < |entries| {
      var init := entries[..|entries| - 1];
      assert init[..n] == entries[..n];
      EmailsGrow(init, n);
    } else {
      assert entries[..n] == entries;
    }
  }

  /** An e-mail no entry has named yet has neither token nor machine id. */
  lemma {:induction false} Unseen(entries: seq<KeyringEntry>, email: string)
    requires email !in Emails(entries)
    ensures CredentialFor(entries, email) == Credential(email, None, None)
    decreases |entries|
  {
    if entries != [] {
      Unseen(entries[..|entries| - 1], email);
    }
  }

  /** How the e-mail list grows by one entry. */
  lemma StepEmails(prefix: seq<KeyringEntry>, e: KeyringEntry)
    ensures Emails(prefix + [e]) ==
      match ParseLabel(e.account)
      case None => Emails(prefix)
      case Some(l) => if l.email in Emails(prefix) then Emails(prefix) else Emails(prefix) + [l.email]
  {
    assert (prefix + [e])[..|prefix|] == prefix;
  }

  /** How one credential grows by one entry. */
  lemma StepCredential(prefix: seq<KeyringEntry>, e: KeyringEntry, email: string)
    ensures CredentialFor(prefix + [e], email) == Apply(CredentialFor(prefix, email), e)
  {
    assert (prefix + [e])[..|prefix|] == prefix;
  }

  lemma StepWarnings(prefix: seq<KeyringEntry>, e: KeyringEntry)
    ensures Warnings(prefix + [e]) == Warnings(prefix) + EntryWarnings(e)
  {
    var entries := prefix + [e];
    assert entries[..|entries| - 1] == prefix && entries[|entries| - 1] == e;
  }

  /** An entry only touches the credential of the e-mail in its label. */
  lemma ApplyOther(c: Credential, e: KeyringEntry)
    requires ParseLabel(e.account).None? || ParseLabel(e.account).value.email != c.email
    ensures Apply(c, e) == c
  {
  }

  /** One entry whose label names the e-mail at position `j`. */
  lemma GroupingStepSeen(prefix: seq<KeyringEntry>, e: KeyringEntry, j: nat)
    requires ParseLabel(e.account).Some?
    requires j < |Emails(prefix)| && Emails(prefix)[j] == ParseLabel(e.account).value.email
    ensures Grouping(prefix + [e]) == Grouping(prefix)[j := Apply(Grouping(prefix)[j], e)]
  {
    var emails := Emails(prefix);
    StepEmails(prefix, e);
    assert Emails(prefix + [e]) == emails;
    EmailsDistinct(prefix);
    var g, g' := Grouping(prefix), Grouping(prefix + [e]);
    forall k | 0 <= k < |g| ensures g'[k] == g[j := Apply(g[j], e)][k] {
      StepCredential(prefix, e, emails[k]);
      if k != j {
        ApplyOther(g[k], e);
      }
    }
  }

  /** One entry whose label names a new e-mail. */
  lemma GroupingStepNew(prefix: seq<KeyringEntry>, e: KeyringEntry)
    requires ParseLabel(e.account).Some? && ParseLabel(e.account).value.email !in Emails(prefix)
    ensures var email := ParseLabel(e.account).value.email;
      Grouping(prefix + [e]) == Grouping(prefix) + [Apply(Credential(email, None, None), e)]
  {
    var email := ParseLabel(e.account).value.email;
    var emails := Emails(prefix);
    StepEmails(prefix, e);
    assert Emails(prefix + [e]) == emails + [email];
    var g, g' := Grouping(prefix), Grouping(prefix + [e]);
    forall k | 0 <= k < |g'| ensures g'[k] == (g + [Apply(Credential(email, None, None), e)])[k] {
      if k < |g| {
        StepCredential(prefix, e, emails[k]);
        ApplyOther(g[k], e);
      } else {
        StepCredential(prefix, e, email);
        Unseen(prefix, email);
      }
    }
  }

  /** One entry whose label does not parse. */
  lemma GroupingStepSkipped(prefix: seq<KeyringEntry>, e: KeyringEntry)
    requires ParseLabel(e.account).None?
    ensures Grouping(prefix + [e]) == Grouping(prefix)
  {
    var emails := Emails(prefix);
    StepEmails(prefix, e);
    var g, g' := Grouping(prefix), Grouping(prefix + [e]);
    forall k | 0 <= k < |g| ensures g'[k] == g[k] {
      StepCredential(prefix, e, emails[k]);
      ApplyOther(g[k], e);
    }
  }

  /** An entry whose label does not parse only warns. */
  lemma SkipStep(prefix: seq<KeyringEntry>, e: KeyringEntry)
    requires ParseLabel(e.account).None?
    ensures Emails(prefix + [e]) == Emails(prefix)
    ensures Grouping(prefix + [e]) == Grouping(prefix)
    ensures EntryWarnings(e) == [UnknownAccountName(e.account)]
  {
    StepEmails(prefix, e);
    GroupingStepSkipped(prefix, e);
  }

  /**
   * The body of the loop once the record `c` for the label's e-mail is
   * found: an unsuffixed entry sets the token if its blob decodes (a token
   * that fails `valid()` is kept with a warning), `machine` sets the machine
   * id, any other suffix only warns.
   */
  method UpdateCredential(c: Credential, rc: KeyringEntry, suffix: Option<string>) returns (c': Credential, w: seq<Warning>)
    requires ParseLabel(rc.account) == Some(Label(c.email, suffix))
    ensures c' == Apply(c, rc)
    ensures w == EntryWarnings(rc)
  {
    c', w := c, [];
    if suffix.None? {
      var tok := FromBlob(rc.password);
      if tok.Err? {
        w := [InvalidToken(rc.account, tok.error)];
        return;
      }
      var ok := Valid(tok.value);
      if !ok {
        w := [PossiblyInvalidToken(rc.account)];
      }
      c' := c.(token := Some(tok.value));
    } else if suffix.value == MACHINE {
      c' := c.(machine_id := Some(rc.password));
    } else {
      w := [UnsupportedAccountData(rc.account)];
    }
  }

  /** `credsIdx` maps each e-mail seen so far to its position in `creds`. */
  ghost predicate Indexes(credsIdx: map<string, nat>, emails: seq<string>) {
    (forall e :: e in credsIdx <==> e in emails) &&
    forall e :: e in credsIdx ==> credsIdx[e] < |emails| && emails[credsIdx[e]] == e
  }

  lemma IndexesAppend(credsIdx: map<string, nat>, emails: seq<string>, email: string)
    requires Indexes(credsIdx, emails) && email !in credsIdx
    ensures Indexes(credsIdx[email := |emails|], emails + [email])
  {
  }

  /**
   * The lookup half of an iteration for an entry whose label parsed: the
   * position of the record for its e-mail, appended as an empty record
   * first if the e-mail is new.
   */
  method FindOrCreate(creds: seq<Credential>, credsIdx: map<string, nat>, ghost emails: seq<string>,
                      ghost prefix: seq<KeyringEntry>, rc: KeyringEntry, email: string)
    returns (creds': seq<Credential>, credsIdx': map<string, nat>, idx: nat)
    requires ParseLabel(rc.account).Some? && ParseLabel(rc.account).value.email == email
    requires emails == Emails(prefix) && creds == Grouping(prefix) && Indexes(credsIdx, emails)
    ensures Indexes(credsIdx', Emails(prefix + [rc]))
    ensures idx < |creds'| && creds'[idx].email == email
    ensures Grouping(prefix + [rc]) == creds'[idx := Apply(creds'[idx], rc)]
  {
    if email !in credsIdx {
      NewRecord(creds, credsIdx, emails, prefix, rc, email);
      creds' := creds + [Credential(email, None, None)];
      credsIdx' := credsIdx[email := |creds|];
      idx := |creds|;
    } else {
      SeenRecord(creds, credsIdx, emails, prefix, rc, email);
      creds', credsIdx', idx := creds, credsIdx, credsIdx[email];
    }
  }

  /** A new e-mail: its empty record goes at the end, and the entry updates it. */
  lemma NewRecord(creds: seq<Credential>, credsIdx: map<string, nat>, emails: seq<string>,
                  prefix: seq<KeyringEntry>, rc: KeyringEntry, email: string)
    requires ParseLabel(rc.account).Some? && ParseLabel(rc.account).value.email == email
    requires emails == Emails(prefix) && creds == Grouping(prefix) && Indexes(credsIdx, emails)
    requires email !in credsIdx
    ensures var creds' := creds + [Credential(email, None, None)];
      Indexes(credsIdx[email := |creds|], Emails(prefix + [rc])) &&
      Grouping(prefix + [rc]) == creds'[|creds| := Apply(creds'[|creds|], rc)]
  {
    NewIndex(credsIdx, emails, prefix, rc, email);
    GroupingStepNew(prefix, rc);
    UpdateLast(creds, Credential(email, None, None), Apply(Credential(email, None, None), rc));
  }

  lemma UpdateLast<T>(s: seq<T>, x: T, y: T)
    ensures (s + [x])[|s| := y] == s + [y]
  {
  }

  /** A new e-mail is indexed at the end of the list. */
  lemma NewIndex(credsIdx: map<string, nat>, emails: seq<string>,
                 prefix: seq<KeyringEntry>, rc: KeyringEntry, email: string)
    requires ParseLabel(rc.account).Some? && ParseLabel(rc.account).value.email == email
    requires emails == Emails(prefix) && Indexes(credsIdx, emails)
    requires email !in credsIdx
    ensures email !in emails && Emails(prefix + [rc]) == emails + [email]
    ensures Indexes(credsIdx[email := |emails|], Emails(prefix + [rc]))
  {
    StepEmails(prefix, rc);
    IndexesAppend(credsIdx, emails, email);
  }

  /** A known e-mail: the entry updates the record the index points at. */
  lemma SeenRecord(creds: seq<Credential>, credsIdx: map<string, nat>, emails: seq<string>,
                   prefix: seq<KeyringEntry>, rc: KeyringEntry, email: string)
    requires ParseLabel(rc.account).Some? && ParseLabel(rc.account).value.email == email
    requires emails == Emails(prefix) && creds == Grouping(prefix) && Indexes(credsIdx, emails)
    requires email in credsIdx
    ensures Indexes(credsIdx, Emails(prefix + [rc]))
    ensures var idx := credsIdx[email];
      idx < |creds| && creds[idx].email == email &&
      Grouping(prefix + [rc]) == creds[idx := Apply(creds[idx], rc)]
  {
    StepEmails(prefix, rc);
    GroupingStepSeen(prefix, rc, credsIdx[email]);
  }

  /**
   * One loop iteration for an entry whose label parsed: find the record of
   * its e-mail, creating it first if the e-mail is new, then update it.
   */
  method Absorb(creds: seq<Credential>, credsIdx: map<string, nat>, ghost emails: seq<string>,
                ghost prefix: seq<KeyringEntry>, rc: KeyringEntry, parsed: Label)
    returns (creds': seq<Credential>, credsIdx': map<string, nat>, w: seq<Warning>)
    requires ParseLabel(rc.account) == Some(parsed)
    requires emails == Emails(prefix) && creds == Grouping(prefix) && Indexes(credsIdx, emails)
    ensures creds' == Grouping(prefix + [rc])
    ensures Indexes(credsIdx', Emails(prefix + [rc]))
    ensures w == EntryWarnings(rc)
  {
    var idx;
    creds', credsIdx', idx := FindOrCreate(creds, credsIdx, emails, prefix, rc, parsed.email);
    var c;
    c, w := UpdateCredential(creds'[idx], rc, parsed.suffix);
    creds' := creds'[idx := c];
  }

  /**
   * One loop iteration, over entry `i`: an entry whose label does not parse
   * is skipped with a warning (the `continue`), any other is absorbed.
   */
  method Step(entries: seq<KeyringEntry>, i: nat, creds: seq<Credential>, credsIdx: map<string, nat>,
              ghost emails: seq<string>, warnings: seq<Warning>)
    returns (creds': seq<Credential>, credsIdx': map<string, nat>, ghost emails': seq<string>, warnings': seq<Warning>)
    requires i < |entries|
    requires emails == Emails(entries[..i]) && creds == Grouping(entries[..i]) && Indexes(credsIdx, emails)
    requires warnings == Warnings(entries[..i])
    ensures emails' == Emails(entries[..i + 1]) && creds' == Grouping(entries[..i + 1])
    ensures Indexes(credsIdx', emails')
    ensures warnings' == Warnings(entries[..i + 1])
  {
    var rc := entries[i];
    ghost var prefix := entries[..i];
    assert entries[..i + 1] == prefix + [rc];
    StepWarnings(prefix, rc);
    emails' := Emails(prefix + [rc]);
    var m := ParseLabel(rc.account);
    if m.None? {
      SkipStep(prefix, rc);
      return creds, credsIdx, emails', warnings + [UnknownAccountName(rc.account)];
    }
    var w;
    creds', credsIdx', w := Absorb(creds, credsIdx, emails, prefix, rc, m.value);
    warnings' := warnings + w;
  }

  /** `GetGoogleDriveCredentials` from the point where the keyring entries have been read. */
  method GetDriveCredentials(entries: seq<KeyringEntry>) returns (creds: seq<Credential>, warnings: seq<Warning>)
    ensures creds == Grouping(entries)
    ensures warnings == Warnings(entries)
  {
    creds, warnings := [], [];
    var credsIdx: map<string, nat> := map[];
    ghost var emails: seq<string> := [];
    for i := 0 to |entries|
      invariant emails == Emails(entries[..i])
      invariant creds == Grouping(entries[..i])
      invariant Indexes(credsIdx, emails)
      invariant warnings == Warnings(entries[..i])
    {
      creds, credsIdx, emails, warnings := Step(entries, i, creds, credsIdx, emails, warnings);
    }
    assert entries[..|entries|] == entries;
  }
}
