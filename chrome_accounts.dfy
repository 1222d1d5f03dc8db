/**
 * The refresh tokens Chrome keeps in its `token_service` table
 * (`GetGoogleChromeAccounts`): rows are filtered by service name, known
 * account id and encryption version, decrypted one by one, collected into
 * a last-wins map and joined onto the account list from the preferences.
 *
 * Reading the database, the keychain and the preferences file are not
 * modelled: their results are parameters. PBKDF2-HMAC-SHA1 and
 * AES-128-CBC are parameters too; decryption may fail.
 */
module ChromeAccounts {
  import opened Wrappers
  import opened Bytes

  /** One entry of `account_info` in the Chrome preferences. */
  datatype AccountInfo = AccountInfo(
    account_id: Bytes, email: Bytes, full_name: Bytes, gaia: Bytes, given_name: Bytes, hd: Bytes,
    is_child_account: bool, is_under_advanced_protection: bool, locale: Bytes, picture_url: Bytes)

  /** One row of `SELECT service, encrypted_token FROM token_service`. */
  datatype TokenRow = TokenRow(service: Bytes, encrypted_token: Bytes)

  /** An account with the refresh token found for it, or `null`. */
  datatype ChromeAccount = ChromeAccount(info: AccountInfo, refresh_token: Option<Bytes>)

  /** Why a row was skipped; each is a warning, never an error. */
  datatype Skip = UnknownAccountKey(service: Bytes) | UnknownAccountId(id: Bytes) | UnknownEncryptionVersion | DecryptionFailed

  /** What one row contributes. */
  datatype RowOutcome = Skipped(reason: Skip) | Decrypted(id: Bytes, token: Bytes)

  /** The whole call: the database could not be read (it returns nothing), the keychain key is missing (it throws), or the accounts. */
  datatype Outcome = DatabaseUnreadable | MissingMasterKey | Accounts(accounts: seq<ChromeAccount>)

  /** PBKDF2 with HMAC-SHA1: (password, salt, iterations, key length) to key. */
  type Pbkdf2 = (Bytes, Bytes, nat, nat) -> Bytes

  /** AES-128-CBC decryption with PKCS#7 padding removal: (key, iv, data) to plaintext, or `None` where Node throws. */
  type Cipher = (Bytes, Bytes, Bytes) -> Option<Bytes>

  /** Key derivation constants, replicated from Chrome for format compatibility. */
  const SALT: Bytes := Ascii("saltysalt")
  const ITERATIONS: nat := 1003
  const KEY_LENGTH: nat := 16

  /** `kEncryptionVersionPrefix`. */
  const VERSION_PREFIX: Bytes := Ascii("v10")

  const ACCOUNT_PREFIX: Bytes := Ascii("AccountId-")

  /** The initialisation vector: sixteen spaces, the same for every row. */
  const SPACE_IV: Bytes := seq(16, _ => ' ' as int)

  predicate AllDigits(s: Bytes) {
    forall i :: 0 <= i < |s| ==> IsDigit(s[i])
  }

  /** `SERVICE_REGEX = /^AccountId-([0-9]+)$/`: the captured digits. */
  function ServiceId(service: Bytes): (r: Option<Bytes>)
    ensures r.Some? ==> service == ACCOUNT_PREFIX + r.value && |r.value| > 0 && AllDigits(r.value)
  {
    if StartsWith(service, ACCOUNT_PREFIX) && |service| > |ACCOUNT_PREFIX| && AllDigits(service[|ACCOUNT_PREFIX|..]) then
      assert service == ACCOUNT_PREFIX + service[|ACCOUNT_PREFIX|..];
      Some(service[|ACCOUNT_PREFIX|..])
    else
      None
  }

  /** The service pattern in the regular expression's terms: the prefix, then one or more digits, then the end. */
  lemma ServiceIdMatches(id: Bytes)
    requires |id| > 0 && AllDigits(id)
    ensures ServiceId(ACCOUNT_PREFIX + id) == Some(id)
  {
    assert (ACCOUNT_PREFIX + id)[|ACCOUNT_PREFIX|..] == id;
  }

  /**
   * The checks of one loop iteration, in the source's order: service name,
   * known account id, version prefix, then decryption of the bytes after
   * the prefix.
   */
  function ProcessRow(row: TokenRow, ids: set<Bytes>, key: Bytes, aes: Cipher): (r: RowOutcome)
    ensures r.Decrypted? <==>
      ServiceId(row.service).Some? && ServiceId(row.service).value in ids &&
      StartsWith(row.encrypted_token, VERSION_PREFIX) &&
      aes(key, SPACE_IV, row.encrypted_token[|VERSION_PREFIX|..]).Some?
    ensures r.Decrypted? ==>
      ServiceId(row.service) == Some(r.id) && r.id in ids &&
      Some(r.token) == aes(key, SPACE_IV, row.encrypted_token[3..])
  {
    match ServiceId(row.service)
    case None => Skipped(UnknownAccountKey(row.service))
    case Some(aid) =>
      if aid !in ids then Skipped(UnknownAccountId(aid))
      else if row.encrypted_token[..if |row.encrypted_token| < 3 then |row.encrypted_token| else 3] != VERSION_PREFIX then
        Skipped(UnknownEncryptionVersion)
      else
        match aes(key, SPACE_IV, row.encrypted_token[|VERSION_PREFIX|..])
        case None => Skipped(DecryptionFailed)
        case Some(token) => Decrypted(aid, token)
  }

  /** The `refreshTokens` map after the rows, in order: a later decrypted row for an id replaces an earlier one. */
  function Collect(rows: seq<TokenRow>, ids: set<Bytes>, key: Bytes, aes: Cipher): (m: map<Bytes, Bytes>)
    ensures forall id :: id in m ==> id in ids
  {
    if rows == [] then map[]
    else
      var m := Collect(rows[..|rows| - 1], ids, key, aes);
      match ProcessRow(rows[|rows| - 1], ids, key, aes)
      case Skipped(_) => m
      case Decrypted(id, token) => m[id := token]
  }

  /** The warnings logged for the rows, in order. */
  function Skips(rows: seq<TokenRow>, ids: set<Bytes>, key: Bytes, aes: Cipher): (w: seq<Skip>)
    ensures |w| <= |rows|
  {
    if rows == [] then []
    else
      var w := Skips(rows[..|rows| - 1], ids, key, aes);
      match ProcessRow(rows[|rows| - 1], ids, key, aes)
      case Skipped(reason) => w + [reason]
      case Decrypted(_, _) => w
  }

  /** The final `accounts.map`: one record per account, in order, with `|| null` turning an empty token into `null`. */
  function JoinTokens(accounts: seq<AccountInfo>, tokens: map<Bytes, Bytes>): (r: seq<ChromeAccount>)
    ensures |r| == |accounts|
    ensures forall i :: 0 <= i < |r| ==> r[i].info == accounts[i]
    ensures forall i :: 0 <= i < |r| ==>
      r[i].refresh_token == (if accounts[i].account_id in tokens && tokens[accounts[i].account_id] != [] then Some(tokens[accounts[i].account_id]) else None)
  {
    seq(|accounts|, i requires 0 <= i < |accounts| =>
      var id := accounts[i].account_id;
      ChromeAccount(accounts[i], if id in tokens && tokens[id] != [] then Some(tokens[id]) else None))
  }

  function AccountIds(accounts: seq<AccountInfo>): set<Bytes> {
    set i | 0 <= i < |accounts| :: accounts[i].account_id
  }

  /** What row `i` adds to the map and to the warnings. */
  lemma RowStep(rows: seq<TokenRow>, i: nat, ids: set<Bytes>, key: Bytes, aes: Cipher)
    requires i < |rows|
    ensures var o := ProcessRow(rows[i], ids, key, aes);
      var m := Collect(rows[..i], ids, key, aes);
      var w := Skips(rows[..i], ids, key, aes);
      Collect(rows[..i + 1], ids, key, aes) == (if o.Decrypted? then m[o.id := o.token] else m) &&
      Skips(rows[..i + 1], ids, key, aes) == (if o.Skipped? then w + [o.reason] else w)
  {
    assert rows[..i + 1][..i] == rows[..i];
  }

  /** `GetGoogleChromeAccounts` from the point where the rows have been read. */
  method GetChromeAccounts(rows: Option<seq<TokenRow>>, masterKey: Option<Bytes>, accounts: seq<AccountInfo>,
                           pbkdf2: Pbkdf2, aes: Cipher)
    returns (r: Outcome, warnings: seq<Skip>)
    ensures rows.None? ==> r == DatabaseUnreadable && warnings == []
    ensures rows.Some? && (masterKey.None? || masterKey.value == []) ==> r == MissingMasterKey && warnings == []
    ensures rows.Some? && masterKey.Some? && masterKey.value != [] ==>
      var key := pbkdf2(masterKey.value, SALT, ITERATIONS, KEY_LENGTH);
      r == Accounts(JoinTokens(accounts, Collect(rows.value, AccountIds(accounts), key, aes))) &&
      warnings == Skips(rows.value, AccountIds(accounts), key, aes)
  {
    warnings := [];
    if rows.None? {
      return DatabaseUnreadable, warnings;
    }
    if masterKey.None? || masterKey.value == [] {
      return MissingMasterKey, warnings;
    }
    var key := pbkdf2(masterKey.value, SALT, ITERATIONS, KEY_LENGTH);

    var iv: Bytes := [];
    for i := 0 to 16
      invariant iv == seq(i, _ => ' ' as int)
    {
      iv := iv + [' ' as int];
    }

    var accountIds: set<Bytes> := {};
    for i := 0 to |accounts|
      invariant accountIds == set j | 0 <= j < i :: accounts[j].account_id
    {
      accountIds := accountIds + {accounts[i].account_id};
    }

    var all := rows.value;
    var refreshTokens: map<Bytes, Bytes> := map[];
    for i := 0 to |all|
      invariant refreshTokens == Collect(all[..i], accountIds, key, aes)
      invariant warnings == Skips(all[..i], accountIds, key, aes)
    {
      var row := all[i];
      RowStep(all, i, accountIds, key, aes);
      var aid := ServiceId(row.service);
      if aid.None? {
        warnings := warnings + [UnknownAccountKey(row.service)];
        continue;
      }
      if aid.value !in accountIds {
        warnings := warnings + [UnknownAccountId(aid.value)];
        continue;
      }
      var n := if |row.encrypted_token| < |VERSION_PREFIX| then |row.encrypted_token| else |VERSION_PREFIX|;
      if row.encrypted_token[..n] != VERSION_PREFIX {
        warnings := warnings + [UnknownEncryptionVersion];
        continue;
      }
      var dec := aes(key, iv, row.encrypted_token[|VERSION_PREFIX|..]);
      if dec.None? {
        warnings := warnings + [DecryptionFailed];
        continue;
      }
      refreshTokens := refreshTokens[aid.value := dec.value];
    }
    assert all[..|all|] == all;
    r := Accounts(JoinTokens(accounts, refreshTokens));
  }

  /** The map holds an id exactly when some row decrypted for it. */
  lemma {:induction false} CollectHas(rows: seq<TokenRow>, ids: set<Bytes>, key: Bytes, aes: Cipher, id: Bytes)
    ensures id in Collect(rows, ids, key, aes) <==> exists i :: 0 <= i < |rows| && DecryptsFor(rows[i], ids, key, aes, id)
    decreases |rows|
  {
    if rows != [] {
      var init := rows[..|rows| - 1];
      var last := rows[|rows| - 1];
      CollectHas(init, ids, key, aes, id);
      var m0 := Collect(init, ids, key, aes);
      var o := ProcessRow(last, ids, key, aes);
      assert Collect(rows, ids, key, aes) == if o.Decrypted? then m0[o.id := o.token] else m0;
      if id in Collect(rows, ids, key, aes) {
        if DecryptsFor(last, ids, key, aes, id) {
          assert DecryptsFor(rows[|rows| - 1], ids, key, aes, id);
        } else {
          var i :| 0 <= i < |init| && DecryptsFor(init[i], ids, key, aes, id);
          assert init[i] == rows[i];
        }
      } else {
        assert !DecryptsFor(last, ids, key, aes, id);
        forall i | 0 <= i < |rows| ensures !DecryptsFor(rows[i], ids, key, aes, id) {
          if i < |init| {
            assert init[i] == rows[i];
          } else {
            assert rows[i] == last;
          }
        }
      }
    }
  }

  /** Last wins: the token held for an id is that of the last row that decrypted for it. */
  lemma {:induction false} CollectLastWins(rows: seq<TokenRow>, ids: set<Bytes>, key: Bytes, aes: Cipher, id: Bytes, i: nat)
    requires i < |rows| && DecryptsFor(rows[i], ids, key, aes, id)
    requires forall j :: i < j < |rows| ==> !DecryptsFor(rows[j], ids, key, aes, id)
    ensures id in Collect(rows, ids, key, aes)
    ensures Collect(rows, ids, key, aes)[id] == ProcessRow(rows[i], ids, key, aes).token
    decreases |rows|
  {
    if i < |rows| - 1 {
      var init := rows[..|rows| - 1];
      assert init[i] == rows[i];
      assert !DecryptsFor(rows[|rows| - 1], ids, key, aes, id);
      CollectLastWins(init, ids, key, aes, id, i);
    }
  }

  /** Row `row` decrypts and its service names `id`. */
  predicate DecryptsFor(row: TokenRow, ids: set<Bytes>, key: Bytes, aes: Cipher, id: Bytes) {
    var o := ProcessRow(row, ids, key, aes);
    o.Decrypted? && o.id == id
  }

  /** A skipped row, wherever it stands, changes nothing in the map: failures are isolated to their row. */
  lemma {:induction false} SkippedRowIrrelevant(before: seq<TokenRow>, row: TokenRow, after: seq<TokenRow>,
                                                ids: set<Bytes>, key: Bytes, aes: Cipher)
    requires ProcessRow(row, ids, key, aes).Skipped?
    ensures Collect(before + [row] + after, ids, key, aes) == Collect(before + after, ids, key, aes)
    decreases |after|
  {
    if after == [] {
      CollectSnoc(before, row, ids, key, aes);
      assert before + [row] + after == before + [row];
      assert before + after == before;
    } else {
      var last := after[|after| - 1];
      var init := after[..|after| - 1];
      SkippedRowIrrelevant(before, row, init, ids, key, aes);
      assert before + [row] + after == (before + [row] + init) + [last];
      assert before + after == (before + init) + [last];
      CollectSnoc(before + [row] + init, last, ids, key, aes);
      CollectSnoc(before + init, last, ids, key, aes);
    }
  }

  /** What one more row does to the map. */
  lemma CollectSnoc(rows: seq<TokenRow>, row: TokenRow, ids: set<Bytes>, key: Bytes, aes: Cipher)
    ensures var m := Collect(rows, ids, key, aes);
      var o := ProcessRow(row, ids, key, aes);
      Collect(rows + [row], ids, key, aes) == (if o.Decrypted? then m[o.id := o.token] else m)
  {
    assert (rows + [row])[..|rows|] == rows;
  }

  /** The failure-then-success case: a first row for an id that fails to decrypt and a second that succeeds leave the second's token. */
  lemma FailedThenDecrypted(first: TokenRow, second: TokenRow, ids: set<Bytes>, key: Bytes, aes: Cipher)
    requires ProcessRow(first, ids, key, aes) == Skipped(DecryptionFailed)
    requires ProcessRow(second, ids, key, aes).Decrypted?
    ensures var o := ProcessRow(second, ids, key, aes);
      Collect([first, second], ids, key, aes) == map[o.id := o.token]
  {
    SkippedRowIrrelevant([], first, [second], ids, key, aes);
    assert [] + [first] + [second] == [first, second];
    assert [] + [second] == [second];
    assert [second][..0] == [];
  }
}
