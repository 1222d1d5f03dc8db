/**
 * The Backup and Sync token blob: `GoogleDriveOAuth2Token` with its
 * `FromBlob`/`ToBlob` serialisation, the `encodeList`/`decodeList` framing
 * it is built on, and the `valid()` plausibility check.
 */
module OAuth2Token {
  import opened Wrappers
  import opened Bytes
  import Base64
  import opened TokenPatterns

  /** A token as `FromBlob` fills it in; each text field is held as its UTF-8 bytes. */
  datatype Token = Token(refresh_token: Bytes, client_id: Bytes, client_secret: Bytes, scopes: seq<Bytes>)

  /** The two errors `FromBlob` throws. */
  datatype BlobError = MissingPrefix | Incomplete

  /** `BLOB_PREFIX`. */
  const BLOB_PREFIX: Bytes := Ascii("2G")

  /** `encodeList`: each element base64-encoded, the results joined with `|`. */
  function EncodeList(list: seq<Bytes>): (r: Bytes)
    ensures Count(r, PIPE) == if list == [] then 0 else |list| - 1
  {
    var pieces := EncodedPieces(list);
    if list == [] then []
    else JoinCount(pieces, PIPE); Join(pieces, PIPE)
  }

  /** The base64 encoding of each element; none of them holds a `|`. */
  function EncodedPieces(list: seq<Bytes>): (r: seq<Bytes>)
    ensures |r| == |list|
    ensures forall i :: 0 <= i < |r| ==> PIPE !in r[i]
  {
    seq(|list|, i requires 0 <= i < |list| => Base64.Encode(list[i]))
  }

  /** `decodeList`: split on `|`, each piece base64-decoded. Never empty, as `split` never is. */
  function DecodeList(blob: Bytes): (r: seq<Bytes>)
    ensures |r| == Count(blob, PIPE) + 1
  {
    var pieces := Split(blob, PIPE);
    seq(|pieces|, i requires 0 <= i < |pieces| => Base64.Decode(pieces[i]))
  }

  /** The list framing round-trips every non-empty list. */
  lemma DecodeEncodeList(list: seq<Bytes>)
    requires list != []
    ensures DecodeList(EncodeList(list)) == list
  {
    var pieces := EncodedPieces(list);
    SplitJoin(pieces, PIPE);
    forall i | 0 <= i < |list| ensures DecodeList(EncodeList(list))[i] == list[i] {
      Base64.RoundTrip(list[i]);
    }
  }

  /** The empty list encodes to the empty string, which decodes to one empty element. */
  lemma DecodeEncodeEmptyList()
    ensures EncodeList([]) == []
    ensures DecodeList(EncodeList([])) == [[]]
  {
    assert Split([], PIPE) == [[]];
  }

  /** `GoogleDriveOAuth2Token.FromBlob`. */
  function FromBlob(blob: Bytes): (r: Result<Token, BlobError>)
    ensures r == Err(MissingPrefix) <==> !StartsWith(blob, BLOB_PREFIX)
    ensures r == Err(Incomplete) <==> StartsWith(blob, BLOB_PREFIX) && Count(blob[|BLOB_PREFIX|..], PIPE) != 3
    ensures r.Ok? ==> |r.value.scopes| >= 1
  {
    if !StartsWith(blob, BLOB_PREFIX) then Err(MissingPrefix)
    else
      var parts := DecodeList(blob[|BLOB_PREFIX|..]);
      if |parts| != 4 then Err(Incomplete)
      else Ok(Token(parts[0], parts[1], parts[2], DecodeList(parts[3])))
  }

  /** `ToBlob`: the prefix, then the list framing of the three fields and the framed scopes. */
  function ToBlob(t: Token): (r: Bytes)
    ensures StartsWith(r, BLOB_PREFIX)
    ensures Count(r[|BLOB_PREFIX|..], PIPE) == 3
  {
    var body := EncodeList([t.refresh_token, t.client_id, t.client_secret, EncodeList(t.scopes)]);
    assert (BLOB_PREFIX + body)[|BLOB_PREFIX|..] == body;
    BLOB_PREFIX + body
  }

  /** The prefix holds no `|`, so a blob holds exactly three. */
  lemma ToBlobSeparators(t: Token)
    ensures Count(ToBlob(t), PIPE) == 3
  {
    var r := ToBlob(t);
    assert r == BLOB_PREFIX + r[|BLOB_PREFIX|..];
    CountAppend(BLOB_PREFIX, r[|BLOB_PREFIX|..], PIPE);
  }

  /** `FromBlob(ToBlob(t))` gives back every field of a token with at least one scope. */
  lemma BlobRoundTrip(t: Token)
    requires t.scopes != []
    ensures FromBlob(ToBlob(t)) == Ok(t)
  {
    var fields := [t.refresh_token, t.client_id, t.client_secret, EncodeList(t.scopes)];
    var blob := ToBlob(t);
    assert blob[|BLOB_PREFIX|..] == EncodeList(fields);
    DecodeEncodeList(fields);
    DecodeEncodeList(t.scopes);
  }

  /** A token with no scopes comes back with the one empty scope `[""]`. */
  lemma BlobRoundTripNoScopes(t: Token)
    requires t.scopes == []
    ensures FromBlob(ToBlob(t)) == Ok(t.(scopes := [[]]))
  {
    var fields := [t.refresh_token, t.client_id, t.client_secret, EncodeList(t.scopes)];
    var blob := ToBlob(t);
    assert blob[|BLOB_PREFIX|..] == EncodeList(fields);
    DecodeEncodeList(fields);
    DecodeEncodeEmptyList();
  }

  /** The prefix of a refresh token: `1/`. */
  const REFRESH_PREFIX: Bytes := Ascii("1/")

  /** The four checks of `valid()`, each on its own field. */
  predicate RefreshTokenValid(t: Token) {
    StartsWith(t.refresh_token, REFRESH_PREFIX) && JsLength(t.refresh_token) == 45
  }

  predicate ClientIdValid(t: Token) {
    MatchesClientId(t.client_id)
  }

  predicate ClientSecretValid(t: Token) {
    JsLength(t.client_secret) == 24
  }

  predicate ScopesValid(t: Token) {
    forall s :: s in t.scopes ==> MatchesUrl(s)
  }

  /** What `valid()` answers: the conjunction of the four checks. */
  predicate IsValid(t: Token) {
    RefreshTokenValid(t) && ClientIdValid(t) && ClientSecretValid(t) && ScopesValid(t)
  }

  /**
   * `valid()`: the field checks, then a scan of the scopes that stops at
   * the first one the URL pattern rejects.
   */
  method Valid(t: Token) returns (ok: bool)
    ensures ok <==> IsValid(t)
  {
    var refreshValid := StartsWith(t.refresh_token, REFRESH_PREFIX) && JsLength(t.refresh_token) == 45;
    var idValid := MatchesClientId(t.client_id);
    var secretValid := JsLength(t.client_secret) == 24;
    var scopesValid := true;
    var i := 0;
    while i < |t.scopes|
      invariant 0 <= i <= |t.scopes|
      invariant scopesValid
      invariant forall j :: 0 <= j < i ==> MatchesUrl(t.scopes[j])
    {
      if !MatchesUrl(t.scopes[i]) {
        scopesValid := false;
        break;
      }
      i := i + 1;
    }
    ok := refreshValid && idValid && secretValid && scopesValid;
  }

  predicate AllAscii(s: Bytes) {
    forall i :: 0 <= i < |s| ==> s[i] < 0x80
  }

  /** The sample client id of a plausible token, `abc123.apps.googleusercontent.com`. */
  const EXAMPLE_CLIENT_ID: Bytes := Ascii("abc123") + ID_SUFFIX
  /** The Drive scope, `https://www.googleapis.com/auth/drive`. */
  const DRIVE_SCOPE: Bytes := Ascii("https://") + Ascii("www.googleapis.com") + Ascii("/auth") + Ascii("/drive")

  /** The client id of the plausible token below matches the client-id pattern. */
  lemma ExampleClientId()
    ensures MatchesClientId(EXAMPLE_CLIENT_ID)
  {
    EqualsIgnoreCaseReflexive(ID_SUFFIX);
    ClientIdShape(Ascii("abc123"), ID_SUFFIX);
  }

  /** The Drive scope read as scheme, host and two path segments. */
  lemma DriveScopeParts()
    ensures DRIVE_SCOPE == Ascii("https://") + Ascii("www.googleapis.com") + [] + JoinSegments([Ascii("auth"), Ascii("drive")]) + []
  {
    var segs := [Ascii("auth"), Ascii("drive")];
    assert JoinSegments(segs) == [SLASH] + segs[0] + ([SLASH] + segs[1] + []) by {
      assert JoinSegments(segs[1..][1..]) == [];
    }
    AsciiAppend("/", "auth");
    AsciiAppend("/", "drive");
    assert Ascii("/") == [SLASH];
  }

  /** The pieces of the Drive scope each match their part of the URL pattern. */
  lemma DriveScopeRuns()
    ensures IsUrlRun(Ascii("www.googleapis.com")) && IsUrlRun(Ascii("auth")) && IsUrlRun(Ascii("drive"))
    ensures EqualsIgnoreCase(Ascii("https://"), Ascii("https://"))
  {
  }

  /** The Drive scope matches the URL pattern. */
  lemma ExampleScope(scope: Bytes)
    requires scope == DRIVE_SCOPE
    ensures MatchesUrl(scope)
  {
    DriveScopeParts();
    DriveScopeRuns();
    UrlShape(Ascii("https://"), Ascii("www.googleapis.com"), [], [Ascii("auth"), Ascii("drive")], []);
  }

  /**
   * A plausible token: a 45-character refresh token starting `1/`, the
   * client id `abc123.apps.googleusercontent.com`, a 24-character secret
   * and the Drive scope.
   */
  lemma ValidExample(rest: Bytes, secret: Bytes)
    requires |rest| == 43 && AllAscii(rest)
    requires |secret| == 24 && AllAscii(secret)
    ensures IsValid(Token(REFRESH_PREFIX + rest, EXAMPLE_CLIENT_ID, secret, [DRIVE_SCOPE]))
  {
    var refresh := REFRESH_PREFIX + rest;
    assert AllAscii(refresh) by {
      forall i | 0 <= i < |refresh| ensures refresh[i] < 0x80 {
        if i >= 2 { assert refresh[i] == rest[i - 2]; }
      }
    }
    assert refresh[..|REFRESH_PREFIX|] == REFRESH_PREFIX;
    ExampleClientId();
    ExampleScope(DRIVE_SCOPE);
  }

  /** A refresh token one character short or long fails the check. */
  lemma RefreshLengthMatters(t: Token)
    requires AllAscii(t.refresh_token)
    requires |t.refresh_token| == 44 || |t.refresh_token| == 46
    ensures !IsValid(t)
  {
  }
}
