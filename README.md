# google-keychain credential decoders in Dafny

This project models the decoding core of google-keychain. That core recovers OAuth credentials that Google's desktop software already keeps on a Mac. It covers five pieces:

- **Token blob** (`oauth2_token.dfy`, `base64.dfy`). This is the `GoogleDriveOAuth2Token` secret that Backup and Sync stores in the keychain.
  - `FromBlob`: the `2G` prefix, then `|`-separated base64 fields, with the scopes framed the same way inside the fourth field.
  - `ToBlob`: the inverse.
  - `valid()`: the plausibility check. It asks for a 45-character `1/` refresh token, a `*.apps.googleusercontent.com` client id, a 24-character secret and URL-shaped scopes. Its two regular expressions are recognisers in `token_patterns.dfy`.
- **Drive credentials** (`drive_credentials.dfy`). `GetGoogleDriveCredentials` turns the keyring entries of the `Google Drive` service into one credential per e-mail:
  - entries are grouped by the account label `email` or `email - machine`;
  - the last token that decodes wins, and the last machine id wins;
  - one warning is logged per skipped entry, per blob that fails to decode, per unknown suffix and per token that fails `valid()`.
- **Chrome accounts** (`chrome_accounts.dfy`). `GetGoogleChromeAccounts` reads rows of Chrome's `token_service` table:
  - rows are filtered by service name `AccountId-<digits>`, by known account id and by the `v10` version prefix;
  - the rest is decrypted with a PBKDF2-derived AES key and a 16-space IV;
  - tokens are collected last-wins and joined onto the account list, with an empty token becoming `null`.
- **Chrome client configuration** (`client_config.dfy`). `GetGoogleChromeClientConfig` works on the Chrome framework binary:
  - it scans the binary in 512-byte blocks for `dummytoken`;
  - it reads a 1024-byte window from the match;
  - it splits the window into NUL-terminated strings;
  - it pairs every known `GOOGLE_*` variable name with the string stored just before it;
  - it fails when no token is found, and when the pairing throws.
- **User agent** (`user_agent.dfy`). `GetGoogleDriveUserAgent` builds the User-Agent string.

Strings that the source passes through `Buffer` (blobs, base64 fields, table strings, decrypted tokens) are modelled as their UTF-8 bytes. JavaScript's `length` of such a string is `JsLength`, which counts UTF-16 code units. Keyring account labels are Dafny strings. The `Wrappers` module holds `Option` and `Result`, and `Bytes` holds the byte-string helpers: `split`, `join`, counting and case folding.

The looping code of the source is written as methods, and each method is proved against a specification function:
- `Valid` and `IsValid`;
- `GetDriveCredentials` and `Grouping`/`Warnings`;
- `GetChromeAccounts` and `Collect`/`Skips`/`JoinTokens`;
- `FindStringsPos` and `ScanFile`;
- `ReadTableString`/`ReadAllStrings` and `TableStrings`;
- `Interpret` and `Interpretation`.

The lemmas then state what those functions promise.

Some behaviour of the code is easy to misread. The model keeps it as written:
- **Pairing example.** With the strings `DUMMY v1 GOOGLE_API_KEY secret1 GOOGLE_DEFAULT_CLIENT_ID`, the code sets the default client id to `secret1`, because the string before that key is a value; it is not left unset. See `ClientConfig.ValueBeforeKeyExample`.
- **Inherited names are keys.** `VAR_MAP` is an object literal, so `VAR_MAP[s]` is also truthy for the twelve names every object inherits from `Object.prototype`. All of them count as keys for `lastWasKey`. When one follows a value, the loop reads the inherited member's `length` as a path length, and each of `p[0]` and `p[1]` is `undefined`:
  - `constructor`, `hasOwnProperty`, `isPrototypeOf`, `propertyIsEnumerable`, `__lookupGetter__` and `__lookupSetter__` take one parameter. The value is stored in a stray property named `undefined` (`Config.stray`), and no declared field changes. See `ClientConfig.ConstructorStoresStray`.
  - `__defineGetter__` and `__defineSetter__` take two. The write goes through `cfg.undefined`, which is absent or a string, so the call throws a `TypeError` and returns no configuration. See `ClientConfig.SetterAfterValueThrows`.
  - `toString`, `toLocaleString`, `valueOf` and `__proto__` have another `length`, so nothing is written.
  - Writing a property of a string throws only in strict mode. The model assumes strict mode, which TypeScript emits for a file with `import` statements. In sloppy mode, a two-parameter name after an earlier one-parameter write would be ignored instead.
- **Where the window starts.** The 1024-byte window is read from the start of the match (`strings_pos`), not from after it. This is why the pairing loop skips the first string.
- **The scan does not stop at the first match.** The `break` leaves only the loop over the current block. The scan goes on with the next block, and a later match replaces the recorded position.
- **The mismatching byte is not retested.** The byte that breaks a partial match is never compared with `d` again, so `ddummytoken` is not found.
- **Round trip needs a scope.** The blob round trip holds for tokens with at least one scope. An empty scope list comes back as the one empty scope `[""]`, because splitting the empty string yields one piece.

## Model

| member | source | states |
|---|---|---|
| Base64.Encode | src/google_drive/oauth2_token.ts:71 | standard base64 output has 4 characters per started 3-byte group, and never contains `\|` |
| Base64.RoundTrip | src/google_drive/oauth2_token.ts:71-75 | decoding the base64 encoding of any bytes gives them back |
| Base64.DecodeEncodeUnpadded | src/google_drive/oauth2_token.ts:71-75 | the group-by-group decoder inverts the unpadded encoder |
| Base64.GroupValues | src/google_drive/oauth2_token.ts:71-75 | the four characters of a group decode back to its three bytes |
| Base64.DecodeGroup | src/google_drive/oauth2_token.ts:71-75 | a whole group at the front decodes to its bytes, and decoding continues after it |
| Base64.Decode | src/google_drive/oauth2_token.ts:75 | `Buffer.from(s, 'base64')`: padding stripped, then each group of four characters decoded to three bytes and a short last group to fewer |
| Base64.StripEncode | src/google_drive/oauth2_token.ts:75 | dropping the `=` padding of an encoding leaves the unpadded encoding |
| Bytes.Join | src/google_drive/oauth2_token.ts:71 | `parts.join(sep)`: the parts with one separator between consecutive ones |
| Bytes.Count | src/google_drive/oauth2_token.ts:23-26 | the number of separators, which decides how many pieces `split` yields; it is 0 exactly when the separator does not occur |
| Bytes.StartsWith | src/google_drive/oauth2_token.ts:17 | `s.startsWith(p)`: `p` is a prefix of `s` |
| Bytes.Split | src/google_drive/oauth2_token.ts:75 | `split('\|')` yields separator-free pieces, one more than the separators, that join back to the input |
| Bytes.SplitJoin | src/google_drive/oauth2_token.ts:71-75 | splitting what was joined from separator-free parts gives the parts back |
| Bytes.JoinCount | src/google_drive/oauth2_token.ts:71 | joining n separator-free parts places n-1 separators |
| Bytes.JsLength | src/google_drive/oauth2_token.ts:48-54 | the UTF-16 length is at most twice the byte length and equals it for ASCII |
| OAuth2Token.EncodeList | src/google_drive/oauth2_token.ts:70-72 | `encodeList` places one `\|` between consecutive elements and none in an empty list |
| OAuth2Token.DecodeList | src/google_drive/oauth2_token.ts:74-76 | `decodeList` yields one element per `\|` plus one |
| OAuth2Token.DecodeEncodeList | src/google_drive/oauth2_token.ts:70-76 | the list framing round-trips every non-empty list |
| OAuth2Token.DecodeEncodeEmptyList | src/google_drive/oauth2_token.ts:70-76 | the empty list encodes to the empty string, which decodes to one empty element |
| OAuth2Token.FromBlob | src/google_drive/oauth2_token.ts:16-35 | fails with the missing-prefix error exactly when the blob lacks `2G`, and with the incomplete error exactly when the rest does not hold three `\|`; a decoded token has at least one scope |
| OAuth2Token.ToBlob | src/google_drive/oauth2_token.ts:37-41 | a blob starts with `2G` and holds exactly three `\|` after it |
| OAuth2Token.ToBlobSeparators | src/google_drive/oauth2_token.ts:37-41 | the prefix holds no `\|`, so a whole blob holds three |
| OAuth2Token.BlobRoundTrip | src/google_drive/oauth2_token.ts:16-41 | `FromBlob(ToBlob(t))` gives back every field of a token with at least one scope |
| OAuth2Token.BlobRoundTripNoScopes | src/google_drive/oauth2_token.ts:32-40 | a token without scopes comes back with the scopes `[""]` |
| OAuth2Token.IsValid | src/google_drive/oauth2_token.ts:46-67 | `valid()`: the refresh token, client id, secret and every scope pass their checks |
| OAuth2Token.Valid | src/google_drive/oauth2_token.ts:46-67 | `valid()` answers true exactly when the refresh token, client id, secret and every scope pass their checks |
| OAuth2Token.ExampleClientId | src/google_drive/oauth2_token.ts:51-52 | `abc123.apps.googleusercontent.com` matches the client-id pattern |
| OAuth2Token.ExampleScope | src/google_drive/oauth2_token.ts:57-63 | `https://www.googleapis.com/auth/drive` matches the scope pattern |
| OAuth2Token.DriveScopeParts | src/google_drive/oauth2_token.ts:57 | the Drive scope splits into scheme, host and the segments `auth` and `drive` |
| OAuth2Token.DriveScopeRuns | src/google_drive/oauth2_token.ts:57 | the host and the segments of the Drive scope are runs of pattern characters, and the scheme matches `https://` |
| OAuth2Token.ValidExample | src/google_drive/oauth2_token.ts:46-67 | a `1/` refresh token of 45 characters, that client id, a 24-character secret and the Drive scope make a valid token |
| OAuth2Token.RefreshLengthMatters | src/google_drive/oauth2_token.ts:48 | a refresh token of 44 or 46 characters makes the token invalid |
| TokenPatterns.MatchesClientId | src/google_drive/oauth2_token.ts:51 | the client-id expression: one or more `[a-z0-9-]` bytes, then `.apps.googleusercontent.com` in any letter case, and nothing else |
| TokenPatterns.MatchesUrl | src/google_drive/oauth2_token.ts:57 | the scope expression: scheme or `/`, a greedy host, then the optional port and the path tail |
| TokenPatterns.ClientIdShape | src/google_drive/oauth2_token.ts:51 | one or more `[a-z0-9-]` characters followed by the suffix in any letter case match the client-id pattern |
| TokenPatterns.UrlRun | src/google_drive/oauth2_token.ts:57 | the run of URL characters is maximal: all its bytes qualify and the next does not |
| TokenPatterns.DigitRun | src/google_drive/oauth2_token.ts:57 | the port's digit run is maximal |
| TokenPatterns.SchemeLength | src/google_drive/oauth2_token.ts:57 | the scheme consumed never exceeds the input |
| TokenPatterns.UrlShape | src/google_drive/oauth2_token.ts:57 | completeness: scheme or `/`, host, optional `:digits`, `/`-segments and an optional trailing `/` always match |
| TokenPatterns.PathTailOf | src/google_drive/oauth2_token.ts:57 | any sequence of `/`-segments with an optional trailing `/` is a valid path tail |
| TokenPatterns.AfterScheme | src/google_drive/oauth2_token.ts:57 | host, port and path after a recognised scheme make a match |
| TokenPatterns.PortThenPath | src/google_drive/oauth2_token.ts:57 | an optional port followed by a path tail is accepted after the host |
| TokenPatterns.SchemeOf | src/google_drive/oauth2_token.ts:57 | `https://`, `http://` (any case) or `/` before a URL character is read as the scheme |
| TokenPatterns.UrlRunOf | src/google_drive/oauth2_token.ts:57 | a run of URL characters ended by another byte is measured exactly |
| TokenPatterns.DigitRunOf | src/google_drive/oauth2_token.ts:57 | a run of digits ended by a non-digit is measured exactly |
| TokenPatterns.UrlStart | src/google_drive/oauth2_token.ts:57 | soundness: a matching scope starts with `http://`, `https://` (any case) or `/` |
| TokenPatterns.PathTailBytes | src/google_drive/oauth2_token.ts:57 | soundness: a path tail holds only URL characters and `/` |
| TokenPatterns.UrlSound | src/google_drive/oauth2_token.ts:57 | soundness: every accepted string is a scheme or `/`, a non-empty host, an optional `:digits` port, non-empty `/`-segments and an optional trailing `/`, in that order |
| TokenPatterns.UrlSplit | src/google_drive/oauth2_token.ts:57 | the parts read off an accepted string meet those conditions and concatenate to it |
| TokenPatterns.SchemeSound | src/google_drive/oauth2_token.ts:57 | the scheme read is `https://` or `http://` in any letter case, or `/` |
| TokenPatterns.HostSplit | src/google_drive/oauth2_token.ts:57 | after the scheme, the greedy host is a non-empty run of URL bytes followed by the port and the path |
| TokenPatterns.AfterHostSplit | src/google_drive/oauth2_token.ts:57 | after the host, an accepted rest is an optional numeric port, non-empty segments and an optional trailing slash |
| TokenPatterns.PortSplit | src/google_drive/oauth2_token.ts:57 | the optional port is `:` and one or more digits, and a path tail follows it |
| TokenPatterns.PathTailSplit | src/google_drive/oauth2_token.ts:57 | an accepted path tail is a sequence of non-empty segments followed by nothing or one slash |
| TokenPatterns.PathTailHead | src/google_drive/oauth2_token.ts:57 | a path tail with a segment is a slash, a non-empty segment and a shorter path tail |
| TokenPatterns.PathTailStart | src/google_drive/oauth2_token.ts:57 | a path tail is empty or starts with a slash |
| TokenPatterns.UrlBytes | src/google_drive/oauth2_token.ts:57 | soundness: after the scheme a matching scope holds only URL characters, `:` and `/` |
| UserAgent.BitFlavor | src/google_drive/user_agent.ts:20-26 | `32-bit` exactly on `ia32`, `64-bit` otherwise |
| UserAgent.ClientAgent | src/google_drive/user_agent.ts:40-42 | the API client agent with version 1.6.5 for API use, the gdata agent otherwise |
| UserAgent.GetUserAgent | src/google_drive/user_agent.ts:36-46 | the agent: release and bit flavour, then the client agent, then the OS version in parentheses |
| UserAgent.UserAgentStart | src/google_drive/user_agent.ts:45 | the agent opens with `googledrivesync-3.43.1584.4446 (`, no `-beta`, then the bit flavour |
| UserAgent.HeadShape | src/google_drive/user_agent.ts:45 | the part before the client agent is the release, no `-beta`, and the bit flavour in parentheses |
| UserAgent.UserAgentEnd | src/google_drive/user_agent.ts:38-45 | the agent ends with the OS version `Darwin/10.14.1` in parentheses, the notification method being empty |
| UserAgent.TailShape | src/google_drive/user_agent.ts:38-45 | the part after the client agent is a space, then the OS version in parentheses |
| UserAgent.VariantsDiffer | src/google_drive/user_agent.ts:40-45 | the API and handshake agents differ only in the client-agent segment |
| DriveCredentials.ParseLabel | src/drive/index.ts:26 | the account expression: a space-free e-mail, optionally followed by spaces, `-`, spaces and a space-free suffix, each run read greedily |
| DriveCredentials.WordRun | src/drive/index.ts:26 | the leading run of non-space characters is maximal |
| DriveCredentials.SpaceRun | src/drive/index.ts:26 | the leading run of whitespace is maximal |
| DriveCredentials.ParseSuffix | src/drive/index.ts:26 | the optional suffix group, when it matches, yields a non-empty space-free word that ends the text |
| DriveCredentials.ParseLabelSound | src/drive/index.ts:26-32 | a parsed label has a non-empty space-free e-mail that starts the account name; without a suffix the name is just the e-mail; a suffix is a non-empty space-free word that ends the name, and the name is the e-mail, non-empty spaces, `-`, non-empty spaces and the suffix |
| DriveCredentials.SuffixGaps | src/drive/index.ts:26 | the suffix group read back: a non-empty run of spaces, `-`, a non-empty run of spaces, then the suffix |
| DriveCredentials.ParsePlain | src/drive/index.ts:26 | every non-empty space-free name parses as an e-mail without suffix |
| DriveCredentials.ParseSuffixed | src/drive/index.ts:26 | every `email<spaces>-<spaces>suffix` parses into that e-mail and suffix |
| DriveCredentials.SuffixPart | src/drive/index.ts:26 | spaces, `-`, spaces and a space-free word after the e-mail are read as the suffix part |
| DriveCredentials.WordRunOf | src/drive/index.ts:26 | a space-free word ended by whitespace is measured exactly |
| DriveCredentials.SpaceRunOf | src/drive/index.ts:26 | whitespace ended by another character is measured exactly |
| DriveCredentials.Emails | src/drive/index.ts:41-50 | the distinct e-mails of the entries with a readable label, in order of first appearance |
| DriveCredentials.LastToken | src/drive/index.ts:54-68 | the token of the last unsuffixed entry for the e-mail whose blob decodes |
| DriveCredentials.LastMachineId | src/drive/index.ts:70-72 | the password of the last `- machine` entry for the e-mail |
| DriveCredentials.Apply | src/drive/index.ts:52-75 | what one entry does to the credential of its e-mail: a decoding blob replaces the token, `- machine` sets the machine id, anything else changes nothing |
| DriveCredentials.EntryWarnings | src/drive/index.ts:31-75 | what one entry logs: an unknown account name, a blob that fails to decode, a token that fails `valid()`, or an unsupported suffix |
| DriveCredentials.Warnings | src/drive/index.ts:31-76 | the warnings of the entries, in order |
| DriveCredentials.Grouping | src/drive/index.ts:28-50 | one credential per e-mail, in order of first appearance |
| DriveCredentials.EmailsDistinct | src/drive/index.ts:41-50 | no e-mail gets two credentials |
| DriveCredentials.EmailsHas | src/drive/index.ts:32-50 | an e-mail gets a credential exactly when some entry's label names it |
| DriveCredentials.EmailsFrom | src/drive/index.ts:32-50 | every e-mail with a credential is named by some entry's label |
| DriveCredentials.EmailsOf | src/drive/index.ts:32-50 | every e-mail some entry's label names gets a credential |
| DriveCredentials.EmailsExtend | src/drive/index.ts:41-50 | one more entry keeps every e-mail already listed and lists the one its label names |
| DriveCredentials.EmailsGrow | src/drive/index.ts:41-50 | the e-mails seen after a prefix of the entries come first, in the same order |
| DriveCredentials.TokenIsLast | src/drive/index.ts:54-68 | the token is that of the last unsuffixed entry for the e-mail whose blob decodes |
| DriveCredentials.TokenNone | src/drive/index.ts:54-68 | the token stays `null` exactly when none of the e-mail's unsuffixed entries decodes |
| DriveCredentials.TokenSome | src/drive/index.ts:54-68 | one decoding unsuffixed entry is enough for a token |
| DriveCredentials.TokenFrom | src/drive/index.ts:54-68 | a token always comes from a decoding unsuffixed entry |
| DriveCredentials.MachineIdIsLast | src/drive/index.ts:70-72 | the machine id is the password of the last `- machine` entry |
| DriveCredentials.FailedBlobsKeepCredential | src/drive/index.ts:41-62 | the record is created before the blob is parsed, so an e-mail whose blobs all fail still gets a credential, with no token |
| DriveCredentials.Unseen | src/drive/index.ts:42-46 | an e-mail not yet named has neither machine id nor token |
| DriveCredentials.StepEmails | src/drive/index.ts:31-50 | one more entry adds its e-mail only when it is new |
| DriveCredentials.StepCredential | src/drive/index.ts:52-75 | one more entry changes a credential as `Apply` says |
| DriveCredentials.StepWarnings | src/drive/index.ts:31-75 | one more entry appends its own warnings |
| DriveCredentials.ApplyOther | src/drive/index.ts:52 | an entry for another e-mail leaves a credential alone |
| DriveCredentials.GroupingStepSeen | src/drive/index.ts:52-75 | an entry for a known e-mail updates that e-mail's credential in place |
| DriveCredentials.GroupingStepNew | src/drive/index.ts:41-50 | an entry for a new e-mail appends its credential |
| DriveCredentials.GroupingStepSkipped | src/drive/index.ts:32-36 | an entry whose label does not parse changes no credential |
| DriveCredentials.SkipStep | src/drive/index.ts:32-36 | an entry whose label does not parse adds no e-mail, changes no credential and warns only about its account name |
| DriveCredentials.NewIndex | src/drive/index.ts:41-49 | a new e-mail goes at the end of the list, and `credsIdx` points it at the new last record |
| DriveCredentials.NewRecord | src/drive/index.ts:41-50 | for a new e-mail, appending an empty record and then updating it gives the next grouping |
| DriveCredentials.SeenRecord | src/drive/index.ts:41-52 | for a known e-mail, `credsIdx` points at its record, and updating that record gives the next grouping |
| DriveCredentials.IndexesAppend | src/drive/index.ts:48-49 | registering a new e-mail in `credsIdx` keeps it pointing at the right credentials |
| DriveCredentials.UpdateCredential | src/drive/index.ts:54-75 | the token is replaced even when `valid()` fails, which only warns; a blob that fails to decode warns and changes nothing; `- machine` sets the machine id; other suffixes warn |
| DriveCredentials.FindOrCreate | src/drive/index.ts:41-52 | the record for the label's e-mail is found, or created empty at the end, and `credsIdx` stays in step with the e-mails |
| DriveCredentials.Absorb | src/drive/index.ts:38-75 | one loop iteration for a parsed label keeps the credentials, the index and the warnings in step with the specification |
| DriveCredentials.Step | src/drive/index.ts:31-75 | one loop iteration, including the `continue` for an unparsed label, takes the credentials, the index and the warnings from one prefix of the entries to the next |
| DriveCredentials.GetDriveCredentials | src/drive/index.ts:22-80 | the result lists, for each e-mail in order of first appearance, its last machine id and last decoding token; the warnings are each entry's, in order |
| ChromeAccounts.ServiceId | src/chrome/accounts.ts:15 | a recognised service is `AccountId-` followed by one or more digits, and the id is those digits |
| ChromeAccounts.ServiceIdMatches | src/chrome/accounts.ts:15 | every `AccountId-<digits>` service is recognised |
| ChromeAccounts.ProcessRow | src/chrome/accounts.ts:114-154 | a row yields a token exactly when its service is recognised, its id is a known account, it starts with `v10` and the bytes after it decrypt with the derived key and the space IV |
| ChromeAccounts.Collect | src/chrome/accounts.ts:112-155 | the token map holds known account ids only |
| ChromeAccounts.Skips | src/chrome/accounts.ts:114-155 | at most one warning per row |
| ChromeAccounts.JoinTokens | src/chrome/accounts.ts:159-164 | one record per account, in order, with its own info, and a token only when a non-empty one was collected for its id |
| ChromeAccounts.GetChromeAccounts | src/chrome/accounts.ts:65-164 | an unreadable database gives nothing, a missing keychain key fails, and otherwise the accounts with the last-wins tokens and a warning per skipped row |
| ChromeAccounts.RowStep | src/chrome/accounts.ts:114-155 | row `i` adds its decrypted token to the map, or its skip reason to the warnings |
| ChromeAccounts.CollectSnoc | src/chrome/accounts.ts:154 | one more row stores its decrypted token under its id, and a skipped row stores nothing |
| ChromeAccounts.CollectHas | src/chrome/accounts.ts:114-155 | an id has a token exactly when some row decrypted for it |
| ChromeAccounts.CollectLastWins | src/chrome/accounts.ts:154 | the token for an id is that of the last row that decrypted for it |
| ChromeAccounts.SkippedRowIrrelevant | src/chrome/accounts.ts:117-150 | a skipped row, wherever it stands, changes no token |
| ChromeAccounts.FailedThenDecrypted | src/chrome/accounts.ts:137-154 | a row that fails to decrypt followed by one that succeeds for the same id leaves the second's token |
| ClientConfig.NextBlock | src/chrome/client_config.ts:73-82 | after a match the scan goes on at the next 512-byte boundary |
| ClientConfig.StateAdvances | src/chrome/client_config.ts:69-70 | a byte equal to the expected character extends the matched prefix of `dummytoken` by one |
| ClientConfig.ScanSound | src/chrome/client_config.ts:64-83 | every position the scan records is an occurrence of `dummytoken` |
| ClientConfig.NotFoundWithoutToken | src/chrome/client_config.ts:86-88 | a binary without `dummytoken` yields no position, so the call fails |
| ClientConfig.ScanKeepsLater | src/chrome/client_config.ts:72-82 | the recorded position only moves forward |
| ClientConfig.Scan | src/chrome/client_config.ts:64-83 | the byte-at-a-time scan: a matching byte advances the state, any other resets it to 0 untested, and a complete token records its start and skips to the next block |
| ClientConfig.ScanFile | src/chrome/client_config.ts:58-84 | `strings_pos` after scanning the whole binary from state 0 and position -1 |
| ClientConfig.ScanReachesBlock | src/chrome/client_config.ts:64-83 | the scan passes every block boundary with a match state that still describes the bytes before it, and a position recorded before it |
| ClientConfig.SkipPlain | src/chrome/client_config.ts:69-79 | bytes other than `d` keep the match state at 0 |
| ClientConfig.FoundAfterPlainPrefix | src/chrome/client_config.ts:64-83 | a token after `d`-free bytes is found wherever it starts, also when it runs over a block boundary |
| ClientConfig.TokenSplitByBoundary | src/chrome/client_config.ts:64-83 | a token at offset 505, spanning the boundary at 512, is recorded |
| ClientConfig.LaterBlockOverwrites | src/chrome/client_config.ts:72-82 | a match in a later block replaces the recorded position |
| ClientConfig.TokenAt | src/chrome/client_config.ts:68-74 | from a reset state a complete token is recorded |
| ClientConfig.RepeatedFirstByteHidesToken | src/chrome/client_config.ts:76-79 | the byte that breaks a partial match is not retested, so `ddummytoken` is not found |
| ClientConfig.RestOfBlockSkipped | src/chrome/client_config.ts:73 | a second token in the same block as the first is not recorded |
| ClientConfig.FindStringsPos | src/chrome/client_config.ts:58-84 | the nested block loop computes the position the scan specifies |
| ClientConfig.Table | src/chrome/client_config.ts:91-92 | the table is 1024 bytes, and it is the binary's bytes from the match when that many remain |
| ClientConfig.FirstNul | src/chrome/client_config.ts:100-110 | the first NUL of the rest of the table |
| ClientConfig.FirstNulUnique | src/chrome/client_config.ts:105-107 | a NUL with none before it is the first NUL |
| ClientConfig.TableStringsStep | src/chrome/client_config.ts:97-114 | one string up to the first NUL, then the strings after it |
| ClientConfig.TableStrings | src/chrome/client_config.ts:117-126 | the strings read from the table never contain a NUL |
| ClientConfig.Terminated | src/chrome/client_config.ts:105-112 | writing strings back with their terminators gives at least one byte per string |
| ClientConfig.TableStringsCover | src/chrome/client_config.ts:97-126 | the strings with their terminators are a prefix of the table, and the rest of the table holds no NUL |
| ClientConfig.TableStringsRoundTrip | src/chrome/client_config.ts:97-126 | NUL-free strings written with terminators are read back unchanged |
| ClientConfig.ReadTableString | src/chrome/client_config.ts:97-114 | `readTableString` returns the bytes up to the next NUL and moves past it, or returns `null` and stays put when no NUL follows |
| ClientConfig.ReadStep | src/chrome/client_config.ts:112-113 | one string read leaves the strings of the rest of the table |
| ClientConfig.CollectStep | src/chrome/client_config.ts:117-126 | appending the string just read keeps the collected strings in front of the strings of the rest of the table |
| ClientConfig.ReadAllStrings | src/chrome/client_config.ts:117-126 | reading until `null` collects exactly the table's strings |
| ClientConfig.EmptyConfig | src/chrome/client_config.ts:130-138 | the initial configuration has the version, every field `null` and no property `undefined` |
| ClientConfig.WithClient | src/chrome/client_config.ts:152 | replacing one client leaves the version, the API key, the property `undefined` and the other clients alone |
| ClientConfig.Set | src/chrome/client_config.ts:151-152 | storing through a key path makes that property read back and leaves every other property and the version unchanged |
| ClientConfig.ConfigExtensional | src/chrome/client_config.ts:31-39 | two configurations that agree on the version and every property are equal |
| ClientConfig.Key | src/chrome/client_config.ts:147-152 | `VAR_MAP[s]` read as a path: the declared field, `[undefined]` for the six one-parameter inherited methods, `[undefined, undefined]` for the two-parameter ones, no write for the other inherited members, and falsy otherwise |
| ClientConfig.IsKey | src/chrome/client_config.ts:147 | `VAR_MAP[s]` is truthy |
| ClientConfig.Fires | src/chrome/client_config.ts:147-149 | a key that follows a value, from the third string on |
| ClientConfig.Assigns | src/chrome/client_config.ts:147-151 | a key that follows a value stores that value through its path |
| ClientConfig.ThrowsAt | src/chrome/client_config.ts:152 | a two-parameter inherited name that follows a value makes the write throw |
| ClientConfig.Throws | src/chrome/client_config.ts:145-159 | some string of the table makes the loop throw |
| ClientConfig.Paired | src/chrome/client_config.ts:145-159 | a property's value after the first `n` strings: the latest assignment wins |
| ClientConfig.Interpretation | src/chrome/client_config.ts:141-161 | the pairing fails with the `TypeError` exactly when a two-parameter inherited name follows a value; otherwise every property, `undefined` included, holds the value of its last assignment |
| ClientConfig.PairedIsLast | src/chrome/client_config.ts:145-159 | a property's value is the string before the last key that assigned it |
| ClientConfig.LastIsPaired | src/chrome/client_config.ts:145-159 | the last assignment of a property decides its value |
| ClientConfig.PairedNone | src/chrome/client_config.ts:133-159 | a property stays `null` or absent exactly when no key assigns it |
| ClientConfig.Interpret | src/chrome/client_config.ts:143-161 | the `lastWasKey` loop from the second string builds the interpretation, and stops with the `TypeError` at the first write through `[undefined, undefined]` |
| ClientConfig.ConfigOf | src/chrome/client_config.ts:84-161 | the call fails with not-found exactly when the scan finds no position, fails with the `TypeError` exactly when the pairing of the table's strings throws, and otherwise returns that pairing's configuration |
| ClientConfig.GetGoogleChromeClientConfig | src/chrome/client_config.ts:46-162 | scan, window, strings and pairing compose into the specified configuration, the not-found error or the `TypeError` |
| ClientConfig.ValueBeforeKeyExample | src/chrome/client_config.ts:142-158 | in `DUMMY v1 GOOGLE_API_KEY secret1 GOOGLE_DEFAULT_CLIENT_ID` the pairing succeeds, the API key is `v1` and the default client id is `secret1` |
| ClientConfig.ExampleKeys | src/chrome/client_config.ts:12-24 | `GOOGLE_API_KEY` names the API key and `GOOGLE_DEFAULT_CLIENT_ID` the default client id |
| ClientConfig.ExampleValues | src/chrome/client_config.ts:147 | `v1` and `secret1` are not keys |
| ClientConfig.ValueBeforeKey | src/chrome/client_config.ts:142-158 | in five strings ordered dummy, value, API key name, value, client id name, each value goes to the key after it |
| ClientConfig.LastKeyAfterValue | src/chrome/client_config.ts:147-152 | a key that ends the table and follows a value decides its property |
| ClientConfig.ValueBeforeKeyUnset | src/chrome/client_config.ts:142-158 | in those five strings every other property stays `null` or absent |
| ClientConfig.NoThrowWithoutSetter | src/chrome/client_config.ts:145-159 | without a two-parameter inherited name after the second string the loop never throws |
| ClientConfig.KeyAfterKeyIgnored | src/chrome/client_config.ts:147-154 | a key right after another key neither stores nor throws |
| ClientConfig.VarNamesStartWithG | src/chrome/client_config.ts:12-24 | every variable name starts with `G`, so no inherited name is one |
| ClientConfig.SetterNames | src/chrome/client_config.ts:147-152 | `__defineGetter__` and `__defineSetter__` give the path `[undefined, undefined]` |
| ClientConfig.OneParamNames | src/chrome/client_config.ts:147-151 | the six one-parameter inherited methods give the path `[undefined]` |
| ClientConfig.NotAKey | src/chrome/client_config.ts:147 | `x` is not a key |
| ClientConfig.SetterAfterValueThrows | src/chrome/client_config.ts:152 | `dummytoken x __defineGetter__` throws the `TypeError` and yields no configuration |
| ClientConfig.ConstructorStoresStray | src/chrome/client_config.ts:151 | `DUMMY x constructor` stores `x` in the property `undefined` and leaves every declared field `null` |

## Left out

- File and process I/O are not modelled. This covers `fs`, `plist`, `sqlite`, `keytar`, `tmp`, `cp` and `JSON.parse`. The binary's bytes, the `KSVersion`, the table rows, the keychain key, the account list and the keyring entries are parameters.
- The database failure is not modelled in detail. It is an absent row list, and the cleanup of the temporary copy is left out.
- PBKDF2-HMAC-SHA1 and AES-128-CBC are not implemented. They are function parameters. A decryption that throws is `None`.
- `async`/`await` is not modelled. The model is sequential.
- `console` output is not printed. The model returns it as a list of warnings. The log lines `GetGoogleChromeAccounts` prints about its temporary directory and its database close are left out.
- `Bytes.JsLength`: the model works on UTF-8 bytes. It does not model how `toString('utf8')` replaces invalid UTF-8, so `JsLength` is exact only for valid UTF-8.
- Table strings, decrypted tokens and blob fields are kept as bytes rather than decoded text.
- `Base64.Decode`: decoding follows Node's lenient decoder only on canonical input. On characters outside the alphabet, or on misplaced padding, the model yields some bytes, but not necessarily Node's.
- `ClientConfig.Table`: the buffer from `Buffer.allocUnsafe` holds unspecified old memory. It is the parameter `stale`. Reads that return fewer bytes than requested for any reason other than the end of file are not modelled.
- `DriveCredentials.GetDriveCredentials`: an e-mail equal to a property every JavaScript object inherits (such as `constructor`) is treated like any other e-mail. In the source `credsIdx[email]` finds the inherited value, no record is created and the inherited object is written to. The model does not capture this.
- `ChromeAccounts.JoinTokens`: an account id equal to an inherited property name is treated like any other id.
- `UserAgent.GetUserAgent`: `process.arch` is a parameter.
- `src/google_drive/client.ts` and `samples/list_drive.ts` are not part of this model. They only call the core.
