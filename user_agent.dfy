/**
 * The User-Agent string of the Backup and Sync client
 * (`GetGoogleDriveUserAgent`). `process.arch` is a parameter.
 */
module UserAgent {
  import Bytes

  const IS_BETA: bool := false
  const APICLIENT_VERSION: string := "1.6.5"
  const VERSION: string := "3.43.1584.4446"
  const OS_VERSION: string := "Darwin/10.14.1"

  /** The notification method, which this client never configures. */
  const NOTIF_METHOD: string := ""

  /** `getBitFlavor`. */
  function BitFlavor(arch: string): (r: string)
    ensures r == "32-bit" <==> arch == "ia32"
    ensures r == "32-bit" || r == "64-bit"
  {
    if arch == "ia32" then "32-bit" else "64-bit"
  }

  /** The client-agent segment: the API client's agent, or the gdata one for the OAuth handshake. */
  function ClientAgent(forApi: bool): (r: string)
    ensures forApi ==> r == "google-api-python-client/1.6.5 (gzip)"
    ensures !forApi ==> r == "gdata-py/null(gzip)"
  {
    if forApi then "google-api-python-client/" + APICLIENT_VERSION + " (gzip)" else "gdata-py/null(gzip)"
  }

  /** The part before the client agent. */
  function Head(arch: string): string {
    "googledrivesync-" + VERSION + (if IS_BETA then "-beta" else "") + " (" + BitFlavor(arch) + ") "
  }

  /** The part after the client agent. */
  function Tail(): string {
    " (" + OS_VERSION + NOTIF_METHOD + ")"
  }

  /** `GetGoogleDriveUserAgent`; an absent `for_api` is `false`. */
  function GetUserAgent(arch: string, forApi: bool): (r: string)
  {
    Head(arch) + ClientAgent(forApi) + Tail()
  }

  /** The agent names the release without `-beta`, then the bit flavour of the architecture. */
  lemma UserAgentStart(arch: string, forApi: bool)
    ensures var r := GetUserAgent(arch, forApi);
      var p := "googledrivesync-3.43.1584.4446 (";
      |r| > |p| + 6 && r[..|p| + 6] == p + BitFlavor(arch)
  {
    var p := "googledrivesync-3.43.1584.4446 (";
    HeadShape(arch);
    Bytes.Regroup(p, BitFlavor(arch), ") ", ClientAgent(forApi), Tail());
  }

  /** The head with its constants filled in: release version, no `-beta`, then the bit flavour. */
  lemma HeadShape(arch: string)
    ensures Head(arch) == "googledrivesync-3.43.1584.4446 (" + BitFlavor(arch) + ") "
  {
  }

  /**
   * The agent always ends with the OS version in parentheses, `(Darwin/10.14.1)`,
   * with nothing from the empty notification method after it.
   */
  lemma UserAgentEnd(arch: string, forApi: bool)
    ensures var r := GetUserAgent(arch, forApi);
      var end := "(" + OS_VERSION + ")";
      |r| > |end| && r[|r| - |end|..] == end
  {
    TailShape();
    EndsWith(Head(arch) + ClientAgent(forApi) + " ", "(" + OS_VERSION + ")");
  }

  /** The tail is a space, then the OS version in parentheses. */
  lemma TailShape()
    ensures Tail() == " " + ("(" + OS_VERSION + ")")
  {
    assert NOTIF_METHOD == [];
    assert " (" == " " + "(";
  }

  lemma EndsWith(a: string, b: string)
    ensures (a + b)[|a + b| - |b|..] == b
  {
  }

  /** The API and handshake agents differ only in their client-agent segment. */
  lemma VariantsDiffer(arch: string)
    ensures exists head: string, tail: string ::
      GetUserAgent(arch, true) == head + "google-api-python-client/1.6.5 (gzip)" + tail &&
      GetUserAgent(arch, false) == head + "gdata-py/null(gzip)" + tail
  {
    var head, tail := Head(arch), Tail();
    assert GetUserAgent(arch, true) == head + "google-api-python-client/1.6.5 (gzip)" + tail;
  }
}
