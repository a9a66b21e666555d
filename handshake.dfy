/** The NTRIP request that NTRipClient.SetupWebRequest writes after
    connecting: an HTTP/1.0 GET of the mount point with Basic authentication
    (section 2 of RFC 7617), the credentials Base64-encoded (section 4 of
    RFC 4648). The parser below is the caster's view of the same text. */
module Handshake {
  import opened Ascii
  import Base64

  const RequestPrefix := "GET /"
  const RequestVersion := " HTTP/1.0"
  const Crlf := "\r\n"
  /** The header lines between the request line and the credentials. */
  const Headers := Crlf + "User-Agent: NTRIP Brab" + Crlf + "Accept: */*" + Crlf + "Connection: close" + Crlf + "Authorization: Basic "
  const RequestEnd := Crlf + Crlf

  /** Encoding.ASCII.GetBytes(username + ":" + password). */
  function Credentials(user: string, pass: string): seq<byte>
  {
    AsciiBytes(user + ":" + pass)
  }

  /** Convert.ToBase64String of the credentials. */
  function BasicAuth(user: string, pass: string): (a: string)
    ensures forall k :: 0 <= k < |a| ==> Base64.IsBase64Char(a[k])
  {
    Base64.Encode(Credentials(user, pass))
  }

  /** The string.Format of the request, for a mount point and the encoded
      credentials. */
  function RequestText(mount: string, auth: string): string
  {
    RequestPrefix + mount + RequestVersion + Headers + auth + RequestEnd
  }

  /** The message SetupWebRequest sends. */
  function Request(mount: string, user: string, pass: string): string
  {
    RequestText(mount, BasicAuth(user, pass))
  }

  /** A caster's reading of the request: the mount point from the request
      line (everything before the first CR) and the credentials between the
      fixed headers and the blank line. */
  function ParseRequest(r: string): Option<(string, string)>
  {
    match IndexOf(r, '\r')
    case None => None
    case Some(k) =>
      var line, rest := r[..k], r[k..];
      if |line| < |RequestPrefix| + |RequestVersion|
        || line[..|RequestPrefix|] != RequestPrefix
        || line[|line| - |RequestVersion|..] != RequestVersion
      then None
      else if |rest| < |Headers| + |RequestEnd|
        || rest[..|Headers|] != Headers
        || rest[|rest| - |RequestEnd|..] != RequestEnd
      then None
      else Some((line[|RequestPrefix|..|line| - |RequestVersion|], rest[|Headers|..|rest| - |RequestEnd|]))
  }

  /** The request is exactly the HTTP/1.0 GET of the mount point with the
      given Basic credentials: the caster reads both back. */
  lemma RequestRoundTrip(mount: string, auth: string)
    requires forall i :: 0 <= i < |mount| ==> mount[i] != '\r'
    ensures ParseRequest(RequestText(mount, auth)) == Some((mount, auth))
  {
    var r := RequestText(mount, auth);
    var k := |RequestPrefix| + |mount| + |RequestVersion|;
    RequestLineEnds(mount, auth);
    var line, rest := r[..k], r[k..];
    assert line[..|RequestPrefix|] == RequestPrefix;
    assert line[|line| - |RequestVersion|..] == RequestVersion;
    assert line[|RequestPrefix|..|line| - |RequestVersion|] == mount;
    assert rest[..|Headers|] == Headers;
    assert rest[|rest| - |RequestEnd|..] == RequestEnd;
    assert rest[|Headers|..|rest| - |RequestEnd|] == auth;
  }

  /** The request line ends at the first CR of the request. */
  lemma RequestLineEnds(mount: string, auth: string)
    requires forall i :: 0 <= i < |mount| ==> mount[i] != '\r'
    ensures var k := |RequestPrefix| + |mount| + |RequestVersion|;
      && k < |RequestText(mount, auth)|
      && RequestText(mount, auth)[..k] == RequestPrefix + mount + RequestVersion
      && RequestText(mount, auth)[k..] == Headers + auth + RequestEnd
      && IndexOf(RequestText(mount, auth), '\r') == Some(k)
  {
    var line := RequestPrefix + mount + RequestVersion;
    var rest := Headers + auth + RequestEnd;
    assert RequestText(mount, auth) == line + rest;
    forall j | 0 <= j < |line|
      ensures line[j] != '\r'
    {
      if j < |RequestPrefix| {
        assert line[j] == RequestPrefix[j];
      } else if j < |RequestPrefix| + |mount| {
        assert line[j] == mount[j - |RequestPrefix|];
      } else {
        assert line[j] == RequestVersion[j - |RequestPrefix| - |mount|];
      }
    }
    assert rest[0] == '\r';
    IndexOfFirst(line + rest, '\r', |line|);
    assert (line + rest)[..|line|] == line;
    assert (line + rest)[|line|..] == rest;
  }

  /** The user-id and password of a decoded credential: the text before and
      after the first ':' (section 2 of RFC 7617). */
  function SplitCredentials(b: seq<byte>): Option<(string, string)>
  {
    var s := AsciiText(b);
    match IndexOf(s, ':')
    case None => None
    case Some(k) => Some((s[..k], s[k + 1..]))
  }

  /** Decoding the header gives back user and password whenever both are
      ASCII and the user-id has no ':', as RFC 7617 requires of it. */
  lemma CredentialsRoundTrip(user: string, pass: string)
    requires IsAscii(user) && IsAscii(pass)
    requires forall i :: 0 <= i < |user| ==> user[i] != ':'
    ensures Base64.Decode(BasicAuth(user, pass)) == Some(Credentials(user, pass))
    ensures SplitCredentials(Credentials(user, pass)) == Some((user, pass))
  {
    Base64.DecodeEncode(Credentials(user, pass));
    CredentialsSplit(user, pass);
  }

  lemma CredentialsSplit(user: string, pass: string)
    requires IsAscii(user) && IsAscii(pass)
    requires forall i :: 0 <= i < |user| ==> user[i] != ':'
    ensures SplitCredentials(Credentials(user, pass)) == Some((user, pass))
  {
    var s := user + ":" + pass;
    assert IsAscii(s);
    AsciiTextRoundTrip(s);
    IndexOfFirst(s, ':', |user|);
    assert s[..|user|] == user;
    assert s[|user| + 1..] == pass;
  }

  /** Encoding.ASCII replaces a non-ASCII character by '?', so a password
      with 'é' is sent as if it were '?'. */
  lemma NonAsciiCollapses()
    ensures Credentials("a", "\U{E9}") == Credentials("a", "?")
    ensures Request("m", "a", "\U{E9}") == Request("m", "a", "?")
  {
    assert Credentials("a", "\U{E9}") == [0x61, 0x3A, 0x3F];
    assert Credentials("a", "?") == [0x61, 0x3A, 0x3F];
  }

  /** User "a" with password "b" is sent as "Basic YTpi". */
  lemma ShortExample()
    ensures BasicAuth("a", "b") == "YTpi"
  {
    ShortCredentials();
    ShortEncoding();
  }

  lemma ShortCredentials()
    ensures Credentials("a", "b") == [0x61, 0x3A, 0x62]
  {
    assert "a" + ":" + "b" == "a:b";
  }

  lemma ShortEncoding()
    ensures Base64.Encode([0x61, 0x3A, 0x62]) == "YTpi"
  {
  }
}
