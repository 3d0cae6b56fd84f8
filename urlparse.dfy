/** The part of Go's `url.Parse` that turns a remote into a host and a path.
    It follows the standard library's steps: reject control characters, split
    off a scheme, keep an opaque remainder, refuse a colon in the first
    segment of a scheme-less reference, and parse `//authority` into optional
    user information and a host with an optional numeric port.

    Queries ('?'), fragments ('#'), percent-escapes ('%') and bracketed IPv6
    hosts are outside the modelled subset: such input gives `Unmodelled`
    rather than a guess. */
module UrlParse {
  import opened Strs

  /** The fields of Go's url.URL that parsing a remote fills in. */
  datatype URL = URL(scheme: string, opaquePart: string, host: string, path: string)

  /** Parsed: url.Parse succeeds; Failed: it returns an error; Unmodelled:
      the input uses a feature this model does not cover. */
  datatype Outcome<T> = Parsed(value: T) | Failed | Unmodelled

  predicate IsLetter(c: char) {
    ('a' <= c <= 'z') || ('A' <= c <= 'Z')
  }

  predicate IsControl(c: char) {
    c < ' ' || c == '\U{7F}'
  }

  /** getScheme, scanning from index i: a scheme is a letter followed by
      letters, digits, '+', '-' or '.', ended by ':'. A ':' at the very start
      is an error; any other character ends the scan with no scheme. */
  function GetSchemeFrom(raw: string, i: nat): Outcome<(string, string)>
    requires i <= |raw|
    decreases |raw| - i
  {
    if i == |raw| then Parsed(("", raw))
    else
      var c := raw[i];
      if IsLetter(c) then GetSchemeFrom(raw, i + 1)
      else if IsDigit(c) || c == '+' || c == '-' || c == '.' then
        if i == 0 then Parsed(("", raw)) else GetSchemeFrom(raw, i + 1)
      else if c == ':' then
        if i == 0 then Failed else Parsed((raw[..i], raw[i + 1..]))
      else Parsed(("", raw))
  }

  /** validOptionalPort: empty, or ':' followed by digits only. */
  predicate ValidOptionalPort(port: string) {
    port == [] || (port[0] == ':' && forall i :: 1 <= i < |port| ==> IsDigit(port[i]))
  }

  /** ASCII characters Go accepts in a host name (everything else below 0x80
      is an "invalid character in host name"). */
  predicate HostCharOK(c: char) {
    c >= '\U{80}' || IsLetter(c) || IsDigit(c)
    || c == '!' || c == '$' || c == '&' || c == '\'' || c == '(' || c == ')' || c == '*'
    || c == '+' || c == ',' || c == ';' || c == '=' || c == ':' || c == '[' || c == ']'
    || c == '<' || c == '>' || c == '"' || c == '-' || c == '_' || c == '.' || c == '~'
  }

  /** validUserinfo */
  predicate UserinfoCharOK(c: char) {
    IsLetter(c) || IsDigit(c)
    || c == '-' || c == '.' || c == '_' || c == ':' || c == '~' || c == '!' || c == '$'
    || c == '&' || c == '\'' || c == '(' || c == ')' || c == '*' || c == '+' || c == ','
    || c == ';' || c == '=' || c == '%' || c == '@'
  }

  /** parseHost (the non-bracketed case) */
  function ParseHost(host: string): Outcome<string> {
    if HasPrefix(host, "[") then Unmodelled
    else
      var i := LastIndexOf(host, ':');
      if i >= 0 && !ValidOptionalPort(host[i..]) then Failed
      else if !(forall k :: 0 <= k < |host| ==> HostCharOK(host[k])) then Failed
      else Parsed(host)
  }

  /** parseAuthority: the host follows the last '@'; what precedes it must be
      valid user information. */
  function ParseAuthority(authority: string): Outcome<string> {
    var i := LastIndexOf(authority, '@');
    match ParseHost(authority[i + 1..])
    case Parsed(host) =>
      if i >= 0 && !(forall k :: 0 <= k < i ==> UserinfoCharOK(authority[k])) then Failed
      else Parsed(host)
    case Failed => Failed
    case Unmodelled => Unmodelled
  }

  /** Query, fragment and escape characters, which the model does not cover. */
  predicate Unsupported(c: char) {
    c == '?' || c == '#' || c == '%'
  }

  /** url.Parse */
  function Parse(raw: string): Outcome<URL> {
    if !(forall k :: 0 <= k < |raw| ==> !IsControl(raw[k])) then Failed
    else if !(forall k :: 0 <= k < |raw| ==> !Unsupported(raw[k])) then Unmodelled
    else match GetSchemeFrom(raw, 0)
      case Parsed(split) => ParseAfterScheme(split.0, split.1)
      case Failed => Failed
      case Unmodelled => Unmodelled
  }

  /** What url.Parse does with the text after the scheme. */
  function ParseAfterScheme(scheme: string, rest: string): Outcome<URL> {
    if !HasPrefix(rest, "/") && scheme != "" then Parsed(URL(scheme, rest, "", ""))
    else if !HasPrefix(rest, "/") && ':' in rest[..IndexOf(rest, '/')] then Failed
    else if (scheme != "" || !HasPrefix(rest, "///")) && HasPrefix(rest, "//") then
      ParseAuthorityAndPath(scheme, rest[2..])
    else Parsed(URL(scheme, "", "", rest))
  }

  /** The authority runs up to the next '/'; the path is the rest. */
  function ParseAuthorityAndPath(scheme: string, tail: string): Outcome<URL> {
    var i := IndexOf(tail, '/');
    match ParseAuthority(tail[..i])
    case Parsed(host) => Parsed(URL(scheme, "", host, tail[i..]))
    case Failed => Failed
    case Unmodelled => Unmodelled
  }

  // ---------------------------------------------------------------------
  // Formatting the common remote shape and reading it back.

  predicate IsSchemeChar(c: char) {
    IsLetter(c) || IsDigit(c) || c == '+' || c == '-' || c == '.'
  }

  predicate ValidScheme(scheme: string) {
    scheme != [] && IsLetter(scheme[0]) && forall i :: 0 <= i < |scheme| ==> IsSchemeChar(scheme[i])
  }

  predicate IsHostNameChar(c: char) {
    IsLetter(c) || IsDigit(c) || c == '-' || c == '.' || c == '_' || c == '~'
  }

  predicate ValidHostName(name: string) {
    name != [] && forall k :: 0 <= k < |name| ==> IsHostNameChar(name[k])
  }

  predicate ValidUser(user: string) {
    forall k :: 0 <= k < |user| ==> IsHostNameChar(user[k])
  }

  predicate AllDigits(s: string) {
    forall k :: 0 <= k < |s| ==> IsDigit(s[k])
  }

  /** A path the modelled subset reads verbatim. */
  predicate ValidPath(path: string) {
    (path == [] || path[0] == '/')
    && forall k :: 0 <= k < |path| ==> !IsControl(path[k]) && !Unsupported(path[k])
  }

  function UserPart(user: string): string {
    if user == [] then [] else user + "@"
  }

  function PortPart(port: string): string {
    if port == [] then [] else ":" + port
  }

  /** scheme://[user@]name[:port]path */
  function Format(scheme: string, user: string, name: string, port: string, path: string): string {
    scheme + "://" + UserPart(user) + name + PortPart(port) + path
  }

  lemma {:induction false} GetSchemeScan(raw: string, scheme: string, i: nat)
    requires ValidScheme(scheme) && 1 <= i <= |scheme|
    requires HasPrefix(raw, scheme + ":")
    ensures GetSchemeFrom(raw, i) == Parsed((scheme, raw[|scheme| + 1..]))
    decreases |scheme| - i
  {
    assert raw[..|scheme| + 1] == scheme + ":";
    assert raw[|scheme|] == ':';
    if i < |scheme| {
      assert raw[i] == scheme[i];
      GetSchemeScan(raw, scheme, i + 1);
    } else {
      assert raw[..|scheme|] == scheme;
    }
  }

  lemma GetSchemeOfFormat(raw: string, scheme: string)
    requires ValidScheme(scheme) && HasPrefix(raw, scheme + ":")
    ensures GetSchemeFrom(raw, 0) == Parsed((scheme, raw[|scheme| + 1..]))
  {
    assert raw[..|scheme| + 1] == scheme + ":";
    assert raw[0] == scheme[0];
    GetSchemeScan(raw, scheme, 1);
  }

  lemma LastIndexAfter(s: string, c: char, t: string)
    requires c !in t
    ensures LastIndexOf(s + [c] + t, c) == |s|
  {
    var u := s + [c] + t;
    assert u[|s|] == c;
  }

  lemma LastIndexAbsent(s: string, c: char)
    requires c !in s
    ensures LastIndexOf(s, c) == -1
  {
  }

  lemma NameHasNo(name: string, c: char)
    requires ValidHostName(name) && !IsHostNameChar(c)
    ensures c !in name
  {
  }

  lemma HostCharsOK(name: string, port: string)
    requires ValidHostName(name) && AllDigits(port)
    ensures forall k :: 0 <= k < |name + PortPart(port)| ==> HostCharOK((name + PortPart(port))[k])
  {
    var pp := PortPart(port);
    var host := name + pp;
    forall k | 0 <= k < |host|
      ensures HostCharOK(host[k])
    {
      if k < |name| {
        assert host[k] == name[k];
        assert IsHostNameChar(name[k]);
      } else {
        assert host[k] == pp[k - |name|];
        if k > |name| {
          assert pp[k - |name|] == port[k - |name| - 1];
        }
      }
    }
  }

  lemma PortIndex(name: string, port: string)
    requires ValidHostName(name) && AllDigits(port)
    ensures var i := LastIndexOf(name + PortPart(port), ':');
      (port == [] ==> i == -1) && (port != [] ==> i == |name| && (name + PortPart(port))[i..] == PortPart(port))
  {
    NameHasNo(name, ':');
    if port == [] {
      assert name + PortPart(port) == name;
      LastIndexAbsent(name, ':');
    } else {
      assert ':' !in port;
      assert name + PortPart(port) == name + [':'] + port;
      LastIndexAfter(name, ':', port);
    }
  }

  lemma ParseHostOfValid(name: string, port: string)
    requires ValidHostName(name) && AllDigits(port)
    ensures ParseHost(name + PortPart(port)) == Parsed(name + PortPart(port))
  {
    var host := name + PortPart(port);
    assert host[0] == name[0];
    assert !HasPrefix(host, "[");
    PortIndex(name, port);
    HostCharsOK(name, port);
  }

  /** Characters the modelled subset reads without question. */
  predicate AllClear(s: string) {
    forall k :: 0 <= k < |s| ==> !IsControl(s[k]) && !Unsupported(s[k])
  }

  lemma AllClearConcat(a: string, b: string)
    requires AllClear(a) && AllClear(b)
    ensures AllClear(a + b)
  {
    forall k | 0 <= k < |a + b| ensures !IsControl((a + b)[k]) && !Unsupported((a + b)[k]) {
      if k >= |a| {
        assert (a + b)[k] == b[k - |a|];
      }
    }
  }

  predicate IsAuthorityChar(c: char) {
    IsHostNameChar(c) || c == ':' || c == '@'
  }

  lemma AuthorityChars(user: string, name: string, port: string)
    requires ValidUser(user) && ValidHostName(name) && AllDigits(port)
    ensures AllClear(UserPart(user) + name + PortPart(port))
    ensures '/' !in UserPart(user) + name + PortPart(port)
  {
    var u := UserPart(user);
    var pp := PortPart(port);
    var a := u + name + pp;
    forall k | 0 <= k < |a| ensures IsAuthorityChar(a[k]) {
      if k < |u| {
        if k < |user| {
          assert a[k] == user[k];
        }
      } else if k < |u| + |name| {
        assert a[k] == name[k - |u|];
      } else if k > |u| + |name| {
        assert a[k] == pp[k - |u| - |name|] == port[k - |u| - |name| - 1];
      }
    }
    assert forall k :: 0 <= k < |a| ==> a[k] != '/';
  }

  lemma HostHasNoAt(name: string, port: string)
    requires ValidHostName(name) && AllDigits(port)
    ensures '@' !in name + PortPart(port)
  {
    assert '@' !in name;
    assert '@' !in port;
    assert '@' !in PortPart(port);
  }

  lemma ParseAuthorityOfValid(user: string, name: string, port: string)
    requires ValidUser(user) && ValidHostName(name) && AllDigits(port)
    ensures ParseAuthority(UserPart(user) + name + PortPart(port)) == Parsed(name + PortPart(port))
  {
    var host := name + PortPart(port);
    var auth := UserPart(user) + name + PortPart(port);
    assert auth == UserPart(user) + host;
    HostHasNoAt(name, port);
    ParseHostOfValid(name, port);
    if user == [] {
      assert auth == host;
      LastIndexAbsent(host, '@');
    } else {
      assert auth == user + ['@'] + host;
      LastIndexAfter(user, '@', host);
      assert auth[|user| + 1..] == host;
      forall k | 0 <= k < |user| ensures UserinfoCharOK(auth[k]) {
        assert auth[k] == user[k];
      }
    }
  }

  lemma FormatCharsSupported(scheme: string, user: string, name: string, port: string, path: string)
    requires ValidScheme(scheme) && ValidUser(user) && ValidHostName(name) && AllDigits(port) && ValidPath(path)
    ensures AllClear(Format(scheme, user, name, port, path))
  {
    PiecesClear(user, name, port);
    SchemeClear(scheme);
    AllClearConcat(scheme + "://", UserPart(user));
    AllClearConcat(scheme + "://" + UserPart(user), name);
    AllClearConcat(scheme + "://" + UserPart(user) + name, PortPart(port));
    AllClearConcat(scheme + "://" + UserPart(user) + name + PortPart(port), path);
  }

  lemma PiecesClear(user: string, name: string, port: string)
    requires ValidUser(user) && ValidHostName(name) && AllDigits(port)
    ensures AllClear(UserPart(user)) && AllClear(name) && AllClear(PortPart(port))
  {
    assert forall k :: 0 <= k < |user| ==> IsHostNameChar(user[k]);
    assert forall k :: 0 <= k < |port| ==> IsDigit(port[k]);
    if user != [] {
      assert AllClear(user) && AllClear("@");
      AllClearConcat(user, "@");
    }
    if port != [] {
      assert AllClear(port) && AllClear(":");
      AllClearConcat(":", port);
    }
  }

  lemma SchemeClear(scheme: string)
    requires ValidScheme(scheme)
    ensures AllClear(scheme + "://")
  {
    assert AllClear(scheme) by {
      forall k | 0 <= k < |scheme| ensures !IsControl(scheme[k]) && !Unsupported(scheme[k]) {
        assert IsSchemeChar(scheme[k]);
      }
    }
    assert AllClear("://");
    AllClearConcat(scheme, "://");
  }

  /** The authority of a formatted remote holds no '/'. */
  lemma AuthorityNoSlash(user: string, name: string, port: string)
    requires ValidUser(user) && ValidHostName(name) && AllDigits(port)
    ensures '/' !in UserPart(user) + name + PortPart(port)
  {
    AuthorityChars(user, name, port);
  }

  lemma IndexOfAfter(a: string, c: char, b: string)
    requires c !in a && (b == [] || b[0] == c)
    ensures IndexOf(a + b, c) == |a|
  {
    var t := a + b;
    assert t[..|a|] == a;
  }

  lemma ParseOfClear(raw: string, scheme: string, rest: string)
    requires AllClear(raw)
    requires GetSchemeFrom(raw, 0) == Parsed((scheme, rest))
    ensures Parse(raw) == ParseAfterScheme(scheme, rest)
  {
  }

  lemma AfterSchemeAuthority(scheme: string, tail: string)
    requires scheme != []
    ensures ParseAfterScheme(scheme, "//" + tail) == ParseAuthorityAndPath(scheme, tail)
  {
    var rest := "//" + tail;
    assert rest[..1] == "/" && rest[..2] == "//" && rest[2..] == tail;
    assert HasPrefix(rest, "/") && HasPrefix(rest, "//");
  }

  lemma AuthorityAndPathOfValid(scheme: string, user: string, name: string, port: string, path: string)
    requires ValidUser(user) && ValidHostName(name) && AllDigits(port) && ValidPath(path)
    ensures ParseAuthorityAndPath(scheme, UserPart(user) + name + PortPart(port) + path)
      == Parsed(URL(scheme, "", name + PortPart(port), path))
  {
    var auth := UserPart(user) + name + PortPart(port);
    var tail := auth + path;
    AuthorityChars(user, name, port);
    IndexOfAfter(auth, '/', path);
    assert tail[..|auth|] == auth && tail[|auth|..] == path;
    ParseAuthorityOfValid(user, name, port);
  }

  lemma FormatShape(scheme: string, user: string, name: string, port: string, path: string)
    ensures var raw := Format(scheme, user, name, port, path);
      var tail := UserPart(user) + name + PortPart(port) + path;
      HasPrefix(raw, scheme + ":") && raw[|scheme| + 1..] == "//" + tail
  {
    var raw := Format(scheme, user, name, port, path);
    var tail := UserPart(user) + name + PortPart(port) + path;
    SchemeSplit(scheme, UserPart(user), name, PortPart(port), path);
    assert raw[..|scheme| + 1] == scheme + ":";
  }

  lemma SchemeSplit(scheme: string, a: string, b: string, c: string, d: string)
    ensures scheme + "://" + a + b + c + d == (scheme + ":") + ("//" + (a + b + c + d))
  {
    var t := a + b + c + d;
    assert scheme + "://" + a + b + c + d == (scheme + "://") + t;
    assert scheme + "://" == (scheme + ":") + "//";
  }

  /** Parsing the formatted shape scheme://[user@]name[:port]path gives back
      its scheme, its host (name and port) and its path. */
  lemma ParseFormat(scheme: string, user: string, name: string, port: string, path: string)
    requires ValidScheme(scheme) && ValidUser(user) && ValidHostName(name) && AllDigits(port) && ValidPath(path)
    ensures Parse(Format(scheme, user, name, port, path)) == Parsed(URL(scheme, "", name + PortPart(port), path))
  {
    var raw := Format(scheme, user, name, port, path);
    var tail := UserPart(user) + name + PortPart(port) + path;
    FormatCharsSupported(scheme, user, name, port, path);
    FormatShape(scheme, user, name, port, path);
    GetSchemeOfFormat(raw, scheme);
    ParseOfClear(raw, scheme, "//" + tail);
    AfterSchemeAuthority(scheme, tail);
    AuthorityAndPathOfValid(scheme, user, name, port, path);
  }
}
