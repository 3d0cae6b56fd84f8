/** Git hosting providers and the URLs git-open builds for them
    (open/provider.go): the built-in providers, the commit/path/root URL
    builders, the escaping they share, and the parsing of user-configured
    providers out of `git config --get-regexp '^open\..*prefix$'` output. */
module Providers {
  import opened Strs
  import opened Escape

  /** A Git platform: its base URL and the path segments that lead to a
      commit page and to a file/tree page. */
  datatype Provider = Provider(baseURL: string, commitPrefix: string, pathPrefix: string)
  {
    /** URL of a commit. */
    function CommitURL(repo: string, sha: string): string {
      EscapePath(Join([baseURL, repo, commitPrefix, sha], '/'))
    }

    /** URL of a file or folder at a reference. */
    function PathURL(repo: string, ref: string, path: string): string {
      EscapePath(Join([baseURL, repo, pathPrefix, ref, path], '/'))
    }

    /** URL of the repository itself. */
    function RootURL(repo: string): string {
      EscapePath(Join([baseURL, repo], '/'))
    }
  }

  /** The built-in providers, in the order they are searched. */
  const DefaultProviders: seq<Provider> := [
    Provider("https://github.com", "commit", "tree"),
    Provider("https://gitlab.com", "-/commit", "-/tree"),
    Provider("https://bitbucket.org", "commits", "src")
  ]

  /** escapePath: url.PathEscape, then "%2F" back to '/', then one trailing
      '/' trimmed. */
  function EscapePath(u: string): string {
    TrimSuffix(ReplaceAll(PathEscape(u), "%2F", "/"), "/")
  }

  /** A character that comes through escapePath unchanged. */
  predicate UrlSafe(c: char) {
    KeptInSegment(c) || c == '/'
  }

  predicate AllUrlSafe(s: string) {
    forall i :: 0 <= i < |s| ==> UrlSafe(s[i])
  }

  // ----- escapePath -----

  /** escapePath percent-encodes every character except '/', and drops one
      trailing '/' of its input: each '/' of the input other than a final one
      is kept as a literal '/'. */
  lemma EscapePathKeepsSlashes(u: string)
    ensures EscapePath(u) == EscapeKeepSlash(TrimSuffix(u, "/"))
  {
    ReplaceIsKeepSlash(u);
    var e := EscapeKeepSlash(u);
    if HasSuffix(u, "/") {
      var init := u[..|u| - 1];
      assert u == init + "/";
      KeepSlashAppend(init, "/");
      assert EscapeKeepSlash("/") == "/";
    } else if u != [] {
      KeepSlashLast(u);
    }
  }

  /** Decoding what escapePath produced gives back the UTF-8 bytes of its
      input, less the one trailing '/' it trimmed. */
  lemma EscapePathDecodes(u: string)
    ensures Unescape(EscapePath(u)) == Utf8Encode(TrimSuffix(u, "/"))
  {
    EscapePathKeepsSlashes(u);
    KeepSlashDecodes(TrimSuffix(u, "/"));
  }

  /** Only one trailing '/' is removed: an input ending in "//" still gives a
      URL ending in '/'. */
  lemma EscapePathTrimsOneSlash(u: string)
    requires HasSuffix(u, "//")
    ensures HasSuffix(EscapePath(u), "/")
  {
    EscapePathKeepsSlashes(u);
    var t := TrimSuffix(u, "/");
    assert t[|t| - 1] == u[|u| - 2];
    KeepSlashLast(t);
  }

  /** A URL made of URL-safe characters comes back unchanged, apart from one
      trailing '/'. */
  lemma EscapePathSafe(u: string)
    requires AllUrlSafe(u)
    ensures EscapePath(u) == TrimSuffix(u, "/")
  {
    EscapePathKeepsSlashes(u);
    var t := TrimSuffix(u, "/");
    assert forall i :: 0 <= i < |t| ==> t[i] == u[i];
    KeepSlashSafe(t);
  }

  /** A space is written as "%20". */
  lemma EscapeSpace()
    ensures EscapeKeepSlash(" ") == "%20"
  {
    assert Utf8(' ') == [32];
    assert PercentBytes([32]) == PercentByte(32) + PercentBytes([]);
  }

  lemma SafeConcat(a: string, b: string)
    requires AllUrlSafe(a) && AllUrlSafe(b)
    ensures AllUrlSafe(a + b)
  {
    assert forall i :: |a| <= i < |a + b| ==> (a + b)[i] == b[i - |a|];
  }

  lemma SafeSlashJoin(a: string, b: string)
    requires AllUrlSafe(a) && AllUrlSafe(b)
    ensures AllUrlSafe(a + "/" + b)
  {
    assert AllUrlSafe("/");
    SafeConcat(a, "/");
    SafeConcat(a + "/", b);
  }

  predicate SafeOrSpace(c: char) {
    UrlSafe(c) || c == ' '
  }

  lemma {:induction false} KeepSlashSpaces(s: string)
    requires forall i :: 0 <= i < |s| ==> SafeOrSpace(s[i])
    ensures EscapeKeepSlash(s) == ReplaceAll(s, " ", "%20")
    decreases |s|
  {
    if s != [] {
      KeepSlashSpaces(s[1..]);
      if s[0] == ' ' {
        SpaceStep(s);
      } else {
        SafeStep(s);
      }
    }
  }

  lemma SpaceStep(s: string)
    requires s != [] && s[0] == ' '
    ensures EscapeKeepSlash(s) == "%20" + EscapeKeepSlash(s[1..])
    ensures ReplaceAll(s, " ", "%20") == "%20" + ReplaceAll(s[1..], " ", "%20")
  {
    EscapeSpace();
    assert EscapeKeepSlash(" ") == EscapeChar(' ') + EscapeKeepSlash([]);
    assert s[..1] == " ";
  }

  lemma SafeStep(s: string)
    requires s != [] && UrlSafe(s[0])
    ensures EscapeKeepSlash(s) == [s[0]] + EscapeKeepSlash(s[1..])
    ensures ReplaceAll(s, " ", "%20") == [s[0]] + ReplaceAll(s[1..], " ", "%20")
  {
    assert s[..1] == [s[0]];
  }

  /** In a URL made of URL-safe characters and spaces, escapePath writes
      each space as "%20" and changes nothing else (the table test with
      "file with a space.txt" is one such URL). */
  lemma EscapePathSpaces(u: string)
    requires forall i :: 0 <= i < |u| ==> SafeOrSpace(u[i])
    requires !HasSuffix(u, "/")
    ensures EscapePath(u) == ReplaceAll(u, " ", "%20")
  {
    EscapePathKeepsSlashes(u);
    KeepSlashSpaces(u);
  }

  // ----- URL builders -----

  lemma JoinTwo(a: string, b: string)
    ensures Join([a, b], '/') == a + "/" + b
  {
    JoinCons(a, [b], '/');
  }

  lemma JoinFour(a: string, b: string, c: string, d: string)
    ensures Join([a, b, c, d], '/') == a + "/" + b + "/" + c + "/" + d
  {
    JoinCons(c, [d], '/');
    JoinCons(b, [c, d], '/');
    assert [b] + [c, d] == [b, c, d];
    JoinCons(a, [b, c, d], '/');
    assert [a] + [b, c, d] == [a, b, c, d];
  }

  lemma JoinFive(a: string, b: string, c: string, d: string, e: string)
    ensures Join([a, b, c, d, e], '/') == a + "/" + b + "/" + c + "/" + d + "/" + e
  {
    JoinFour(b, c, d, e);
    JoinCons(a, [b, c, d, e], '/');
    assert [a] + [b, c, d, e] == [a, b, c, d, e];
  }

  /** Each URL builder escapes the pieces it joins independently and keeps the
      separating '/'s; an empty last piece leaves no trailing '/'. */
  lemma URLsBySegments(p: Provider, repo: string, ref: string, path: string, sha: string)
    ensures p.CommitURL(repo, sha)
      == EscapeKeepSlash(TrimSuffix(p.baseURL + "/" + repo + "/" + p.commitPrefix + "/" + sha, "/"))
    ensures p.PathURL(repo, ref, path)
      == EscapeKeepSlash(TrimSuffix(p.baseURL + "/" + repo + "/" + p.pathPrefix + "/" + ref + "/" + path, "/"))
    ensures p.RootURL(repo) == EscapeKeepSlash(TrimSuffix(p.baseURL + "/" + repo, "/"))
  {
    var c := Join([p.baseURL, repo, p.commitPrefix, sha], '/');
    var t := Join([p.baseURL, repo, p.pathPrefix, ref, path], '/');
    var r := Join([p.baseURL, repo], '/');
    JoinFour(p.baseURL, repo, p.commitPrefix, sha);
    JoinFive(p.baseURL, repo, p.pathPrefix, ref, path);
    JoinTwo(p.baseURL, repo);
    EscapePathKeepsSlashes(c);
    EscapePathKeepsSlashes(t);
    EscapePathKeepsSlashes(r);
  }

  /** With an empty path the tree URL ends at the (escaped) ref, with no
      trailing '/'. */
  lemma PathURLEmptyPath(p: Provider, repo: string, ref: string)
    ensures p.PathURL(repo, ref, "")
      == EscapeKeepSlash(p.baseURL + "/" + repo + "/" + p.pathPrefix + "/") + EscapeKeepSlash(ref)
  {
    var pre := p.baseURL + "/" + repo + "/" + p.pathPrefix + "/";
    var t := Join([p.baseURL, repo, p.pathPrefix, ref, ""], '/');
    JoinFive(p.baseURL, repo, p.pathPrefix, ref, "");
    assert t == pre + ref + "/";
    EscapePathKeepsSlashes(t);
    assert TrimSuffix(t, "/") == pre + ref;
    KeepSlashAppend(pre, ref);
  }

  /** The built-in providers, in order; none of their base URLs ends in '/'. */
  lemma DefaultProvidersShape()
    ensures |DefaultProviders| == 3
    ensures DefaultProviders[0] == Provider("https://github.com", "commit", "tree")
    ensures DefaultProviders[1] == Provider("https://gitlab.com", "-/commit", "-/tree")
    ensures DefaultProviders[2] == Provider("https://bitbucket.org", "commits", "src")
    ensures forall i :: 0 <= i < |DefaultProviders| ==> !HasSuffix(DefaultProviders[i].baseURL, "/")
  {
    assert DefaultProviders[0].baseURL[17] == 'm';
    assert DefaultProviders[1].baseURL[17] == 'm';
    assert DefaultProviders[2].baseURL[20] == 'g';
  }

  /** Every piece of the built-in providers is URL-safe. */
  lemma DefaultProvidersSafe(i: nat)
    requires i < |DefaultProviders|
    ensures AllUrlSafe(DefaultProviders[i].baseURL)
    ensures AllUrlSafe(DefaultProviders[i].commitPrefix) && AllUrlSafe(DefaultProviders[i].pathPrefix)
  {
    DefaultProvidersShape();
    var p := DefaultProviders[i];
    if i == 0 {
      GitHubSafe(p.baseURL, p.commitPrefix, p.pathPrefix);
    } else if i == 1 {
      GitLabSafe(p.baseURL, p.commitPrefix, p.pathPrefix);
    } else {
      BitbucketSafe(p.baseURL, p.commitPrefix, p.pathPrefix);
    }
  }

  lemma GitHubSafe(b: string, c: string, p: string)
    requires b == "https://github.com" && c == "commit" && p == "tree"
    ensures AllUrlSafe(b) && AllUrlSafe(c) && AllUrlSafe(p)
  {
    HttpsSafe(b, "github.com");
  }

  lemma GitLabSafe(b: string, c: string, p: string)
    requires b == "https://gitlab.com" && c == "-/commit" && p == "-/tree"
    ensures AllUrlSafe(b) && AllUrlSafe(c) && AllUrlSafe(p)
  {
    HttpsSafe(b, "gitlab.com");
  }

  lemma BitbucketSafe(b: string, c: string, p: string)
    requires b == "https://bitbucket.org" && c == "commits" && p == "src"
    ensures AllUrlSafe(b) && AllUrlSafe(c) && AllUrlSafe(p)
  {
    HttpsSafe(b, "bitbucket.org");
  }

  lemma HttpsSafe(b: string, host: string)
    requires AllUrlSafe(host) && b == "https://" + host
    ensures AllUrlSafe(b)
  {
    SafeConcat("https://", host);
  }

  predicate EndsInName(s: string) {
    s != [] && s[|s| - 1] != '/'
  }

  lemma NoTrailingSlash(a: string, b: string)
    requires EndsInName(b)
    ensures TrimSuffix(a + b, "/") == a + b
  {
    var s := a + b;
    assert s[|s| - 1] == b[|b| - 1];
  }

  /** The three builders on URL-safe pieces whose last piece ends in a name:
      the pieces joined by '/', unescaped and untrimmed. */
  lemma CommitURLPlain(p: Provider, repo: string, sha: string)
    requires AllUrlSafe(p.baseURL) && AllUrlSafe(p.commitPrefix) && AllUrlSafe(repo) && AllUrlSafe(sha)
    requires EndsInName(sha)
    ensures p.CommitURL(repo, sha) == p.baseURL + "/" + repo + "/" + p.commitPrefix + "/" + sha
  {
    var c := Join([p.baseURL, repo, p.commitPrefix, sha], '/');
    JoinFour(p.baseURL, repo, p.commitPrefix, sha);
    SafeSlashJoin(p.baseURL, repo);
    SafeSlashJoin(p.baseURL + "/" + repo, p.commitPrefix);
    SafeSlashJoin(p.baseURL + "/" + repo + "/" + p.commitPrefix, sha);
    EscapePathSafe(c);
    NoTrailingSlash(p.baseURL + "/" + repo + "/" + p.commitPrefix + "/", sha);
  }

  lemma PathURLPlain(p: Provider, repo: string, ref: string, path: string)
    requires AllUrlSafe(p.baseURL) && AllUrlSafe(p.pathPrefix) && AllUrlSafe(repo) && AllUrlSafe(ref) && AllUrlSafe(path)
    requires EndsInName(path)
    ensures p.PathURL(repo, ref, path) == p.baseURL + "/" + repo + "/" + p.pathPrefix + "/" + ref + "/" + path
  {
    var t := Join([p.baseURL, repo, p.pathPrefix, ref, path], '/');
    JoinFive(p.baseURL, repo, p.pathPrefix, ref, path);
    SafeSlashJoin(p.baseURL, repo);
    SafeSlashJoin(p.baseURL + "/" + repo, p.pathPrefix);
    SafeSlashJoin(p.baseURL + "/" + repo + "/" + p.pathPrefix, ref);
    SafeSlashJoin(p.baseURL + "/" + repo + "/" + p.pathPrefix + "/" + ref, path);
    EscapePathSafe(t);
    NoTrailingSlash(p.baseURL + "/" + repo + "/" + p.pathPrefix + "/" + ref + "/", path);
  }

  lemma RootURLPlain(p: Provider, repo: string)
    requires AllUrlSafe(p.baseURL) && AllUrlSafe(repo) && EndsInName(repo)
    ensures p.RootURL(repo) == p.baseURL + "/" + repo
  {
    var r := Join([p.baseURL, repo], '/');
    JoinTwo(p.baseURL, repo);
    SafeSlashJoin(p.baseURL, repo);
    EscapePathSafe(r);
    NoTrailingSlash(p.baseURL + "/", repo);
  }

  /** Every built-in provider builds its URLs by joining the base URL, the
      repository, its prefix and the commit, ref or path with '/' (for
      URL-safe pieces that end in a name). */
  lemma DefaultProviderURLs(i: nat, repo: string, ref: string, path: string, sha: string)
    requires i < |DefaultProviders|
    requires AllUrlSafe(repo) && AllUrlSafe(ref) && AllUrlSafe(path) && AllUrlSafe(sha)
    requires EndsInName(repo) && EndsInName(path) && EndsInName(sha)
    ensures var p := DefaultProviders[i];
      && p.CommitURL(repo, sha) == p.baseURL + "/" + repo + "/" + p.commitPrefix + "/" + sha
      && p.PathURL(repo, ref, path) == p.baseURL + "/" + repo + "/" + p.pathPrefix + "/" + ref + "/" + path
      && p.RootURL(repo) == p.baseURL + "/" + repo
  {
    var p := DefaultProviders[i];
    DefaultProvidersSafe(i);
    CommitURLPlain(p, repo, sha);
    PathURLPlain(p, repo, ref, path);
    RootURLPlain(p, repo);
  }

  /** GitHub's commit URL; for instance the repository arbourd/git-open and
      commit 7605d91 give https://github.com/arbourd/git-open/commit/7605d91. */
  lemma GitHubCommitURL(p: Provider, repo: string, sha: string)
    requires p == DefaultProviders[0]
    requires AllUrlSafe(repo) && AllUrlSafe(sha) && EndsInName(sha)
    ensures p.CommitURL(repo, sha) == "https://github.com/" + repo + "/commit/" + sha
  {
    DefaultProvidersSafe(0);
    CommitURLPlain(p, repo, sha);
  }

  /** GitLab's tree URL goes through its "-/tree" route. */
  lemma GitLabPathURL(p: Provider, repo: string, ref: string, path: string)
    requires p == DefaultProviders[1]
    requires AllUrlSafe(repo) && AllUrlSafe(ref) && AllUrlSafe(path) && EndsInName(path)
    ensures p.PathURL(repo, ref, path) == "https://gitlab.com/" + repo + "/-/tree/" + ref + "/" + path
  {
    DefaultProvidersSafe(1);
    PathURLPlain(p, repo, ref, path);
  }

  /** Bitbucket's root URL. */
  lemma BitbucketRootURL(p: Provider, repo: string)
    requires p == DefaultProviders[2]
    requires AllUrlSafe(repo) && EndsInName(repo)
    ensures p.RootURL(repo) == "https://bitbucket.org/" + repo
  {
    DefaultProvidersSafe(2);
    RootURLPlain(p, repo);
  }

  // ----- providers from the global git config -----

  /** The two settings a configured provider collects. */
  datatype Prefixes = Prefixes(commitPrefix: string, pathPrefix: string)

  /** One line of `git config --get-regexp` output, taken apart. */
  datatype ConfigLine = ConfigLine(baseURL: string, key: string, value: string)

  const NoPrefixes := Prefixes("", "")

  /** The space-separated fields of a config line, with "open." stripped. */
  function Fields(v: string): (fs: seq<string>)
    ensures |fs| >= 1
    ensures forall i :: 0 <= i < |fs| ==> ' ' !in fs[i]
  {
    Split(TrimPrefix(v, "open."), ' ')
  }

  /** A config line: the value is kept only when the line has exactly two
      space-separated fields; the key is the last '.'-segment of the name
      and the base URL the segments before it, joined again with '.'. */
  function ParseConfigLine(v: string): (c: ConfigLine)
    ensures '.' !in c.key && ' ' !in c.value
  {
    var s := Fields(v);
    var value := if |s| == 2 then s[1] else "";
    var t := Split(s[0], '.');
    ConfigLine(Join(t[..|t| - 1], '.'), t[|t| - 1], value)
  }

  /** Splitting a name on '.' and joining all but the last piece again
      gives what precedes its last '.', and the last piece is what follows. */
  lemma SplitAtDot(name: string, j: nat)
    requires j < |name| && name[j] == '.' && '.' !in name[j + 1..]
    ensures var t := Split(name, '.');
      Join(t[..|t| - 1], '.') == name[..j] && t[|t| - 1] == name[j + 1..]
  {
    var a, b := name[..j], name[j + 1..];
    assert name == a + ['.'] + b;
    SplitLast(a, b, '.');
    var t := Split(name, '.');
    assert t == Split(a, '.') + [b];
    assert t[..|t| - 1] == Split(a, '.');
    JoinSplit(a, '.');
  }

  /** The key of a config line is what follows the last '.' of its name and
      the base URL what precedes it. */
  lemma ConfigLineName(v: string, j: nat)
    requires var name := Fields(v)[0]; j < |name| && name[j] == '.' && '.' !in name[j + 1..]
    ensures var name := Fields(v)[0];
      ParseConfigLine(v).baseURL == name[..j] && ParseConfigLine(v).key == name[j + 1..]
  {
    SplitAtDot(Fields(v)[0], j);
  }

  /** A name without '.' is all key, with an empty base URL. */
  lemma ConfigLineNoDot(v: string)
    requires '.' !in Fields(v)[0]
    ensures ParseConfigLine(v).baseURL == "" && ParseConfigLine(v).key == Fields(v)[0]
  {
    SplitNoSep(Fields(v)[0], '.');
  }

  /** A line "open.<base>.<key> <value>" gives back base, key and value. */
  lemma ParseConfigLineRoundTrip(base: string, key: string, value: string)
    requires '.' !in key && ' ' !in base && ' ' !in key && ' ' !in value
    ensures ParseConfigLine("open." + base + "." + key + " " + value) == ConfigLine(base, key, value)
  {
    var v := "open." + base + "." + key + " " + value;
    var name := base + "." + key;
    LineShape(base, key, value);
    SplitNoSep(name, ' ');
    SplitLast(name, value, ' ');
    ConfigLineOfFields(v, base, key, value);
  }

  /** A value that itself holds a space makes three or more fields, and the
      line then sets the key to "". */
  lemma ValueWithSpaceIsDropped(base: string, key: string, value: string)
    requires '.' !in key && ' ' !in base && ' ' !in key && ' ' in value
    ensures ParseConfigLine("open." + base + "." + key + " " + value) == ConfigLine(base, key, "")
  {
    var v := "open." + base + "." + key + " " + value;
    LineShape(base, key, value);
    ManyFields(base + "." + key, value);
    ConfigLineOfFields(v, base, key, "");
  }

  /** Without its "open." prefix a line is its name, a space and its value. */
  lemma LineShape(base: string, key: string, value: string)
    requires ' ' !in base && ' ' !in key
    ensures var name := base + "." + key;
      TrimPrefix("open." + base + "." + key + " " + value, "open.") == name + [' '] + value
      && ' ' !in name
  {
    var v := "open." + base + "." + key + " " + value;
    var name := base + "." + key;
    assert v == "open." + (name + [' '] + value);
    assert name == base + ['.'] + key;
  }

  /** A name followed by a value holding a space splits into three or more fields. */
  lemma ManyFields(name: string, value: string)
    requires ' ' !in name && ' ' in value
    ensures var f := Split(name + [' '] + value, ' '); |f| >= 3 && f[0] == name
  {
    SplitNoSep(name, ' ');
    SplitAppend(name, value, ' ');
    SplitAtSep(value, ' ');
  }

  /** A line whose first field is base.key parses to that base URL and key. */
  lemma ConfigLineOfFields(v: string, base: string, key: string, value: string)
    requires '.' !in key && Fields(v)[0] == base + "." + key
    requires value == if |Fields(v)| == 2 then Fields(v)[1] else ""
    ensures ParseConfigLine(v) == ConfigLine(base, key, value)
  {
    var name := base + "." + key;
    assert name == base + ['.'] + key;
    SplitLast(base, key, '.');
    JoinSplit(base, '.');
    assert Split(name, '.')[..|Split(name, '.')| - 1] == Split(base, '.');
  }

  /** The entry of a base URL after one more line: "commitprefix" and
      "pathprefix" set their field, any other key leaves the entry as it
      was, creating it empty if needed. */
  function Apply(urls: map<string, Prefixes>, c: ConfigLine): (r: map<string, Prefixes>)
    ensures r.Keys == urls.Keys + {c.baseURL}
    ensures forall b :: b in urls && b != c.baseURL ==> r[b] == urls[b]
  {
    var e := if c.baseURL in urls then urls[c.baseURL] else NoPrefixes;
    urls[c.baseURL :=
      if c.key == "commitprefix" then e.(commitPrefix := c.value)
      else if c.key == "pathprefix" then e.(pathPrefix := c.value)
      else e]
  }

  /** The map of base URLs built from parsed lines, applied in order. */
  function ApplyAll(cs: seq<ConfigLine>): map<string, Prefixes>
    decreases |cs|
  {
    if cs == [] then map[] else Apply(ApplyAll(cs[..|cs| - 1]), cs[|cs| - 1])
  }

  function ParseLines(lines: seq<string>): seq<ConfigLine> {
    seq(|lines|, i requires 0 <= i < |lines| => ParseConfigLine(lines[i]))
  }

  /** The map of base URLs the config lines build. */
  function Accumulate(lines: seq<string>): map<string, Prefixes> {
    ApplyAll(ParseLines(lines))
  }

  /** One more line is one more Apply: the step of the loop in LoadProviders. */
  lemma AccumulateStep(lines: seq<string>, i: nat)
    requires i < |lines|
    ensures Accumulate(lines[..i + 1]) == Apply(Accumulate(lines[..i]), ParseConfigLine(lines[i]))
  {
    var cs := ParseLines(lines[..i + 1]);
    assert cs[..i] == ParseLines(lines[..i]);
  }

  /** The field a key sets. */
  function Field(e: Prefixes, key: string): string
    requires key == "commitprefix" || key == "pathprefix"
  {
    if key == "commitprefix" then e.commitPrefix else e.pathPrefix
  }

  /** A base URL has an entry exactly when some line names it. */
  lemma {:induction false} ApplyAllKeys(cs: seq<ConfigLine>, base: string)
    ensures base in ApplyAll(cs) <==> exists i :: 0 <= i < |cs| && cs[i].baseURL == base
    decreases |cs|
  {
    if cs != [] {
      var init := cs[..|cs| - 1];
      ApplyAllKeys(init, base);
      if base in ApplyAll(init) {
        var i :| 0 <= i < |init| && init[i].baseURL == base;
        assert cs[i] == init[i];
      }
      if exists i :: 0 <= i < |cs| && cs[i].baseURL == base {
        var i :| 0 <= i < |cs| && cs[i].baseURL == base;
        if i < |init| {
          assert init[i] == cs[i];
        }
      }
    }
  }

  /** The last line that sets a field of a base URL decides it. */
  lemma {:induction false} LastLineWins(cs: seq<ConfigLine>, base: string, key: string, i: nat)
    requires key == "commitprefix" || key == "pathprefix"
    requires i < |cs| && cs[i].baseURL == base && cs[i].key == key
    requires forall j :: i < j < |cs| ==> !(cs[j].baseURL == base && cs[j].key == key)
    ensures base in ApplyAll(cs)
    ensures Field(ApplyAll(cs)[base], key) == cs[i].value
    decreases |cs|
  {
    var init := cs[..|cs| - 1];
    if i < |cs| - 1 {
      assert init[i] == cs[i];
      forall j | i < j < |init|
        ensures !(init[j].baseURL == base && init[j].key == key)
      {
        assert init[j] == cs[j];
      }
      LastLineWins(init, base, key, i);
    }
  }

  /** A field that no line sets stays "". */
  lemma {:induction false} UnsetFieldIsEmpty(cs: seq<ConfigLine>, base: string, key: string)
    requires key == "commitprefix" || key == "pathprefix"
    requires forall j :: 0 <= j < |cs| ==> !(cs[j].baseURL == base && cs[j].key == key)
    ensures base in ApplyAll(cs) ==> Field(ApplyAll(cs)[base], key) == ""
    decreases |cs|
  {
    if cs != [] {
      var init := cs[..|cs| - 1];
      forall j | 0 <= j < |init|
        ensures !(init[j].baseURL == base && init[j].key == key)
      {
        assert init[j] == cs[j];
      }
      UnsetFieldIsEmpty(init, base, key);
    }
  }

  /** The lines of the trimmed config output. */
  function ConfigLines(out: string): seq<string> {
    Split(TrimSpace(out), '\n')
  }

  /** The providers the global config defines, by base URL; nothing when the
      trimmed output is empty. */
  function Configured(out: string): map<string, Prefixes> {
    if TrimSpace(out) == [] then map[] else Accumulate(ConfigLines(out))
  }

  function ProviderOf(urls: map<string, Prefixes>, base: string): Provider
    requires base in urls
  {
    Provider(base, urls[base].commitPrefix, urls[base].pathPrefix)
  }

  /** Output made of lines joined by newlines, with no surrounding space,
      is read back line by line. */
  lemma ConfiguredLines(lines: seq<string>)
    requires |lines| >= 1
    requires forall i :: 0 <= i < |lines| ==> '\n' !in lines[i]
    requires lines[0] != [] && !IsSpace(lines[0][0])
    requires lines[|lines| - 1] != [] && !IsSpace(lines[|lines| - 1][|lines[|lines| - 1]| - 1])
    ensures Configured(Join(lines, '\n')) == Accumulate(lines)
  {
    var out := Join(lines, '\n');
    JoinEnds(lines, '\n');
    var last := lines[|lines| - 1];
    assert out[0] == lines[0][0];
    assert out[|out| - 1] == last[|last| - 1];
    TrimSpaceNoop(out);
    SplitJoin(lines, '\n');
  }

  /** The entry a single line "open.<base>.<key> <value>" creates. */
  lemma ApplyLine(urls: map<string, Prefixes>, base: string, key: string, value: string)
    requires '.' !in key && ' ' !in base && ' ' !in key && ' ' !in value
    ensures var e := if base in urls then urls[base] else NoPrefixes;
      Apply(urls, ParseConfigLine("open." + base + "." + key + " " + value))
      == urls[base := if key == "commitprefix" then e.(commitPrefix := value)
                      else if key == "pathprefix" then e.(pathPrefix := value)
                      else e]
  {
    ParseConfigLineRoundTrip(base, key, value);
  }

  /** The line for a commit prefix and the line for a path prefix. */
  function CommitLine(base: string, value: string): string {
    "open." + base + "." + "commitprefix" + " " + value
  }

  function PathLine(base: string, value: string): string {
    "open." + base + "." + "pathprefix" + " " + value
  }

  /** Both prefixes of one base URL, applied in turn. */
  lemma ApplyBoth(m: map<string, Prefixes>, base: string, cp: string, pp: string)
    requires base !in m
    ensures Apply(Apply(m, ConfigLine(base, "commitprefix", cp)), ConfigLine(base, "pathprefix", pp))
      == m[base := Prefixes(cp, pp)]
  {
  }

  /** Two lines are two Applys, in order. */
  lemma AccumulateTwo(a: string, b: string)
    ensures Accumulate([a, b]) == Apply(Apply(map[], ParseConfigLine(a)), ParseConfigLine(b))
  {
    var cs := ParseLines([a, b]);
    assert cs == [ParseConfigLine(a), ParseConfigLine(b)];
    assert cs[..1] == [ParseConfigLine(a)] && cs[..1][..0] == [];
    assert ApplyAll(cs[..1]) == Apply(map[], ParseConfigLine(a));
  }

  /** Four lines are four Applys, in order. */
  lemma AccumulateFour(ls: seq<string>)
    requires |ls| == 4
    ensures Accumulate(ls)
      == Apply(Apply(Apply(Apply(map[], ParseConfigLine(ls[0])), ParseConfigLine(ls[1])), ParseConfigLine(ls[2])), ParseConfigLine(ls[3]))
  {
    var cs := ParseLines(ls);
    ApplyAllFour(cs);
  }

  lemma ApplyAllFour(cs: seq<ConfigLine>)
    requires |cs| == 4
    ensures ApplyAll(cs) == Apply(Apply(Apply(Apply(map[], cs[0]), cs[1]), cs[2]), cs[3])
  {
    var c3, c2, c1 := cs[..3], cs[..2], cs[..1];
    assert c3[..2] == c2 && c2[..1] == c1 && c1[..0] == [];
    assert ApplyAll(c1) == Apply(map[], cs[0]);
    assert ApplyAll(c2) == Apply(ApplyAll(c1), cs[1]);
    assert ApplyAll(c3) == Apply(ApplyAll(c2), cs[2]);
    assert ApplyAll(cs) == Apply(ApplyAll(c3), cs[3]);
  }

  /** Two lines that parse to both prefixes of one base URL. */
  lemma BothPrefixLines(l1: string, l2: string, base: string, cp: string, pp: string)
    requires ParseConfigLine(l1) == ConfigLine(base, "commitprefix", cp)
    requires ParseConfigLine(l2) == ConfigLine(base, "pathprefix", pp)
    ensures Accumulate([l1, l2]) == map[base := Prefixes(cp, pp)]
  {
    AccumulateTwo(l1, l2);
    ApplyBoth(map[], base, cp, pp);
  }

  /** Four lines that parse to both prefixes of two different base URLs. */
  lemma BothPrefixLinesTwice(ls: seq<string>, b1: string, c1: string, p1: string, b2: string, c2: string, p2: string)
    requires |ls| == 4 && b1 != b2
    requires ParseConfigLine(ls[0]) == ConfigLine(b1, "commitprefix", c1)
    requires ParseConfigLine(ls[1]) == ConfigLine(b1, "pathprefix", p1)
    requires ParseConfigLine(ls[2]) == ConfigLine(b2, "commitprefix", c2)
    requires ParseConfigLine(ls[3]) == ConfigLine(b2, "pathprefix", p2)
    ensures Accumulate(ls) == map[b1 := Prefixes(c1, p1), b2 := Prefixes(c2, p2)]
  {
    AccumulateFour(ls);
    ApplyBothTwice(b1, c1, p1, b2, c2, p2);
  }

  lemma ApplyBothTwice(b1: string, c1: string, p1: string, b2: string, c2: string, p2: string)
    requires b1 != b2
    ensures Apply(Apply(Apply(Apply(map[], ConfigLine(b1, "commitprefix", c1)), ConfigLine(b1, "pathprefix", p1)),
                        ConfigLine(b2, "commitprefix", c2)), ConfigLine(b2, "pathprefix", p2))
      == map[b1 := Prefixes(c1, p1), b2 := Prefixes(c2, p2)]
  {
    ApplyBoth(map[], b1, c1, p1);
    ApplyBoth(map[b1 := Prefixes(c1, p1)], b2, c2, p2);
  }

  /** The two prefix lines parse to what they say. */
  lemma PrefixLinesParse(base: string, cp: string, pp: string)
    requires ' ' !in base && ' ' !in cp && ' ' !in pp
    ensures ParseConfigLine(CommitLine(base, cp)) == ConfigLine(base, "commitprefix", cp)
    ensures ParseConfigLine(PathLine(base, pp)) == ConfigLine(base, "pathprefix", pp)
  {
    ParseConfigLineRoundTrip(base, "commitprefix", cp);
    ParseConfigLineRoundTrip(base, "pathprefix", pp);
  }

  /** The "single provider" configuration: both prefixes of one base URL. */
  lemma OneProvider(base: string, cp: string, pp: string)
    requires ' ' !in base && ' ' !in cp && ' ' !in pp
    ensures Accumulate([CommitLine(base, cp), PathLine(base, pp)]) == map[base := Prefixes(cp, pp)]
  {
    PrefixLinesParse(base, cp, pp);
    BothPrefixLines(CommitLine(base, cp), PathLine(base, pp), base, cp, pp);
  }

  /** The "multiple providers" configuration: two base URLs, each with both
      prefixes, give two independent entries. */
  lemma TwoProviders(b1: string, c1: string, p1: string, b2: string, c2: string, p2: string)
    requires ' ' !in b1 && ' ' !in c1 && ' ' !in p1 && ' ' !in b2 && ' ' !in c2 && ' ' !in p2
    requires b1 != b2
    ensures Accumulate([CommitLine(b1, c1), PathLine(b1, p1), CommitLine(b2, c2), PathLine(b2, p2)])
      == map[b1 := Prefixes(c1, p1), b2 := Prefixes(c2, p2)]
  {
    PrefixLinesParse(b1, c1, p1);
    PrefixLinesParse(b2, c2, p2);
    BothPrefixLinesTwice([CommitLine(b1, c1), PathLine(b1, p1), CommitLine(b2, c2), PathLine(b2, p2)], b1, c1, p1, b2, c2, p2);
  }

  /** A key other than the two prefixes still creates the entry, empty. */
  lemma OtherKeyCreatesEntry(base: string, key: string, value: string)
    requires '.' !in key && ' ' !in base && ' ' !in key && ' ' !in value
    requires key != "commitprefix" && key != "pathprefix"
    ensures Accumulate(["open." + base + "." + key + " " + value]) == map[base := NoPrefixes]
  {
    var cs := ParseLines(["open." + base + "." + key + " " + value]);
    ParseConfigLineRoundTrip(base, key, value);
    assert cs == [ConfigLine(base, key, value)];
    assert cs[..0] == [];
    assert ApplyAll(cs) == Apply(map[], ConfigLine(base, key, value));
  }

  /** What CollectProviders keeps true: p holds one provider for each key
      already taken out of pending (index says where), each built from its
      entry, and no base URL twice. */
  ghost predicate Collected(urls: map<string, Prefixes>, p: seq<Provider>, pending: set<string>, index: map<string, nat>) {
    && pending <= urls.Keys
    && |p| == |urls.Keys| - |pending|
    && (forall i :: 0 <= i < |p| ==> p[i].baseURL in urls && p[i].baseURL !in pending && p[i] == ProviderOf(urls, p[i].baseURL))
    && (forall base :: base in urls && base !in pending ==> base in index && index[base] < |p| && p[index[base]].baseURL == base)
    && (forall i, j :: 0 <= i < j < |p| ==> p[i].baseURL != p[j].baseURL)
  }

  lemma CollectStep(urls: map<string, Prefixes>, p: seq<Provider>, pending: set<string>, index: map<string, nat>, k: string)
    requires Collected(urls, p, pending, index) && k in pending
    ensures Collected(urls, p + [ProviderOf(urls, k)], pending - {k}, index[k := |p|])
  {
    var p1 := p + [ProviderOf(urls, k)];
    assert forall i :: 0 <= i < |p| ==> p1[i] == p[i];
  }

  /** The second half of LoadProviders: one provider per entry of the map,
      in whatever order the map is walked. */
  method CollectProviders(urls: map<string, Prefixes>) returns (p: seq<Provider>)
    ensures |p| == |urls|
    ensures forall i :: 0 <= i < |p| ==> p[i].baseURL in urls && p[i] == ProviderOf(urls, p[i].baseURL)
    ensures forall base :: base in urls ==> exists i :: 0 <= i < |p| && p[i].baseURL == base
    ensures forall i, j :: 0 <= i < j < |p| ==> p[i].baseURL != p[j].baseURL
  {
    p := [];
    var pending := urls.Keys;
    ghost var index: map<string, nat> := map[];
    while pending != {}
      invariant Collected(urls, p, pending, index)
      decreases |pending|
    {
      var k :| k in pending;
      CollectStep(urls, p, pending, index, k);
      index := index[k := |p|];
      p := p + [ProviderOf(urls, k)];
      pending := pending - {k};
    }
    assert urls.Keys == pending + urls.Keys;
    forall base | base in urls
      ensures exists i :: 0 <= i < |p| && p[i].baseURL == base
    {
      assert p[index[base]].baseURL == base;
    }
  }

  /** LoadProviders on the output of the config query: one provider per
      configured base URL, in no particular order. */
  method LoadProviders(out: string) returns (p: seq<Provider>)
    ensures TrimSpace(out) == [] ==> p == []
    ensures |p| == |Configured(out)|
    ensures forall i :: 0 <= i < |p| ==> p[i].baseURL in Configured(out) && p[i] == ProviderOf(Configured(out), p[i].baseURL)
    ensures forall base :: base in Configured(out) ==> exists i :: 0 <= i < |p| && p[i].baseURL == base
    ensures forall i, j :: 0 <= i < j < |p| ==> p[i].baseURL != p[j].baseURL
  {
    p := [];
    var trimmed := TrimSpace(out);
    if |trimmed| == 0 {
      return;
    }
    var lines := Split(trimmed, '\n');
    var urls: map<string, Prefixes> := map[];
    for i := 0 to |lines|
      invariant urls == Accumulate(lines[..i])
    {
      var c := ParseConfigLine(lines[i]);
      var e := if c.baseURL in urls then urls[c.baseURL] else NoPrefixes;
      if c.key == "commitprefix" {
        e := e.(commitPrefix := c.value);
      } else if c.key == "pathprefix" {
        e := e.(pathPrefix := c.value);
      }
      urls := urls[c.baseURL := e];
      AccumulateStep(lines, i);
    }
    assert lines[..|lines|] == lines;
    assert urls == Configured(out);
    p := CollectProviders(urls);
  }
}
