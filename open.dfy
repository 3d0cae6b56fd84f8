/** The decision logic of git-open (open/open.go): classifying the argument,
    reading the remote, resolving a path against the repository root, and
    putting them together into the URL to open. The git calls (the git
    directory, the remote URL, the current ref) are inputs that may have
    failed; the file system is an existence oracle and a working
    directory. */
module Open {
  import opened Wrappers
  import opened Strs
  import opened CleanPath
  import opened UrlParse
  import opened Providers
  import opened Escape

  // ----- argument classification (parseType) -----

  /** What the argument asks to open. */
  datatype Type = Commit | Path | Root

  predicate IsLowerHex(c: char) {
    ('0' <= c <= '9') || ('a' <= c <= 'f')
  }

  /** The language of ^[0-9a-f]{7,64}$. */
  predicate IsCommitSHA(s: string) {
    7 <= |s| <= 64 && forall i :: 0 <= i < |s| ==> IsLowerHex(s[i])
  }

  /** Matching [0-9a-f]{lo,hi} against the whole of s, one character at a
      time: each character must be a lower-case hex digit, at most hi of
      them, and the string may end only once lo have been read. */
  function MatchHexRepeat(s: string, lo: nat, hi: nat): bool
    decreases |s|
  {
    if s == [] then lo == 0
    else hi > 0 && IsLowerHex(s[0]) && MatchHexRepeat(s[1..], if lo > 0 then lo - 1 else 0, hi - 1)
  }

  lemma {:induction false} MatchHexRepeatIff(s: string, lo: nat, hi: nat)
    ensures MatchHexRepeat(s, lo, hi) <==> lo <= |s| <= hi && forall i :: 0 <= i < |s| ==> IsLowerHex(s[i])
    decreases |s|
  {
    if s != [] && hi > 0 {
      MatchHexRepeatIff(s[1..], if lo > 0 then lo - 1 else 0, hi - 1);
      if forall i :: 0 <= i < |s| ==> IsLowerHex(s[i]) {
        assert forall i :: 0 <= i < |s[1..]| ==> IsLowerHex(s[1..][i]) by {
          forall i | 0 <= i < |s[1..]|
            ensures IsLowerHex(s[1..][i])
          {
            assert s[1..][i] == s[i + 1];
          }
        }
      }
      if IsLowerHex(s[0]) && forall i :: 0 <= i < |s[1..]| ==> IsLowerHex(s[1..][i]) {
        forall i | 0 <= i < |s|
          ensures IsLowerHex(s[i])
        {
          if i > 0 {
            assert s[i] == s[1..][i - 1];
          }
        }
      }
    }
  }

  /** parseType: the empty argument is the repository root, a commit SHA is
      a commit, anything else a path. */
  function ParseType(arg: string): (t: Type)
    ensures t == Root <==> arg == []
    ensures t == Commit <==> IsCommitSHA(arg)
    ensures t == Path <==> arg != [] && !IsCommitSHA(arg)
  {
    MatchHexRepeatIff(arg, 7, 64);
    if |arg| == 0 then Root
    else if MatchHexRepeat(arg, 7, 64) then Commit
    else Path
  }

  /** A piece of ten lower-case hex digits. */
  lemma HexTen(s: string)
    requires s == "7605d91281" || s == "2a5cdc58dc" || s == "9415026750" || s == "b43c33928b"
    ensures forall i :: 0 <= i < |s| ==> IsLowerHex(s[i])
  {
  }

  lemma HexConcat(a: string, b: string)
    requires forall i :: 0 <= i < |a| ==> IsLowerHex(a[i])
    requires forall i :: 0 <= i < |b| ==> IsLowerHex(b[i])
    ensures forall i :: 0 <= i < |a + b| ==> IsLowerHex((a + b)[i])
  {
    forall i | 0 <= i < |a + b|
      ensures IsLowerHex((a + b)[i])
    {
      if i >= |a| {
        assert (a + b)[i] == b[i - |a|];
      }
    }
  }

  /** The classification table's "long commit sha" row: a full 40-digit
      SHA is a commit. */
  lemma ParseTypeLongSha(sha: string)
    requires sha == "7605d912812a5cdc58dc9415026750b43c33928b"
    ensures ParseType(sha) == Commit
  {
    var a, b, c, d := "7605d91281", "2a5cdc58dc", "9415026750", "b43c33928b";
    assert sha == a + b + c + d;
    HexTen(a);
    HexTen(b);
    HexTen(c);
    HexTen(d);
    HexConcat(a, b);
    HexConcat(a + b, c);
    HexConcat(a + b + c, d);
  }

  /** The classification table test. */
  lemma ParseTypeExamples()
    ensures ParseType("") == Root
    ensures ParseType("7605d91") == Commit
    ensures ParseType("76") == Path
    ensures ParseType("7605d91xyz") == Path
    ensures ParseType("7605d91.txt") == Path
    ensures ParseType("open_test.go") == Path
    ensures ParseType("../") == Path
  {
    assert "7605d91xyz"[7] == 'x';
    assert "7605d91.txt"[7] == '.';
    assert "open_test.go"[0] == 'o';
    assert "../"[0] == '.';
  }

  // ----- the remote (parseRemote) -----

  /** The host and the owner/name path of a remote. */
  datatype Remote = Remote(host: string, repo: string)

  /** parseRemote: the host of the parsed URL, and its path cleaned, with one
      ".git" suffix and then one leading '/' removed. A remote the URL parser
      rejects makes the source dereference a nil URL, so it is excluded. */
  function ParseRemote(remote: string): Remote
    requires Parse(remote).Parsed?
  {
    var u := Parse(remote).value;
    Remote(u.host, TrimPrefix(TrimSuffix(Clean(u.path), ".git"), "/"))
  }

  /** The repository path never starts with '/' and never holds "//". */
  lemma RemoteRepoShape(remote: string)
    requires Parse(remote).Parsed?
    ensures var r := ParseRemote(remote);
      r.host == Parse(remote).value.host
      && (r.repo == [] || r.repo[0] != '/')
      && NoDoubleSlash(r.repo)
  {
    var c := Clean(Parse(remote).value.path);
    CleanShape(Parse(remote).value.path);
    var t := TrimSuffix(c, ".git");
    assert forall i :: 0 <= i < |t| ==> t[i] == c[i];
    assert NoDoubleSlash(t);
    var r := TrimPrefix(t, "/");
    if HasPrefix(t, "/") {
      assert forall i :: 0 <= i < |r| ==> r[i] == t[i + 1];
      if |r| > 0 {
        assert !(t[0] == '/' && t[1] == '/');
      }
    }
  }

  /** A relative path of one or more names separated by single '/'s: the
      owner/name shape of a repository path. */
  predicate RepoPath(repo: string) {
    repo != [] && CleanSegs(Split(repo, '/'), true)
  }

  /** "/" + a repository path is clean, and stays clean with ".git" added. */
  lemma RepoPathClean(repo: string)
    requires RepoPath(repo)
    ensures Clean("/" + repo) == "/" + repo
    ensures Clean("/" + repo + ".git") == "/" + repo + ".git"
  {
    var segs := Split(repo, '/');
    assert ("/" + repo)[1..] == repo;
    assert "/" + repo != "/";
    CleanOfCleanRooted("/" + repo);
    SplitExtendLast(repo, ".git", '/');
    var segs2 := Split(repo + ".git", '/');
    assert segs2 == segs[..|segs| - 1] + [segs[|segs| - 1] + ".git"];
    var last := segs[|segs| - 1] + ".git";
    assert IsName(last) by {
      assert |last| >= 4;
      assert last[|last| - 4..] == ".git";
    }
    assert CleanSegs(segs2, true);
    assert ("/" + repo + ".git")[1..] == repo + ".git";
    CleanOfCleanRooted("/" + repo + ".git");
  }

  /** Reading back a remote written as scheme://[user@]host[:port]/<repo>
      with or without ".git" gives its host and repository path. */
  lemma ParseRemoteOfFormat(scheme: string, user: string, name: string, port: string, repo: string, suffix: string)
    requires ValidScheme(scheme) && ValidUser(user) && ValidHostName(name) && AllDigits(port)
    requires RepoPath(repo) && ValidPath("/" + repo + suffix)
    requires suffix == ".git" || (suffix == "" && !HasSuffix(repo, ".git"))
    ensures var remote := Format(scheme, user, name, port, "/" + repo + suffix);
      Parse(remote).Parsed? && ParseRemote(remote) == Remote(name + PortPart(port), repo)
  {
    ParseFormat(scheme, user, name, port, "/" + repo + suffix);
    RepoPathClean(repo);
    var c := "/" + repo + suffix;
    if suffix == ".git" {
      assert TrimSuffix(c, ".git") == "/" + repo;
    } else {
      assert c == "/" + repo;
      assert !HasSuffix(c, ".git");
    }
    assert TrimPrefix("/" + repo, "/") == repo;
  }

  /** Extra slashes after the host do not change the repository path. */
  lemma ParseRemoteExtraSlashes(scheme: string, user: string, name: string, port: string, extra: nat, repo: string)
    requires ValidScheme(scheme) && ValidUser(user) && ValidHostName(name) && AllDigits(port)
    requires RepoPath(repo) && ValidPath("/" + repo + ".git")
    ensures var path := Slashes(extra) + ("/" + repo + ".git");
      var remote := Format(scheme, user, name, port, path);
      Parse(remote).Parsed? && ParseRemote(remote) == Remote(name + PortPart(port), repo)
  {
    var path := Slashes(extra) + ("/" + repo + ".git");
    SlashesValid(extra, "/" + repo + ".git");
    CleanExtraSlashes(extra, repo);
    ParseRemoteOfPath(scheme, user, name, port, path, repo);
  }

  /** A remote written with any path that cleans to /<repo>.git. */
  lemma ParseRemoteOfPath(scheme: string, user: string, name: string, port: string, path: string, repo: string)
    requires ValidScheme(scheme) && ValidUser(user) && ValidHostName(name) && AllDigits(port)
    requires ValidPath(path) && Clean(path) == "/" + repo + ".git"
    ensures var remote := Format(scheme, user, name, port, path);
      Parse(remote).Parsed? && ParseRemote(remote) == Remote(name + PortPart(port), repo)
  {
    ParseFormat(scheme, user, name, port, path);
    RemoteOfCleanPath(Format(scheme, user, name, port, path), repo);
  }

  lemma CleanExtraSlashes(extra: nat, repo: string)
    requires RepoPath(repo)
    ensures Clean(Slashes(extra) + ("/" + repo + ".git")) == "/" + repo + ".git"
  {
    CleanSlashes(extra, repo + ".git");
    assert Slashes(extra) + ("/" + repo + ".git") == Slashes(extra) + "/" + (repo + ".git");
    assert "/" + repo + ".git" == "/" + (repo + ".git");
    RepoPathClean(repo);
  }

  lemma RemoteOfCleanPath(remote: string, repo: string)
    requires Parse(remote).Parsed? && Clean(Parse(remote).value.path) == "/" + repo + ".git"
    ensures ParseRemote(remote).repo == repo
  {
    assert TrimSuffix("/" + repo + ".git", ".git") == "/" + repo;
    assert TrimPrefix("/" + repo, "/") == repo;
  }

  /** owner/name is a repository path. */
  lemma OwnerNameIsRepoPath(owner: string, name: string)
    requires IsName(owner) && IsName(name)
    ensures RepoPath(owner + "/" + name)
  {
    SplitNoSep(owner, '/');
    SplitLast(owner, name, '/');
    assert owner + "/" + name == owner + ['/'] + name;
  }

  /** The pieces of the remote table test are valid URL parts. */
  lemma RemoteTableParts(scheme: string, host: string, owner: string, name: string)
    requires scheme == "https" && host == "github.com" && owner == "arbourd" && name == "git-open"
    ensures ValidScheme(scheme) && ValidUser("") && ValidHostName(host) && AllDigits("")
    ensures RepoPath(owner + "/" + name) && ValidPath("/" + (owner + "/" + name) + ".git")
    ensures ValidPath("/" + (owner + "/" + name)) && !HasSuffix(owner + "/" + name, ".git")
  {
    OwnerNameIsRepoPath(owner, name);
    RemoteTablePaths(owner, name, owner + "/" + name);
  }

  lemma RemoteTablePaths(owner: string, name: string, repo: string)
    requires owner == "arbourd" && name == "git-open" && repo == owner + "/" + name
    ensures ValidPath("/" + repo + ".git") && ValidPath("/" + repo) && !HasSuffix(repo, ".git")
  {
    assert repo == "arbourd/git-open";
    PlainPath(repo);
    PlainPath(repo + ".git");
    assert repo[|repo| - 4..] == "open";
  }

  /** A path of letters, '-', '.' and '/' after a leading '/' is read verbatim. */
  lemma PlainPath(r: string)
    requires forall k :: 0 <= k < |r| ==> IsLetter(r[k]) || r[k] == '-' || r[k] == '.' || r[k] == '/'
    ensures ValidPath("/" + r)
  {
    var p := "/" + r;
    assert forall k :: 1 <= k < |p| ==> p[k] == r[k - 1];
  }

  /** The remote table test, first row: no ".git". */
  lemma ParseRemotePlain(remote: string, scheme: string, host: string, owner: string, name: string)
    requires scheme == "https" && host == "github.com" && owner == "arbourd" && name == "git-open"
    requires remote == scheme + "://" + host + "/" + owner + "/" + name
    ensures Parse(remote).Parsed? && ParseRemote(remote) == Remote(host, owner + "/" + name)
  {
    RemoteTableParts(scheme, host, owner, name);
    RemoteShapePlain(scheme, host, owner, name);
    ParseRemoteOfFormat(scheme, "", host, "", owner + "/" + name, "");
  }

  /** The remote table test, second row: with ".git". */
  lemma ParseRemoteDotGit(remote: string, scheme: string, host: string, owner: string, name: string)
    requires scheme == "https" && host == "github.com" && owner == "arbourd" && name == "git-open"
    requires remote == scheme + "://" + host + "/" + owner + "/" + name + ".git"
    ensures Parse(remote).Parsed? && ParseRemote(remote) == Remote(host, owner + "/" + name)
  {
    RemoteTableParts(scheme, host, owner, name);
    RemoteShape(scheme, host, owner, name, ".git");
    ParseRemoteOfFormat(scheme, "", host, "", owner + "/" + name, ".git");
  }

  /** The remote table test, third row: four slashes after the host. */
  lemma ParseRemoteFourSlashes(remote: string, scheme: string, host: string, owner: string, name: string)
    requires scheme == "https" && host == "github.com" && owner == "arbourd" && name == "git-open"
    requires remote == scheme + "://" + host + "////" + owner + "/" + name + ".git"
    ensures Parse(remote).Parsed? && ParseRemote(remote) == Remote(host, owner + "/" + name)
  {
    RemoteTableParts(scheme, host, owner, name);
    assert Slashes(3) == "///";
    RemoteShapeSlashes(scheme, host, Slashes(3), owner, name);
    ParseRemoteExtraSlashes(scheme, "", host, "", 3, owner + "/" + name);
  }

  /** How the table's remotes associate as formatted URLs. */
  lemma RemoteShape(scheme: string, host: string, owner: string, name: string, suffix: string)
    ensures scheme + "://" + host + "/" + owner + "/" + name + suffix
      == Format(scheme, "", host, "", "/" + (owner + "/" + name) + suffix)
  {
  }

  lemma RemoteShapePlain(scheme: string, host: string, owner: string, name: string)
    ensures scheme + "://" + host + "/" + owner + "/" + name
      == Format(scheme, "", host, "", "/" + (owner + "/" + name) + "")
  {
  }

  lemma RemoteShapeSlashes(scheme: string, host: string, extra: string, owner: string, name: string)
    requires extra == "///"
    ensures scheme + "://" + host + "////" + owner + "/" + name + ".git"
      == Format(scheme, "", host, "", extra + ("/" + (owner + "/" + name) + ".git"))
  {
  }

  function Slashes(n: nat): string
    decreases n
  {
    if n == 0 then [] else Slashes(n - 1) + "/"
  }

  lemma {:induction false} SlashesValid(n: nat, rest: string)
    requires ValidPath(rest) && rest != []
    ensures ValidPath(Slashes(n) + rest)
    decreases n
  {
    if n > 0 {
      SlashesValid(n - 1, "/" + rest);
      assert Slashes(n) + rest == Slashes(n - 1) + ("/" + rest);
    }
  }

  lemma {:induction false} CleanSlashes(n: nat, b: string)
    ensures Clean(Slashes(n) + "/" + b) == Clean("/" + b)
    decreases n
  {
    if n > 0 {
      CleanSlashes(n - 1, b);
      assert Slashes(n) + "/" + b == Slashes(n - 1) + "//" + b;
      DoubleSlashCollapses(Slashes(n - 1), b);
    }
  }

  // ----- paths (parsePath) -----

  /** filepath.Join of two elements: empty elements are ignored and the
      result is cleaned. */
  function FilepathJoin(a: string, b: string): string {
    if a == [] && b == [] then []
    else if a == [] then Clean(b)
    else if b == [] then Clean(a)
    else Clean(a + "/" + b)
  }

  /** filepath.Abs, with the working directory as a parameter. */
  function Abs(cwd: string, p: string): string {
    if HasPrefix(p, "/") then Clean(p) else FilepathJoin(cwd, p)
  }

  /** Why a path was rejected. */
  datatype PathError = NotExist(path: string) | OutsideRoot(path: string, gitroot: string)

  /** parsePath: "" is kept; otherwise the cleaned path must exist and its
      absolute form must start with gitroot, which is then cut off together
      with one leading '/'. `present(p)` is false exactly when stat reports
      that p does not exist (other stat failures let the path through). */
  function ParsePath(path: string, gitroot: string, cwd: string, present: string -> bool): Result<string, PathError> {
    if path == [] then Ok([])
    else
      var cleaned := Clean(path);
      if !present(cleaned) then Err(NotExist(cleaned))
      else
        var abs := Abs(cwd, cleaned);
        if !HasPrefix(abs, gitroot) then Err(OutsideRoot(abs, gitroot))
        else Ok(TrimPrefix(ReplaceFirst(abs, gitroot, ""), "/"))
  }

  lemma ReplacePrefix(s: string, pat: string)
    requires HasPrefix(s, pat)
    ensures ReplaceFirst(s, pat, "") == s[|pat|..]
  {
  }

  /** The outcome of parsePath: "" for "", an error exactly when the path
      is missing or outside gitroot, and otherwise the rest of the absolute
      path after gitroot (and after one '/'), which never starts with '/'. */
  lemma ParsePathResult(path: string, gitroot: string, cwd: string, present: string -> bool)
    ensures var r := ParsePath(path, gitroot, cwd, present);
      && (path == [] ==> r == Ok([]))
      && (r.Err? <==> path != [] && (!present(Clean(path)) || !HasPrefix(Abs(cwd, Clean(path)), gitroot)))
      && (r.Ok? && path != [] ==>
            var abs := Abs(cwd, Clean(path));
            (abs == gitroot + r.value || abs == gitroot + "/" + r.value)
            && (r.value == [] || r.value[0] != '/'))
  {
    if path != [] {
      var cleaned := Clean(path);
      CleanShape(path);
      var abs := Abs(cwd, cleaned);
      if present(cleaned) && HasPrefix(abs, gitroot) {
        AbsShape(cwd, cleaned);
        CutRoot(abs, gitroot);
      }
    }
  }

  /** Cutting gitroot and then one '/' off a path without "//" leaves a
      path that does not start with '/'. */
  lemma CutRoot(abs: string, gitroot: string)
    requires HasPrefix(abs, gitroot) && NoDoubleSlash(abs)
    ensures var v := TrimPrefix(ReplaceFirst(abs, gitroot, ""), "/");
      (abs == gitroot + v || abs == gitroot + "/" + v) && (v == [] || v[0] != '/')
  {
    ReplacePrefix(abs, gitroot);
    var rest := abs[|gitroot|..];
    assert abs == gitroot + rest;
    var v := TrimPrefix(rest, "/");
    if HasPrefix(rest, "/") {
      assert rest == "/" + v;
      if |v| > 0 {
        assert abs[|gitroot|] == '/' && abs[|gitroot| + 1] == v[0];
      }
    }
  }

  /** The absolute form of a path is clean: no "//" in it. */
  lemma AbsShape(cwd: string, p: string)
    ensures NoDoubleSlash(Abs(cwd, p))
  {
    if p == [] {
      if cwd != [] {
        CleanShape(cwd);
      }
    } else if HasPrefix(p, "/") {
      CleanShape(p);
    } else if cwd == [] {
      CleanShape(p);
    } else {
      CleanShape(cwd + "/" + p);
    }
  }

  /** The root the source compares against: the absolute git directory with
      ".git" trimmed, which keeps the '/' in front of ".git". */
  function GitRoot(gitDir: string, cwd: string): string {
    TrimSuffix(Abs(cwd, gitDir), ".git")
  }

  /** For a repository at the clean absolute directory d, gitroot is d
      followed by '/'. */
  lemma GitRootOfDir(d: string, cwd: string)
    requires d != [] && d[0] == '/' && RepoPath(d[1..])
    ensures GitRoot(d + "/.git", cwd) == d + "/"
  {
    var repo := d[1..];
    assert d == "/" + repo;
    RepoPathClean(repo);
    assert d + "/.git" == "/" + repo + "/.git";
    assert HasPrefix(d + "/.git", "/");
    CleanGitDir(repo);
    assert TrimSuffix(d + "/.git", ".git") == d + "/";
  }

  /** Since gitroot ends in '/', the repository directory d itself (what
      ".." gives from a direct subdirectory) fails the prefix check. */
  lemma RootDirIsOutside(d: string, cwd: string, path: string, present: string -> bool)
    requires d != [] && d[0] == '/' && RepoPath(d[1..])
    requires path != [] && present(Clean(path)) && Abs(cwd, Clean(path)) == d
    ensures ParsePath(path, GitRoot(d + "/.git", cwd), cwd, present) == Err(OutsideRoot(d, d + "/"))
  {
    GitRootOfDir(d, cwd);
  }

  /** "/" + repo + "/.git" is clean when repo is a path of names. */
  lemma CleanGitDir(repo: string)
    requires RepoPath(repo)
    ensures Clean("/" + repo + "/.git") == "/" + repo + "/.git"
  {
    var segs := Split(repo, '/');
    SplitLast(repo, ".git", '/');
    assert repo + "/.git" == repo + ['/'] + ".git";
    var segs2 := Split(repo + "/.git", '/');
    assert segs2 == segs + [".git"];
    assert IsName(".git");
    assert CleanSegs(segs2, true);
    assert ("/" + repo + "/.git")[1..] == repo + "/.git";
    CleanOfCleanRooted("/" + repo + "/.git");
  }

  /** A path inside the repository resolves to its part after gitroot. */
  lemma ParsePathInside(path: string, gitroot: string, cwd: string, present: string -> bool, rel: string)
    requires path != [] && present(Clean(path))
    requires Abs(cwd, Clean(path)) == gitroot + rel && (rel == [] || rel[0] != '/')
    ensures ParsePath(path, gitroot, cwd, present) == Ok(rel)
  {
    ReplacePrefix(gitroot + rel, gitroot);
    assert (gitroot + rel)[|gitroot|..] == rel;
  }

  // ----- the URL to open (GetURL) -----

  /** Why no URL could be produced. */
  datatype URLError = NotARepository | GitFailure(message: string) | ProviderNotFound(host: string)
  {
    function Message(): (m: string)
      ensures this == NotARepository ==> m == "not a git repository"
      ensures this.GitFailure? ==> m == this.message
      ensures this.ProviderNotFound? ==> m == "unable to find provider for: \"" + this.host + "\""
    {
      match this
      case NotARepository => "not a git repository"
      case GitFailure(m) => m
      case ProviderNotFound(h) => "unable to find provider for: \"" + h + "\""
    }
  }

  /** The index of the first provider whose base URL contains host, or |ps|
      when there is none. */
  function FirstMatch(ps: seq<Provider>, host: string): (i: nat)
    ensures i <= |ps|
    ensures i < |ps| ==> Contains(ps[i].baseURL, host)
    ensures forall j :: 0 <= j < i ==> !Contains(ps[j].baseURL, host)
  {
    if ps == [] then 0
    else if Contains(ps[0].baseURL, host) then 0
    else 1 + FirstMatch(ps[1..], host)
  }

  /** The URL GetURL produces, given what the git calls returned: the git
      directory, the remote URL and the current ref, each of which may have
      failed with a message. An invalid path argument falls back to "", and
      the first default provider whose base URL contains the remote's host
      is used. */
  function ResolveURL(arg: string, gitDir: Result<string, string>, cwd: string, present: string -> bool,
                      remote: Result<string, string>, ref: Result<string, string>): Result<string, URLError>
    requires gitDir.Ok? && remote.Ok? && ref.Ok? ==> Parse(remote.value).Parsed?
  {
    if gitDir.Err? then Err(NotARepository)
    else if remote.Err? then Err(GitFailure(remote.error))
    else if ref.Err? then Err(GitFailure(ref.error))
    else
      var t := ParseType(arg);
      var target := Target(arg, GitRoot(gitDir.value, cwd), cwd, present);
      var r := ParseRemote(remote.value);
      var i := FirstMatch(DefaultProviders, r.host);
      if i == |DefaultProviders| then Err(ProviderNotFound(r.host))
      else
        var p := DefaultProviders[i];
        match t
        case Commit => Ok(p.CommitURL(r.repo, target))
        case Path => Ok(p.PathURL(r.repo, ref.value, target))
        case Root => Ok(p.RootURL(r.repo))
  }

  /** The argument as GetURL passes it on: a path is replaced by its
      resolution, or by "" when parsePath fails. */
  function Target(arg: string, gitroot: string, cwd: string, present: string -> bool): (target: string)
    ensures ParseType(arg) != Path ==> target == arg
    ensures ParseType(arg) == Path && ParsePath(arg, gitroot, cwd, present).Err? ==> target == []
    ensures ParseType(arg) == Path && ParsePath(arg, gitroot, cwd, present).Ok? ==> target == ParsePath(arg, gitroot, cwd, present).value
  {
    if ParseType(arg) == Path then
      match ParsePath(arg, gitroot, cwd, present)
      case Ok(v) => v
      case Err(_) => []
    else arg
  }

  /** The provider search of GetURL: the first provider whose base URL
      contains host, or the zero provider (empty base URL) when none does. */
  method FindProvider(providers: seq<Provider>, host: string) returns (p: Provider)
    ensures var i := FirstMatch(providers, host);
      (i < |providers| ==> p == providers[i]) && (i == |providers| ==> p == Provider([], [], []))
  {
    p := Provider([], [], []);
    for i := 0 to |providers|
      invariant p == Provider([], [], [])
      invariant forall j :: 0 <= j < i ==> !Contains(providers[j].baseURL, host)
    {
      if Contains(providers[i].baseURL, host) {
        p := providers[i];
        assert FirstMatch(providers, host) == i;
        break;
      }
    }
  }

  /** GetURL: the imperative steps of the source, with the provider found by
      a loop that stops at the first match. */
  method GetURL(arg: string, gitDir: Result<string, string>, cwd: string, present: string -> bool,
                remote: Result<string, string>, ref: Result<string, string>) returns (r: Result<string, URLError>)
    requires gitDir.Ok? && remote.Ok? && ref.Ok? ==> Parse(remote.value).Parsed?
    ensures r == ResolveURL(arg, gitDir, cwd, present, remote, ref)
  {
    if gitDir.Err? {
      return Err(NotARepository);
    }
    var gitdir := Abs(cwd, gitDir.value);
    var gitroot := TrimSuffix(gitdir, ".git");
    assert gitroot == GitRoot(gitDir.value, cwd);

    var t := ParseType(arg);
    var target := arg;
    if t == Path {
      var parsed := ParsePath(arg, gitroot, cwd, present);
      target := if parsed.Ok? then parsed.value else [];
    }
    assert target == Target(arg, gitroot, cwd, present);

    if remote.Err? {
      return Err(GitFailure(remote.error));
    }
    if ref.Err? {
      return Err(GitFailure(ref.error));
    }
    var rem := ParseRemote(remote.value);

    var p := FindProvider(DefaultProviders, rem.host);
    BaseURLsNonEmpty();
    if |p.baseURL| == 0 {
      return Err(ProviderNotFound(rem.host));
    }

    var url: string;
    match t {
      case Commit => url := p.CommitURL(rem.repo, target);
      case Path => url := p.PathURL(rem.repo, ref.value, target);
      case Root => url := p.RootURL(rem.repo);
    }
    return Ok(url);
  }

  /** Every default provider has a base URL, so the empty base URL of the
      zero provider marks "none found". */
  lemma BaseURLsNonEmpty()
    ensures forall j :: 0 <= j < |DefaultProviders| ==> |DefaultProviders[j].baseURL| > 0
  {
    DefaultProvidersShape();
  }

  /** Git failures come first: no git directory is "not a git repository",
      and a failing remote or ref lookup is reported with its own message. */
  lemma GitErrorsPropagate(arg: string, gitDir: Result<string, string>, cwd: string, present: string -> bool,
                           remote: Result<string, string>, ref: Result<string, string>)
    requires gitDir.Ok? && remote.Ok? && ref.Ok? ==> Parse(remote.value).Parsed?
    ensures var r := ResolveURL(arg, gitDir, cwd, present, remote, ref);
      && (gitDir.Err? ==> r.Err? && r.error.Message() == "not a git repository")
      && (gitDir.Ok? && remote.Err? ==> r.Err? && r.error.Message() == remote.error)
      && (gitDir.Ok? && remote.Ok? && ref.Err? ==> r.Err? && r.error.Message() == ref.error)
  {
  }

  /** Once git has answered, the only error is an unknown host, and it
      happens exactly when no default provider's base URL contains it. */
  lemma ProviderNotFoundIff(arg: string, gitDir: Result<string, string>, cwd: string, present: string -> bool,
                            remote: Result<string, string>, ref: Result<string, string>)
    requires gitDir.Ok? && remote.Ok? && ref.Ok? && Parse(remote.value).Parsed?
    ensures var r := ResolveURL(arg, gitDir, cwd, present, remote, ref);
      var host := ParseRemote(remote.value).host;
      (r.Err? <==> forall j :: 0 <= j < |DefaultProviders| ==> !Contains(DefaultProviders[j].baseURL, host))
      && (r.Err? ==> r.error == ProviderNotFound(host))
  {
  }

  /** The empty host (a remote with no authority) matches the first
      provider, GitHub. */
  lemma EmptyHostIsGitHub()
    ensures FirstMatch(DefaultProviders, "") == 0
  {
    assert HasPrefix(DefaultProviders[0].baseURL, "");
  }

  /** FirstMatch finds the first provider that contains host. */
  lemma FirstMatchAt(ps: seq<Provider>, host: string, i: nat)
    requires i < |ps| && Contains(ps[i].baseURL, host)
    requires forall j :: 0 <= j < i ==> !Contains(ps[j].baseURL, host)
    ensures FirstMatch(ps, host) == i
  {
  }

  /** Over the three default providers, FirstMatch tries each base URL in
      turn. */
  lemma FirstMatchDefault(host: string)
    ensures var c0 := Contains(DefaultProviders[0].baseURL, host);
      var c1 := Contains(DefaultProviders[1].baseURL, host);
      var c2 := Contains(DefaultProviders[2].baseURL, host);
      FirstMatch(DefaultProviders, host) == if c0 then 0 else if c1 then 1 else if c2 then 2 else 3
  {
    FirstMatchOfThree(DefaultProviders, host);
  }

  lemma FirstMatchOfThree(ps: seq<Provider>, host: string)
    requires |ps| == 3
    ensures var c0 := Contains(ps[0].baseURL, host);
      var c1 := Contains(ps[1].baseURL, host);
      var c2 := Contains(ps[2].baseURL, host);
      FirstMatch(ps, host) == if c0 then 0 else if c1 then 1 else if c2 then 2 else 3
  {
    assert ps[1..][1..][1..] == [];
  }

  /** `sub` occurs in `s` at a given index. */
  lemma ContainedAt(s: string, sub: string, i: nat)
    requires OccursAt(s, sub, i)
    ensures Contains(s, sub)
  {
    ContainsAt(s, sub);
  }

  /** Hosts are matched by substring: GitHub's host selects GitHub, and so
      does a suffix of it such as "hub.com". */
  lemma GitHubHosts(host: string)
    requires host == "github.com" || host == "hub.com"
    ensures FirstMatch(DefaultProviders, host) == 0
  {
    FirstMatchDefault(host);
    DefaultProvidersShape();
    GitHubHostsFacts(DefaultProviders[0].baseURL, host);
  }

  lemma GitHubHostsFacts(g: string, host: string)
    requires g == "https://github.com" && (host == "github.com" || host == "hub.com")
    ensures Contains(g, host)
  {
    assert OccursAt(g, host, |g| - |host|);
    ContainedAt(g, host, |g| - |host|);
  }

  /** GitLab's host selects GitLab. */
  lemma GitLabHost(host: string)
    requires host == "gitlab.com"
    ensures FirstMatch(DefaultProviders, host) == 1
  {
    FirstMatchDefault(host);
    DefaultProvidersShape();
    GitLabHostFacts(DefaultProviders[0].baseURL, DefaultProviders[1].baseURL, host);
  }

  lemma GitLabHostFacts(g: string, gl: string, host: string)
    requires g == "https://github.com" && gl == "https://gitlab.com" && host == "gitlab.com"
    ensures !Contains(g, host) && Contains(gl, host)
  {
    assert gl == "https://" + host;
    assert 'l' in host && 'l' !in g;
    SecondContains(g, gl, host, 'l');
  }

  /** "https://" + host contains host. */
  lemma HttpsContains(b: string, host: string)
    requires b == "https://" + host
    ensures Contains(b, host)
  {
    assert b[8..] == host;
    assert OccursAt(b, host, 8);
    ContainedAt(b, host, 8);
  }

  /** Bitbucket's host selects Bitbucket. */
  lemma BitbucketHost(host: string)
    requires host == "bitbucket.org"
    ensures FirstMatch(DefaultProviders, host) == 2
  {
    FirstMatchDefault(host);
    DefaultProvidersShape();
    BitbucketHostFacts(DefaultProviders[0].baseURL, DefaultProviders[1].baseURL, DefaultProviders[2].baseURL, host);
  }

  lemma BitbucketHostFacts(g: string, gl: string, bb: string, host: string)
    requires g == "https://github.com" && gl == "https://gitlab.com" && bb == "https://bitbucket.org"
    requires host == "bitbucket.org"
    ensures !Contains(g, host) && !Contains(gl, host) && Contains(bb, host)
  {
    assert bb == "https://" + host;
    assert 'k' in host && 'k' !in g && 'k' !in gl;
    ThirdContains(g, gl, bb, host, 'k');
  }

  /** A host no default base URL contains selects no provider. */
  lemma UnknownHost(host: string)
    requires host == "example.com"
    ensures FirstMatch(DefaultProviders, host) == |DefaultProviders|
  {
    FirstMatchDefault(host);
    DefaultProvidersShape();
    UnknownHostFacts(DefaultProviders[0].baseURL, DefaultProviders[1].baseURL, DefaultProviders[2].baseURL, host);
  }

  lemma UnknownHostFacts(g: string, gl: string, bb: string, host: string)
    requires g == "https://github.com" && gl == "https://gitlab.com" && bb == "https://bitbucket.org"
    requires host == "example.com"
    ensures !Contains(g, host) && !Contains(gl, host) && !Contains(bb, host)
  {
    assert 'x' in host;
    assert 'x' !in g && 'x' !in gl && 'x' !in bb;
    NoneContains(g, gl, bb, host, 'x');
  }

  lemma SecondContains(g: string, gl: string, host: string, c: char)
    requires gl == "https://" + host && c in host && c !in g
    ensures !Contains(g, host) && Contains(gl, host)
  {
    HttpsContains(gl, host);
    NotContained(g, host, c);
  }

  lemma ThirdContains(g: string, gl: string, bb: string, host: string, c: char)
    requires bb == "https://" + host && c in host && c !in g && c !in gl
    ensures !Contains(g, host) && !Contains(gl, host) && Contains(bb, host)
  {
    HttpsContains(bb, host);
    NotContained(g, host, c);
    NotContained(gl, host, c);
  }

  lemma NoneContains(g: string, gl: string, bb: string, host: string, c: char)
    requires c in host && c !in g && c !in gl && c !in bb
    ensures !Contains(g, host) && !Contains(gl, host) && !Contains(bb, host)
  {
    NotContained(g, host, c);
    NotContained(gl, host, c);
    NotContained(bb, host, c);
  }

  /** A string that lacks one of sub's characters does not contain sub. */
  lemma NotContained(s: string, sub: string, c: char)
    requires c in sub && c !in s
    ensures !Contains(s, sub)
  {
    ContainsAt(s, sub);
  }

  /** What a successful GetURL returns for each kind of argument: a commit
      URL for a SHA, a path URL for a path (with the path resolved against
      gitroot, or "" when that fails), and the root URL otherwise. */
  lemma URLByType(arg: string, gitDir: Result<string, string>, cwd: string, present: string -> bool,
                  remote: Result<string, string>, ref: Result<string, string>)
    requires gitDir.Ok? && remote.Ok? && ref.Ok? && Parse(remote.value).Parsed?
    requires FirstMatch(DefaultProviders, ParseRemote(remote.value).host) < |DefaultProviders|
    ensures var r := ResolveURL(arg, gitDir, cwd, present, remote, ref);
      var rem := ParseRemote(remote.value);
      var p := DefaultProviders[FirstMatch(DefaultProviders, rem.host)];
      var parsed := ParsePath(arg, GitRoot(gitDir.value, cwd), cwd, present);
      r.Ok?
      && (arg == [] ==> r.value == p.RootURL(rem.repo))
      && (IsCommitSHA(arg) ==> r.value == p.CommitURL(rem.repo, arg))
      && (arg != [] && !IsCommitSHA(arg) && parsed.Ok? ==> r.value == p.PathURL(rem.repo, ref.value, parsed.value))
      && (arg != [] && !IsCommitSHA(arg) && parsed.Err? ==> r.value == p.PathURL(rem.repo, ref.value, []))
  {
  }

  /** A path that does not resolve opens the ref's tree at the repository
      root: the path URL built with the empty path. */
  lemma BadPathOpensTree(arg: string, gitDir: Result<string, string>, cwd: string, present: string -> bool,
                         remote: Result<string, string>, ref: Result<string, string>)
    requires gitDir.Ok? && remote.Ok? && ref.Ok? && Parse(remote.value).Parsed?
    requires FirstMatch(DefaultProviders, ParseRemote(remote.value).host) < |DefaultProviders|
    requires arg != [] && !IsCommitSHA(arg)
    requires !present(Clean(arg)) || !HasPrefix(Abs(cwd, Clean(arg)), GitRoot(gitDir.value, cwd))
    ensures var rem := ParseRemote(remote.value);
      var p := DefaultProviders[FirstMatch(DefaultProviders, rem.host)];
      ResolveURL(arg, gitDir, cwd, present, remote, ref)
        == Ok(EscapeKeepSlash(p.baseURL + "/" + rem.repo + "/" + p.pathPrefix + "/") + EscapeKeepSlash(ref.value))
  {
    ParsePathResult(arg, GitRoot(gitDir.value, cwd), cwd, present);
    URLByType(arg, gitDir, cwd, present, remote, ref);
    var rem := ParseRemote(remote.value);
    var p := DefaultProviders[FirstMatch(DefaultProviders, rem.host)];
    PathURLEmptyPath(p, rem.repo, ref.value);
  }

  /** End to end: in a repository whose remote is a GitHub URL, a commit SHA
      opens https://github.com/<owner/name>/commit/<sha>. */
  lemma GitHubCommitEndToEnd(sha: string, gitDir: string, cwd: string, present: string -> bool,
                             scheme: string, user: string, repo: string, ref: string)
    requires ValidScheme(scheme) && ValidUser(user)
    requires RepoPath(repo) && ValidPath("/" + repo + ".git") && AllUrlSafe(repo)
    requires IsCommitSHA(sha)
    ensures var remote := Format(scheme, user, "github.com", "", "/" + repo + ".git");
      Parse(remote).Parsed?
      && ResolveURL(sha, Ok(gitDir), cwd, present, Ok(remote), Ok(ref)) == Ok("https://github.com/" + repo + "/commit/" + sha)
  {
    var remote := Format(scheme, user, "github.com", "", "/" + repo + ".git");
    assert ValidHostName("github.com");
    ParseRemoteOfFormat(scheme, user, "github.com", "", repo, ".git");
    assert ParseRemote(remote) == Remote("github.com", repo);
    GitHubHosts("github.com");
    assert AllUrlSafe(sha) by {
      forall i | 0 <= i < |sha| ensures UrlSafe(sha[i]) {
        assert IsLowerHex(sha[i]);
      }
    }
    GitHubCommitURL(DefaultProviders[0], repo, sha);
  }

  /** From the subdirectory d/sub, "../f" is the absolute path d/f. */
  lemma AbsParent(d: string, sub: string, f: string)
    requires d != [] && d[0] == '/' && RepoPath(d[1..])
    requires IsName(sub) && IsName(f)
    ensures Abs(d + "/" + sub, "../" + f) == (d + "/") + f
  {
    var cwd := d + "/" + sub;
    assert !HasPrefix("../" + f, "/");
    assert cwd + "/" + ("../" + f) == "/" + d[1..] + "/" + sub + "/../" + f;
    ParentCancels(d[1..], sub, f);
    assert "/" + d[1..] + "/" + f == (d + "/") + f;
  }

  /** From a subdirectory sub of a repository at d, ".././/f" names the
      file f at the repository's top level. */
  lemma ParsePathFromSubdirectory(d: string, sub: string, f: string, cwd: string, present: string -> bool)
    requires d != [] && d[0] == '/' && RepoPath(d[1..])
    requires IsName(sub) && IsName(f) && cwd == d + "/" + sub
    requires present("../" + f)
    ensures ParsePath(".././/" + f, GitRoot(d + "/.git", cwd), cwd, present) == Ok(f)
  {
    CleanDotDotPrefix(f);
    GitRootOfDir(d, cwd);
    AbsParent(d, sub, f);
    ParsePathInside(".././/" + f, d + "/", cwd, present, f);
  }
}
