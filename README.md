# git-open, modelled in Dafny

git-open is a git subcommand that opens the web page of the current
repository on its hosting provider (GitHub, GitLab, Bitbucket). It takes
at most one argument:

- no argument opens the repository root;
- a commit SHA (7 to 64 lower-case hex digits) opens that commit;
- anything else is taken as a path and opens its tree page at the current
  ref (branch, tag or commit).

This project models the core of the program:

- how `processArgs` reads the command line;
- how `GetURL` classifies the argument (`parseType`), resolves a path
  against the repository root (`parsePath`), takes the host and repository
  path out of the remote (`parseRemote`), and picks the first built-in
  provider whose base URL contains the host;
- how a `Provider` builds commit, path and root URLs through `escapePath`;
- how `LoadProviders` turns `git config --get-regexp '^open\..*prefix$'`
  output into user-configured providers.

The Go library functions the core relies on are modelled as well, each in
its own module:

- `path.Clean` / `filepath.Clean`: `CleanPath`, a stack over path elements;
- `url.PathEscape`: `Escape`, with UTF-8 encoding and a decoder as its
  partner;
- the part of `url.Parse` a remote goes through: `UrlParse`;
- the `strings` functions used: `Strs`.

The git calls (`git rev-parse --git-dir`, the remote URL, the current ref,
`git config`) are not run. Their results, or their error messages, are
parameters. So are the working directory and the existence test of
`os.Stat`, which is a predicate `present`.

Files:

| file | module | models |
|---|---|---|
| `wrappers.dfy` | `Wrappers` | `Result`, standing in for Go's `(value, error)` pairs |
| `strs.dfy` | `Strs` | `strings.HasPrefix/TrimPrefix/TrimSuffix/Contains/Split/Join/ReplaceAll/Replace/TrimSpace`; `%d` formatting |
| `cleanpath.dfy` | `CleanPath` | `path.Clean` |
| `escape.dfy` | `Escape` | `url.PathEscape` and percent-decoding |
| `urlparse.dfy` | `UrlParse` | `url.Parse`, for the remotes git-open reads |
| `provider.dfy` | `Providers` | `open/provider.go` |
| `open.dfy` | `Open` | `open/open.go` |
| `cli.dfy` | `Cli` | `processArgs` in `main.go` |

Where the code and its documentation differ, the model follows the code:

- A config line's value is kept only when the line has exactly two
  space-separated fields. A value that holds a space sets the key to "".
- `parseRemote` trims a single ".git" suffix, after cleaning.
- `gitroot` is the absolute git directory with only the text ".git"
  trimmed, so it keeps its trailing '/'. The repository directory itself
  therefore never passes `parsePath`'s prefix test. From a direct
  subdirectory, ".." opens the tree at the ref (`Open.RootDirIsOutside`,
  `Open.BadPathOpensTree`).

## Model

| member | source | states |
|---|---|---|
| Cli.ProcessArgs | main.go:32-41 | one element gives Ok(""), two give Ok of the argument, and exactly those counts succeed. Any other count gives "recieved <n> args, accepts 1", where n is the canonical numeral of len(args)-1 (no leading zero, no "-0") and reads back as that number |
| Cli.ProcessArgsExamples | main_test.go:13-26 | the command-line table: no argument, one argument, two arguments refused with count 2; an empty vector reports -1 |
| Open.MatchHexRepeatIff | open/open.go:138 | the matcher for `^[0-9a-f]{7,64}$` accepts a string exactly when it has lo to hi characters, all lower-case hex digits |
| Open.ParseType | open/open.go:141-154 | Root exactly for the empty argument; Commit exactly for a commit SHA; Path exactly for every other argument |
| Open.ParseTypeExamples | open/open_test.go:123-160 | the classification table: "", a short SHA, a too-short SHA, SHA-like names with extra text, file names and "../" |
| Open.ParseTypeLongSha | open/open_test.go:132-135 | the "long commit sha" row: a full 40-digit SHA is a commit |
| Open.ParseRemote | open/open.go:132-136 | defines parseRemote: the parsed URL's host, and its path cleaned with one ".git" and one leading '/' trimmed. Its properties are the lemmas below: Open.RemoteRepoShape (shape) and Open.ParseRemoteOfFormat (round trip) |
| Open.RemoteRepoShape | open/open.go:132-136 | the host is the parsed URL's host; the repository path never starts with '/' and never holds "//" |
| Open.ParseRemoteOfFormat | open/open.go:132-136 | round trip: a remote written as scheme://[user@]host[:port]/repo, with or without ".git", parses back to host[:port] and repo |
| Open.ParseRemoteExtraSlashes | open/open.go:134 | for a remote whose path is /repo with a ".git" suffix, any number of extra slashes after the host leaves the repository path unchanged |
| Open.ParseRemoteOfPath | open/open.go:132-136 | a remote whose path cleans to /repo.git gives the host and repo |
| Open.RemoteOfCleanPath | open/open.go:134 | the repository is the cleaned path without ".git" and its leading '/' |
| Open.ParseRemotePlain | open/open_test.go:93-97 | the "simple" remote gives github.com and arbourd/git-open |
| Open.ParseRemoteDotGit | open/open_test.go:98-102 | the ".git suffix" remote gives the same |
| Open.ParseRemoteFourSlashes | open/open_test.go:103-107 | the "extra slashes" remote gives the same |
| Open.ParsePath | open/open.go:95-118 | defines parsePath: "" kept, then Clean, the existence test, Abs, the gitroot prefix test and the cut. Its properties: Open.ParsePathResult (result and error cases) and Open.CutRoot (the cut rebuilds the path) |
| Open.ParsePathResult | open/open.go:95-118 | "" gives Ok(""). Otherwise the result is an error exactly when the cleaned path is missing or its absolute form does not start with gitroot. A success is the absolute path after gitroot and at most one '/', and never starts with '/' |
| Open.CutRoot | open/open.go:113-116 | cutting gitroot and one '/' off a path without "//" leaves a relative path that rebuilds the original |
| Open.FilepathJoin | open/open.go:105 | defines filepath.Join of two elements: empty elements ignored, result cleaned. Open.AbsShape and Open.AbsParent state what it yields |
| Open.Abs | open/open.go:105 | defines filepath.Abs with the working directory as a parameter: a rooted path is cleaned, any other is joined to cwd. Open.AbsShape (no "//") and Open.AbsParent (".." cancels) are its properties |
| Open.AbsShape | open/open.go:105 | an absolute path never holds "//" |
| Open.ParsePathInside | open/open.go:95-118 | an existing path whose absolute form is gitroot + rel resolves to rel |
| Open.GitRoot | open/open.go:53-54 | defines gitroot: the absolute git directory with ".git" trimmed. Open.GitRootOfDir states it is the repository directory followed by '/' |
| Open.GitRootOfDir | open/open.go:53-54 | for a repository at the clean directory d, gitroot is d followed by '/' |
| Open.RootDirIsOutside | open/open.go:108-110 | a path that resolves to the repository directory itself is rejected as outside gitroot |
| Open.AbsParent | open/open.go:105 | from the subdirectory d/sub, "../f" is absolute d/f |
| Open.ParsePathFromSubdirectory | open/open_test.go:201-204 | from a subdirectory, ".././/f" resolves to f |
| Open.URLError.Message | open/open.go:49-79 | the error texts: "not a git repository", a git failure's own message, and `unable to find provider for: "<host>"` |
| Open.FirstMatch | open/open.go:68-74 | the index of the first provider whose base URL contains the host, and none before it does; the length when none does |
| Open.Target | open/open.go:56-59 | a non-path argument is passed on as it is; a path is replaced by its parsePath result, or by "" on error |
| Open.FindProvider | open/open.go:68-74 | the loop returns the first provider whose base URL contains the host, or the zero provider when there is none |
| Open.ResolveURL | open/open.go:48-92 | defines GetURL's result as a function of the git answers. Open.GetURL is proved equal to it. Its properties: Open.GitErrorsPropagate, Open.ProviderNotFoundIff and Open.URLByType |
| Open.GetURL | open/open.go:48-92 | the imperative GetURL returns exactly ResolveURL of the same inputs |
| Open.BaseURLsNonEmpty | open/open.go:77-79 | every built-in base URL is non-empty, so an empty base URL means "not found" |
| Open.GitErrorsPropagate | open/open.go:48-64 | a missing git directory gives "not a git repository"; a failing remote or ref lookup gives its own message |
| Open.ProviderNotFoundIff | open/open.go:68-79 | once git has answered, the result is an error exactly when no built-in base URL contains the host, and the error names that host |
| Open.EmptyHostIsGitHub | open/open.go:69-74 | the empty host matches the first provider |
| Open.FirstMatchAt | open/open.go:69-74 | the first provider whose base URL contains the host is the one chosen |
| Open.FirstMatchDefault | open/open.go:69-74 | over the built-in list, GitHub, GitLab and Bitbucket are tried in that order |
| Open.GitHubHosts | open/open.go:70 | "github.com" and a substring such as "hub.com" both select GitHub |
| Open.GitLabHost | open/open.go:70 | "gitlab.com" selects GitLab |
| Open.BitbucketHost | open/open.go:70 | "bitbucket.org" selects Bitbucket |
| Open.UnknownHost | open/open.go:77-79 | "example.com" selects no provider |
| Open.URLByType | open/open.go:81-91 | a successful GetURL gives: the root URL for ""; the commit URL for a SHA; the path URL of the resolved path, or of "" when it does not resolve, for anything else |
| Open.BadPathOpensTree | open/open_test.go:45-60 | a path that is missing or outside the repository opens the ref's tree page, with no trailing '/' |
| Open.GitHubCommitEndToEnd | open/open_test.go:41-44 | a GitHub remote and a SHA give https://github.com/<repo>/commit/<sha> |
| Providers.DefaultProvidersShape | open/provider.go:12-28 | the three built-in providers, in order, with their base URLs and prefixes; no base URL ends in '/' |
| Providers.DefaultProvidersSafe | open/provider.go:12-28 | every piece of the built-in providers passes escapePath unchanged |
| Providers.Provider.CommitURL | open/provider.go:38-40 | defines the commit URL: escapePath of base, repo, commit prefix and SHA joined by '/'. Providers.URLsBySegments and Providers.CommitURLPlain are its properties |
| Providers.Provider.PathURL | open/provider.go:43-45 | defines the path URL: escapePath of base, repo, path prefix, ref and path joined by '/'. Providers.URLsBySegments, Providers.PathURLPlain and Providers.PathURLEmptyPath are its properties |
| Providers.Provider.RootURL | open/provider.go:48-50 | defines the root URL: escapePath of base and repo joined by '/'. Providers.URLsBySegments and Providers.RootURLPlain are its properties |
| Providers.URLsBySegments | open/provider.go:37-50 | each builder joins its pieces with '/', percent-encodes everything but the '/'s, and drops one trailing '/' |
| Providers.PathURLEmptyPath | open/provider.go:43-45 | with an empty path, the tree URL ends at the escaped ref |
| Providers.CommitURLPlain | open/provider.go:38-40 | on URL-safe pieces ending in a name, the commit URL is base/repo/commitPrefix/sha |
| Providers.PathURLPlain | open/provider.go:43-45 | on URL-safe pieces with a path ending in a name (non-empty, no trailing '/'), the path URL is base/repo/pathPrefix/ref/path |
| Providers.RootURLPlain | open/provider.go:48-50 | on URL-safe pieces with a repo ending in a name (non-empty, no trailing '/'), the root URL is base/repo |
| Providers.DefaultProviderURLs | open/provider.go:12-50 | for URL-safe pieces that end in a name, every built-in provider builds all three URLs by joining the pieces with '/' (general case: Providers.URLsBySegments) |
| Providers.GitHubCommitURL | open/provider_test.go:23-27 | for URL-safe pieces that end in a name, GitHub commit URLs have the form https://github.com/<repo>/commit/<sha> (general case: Providers.URLsBySegments) |
| Providers.GitLabPathURL | open/provider_test.go:63-68 | for URL-safe pieces that end in a name, GitLab tree URLs go through "-/tree" (general case: Providers.URLsBySegments) |
| Providers.BitbucketRootURL | open/provider_test.go:100-103 | for URL-safe pieces that end in a name, Bitbucket root URLs have the form https://bitbucket.org/<repo> (general case: Providers.URLsBySegments) |
| Providers.EscapePath | open/provider.go:53-55 | defines escapePath: url.PathEscape, "%2F" back to '/', one trailing '/' trimmed. Its properties: Providers.EscapePathKeepsSlashes, Providers.EscapePathDecodes and Providers.EscapePathTrimsOneSlash |
| Providers.EscapePathKeepsSlashes | open/provider.go:52-55 | escapePath is per-character escaping with '/' kept, after one trailing '/' is trimmed |
| Providers.EscapePathDecodes | open/provider.go:53-55 | decoding escapePath's output gives the UTF-8 bytes of the input, less one trailing '/' |
| Providers.EscapePathTrimsOneSlash | open/provider.go:54 | only one trailing '/' is trimmed: input ending in "//" still yields a URL ending in '/' |
| Providers.EscapePathSafe | open/provider_test.go:121-124 | a URL of URL-safe characters comes back unchanged, apart from one trailing '/' |
| Providers.EscapeSpace | open/provider.go:54 | a space becomes "%20" |
| Providers.EscapePathSpaces | open/provider_test.go:125-128 | in a URL of safe characters and spaces, not ending in '/', each space becomes "%20" and nothing else changes |
| Providers.Fields | open/provider.go:79 | the "open."-stripped line split on spaces: at least one field, and no field holds a space |
| Providers.ParseConfigLine | open/provider.go:79-88 | the key holds no '.' and the value no space. Providers.ParseConfigLineRoundTrip and Providers.ConfigLineName state what the pieces are |
| Providers.ParseConfigLineRoundTrip | open/provider.go:79-88 | "open.<base>.<key> <value>" parses back to base, key and value |
| Providers.ValueWithSpaceIsDropped | open/provider.go:81-84 | a value holding a space makes three or more fields, and the key is set to "" |
| Providers.ConfigLineName | open/provider.go:86-88 | the key is what follows the last '.' of the name, and the base URL what precedes it |
| Providers.ConfigLineNoDot | open/provider.go:86-88 | a name without '.' is all key, with an empty base URL |
| Providers.ConfigLineOfFields | open/provider.go:79-88 | a line whose first field is base.key parses to that base and key; the value is the second field only when there are exactly two |
| Providers.Apply | open/provider.go:90-102 | one line adds its base URL to the keys and leaves every other base URL's entry unchanged; Providers.ApplyLine states the new entry |
| Providers.ApplyAll | open/provider.go:78-103 | defines the map built by applying the parsed lines in order. Its properties: Providers.ApplyAllKeys, Providers.LastLineWins and Providers.UnsetFieldIsEmpty |
| Providers.Accumulate | open/provider.go:78-103 | defines the map the loop builds from the raw lines. Providers.AccumulateStep makes it the loop invariant of Providers.LoadProviders |
| Providers.ApplyLine | open/provider.go:90-102 | one line creates its base URL's entry if missing, then sets commitprefix or pathprefix; any other key leaves the entry as it was |
| Providers.AccumulateStep | open/provider.go:78-103 | each further line is one more application, in order |
| Providers.ApplyAllKeys | open/provider.go:90-95 | a base URL has an entry exactly when some line names it |
| Providers.LastLineWins | open/provider.go:97-102 | the last line that sets a field of a base URL decides that field |
| Providers.UnsetFieldIsEmpty | open/provider.go:90-102 | a field no line sets stays "" |
| Providers.OtherKeyCreatesEntry | open/provider.go:90-102 | a line with another key still creates an empty entry for its base URL |
| Providers.Configured | open/provider.go:66-103 | defines the map for the whole config output: empty after TrimSpace gives no entry. Providers.LoadProviders is proved against it |
| Providers.ConfiguredLines | open/provider.go:69-78 | output of newline-joined lines with no surrounding space is read back line by line |
| Providers.OneProvider | open/provider_test.go:172-181 | the "single provider" configuration gives one entry with both prefixes |
| Providers.TwoProviders | open/provider_test.go:182-192 | the "multiple providers" configuration gives two independent entries |
| Providers.CollectProviders | open/provider.go:105-111 | one provider per map entry, each built from its entry, with no base URL twice |
| Providers.LoadProviders | open/provider.go:66-113 | empty trimmed output gives no providers. Otherwise the result holds exactly one provider per configured base URL, with the prefixes the config lines give it, in no particular order |
| CleanPath.Clean | open/open.go:99 | defines path.Clean as a stack fold over the elements. Its properties: CleanPath.CleanShape, CleanPath.CleanIdempotent and CleanPath.CleanFixpoints |
| CleanPath.CleanShape | open/open.go:99 | path.Clean's result is never empty and is clean. It is rooted exactly when the input is, holds no "//", and ends in '/' only when it is "/" |
| CleanPath.CleanIdempotent | open/open.go:134 | cleaning twice is cleaning once |
| CleanPath.CleanFixpoints | open/open.go:134 | a path is its own clean form exactly when it is already clean |
| CleanPath.DoubleSlashCollapses | open/open.go:134 | a doubled slash cleans like a single one |
| CleanPath.ParentCancels | open/open.go:105 | under a clean rooted directory, "sub/.." cancels |
| CleanPath.CleanDotDotPrefix | open/open.go:99 | ".././/f" cleans to "../f" |
| Escape.Utf8 | open/provider.go:54 | UTF-8 gives one to four bytes. ASCII characters are one byte equal to the character; every other character gives bytes of 0x80 and above |
| Escape.PathEscape | open/provider.go:54 | defines url.PathEscape per character. Its partner is percent-decoding: Escape.UnescapePathEscape |
| Escape.UnescapePathEscape | open/provider.go:54 | percent-decoding url.PathEscape's output gives the UTF-8 bytes of the input |
| Escape.PathEscapeKeeps | open/provider.go:54 | a string of unreserved segment characters is not changed |
| Escape.PathEscapeAlphabet | open/provider.go:54 | the output holds only kept characters and uppercase percent-escapes |
| Escape.ReplaceIsKeepSlash | open/provider.go:54 | replacing "%2F" by '/' after url.PathEscape is escaping every character except '/' |
| Escape.KeepSlashAppend | open/provider.go:54 | that escaping distributes over concatenation |
| Escape.KeepSlashDecodes | open/provider.go:54 | that escaping decodes back to the UTF-8 bytes of its input |
| Escape.KeepSlashLast | open/provider.go:54 | its output ends in '/' exactly when the input does |
| UrlParse.Parse | open/open.go:133 | defines the part of url.Parse a remote goes through. UrlParse.ParseFormat is its round trip |
| UrlParse.ParseFormat | open/open.go:133 | round trip: url.Parse of scheme://[user@]host[:port]/path gives back that scheme, host[:port] and path |
| UrlParse.ParseAuthorityOfValid | open/open.go:133 | the host of a valid authority is what follows the user information |
| UrlParse.GetSchemeOfFormat | open/open.go:133 | the scheme is what precedes the first ':' |
| Strs.JoinSplit | open/provider.go:86-88 | joining the pieces of a split gives back the original string |
| Strs.SplitJoin | open/provider.go:78 | splitting a join of separator-free pieces gives back the pieces |
| Strs.IntToDecimalRoundTrip | main.go:39 | %d writes a canonical numeral (no leading zero, no "-0", a '-' when negative) that reads back as the number |
| Strs.NatToDecimalLeading | main.go:39 | the digits %d writes start with '0' only for 0 |
| Strs.TrimSpaceNoop | open/provider.go:69 | a string with no space at either end is unchanged by TrimSpace |

## Left out

- `InBrowser` (open/open.go:31-45) and `main` (main.go) start processes and print; they are not modelled.
- The git calls (`gitw.GitDir`, `getRemoteRef`, `git.Config`) are not modelled. Their results or error messages are parameters of `Open.GetURL` and `Providers.LoadProviders`. `git.Config`'s own error is ignored by the source, and an empty output covers that case.
- `os.Getwd` and the errors of `filepath.Abs` are not modelled. The working directory is a parameter: `Abs` cleans a rooted path and joins any other to cwd.
- `os.Stat` is the predicate `present`. The source rejects only "does not exist"; any other stat error lets the path through. `present` stands for "no does-not-exist error".
- Windows separators are not modelled: `filepath.ToSlash`, `FromSlash` and drive letters. The model uses '/' throughout.
- Open.ParseRemote requires the remote to be accepted by url.Parse and to lie outside the unmodelled subset of UrlParse.Parse ('?', '#', '%', a '[' host). The source ignores the parse error and then reads the fields of a nil URL, which panics. Remotes that Go accepts but that hold '?', '#', '%' or a bracketed host, such as one with a percent-escaped space in its path, are not covered.
- Open.ResolveURL, Open.GetURL: they inherit Open.ParseRemote's requires, so remotes holding '?', '#', '%' or a '[' host are outside their domain, although git-open handles the ones Go accepts.
- UrlParse.Parse: queries ('?'), fragments ('#'), percent-escapes in the remote, and bracketed IPv6 hosts give `Unmodelled`. The scheme is not lower-cased. Only the fields git-open reads are kept (scheme, opaque part, host, path).
- Providers.LoadProviders: Go's map iteration order is random, so the order of the returned providers is left unspecified. The contract pins the set of providers and their contents, but not the order.
- Escape.Utf8: characters are Unicode scalar values encoded as UTF-8. Invalid UTF-8 in Go strings (lone bytes) is not modelled.
- The table tests that depend on the file system or on this repository's own checkout are stated for any repository directory and file name: Open.ParsePathFromSubdirectory, Open.RootDirIsOutside and Open.ParsePathInside. The "out of git root" and "out of git dir" rows follow from Open.ParsePathResult and Open.BadPathOpensTree.
- Open.GitHubHosts, Open.GitLabHost, Open.BitbucketHost, Open.UnknownHost, Open.ParseTypeLongSha, Open.ParseRemotePlain, Open.ParseRemoteDotGit, Open.ParseRemoteFourSlashes: these take their input (host, SHA or remote) as a parameter fixed by `requires`, instead of a literal in the ensures.
