/** Lexical path cleaning as Go's `path.Clean` (and `filepath.Clean` with `/`
    as the separator) performs it: runs of slashes become one, `.` elements go,
    an element followed by `..` goes with it, `..` directly under the root goes,
    and an empty result becomes ".". The code works over the list of elements
    between slashes with a stack, which is the same rewrite as Go's in-place
    scan. */
module CleanPath {
  import opened Strs

  /** A path element that survives cleaning as a name. */
  predicate IsName(seg: string) {
    seg != "" && seg != "." && seg != ".." && '/' !in seg
  }

  /** Processing one element against the elements kept so far. */
  function Push(stack: seq<string>, seg: string, rooted: bool): seq<string> {
    if seg == "" || seg == "." then stack
    else if seg == ".." then
      if |stack| > 0 && stack[|stack| - 1] != ".." then stack[..|stack| - 1]
      else if rooted then stack
      else stack + [".."]
    else stack + [seg]
  }

  function Fold(stack: seq<string>, segs: seq<string>, rooted: bool): seq<string>
    decreases |segs|
  {
    if segs == [] then stack else Fold(Push(stack, segs[0], rooted), segs[1..], rooted)
  }

  /** path.Clean */
  function Clean(p: string): string {
    if p == [] then "."
    else
      var rooted := p[0] == '/';
      var body := Join(Fold([], Split(p, '/'), rooted), '/');
      if rooted then "/" + body
      else if body == [] then "."
      else body
  }

  /** A list of elements that cleaning keeps as it is: names, with `..` only
      as a leading run and never under the root. */
  predicate CleanSegs(segs: seq<string>, rooted: bool) {
    && (forall i :: 0 <= i < |segs| ==> IsName(segs[i]) || (segs[i] == ".." && !rooted))
    && (forall i, j :: 0 <= i < j < |segs| && segs[j] == ".." ==> segs[i] == "..")
  }

  /** The shape of every result of Clean: "." or "/", or a slash-separated
      list of clean elements, with a leading "/" when rooted. */
  predicate IsClean(r: string) {
    r == "." || r == "/"
    || (r != [] && var rooted := r[0] == '/';
        var segs := if rooted then Split(r[1..], '/') else Split(r, '/');
        CleanSegs(segs, rooted))
  }

  /** No two slashes in a row. */
  predicate NoDoubleSlash(r: string) {
    forall i :: 0 <= i < |r| - 1 ==> !(r[i] == '/' && r[i + 1] == '/')
  }

  lemma PushClean(stack: seq<string>, seg: string, rooted: bool)
    requires CleanSegs(stack, rooted) && '/' !in seg
    ensures CleanSegs(Push(stack, seg, rooted), rooted)
  {
  }

  lemma {:induction false} FoldClean(stack: seq<string>, segs: seq<string>, rooted: bool)
    requires CleanSegs(stack, rooted)
    requires forall i :: 0 <= i < |segs| ==> '/' !in segs[i]
    ensures CleanSegs(Fold(stack, segs, rooted), rooted)
    decreases |segs|
  {
    if segs != [] {
      PushClean(stack, segs[0], rooted);
      FoldClean(Push(stack, segs[0], rooted), segs[1..], rooted);
    }
  }

  lemma {:induction false} FoldAppend(stack: seq<string>, xs: seq<string>, ys: seq<string>, rooted: bool)
    ensures Fold(stack, xs + ys, rooted) == Fold(Fold(stack, xs, rooted), ys, rooted)
    decreases |xs|
  {
    if xs != [] {
      assert (xs + ys)[1..] == xs[1..] + ys;
      FoldAppend(Push(stack, xs[0], rooted), xs[1..], ys, rooted);
    } else {
      assert xs + ys == ys;
    }
  }

  /** Elements that are already clean pass through the stack unchanged. */
  lemma {:induction false} FoldIdentity(stack: seq<string>, segs: seq<string>, rooted: bool)
    requires CleanSegs(stack + segs, rooted)
    ensures Fold(stack, segs, rooted) == stack + segs
    decreases |segs|
  {
    if segs != [] {
      var all := stack + segs;
      assert all[|stack|] == segs[0];
      if segs[0] == ".." {
        assert |stack| > 0 ==> all[|stack| - 1] == "..";
      }
      assert Push(stack, segs[0], rooted) == stack + [segs[0]];
      assert (stack + [segs[0]]) + segs[1..] == all;
      FoldIdentity(stack + [segs[0]], segs[1..], rooted);
    }
  }

  /** Joining names with '/' never produces "//", nor a '/' at either end. */
  lemma {:induction false} JoinNames(segs: seq<string>)
    requires forall i :: 0 <= i < |segs| ==> segs[i] != [] && '/' !in segs[i]
    ensures var r := Join(segs, '/');
      NoDoubleSlash(r) && (segs != [] ==> r != [] && r[0] != '/' && r[|r| - 1] != '/')
    decreases |segs|
  {
    if |segs| > 1 {
      JoinNames(segs[1..]);
      var t := Join(segs[1..], '/');
      var r := segs[0] + ['/'] + t;
      forall i | 0 <= i < |r| - 1
        ensures !(r[i] == '/' && r[i + 1] == '/')
      {
        if i >= |segs[0]| + 1 {
          assert r[i] == t[i - |segs[0]| - 1] && r[i + 1] == t[i - |segs[0]|];
        } else if i == |segs[0]| {
          assert r[i + 1] == t[0];
        } else if i + 1 < |segs[0]| {
          assert r[i + 1] == segs[0][i + 1];
          assert segs[0][i + 1] in segs[0];
        }
      }
      assert r[0] == segs[0][0];
    }
  }

  lemma CleanSegsNames(segs: seq<string>, rooted: bool)
    requires CleanSegs(segs, rooted)
    ensures forall i :: 0 <= i < |segs| ==> segs[i] != [] && '/' !in segs[i]
  {
  }

  /** Every result of Clean is non-empty and clean, keeps the input's leading
      slash (and only then has one), has no "//", and ends in '/' only when it
      is the root itself. */
  lemma CleanShape(p: string)
    ensures var r := Clean(p);
      && r != []
      && IsClean(r)
      && (r[0] == '/' <==> (p != [] && p[0] == '/'))
      && NoDoubleSlash(r)
      && (r == "/" || r[|r| - 1] != '/')
  {
    if p != [] {
      var rooted := p[0] == '/';
      FoldClean([], Split(p, '/'), rooted);
      CleanBodyShape(Fold([], Split(p, '/'), rooted), rooted);
    }
  }

  /** What Clean builds from a clean list of elements has the shape CleanShape
      states. */
  lemma CleanBodyShape(segs: seq<string>, rooted: bool)
    requires CleanSegs(segs, rooted)
    ensures var body := Join(segs, '/');
      var r := if rooted then "/" + body else if body == [] then "." else body;
      && r != []
      && IsClean(r)
      && (r[0] == '/' <==> rooted)
      && NoDoubleSlash(r)
      && (r == "/" || r[|r| - 1] != '/')
  {
    CleanSegsNames(segs, rooted);
    JoinNames(segs);
    var body := Join(segs, '/');
    if segs != [] {
      SplitJoin(segs, '/');
      if rooted {
        RootedNoDoubleSlash(body);
      }
    }
  }

  lemma RootedNoDoubleSlash(body: string)
    requires body != [] && body[0] != '/' && NoDoubleSlash(body)
    ensures var r := "/" + body; r[1..] == body && NoDoubleSlash(r)
  {
    var r := "/" + body;
    assert r[1..] == body;
    forall i | 0 <= i < |r| - 1
      ensures !(r[i] == '/' && r[i + 1] == '/')
    {
      if i > 0 {
        assert r[i] == body[i - 1] && r[i + 1] == body[i];
      }
    }
  }

  lemma CleanOfCleanRooted(r: string)
    requires r != [] && r[0] == '/' && r != "/"
    requires CleanSegs(Split(r[1..], '/'), true)
    ensures Clean(r) == r
  {
    var segs := Split(r[1..], '/');
    CleanSegsNames(segs, true);
    JoinSplit(r[1..], '/');
    assert [] + segs == segs;
    FoldIdentity([], segs, true);
    assert r == [] + ['/'] + r[1..];
    SplitAppend([], r[1..], '/');
    assert Split(r, '/') == [[]] + segs;
    FoldAppend([], [[]], segs, true);
    assert Fold([], Split(r, '/'), true) == segs;
  }

  lemma CleanOfCleanRelative(r: string)
    requires r != [] && r[0] != '/' && r != "."
    requires CleanSegs(Split(r, '/'), false)
    ensures Clean(r) == r
  {
    var segs := Split(r, '/');
    CleanSegsNames(segs, false);
    JoinSplit(r, '/');
    assert [] + segs == segs;
    FoldIdentity([], segs, false);
  }

  /** Cleaning a clean path changes nothing. */
  lemma CleanOfClean(r: string)
    requires IsClean(r)
    ensures Clean(r) == r
  {
    if r == "." {
      SplitNoSep(r, '/');
      assert Fold([], ["."], false) == [];
    } else if r == "/" {
      assert r[1..] == [];
      assert Split(r, '/') == [[], []];
      assert Fold([], [[], []], true) == [];
    } else if r[0] == '/' {
      CleanOfCleanRooted(r);
    } else {
      CleanOfCleanRelative(r);
    }
  }

  /** Clean is idempotent. */
  lemma CleanIdempotent(p: string)
    ensures Clean(Clean(p)) == Clean(p)
  {
    CleanShape(p);
    CleanOfClean(Clean(p));
  }

  /** Clean leaves a path exactly when the path is clean. */
  lemma CleanFixpoints(r: string)
    ensures Clean(r) == r <==> IsClean(r)
  {
    CleanShape(r);
    if IsClean(r) {
      CleanOfClean(r);
    }
  }

  /** Three separator-free pieces after a slash split off one by one. */
  lemma SplitThreeAfter(a: string, b: string, c: string, d: string)
    requires '/' !in b && '/' !in c && '/' !in d
    ensures Split(a + ['/'] + (b + ['/'] + (c + ['/'] + d)), '/') == Split(a, '/') + [b, c, d]
  {
    var t2 := c + ['/'] + d;
    var t1 := b + ['/'] + t2;
    SplitAppend(a, t1, '/');
    SplitAppend(b, t2, '/');
    SplitNoSep(b, '/');
    SplitLast(c, d, '/');
    SplitNoSep(c, '/');
    assert Split(t2, '/') == [c, d];
    assert Split(t1, '/') == [b, c, d];
  }

  /** A leading empty element and clean rooted elements leave the stack
      holding exactly those elements. */
  lemma FoldCleanPrefix(segs: seq<string>, rest: seq<string>)
    requires CleanSegs(segs, true)
    ensures Fold([], [[]] + (segs + rest), true) == Fold(segs, rest, true)
  {
    FoldAppend([], [[]], segs + rest, true);
    assert Fold([], [[]], true) == [];
    FoldAppend([], segs, rest, true);
    assert [] + segs == segs;
    FoldIdentity([], segs, true);
  }

  /** A name followed by ".." cancels on the stack. */
  lemma FoldCancel(segs: seq<string>, sub: string, f: string)
    requires IsName(sub) && IsName(f)
    ensures Fold(segs, [sub, "..", f], true) == segs + [f]
  {
    var tail := [sub, "..", f];
    var st := segs + [sub];
    assert Fold(segs, tail, true) == Fold(st, tail[1..], true);
    assert st[|st| - 1] == sub && st[..|st| - 1] == segs;
    assert Push(st, "..", true) == segs;
    assert tail[1..] == ["..", f];
    assert Fold(st, ["..", f], true) == Fold(segs, ["..", f][1..], true);
    assert ["..", f][1..] == [f];
    assert Fold(segs, [f], true) == Fold(segs + [f], [], true);
  }

  /** Where the slashes of "/r/sub/../f" fall. */
  lemma ParentPathShape(r: string, sub: string, f: string)
    ensures "/" + r + "/" + sub + "/../" + f == [] + ['/'] + (r + ['/'] + (sub + ['/'] + (".." + ['/'] + f)))
    ensures "/" + r + "/" + f == "/" + (r + ['/'] + f)
  {
  }

  /** Under a clean rooted directory "/" + r, an element followed by ".."
      cancels: "/r/sub/../f" cleans to "/r/f". */
  lemma ParentCancels(r: string, sub: string, f: string)
    requires r != [] && CleanSegs(Split(r, '/'), true)
    requires IsName(sub) && IsName(f)
    ensures Clean("/" + r + "/" + sub + "/../" + f) == "/" + r + "/" + f
  {
    var dd: string := "..";
    var segs := Split(r, '/');
    var x := r + ['/'] + (sub + ['/'] + (dd + ['/'] + f));
    var p := "/" + r + "/" + sub + "/../" + f;
    ParentPathShape(r, sub, f);
    assert p == [] + ['/'] + x;
    SplitAppend([], x, '/');
    SplitThreeAfter(r, sub, dd, f);
    assert Split(p, '/') == [[]] + (segs + [sub, dd, f]);
    FoldCleanPrefix(segs, [sub, dd, f]);
    FoldCancel(segs, sub, f);
    var q := r + ['/'] + f;
    SplitLast(r, f, '/');
    JoinSplit(q, '/');
    assert Join(segs + [f], '/') == q;
    assert p[0] == '/';
    assert Clean(p) == "/" + q;
  }

  /** Where the slashes of ".././/f" fall. */
  lemma DotDotPathShape(f: string)
    ensures ".././/" + f == ".." + ['/'] + ("." + ['/'] + ([] + ['/'] + f))
  {
  }

  /** The elements of ".././/f" are "..", ".", "" and f. */
  lemma SplitDotDot(f: string)
    requires IsName(f)
    ensures Split(".././/" + f, '/') == ["..", ".", [], f]
  {
    var dd: string := "..";
    DotDotPathShape(f);
    SplitThreeAfter(dd, ".", [], f);
    SplitNoSep(dd, '/');
  }

  /** Of "..", ".", "" and f a relative fold keeps ".." and f. */
  lemma FoldDotDot(f: string)
    requires IsName(f)
    ensures Fold([], ["..", ".", [], f], false) == ["..", f]
  {
    var dd: string := "..";
    var segs := [dd, ".", [], f];
    assert Push([], dd, false) == [dd];
    assert Fold([], segs, false) == Fold([dd], segs[1..], false);
    assert segs[1..] == [".", [], f];
    assert Fold([dd], [".", [], f], false) == Fold([dd], [[], f], false);
    assert Fold([dd], [[], f], false) == Fold([dd], [f], false);
    assert Fold([dd], [f], false) == [dd, f];
  }

  /** ".././/f" cleans to "../f": "." and empty elements go, a leading ".."
      of a relative path stays. */
  lemma CleanDotDotPrefix(f: string)
    requires IsName(f)
    ensures Clean(".././/" + f) == "../" + f
  {
    var p := ".././/" + f;
    SplitDotDot(f);
    FoldDotDot(f);
    JoinCons("..", [f], '/');
    assert p[0] == '.';
  }

  /** A doubled slash inside a path makes no difference to its cleaned form. */
  lemma DoubleSlashCollapses(a: string, b: string)
    ensures Clean(a + "//" + b) == Clean(a + "/" + b)
  {
    var p2 := a + "//" + b;
    var p1 := a + "/" + b;
    assert p2 == a + ['/'] + ([] + ['/'] + b);
    assert p1 == a + ['/'] + b;
    SplitAppend(a, [] + ['/'] + b, '/');
    SplitAppend([], b, '/');
    SplitAppend(a, b, '/');
    assert [] + ['/'] + b == ['/'] + b;
    var rooted := p2[0] == '/';
    assert rooted == (p1[0] == '/');
    var sa := Split(a, '/');
    var sb := Split(b, '/');
    assert Split(p2, '/') == sa + ([[]] + sb);
    FoldAppend([], sa, [[]] + sb, rooted);
    FoldAppend([], sa, sb, rooted);
    assert Fold(Fold([], sa, rooted), [[]] + sb, rooted) == Fold(Fold([], sa, rooted), sb, rooted);
  }
}
