/** The POSIX flavour of Python's `os.path` helpers the tool relies on:
    `split`, `join` and `splitext`, and the tool's own `split_path`, which
    cuts a path into its components by repeatedly splitting off the last one. */
module PosixPath {
  import opened Common
  import opened Text

  predicate AllSlashes(s: string)
  {
    forall i :: 0 <= i < |s| ==> s[i] == '/'
  }

  /** `s.rstrip('/')`. */
  function RStripSlashes(s: string): (r: string)
    ensures |r| <= |s| && r == s[..|r|]
    ensures r == [] || r[|r| - 1] != '/'
    ensures forall i :: |r| <= i < |s| ==> s[i] == '/'
  {
    if s != [] && s[|s| - 1] == '/' then RStripSlashes(s[..|s| - 1]) else s
  }

  /** `s.rfind(c)`, -1 when `c` does not occur. */
  function RFind(s: string, c: char): (i: int)
    ensures -1 <= i < |s|
    ensures i == -1 <==> c !in s
    ensures i >= 0 ==> s[i] == c && c !in s[i + 1..]
  {
    match LastIndexOf(s, c)
    case None => -1
    case Some(j) => j
  }

  /** `os.path.split(p)`: the tail is everything after the last slash; the
      head is everything before it, trailing slashes removed unless the head
      is made of slashes only. */
  function Split(p: string): (r: (string, string))
    ensures |r.1| <= |p| && r.1 == p[|p| - |r.1|..] && '/' !in r.1
    ensures |r.1| < |p| ==> p[|p| - |r.1| - 1] == '/'
    ensures |r.0| <= |p| - |r.1| && r.0 == p[..|r.0|]
    ensures r.0 == "" <==> |r.1| == |p|
    ensures AllSlashes(p[|r.0|..|p| - |r.1|])
    ensures r.0 != "" && r.0[|r.0| - 1] == '/' ==> AllSlashes(r.0) && |r.0| + |r.1| == |p|
  {
    var i := RFind(p, '/') + 1;
    var head, tail := p[..i], p[i..];
    assert p == head + tail;
    if head != "" && !AllSlashes(head) then
      (RStripSlashes(head), tail)
    else (head, tail)
  }

  /** `os.path.join(a, b)`: an absolute `b` replaces `a`; otherwise `b` is
      appended, with a slash in between unless `a` is empty or ends with one. */
  function Join(a: string, b: string): (r: string)
    ensures EndsWith(r, b)
    ensures StartsWith(b, "/") ==> r == b
    ensures !StartsWith(b, "/") ==> StartsWith(r, a)
    ensures !StartsWith(b, "/") ==> |r| == |a| + |b| + (if a == "" || EndsWith(a, "/") then 0 else 1)
    ensures !StartsWith(b, "/") && |r| > |a| + |b| ==> r[|a|] == '/'
  {
    if StartsWith(b, "/") then b
    else if a == "" || EndsWith(a, "/") then a + b
    else a + "/" + b
  }

  /** Some character of `p[from..to]` is not a dot. */
  predicate HasNonDot(p: string, from: int, to: int)
  {
    exists k :: from <= k < to && 0 <= k < |p| && p[k] != '.'
  }

  /** `os.path.splitext(p)`: the extension runs from the last dot of the last
      component to the end, unless only dots precede that dot in the component. */
  function SplitExt(p: string): (r: (string, string))
    ensures r.0 + r.1 == p
    ensures r.1 != "" ==> r.1[0] == '.' && '/' !in r.1 && '.' !in r.1[1..]
    ensures r.1 != "" ==> HasNonDot(p, RFind(p, '/') + 1, |r.0|)
    ensures RFind(p, '.') > RFind(p, '/') && HasNonDot(p, RFind(p, '/') + 1, RFind(p, '.')) ==>
              r.1 != "" && |r.0| == RFind(p, '.')
  {
    var sepIndex := RFind(p, '/');
    var dotIndex := RFind(p, '.');
    if dotIndex > sepIndex && HasNonDot(p, sepIndex + 1, dotIndex) then
      SlashFreeAfter(p, dotIndex);
      (p[..dotIndex], p[dotIndex..])
    else
      (p, "")
  }

  /** No slash follows a position after the last slash. */
  lemma SlashFreeAfter(p: string, d: nat)
    requires RFind(p, '/') < d < |p|
    ensures '/' !in p[d..]
  {
    var s := RFind(p, '/');
    forall k | d <= k < |p|
      ensures p[k] != '/'
    {
      if s >= 0 {
        assert p[k] == p[s + 1..][k - s - 1];
      } else {
        assert p[k] in p;
      }
    }
  }

  /** The extension part of `os.path.splitext(p)`. */
  function Ext(p: string): string
  {
    SplitExt(p).1
  }

  /** `split_path(path)`: the components of `path` in order, obtained by
      splitting off the last component until the head is empty or stops
      changing. */
  function SplitPath(path: string): (parts: seq<string>)
    ensures |parts| >= 1
    decreases |path|
  {
    var (head, tail) := Split(path);
    if head != "" && head != path then SplitPath(head) + [tail]
    else [if head != "" then head else tail]
  }

  /** `split_path(path, l)` itself: appends the components of `path` to the
      accumulator `l`, the head's components first. */
  method SplitPathInto(path: string, l: seq<string>) returns (r: seq<string>)
    ensures r == l + SplitPath(path)
    decreases |path|
  {
    var (head, tail) := Split(path);
    if head != "" && head != path {
      r := SplitPathInto(head, l);
      r := r + [tail];
    } else {
      r := l + [if head != "" then head else tail];
    }
  }

  // ---------------------------------------------------------------------
  // Properties.

  predicate NoDoubleSlash(p: string)
  {
    forall i :: 0 <= i < |p| - 1 ==> !(p[i] == '/' && p[i + 1] == '/')
  }

  /** Splitting at a last slash that follows a non-slash cuts exactly there. */
  lemma SplitAtLastSlash(p: string, j: nat)
    requires 1 <= j < |p| && p[j] == '/' && '/' !in p[j + 1..] && p[j - 1] != '/'
    ensures Split(p) == (p[..j], p[j + 1..])
  {
    LastIndexOfSome(p, '/', j);
    var head := p[..j + 1];
    assert head[j - 1] != '/';
    var h := RStripSlashes(head);
    assert |h| == j;
  }

  /** One step of `split_path` on a path whose last slash follows a non-slash. */
  lemma SplitPathAtLastSlash(p: string, j: nat)
    requires 1 <= j < |p| && p[j] == '/' && '/' !in p[j + 1..] && p[j - 1] != '/'
    ensures SplitPath(p) == SplitPath(p[..j]) + [p[j + 1..]]
  {
    SplitAtLastSlash(p, j);
  }

  lemma SplitPathNoSlash(p: string)
    requires '/' !in p
    ensures SplitPath(p) == [p]
  {
    assert Split(p) == ("", p);
  }

  /** `str.split` at the last separator. */
  lemma SplitOnAtLast(p: string, j: nat)
    requires j < |p| && p[j] == '/' && '/' !in p[j + 1..]
    ensures SplitOn(p, '/') == SplitOn(p[..j], '/') + [p[j + 1..]]
  {
    SplitAround(p, j);
    SplitOnConcat(p[..j], '/', p[j + 1..]);
    SplitOnNone(p[j + 1..], '/');
  }

  lemma SplitOnAtLastShifted(p: string, j: nat)
    requires 1 <= j < |p| && p[j] == '/' && '/' !in p[j + 1..]
    ensures SplitOn(p[1..], '/') == SplitOn(p[..j][1..], '/') + [p[j + 1..]]
  {
    var q := p[1..];
    assert q[j - 1] == '/' && q[j..] == p[j + 1..];
    PrefixTail(p, j);
    SplitOnAtLast(q, j - 1);
  }

  /** For a relative path without doubled slashes, the components are the
      pieces between slashes (`"a/b/c"` gives `["a", "b", "c"]`, `"a/"`
      gives `["a", ""]`, `""` gives `[""]`). */
  lemma {:induction false} SplitPathRelative(p: string)
    requires p == "" || p[0] != '/'
    requires NoDoubleSlash(p)
    ensures SplitPath(p) == SplitOn(p, '/')
    decreases |p|
  {
    var j := RFind(p, '/');
    if j == -1 {
      SplitPathNoSlash(p);
      SplitOnNone(p, '/');
    } else {
      SplitPathAtLastSlash(p, j);
      assert NoDoubleSlash(p[..j]);
      SplitPathRelative(p[..j]);
      SplitOnAtLast(p, j);
    }
  }

  lemma SplitPathRoot()
    ensures SplitPath("/") == ["/"]
  {
    assert AllSlashes("/");
  }

  /** Splitting a path whose only slash is its first character. */
  lemma SplitAfterRoot(p: string)
    requires |p| >= 1 && p[0] == '/' && '/' !in p[1..]
    ensures Split(p) == (p[..1], p[1..])
  {
    LastIndexOfSome(p, '/', 0);
    assert AllSlashes(p[..1]);
  }

  lemma SplitPathRootChild(p: string)
    requires |p| >= 2 && p[0] == '/' && '/' !in p[1..]
    ensures SplitPath(p) == ["/", p[1..]]
  {
    var r := p[..1];
    SplitAfterRoot(p);
    SplitAfterRoot(r);
    assert r[..1] == r;
    assert SplitPath(r) == [r];
    assert SplitPath(p) == SplitPath(r) + [p[1..]];
    assert r == "/";
  }


  /** For an absolute path without doubled slashes, the first component is
      the root `"/"` and the others are the pieces between slashes
      (`"/a/b"` gives `["/", "a", "b"]`). */
  lemma {:induction false} SplitPathAbsolute(p: string)
    requires |p| >= 2 && p[0] == '/'
    requires NoDoubleSlash(p)
    ensures SplitPath(p) == ["/"] + SplitOn(p[1..], '/')
    decreases |p|
  {
    var j := RFind(p, '/');
    if j == 0 {
      SplitPathRootChild(p);
      SplitOnNone(p[1..], '/');
    } else {
      assert p[j - 1] != '/';
      SplitPathAtLastSlash(p, j);
      assert NoDoubleSlash(p[..j]);
      SplitPathAbsolute(p[..j]);
      SplitOnAtLastShifted(p, j);
      ConcatAssoc(["/"], SplitOn(p[..j][1..], '/'), [p[j + 1..]]);
    }
  }

  /** Joining a directory and a plain name, then splitting, gives both back. */
  lemma JoinThenSplit(a: string, b: string)
    requires a != "" && a[|a| - 1] != '/'
    requires '/' !in b
    ensures Split(Join(a, b)) == (a, b)
  {
    var p := a + "/" + b;
    assert Join(a, b) == p;
    assert p[|a|] == '/' && p[|a| + 1..] == b && p[..|a|] == a;
    if |a| >= 1 && a[|a| - 1] != '/' {
      SplitAtLastSlash(p, |a|);
    }
  }

  /** Two components, the first not empty: `"a/b"` gives `["a", "b"]`, and
      `"a/"` gives `["a", ""]`: a trailing slash leaves an empty last component. */
  lemma SplitPathPair(a: string, b: string)
    requires a != "" && '/' !in a && '/' !in b
    ensures SplitPath(a + "/" + b) == [a, b]
  {
    var p := a + "/" + b;
    PairPieces(a, b);
    assert a[|a| - 1] in a;
    SplitPathAtLastSlash(p, |a|);
    SplitPathNoSlash(a);
    assert SplitPath(p) == [a] + [b];
  }

  /** The pieces of `a + "/" + b` around its separator. */
  lemma PairPieces(a: string, b: string)
    requires a != ""
    ensures var p := a + "/" + b;
            |a| < |p| && p[|a|] == '/' && p[|a| - 1] == a[|a| - 1] && p[..|a|] == a && p[|a| + 1..] == b
  {
  }

  /** Three components: `"a/b/c"` gives `["a", "b", "c"]`. */
  lemma SplitPathTriple(a: string, b: string, c: string)
    requires a != "" && b != "" && '/' !in a && '/' !in b && '/' !in c
    ensures SplitPath(a + "/" + b + "/" + c) == [a, b, c]
  {
    var p := a + "/" + b + "/" + c;
    var j := |a| + 1 + |b|;
    assert p[j] == '/' && p[j - 1] == b[|b| - 1] && p[j + 1..] == c && p[..j] == a + "/" + b;
    SplitPathAtLastSlash(p, j);
    SplitPathPair(a, b);
  }

  /** Below the root: `"/a/b"` gives `["/", "a", "b"]`. */
  lemma SplitPathUnderRoot(a: string, b: string)
    requires a != "" && b != "" && '/' !in a && '/' !in b
    ensures SplitPath("/" + a + "/" + b) == ["/", a, b]
  {
    var p := "/" + a + "/" + b;
    var j := 1 + |a|;
    assert p[j] == '/' && p[j - 1] == a[|a| - 1] && p[j + 1..] == b && p[..j] == "/" + a;
    SplitPathAtLastSlash(p, j);
    assert ("/" + a)[1..] == a;
    SplitPathRootChild("/" + a);
  }

  /** Stripping trailing slashes from `x + y` only touches `y`, unless `y`
      is made of slashes only. */
  lemma {:induction false} RStripAppend(x: string, y: string)
    requires !AllSlashes(y)
    ensures RStripSlashes(x + y) == x + RStripSlashes(y)
    decreases |y|
  {
    if y[|y| - 1] == '/' {
      assert (x + y)[..|x + y| - 1] == x + y[..|y| - 1];
      RStripAppend(x, y[..|y| - 1]);
    }
  }

  /** A run of slashes after a name that does not end in one is stripped entirely. */
  lemma {:induction false} RStripRun(a: string, s: string)
    requires a != "" && a[|a| - 1] != '/' && AllSlashes(s)
    ensures RStripSlashes(a + s) == a
    decreases |s|
  {
    if s == "" {
      assert a + s == a;
    } else {
      assert (a + s)[..|a + s| - 1] == a + s[..|s| - 1];
      RStripRun(a, s[..|s| - 1]);
    }
  }

  /** `os.path.split` at a last slash `j` whose prefix is not all slashes. */
  lemma SplitAt(p: string, j: nat)
    requires j < |p| && p[j] == '/' && '/' !in p[j + 1..] && !AllSlashes(p[..j + 1])
    ensures Split(p) == (RStripSlashes(p[..j + 1]), p[j + 1..])
  {
    LastIndexOfSome(p, '/', j);
  }

  /** A run of slashes between two components counts as one: `"a//b"` has
      the components of `"a/b"`, namely `["a", "b"]`. */
  lemma {:induction false} SplitPathCollapse(a: string, s: string, b: string)
    requires a != "" && a[|a| - 1] != '/' && s != "" && AllSlashes(s)
    requires b == "" || b[0] != '/'
    ensures SplitPath(a + s + b) == SplitPath(a + "/" + b)
    decreases |b|
  {
    if '/' !in b {
      CollapseLast(a, s, b);
      CollapseLast(a, "/", b);
    } else {
      var j := RFind(b, '/');
      var c := RStripSlashes(b[..j + 1]);
      CollapseStep(a, s, b, j);
      CollapseStep(a, "/", b, j);
      SplitPathCollapse(a, s, c);
    }
  }

  /** `split_path` of `a + s + b` for a slash-free `b`: the components of `a`, then `b`. */
  lemma CollapseLast(a: string, s: string, b: string)
    requires a != "" && a[|a| - 1] != '/' && s != "" && AllSlashes(s) && '/' !in b
    ensures SplitPath(a + s + b) == SplitPath(a) + [b]
  {
    var p, h := a + s + b, a + s;
    assert p[|h| - 1] == '/' && p[|h|..] == b && p[..|h|] == h;
    assert h[|a| - 1] != '/';
    SplitAt(p, |h| - 1);
    RStripRun(a, s);
  }

  /** One step of `split_path` on `a + s + b` at the last slash `j` of `b`:
      the last component of `b` comes off, and what stays is `a + s + c` for
      a `c` shorter than `b` that starts like `b`. */
  lemma CollapseStep(a: string, s: string, b: string, j: nat)
    requires a != "" && a[|a| - 1] != '/' && s != "" && AllSlashes(s)
    requires b != "" && b[0] != '/' && j < |b| && b[j] == '/' && '/' !in b[j + 1..]
    ensures var c := RStripSlashes(b[..j + 1]);
            c != "" && c[0] == b[0] && |c| < |b| &&
            SplitPath(a + s + b) == SplitPath(a + s + c) + [b[j + 1..]]
  {
    var h := a + s;
    SplitBehind(h, b, j);
    var c := RStripSlashes(b[..j + 1]);
    assert |h + c| < |h + b| && h + c != "";
    SplitPathStep(h + b);
  }

  /** `os.path.split` of `h + b`, where `b` starts with a non-slash and has a
      last slash at `j`: the cut falls inside `b`, and the run of slashes
      before it is stripped. */
  lemma SplitBehind(h: string, b: string, j: nat)
    requires b != "" && b[0] != '/' && j < |b| && b[j] == '/' && '/' !in b[j + 1..]
    ensures var c := RStripSlashes(b[..j + 1]);
            c != "" && c[0] == b[0] && |c| <= j &&
            Split(h + b) == (h + c, b[j + 1..])
  {
    var front := b[..j + 1];
    var p := h + b;
    assert front[0] == b[0] && front[0] != '/';
    RStripAppend(h, front);
    assert p[..|h| + j + 1] == h + front && p[|h| + j + 1..] == b[j + 1..] && p[|h| + j] == '/';
    assert (h + front)[|h|] == b[0];
    SplitAt(p, |h| + j);
  }

  /** One unfolding of `split_path` where the head is neither empty nor the whole path. */
  lemma SplitPathStep(p: string)
    requires Split(p).0 != "" && Split(p).0 != p
    ensures SplitPath(p) == SplitPath(Split(p).0) + [Split(p).1]
  {
  }

  /** A path made of a run of slashes and one name: `"//a"` gives
      `["//", "a"]`, the run kept whole as the first component. */
  lemma SplitPathSlashesRoot(s: string, n: string)
    requires s != "" && AllSlashes(s) && n != "" && '/' !in n
    ensures SplitPath(s + n) == [s, n]
  {
    var p := s + n;
    assert p[|s| - 1] == '/' && p[|s|..] == n && p[..|s|] == s;
    LastIndexOfSome(p, '/', |s| - 1);
    LastIndexOfSome(s, '/', |s| - 1);
    assert s[|s|..] == "" && s[..|s|] == s;
    assert Split(s) == (s, "");
    assert SplitPath(s) == [s];
  }

  /** Two names separated by a run of slashes: `"a//b"` gives `["a", "b"]`. */
  lemma SplitPathDoubled(a: string, s: string, b: string)
    requires a != "" && '/' !in a && s != "" && AllSlashes(s) && '/' !in b
    ensures SplitPath(a + s + b) == [a, b]
  {
    assert a[|a| - 1] in a;
    if b != "" {
      assert b[0] in b;
    }
    SplitPathCollapse(a, s, b);
    SplitPathPair(a, b);
  }

  /** The extension is the last dot and what follows it, when a character
      other than a dot or a slash precedes that dot: `"src/main.c"` gives
      `("src/main", ".c")` and `"a/.b.c"` gives `("a/.b", ".c")`. */
  lemma SplitExtLastDot(stem: string, e: string)
    requires stem != "" && stem[|stem| - 1] != '.' && stem[|stem| - 1] != '/'
    requires '.' !in e && '/' !in e
    ensures SplitExt(stem + "." + e) == (stem, "." + e)
  {
    var p := stem + "." + e;
    var d := |stem|;
    assert p[..d] == stem;
    assert p[d..] == "." + e;
    assert p[d] == '.' && p[d + 1..] == e;
    LastIndexOfSome(p, '.', d);
    forall k | d - 1 <= k < |p|
      ensures p[k] != '/'
    {
      if k > d {
        assert p[k] == e[k - d - 1];
      }
    }
    assert RFind(p, '/') < d - 1;
    assert p[d - 1] != '.';
  }

  /** A name whose only dot is its first character has no extension:
      `".bashrc"` gives `(".bashrc", "")`. */
  lemma SplitExtDotfile(n: string)
    requires '.' !in n && '/' !in n
    ensures SplitExt("." + n) == ("." + n, "")
  {
    var p := "." + n;
    assert p[1..] == n;
    LastIndexOfSome(p, '.', 0);
    assert '/' !in p;
  }
}
