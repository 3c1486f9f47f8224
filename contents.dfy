/** What the trie holds after `add_line` has read a whole input: exactly one
    node for each distinct non-empty prefix of the components of the paths
    read, each reached from the root by that prefix, so that `print_tree`
    prints one line per such prefix. */
module Contents {
  import opened Common
  import opened PosixPath
  import opened Trie
  import opened Traversal
  import opened Printing

  /** The trie after `add_line` has inserted the components of each of
      `paths` in turn from a fresh `Tree`, the `n`-th with `infos[n]`. */
  ghost function InsertLines(paths: seq<string>, infos: seq<Info>): (r: seq<Node>)
    requires |infos| == |paths|
    ensures WellFormed(r)
    decreases |paths|
  {
    if paths == [] then
      EmptyWellFormed();
      Empty()
    else
      var n := |paths| - 1;
      var prev := InsertLines(paths[..n], infos[..n]);
      InsertWellFormed(prev, SplitPath(paths[n]), infos[n]);
      Insert(prev, 0, SplitPath(paths[n]), infos[n])
  }

  /** The last line read is the last insertion. */
  lemma InsertLinesLast(paths: seq<string>, infos: seq<Info>)
    requires |infos| == |paths| && paths != []
    ensures var m := |paths| - 1;
            InsertLines(paths, infos) == Insert(InsertLines(paths[..m], infos[..m]), 0, SplitPath(paths[m]), infos[m])
  {
  }

  /** One more line read is one more insertion. */
  lemma InsertLinesSnoc(paths: seq<string>, infos: seq<Info>, path: string, info: Info)
    requires |infos| == |paths|
    ensures InsertLines(paths + [path], infos + [info]) ==
              Insert(InsertLines(paths, infos), 0, SplitPath(path), info)
  {
    var ps, fs := paths + [path], infos + [info];
    assert ps[..|paths|] == paths && fs[..|infos|] == infos;
    assert ps[|paths|] == path && fs[|paths|] == info;
    InsertLinesLast(ps, fs);
  }

  /** `q` is a non-empty prefix of the components of one of `paths`. */
  ghost predicate IsComponentPrefix(paths: seq<string>, q: seq<string>)
  {
    q != [] && exists n :: 0 <= n < |paths| && q <= SplitPath(paths[n])
  }

  /** Every non-empty prefix of the components of a path read leads from the
      root to a node. */
  lemma {:induction false} PrefixReached(paths: seq<string>, infos: seq<Info>, n: nat, q: seq<string>)
    requires |infos| == |paths| && n < |paths| && q <= SplitPath(paths[n])
    ensures Walk(InsertLines(paths, infos), 0, q).Some?
    decreases |paths|
  {
    var m := |paths| - 1;
    var prev := InsertLines(paths[..m], infos[..m]);
    InsertLinesLast(paths, infos);
    if n == m {
      InsertReachesPrefix(prev, SplitPath(paths[m]), infos[m], q);
    } else {
      assert paths[..m][n] == paths[n];
      PrefixReached(paths[..m], infos[..m], n, q);
      InsertKeepsWalk(prev, SplitPath(paths[m]), infos[m], q);
    }
  }

  /** After an insertion from the root, every prefix of the inserted
      components leads somewhere. */
  lemma InsertReachesPrefix(nodes: seq<Node>, segs: seq<string>, info: Info, q: seq<string>)
    requires Shaped(nodes) && q <= segs
    ensures Walk(Insert(nodes, 0, segs, info), 0, q).Some?
  {
    InsertMarksTerminal(nodes, 0, segs, info);
    assert q == segs[..|q|];
    WalkPrefix(Insert(nodes, 0, segs, info), 0, segs, |q|);
  }

  /** An insertion from the root keeps every walk from the root that succeeded. */
  lemma InsertKeepsWalk(nodes: seq<Node>, segs: seq<string>, info: Info, q: seq<string>)
    requires Shaped(nodes) && Walk(nodes, 0, q).Some?
    ensures Walk(Insert(nodes, 0, segs, info), 0, q) == Walk(nodes, 0, q)
  {
    InsertGrows(nodes, 0, segs, info);
    WalkGrows(nodes, Insert(nodes, 0, segs, info), 0, q);
  }

  /** Every node but the root is named by a prefix of the components of a path read. */
  lemma {:induction false} NodeIsPrefix(paths: seq<string>, infos: seq<Info>, x: nat)
    requires |infos| == |paths| && 0 < x < |InsertLines(paths, infos)|
    ensures IsComponentPrefix(paths, NamesTo(InsertLines(paths, infos), x))
    decreases |paths|
  {
    var m := |paths| - 1;
    var prev := InsertLines(paths[..m], infos[..m]);
    var segs := SplitPath(paths[m]);
    InsertLinesLast(paths, infos);
    if x < |prev| {
      NodeIsPrefix(paths[..m], infos[..m], x);
      var n :| 0 <= n < m && NamesTo(prev, x) <= SplitPath(paths[..m][n]);
      assert paths[..m][n] == paths[n];
      InsertKeepsNames(prev, segs, infos[m], x);
    } else {
      var k := InsertNamesNew(prev, segs, infos[m], x);
      assert segs[..k] <= segs;
    }
  }

  /** An insertion from the root leaves the names of the nodes already there alone. */
  lemma InsertKeepsNames(nodes: seq<Node>, segs: seq<string>, info: Info, x: nat)
    requires WellFormed(nodes) && segs != [] && x < |nodes|
    ensures WellFormed(Insert(nodes, 0, segs, info))
    ensures NamesTo(Insert(nodes, 0, segs, info), x) == NamesTo(nodes, x)
  {
    InsertWellFormed(nodes, segs, info);
    WalkNamesTo(nodes, x);
    InsertKeepsWalk(nodes, segs, info, NamesTo(nodes, x));
    WalkDetermines(Insert(nodes, 0, segs, info), NamesTo(nodes, x), x);
  }

  /** A node an insertion from the root creates is named by a non-empty
      prefix of the inserted components. */
  lemma InsertNamesNew(nodes: seq<Node>, segs: seq<string>, info: Info, x: nat) returns (k: nat)
    requires WellFormed(nodes) && segs != [] && |nodes| <= x < |Insert(nodes, 0, segs, info)|
    ensures WellFormed(Insert(nodes, 0, segs, info))
    ensures 1 <= k <= |segs| && NamesTo(Insert(nodes, 0, segs, info), x) == segs[..k]
  {
    InsertWellFormed(nodes, segs, info);
    k := InsertNewNode(nodes, 0, segs, info, x);
    WalkDetermines(Insert(nodes, 0, segs, info), segs[..k], x);
  }

  /** After the whole input, a non-empty sequence of names leads from the root
      to a node exactly when it is a prefix of the components of a path read. */
  lemma WalkInsertLines(paths: seq<string>, infos: seq<Info>, q: seq<string>)
    requires |infos| == |paths| && q != []
    ensures Walk(InsertLines(paths, infos), 0, q).Some? <==> IsComponentPrefix(paths, q)
  {
    var r := InsertLines(paths, infos);
    if IsComponentPrefix(paths, q) {
      var n :| 0 <= n < |paths| && q <= SplitPath(paths[n]);
      PrefixReached(paths, infos, n, q);
    }
    if Walk(r, 0, q).Some? {
      var x := Walk(r, 0, q).value;
      WalkDetermines(r, q, x);
      NodeIsPrefix(paths, infos, x);
    }
  }

  // ---------------------------------------------------------------------
  // Counting.

  /** The distinct non-empty prefixes of the components of `paths`. */
  ghost function Prefixes(paths: seq<string>): set<seq<string>>
  {
    set n, k | 0 <= n < |paths| && 1 <= k <= |SplitPath(paths[n])| :: SplitPath(paths[n])[..k]
  }

  lemma InPrefixes(paths: seq<string>, q: seq<string>)
    ensures q in Prefixes(paths) <==> IsComponentPrefix(paths, q)
  {
    if IsComponentPrefix(paths, q) {
      var n :| 0 <= n < |paths| && q <= SplitPath(paths[n]);
      assert q == SplitPath(paths[n])[..|q|];
    }
  }

  /** The names from the root of the nodes `1 .. m - 1`. */
  ghost function NamesBelow(nodes: seq<Node>, m: nat): set<seq<string>>
    requires Arranged(nodes) && m <= |nodes|
  {
    set x | 0 < x < m :: NamesTo(nodes, x)
  }

  /** No two nodes share their names, so there are as many names as nodes. */
  lemma {:induction false} NamesBelowCard(nodes: seq<Node>, m: nat)
    requires Arranged(nodes) && 0 < m <= |nodes|
    ensures |NamesBelow(nodes, m)| == m - 1
    decreases m
  {
    if m > 1 {
      NamesBelowCard(nodes, m - 1);
      NamesBelowStep(nodes, m - 1);
    } else {
      assert NamesBelow(nodes, m) == {};
    }
  }

  /** Node `y` adds a name not already among those of the nodes before it. */
  lemma NamesBelowStep(nodes: seq<Node>, y: nat)
    requires Arranged(nodes) && 0 < y < |nodes|
    ensures NamesBelow(nodes, y + 1) == NamesBelow(nodes, y) + {NamesTo(nodes, y)}
    ensures NamesTo(nodes, y) !in NamesBelow(nodes, y)
  {
    if NamesTo(nodes, y) in NamesBelow(nodes, y) {
      var x :| 0 < x < y && NamesTo(nodes, x) == NamesTo(nodes, y);
      NamesToInjective(nodes, x, y);
    }
  }

  /** The trie's non-root nodes are named by exactly the prefixes read. */
  lemma PrefixesAreNames(paths: seq<string>, infos: seq<Info>)
    requires |infos| == |paths|
    ensures Prefixes(paths) == NamesBelow(InsertLines(paths, infos), |InsertLines(paths, infos)|)
  {
    var r := InsertLines(paths, infos);
    forall q | q in Prefixes(paths)
      ensures q in NamesBelow(r, |r|)
    {
      InPrefixes(paths, q);
      WalkInsertLines(paths, infos, q);
      var x := Walk(r, 0, q).value;
      WalkDetermines(r, q, x);
    }
    forall q | q in NamesBelow(r, |r|)
      ensures q in Prefixes(paths)
    {
      var x :| 0 < x < |r| && NamesTo(r, x) == q;
      NodeIsPrefix(paths, infos, x);
      InPrefixes(paths, q);
    }
  }

  /** `print_tree` prints one line for each distinct non-empty prefix of the
      components of the paths read, and so the summary's two counts add up
      to the number of those prefixes. */
  lemma RenderCountsPrefixes(paths: seq<string>, infos: seq<Info>, st: Style)
    requires |infos| == |paths|
    ensures |Render(InsertLines(paths, infos), st)| == |Prefixes(paths)|
    ensures var lines := Render(InsertLines(paths, infos), st);
            CountDirs(lines) + CountFiles(lines) == |Prefixes(paths)|
  {
    var r := InsertLines(paths, infos);
    RenderVisitsEachNodeOnce(r, st);
    PrefixesAreNames(paths, infos);
    NamesBelowCard(r, |r|);
    CountsTotal(Render(r, st));
  }
}
