/** The prefix tree `tree.py` builds from its input lines, held as an arena:
    a sequence of nodes in which index 0 is the unlabelled root and each
    node's `children` map a path component to the index of the child node.
    A child is always appended after its parent, so child indices exceed
    their parent's. */
module Trie {
  import opened Common
  import opened Text
  import opened PosixPath

  /** `ParsingMode`: `NoInput` (walk the directory tree), `Normal` (one path
      per line) or `Grep` (grep's `path:match` lines). */
  datatype Mode = NoInput | Normal | Grep

  /** A node's `info` dict: `{}` or `{'binary': True}`. */
  type Info = map<string, bool>

  /** `Node`: its name (`None` only for the root), its children by name,
      how many input lines ended at it, and the `info` of the last of them
      (`None` until one does). */
  datatype Node = Node(name: Option<string>, children: map<string, nat>, count: nat, info: Option<Info>)

  /** The trie of a fresh `Tree`: a root and nothing else. */
  function Empty(): seq<Node>
  {
    [Node(None, map[], 0, None)]
  }

  // ---------------------------------------------------------------------
  // Reading one input line.

  /** What `add_line` extracts from a line: no path at all, a path with its
      `info`, or (grep mode) a line that is not grep output. */
  datatype Parsed = NoPath | Found(path: string, info: Info) | NotGrep(line: string)

  const BinaryPrefix := "Binary file "
  const BinarySuffix := " matches"

  /** grep's report that a binary file matched. */
  predicate IsBinaryLine(line: string)
  {
    StartsWith(line, BinaryPrefix) && EndsWith(line, BinarySuffix)
  }

  /** `line[12:][:-8]`. */
  function BinaryPath(line: string): string
    requires StartsWith(line, BinaryPrefix)
  {
    var rest := line[|BinaryPrefix|..];
    if |rest| >= |BinarySuffix| then rest[..|rest| - |BinarySuffix|] else ""
  }

  /** The error `add_line` prints before calling `exit()` on a line that is
      not grep output. */
  function NotGrepMessage(line: string): string
  {
    "ERROR: Input Text is not known grep output: " + line
  }

  /** The parsing half of `add_line`: the line is stripped; in normal mode
      it is the path, in grep mode it is read as grep output, and without
      input mode there is no path. */
  function ParseLine(mode: Mode, raw: string): (r: Parsed)
    ensures r.NoPath? <==> mode == NoInput
    ensures mode == Normal ==> r == Found(Strip(raw), map[])
    ensures mode == Grep ==> r == ParseGrep(Strip(raw))
  {
    match mode
    case NoInput => NoPath
    case Normal => Found(Strip(raw), map[])
    case Grep => ParseGrep(Strip(raw))
  }

  /** A stripped line of grep output: a binary-file report gives the file's
      path flagged binary; otherwise the text before the first colon is the
      path, and a line without a colon is rejected. */
  function ParseGrep(line: string): (r: Parsed)
    ensures !r.NoPath?
    ensures r.NotGrep? <==> !IsBinaryLine(line) && ':' !in line
    ensures r.NotGrep? ==> r.line == line
    ensures r.Found? && !IsBinaryLine(line) ==>
              r.info == map[] && ':' !in r.path && StartsWith(line, r.path + ":")
    ensures r.Found? && IsBinaryLine(line) ==> r.info == map["binary" := true]
  {
    if IsBinaryLine(line) then Found(BinaryPath(line), map["binary" := true])
    else
      match IndexOf(line, ':')
      case None => NotGrep(line)
      case Some(i) =>
        assert line[..i + 1] == line[..i] + ":";
        Found(line[..i], map[])
  }

  /** grep's `Binary file X matches` gives back X, flagged binary. */
  lemma ParseBinaryLine(x: string)
    ensures ParseLine(Grep, BinaryPrefix + x + BinarySuffix) == Found(x, map["binary" := true])
  {
    var line := BinaryPrefix + x + BinarySuffix;
    StripNoSpaceEnds(line);
    assert StartsWith(line, BinaryPrefix) && EndsWith(line, BinarySuffix);
    assert line[|BinaryPrefix|..] == x + BinarySuffix;
  }

  /** A `path:match` line gives the text before its first colon, with no flag
      (`"src/main.c:int main()"` gives `"src/main.c"`). */
  lemma ParseMatchLine(f: string, m: string)
    requires ':' !in f
    requires var line := f + ":" + m; Strip(line) == line && !IsBinaryLine(line)
    ensures ParseLine(Grep, f + ":" + m) == Found(f, map[])
  {
    var line := f + ":" + m;
    FirstIndex(line, ':', |f|);
    assert line[..|f|] == f;
  }

  /** A grep-mode line that has no colon and is no binary-file report is rejected. */
  lemma ParseNotGrep(raw: string)
    requires ':' !in Strip(raw) && !IsBinaryLine(Strip(raw))
    ensures ParseLine(Grep, raw) == NotGrep(Strip(raw))
  {
  }

  // ---------------------------------------------------------------------
  // Shape of the arena.

  /** Child indices lie after their parent and inside the arena. */
  ghost predicate Shaped(nodes: seq<Node>)
  {
    |nodes| > 0 &&
    forall i, k :: 0 <= i < |nodes| && k in nodes[i].children ==> i < nodes[i].children[k] < |nodes|
  }

  /** Only the root is unlabelled, and a child is labelled with its key. */
  ghost predicate Labelled(nodes: seq<Node>)
  {
    |nodes| > 0 && nodes[0].name == None &&
    (forall i :: 0 < i < |nodes| ==> nodes[i].name.Some?) &&
    forall i, k {:trigger nodes[i].children[k]} ::
      0 <= i < |nodes| && k in nodes[i].children && nodes[i].children[k] < |nodes| ==>
        nodes[nodes[i].children[k]].name == Some(k)
  }

  /** Node `c` is the child of some earlier node. */
  ghost predicate HasParent(nodes: seq<Node>, c: nat)
  {
    exists p, k :: 0 <= p < c && p < |nodes| && k in nodes[p].children && nodes[p].children[k] == c
  }

  /** Every node but the root hangs below some node. */
  ghost predicate Connected(nodes: seq<Node>)
  {
    forall c :: 0 < c < |nodes| ==> HasParent(nodes, c)
  }

  /** No node is the child of two nodes. */
  ghost predicate UniqueParents(nodes: seq<Node>)
  {
    forall p, q, k, l ::
      (0 <= p < |nodes| && 0 <= q < |nodes| && k in nodes[p].children && l in nodes[q].children &&
       nodes[p].children[k] == nodes[q].children[l]) ==> p == q
  }

  /** A node has been the end of an insertion exactly when its `info` is
      set; every childless node other than the root and `x` has been. */
  ghost predicate MarkedExcept(nodes: seq<Node>, x: nat)
  {
    (forall i :: 0 <= i < |nodes| ==> (nodes[i].count == 0 <==> nodes[i].info.None?)) &&
    forall i :: 0 < i < |nodes| && i != x && nodes[i].children == map[] ==> nodes[i].count > 0
  }

  /** The trie invariant. In particular every childless non-root node has
      `count >= 1` and an `info` dict, which is what lets the renderer look
      up `'binary'` in it. */
  ghost predicate WellFormed(nodes: seq<Node>)
  {
    Arranged(nodes) && MarkedExcept(nodes, 0) && nodes[0].count == 0
  }

  /** What rendering relies on: indices stay inside the arena, and every
      labelled node without children carries an `info` dict. */
  ghost predicate Printable(nodes: seq<Node>)
  {
    Shaped(nodes) &&
    forall i :: 0 <= i < |nodes| && nodes[i].name.Some? && nodes[i].children == map[] ==> nodes[i].info.Some?
  }

  lemma WellFormedPrintable(nodes: seq<Node>)
    requires WellFormed(nodes)
    ensures Printable(nodes)
  {
  }

  /** The arena is a tree rooted at index 0 whose edges carry the child's name. */
  ghost predicate Arranged(nodes: seq<Node>)
  {
    Shaped(nodes) && Labelled(nodes) && Connected(nodes) && UniqueParents(nodes)
  }

  lemma EmptyWellFormed()
    ensures WellFormed(Empty())
  {
  }

  // ---------------------------------------------------------------------
  // Insertion.

  /** `node.children[seg] = Node(seg)`: a fresh childless node, appended. */
  function AddChild(nodes: seq<Node>, cur: nat, seg: string): (r: seq<Node>)
    requires cur < |nodes| && seg !in nodes[cur].children
    ensures |r| == |nodes| + 1 && r[|nodes|] == Node(Some(seg), map[], 0, None)
    ensures r[cur].children == nodes[cur].children[seg := |nodes|]
    ensures r[cur].name == nodes[cur].name && r[cur].count == nodes[cur].count && r[cur].info == nodes[cur].info
    ensures forall j :: 0 <= j < |nodes| && j != cur ==> r[j] == nodes[j]
  {
    nodes[cur := nodes[cur].(children := nodes[cur].children[seg := |nodes|])] + [Node(Some(seg), map[], 0, None)]
  }

  /** `node.info = info; node.count += 1`. */
  function Mark(nodes: seq<Node>, t: nat, info: Info): (r: seq<Node>)
    requires t < |nodes|
    ensures |r| == |nodes| && r[t].count == nodes[t].count + 1 && r[t].info == Some(info)
    ensures r[t].name == nodes[t].name && r[t].children == nodes[t].children
    ensures forall j :: 0 <= j < |nodes| && j != t ==> r[j] == nodes[j]
  {
    nodes[t := nodes[t].(count := nodes[t].count + 1, info := Some(info))]
  }

  lemma AddChildShaped(nodes: seq<Node>, cur: nat, seg: string)
    requires Shaped(nodes) && cur < |nodes| && seg !in nodes[cur].children
    ensures Shaped(AddChild(nodes, cur, seg))
  {
    var r := AddChild(nodes, cur, seg);
    forall i, k | 0 <= i < |r| && k in r[i].children
      ensures i < r[i].children[k] < |r|
    {
      if i == cur && k != seg {
        assert r[i].children[k] == nodes[i].children[k];
      }
    }
  }

  lemma AddChildLabelled(nodes: seq<Node>, cur: nat, seg: string)
    requires Shaped(nodes) && Labelled(nodes) && cur < |nodes| && seg !in nodes[cur].children
    ensures Labelled(AddChild(nodes, cur, seg))
  {
    var r := AddChild(nodes, cur, seg);
    forall i, k {:trigger r[i].children[k]} | 0 <= i < |r| && k in r[i].children && r[i].children[k] < |r|
      ensures r[r[i].children[k]].name == Some(k)
    {
      if !(i == cur && k == seg) {
        assert r[i].children[k] == nodes[i].children[k];
      }
    }
  }

  lemma AddChildConnected(nodes: seq<Node>, cur: nat, seg: string)
    requires Shaped(nodes) && Connected(nodes) && cur < |nodes| && seg !in nodes[cur].children
    ensures Connected(AddChild(nodes, cur, seg))
  {
    var r := AddChild(nodes, cur, seg);
    forall c | 0 < c < |r|
      ensures HasParent(r, c)
    {
      if c == |nodes| {
        assert r[cur].children[seg] == c;
      } else {
        assert HasParent(nodes, c);
        var p, k :| 0 <= p < c && p < |nodes| && k in nodes[p].children && nodes[p].children[k] == c;
        assert r[p].children[k] == c;
      }
    }
  }

  lemma AddChildUniqueParents(nodes: seq<Node>, cur: nat, seg: string)
    requires Shaped(nodes) && UniqueParents(nodes) && cur < |nodes| && seg !in nodes[cur].children
    ensures UniqueParents(AddChild(nodes, cur, seg))
  {
    var r := AddChild(nodes, cur, seg);
    forall p, q, k, l | 0 <= p < |r| && 0 <= q < |r| && k in r[p].children && l in r[q].children &&
                        r[p].children[k] == r[q].children[l]
      ensures p == q
    {
      var newP := p == cur && k == seg;
      var newQ := q == cur && l == seg;
      if !newP && !newQ {
        assert r[p].children[k] == nodes[p].children[k];
        assert r[q].children[l] == nodes[q].children[l];
      } else if newP && !newQ {
        assert r[q].children[l] == nodes[q].children[l];
      } else if !newP && newQ {
        assert r[p].children[k] == nodes[p].children[k];
      }
    }
  }

  lemma AddChildMarked(nodes: seq<Node>, cur: nat, seg: string)
    requires MarkedExcept(nodes, cur) && cur < |nodes| && seg !in nodes[cur].children
    ensures MarkedExcept(AddChild(nodes, cur, seg), |nodes|)
    ensures AddChild(nodes, cur, seg)[0].count == nodes[0].count
  {
    var r := AddChild(nodes, cur, seg);
    assert forall j :: 0 <= j < |nodes| ==> r[j].count == nodes[j].count && r[j].info == nodes[j].info;
    assert forall j :: 0 <= j < |nodes| && j != cur ==> r[j].children == nodes[j].children;
    assert seg in r[cur].children;
  }

  lemma MarkKeepsShape(nodes: seq<Node>, t: nat, info: Info)
    requires Shaped(nodes) && Labelled(nodes) && UniqueParents(nodes) && t < |nodes|
    ensures var r := Mark(nodes, t, info);
            Shaped(r) && Labelled(r) && UniqueParents(r)
  {
    var r := Mark(nodes, t, info);
    assert forall j :: 0 <= j < |r| ==> r[j].children == nodes[j].children && r[j].name == nodes[j].name;
    forall p, q, k, l | 0 <= p < |r| && 0 <= q < |r| && k in r[p].children && l in r[q].children &&
                        r[p].children[k] == r[q].children[l]
      ensures p == q
    {
      assert nodes[p].children[k] == nodes[q].children[l];
    }
  }



  lemma MarkKeepsConnected(nodes: seq<Node>, t: nat, info: Info)
    requires Connected(nodes) && t < |nodes|
    ensures Connected(Mark(nodes, t, info))
  {
    var r := Mark(nodes, t, info);
    forall c | 0 < c < |r|
      ensures HasParent(r, c)
    {
      assert HasParent(nodes, c);
      var p, k :| 0 <= p < c && p < |nodes| && k in nodes[p].children && nodes[p].children[k] == c;
      assert r[p].children == nodes[p].children;
    }
  }

  lemma MarkMarked(nodes: seq<Node>, t: nat, info: Info)
    requires MarkedExcept(nodes, t) && 0 < t < |nodes|
    ensures MarkedExcept(Mark(nodes, t, info), 0)
  {
    var r := Mark(nodes, t, info);
    assert forall j :: 0 <= j < |r| && j != t ==> r[j] == nodes[j];
  }

  /** Descending into an existing child: the node left behind has a child. */
  lemma DescendMarked(nodes: seq<Node>, cur: nat, seg: string)
    requires Shaped(nodes) && cur < |nodes| && seg in nodes[cur].children && MarkedExcept(nodes, cur)
    ensures MarkedExcept(nodes, nodes[cur].children[seg])
  {
  }

  /** The effect of inserting the components `segs` below node `cur`: walk
      down, creating each missing child, then mark the node reached. */
  ghost function Insert(nodes: seq<Node>, cur: nat, segs: seq<string>, info: Info): (r: seq<Node>)
    requires Shaped(nodes) && cur < |nodes|
    ensures Shaped(r) && |r| >= |nodes|
    decreases |segs|
  {
    if segs == [] then Mark(nodes, cur, info)
    else if segs[0] in nodes[cur].children then Insert(nodes, nodes[cur].children[segs[0]], segs[1..], info)
    else
      AddChildShaped(nodes, cur, segs[0]);
      Insert(AddChild(nodes, cur, segs[0]), |nodes|, segs[1..], info)
  }

  /** The node reached from `i` by following the components `segs`, if every
      one of them is there. */
  ghost function Walk(nodes: seq<Node>, i: nat, segs: seq<string>): (r: Option<nat>)
    requires Shaped(nodes) && i < |nodes|
    ensures r.Some? ==> r.value < |nodes|
    decreases |segs|
  {
    if segs == [] then Some(i)
    else if segs[0] in nodes[i].children then Walk(nodes, nodes[i].children[segs[0]], segs[1..])
    else None
  }

  /** The invariant holds again once the insertion started at `cur`, in a
      trie that satisfies it everywhere but at `cur`, is done. */
  lemma {:induction false} InsertWellFormedFrom(nodes: seq<Node>, cur: nat, segs: seq<string>, info: Info)
    requires Shaped(nodes) && Labelled(nodes) && Connected(nodes) && UniqueParents(nodes)
    requires cur < |nodes| && MarkedExcept(nodes, cur) && nodes[0].count == 0
    requires cur == 0 ==> segs != []
    ensures WellFormed(Insert(nodes, cur, segs, info))
    decreases |segs|
  {
    if segs == [] {
      MarkKeepsShape(nodes, cur, info);
      MarkKeepsConnected(nodes, cur, info);
      MarkMarked(nodes, cur, info);
    } else if segs[0] in nodes[cur].children {
      DescendMarked(nodes, cur, segs[0]);
      InsertWellFormedFrom(nodes, nodes[cur].children[segs[0]], segs[1..], info);
    } else {
      AddChildShaped(nodes, cur, segs[0]);
      AddChildLabelled(nodes, cur, segs[0]);
      AddChildConnected(nodes, cur, segs[0]);
      AddChildUniqueParents(nodes, cur, segs[0]);
      AddChildMarked(nodes, cur, segs[0]);
      InsertWellFormedFrom(AddChild(nodes, cur, segs[0]), |nodes|, segs[1..], info);
    }
  }

  /** `add_line` keeps the trie well formed: a path always has at least one
      component, so the root itself is never marked. */
  lemma InsertWellFormed(nodes: seq<Node>, segs: seq<string>, info: Info)
    requires WellFormed(nodes) && segs != []
    ensures WellFormed(Insert(nodes, 0, segs, info))
  {
    InsertWellFormedFrom(nodes, 0, segs, info);
  }

  /** `b` keeps every entry of `a`. */
  ghost predicate Extends(a: map<string, nat>, b: map<string, nat>)
  {
    forall k :: k in a ==> k in b && b[k] == a[k]
  }

  /** Every node of `a` is still in `b`, with its name and at least its children. */
  ghost predicate Grows(a: seq<Node>, b: seq<Node>)
  {
    |a| <= |b| && forall j :: 0 <= j < |a| ==> b[j].name == a[j].name && Extends(a[j].children, b[j].children)
  }

  /** The count an insertion along `segs` starts from: the count of the node
      already there, or 0. */
  ghost function PriorCount(nodes: seq<Node>, cur: nat, segs: seq<string>): nat
    requires Shaped(nodes) && cur < |nodes|
  {
    match Walk(nodes, cur, segs)
    case Some(t) => nodes[t].count
    case None => 0
  }

  /** Insertion only adds nodes and children: it never removes a child or
      relabels a node. */
  lemma {:induction false} InsertGrows(nodes: seq<Node>, cur: nat, segs: seq<string>, info: Info)
    requires Shaped(nodes) && cur < |nodes|
    ensures Grows(nodes, Insert(nodes, cur, segs, info))
    decreases |segs|
  {
    if segs == [] {
    } else if segs[0] in nodes[cur].children {
      InsertGrows(nodes, nodes[cur].children[segs[0]], segs[1..], info);
    } else {
      var g := AddChild(nodes, cur, segs[0]);
      AddChildShaped(nodes, cur, segs[0]);
      InsertGrows(g, |nodes|, segs[1..], info);
      assert Grows(nodes, g);
      GrowsTransitive(nodes, g, Insert(g, |nodes|, segs[1..], info));
    }
  }

  lemma GrowsTransitive(a: seq<Node>, b: seq<Node>, c: seq<Node>)
    requires Grows(a, b) && Grows(b, c)
    ensures Grows(a, c)
  {
  }

  /** A walk that succeeds keeps succeeding, to the same node, once the arena has grown. */
  lemma {:induction false} WalkGrows(a: seq<Node>, b: seq<Node>, i: nat, segs: seq<string>)
    requires Shaped(a) && Shaped(b) && Grows(a, b) && i < |a|
    requires Walk(a, i, segs).Some?
    ensures Walk(b, i, segs) == Walk(a, i, segs)
    decreases |segs|
  {
    if segs != [] {
      WalkGrows(a, b, a[i].children[segs[0]], segs[1..]);
    }
  }

  /** Insertion ends at the node `segs` leads to from `cur`: it adds exactly 1
      to that node's count and stores this call's `info` there. */
  lemma {:induction false} InsertMarksTerminal(nodes: seq<Node>, cur: nat, segs: seq<string>, info: Info)
    requires Shaped(nodes) && cur < |nodes|
    ensures var r := Insert(nodes, cur, segs, info);
            && Walk(r, cur, segs).Some?
            && r[Walk(r, cur, segs).value].count == PriorCount(nodes, cur, segs) + 1
            && r[Walk(r, cur, segs).value].info == Some(info)
            && (Walk(nodes, cur, segs).Some? ==> Walk(r, cur, segs) == Walk(nodes, cur, segs))
    decreases |segs|
  {
    var r := Insert(nodes, cur, segs, info);
    if segs == [] {
    } else if segs[0] in nodes[cur].children {
      var c := nodes[cur].children[segs[0]];
      InsertMarksTerminal(nodes, c, segs[1..], info);
      InsertGrows(nodes, c, segs[1..], info);
    } else {
      var g := AddChild(nodes, cur, segs[0]);
      AddChildShaped(nodes, cur, segs[0]);
      InsertMarksTerminal(g, |nodes|, segs[1..], info);
      InsertGrows(g, |nodes|, segs[1..], info);
      assert g[cur].children[segs[0]] == |nodes|;
      assert PriorCount(g, |nodes|, segs[1..]) == 0;
    }
  }

  /** Insertion changes the count and `info` of no node but the one it ends
      at; the nodes it creates on the way have count 0 and no `info`. */
  lemma {:induction false} InsertLeavesOthers(nodes: seq<Node>, cur: nat, segs: seq<string>, info: Info)
    requires Shaped(nodes) && cur < |nodes|
    ensures var r := Insert(nodes, cur, segs, info);
            forall j {:trigger r[j]} :: 0 <= j < |r| && Walk(r, cur, segs) != Some(j) ==>
              r[j].count == (if j < |nodes| then nodes[j].count else 0) &&
              r[j].info == (if j < |nodes| then nodes[j].info else None)
    decreases |segs|
  {
    if segs == [] {
    } else if segs[0] in nodes[cur].children {
      var c := nodes[cur].children[segs[0]];
      InsertLeavesOthers(nodes, c, segs[1..], info);
      InsertDescends(nodes, cur, segs, info);
    } else {
      var g := AddChild(nodes, cur, segs[0]);
      AddChildShaped(nodes, cur, segs[0]);
      InsertLeavesOthers(g, |nodes|, segs[1..], info);
      InsertDescends(nodes, cur, segs, info);
      AddChildKeepsMarks(nodes, cur, segs[0]);
    }
  }

  /** One step of an insertion: it goes on below the child named by the
      first component, created when missing, and its walk goes the same way. */
  lemma InsertDescends(nodes: seq<Node>, cur: nat, segs: seq<string>, info: Info)
    requires Shaped(nodes) && cur < |nodes| && segs != []
    ensures var g := if segs[0] in nodes[cur].children then nodes else AddChild(nodes, cur, segs[0]);
            var c := if segs[0] in nodes[cur].children then nodes[cur].children[segs[0]] else |nodes|;
            && Shaped(g) && c < |g|
            && Insert(nodes, cur, segs, info) == Insert(g, c, segs[1..], info)
            && Walk(Insert(nodes, cur, segs, info), cur, segs) == Walk(Insert(g, c, segs[1..], info), c, segs[1..])
            && segs[0] in Insert(nodes, cur, segs, info)[cur].children
            && Insert(nodes, cur, segs, info)[cur].children[segs[0]] == c
  {
    if segs[0] in nodes[cur].children {
      var c := nodes[cur].children[segs[0]];
      var r := Insert(nodes, c, segs[1..], info);
      InsertGrows(nodes, c, segs[1..], info);
      assert r[cur].children[segs[0]] == c;
    } else {
      var g := AddChild(nodes, cur, segs[0]);
      AddChildShaped(nodes, cur, segs[0]);
      var r := Insert(g, |nodes|, segs[1..], info);
      InsertGrows(g, |nodes|, segs[1..], info);
      assert g[cur].children[segs[0]] == |nodes|;
      assert r[cur].children[segs[0]] == |nodes|;
    }
  }

  /** Adding a child leaves every count and `info` as it was, and the new
      node has neither. */
  lemma AddChildKeepsMarks(nodes: seq<Node>, cur: nat, seg: string)
    requires cur < |nodes| && seg !in nodes[cur].children
    ensures var g := AddChild(nodes, cur, seg);
            forall j {:trigger g[j]} :: 0 <= j < |g| ==>
              g[j].count == (if j < |nodes| then nodes[j].count else 0) &&
              g[j].info == (if j < |nodes| then nodes[j].info else None)
  {
  }




  /** Inserting a path that is already in the trie adds no node: it only
      marks the node the path leads to. */
  lemma {:induction false} InsertExisting(nodes: seq<Node>, cur: nat, segs: seq<string>, info: Info)
    requires Shaped(nodes) && cur < |nodes| && Walk(nodes, cur, segs).Some?
    ensures Insert(nodes, cur, segs, info) == Mark(nodes, Walk(nodes, cur, segs).value, info)
    decreases |segs|
  {
    if segs != [] {
      InsertExisting(nodes, nodes[cur].children[segs[0]], segs[1..], info);
    }
  }

  /** Below a childless node every component creates a node. */
  lemma {:induction false} InsertBelowLeaf(nodes: seq<Node>, cur: nat, segs: seq<string>, info: Info)
    requires Shaped(nodes) && cur < |nodes| && nodes[cur].children == map[]
    ensures |Insert(nodes, cur, segs, info)| == |nodes| + |segs|
    decreases |segs|
  {
    if segs != [] {
      AddChildShaped(nodes, cur, segs[0]);
      InsertBelowLeaf(AddChild(nodes, cur, segs[0]), |nodes|, segs[1..], info);
    }
  }

  /** An insertion creates at most one node per component. */
  lemma {:induction false} InsertAddsAtMostSegs(nodes: seq<Node>, cur: nat, segs: seq<string>, info: Info)
    requires Shaped(nodes) && cur < |nodes|
    ensures |Insert(nodes, cur, segs, info)| <= |nodes| + |segs|
    decreases |segs|
  {
    if segs == [] {
    } else if segs[0] in nodes[cur].children {
      InsertAddsAtMostSegs(nodes, nodes[cur].children[segs[0]], segs[1..], info);
    } else {
      AddChildShaped(nodes, cur, segs[0]);
      InsertAddsAtMostSegs(AddChild(nodes, cur, segs[0]), |nodes|, segs[1..], info);
    }
  }

  /** `n` insertions of the same components from the root. */
  ghost function InsertTimes(nodes: seq<Node>, segs: seq<string>, info: Info, n: nat): (r: seq<Node>)
    requires Shaped(nodes)
    ensures Shaped(r)
  {
    if n == 0 then nodes else Insert(InsertTimes(nodes, segs, info, n - 1), 0, segs, info)
  }

  /** Inserting the same path `n >= 1` times into a fresh trie leaves one
      node per component, the last with count `n`. */
  lemma {:induction false} InsertRepeatedly(segs: seq<string>, info: Info, n: nat)
    requires n >= 1 && segs != []
    ensures var r := InsertTimes(Empty(), segs, info, n);
            && |r| == 1 + |segs|
            && Walk(r, 0, segs).Some?
            && r[Walk(r, 0, segs).value].count == n
  {
    var r := InsertTimes(Empty(), segs, info, n);
    if n == 1 {
      InsertBelowLeaf(Empty(), 0, segs, info);
      InsertMarksTerminal(Empty(), 0, segs, info);
    } else {
      var prev := InsertTimes(Empty(), segs, info, n - 1);
      InsertRepeatedly(segs, info, n - 1);
      var t := Walk(prev, 0, segs).value;
      InsertExisting(prev, 0, segs, info);
      InsertMarksTerminal(prev, 0, segs, info);
    }
  }

  /** A walk that succeeds also succeeds along every prefix of its components. */
  lemma {:induction false} WalkPrefix(nodes: seq<Node>, i: nat, segs: seq<string>, k: nat)
    requires Shaped(nodes) && i < |nodes| && Walk(nodes, i, segs).Some? && k <= |segs|
    ensures Walk(nodes, i, segs[..k]).Some?
    decreases k
  {
    if k > 0 {
      PrefixTail(segs, k);
      WalkPrefix(nodes, nodes[i].children[segs[0]], segs[1..], k - 1);
      WalkStep(nodes, i, segs[..k]);
    }
  }

  /** One step of a walk, through the child named by the first component. */
  lemma WalkStep(nodes: seq<Node>, i: nat, q: seq<string>)
    requires Shaped(nodes) && i < |nodes| && q != [] && q[0] in nodes[i].children
    ensures Walk(nodes, i, q) == Walk(nodes, nodes[i].children[q[0]], q[1..])
  {
  }

  /** Every node an insertion creates is reached from where it started by a
      prefix of the inserted components. */
  lemma {:induction false} InsertNewNode(nodes: seq<Node>, cur: nat, segs: seq<string>, info: Info, j: nat)
    returns (k: nat)
    requires Shaped(nodes) && cur < |nodes| && |nodes| <= j < |Insert(nodes, cur, segs, info)|
    ensures k <= |segs| && Walk(Insert(nodes, cur, segs, info), cur, segs[..k]) == Some(j)
    decreases |segs|
  {
    if segs != [] {
      var r := Insert(nodes, cur, segs, info);
      if segs[0] in nodes[cur].children {
        var c := nodes[cur].children[segs[0]];
        InsertGrows(nodes, c, segs[1..], info);
        var k' := InsertNewNode(nodes, c, segs[1..], info, j);
        k := k' + 1;
        NewNodeStep(r, cur, segs, c, k', j);
      } else {
        var g := AddChild(nodes, cur, segs[0]);
        AddChildShaped(nodes, cur, segs[0]);
        InsertGrows(g, |nodes|, segs[1..], info);
        assert g[cur].children[segs[0]] == |nodes|;
        if j == |nodes| {
          k := 1;
          NewNodeStep(r, cur, segs, |nodes|, 0, j);
        } else {
          var k' := InsertNewNode(g, |nodes|, segs[1..], info, j);
          k := k' + 1;
          NewNodeStep(r, cur, segs, |nodes|, k', j);
        }
      }
    }
  }

  /** A walk from the child named by the first component, extended by that component. */
  lemma NewNodeStep(r: seq<Node>, cur: nat, segs: seq<string>, c: nat, k: nat, j: nat)
    requires Shaped(r) && cur < |r| && c < |r| && segs != [] && k < |segs|
    requires segs[0] in r[cur].children && r[cur].children[segs[0]] == c
    requires Walk(r, c, segs[1..][..k]) == Some(j)
    ensures Walk(r, cur, segs[..k + 1]) == Some(j)
  {
    PrefixTail(segs, k + 1);
    WalkStep(r, cur, segs[..k + 1]);
  }
}
