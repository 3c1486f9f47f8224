/** The order in which `print_tree` visits the trie: depth first, each node
    before its children, siblings in ascending order of their names. This
    module proves that this order reaches every node but the root exactly once. */
module Traversal {
  import opened Common
  import opened Text
  import opened Trie
  import opened PosixPath

  /** The node whose child `c` is, with `c`'s name as the key. */
  ghost function Parent(nodes: seq<Node>, c: nat): (p: nat)
    requires Arranged(nodes) && 0 < c < |nodes|
    ensures p < c && nodes[c].name.Some?
    ensures nodes[c].name.value in nodes[p].children && nodes[p].children[nodes[c].name.value] == c
  {
    assert HasParent(nodes, c);
    var p, k :| 0 <= p < c && p < |nodes| && k in nodes[p].children && nodes[p].children[k] == c;
    assert nodes[nodes[p].children[k]].name == Some(k);
    p
  }

  /** The child of `p` under any key has `p` as its parent. */
  lemma ParentOfChild(nodes: seq<Node>, p: nat, k: string)
    requires Arranged(nodes) && p < |nodes| && k in nodes[p].children
    ensures Parent(nodes, nodes[p].children[k]) == p
  {
  }

  /** The children of one node under two different keys are different nodes. */
  lemma ChildrenDistinct(nodes: seq<Node>, p: nat, k: string, l: string)
    requires Arranged(nodes) && p < |nodes| && k in nodes[p].children && l in nodes[p].children && k != l
    ensures nodes[p].children[k] != nodes[p].children[l]
  {
    assert nodes[nodes[p].children[k]].name == Some(k);
    assert nodes[nodes[p].children[l]].name == Some(l);
  }

  /** `a` is `x` or one of its ancestors. */
  ghost predicate Descends(nodes: seq<Node>, x: nat, a: nat)
    requires Arranged(nodes) && x < |nodes|
    decreases x
  {
    x == a || (0 < x && Descends(nodes, Parent(nodes, x), a))
  }

  lemma {:induction false} DescendsBound(nodes: seq<Node>, x: nat, a: nat)
    requires Arranged(nodes) && x < |nodes| && Descends(nodes, x, a)
    ensures a <= x
    decreases x
  {
    if x != a {
      DescendsBound(nodes, Parent(nodes, x), a);
    }
  }

  lemma {:induction false} DescendsTransitive(nodes: seq<Node>, x: nat, b: nat, a: nat)
    requires Arranged(nodes) && x < |nodes| && b < |nodes|
    requires Descends(nodes, x, b) && Descends(nodes, b, a)
    ensures Descends(nodes, x, a)
    decreases x
  {
    if x != b {
      DescendsTransitive(nodes, Parent(nodes, x), b, a);
    }
  }

  /** Every node hangs below the root. */
  lemma {:induction false} DescendsFromRoot(nodes: seq<Node>, x: nat)
    requires Arranged(nodes) && x < |nodes|
    ensures Descends(nodes, x, 0)
    decreases x
  {
    if x != 0 {
      DescendsFromRoot(nodes, Parent(nodes, x));
    }
  }

  /** The ancestors of a node form a chain. */
  lemma {:induction false} AncestorsChain(nodes: seq<Node>, y: nat, a: nat, b: nat)
    requires Arranged(nodes) && y < |nodes| && a < |nodes| && b < |nodes|
    requires Descends(nodes, y, a) && Descends(nodes, y, b)
    ensures Descends(nodes, a, b) || Descends(nodes, b, a)
    decreases y
  {
    if y != a && y != b {
      AncestorsChain(nodes, Parent(nodes, y), a, b);
    }
  }

  /** No node hangs below two different children of the same node. */
  lemma SiblingsDisjoint(nodes: seq<Node>, p: nat, k: string, l: string, y: nat)
    requires Arranged(nodes) && p < |nodes| && k in nodes[p].children && l in nodes[p].children && k != l
    requires y < |nodes|
    ensures !(Descends(nodes, y, nodes[p].children[k]) && Descends(nodes, y, nodes[p].children[l]))
  {
    var c, d := nodes[p].children[k], nodes[p].children[l];
    if Descends(nodes, y, c) && Descends(nodes, y, d) {
      AncestorsChain(nodes, y, c, d);
      if Descends(nodes, c, d) {
        SiblingAbove(nodes, p, k, l);
      } else {
        SiblingAbove(nodes, p, l, k);
      }
    }
  }

  lemma SiblingAbove(nodes: seq<Node>, p: nat, k: string, l: string)
    requires Arranged(nodes) && p < |nodes| && k in nodes[p].children && l in nodes[p].children && k != l
    ensures !Descends(nodes, nodes[p].children[k], nodes[p].children[l])
  {
    var c, d := nodes[p].children[k], nodes[p].children[l];
    ChildrenDistinct(nodes, p, k, l);
    if Descends(nodes, c, d) {
      ParentOfChild(nodes, p, k);
      DescendsBound(nodes, p, d);
    }
  }

  /** The number of edges between the root and `x`. */
  ghost function Depth(nodes: seq<Node>, x: nat): (d: nat)
    requires Arranged(nodes) && x < |nodes|
    ensures d == 0 <==> x == 0
    decreases x
  {
    if x == 0 then 0 else 1 + Depth(nodes, Parent(nodes, x))
  }

  /** The path `print_tree` accumulates down to `x`: the names from the root
      to `x`, joined by `os.path.join` starting from the empty string. */
  ghost function PathOf(nodes: seq<Node>, x: nat): string
    requires Arranged(nodes) && x < |nodes|
    decreases x
  {
    if x == 0 then "" else Join(PathOf(nodes, Parent(nodes, x)), nodes[x].name.value)
  }

  /** `x` comes last among its siblings in ascending order of names. */
  ghost predicate IsLastChild(nodes: seq<Node>, x: nat)
    requires Arranged(nodes) && 0 < x < |nodes|
  {
    var ks := Keys(nodes, Parent(nodes, x));
    |ks| > 0 && ks[|ks| - 1] == nodes[x].name.value
  }

  /** The ancestor of `x` (or `x` itself) at depth `d`. */
  ghost function AncestorAt(nodes: seq<Node>, x: nat, d: nat): (a: nat)
    requires Arranged(nodes) && x < |nodes| && d <= Depth(nodes, x)
    ensures a < |nodes| && Depth(nodes, a) == d && Descends(nodes, x, a)
    decreases x
  {
    if d == Depth(nodes, x) then x
    else
      var a := AncestorAt(nodes, Parent(nodes, x), d);
      a
  }

  /** Above its own depth, a node's ancestors are its parent's. */
  lemma AncestorOfChild(nodes: seq<Node>, c: nat, d: nat)
    requires Arranged(nodes) && 0 < c < |nodes| && d <= Depth(nodes, Parent(nodes, c))
    ensures AncestorAt(nodes, c, d) == AncestorAt(nodes, Parent(nodes, c), d)
  {
  }

  // ---------------------------------------------------------------------
  // The visiting order.

  /** `sorted(node.children)`. */
  function Keys(nodes: seq<Node>, i: nat): (keys: seq<string>)
    requires i < |nodes|
    ensures forall j :: 0 <= j < |keys| ==> keys[j] in nodes[i].children
  {
    SortedKeys(nodes[i].children.Keys)
  }

  /** The nodes below `i`, in the order they are printed. */
  ghost function Below(nodes: seq<Node>, i: nat): (r: seq<nat>)
    requires Shaped(nodes) && i < |nodes|
    ensures forall x :: x in r ==> i < x < |nodes|
    decreases |nodes| - i, 1
  {
    BelowKids(nodes, i, 0)
  }

  /** The nodes below the children of `i` from the `j`-th on, in order. */
  ghost function BelowKids(nodes: seq<Node>, i: nat, j: nat): (r: seq<nat>)
    requires Shaped(nodes) && i < |nodes|
    ensures forall x :: x in r ==> i < x < |nodes|
    decreases |nodes| - i, 0, |Keys(nodes, i)| - j
  {
    var keys := Keys(nodes, i);
    if j >= |keys| then []
    else
      var c := nodes[i].children[keys[j]];
      [c] + Below(nodes, c) + BelowKids(nodes, i, j + 1)
  }

  predicate NoDup(s: seq<nat>)
  {
    forall a, b :: 0 <= a < b < |s| ==> s[a] != s[b]
  }

  /** Everything printed below `i` hangs below `i`. */
  lemma {:induction false} BelowSound(nodes: seq<Node>, i: nat, x: nat)
    requires Arranged(nodes) && i < |nodes| && x in Below(nodes, i)
    ensures Descends(nodes, x, i)
    decreases |nodes| - i, 1
  {
    BelowKidsSound(nodes, i, 0, x);
  }

  lemma {:induction false} BelowKidsSound(nodes: seq<Node>, i: nat, j: nat, x: nat)
    requires Arranged(nodes) && i < |nodes| && x in BelowKids(nodes, i, j)
    ensures Descends(nodes, x, i)
    decreases |nodes| - i, 0
  {
    var n := KidHolding(nodes, i, j, x);
    var k := Keys(nodes, i)[n];
    var c := nodes[i].children[k];
    ParentOfChild(nodes, i, k);
    assert Descends(nodes, c, i);
    if x != c {
      BelowSound(nodes, c, x);
      DescendsTransitive(nodes, x, c, i);
    }
  }


  /** The children of `i` from the `j`-th on, and everything below them, are
      printed in `BelowKids(nodes, i, j)`. */
  lemma {:induction false} BelowKidsHas(nodes: seq<Node>, i: nat, j: nat, m: nat, x: nat)
    requires Shaped(nodes) && i < |nodes| && j <= m < |Keys(nodes, i)|
    requires var c := nodes[i].children[Keys(nodes, i)[m]]; x == c || x in Below(nodes, c)
    ensures x in BelowKids(nodes, i, j)
    decreases m - j
  {
    if j < m {
      BelowKidsHas(nodes, i, j + 1, m, x);
    }
  }

  /** The child of `i` through which `x` hangs below `i`. */
  lemma {:induction false} ChildOnPath(nodes: seq<Node>, x: nat, i: nat) returns (k: string)
    requires Arranged(nodes) && x < |nodes| && i < |nodes| && x != i && Descends(nodes, x, i)
    ensures k in nodes[i].children && Descends(nodes, x, nodes[i].children[k])
    decreases x
  {
    var p := Parent(nodes, x);
    if p == i {
      k := nodes[x].name.value;
    } else {
      k := ChildOnPath(nodes, p, i);
      DescendsTransitive(nodes, x, p, nodes[i].children[k]);
    }
  }

  /** Everything that hangs below `i` is printed below `i`. */
  lemma {:induction false} BelowComplete(nodes: seq<Node>, i: nat, x: nat)
    requires Arranged(nodes) && i < x < |nodes| && Descends(nodes, x, i)
    ensures x in Below(nodes, i)
    decreases |nodes| - i
  {
    var k := ChildOnPath(nodes, x, i);
    var keys := Keys(nodes, i);
    assert k in keys;
    var m :| 0 <= m < |keys| && keys[m] == k;
    var c := nodes[i].children[k];
    if x != c {
      DescendsBound(nodes, x, c);
      BelowComplete(nodes, c, x);
    }
    BelowKidsHas(nodes, i, 0, m, x);
  }

  /** A node hanging below the `m`-th child of `i` is not printed among the
      later children. */
  lemma NotInLaterKids(nodes: seq<Node>, i: nat, m: nat, j: nat, y: nat)
    requires Arranged(nodes) && i < |nodes| && m < j && m < |Keys(nodes, i)| && y < |nodes|
    requires Descends(nodes, y, nodes[i].children[Keys(nodes, i)[m]])
    ensures y !in BelowKids(nodes, i, j)
  {
    if y in BelowKids(nodes, i, j) {
      var n := KidHolding(nodes, i, j, y);
      NotInLaterKid(nodes, i, m, n, y);
      assert false;
    }
  }

  /** A node printed in `BelowKids(nodes, i, j)` is the `n`-th child of `i`,
      for some `n >= j`, or is printed below it. */
  lemma {:induction false} KidHolding(nodes: seq<Node>, i: nat, j: nat, y: nat) returns (n: nat)
    requires Shaped(nodes) && i < |nodes| && y in BelowKids(nodes, i, j)
    ensures j <= n < |Keys(nodes, i)|
    ensures var c := nodes[i].children[Keys(nodes, i)[n]];
            y == c || y in Below(nodes, c)
    decreases |Keys(nodes, i)| - j
  {
    var keys := Keys(nodes, i);
    assert j < |keys|;
    var c := nodes[i].children[keys[j]];
    var here, rest := [c] + Below(nodes, c), BelowKids(nodes, i, j + 1);
    assert BelowKids(nodes, i, j) == here + rest;
    if y in here {
      n := j;
    } else {
      n := KidHolding(nodes, i, j + 1, y);
    }
  }

  /** A node below the `m`-th child is not printed for a later child `j`. */
  lemma NotInLaterKid(nodes: seq<Node>, i: nat, m: nat, j: nat, y: nat)
    requires Arranged(nodes) && i < |nodes| && m < j < |Keys(nodes, i)| && y < |nodes|
    requires Descends(nodes, y, nodes[i].children[Keys(nodes, i)[m]])
    ensures var d := nodes[i].children[Keys(nodes, i)[j]];
            y != d && y !in Below(nodes, d)
  {
    var keys := Keys(nodes, i);
    var d := nodes[i].children[keys[j]];
    SortedKeysDistinct(nodes[i].children.Keys, m, j);
    SiblingsDisjoint(nodes, i, keys[m], keys[j], y);
    if y in Below(nodes, d) {
      BelowSound(nodes, d, y);
    }
  }


  lemma NoDupConcat(s: seq<nat>, t: seq<nat>)
    requires NoDup(s) && NoDup(t) && forall x :: x in s ==> x !in t
    ensures NoDup(s + t)
  {
    forall a, b | 0 <= a < b < |s + t|
      ensures (s + t)[a] != (s + t)[b]
    {
      if a < |s| && b >= |s| {
        assert (s + t)[a] in s && (s + t)[b] in t;
      }
    }
  }

  /** No node is printed twice. */
  lemma {:induction false} BelowNoDup(nodes: seq<Node>, i: nat)
    requires Arranged(nodes) && i < |nodes|
    ensures NoDup(Below(nodes, i))
    decreases |nodes| - i, 1
  {
    BelowKidsNoDup(nodes, i, 0);
  }

  lemma {:induction false} BelowKidsNoDup(nodes: seq<Node>, i: nat, j: nat)
    requires Arranged(nodes) && i < |nodes|
    ensures NoDup(BelowKids(nodes, i, j))
    decreases |nodes| - i, 0, |Keys(nodes, i)| - j
  {
    var keys := Keys(nodes, i);
    if j < |keys| {
      var c := nodes[i].children[keys[j]];
      ParentOfChild(nodes, i, keys[j]);
      BelowNoDup(nodes, c);
      BelowKidsNoDup(nodes, i, j + 1);
      KidsNoDupStep(nodes, i, j);
    } else {
      assert BelowKids(nodes, i, j) == [];
    }
  }

  /** One step of `BelowKidsNoDup`: the `j`-th child and what is below it,
      followed by the later children, repeat nothing. */
  lemma KidsNoDupStep(nodes: seq<Node>, i: nat, j: nat)
    requires Arranged(nodes) && i < |nodes| && j < |Keys(nodes, i)|
    requires NoDup(Below(nodes, nodes[i].children[Keys(nodes, i)[j]])) && NoDup(BelowKids(nodes, i, j + 1))
    ensures NoDup(BelowKids(nodes, i, j))
  {
    var c := nodes[i].children[Keys(nodes, i)[j]];
    var here, rest := [c] + Below(nodes, c), BelowKids(nodes, i, j + 1);
    assert BelowKids(nodes, i, j) == here + rest;
    NoDupConcat([c], Below(nodes, c));
    HereBeforeRest(nodes, i, j);
    NoDupConcat(here, rest);
  }

  /** What is printed for the `j`-th child does not come back for a later one. */
  lemma HereBeforeRest(nodes: seq<Node>, i: nat, j: nat)
    requires Arranged(nodes) && i < |nodes| && j < |Keys(nodes, i)|
    ensures var c := nodes[i].children[Keys(nodes, i)[j]];
            forall y :: y in [c] + Below(nodes, c) ==> y !in BelowKids(nodes, i, j + 1)
  {
    var c := nodes[i].children[Keys(nodes, i)[j]];
    forall y | y in [c] + Below(nodes, c)
      ensures y !in BelowKids(nodes, i, j + 1)
    {
      if y != c {
        BelowSound(nodes, c, y);
      }
      NotInLaterKids(nodes, i, j, j + 1, y);
    }
  }


  /** Printing from the root reaches every other node, and only those. */
  lemma BelowRootCovers(nodes: seq<Node>, x: nat)
    requires Arranged(nodes)
    ensures x in Below(nodes, 0) <==> 0 < x < |nodes|
  {
    if 0 < x < |nodes| {
      DescendsFromRoot(nodes, x);
      BelowComplete(nodes, 0, x);
    }
  }

  function Elements(s: seq<nat>): set<nat>
  {
    set x | x in s
  }

  /** The set of the elements of a duplicate-free sequence has its length. */
  lemma {:induction false} NoDupCard(s: seq<nat>)
    requires NoDup(s)
    ensures |Elements(s)| == |s|
  {
    if s != [] {
      NoDupTail(s);
      NoDupCard(s[1..]);
      ElementsOfCons(s);
    } else {
      assert Elements(s) == {};
    }
  }

  lemma NoDupTail(s: seq<nat>)
    requires NoDup(s) && s != []
    ensures NoDup(s[1..]) && s[0] !in s[1..]
  {
    var t := s[1..];
    forall a, b | 0 <= a < b < |t|
      ensures t[a] != t[b]
    {
      assert t[a] == s[a + 1] && t[b] == s[b + 1];
    }
    forall b | 0 <= b < |t|
      ensures t[b] != s[0]
    {
      assert t[b] == s[b + 1];
    }
  }

  lemma ElementsOfCons(s: seq<nat>)
    requires s != []
    ensures Elements(s) == Elements(s[1..]) + {s[0]}
  {
    assert s == [s[0]] + s[1..];
  }

  /** The indices `1 .. n-1` of the nodes other than the root. */
  function NonRoot(n: nat): (r: seq<nat>)
    requires n > 0
    ensures |r| == n - 1 && NoDup(r)
    ensures forall x :: x in r <==> 0 < x < n
  {
    var r := seq(n - 1, k requires 0 <= k < n - 1 => k + 1);
    forall x | 0 < x < n
      ensures x in r
    {
      assert r[x - 1] == x;
    }
    r
  }

  /** Every node but the root is printed exactly once: the order is free of
      duplicates and one entry shorter than the arena. */
  lemma VisitsEveryNodeOnce(nodes: seq<Node>)
    requires Arranged(nodes)
    ensures NoDup(Below(nodes, 0))
    ensures forall x :: x in Below(nodes, 0) <==> 0 < x < |nodes|
    ensures |Below(nodes, 0)| == |nodes| - 1
  {
    var s := Below(nodes, 0);
    BelowNoDup(nodes, 0);
    forall x
      ensures x in s <==> 0 < x < |nodes|
    {
      if 0 <= x {
        BelowRootCovers(nodes, x);
      }
    }
    var r := NonRoot(|nodes|);
    NoDupCard(s);
    NoDupCard(r);
    assert Elements(s) == Elements(r);
  }

  // ---------------------------------------------------------------------
  // Each node is named by its path from the root.

  /** The names on the way from the root down to `x`. */
  ghost function NamesTo(nodes: seq<Node>, x: nat): (q: seq<string>)
    requires Arranged(nodes) && x < |nodes|
    ensures |q| == Depth(nodes, x)
    decreases x
  {
    if x == 0 then [] else NamesTo(nodes, Parent(nodes, x)) + [nodes[x].name.value]
  }

  /** Walking one more component after `q` takes one more step from where `q` led. */
  lemma {:induction false} WalkSnoc(nodes: seq<Node>, i: nat, q: seq<string>, k: string)
    requires Shaped(nodes) && i < |nodes|
    ensures Walk(nodes, i, q).None? ==> Walk(nodes, i, q + [k]).None?
    ensures Walk(nodes, i, q).Some? ==>
              var m := Walk(nodes, i, q).value;
              Walk(nodes, i, q + [k]) == if k in nodes[m].children then Some(nodes[m].children[k]) else None
    decreases |q|
  {
    if q == [] {
      assert q + [k] == [k] && [k][1..] == [];
    } else {
      assert (q + [k])[0] == q[0] && (q + [k])[1..] == q[1..] + [k];
      if q[0] in nodes[i].children {
        WalkSnoc(nodes, nodes[i].children[q[0]], q[1..], k);
      }
    }
  }

  /** Every node is reached from the root by exactly its own names. */
  lemma {:induction false} WalkNamesTo(nodes: seq<Node>, x: nat)
    requires Arranged(nodes) && x < |nodes|
    ensures Walk(nodes, 0, NamesTo(nodes, x)) == Some(x)
    decreases x
  {
    if x > 0 {
      var p := Parent(nodes, x);
      WalkNamesTo(nodes, p);
      WalkSnoc(nodes, 0, NamesTo(nodes, p), nodes[x].name.value);
    }
  }

  /** The names that lead from the root to `x` are `x`'s own. */
  lemma {:induction false} WalkDetermines(nodes: seq<Node>, q: seq<string>, x: nat)
    requires Arranged(nodes) && Walk(nodes, 0, q) == Some(x)
    ensures x < |nodes| && NamesTo(nodes, x) == q
    decreases |q|
  {
    if q != [] {
      var front, k := q[..|q| - 1], q[|q| - 1];
      assert q == front + [k];
      WalkSnoc(nodes, 0, front, k);
      var m := Walk(nodes, 0, front).value;
      WalkDetermines(nodes, front, m);
      ParentOfChild(nodes, m, k);
      assert nodes[x].name == Some(k);
    }
  }

  /** Different nodes have different names from the root. */
  lemma NamesToInjective(nodes: seq<Node>, x: nat, y: nat)
    requires Arranged(nodes) && x < |nodes| && y < |nodes| && x != y
    ensures NamesTo(nodes, x) != NamesTo(nodes, y)
  {
    WalkNamesTo(nodes, x);
    WalkNamesTo(nodes, y);
  }
}
