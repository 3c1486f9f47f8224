/** What `print_tree` writes: one line per node below the root, in the
    traversal order, each made of the branch glyphs for its position, an
    optional grep annotation and the (possibly coloured) name. */
module Printing {
  import opened Common
  import opened Text
  import opened PosixPath
  import opened Colour
  import opened Trie
  import opened Traversal

  /** `Chars`: the box-drawing characters. */
  const Vrt: char := '\U{2502}'
  const TeeChar: char := '\U{251C}'
  const Hrz: char := '\U{2500}'
  const Crn: char := '\U{2514}'

  /** `Segs`: the four-character blocks the prefixes are made of. */
  const Vertical: string := [Vrt, ' ', ' ', ' ']
  const Tee: string := [TeeChar, Hrz, Hrz, ' ']
  const Bottom: string := [Crn, Hrz, Hrz, ' ']
  const Blank: string := "    "

  /** The column drawn for an ancestor: a vertical line while that ancestor
      still has later siblings to come, blank otherwise. */
  function Segment(more: bool): string
  {
    if more then Vertical else Blank
  }

  /** `child_prefix` as built from the "was not last" bits, one block per bit. */
  function Segments(bits: seq<bool>): (s: string)
    ensures |s| == 4 * |bits|
  {
    if bits == [] then "" else Segments(bits[..|bits| - 1]) + Segment(bits[|bits| - 1])
  }

  /** Block `k` of the columns is the segment for bit `k`. */
  lemma {:induction false} SegmentsBlock(bits: seq<bool>, k: nat)
    requires k < |bits|
    ensures Segments(bits)[4 * k .. 4 * k + 4] == Segment(bits[k])
  {
    var n := |bits| - 1;
    var front := Segments(bits[..n]);
    assert Segments(bits) == front + Segment(bits[n]);
    if k < n {
      SegmentsBlock(bits[..n], k);
      assert bits[..n][k] == bits[k];
      SliceLeft(front, Segment(bits[n]), 4 * k, 4 * k + 4);
    } else {
      SliceRight(front, Segment(bits[n]));
    }
  }

  function PrefixOf(bits: seq<bool>): (s: string)
    ensures |s| == 4 * |bits|
  {
    if bits == [] then "" else Segments(bits[..|bits| - 1]) + (if bits[|bits| - 1] then Tee else Bottom)
  }

  /** Each block of a prefix: a column for every bit but the last, and the
      tee or corner for the last. */
  lemma PrefixBlock(bits: seq<bool>, k: nat)
    requires k < |bits|
    ensures PrefixOf(bits)[4 * k .. 4 * k + 4] ==
              if k + 1 < |bits| then Segment(bits[k]) else if bits[k] then Tee else Bottom
  {
    var n := |bits| - 1;
    var front := Segments(bits[..n]);
    var last := if bits[n] then Tee else Bottom;
    assert PrefixOf(bits) == front + last;
    if k < n {
      SegmentsBlock(bits[..n], k);
      assert bits[..n][k] == bits[k];
      SliceLeft(front, last, 4 * k, 4 * k + 4);
    } else {
      SliceRight(front, last);
    }
  }


  // ---------------------------------------------------------------------
  // One line.

  /** What a run renders with: the mode, whether colour is on, the colour
      tables, and `os.path.isdir`, which asks the file system. */
  datatype Style = Style(mode: Mode, colorOn: bool, palette: Palette, isDir: string -> bool)

  /** The grep-mode count shown before a file: `[BIN]` for a binary match,
      otherwise the number of matching lines. */
  function Annotation(st: Style, node: Node): (r: string)
    requires node.info.Some?
    ensures st.mode != Grep ==> r == ""
    ensures st.mode == Grep && !st.colorOn ==>
              r == if "binary" in node.info.value && node.info.value["binary"] then "[BIN] "
                   else "[" + NatToString(node.count) + "] "
    ensures st.mode == Grep && st.colorOn ==>
              r == if "binary" in node.info.value && node.info.value["binary"]
                   then "[" + (Sgr(Lookup(st.palette.main, "bin")) + "BIN" + Sgr("0")) + "] "
                   else "[" + (Sgr(Lookup(st.palette.main, "count")) + NatToString(node.count) + Sgr("0")) + "] "
  {
    if st.mode != Grep then ""
    else if "binary" in node.info.value && node.info.value["binary"] then
      "[" + Color("BIN", Lookup(st.palette.main, "bin"), st.colorOn) + "] "
    else
      "[" + Color(NatToString(node.count), Lookup(st.palette.main, "count"), st.colorOn) + "] "
  }

  /** The name as printed: a directory in the `di` colour; a file after its
      annotation, in the colour of its extension. */
  function EntryText(st: Style, node: Node, path: string, isDirectory: bool): (r: string)
    requires node.name.Some? && (!isDirectory ==> node.info.Some?)
    ensures !st.colorOn ==> EndsWith(r, node.name.value)
    ensures !st.colorOn && (isDirectory || st.mode != Grep) ==> r == node.name.value
    ensures !st.colorOn && !isDirectory ==> r == Annotation(st, node) + node.name.value
    ensures st.colorOn && isDirectory ==>
              r == Sgr(Lookup(st.palette.main, "di")) + node.name.value + Sgr("0")
    ensures st.colorOn && !isDirectory ==>
              r == Annotation(st, node) + (Sgr(Lookup(st.palette.ext, Ext(path))) + node.name.value + Sgr("0"))
  {
    if isDirectory then Color(node.name.value, Lookup(st.palette.main, "di"), st.colorOn)
    else Annotation(st, node) + Color(node.name.value, Lookup(st.palette.ext, Ext(path)), st.colorOn)
  }

  /** One printed line, with what it was printed from: the node, its bits,
      its prefix, its accumulated path and whether it counted as a directory. */
  datatype Line = Line(node: nat, bits: seq<bool>, prefix: string, path: string, isDirectory: bool, text: string)

  /** The line for the labelled node `i` below `parentPath`. */
  function LineOf(st: Style, i: nat, node: Node, bits: seq<bool>, prefix: string, parentPath: string): (l: Line)
    requires node.name.Some? && (node.children == map[] ==> node.info.Some?)
    ensures l.node == i && l.bits == bits && l.prefix == prefix
    ensures l.path == Join(parentPath, node.name.value)
    ensures node.children != map[] ==> l.isDirectory
    ensures l.text == prefix + EntryText(st, node, l.path, l.isDirectory) + "\n"
  {
    var path := Join(parentPath, node.name.value);
    var isDirectory := |node.children| > 0 || st.isDir(path);
    Line(i, bits, prefix, path, isDirectory, prefix + EntryText(st, node, path, isDirectory) + "\n")
  }

  // ---------------------------------------------------------------------
  // The whole output.

  /** The bits a child is printed with: below a labelled node one more,
      true unless the child is the last. */
  function ChildBits(bits: seq<bool>, increase: bool, last: bool): seq<bool>
  {
    if increase then bits + [!last] else bits
  }

  /** The prefix string a child is printed with: below a labelled node the
      parent's columns and a tee, or a corner for the last child; below the
      root none. */
  function ChildString(bits: seq<bool>, increase: bool, last: bool): string
  {
    if increase then Segments(bits) + (if last then Bottom else Tee) else ""
  }

  /** `print_tree(node, prefix, prefix_string, parent_path)`: the line of
      node `i` unless it is the root, then the lines of its children. */
  ghost function RenderNode(nodes: seq<Node>, st: Style, i: nat, bits: seq<bool>, prefix: string,
                            parentPath: string): seq<Line>
    requires Printable(nodes) && i < |nodes|
    decreases |nodes| - i, 1
  {
    var node := nodes[i];
    if node.name.None? then RenderKids(nodes, st, i, 0, bits, false, parentPath)
    else
      var l := LineOf(st, i, node, bits, prefix, parentPath);
      [l] + RenderKids(nodes, st, i, 0, bits, true, l.path)
  }

  /** The lines of the children of `i` from the `j`-th in ascending order
      on. Below a labelled node (`increase`) a child gets one more bit, true
      unless it is the last child, and the matching prefix; below the root
      the children keep the bits and get the empty prefix. */
  ghost function RenderKids(nodes: seq<Node>, st: Style, i: nat, j: nat, bits: seq<bool>, increase: bool,
                            path: string): seq<Line>
    requires Printable(nodes) && i < |nodes|
    decreases |nodes| - i, 0, |Keys(nodes, i)| - j
  {
    var keys := Keys(nodes, i);
    if j >= |keys| then []
    else
      var c := nodes[i].children[keys[j]];
      var last := j == |keys| - 1;
      RenderNode(nodes, st, c, ChildBits(bits, increase, last), ChildString(bits, increase, last), path)
      + RenderKids(nodes, st, i, j + 1, bits, increase, path)
  }

  /** The path `print_tree` carries on from node `i` below `parentPath`. */
  function OwnPath(node: Node, parentPath: string): string
  {
    if node.name.None? then parentPath else Join(parentPath, node.name.value)
  }

  /** The line of node `i` itself: none for the root. */
  function OwnLines(st: Style, i: nat, node: Node, bits: seq<bool>, prefix: string, parentPath: string): (r: seq<Line>)
    requires node.name.Some? ==> node.children == map[] ==> node.info.Some?
    ensures |r| == if node.name.None? then 0 else 1
  {
    if node.name.None? then [] else [LineOf(st, i, node, bits, prefix, parentPath)]
  }

  /** One level of `RenderNode`: the node's own line, then its children's. */
  lemma RenderNodeUnfold(nodes: seq<Node>, st: Style, i: nat, bits: seq<bool>, prefix: string, parentPath: string)
    requires Printable(nodes) && i < |nodes|
    ensures nodes[i].name.Some? ==> nodes[i].children == map[] ==> nodes[i].info.Some?
    ensures RenderNode(nodes, st, i, bits, prefix, parentPath) ==
              OwnLines(st, i, nodes[i], bits, prefix, parentPath)
              + RenderKids(nodes, st, i, 0, bits, nodes[i].name.Some?, OwnPath(nodes[i], parentPath))
  {
  }

  /** One level of `RenderKids`: the `j`-th child's lines, then the rest. */
  lemma RenderKidsUnfold(nodes: seq<Node>, st: Style, i: nat, j: nat, bits: seq<bool>, increase: bool, path: string)
    requires Printable(nodes) && i < |nodes| && j < |Keys(nodes, i)|
    ensures var keys := Keys(nodes, i);
            var last := j == |keys| - 1;
            RenderKids(nodes, st, i, j, bits, increase, path) ==
              RenderNode(nodes, st, nodes[i].children[keys[j]], ChildBits(bits, increase, last),
                         ChildString(bits, increase, last), path)
              + RenderKids(nodes, st, i, j + 1, bits, increase, path)
  {
  }

  /** The whole of `print_tree()`'s output, from the root. */
  ghost function Render(nodes: seq<Node>, st: Style): seq<Line>
    requires WellFormed(nodes)
  {
    RenderNode(nodes, st, 0, [], "", "")
  }

  function NodesOf(lines: seq<Line>): (r: seq<nat>)
    ensures |r| == |lines|
  {
    if lines == [] then [] else [lines[0].node] + NodesOf(lines[1..])
  }

  /** The text written, line by line. */
  function Texts(lines: seq<Line>): (r: seq<string>)
    ensures |r| == |lines|
  {
    if lines == [] then [] else [lines[0].text] + Texts(lines[1..])
  }

  /** The lines that count as directories. */
  function CountDirs(lines: seq<Line>): nat
  {
    if lines == [] then 0 else (if lines[0].isDirectory then 1 else 0) + CountDirs(lines[1..])
  }

  /** The lines that count as files. */
  function CountFiles(lines: seq<Line>): nat
  {
    if lines == [] then 0 else (if lines[0].isDirectory then 0 else 1) + CountFiles(lines[1..])
  }

  lemma {:induction false} CountsAppend(a: seq<Line>, b: seq<Line>)
    ensures CountDirs(a + b) == CountDirs(a) + CountDirs(b)
    ensures CountFiles(a + b) == CountFiles(a) + CountFiles(b)
  {
    if a != [] {
      assert (a + b)[0] == a[0];
      assert (a + b)[1..] == a[1..] + b;
      CountsAppend(a[1..], b);
    } else {
      assert a + b == b;
    }
  }

  /** Every line counts either as a directory or as a file. */
  lemma {:induction false} CountsTotal(lines: seq<Line>)
    ensures CountDirs(lines) + CountFiles(lines) == |lines|
  {
    if lines != [] {
      CountsTotal(lines[1..]);
    }
  }

  /** What printing has produced so far: the text written, and the
      directory and file counters. */
  datatype Tally = Tally(out: seq<string>, dirs: int, files: int)

  /** The tally after writing `lines`: their texts appended, each line
      counted as a directory or as a file. */
  function Write(t: Tally, lines: seq<Line>): Tally
  {
    Tally(t.out + Texts(lines), t.dirs + CountDirs(lines), t.files + CountFiles(lines))
  }

  /** Writing two runs of lines one after the other is writing them at once. */
  lemma WriteConcat(t: Tally, a: seq<Line>, b: seq<Line>)
    ensures Write(Write(t, a), b) == Write(t, a + b)
  {
    TextsAppend(a, b);
    CountsAppend(a, b);
    ConcatAssoc(t.out, Texts(a), Texts(b));
  }

  /** Writing nothing leaves the tally as it was. */
  lemma WriteNothing(t: Tally)
    ensures Write(t, []) == t
  {
    assert t.out + [] == t.out;
  }

  lemma {:induction false} NodesOfAppend(a: seq<Line>, b: seq<Line>)
    ensures NodesOf(a + b) == NodesOf(a) + NodesOf(b)
  {
    if a == [] {
      assert a + b == b;
    } else {
      assert (a + b)[0] == a[0];
      assert (a + b)[1..] == a[1..] + b;
      NodesOfAppend(a[1..], b);
    }
  }

  lemma {:induction false} TextsAppend(a: seq<Line>, b: seq<Line>)
    ensures Texts(a + b) == Texts(a) + Texts(b)
  {
    if a == [] {
      assert a + b == b;
    } else {
      assert (a + b)[0] == a[0];
      assert (a + b)[1..] == a[1..] + b;
      TextsAppend(a[1..], b);
    }
  }

  /** Entry `k` of the nodes and of the texts is that of line `k`. */
  lemma {:induction false} NodesOfIndex(lines: seq<Line>, k: nat)
    requires k < |lines|
    ensures NodesOf(lines)[k] == lines[k].node
  {
    if k > 0 {
      NodesOfIndex(lines[1..], k - 1);
    }
  }

  // ---------------------------------------------------------------------
  // Which nodes are printed, and in which order.

  /** The lines below node `i` are for exactly the nodes of the traversal
      order, in that order; a labelled node's own line comes first. */
  lemma {:induction false} RenderNodeOrder(nodes: seq<Node>, st: Style, i: nat, bits: seq<bool>, prefix: string,
                                           parentPath: string)
    requires Printable(nodes) && Labelled(nodes) && i < |nodes|
    ensures NodesOf(RenderNode(nodes, st, i, bits, prefix, parentPath)) ==
              (if nodes[i].name.None? then [] else [i]) + Below(nodes, i)
    decreases |nodes| - i, 1
  {
    var node := nodes[i];
    if node.name.None? {
      RenderKidsOrder(nodes, st, i, 0, bits, false, parentPath);
    } else {
      var l := LineOf(st, i, node, bits, prefix, parentPath);
      RenderKidsOrder(nodes, st, i, 0, bits, true, l.path);
      NodesOfAppend([l], RenderKids(nodes, st, i, 0, bits, true, l.path));
    }
  }

  lemma {:induction false} RenderKidsOrder(nodes: seq<Node>, st: Style, i: nat, j: nat, bits: seq<bool>,
                                           increase: bool, path: string)
    requires Printable(nodes) && Labelled(nodes) && i < |nodes|
    ensures NodesOf(RenderKids(nodes, st, i, j, bits, increase, path)) == BelowKids(nodes, i, j)
    decreases |nodes| - i, 0, |Keys(nodes, i)| - j
  {
    var keys := Keys(nodes, i);
    if j < |keys| {
      var c := nodes[i].children[keys[j]];
      var last := j == |keys| - 1;
      RenderNodeOrder(nodes, st, c, ChildBits(bits, increase, last), ChildString(bits, increase, last), path);
      RenderKidsOrder(nodes, st, i, j + 1, bits, increase, path);
      KidsOrderStep(nodes, st, i, j, bits, increase, path);
    } else {
      assert RenderKids(nodes, st, i, j, bits, increase, path) == [];
    }
  }

  /** One step of `RenderKidsOrder`: the lines of the `j`-th child followed
      by those of the later children visit the nodes `BelowKids` lists. */
  lemma KidsOrderStep(nodes: seq<Node>, st: Style, i: nat, j: nat, bits: seq<bool>, increase: bool, path: string)
    requires Printable(nodes) && Labelled(nodes) && i < |nodes| && j < |Keys(nodes, i)|
    requires var keys := Keys(nodes, i);
             var c := nodes[i].children[keys[j]];
             var last := j == |keys| - 1;
             NodesOf(RenderNode(nodes, st, c, ChildBits(bits, increase, last), ChildString(bits, increase, last), path))
             == (if nodes[c].name.None? then [] else [c]) + Below(nodes, c)
    requires NodesOf(RenderKids(nodes, st, i, j + 1, bits, increase, path)) == BelowKids(nodes, i, j + 1)
    ensures NodesOf(RenderKids(nodes, st, i, j, bits, increase, path)) == BelowKids(nodes, i, j)
  {
    var keys := Keys(nodes, i);
    var c := nodes[i].children[keys[j]];
    var last := j == |keys| - 1;
    var here := RenderNode(nodes, st, c, ChildBits(bits, increase, last), ChildString(bits, increase, last), path);
    var rest := RenderKids(nodes, st, i, j + 1, bits, increase, path);
    RenderKidsUnfold(nodes, st, i, j, bits, increase, path);
    NodesOfAppend(here, rest);
    assert nodes[c].name.Some?;
    assert NodesOf(here) == [c] + Below(nodes, c);
  }

  /** Writing the lines of the children from the `j`-th on is writing those
      of the `j`-th child, then those of the later ones. */
  lemma KidsWrite(t: Tally, nodes: seq<Node>, st: Style, i: nat, j: nat, bits: seq<bool>, increase: bool,
                  path: string)
    requires Printable(nodes) && i < |nodes| && j < |Keys(nodes, i)|
    ensures var keys := Keys(nodes, i);
            var c := nodes[i].children[keys[j]];
            var last := j == |keys| - 1;
            Write(t, RenderKids(nodes, st, i, j, bits, increase, path)) ==
            Write(Write(t, RenderNode(nodes, st, c, ChildBits(bits, increase, last), ChildString(bits, increase, last), path)),
                  RenderKids(nodes, st, i, j + 1, bits, increase, path))
  {
    var keys := Keys(nodes, i);
    var c := nodes[i].children[keys[j]];
    var last := j == |keys| - 1;
    var here := RenderNode(nodes, st, c, ChildBits(bits, increase, last), ChildString(bits, increase, last), path);
    var rest := RenderKids(nodes, st, i, j + 1, bits, increase, path);
    RenderKidsUnfold(nodes, st, i, j, bits, increase, path);
    WriteConcat(t, here, rest);
  }

  /** `print_tree()` prints every node but the root exactly once, in the
      traversal order, and never the root. */
  lemma RenderVisitsEachNodeOnce(nodes: seq<Node>, st: Style)
    requires WellFormed(nodes)
    ensures NodesOf(Render(nodes, st)) == Below(nodes, 0)
    ensures NoDup(NodesOf(Render(nodes, st)))
    ensures forall x :: x in NodesOf(Render(nodes, st)) <==> 0 < x < |nodes|
    ensures |Render(nodes, st)| == |nodes| - 1
  {
    WellFormedPrintable(nodes);
    RenderNodeOrder(nodes, st, 0, [], "", "");
    VisitsEveryNodeOnce(nodes);
  }

  // ---------------------------------------------------------------------
  // What each line says.

  /** A line as the source promises it: for a node other than the root, with
      the path built from the names above it, its prefix drawn from its bits,
      bits that record for each ancestor at depth 2 and deeper and for the
      node itself whether it was not the last of its siblings, a directory
      whenever it has children, and its text made of prefix, entry and newline. */
  ghost predicate LineFits(nodes: seq<Node>, st: Style, l: Line)
    requires WellFormed(nodes)
  {
    && 0 < l.node < |nodes|
    && l.prefix == PrefixOf(l.bits)
    && l.path == PathOf(nodes, l.node)
    && BitsFit(nodes, l.node, l.bits)
    && l.isDirectory == (nodes[l.node].children != map[] || st.isDir(l.path))
    && l.text == l.prefix + EntryText(st, nodes[l.node], l.path, l.isDirectory) + "\n"
  }

  /** The bits a node at depth `Depth` is printed with: one per ancestor at
      depth 2 or more and one for the node, each saying that it was not the
      last of its siblings. */
  ghost predicate BitsFit(nodes: seq<Node>, x: nat, bits: seq<bool>)
    requires Arranged(nodes) && 0 < x < |nodes|
  {
    |bits| + 1 == Depth(nodes, x) &&
    forall k :: 0 <= k < |bits| ==> (bits[k] <==> !IsLastChild(nodes, AncestorAt(nodes, x, k + 2)))
  }

  /** The child visited `j`-th is the last child exactly when `j` is the last
      index of the sorted names. */
  lemma LastChildAt(nodes: seq<Node>, i: nat, j: nat)
    requires Arranged(nodes) && i < |nodes| && j < |Keys(nodes, i)|
    ensures var c := nodes[i].children[Keys(nodes, i)[j]];
            0 < c && (IsLastChild(nodes, c) <==> j == |Keys(nodes, i)| - 1)
  {
    var keys := Keys(nodes, i);
    var c := nodes[i].children[keys[j]];
    ParentOfChild(nodes, i, keys[j]);
    assert nodes[c].name == Some(keys[j]);
    SortedKeysLast(nodes[i].children.Keys, j);
    assert IsLastChild(nodes, c) <==> keys[|keys| - 1] == keys[j];
  }

  /** The bits and prefix handed to the `j`-th child of a labelled node fit it. */
  lemma ChildBitsFit(nodes: seq<Node>, i: nat, j: nat, bits: seq<bool>)
    requires Arranged(nodes) && 0 < i < |nodes| && j < |Keys(nodes, i)| && BitsFit(nodes, i, bits)
    ensures var keys := Keys(nodes, i);
            var c := nodes[i].children[keys[j]];
            0 < c && BitsFit(nodes, c, bits + [j != |keys| - 1])
  {
    var keys := Keys(nodes, i);
    var c := nodes[i].children[keys[j]];
    var cb := bits + [j != |keys| - 1];
    ParentOfChild(nodes, i, keys[j]);
    assert |cb| + 1 == Depth(nodes, c);
    forall k | 0 <= k < |cb|
      ensures cb[k] <==> !IsLastChild(nodes, AncestorAt(nodes, c, k + 2))
    {
      ChildBit(nodes, i, j, bits, k);
    }
  }

  /** Bit `k` handed to the `j`-th child of a labelled node. */
  lemma ChildBit(nodes: seq<Node>, i: nat, j: nat, bits: seq<bool>, k: nat)
    requires Arranged(nodes) && 0 < i < |nodes| && j < |Keys(nodes, i)| && BitsFit(nodes, i, bits)
    requires k <= |bits|
    ensures var keys := Keys(nodes, i);
            var c := nodes[i].children[keys[j]];
            var cb := bits + [j != |keys| - 1];
            0 < c && k + 2 <= Depth(nodes, c) &&
            (cb[k] <==> !IsLastChild(nodes, AncestorAt(nodes, c, k + 2)))
  {
    var keys := Keys(nodes, i);
    var c := nodes[i].children[keys[j]];
    ParentOfChild(nodes, i, keys[j]);
    var cb := bits + [j != |keys| - 1];
    if k < |bits| {
      AncestorOfChild(nodes, c, k + 2);
      assert cb[k] == bits[k];
    } else {
      LastChildAt(nodes, i, j);
      assert AncestorAt(nodes, c, k + 2) == c;
    }
  }

  /** Appending a bit turns the columns into the prefix that ends in a tee
      (bit set) or a corner. */
  lemma ExtendedPrefix(bits: seq<bool>, more: bool)
    ensures Segments(bits) + (if more then Tee else Bottom) == PrefixOf(bits + [more])
  {
    var cb := bits + [more];
    assert cb[..|cb| - 1] == bits;
  }

  /** The bits and prefix handed to a child of the root fit it. */
  lemma TopBitsFit(nodes: seq<Node>, j: nat)
    requires Arranged(nodes) && j < |Keys(nodes, 0)|
    ensures var c := nodes[0].children[Keys(nodes, 0)[j]];
            0 < c && BitsFit(nodes, c, [])
  {
    ParentOfChild(nodes, 0, Keys(nodes, 0)[j]);
  }

  /** Every line of `lines` fits its node. */
  ghost predicate AllFit(nodes: seq<Node>, st: Style, lines: seq<Line>)
    requires WellFormed(nodes)
  {
    forall l :: l in lines ==> LineFits(nodes, st, l)
  }

  lemma AllFitConcat(nodes: seq<Node>, st: Style, a: seq<Line>, b: seq<Line>)
    requires WellFormed(nodes) && AllFit(nodes, st, a) && AllFit(nodes, st, b)
    ensures AllFit(nodes, st, a + b)
  {
    forall l | l in a + b
      ensures LineFits(nodes, st, l)
    {
      assert l in a || l in b;
    }
  }

  /** The line of a labelled node fits it when its bits and prefix do. */
  lemma OwnLineFits(nodes: seq<Node>, st: Style, i: nat, bits: seq<bool>, prefix: string, parentPath: string)
    requires WellFormed(nodes) && 0 < i < |nodes|
    requires prefix == PrefixOf(bits) && parentPath == PathOf(nodes, Parent(nodes, i)) && BitsFit(nodes, i, bits)
    ensures nodes[i].name.Some? && (nodes[i].children == map[] ==> nodes[i].info.Some?)
    ensures LineFits(nodes, st, LineOf(st, i, nodes[i], bits, prefix, parentPath))
  {
    var l := LineOf(st, i, nodes[i], bits, prefix, parentPath);
    assert l.path == PathOf(nodes, i);
  }

  /** The arguments `print_tree` hands to the `j`-th child fit that child. */
  lemma KidArgsFit(nodes: seq<Node>, i: nat, j: nat, bits: seq<bool>, increase: bool, path: string)
    requires WellFormed(nodes) && i < |nodes| && j < |Keys(nodes, i)| && (increase <==> i > 0)
    requires i == 0 ==> bits == [] && path == ""
    requires i > 0 ==> path == PathOf(nodes, i) && BitsFit(nodes, i, bits)
    ensures var keys := Keys(nodes, i);
            var c := nodes[i].children[keys[j]];
            var last := j == |keys| - 1;
            && i < c < |nodes|
            && ChildString(bits, increase, last) == PrefixOf(ChildBits(bits, increase, last))
            && path == PathOf(nodes, Parent(nodes, c))
            && BitsFit(nodes, c, ChildBits(bits, increase, last))
  {
    var keys := Keys(nodes, i);
    ParentOfChild(nodes, i, keys[j]);
    if increase {
      ChildBitsFit(nodes, i, j, bits);
      ExtendedPrefix(bits, j != |keys| - 1);
    } else {
      TopBitsFit(nodes, j);
    }
  }

  lemma {:induction false} RenderNodeFits(nodes: seq<Node>, st: Style, i: nat, bits: seq<bool>, prefix: string,
                                          parentPath: string)
    requires WellFormed(nodes) && i < |nodes|
    requires i == 0 ==> bits == [] && parentPath == ""
    requires i > 0 ==> prefix == PrefixOf(bits) && parentPath == PathOf(nodes, Parent(nodes, i)) && BitsFit(nodes, i, bits)
    ensures AllFit(nodes, st, RenderNode(nodes, st, i, bits, prefix, parentPath))
    decreases |nodes| - i, 1
  {
    WellFormedPrintable(nodes);
    RenderNodeUnfold(nodes, st, i, bits, prefix, parentPath);
    var own := OwnLines(st, i, nodes[i], bits, prefix, parentPath);
    var path := OwnPath(nodes[i], parentPath);
    if i == 0 {
      assert own == [];
    } else {
      OwnLineFits(nodes, st, i, bits, prefix, parentPath);
      assert own == [LineOf(st, i, nodes[i], bits, prefix, parentPath)];
      assert path == PathOf(nodes, i);
    }
    RenderKidsFits(nodes, st, i, 0, bits, i > 0, path);
    AllFitConcat(nodes, st, own, RenderKids(nodes, st, i, 0, bits, i > 0, path));
  }

  lemma {:induction false} RenderKidsFits(nodes: seq<Node>, st: Style, i: nat, j: nat, bits: seq<bool>,
                                          increase: bool, path: string)
    requires WellFormed(nodes) && i < |nodes| && (increase <==> i > 0)
    requires i == 0 ==> bits == [] && path == ""
    requires i > 0 ==> path == PathOf(nodes, i) && BitsFit(nodes, i, bits)
    ensures AllFit(nodes, st, RenderKids(nodes, st, i, j, bits, increase, path))
    decreases |nodes| - i, 0, |Keys(nodes, i)| - j
  {
    WellFormedPrintable(nodes);
    var keys := Keys(nodes, i);
    if j < |keys| {
      var c := nodes[i].children[keys[j]];
      var last := j == |keys| - 1;
      var childBits := ChildBits(bits, increase, last);
      var childPrefix := ChildString(bits, increase, last);
      KidArgsFit(nodes, i, j, bits, increase, path);
      RenderNodeFits(nodes, st, c, childBits, childPrefix, path);
      RenderKidsFits(nodes, st, i, j + 1, bits, increase, path);
      RenderKidsUnfold(nodes, st, i, j, bits, increase, path);
      AllFitConcat(nodes, st, RenderNode(nodes, st, c, childBits, childPrefix, path),
                   RenderKids(nodes, st, i, j + 1, bits, increase, path));
    } else {
      assert RenderKids(nodes, st, i, j, bits, increase, path) == [];
    }
  }

  /** Every line of `print_tree()`'s output fits its node. */
  lemma RenderLinesFit(nodes: seq<Node>, st: Style)
    requires WellFormed(nodes)
    ensures forall l :: l in Render(nodes, st) ==> LineFits(nodes, st, l)
  {
    RenderNodeFits(nodes, st, 0, [], "", "");
  }

  /** The prefix of a line, block by block: for each ancestor at depth 2 and
      deeper a vertical line if that ancestor was not the last of its siblings
      and a blank otherwise, then a tee if the node itself is not the last of
      its siblings and a corner if it is. Top-level nodes have no blocks. */
  lemma PrefixColumns(nodes: seq<Node>, st: Style, l: Line, k: nat)
    requires WellFormed(nodes) && LineFits(nodes, st, l) && k + 1 < Depth(nodes, l.node)
    ensures |l.prefix| == 4 * (Depth(nodes, l.node) - 1)
    ensures var a := AncestorAt(nodes, l.node, k + 2);
            l.prefix[4 * k .. 4 * k + 4] ==
              if k + 2 < Depth(nodes, l.node) then (if IsLastChild(nodes, a) then Blank else Vertical)
              else if IsLastChild(nodes, l.node) then Bottom else Tee
  {
    PrefixBlock(l.bits, k);
    assert AncestorAt(nodes, l.node, Depth(nodes, l.node)) == l.node;
  }

  // ---------------------------------------------------------------------
  // The closing summary of `main`.

  /** `"\n{} director{}, {} file{}"` as printed, with its newline. */
  function Summary(dirs: nat, files: nat): (r: string)
    ensures StartsWith(r, "\n" + NatToString(dirs) + (if dirs == 1 then " directory, " else " directories, "))
    ensures EndsWith(r, NatToString(files) + (if files == 1 then " file\n" else " files\n"))
  {
    var head := "\n" + NatToString(dirs) + " director" + (if dirs == 1 then "y" else "ies") + ", ";
    var tail := NatToString(files) + " file" + (if files == 1 then "" else "s") + "\n";
    assert head + tail == ("\n" + NatToString(dirs) + (if dirs == 1 then " directory, " else " directories, ")) + tail;
    head + tail
  }
}
