/** The `Tree` object of `tree.py`: the trie it grows line by line, the
    directory and file counters `print_tree` advances, and the output it
    writes. */
module TreeTool {
  import opened Common
  import opened Text
  import opened PosixPath
  import opened Colour
  import opened Trie
  import opened Traversal
  import opened Printing

  /** `child_prefix`: one segment per bit, built up in a loop. */
  method ChildPrefix(bits: seq<bool>) returns (s: string)
    ensures s == Segments(bits)
  {
    s := "";
    for k := 0 to |bits|
      invariant s == Segments(bits[..k])
    {
      assert bits[..k + 1][..k] == bits[..k];
      if bits[k] {
        s := s + Vertical;
      } else {
        s := s + Blank;
      }
    }
    assert bits[..|bits|] == bits;
  }

  /** The prefixes `print_tree` hands to the children before its loop: by
      default the parent's bits and no prefix string; below a labelled node
      the bits extended by "not last" or "last", and `child_prefix` followed
      by a tee or a corner. */
  method ChildPrefixes(bits: seq<bool>, increase: bool)
    returns (midBits: seq<bool>, botBits: seq<bool>, midString: string, botString: string)
    ensures midBits == ChildBits(bits, increase, false) && midString == ChildString(bits, increase, false)
    ensures botBits == ChildBits(bits, increase, true) && botString == ChildString(bits, increase, true)
  {
    midBits, botBits := bits, bits;
    midString, botString := "", "";
    if increase {
      var childPrefix := ChildPrefix(bits);
      midBits := bits + [true];
      botBits := bits + [false];
      midString := childPrefix + Tee;
      botString := childPrefix + Bottom;
    }
  }

  class Tree {
    /** `args.mode`. */
    const mode: Mode
    /** `self.color`: colour was asked for. */
    const colorOn: bool
    /** The trie, root at index 0. */
    var nodes: seq<Node>
    var dirCount: nat
    var fileCount: nat
    /** What has been written to standard output, one entry per write of a line. */
    var out: seq<string>

    ghost predicate Valid()
      reads this`nodes
    {
      WellFormed(nodes)
    }

    /** `Tree(args)`: an empty trie and zero counts. */
    constructor (mode: Mode, colorOn: bool)
      ensures Valid() && this.mode == mode && this.colorOn == colorOn
      ensures nodes == Empty() && dirCount == 0 && fileCount == 0 && out == []
    {
      this.mode := mode;
      this.colorOn := colorOn;
      nodes := Empty();
      dirCount := 0;
      fileCount := 0;
      out := [];
    }

    /** `add_line(line)`: parse the line; a path is inserted component by
        component, creating the children that are missing, and the node
        reached is marked. A grep-mode line that is not grep output ends the
        run, without a status, so with status 0, leaving the trie as it was. */
    method AddLine(line: string) returns (r: Outcome)
      requires Valid()
      modifies this`nodes
      ensures Valid()
      ensures match ParseLine(mode, line)
                case NoPath => r == Continue && nodes == old(nodes)
                case NotGrep(l) => r == Exit(0, NotGrepMessage(l)) && nodes == old(nodes)
                case Found(path, info) => r == Continue && nodes == Insert(old(nodes), 0, SplitPath(path), info)
    {
      var parsed := ParseLine(mode, line);
      match parsed {
        case NoPath =>
          r := Continue;
        case NotGrep(l) =>
          r := Exit(0, NotGrepMessage(l));
        case Found(path, info) =>
          var segs := SplitPathInto(path, []);
          assert segs == SplitPath(path);
          InsertPath(segs, info);
          InsertWellFormed(old(nodes), segs, info);
          r := Continue;
      }
    }

    /** The walk of `add_line` down the trie: for each component, the child
        of that name, created when missing; the node reached is marked. */
    method InsertPath(segs: seq<string>, info: Info)
      requires Shaped(nodes)
      modifies this`nodes
      ensures nodes == Insert(old(nodes), 0, segs, info)
    {
      var node: nat := 0;
      var k := 0;
      while k < |segs|
        invariant 0 <= k <= |segs| && Shaped(nodes) && node < |nodes|
        invariant Insert(nodes, node, segs[k..], info) == Insert(old(nodes), 0, segs, info)
      {
        var seg := segs[k];
        assert segs[k..][0] == seg && segs[k..][1..] == segs[k + 1..];
        if seg !in nodes[node].children {
          AddChildShaped(nodes, node, seg);
          nodes := nodes[node := nodes[node].(children := nodes[node].children[seg := |nodes|])]
                   + [Node(Some(seg), map[], 0, None)];
        }
        node := nodes[node].children[seg];
        k := k + 1;
      }
      nodes := nodes[node := nodes[node].(info := Some(info), count := nodes[node].count + 1)];
    }

    /** The text written so far and the two counters. */
    ghost function State(): Tally
      reads this
    {
      Tally(out, dirCount, fileCount)
    }

    /** Writing one line of `print_tree`: the directory or the file counter
        goes up by one, and the line's text is written. */
    method Emit(l: Line)
      modifies this`out, this`dirCount, this`fileCount
      ensures State() == Write(old(State()), [l])
    {
      if l.isDirectory {
        dirCount := dirCount + 1;
      } else {
        fileCount := fileCount + 1;
      }
      out := out + [l.text];
      assert [l][0] == l && [l][1..] == [];
      assert Texts([l]) == [l.text];
      assert CountDirs([l]) == if l.isDirectory then 1 else 0;
      assert CountFiles([l]) == if l.isDirectory then 0 else 1;
    }

    /** `print_tree(node, prefix, prefix_string, parent_path)`: writes the
        lines `RenderNode` describes and counts each of them as a directory
        or a file. */
    method PrintTree(palette: Palette, isDir: string -> bool, i: nat, bits: seq<bool>, prefixString: string,
                     parentPath: string)
      requires Printable(nodes) && i < |nodes|
      modifies this`out, this`dirCount, this`fileCount
      ensures State() == Write(old(State()),
                               RenderNode(nodes, Style(mode, colorOn, palette, isDir), i, bits, prefixString, parentPath))
      decreases |nodes| - i, 1
    {
      var st := Style(mode, colorOn, palette, isDir);
      ghost var ns := nodes;
      RenderNodeUnfold(ns, st, i, bits, prefixString, parentPath);
      var node := nodes[i];
      var path := parentPath;
      ghost var own := OwnLines(st, i, node, bits, prefixString, parentPath);
      if node.name.Some? {
        var l := LineOf(st, i, node, bits, prefixString, parentPath);
        Emit(l);
        path := l.path;
      } else {
        WriteNothing(old(State()));
      }
      ghost var kids := RenderKids(ns, st, i, 0, bits, node.name.Some?, path);
      ghost var mid := State();
      if |node.children| > 0 {
        PrintChildren(palette, isDir, i, bits, node.name.Some?, path);
      } else {
        assert kids == [];
        WriteNothing(mid);
      }
      WriteConcat(old(State()), own, kids);
    }

    /** The loop of `print_tree` over the children in ascending order of
        their names: below a labelled node each child gets the parent's bits
        extended by "not last" and the matching prefix string, built once as
        `child_prefix`; below the root they get the parent's bits and the
        empty prefix. */
    method PrintChildren(palette: Palette, isDir: string -> bool, i: nat, bits: seq<bool>, increase: bool,
                         path: string)
      requires Printable(nodes) && i < |nodes|
      modifies this`out, this`dirCount, this`fileCount
      ensures State() == Write(old(State()), RenderKids(nodes, Style(mode, colorOn, palette, isDir), i, 0, bits, increase, path))
      decreases |nodes| - i, 0
    {
      var st := Style(mode, colorOn, palette, isDir);
      ghost var ns := nodes;
      var midBits, botBits, midString, botString := ChildPrefixes(bits, increase);
      var keys := Keys(nodes, i);
      var last := |keys| - 1;
      ghost var goal := Write(old(State()), RenderKids(ns, st, i, 0, bits, increase, path));
      var j := 0;
      while j < |keys|
        invariant 0 <= j <= |keys| && nodes == ns
        invariant Write(State(), RenderKids(ns, st, i, j, bits, increase, path)) == goal
      {
        var child := nodes[i].children[keys[j]];
        var childBits, childString := midBits, midString;
        if j == last {
          childBits, childString := botBits, botString;
        }
        KidsWrite(State(), ns, st, i, j, bits, increase, path);
        PrintTree(palette, isDir, child, childBits, childString, path);
        j := j + 1;
      }
      assert RenderKids(ns, st, i, j, bits, increase, path) == [];
      WriteNothing(State());
    }

    /** `t.print_tree()` followed by the summary `main` prints: the lines of
        every node but the root, then the counts. */
    method PrintAll(palette: Palette, isDir: string -> bool)
      requires Valid()
      modifies this`out, this`dirCount, this`fileCount
      ensures var lines := Render(nodes, Style(mode, colorOn, palette, isDir));
              && dirCount == old(dirCount) + CountDirs(lines)
              && fileCount == old(fileCount) + CountFiles(lines)
              && out == old(out) + Texts(lines) + [Summary(dirCount, fileCount)]
      ensures dirCount + fileCount == old(dirCount) + old(fileCount) + |nodes| - 1
    {
      WellFormedPrintable(nodes);
      ghost var lines := Render(nodes, Style(mode, colorOn, palette, isDir));
      PrintTree(palette, isDir, 0, [], "", "");
      assert State() == Write(old(State()), lines);
      CountsTotal(lines);
      RenderVisitsEachNodeOnce(nodes, Style(mode, colorOn, palette, isDir));
      out := out + [Summary(dirCount, fileCount)];
    }
  }
}
