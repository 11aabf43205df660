/** The topology generator script (mac_topology_gen.py) as a class whose
    fields are the state the script mutates: the entries written to the XML
    file, the existingLinks list, the treeNodes list and the lines of the
    cleanup script. Each method is one function, top-level block or loop of
    the script, proved to write what the functions of TopologySpec describe. */
module TopologyGen {
  import opened Decimal
  import opened TopologySpec
  import opened TopologyIds

  class Generator {
    /** Names of the `<node>` entries written so far (addNode). */
    var nodes: seq<string>
    /** The `<link>` entries written so far (addNeighbor). */
    var links: seq<Link>
    var existingLinks: seq<(string, string)>
    var treeNodes: seq<string>
    /** Lines of the cleanup script written so far. */
    var cleanup: seq<string>

    constructor ()
      ensures nodes == [] && links == [] && existingLinks == [] && treeNodes == [] && cleanup == []
    {
      nodes, links, existingLinks, treeNodes, cleanup := [], [], [], [], [];
    }

    method AddNode(name: string)
      modifies this`nodes
      ensures nodes == old(nodes) + [name]
    {
      nodes := nodes + [name];
    }

    /** existingLinks holds the pairs of the links written so far: each link
        block resets it before its first link and every link is written by
        addNeighbor. */
    predicate Synced()
      reads this`existingLinks, this`links
    {
      existingLinks == PairsOf(links)
    }

    /** Writes one link and records its pair, and the reverse pair when the
        link is bidirectional. */
    method AddNeighbor(blos: string, fromNode: string, loss: string, toNode: string, uni: bool)
      modifies this`links, this`existingLinks
      ensures links == old(links) + [Link(blos, fromNode, loss, toNode, uni)]
      ensures existingLinks == old(existingLinks) + [(fromNode, toNode)]
                                 + (if uni then [] else [(toNode, fromNode)])
      ensures old(Synced()) ==> Synced()
    {
      PairsOfLink(links, Link(blos, fromNode, loss, toNode, uni));
      links := links + [Link(blos, fromNode, loss, toNode, uni)];
      existingLinks := existingLinks + [(fromNode, toNode)];
      if !uni {
        existingLinks := existingLinks + [(toNode, fromNode)];
      }
    }

    // -------------------------------------------------------------------------
    // generateNodes

    /** generateNodes: writes the nodes of the topology and, for a tree,
        records every non-root node in treeNodes. */
    method GenerateNodes(topo: Topo, size: int, rows: nat, cols: int)
      requires topo == BinaryTree ==> size >= 0
      modifies this`nodes, this`treeNodes
      ensures nodes == old(nodes) + TopologyNodes(topo, size, rows, cols)
      ensures treeNodes == old(treeNodes) + (if topo == BinaryTree then NonRootIds(TreeCount(size)) else [])
    {
      if topo == Grid {
        GenerateGridNodes(rows, cols);
      } else if topo == Ring || topo == Line {
        GenerateNumberNodes(size);
      } else {
        GenerateTreeNodes(size);
      }
    }

    /** The grid branch: row by row. */
    method GenerateGridNodes(rows: nat, cols: int)
      modifies this`nodes
      ensures nodes == old(nodes) + GridIds(rows, RangeLen(cols))
    {
      var x := 0;
      while x < rows
        invariant 0 <= x <= rows
        invariant nodes == old(nodes) + GridIds(x, RangeLen(cols))
      {
        Assoc(old(nodes), GridIds(x, RangeLen(cols)), LetterRow(x, RangeLen(cols)));
        GenerateGridRow(x, cols);
        x := x + 1;
      }
    }

    /** The inner loop of the grid branch: the nodes of row x. */
    method GenerateGridRow(x: nat, cols: int)
      modifies this`nodes
      ensures nodes == old(nodes) + LetterRow(x, RangeLen(cols))
    {
      var y := 0;
      while y < cols
        invariant 0 <= y <= RangeLen(cols)
        invariant nodes == old(nodes) + LetterRow(x, y)
      {
        Assoc(old(nodes), LetterRow(x, y), [LetterId(x, y)]);
        AddNode(LetterId(x, y));
        y := y + 1;
      }
    }

    /** The ring and line branch: "0" .. str(size - 1). */
    method GenerateNumberNodes(size: int)
      modifies this`nodes
      ensures nodes == old(nodes) + NumberIds(RangeLen(size))
    {
      var x := 0;
      while x < size
        invariant 0 <= x <= RangeLen(size)
        invariant nodes == old(nodes) + NumberIds(x)
      {
        Assoc(old(nodes), NumberIds(x), [NatToString(x)]);
        AddNode(NatToString(x));
        x := x + 1;
      }
    }

    /** The binary-tree branch: "root", then level by level while fewer than
        `size` nodes have been written. The loop's x is level + 2. */
    method GenerateTreeNodes(size: int)
      requires size >= 0
      modifies this`nodes, this`treeNodes
      ensures nodes == old(nodes) + TreeIds(size)
      ensures treeNodes == old(treeNodes) + NonRootIds(TreeCount(size))
    {
      var depth := Depth(size);
      AddNode("root");
      ghost var prefix := nodes;
      var count := 1;
      var level := 0;
      ghost var row: nat := 0;
      while level < depth
        invariant level <= depth && row == 0
        invariant count + 1 == Pow2(level + 1)
        invariant count <= size || count == 1
        invariant nodes == prefix + FullLevels(level)
        invariant treeNodes == old(treeNodes) + FullLevels(level)
      {
        var y;
        count, y := GenerateTreeLevel(size, level, count);
        Assoc(prefix, FullLevels(level), LetterRow(level, y));
        Assoc(old(treeNodes), FullLevels(level), LetterRow(level, y));
        if count >= size {
          row := y;
          break;
        }
        assert Pow2(level + 2) == 2 * Pow2(level + 1);
        level := level + 1;
      }
      ghost var rest := FullLevels(level) + LetterRow(level, row);
      if row == 0 {
        assert rest == FullLevels(level);
      }
      assert nodes == prefix + rest && treeNodes == old(treeNodes) + rest;
      TreeNodesDone(size, depth, level, row, count);
      Assoc(old(nodes), ["root"], rest);
    }

    /** The inner loop of the tree branch: the positions y of one level,
        while fewer than `size` nodes have been written. */
    method GenerateTreeLevel(size: int, level: nat, count: nat) returns (c: nat, y: nat)
      requires count <= size || count == 1
      modifies this`nodes, this`treeNodes
      ensures y <= Pow2(level + 1) && c == count + y
      ensures count >= size ==> y == 0
      ensures count < size ==> c <= size && (c < size ==> y == Pow2(level + 1))
      ensures nodes == old(nodes) + LetterRow(level, y)
      ensures treeNodes == old(treeNodes) + LetterRow(level, y)
    {
      y := 0;
      c := count;
      while y < Pow2(level + 1)
        invariant 0 <= y <= Pow2(level + 1)
        invariant c == count + y
        invariant count < size ==> c <= size
        invariant count >= size ==> y == 0
        invariant nodes == old(nodes) + LetterRow(level, y)
        invariant treeNodes == old(treeNodes) + LetterRow(level, y)
      {
        var ident := LetterId(level, y);
        if c < size {
          Assoc(old(nodes), LetterRow(level, y), [ident]);
          Assoc(old(treeNodes), LetterRow(level, y), [ident]);
          AddNode(ident);
          treeNodes := treeNodes + [ident];
          c := c + 1;
        } else {
          break;
        }
        y := y + 1;
      }
    }

    // -------------------------------------------------------------------------
    // assignGridNeighbors

    /** assignGridNeighbors. Of its four neighbour checks only "right" ever
        writes a link: the above and below guards compare a row index with
        the character code 97, and each left link was recorded as the reverse
        of the right link of the node before. */
    method AssignGridNeighbors(rows: nat, cols: int, blos: string, loss: string)
      requires rows <= 26 && links == []
      modifies this`links, this`existingLinks
      ensures links == GridLinks(blos, loss, rows, RangeLen(cols))
      ensures Synced()
    {
      var n := RangeLen(cols);
      existingLinks := [];
      var x := 0;
      while x < rows
        invariant 0 <= x <= rows
        invariant links == GridLinks(blos, loss, x, n)
        invariant Synced()
      {
        AssignGridRow(rows, cols, x, blos, loss);
        x := x + 1;
      }
    }

    /** The inner loop of assignGridNeighbors: the nodes of row x. */
    method AssignGridRow(rows: nat, cols: int, x: nat, blos: string, loss: string)
      requires rows <= 26 && x < rows
      requires links == GridLinks(blos, loss, x, RangeLen(cols)) && Synced()
      modifies this`links, this`existingLinks
      ensures links == GridLinks(blos, loss, x + 1, RangeLen(cols))
      ensures Synced()
    {
      ghost var done := links;
      var y := 0;
      while y < cols
        invariant 0 <= y <= RangeLen(cols)
        invariant links == done + GridRowLinks(blos, loss, x, y)
        invariant Synced()
      {
        Assoc(done, GridRowLinks(blos, loss, x, y), [RightLink(blos, loss, x, y)]);
        GridCellNeighbors(rows, cols, x, y, blos, loss, done);
        y := y + 1;
      }
    }

    /** The body of the inner loop of assignGridNeighbors for node (x, y). */
    method GridCellNeighbors(rows: nat, cols: int, x: nat, y: nat, blos: string, loss: string, ghost done: seq<Link>)
      requires rows <= 26 && x < rows && y < cols
      requires done == GridLinks(blos, loss, x, RangeLen(cols))
      requires links == done + GridRowLinks(blos, loss, x, y) && Synced()
      modifies this`links, this`existingLinks
      ensures links == old(links) + [RightLink(blos, loss, x, y)]
      ensures Synced()
    {
      var fromNode := LetterId(x, y);
      PairsOfAppend(done, GridRowLinks(blos, loss, x, y));

      // neighbour above: never, since x - 1 < 26 < 97
      if x - 1 >= 97 && x - 1 <= 97 + rows {
        assert false;
      }

      // neighbour to the right: y + 1 <= cols admits y + 1 == cols
      if y + 1 >= 0 && y + 1 <= cols {
        var toNode := LetterId(x, y + 1);
        GridPairsExclude(blos, loss, x, RangeLen(cols), x, y);
        RowPairsExclude(blos, loss, x, y, x, y);
        if (fromNode, toNode) !in existingLinks {
          AddNeighbor(blos, fromNode, loss, toNode, false);
        }
      }

      // neighbour below: never, since x + 1 <= 26 < 97
      if x + 1 >= 97 && x + 1 <= 97 + rows {
        assert false;
      }

      // neighbour to the left: its pair is the reverse pair of the right
      // link that node (x, y - 1) wrote
      if y - 1 >= 0 && y - 1 <= cols {
        var toNode := LetterId(x, y - 1);
        LeftPairRecorded(blos, loss, x, y, done);
        if (fromNode, toNode) !in existingLinks {
          assert false;
        }
      }
    }

    // -------------------------------------------------------------------------
    // Ring, line and tree links

    /** The ring block: link x -> x + 1 for every node, the last one back to
        "0", each with the configured uni value and no duplicate check. */
    method RingNeighbors(size: int, blos: string, loss: string, uni: bool)
      requires links == []
      modifies this`links, this`existingLinks
      ensures links == RingLinks(blos, loss, size, uni)
      ensures Synced()
    {
      existingLinks := [];
      var x := 0;
      while x < size
        invariant 0 <= x <= RangeLen(size)
        invariant links == RingLinksUpTo(blos, loss, x, RangeLen(size), uni)
        invariant Synced()
      {
        var fromNode := NatToString(x);
        var toNode := NatToString(x + 1);
        if x + 1 == size {
          toNode := NatToString(0);
        }
        AddNeighbor(blos, fromNode, loss, toNode, uni);
        x := x + 1;
      }
    }

    /** The line block: link x -> x + 1 for every node but the last. */
    method LineNeighbors(size: int, blos: string, loss: string, uni: bool)
      requires links == []
      modifies this`links, this`existingLinks
      ensures links == LineLinks(blos, loss, size, uni)
      ensures Synced()
    {
      existingLinks := [];
      var x := 0;
      while x < size
        invariant 0 <= x <= RangeLen(size)
        invariant links == LineLinksUpTo(blos, loss, Min(x, RangeLen(size - 1)), uni)
        invariant Synced()
      {
        var fromNode := NatToString(x);
        var toNode := NatToString(x + 1);
        if x + 1 != size {
          AddNeighbor(blos, fromNode, loss, toNode, uni);
        }
        x := x + 1;
      }
    }

    /** The binary-tree block: root -> a1 and root -> a2 without any check,
        then, level by level, each parent -> child link whose child is in
        treeNodes, until `size` parents have been counted. */
    method TreeNeighbors(size: int, blos: string, loss: string, uni: bool)
      requires size >= 0 && TreeSizeOk(size) && links == []
      requires treeNodes == NonRootIds(TreeCount(size))
      modifies this`links, this`existingLinks
      ensures links == TreeLinks(blos, loss, size, uni)
      ensures Synced()
    {
      var n := TreeCount(size);
      existingLinks := [];
      RootNeighbors(size, blos, loss, uni);
      NonRootMembers(n);
      TreeIdAtNames();
      if size >= 4 {
        TreeParentLoop(size, blos, loss, uni, TreeIdAt, links);
      } else {
        assert TreeChildLinks(blos, loss, n, uni) == [];
        assert links + [] == links;
      }
    }

    /** The level loop of the tree block, from parent "a0" on. The loop's x
        is level + 2. */
    method TreeParentLoop(size: int, blos: string, loss: string, uni: bool, ghost name: nat -> string, ghost pre: seq<Link>)
      requires size >= 4 && TreeSizeOk(size)
      requires IndexedMembership(TreeCount(size)) && LevelNames(name)
      requires links == pre && Synced()
      modifies this`links, this`existingLinks
      ensures links == pre + ChildLinks(blos, loss, name, TreeCount(size), uni)
      ensures Synced()
    {
      var n := TreeCount(size);
      var depth := Depth(size);
      Pow2Monotone(2, depth);
      var count := 1;
      var level := 0;
      ghost var row: nat := 0;
      assert pre + FullLevelLinks(blos, loss, name, n, 0, uni) == pre;
      while level + 1 < depth
        invariant level + 1 <= depth && row == 0
        invariant count + 1 == Pow2(level + 1) && count < size
        invariant links == pre + FullLevelLinks(blos, loss, name, n, level, uni)
        invariant Synced()
      {
        var y;
        count, y := TreeLevelNeighbors(size, level, count, blos, loss, uni, name);
        Assoc(pre, FullLevelLinks(blos, loss, name, n, level, uni), LevelLinks(blos, loss, name, n, level, y, uni));
        if count >= size {
          row := y;
          break;
        }
        assert Pow2(level + 2) == 2 * Pow2(level + 1);
        level := level + 1;
      }
      ghost var rest := FullLevelLinks(blos, loss, name, n, level, uni) + LevelLinks(blos, loss, name, n, level, row, uni);
      if row == 0 {
        assert rest == FullLevelLinks(blos, loss, name, n, level, uni);
      }
      assert links == pre + rest;
      ParentLoopExit(size, depth, level, row, count, blos, loss, name, uni);
    }

    /** The first two links of the tree block: root -> a1 if size >= 2 and
        root -> a2 if size >= 3. */
    method RootNeighbors(size: int, blos: string, loss: string, uni: bool)
      requires links == [] && Synced()
      modifies this`links, this`existingLinks
      ensures links == RootLinks(blos, loss, size, uni)
      ensures Synced()
    {
      var l1, l2 := Link(blos, "root", loss, "a1", uni), Link(blos, "root", loss, "a2", uni);
      if size >= 2 {
        AddNeighbor(blos, "root", loss, "a1", uni);
      }
      if size >= 3 {
        assert [l1] + [l2] == [l1, l2];
        AddNeighbor(blos, "root", loss, "a2", uni);
      }
    }

    /** The inner loop of the tree block: the parents y of one level, until
        `size` parents have been counted. */
    method TreeLevelNeighbors(size: int, level: nat, count: nat, blos: string, loss: string, uni: bool, ghost name: nat -> string)
      returns (c: nat, y: nat)
      requires size >= 0 && level + 1 <= MaxLetter
      requires count < size && Synced()
      requires IndexedMembership(TreeCount(size)) && LevelNames(name)
      modifies this`links, this`existingLinks
      ensures Synced()
      ensures 1 <= y <= Pow2(level + 1) && c == count + y && c <= size
      ensures c < size ==> y == Pow2(level + 1)
      ensures links == old(links) + LevelLinks(blos, loss, name, TreeCount(size), level, y, uni)
    {
      y := 0;
      c := count;
      while y < Pow2(level + 1)
        invariant 0 <= y <= Pow2(level + 1)
        invariant c == count + y && c < size
        invariant links == old(links) + LevelLinks(blos, loss, name, TreeCount(size), level, y, uni)
        invariant Synced()
      {
        ParentNeighbors(size, level, y, blos, loss, uni, name);
        Assoc(old(links), LevelLinks(blos, loss, name, TreeCount(size), level, y, uni),
              ParentLinks(blos, loss, name, TreeCount(size), level, y, uni));
        LevelLinksSnoc(blos, loss, name, TreeCount(size), level, y, uni);
        y := y + 1;
        c := c + 1;
        if c >= size {
          break;
        }
      }
    }

    /** `child in treeNodes` answers whether the child's level-order index is
        below n: what treeNodes holding the first n non-root nodes gives. */
    ghost predicate IndexedMembership(n: nat)
      reads this`treeNodes
    {
      forall level: nat, pos: nat {:trigger LetterId(level, pos)} :: level <= MaxLetter && pos < Pow2(level + 1) ==>
        (LetterId(level, pos) in treeNodes <==> TreeIndex(level, pos) < n)
    }

    /** The body of the inner loop of the tree block for parent (level, y):
        `if child in treeNodes: addNeighbor(...)` for its left child, then
        for its right. */
    method ParentNeighbors(size: int, level: nat, y: nat, blos: string, loss: string, uni: bool, ghost name: nat -> string)
      requires size >= 0 && level + 1 <= MaxLetter && y < Pow2(level + 1)
      requires IndexedMembership(TreeCount(size)) && LevelNames(name) && Synced()
      modifies this`links, this`existingLinks
      ensures Synced()
      ensures links == old(links) + ParentLinks(blos, loss, name, TreeCount(size), level, y, uni)
    {
      var fromNode := LetterId(level, y);
      var leftChild := LetterId(level + 1, 2 * y);
      var rightChild := LetterId(level + 1, 2 * y + 1);
      assert Pow2(level + 2) == 2 * Pow2(level + 1);
      assert name(TreeIndex(level, y)) == fromNode;
      assert name(TreeIndex(level + 1, 2 * y)) == leftChild;
      assert name(TreeIndex(level + 1, 2 * y + 1)) == rightChild;
      if leftChild in treeNodes {
        AddNeighbor(blos, fromNode, loss, leftChild, uni);
      }
      ghost var mid := links;
      if rightChild in treeNodes {
        AddNeighbor(blos, fromNode, loss, rightChild, uni);
      }
      Assoc(old(links), mid[|old(links)|..], links[|mid|..]);
    }

    /** The neighbour-assignment block: the link loop of the chosen topology,
        with the uni flag derived from the direction (and ignored by the grid). */
    method AssignNeighbors(topo: Topo, dire: Direction, size: int, rows: nat, cols: int, blos: string, loss: string)
      requires rows <= 26 && links == []
      requires topo == BinaryTree ==> size >= 0 && TreeSizeOk(size) && treeNodes == NonRootIds(TreeCount(size))
      modifies this`links, this`existingLinks
      ensures links == TopologyLinks(topo, dire, blos, loss, size, rows, cols)
      ensures Synced()
    {
      var uni := UniOf(dire);
      if topo == Grid {
        AssignGridNeighbors(rows, cols, blos, loss);
      } else if topo == Ring {
        RingNeighbors(size, blos, loss, uni);
      } else if topo == BinaryTree {
        TreeNeighbors(size, blos, loss, uni);
      } else {
        LineNeighbors(size, blos, loss, uni);
      }
    }

    // -------------------------------------------------------------------------
    // The cleanup script

    /** The cleanup script: the same enumeration of the nodes as
        generateNodes, one deletion line per node. */
    method WriteCleanup(name: string, topo: Topo, size: int, rows: nat, cols: int)
      requires topo == BinaryTree ==> size >= 0
      modifies this`cleanup
      ensures cleanup == CleanupScript(name, TopologyNodes(topo, size, rows, cols))
    {
      cleanup := ["sudo ip link delete " + name];
      if topo == Grid {
        CleanupGrid(name, rows, cols);
      } else if topo == Ring || topo == Line {
        CleanupNumbers(name, size);
      } else {
        CleanupTree(name, size);
      }
      cleanup := cleanup + ["make desvirt-undefine TOPO=" + name];
    }

    method CleanupGrid(name: string, rows: nat, cols: int)
      modifies this`cleanup
      ensures cleanup == old(cleanup) + DeleteLines(name, GridIds(rows, RangeLen(cols)))
    {
      var x := 0;
      while x < rows
        invariant 0 <= x <= rows
        invariant cleanup == old(cleanup) + DeleteLines(name, GridIds(x, RangeLen(cols)))
      {
        Assoc(old(cleanup), DeleteLines(name, GridIds(x, RangeLen(cols))), DeleteLines(name, LetterRow(x, RangeLen(cols))));
        CleanupGridRow(name, x, cols);
        DeleteLinesAppend(name, GridIds(x, RangeLen(cols)), LetterRow(x, RangeLen(cols)));
        x := x + 1;
      }
    }

    method CleanupGridRow(name: string, x: nat, cols: int)
      modifies this`cleanup
      ensures cleanup == old(cleanup) + DeleteLines(name, LetterRow(x, RangeLen(cols)))
    {
      var y := 0;
      while y < cols
        invariant 0 <= y <= RangeLen(cols)
        invariant cleanup == old(cleanup) + DeleteLines(name, LetterRow(x, y))
      {
        var ident := LetterId(x, y);
        DeleteLinesSnoc(name, LetterRow(x, y), ident);
        Assoc(old(cleanup), DeleteLines(name, LetterRow(x, y)), [DeleteLine(name, ident)]);
        cleanup := cleanup + [DeleteLine(name, ident)];
        y := y + 1;
      }
    }

    method CleanupNumbers(name: string, size: int)
      modifies this`cleanup
      ensures cleanup == old(cleanup) + DeleteLines(name, NumberIds(RangeLen(size)))
    {
      var x := 0;
      while x < size
        invariant 0 <= x <= RangeLen(size)
        invariant cleanup == old(cleanup) + DeleteLines(name, NumberIds(x))
      {
        DeleteLinesSnoc(name, NumberIds(x), NatToString(x));
        Assoc(old(cleanup), DeleteLines(name, NumberIds(x)), [DeleteLine(name, NatToString(x))]);
        cleanup := cleanup + [DeleteLine(name, NatToString(x))];
        x := x + 1;
      }
    }

    method CleanupTree(name: string, size: int)
      requires size >= 0
      modifies this`cleanup
      ensures cleanup == old(cleanup) + DeleteLines(name, TreeIds(size))
    {
      var depth := Depth(size);
      cleanup := cleanup + [DeleteLine(name, "root")];
      ghost var head := cleanup;
      var count := 1;
      var level := 0;
      ghost var row: nat := 0;
      while level < depth
        invariant level <= depth && row == 0
        invariant count + 1 == Pow2(level + 1)
        invariant count <= size || count == 1
        invariant cleanup == head + DeleteLines(name, FullLevels(level))
      {
        var y;
        count, y := CleanupTreeLevel(name, size, level, count);
        if count >= size {
          DeleteLinesAppend(name, FullLevels(level), LetterRow(level, y));
          Assoc(head, DeleteLines(name, FullLevels(level)), DeleteLines(name, LetterRow(level, y)));
          row := y;
          break;
        }
        DeleteLinesAppend(name, FullLevels(level), LetterRow(level, y));
        Assoc(head, DeleteLines(name, FullLevels(level)), DeleteLines(name, LetterRow(level, y)));
        assert Pow2(level + 2) == 2 * Pow2(level + 1);
        level := level + 1;
      }
      ghost var rest := FullLevels(level) + LetterRow(level, row);
      if row == 0 {
        assert rest == FullLevels(level);
      }
      assert cleanup == head + DeleteLines(name, rest);
      TreeNodesDone(size, depth, level, row, count);
      DeleteLinesAppend(name, ["root"], rest);
      assert DeleteLines(name, ["root"]) == [DeleteLine(name, "root")];
      Assoc(old(cleanup), [DeleteLine(name, "root")], DeleteLines(name, rest));
    }

    /** The inner loop of the cleanup script's tree branch. */
    method CleanupTreeLevel(name: string, size: int, level: nat, count: nat) returns (c: nat, y: nat)
      requires count <= size || count == 1
      modifies this`cleanup
      ensures y <= Pow2(level + 1) && c == count + y
      ensures count >= size ==> y == 0
      ensures count < size ==> c <= size && (c < size ==> y == Pow2(level + 1))
      ensures cleanup == old(cleanup) + DeleteLines(name, LetterRow(level, y))
    {
      y := 0;
      c := count;
      while y < Pow2(level + 1)
        invariant 0 <= y <= Pow2(level + 1)
        invariant c == count + y
        invariant count < size ==> c <= size
        invariant count >= size ==> y == 0
        invariant cleanup == old(cleanup) + DeleteLines(name, LetterRow(level, y))
      {
        var ident := LetterId(level, y);
        if c < size {
          DeleteLinesSnoc(name, LetterRow(level, y), ident);
          Assoc(old(cleanup), DeleteLines(name, LetterRow(level, y)), [DeleteLine(name, ident)]);
          cleanup := cleanup + [DeleteLine(name, ident)];
          c := c + 1;
        } else {
          break;
        }
        y := y + 1;
      }
    }
  }

  /** name gives position pos of level L the identifier the tree branch
      writes for it, as TreeIdAt does for index 2^(L+1) - 2 + pos. */
  ghost predicate LevelNames(name: nat -> string) {
    forall level: nat, pos: nat {:trigger LetterId(level, pos)} :: level <= MaxLetter && pos < Pow2(level + 1) ==>
      name(TreeIndex(level, pos)) == LetterId(level, pos)
  }

  /** Membership in the first n non-root nodes, at every position. */
  lemma NonRootMembers(n: nat)
    ensures forall level: nat, pos: nat {:trigger LetterId(level, pos)} :: level <= MaxLetter && pos < Pow2(level + 1) ==>
      (LetterId(level, pos) in NonRootIds(n) <==> TreeIndex(level, pos) < n)
  {
    forall level: nat, pos: nat | level <= MaxLetter && pos < Pow2(level + 1)
      ensures LetterId(level, pos) in NonRootIds(n) <==> TreeIndex(level, pos) < n
    {
      NonRootMember(n, level, pos);
    }
  }

  /** TreeIdAt names every position as the tree branch does. */
  lemma TreeIdAtNames()
    ensures LevelNames(TreeIdAt)
  {
    forall level: nat, pos: nat | level <= MaxLetter && pos < Pow2(level + 1)
      ensures TreeIdAt(TreeIndex(level, pos)) == LetterId(level, pos)
    {
      TreeIdAtLevel(level, pos);
    }
  }

  /** When the level loop of the tree branch stops, at position `row` of
      `level` (row 0 when every level below depth is full), the positions
      written are exactly the tree's non-root nodes. */
  lemma TreeNodesDone(size: int, depth: nat, level: nat, row: nat, count: nat)
    requires size >= 0 && depth == Depth(size) && (count <= size || count == 1)
    requires count + 1 == Pow2(level + 1) + row && row <= Pow2(level + 1)
    requires count >= size || (level == depth && row == 0)
    ensures FullLevels(level) + LetterRow(level, row) == NonRootIds(TreeCount(size))
  {
    assert Pow2(depth + 1) > size + 1;
    assert TreeIndex(level, row) == TreeCount(size);
    FullLevelsIds(level, row);
  }

  /** When the parent loop of the tree block stops, after parent `row` - 1 of
      `level` (row 0 when every level with children is done), the links
      written are the child links of all non-root nodes. */
  lemma ParentLoopExit(size: int, depth: nat, level: nat, row: nat, count: nat, blos: string, loss: string, name: nat -> string, uni: bool)
    requires size >= 4 && depth == Depth(size)
    requires count + 1 == Pow2(level + 1) + row && row <= Pow2(level + 1)
    requires count >= size || (level + 1 == depth && row == 0)
    ensures FullLevelLinks(blos, loss, name, TreeCount(size), level, uni)
            + LevelLinks(blos, loss, name, TreeCount(size), level, row, uni)
         == ChildLinks(blos, loss, name, TreeCount(size), uni)
  {
    var k := TreeIndex(level + 1, 0) + 2 * row;
    assert Pow2(level + 2) == 2 * Pow2(level + 1);
    assert Pow2(depth + 1) > size + 1;
    assert Min(k, TreeCount(size)) == TreeCount(size);
    FullLevelLinksChildren(blos, loss, name, TreeCount(size), level, row, k, uni);
  }

  /** The pair (x, y) -> (x, y - 1) is among those recorded once row x has
      reached column y: it is the reverse of the right link of (x, y - 1). */
  lemma LeftPairRecorded(blos: string, loss: string, x: nat, y: nat, done: seq<Link>)
    requires y >= 1
    ensures (LetterId(x, y), LetterId(x, y - 1)) in PairsOf(done + GridRowLinks(blos, loss, x, y))
  {
    var l := RightLink(blos, loss, x, y - 1);
    PairsOfSnoc(GridRowLinks(blos, loss, x, y - 1), l);
    PairsOfAppend(done, GridRowLinks(blos, loss, x, y));
    assert LinkPairs(l)[1] == (LetterId(x, y), LetterId(x, y - 1));
  }

  /** The script from its parsed arguments on: the network name, the node
      list, the link block of the chosen topology, the closing lines and the
      cleanup script. A binary tree with --s below 0 stops with Python's math
      domain error when generateNodes takes log2(size + 1). */
  method Run(p: Params) returns (r: Result<Output>)
    requires 1 <= p.rows <= 26
    requires p.topo == BinaryTree ==> TreeSizeOk(p.size)
    ensures p.topo == BinaryTree && p.size < 0 <==> r.Failure?
    ensures r.Failure? ==> r.error == MathDomainError
    ensures r.Success? ==> r.value == Expected(p)
  {
    var name := NetworkName(p.topo, p.dire, p.size, p.rows, p.cols);
    var description := Description(p.topo, p.dire, p.size, p.rows, p.cols);
    if p.topo == BinaryTree && p.size < 0 {
      return Failure(MathDomainError);
    }
    var nodes, links, cleanup := Generate(p, name);
    var xml := XmlDocument(description, name, p.binary, nodes, links);
    r := Success(Output(XmlFileName(name), xml, CleanupFileName(name), cleanup));
    ExpectedParts(p, name, description, nodes, links);
  }

  /** What a fresh generator writes for valid arguments: the nodes, the links
      and the cleanup script of the network called `name`. */
  method Generate(p: Params, name: string) returns (nodes: seq<string>, links: seq<Link>, cleanup: seq<string>)
    requires 1 <= p.rows <= 26
    requires p.topo == BinaryTree ==> p.size >= 0 && TreeSizeOk(p.size)
    ensures nodes == TopologyNodes(p.topo, p.size, p.rows, p.cols)
    ensures links == TopologyLinks(p.topo, p.dire, p.blos, p.loss, p.size, p.rows, p.cols)
    ensures cleanup == CleanupScript(name, nodes)
  {
    var g := new Generator();
    g.GenerateNodes(p.topo, p.size, p.rows, p.cols);
    g.AssignNeighbors(p.topo, p.dire, p.size, p.rows, p.cols, p.blos, p.loss);
    g.WriteCleanup(name, p.topo, p.size, p.rows, p.cols);
    nodes, links, cleanup := g.nodes, g.links, g.cleanup;
  }

  /** Expected, from the parts the script computes one after the other. */
  lemma ExpectedParts(p: Params, name: string, description: string, nodes: seq<string>, links: seq<Link>)
    requires p.rows >= 0
    requires name == NetworkName(p.topo, p.dire, p.size, p.rows, p.cols)
    requires description == Description(p.topo, p.dire, p.size, p.rows, p.cols)
    requires nodes == TopologyNodes(p.topo, p.size, p.rows, p.cols)
    requires links == TopologyLinks(p.topo, p.dire, p.blos, p.loss, p.size, p.rows, p.cols)
    ensures Expected(p) == Output(XmlFileName(name), XmlDocument(description, name, p.binary, nodes, links),
                                  CleanupFileName(name), CleanupScript(name, nodes))
  {
  }
}
