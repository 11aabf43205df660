/** What the generator's output satisfies: node lists without repetitions,
    the shape of each topology's links, the cleanup script following the node
    list, and the network name determining the arguments it shows. The grid
    and tree link blocks are stated as the script writes them, next to the
    links their comments and the node naming evidently intend. */
module TopologyProps {
  import opened Decimal
  import opened TopologySpec
  import opened TopologyIds

  // ---------------------------------------------------------------------------
  // Nodes

  /** Ring and line: node x is str(x). */
  lemma {:induction false} NumberIdsAt(n: nat, x: nat)
    requires x < n
    ensures NumberIds(n)[x] == NatToString(x)
  {
    if x < n - 1 {
      NumberIdsAt(n - 1, x);
    }
  }

  /** Position i of a row-major table with `cols` columns below `rows` rows
      is cell (r, c) for one r below `rows` and c below `cols`. */
  lemma RowMajorCell(rows: nat, cols: nat, i: nat) returns (r: nat, c: nat)
    requires i < rows * cols
    ensures r < rows && c < cols && i == r * cols + c
  {
    assert cols != 0;
    r, c := i / cols, i % cols;
    assert (rows - r) * cols == rows * cols - r * cols > 0;
  }

  /** Grid node i is the node of some cell (r, c) in row-major order, and
      the letter of row r lies in 'a' .. 'z' because --r is at most 26. */
  lemma GridIdsRowMajor(rows: nat, cols: nat, i: nat) returns (r: nat, c: nat)
    requires rows <= 26 && i < rows * cols
    ensures r < rows && c < cols && i == r * cols + c
    ensures GridIds(rows, cols)[i] == LetterId(r, c) && 'a' <= Letter(r) <= 'z'
  {
    r, c := RowMajorCell(rows, cols, i);
    GridIdsAt(rows, cols, r, c);
  }

  /** Level of the non-root node i of a tree whose size is within range: its
      letter is one Python writes. */
  lemma TreeLevelBound(size: int, i: nat)
    requires TreeSizeOk(size) && i < TreeCount(size)
    ensures TreeLevel(i) <= MaxLetter
  {
    var level, depth := TreeLevel(i), Depth(TreeCount(size) + 1);
    TreeLevelRange(i);
    assert depth == Depth(RangeLen(size));
    Pow2Monotone(depth + 1, level + 1);
  }

  /** A non-root tree node is never called "root": its second character is a
      digit. */
  lemma NotRoot(i: nat)
    ensures TreeIdAt(i) != "root"
  {
    var id := TreeIdAt(i);
    assert id[1] == NatToString(TreePos(i))[0];
    assert IsDigit(id[1]);
  }

  /** Distinct level-order indices name distinct tree nodes. */
  lemma TreeIdAtInjective(size: int, i: nat, j: nat)
    requires TreeSizeOk(size) && i < TreeCount(size) && j < TreeCount(size) && i != j
    ensures TreeIdAt(i) != TreeIdAt(j)
  {
    TreeLevelRange(i);
    TreeLevelRange(j);
    TreeLevelBound(size, i);
    LetterIdInjective(TreeLevel(i), TreePos(i), TreeLevel(j), TreePos(j));
  }

  /** generateNodes never writes a node name twice, whatever the topology. */
  lemma NodesDistinct(topo: Topo, size: int, rows: nat, cols: int, i: nat, j: nat)
    requires rows <= 26 && (topo == BinaryTree ==> TreeSizeOk(size))
    requires i < j < |TopologyNodes(topo, size, rows, cols)|
    ensures TopologyNodes(topo, size, rows, cols)[i] != TopologyNodes(topo, size, rows, cols)[j]
  {
    match topo
    case Grid =>
      var r, c := GridIdsRowMajor(rows, RangeLen(cols), i);
      var r2, c2 := GridIdsRowMajor(rows, RangeLen(cols), j);
      LetterIdInjective(r, c, r2, c2);
    case BinaryTree =>
      var n := TreeCount(size);
      if i == 0 {
        NonRootIdsAt(n, j - 1);
        NotRoot(j - 1);
      } else {
        NonRootIdsAt(n, i - 1);
        NonRootIdsAt(n, j - 1);
        TreeIdAtInjective(size, i - 1, j - 1);
      }
    case Ring =>
      NumberIdsAt(RangeLen(size), i);
      NumberIdsAt(RangeLen(size), j);
      NatToStringInjective(i, j);
    case Line =>
      NumberIdsAt(RangeLen(size), i);
      NumberIdsAt(RangeLen(size), j);
      NatToStringInjective(i, j);
  }

  /** The binary tree: "root" first, then exactly size - 1 nodes (none for
      size 0), the first level being a0 and a1 and the next starting at b0. */
  lemma TreeIdsShape(size: int)
    ensures |TreeIds(size)| == (if size >= 1 then size else 1) && TreeIds(size)[0] == "root"
    ensures size >= 2 ==> TreeIds(size)[1] == "a0"
    ensures size >= 3 ==> TreeIds(size)[2] == "a1"
    ensures size >= 4 ==> TreeIds(size)[3] == "b0"
  {
    var n := TreeCount(size);
    if n >= 1 {
      NonRootIdsAt(n, 0);
      assert TreeIdAt(0) == LetterId(0, 0);
    }
    if n >= 2 {
      NonRootIdsAt(n, 1);
      assert TreeIdAt(1) == LetterId(0, 1);
    }
    if n >= 3 {
      NonRootIdsAt(n, 2);
      assert TreeLevel(2) == 1 && TreePos(2) == 0;
      assert TreeIdAt(2) == LetterId(1, 0);
    }
  }

  // ---------------------------------------------------------------------------
  // Ring and line links

  lemma {:induction false} RingLinksUpToAt(blos: string, loss: string, k: nat, size: int, uni: bool, x: nat)
    requires k <= size && x < k
    ensures RingLinksUpTo(blos, loss, k, size, uni)[x]
         == Link(blos, NatToString(x), loss, NatToString(if x + 1 == size then 0 else x + 1), uni)
  {
    if x < k - 1 {
      RingLinksUpToAt(blos, loss, k - 1, size, uni, x);
    }
  }

  /** The ring: exactly size links, the x-th from x to x + 1, or to 0 for the
      last node, with the configured uni flag. With no duplicate check,
      a ring of one node is the self-loop 0 -> 0. */
  lemma RingLinksAt(blos: string, loss: string, size: int, uni: bool, x: nat)
    requires x < size
    ensures |RingLinks(blos, loss, size, uni)| == size
    ensures RingLinks(blos, loss, size, uni)[x]
         == Link(blos, NatToString(x), loss, NatToString(if x + 1 == size then 0 else x + 1), uni)
    ensures size == 1 ==> RingLinks(blos, loss, size, uni) == [Link(blos, "0", loss, "0", uni)]
  {
    RingLinksUpToAt(blos, loss, size, size, uni, x);
    if size == 1 {
      assert RingLinks(blos, loss, size, uni)[0] == Link(blos, "0", loss, "0", uni);
    }
  }

  lemma {:induction false} LineLinksUpToAt(blos: string, loss: string, k: nat, uni: bool, x: nat)
    requires x < k
    ensures LineLinksUpTo(blos, loss, k, uni)[x] == Link(blos, NatToString(x), loss, NatToString(x + 1), uni)
  {
    if x < k - 1 {
      LineLinksUpToAt(blos, loss, k - 1, uni, x);
    }
  }

  /** The line: size - 1 links, the x-th from x to x + 1, with the
      configured uni flag; the link that would leave the last node is not
      written. */
  lemma LineLinksAt(blos: string, loss: string, size: int, uni: bool, x: nat)
    requires x + 1 < size
    ensures |LineLinks(blos, loss, size, uni)| == size - 1
    ensures LineLinks(blos, loss, size, uni)[x] == Link(blos, NatToString(x), loss, NatToString(x + 1), uni)
  {
    LineLinksUpToAt(blos, loss, size - 1, uni, x);
  }

  // ---------------------------------------------------------------------------
  // Directionality

  /** Every link carries uni="true" exactly when --d is uni, except in the
      grid, whose links always carry uni="false". */
  lemma UniFlag(topo: Topo, dire: Direction, blos: string, loss: string, size: int, rows: nat, cols: int, i: nat)
    requires rows <= 26
    requires i < |TopologyLinks(topo, dire, blos, loss, size, rows, cols)|
    ensures TopologyLinks(topo, dire, blos, loss, size, rows, cols)[i].uni == (topo != Grid && dire == Uni)
  {
    var uni := UniOf(dire);
    match topo
    case Grid =>
      var r, c := RowMajorCell(rows, RangeLen(cols), i);
      GridLinksAt(blos, loss, rows, RangeLen(cols), r, c);
    case Ring =>
      RingLinksAt(blos, loss, size, uni, i);
    case Line =>
      LineLinksAt(blos, loss, size, uni, i);
    case BinaryTree =>
      var root := RootLinks(blos, loss, size, uni);
      if i >= |root| {
        ChildLinksAt(blos, loss, TreeIdAt, TreeCount(size), uni, i - |root|);
      }
  }

  // ---------------------------------------------------------------------------
  // Grid links as written

  /** Grid link i is the right link of some cell (r, c), in row-major order. */
  lemma GridLinksCell(blos: string, loss: string, rows: nat, cols: nat, i: nat) returns (r: nat, c: nat)
    requires rows <= 26 && i < rows * cols
    ensures r < rows && c < cols
    ensures GridLinks(blos, loss, rows, cols)[i] == RightLink(blos, loss, r, c)
  {
    r, c := RowMajorCell(rows, cols, i);
    GridLinksAt(blos, loss, rows, cols, r, c);
  }

  /** As written, the guards of the "above" and "below" neighbours compare a
      row index below 26 with 97 and never hold: no grid link joins two
      different rows. */
  lemma GridNoVerticalLinks(blos: string, loss: string, rows: nat, cols: nat, r: nat, c: nat, r2: nat, c2: nat)
    requires rows <= 26 && r != r2
    ensures Link(blos, LetterId(r, c), loss, LetterId(r2, c2), false) !in GridLinks(blos, loss, rows, cols)
  {
    var ls := GridLinks(blos, loss, rows, cols);
    forall i | 0 <= i < |ls|
      ensures ls[i] != Link(blos, LetterId(r, c), loss, LetterId(r2, c2), false)
    {
      var x, y := GridLinksCell(blos, loss, rows, cols, i);
      LetterIdInjective(x, y, r, c);
      LetterIdInjective(x, y + 1, r2, c2);
    }
  }

  /** As written, the guard of the "right" neighbour admits y + 1 == cols:
      the last node of every row is linked to a node the grid does not
      have. */
  lemma GridDanglingLink(blos: string, loss: string, rows: nat, cols: nat, r: nat)
    requires rows <= 26 && r < rows && cols >= 1
    ensures Link(blos, LetterId(r, cols - 1), loss, LetterId(r, cols), false) in GridLinks(blos, loss, rows, cols)
    ensures LetterId(r, cols) !in GridIds(rows, cols)
  {
    GridLinksAt(blos, loss, rows, cols, r, cols - 1);
    var ids := GridIds(rows, cols);
    forall i | 0 <= i < |ids|
      ensures ids[i] != LetterId(r, cols)
    {
      var x, y := GridIdsRowMajor(rows, cols, i);
      LetterIdInjective(x, y, r, cols);
    }
  }

  /** As written, no grid link repeats the pair of an earlier one or its
      reverse: the existingLinks checks only ever suppress the "left" links. */
  lemma GridLinksNoRepeat(blos: string, loss: string, rows: nat, cols: nat, i: nat, j: nat)
    requires rows <= 26 && i < j < |GridLinks(blos, loss, rows, cols)|
    ensures GridLinks(blos, loss, rows, cols)[i].fromNode != GridLinks(blos, loss, rows, cols)[j].fromNode
         || GridLinks(blos, loss, rows, cols)[i].toNode != GridLinks(blos, loss, rows, cols)[j].toNode
    ensures GridLinks(blos, loss, rows, cols)[i].fromNode != GridLinks(blos, loss, rows, cols)[j].toNode
         || GridLinks(blos, loss, rows, cols)[i].toNode != GridLinks(blos, loss, rows, cols)[j].fromNode
  {
    var x, y := RowMajorCell(rows, cols, i);
    var x2, y2 := RowMajorCell(rows, cols, j);
    GridLinksAt(blos, loss, rows, cols, x, y);
    GridLinksAt(blos, loss, rows, cols, x2, y2);
    assert x != x2 || y != y2;
    LetterIdInjective(x, y, x2, y2);
    LetterIdInjective(x, y, x2, y2 + 1);
    LetterIdInjective(x, y + 1, x2, y2);
  }

  // ---------------------------------------------------------------------------
  // Grid links as evidently intended

  /** The links the grid block evidently intends for cell (r, c): to the
      right neighbour and to the one below, when they exist. With corrected
      guards the block would also try the "above" and "left" links; each is
      the reverse of a bidirectional link an earlier cell wrote, which the
      existingLinks test is there to drop. This is the intended result
      stated directly, not derived from a corrected run of the loop. */
  function IntendedCellLinks(blos: string, loss: string, rows: nat, cols: nat, r: nat, c: nat): seq<Link> {
    (if c + 1 < cols then [Link(blos, LetterId(r, c), loss, LetterId(r, c + 1), false)] else [])
      + (if r + 1 < rows then [Link(blos, LetterId(r, c), loss, LetterId(r + 1, c), false)] else [])
  }

  function IntendedRowLinks(blos: string, loss: string, rows: nat, cols: nat, r: nat, n: nat): seq<Link> {
    if n == 0 then []
    else IntendedRowLinks(blos, loss, rows, cols, r, n - 1) + IntendedCellLinks(blos, loss, rows, cols, r, n - 1)
  }

  function IntendedGridLinksUpTo(blos: string, loss: string, rows: nat, cols: nat, k: nat): seq<Link> {
    if k == 0 then []
    else IntendedGridLinksUpTo(blos, loss, rows, cols, k - 1) + IntendedRowLinks(blos, loss, rows, cols, k - 1, cols)
  }

  /** The grid links with the neighbour guards testing for real neighbours. */
  function IntendedGridLinks(blos: string, loss: string, rows: nat, cols: nat): seq<Link> {
    IntendedGridLinksUpTo(blos, loss, rows, cols, rows)
  }

  lemma {:induction false} IntendedRowMember(blos: string, loss: string, rows: nat, cols: nat, r: nat, n: nat, l: Link)
    ensures l in IntendedRowLinks(blos, loss, rows, cols, r, n)
        <==> exists y: nat :: y < n && l in IntendedCellLinks(blos, loss, rows, cols, r, y)
  {
    if n > 0 {
      IntendedRowMember(blos, loss, rows, cols, r, n - 1, l);
      if l in IntendedCellLinks(blos, loss, rows, cols, r, n - 1) {
        assert l in IntendedRowLinks(blos, loss, rows, cols, r, n);
      }
    }
  }

  lemma {:induction false} IntendedGridMember(blos: string, loss: string, rows: nat, cols: nat, k: nat, l: Link)
    ensures l in IntendedGridLinksUpTo(blos, loss, rows, cols, k)
        <==> exists x: nat, y: nat :: x < k && y < cols && l in IntendedCellLinks(blos, loss, rows, cols, x, y)
  {
    if k > 0 {
      var last := k - 1;
      var above, row := IntendedGridLinksUpTo(blos, loss, rows, cols, last), IntendedRowLinks(blos, loss, rows, cols, last, cols);
      assert IntendedGridLinksUpTo(blos, loss, rows, cols, k) == above + row;
      IntendedGridMember(blos, loss, rows, cols, last, l);
      IntendedRowMember(blos, loss, rows, cols, last, cols, l);
      if l in row {
        var y: nat :| y < cols && l in IntendedCellLinks(blos, loss, rows, cols, last, y);
        assert last < k;
      }
      if exists x: nat, y: nat :: x < k && y < cols && l in IntendedCellLinks(blos, loss, rows, cols, x, y) {
        var x: nat, y: nat :| x < k && y < cols && l in IntendedCellLinks(blos, loss, rows, cols, x, y);
        if x == last {
          assert l in row;
        } else {
          assert l in above;
        }
      }
    }
  }

  /** The intended grid links join exactly the horizontally or vertically
      adjacent nodes of the grid, from the left or upper node (that each
      pair is linked once is IntendedGridNoRepeat). */
  lemma IntendedGridAdjacency(blos: string, loss: string, rows: nat, cols: nat, r: nat, c: nat, r2: nat, c2: nat)
    requires rows <= 26
    ensures Link(blos, LetterId(r, c), loss, LetterId(r2, c2), false) in IntendedGridLinks(blos, loss, rows, cols)
        <==> r < rows && c < cols && r2 < rows && c2 < cols && ((r2 == r && c2 == c + 1) || (r2 == r + 1 && c2 == c))
  {
    var l := Link(blos, LetterId(r, c), loss, LetterId(r2, c2), false);
    IntendedGridMember(blos, loss, rows, cols, rows, l);
    if l in IntendedGridLinks(blos, loss, rows, cols) {
      var x: nat, y: nat :| x < rows && y < cols && l in IntendedCellLinks(blos, loss, rows, cols, x, y);
      IntendedCellAdjacent(blos, loss, rows, cols, x, y, r, c, r2, c2);
    }
    if r < rows && c < cols && r2 < rows && c2 < cols && ((r2 == r && c2 == c + 1) || (r2 == r + 1 && c2 == c)) {
      assert l in IntendedCellLinks(blos, loss, rows, cols, r, c);
    }
  }

  /** A link of cell (x, y) between (r, c) and (r2, c2) goes from the cell
      to its right or lower neighbour. */
  lemma IntendedCellAdjacent(blos: string, loss: string, rows: nat, cols: nat, x: nat, y: nat, r: nat, c: nat, r2: nat, c2: nat)
    requires x < rows <= 26 && y < cols
    requires Link(blos, LetterId(r, c), loss, LetterId(r2, c2), false) in IntendedCellLinks(blos, loss, rows, cols, x, y)
    ensures r == x && c == y && r2 < rows && c2 < cols && ((r2 == r && c2 == c + 1) || (r2 == r + 1 && c2 == c))
  {
    LetterIdInjective(x, y, r, c);
    if y + 1 < cols && LetterId(r2, c2) == LetterId(x, y + 1) {
      LetterIdInjective(x, y + 1, r2, c2);
    } else {
      assert x + 1 < rows && LetterId(r2, c2) == LetterId(x + 1, y);
      LetterIdInjective(x + 1, y, r2, c2);
    }
  }

  /** Every intended grid link joins two nodes of the grid. */
  lemma IntendedGridEndpoints(blos: string, loss: string, rows: nat, cols: nat, l: Link)
    requires rows <= 26 && l in IntendedGridLinks(blos, loss, rows, cols)
    ensures l.fromNode in GridIds(rows, cols) && l.toNode in GridIds(rows, cols)
  {
    IntendedGridMember(blos, loss, rows, cols, rows, l);
    var x: nat, y: nat :| x < rows && y < cols && l in IntendedCellLinks(blos, loss, rows, cols, x, y);
    var right := Link(blos, LetterId(x, y), loss, LetterId(x, y + 1), false);
    var x2: nat, y2: nat := x + 1, y;
    if y + 1 < cols && l == right {
      x2, y2 := x, y + 1;
    }
    assert x2 < rows && y2 < cols && l.fromNode == LetterId(x, y) && l.toNode == LetterId(x2, y2);
    GridIdsMember(rows, cols, x, y);
    GridIdsMember(rows, cols, x2, y2);
  }

  /** No two links of ls share their (from, to) pair. */
  predicate PairsDistinct(ls: seq<Link>) {
    forall i, j :: 0 <= i < j < |ls| ==> ls[i].fromNode != ls[j].fromNode || ls[i].toNode != ls[j].toNode
  }

  /** Joining two pair-distinct lists whose links start at different nodes
      keeps the pairs distinct. */
  lemma PairsDistinctConcat(a: seq<Link>, b: seq<Link>)
    requires PairsDistinct(a) && PairsDistinct(b)
    requires forall i, j :: 0 <= i < |a| && 0 <= j < |b| ==> a[i].fromNode != b[j].fromNode
    ensures PairsDistinct(a + b)
  {
    var ab := a + b;
    forall i, j | 0 <= i < j < |ab| ensures ab[i].fromNode != ab[j].fromNode || ab[i].toNode != ab[j].toNode {
      if j < |a| {
        assert ab[i] == a[i] && ab[j] == a[j];
      } else if i < |a| {
        assert ab[i] == a[i] && ab[j] == b[j - |a|];
      } else {
        assert ab[i] == b[i - |a|] && ab[j] == b[j - |a|];
      }
    }
  }

  /** A link of cell (r, c) starts at that cell. */
  lemma IntendedCellFrom(blos: string, loss: string, rows: nat, cols: nat, r: nat, c: nat, l: Link)
    requires l in IntendedCellLinks(blos, loss, rows, cols, r, c)
    ensures l.fromNode == LetterId(r, c)
  {
  }

  lemma {:induction false} IntendedRowDistinct(blos: string, loss: string, rows: nat, cols: nat, r: nat, n: nat)
    requires r < rows <= 26
    ensures PairsDistinct(IntendedRowLinks(blos, loss, rows, cols, r, n))
  {
    if n > 0 {
      var last := n - 1;
      var a, b := IntendedRowLinks(blos, loss, rows, cols, r, last), IntendedCellLinks(blos, loss, rows, cols, r, last);
      IntendedRowDistinct(blos, loss, rows, cols, r, last);
      assert PairsDistinct(b) by {
        LetterIdInjective(r, last + 1, r + 1, last);
      }
      forall i, j | 0 <= i < |a| && 0 <= j < |b| ensures a[i].fromNode != b[j].fromNode {
        IntendedRowMember(blos, loss, rows, cols, r, last, a[i]);
        var y: nat :| y < last && a[i] in IntendedCellLinks(blos, loss, rows, cols, r, y);
        IntendedCellFrom(blos, loss, rows, cols, r, y, a[i]);
        LetterIdInjective(r, y, r, last);
      }
      PairsDistinctConcat(a, b);
    }
  }

  lemma {:induction false} IntendedGridDistinct(blos: string, loss: string, rows: nat, cols: nat, k: nat)
    requires k <= rows <= 26
    ensures PairsDistinct(IntendedGridLinksUpTo(blos, loss, rows, cols, k))
  {
    if k > 0 {
      var last := k - 1;
      var a, b := IntendedGridLinksUpTo(blos, loss, rows, cols, last), IntendedRowLinks(blos, loss, rows, cols, last, cols);
      IntendedGridDistinct(blos, loss, rows, cols, last);
      IntendedRowDistinct(blos, loss, rows, cols, last, cols);
      forall i, j | 0 <= i < |a| && 0 <= j < |b| ensures a[i].fromNode != b[j].fromNode {
        IntendedGridMember(blos, loss, rows, cols, last, a[i]);
        var x: nat, y: nat :| x < last && y < cols && a[i] in IntendedCellLinks(blos, loss, rows, cols, x, y);
        IntendedCellFrom(blos, loss, rows, cols, x, y, a[i]);
        IntendedRowMember(blos, loss, rows, cols, last, cols, b[j]);
        var y2: nat :| y2 < cols && b[j] in IntendedCellLinks(blos, loss, rows, cols, last, y2);
        IntendedCellFrom(blos, loss, rows, cols, last, y2, b[j]);
        LetterIdInjective(x, y, last, y2);
      }
      PairsDistinctConcat(a, b);
    }
  }

  /** The cells an intended grid link joins: the second is one step to the
      right of or below the first. */
  lemma IntendedLinkCells(blos: string, loss: string, rows: nat, cols: nat, l: Link) returns (x: nat, y: nat, x2: nat, y2: nat)
    requires rows <= 26 && l in IntendedGridLinks(blos, loss, rows, cols)
    ensures x < rows && y < cols && x2 < rows && y2 < cols && x2 + y2 == x + y + 1
    ensures l.fromNode == LetterId(x, y) && l.toNode == LetterId(x2, y2)
  {
    IntendedGridMember(blos, loss, rows, cols, rows, l);
    x, y :| x < rows && y < cols && l in IntendedCellLinks(blos, loss, rows, cols, x, y);
    x2, y2 := x + 1, y;
    if y + 1 < cols && l == Link(blos, LetterId(x, y), loss, LetterId(x, y + 1), false) {
      x2, y2 := x, y + 1;
    }
  }

  /** With the guards testing for real neighbours, each adjacent pair of
      grid nodes is linked once: no two intended links share their pair,
      and none is the reverse of another. */
  lemma IntendedGridNoRepeat(blos: string, loss: string, rows: nat, cols: nat, i: nat, j: nat)
    requires rows <= 26 && i < j < |IntendedGridLinks(blos, loss, rows, cols)|
    ensures IntendedGridLinks(blos, loss, rows, cols)[i].fromNode != IntendedGridLinks(blos, loss, rows, cols)[j].fromNode
         || IntendedGridLinks(blos, loss, rows, cols)[i].toNode != IntendedGridLinks(blos, loss, rows, cols)[j].toNode
    ensures IntendedGridLinks(blos, loss, rows, cols)[i].fromNode != IntendedGridLinks(blos, loss, rows, cols)[j].toNode
         || IntendedGridLinks(blos, loss, rows, cols)[i].toNode != IntendedGridLinks(blos, loss, rows, cols)[j].fromNode
  {
    var ls := IntendedGridLinks(blos, loss, rows, cols);
    IntendedGridDistinct(blos, loss, rows, cols, rows);
    var x, y, x2, y2 := IntendedLinkCells(blos, loss, rows, cols, ls[i]);
    var u, v, u2, v2 := IntendedLinkCells(blos, loss, rows, cols, ls[j]);
    LetterIdInjective(x, y, u2, v2);
    LetterIdInjective(x2, y2, u, v);
  }

  lemma GridIdsMember(rows: nat, cols: nat, r: nat, c: nat)
    requires r < rows && c < cols
    ensures LetterId(r, c) in GridIds(rows, cols)
  {
    GridIdsAt(rows, cols, r, c);
  }



  // ---------------------------------------------------------------------------
  // Tree links as written

  /** Level "a" has the positions 0 and 1 only: "a2" is never a tree node. */
  lemma A2NeverNode(size: int)
    ensures "a2" !in TreeIds(size)
  {
    var n := TreeCount(size);
    var ids := NonRootIds(n);
    assert LetterId(0, 2) == "a2";
    forall k | 0 <= k < n
      ensures ids[k] != "a2"
    {
      NonRootIdsAt(n, k);
      TreeLevelRange(k);
      LetterIdInjective(0, 2, TreeLevel(k), TreePos(k));
    }
    assert TreeIds(size) == ["root"] + ids;
  }

  /** No link the tree block writes ends at "a0": the root links end at "a1"
      and "a2", every other link at a node of level "b" or below. */
  lemma NoLinkToA0(blos: string, loss: string, size: int, uni: bool)
    ensures forall l | l in TreeLinks(blos, loss, size, uni) :: l.toNode != "a0"
  {
    var n := TreeCount(size);
    assert LetterId(0, 0) == "a0";
    var root, children := RootLinks(blos, loss, size, uni), TreeChildLinks(blos, loss, n, uni);
    forall j | 0 <= j < |children|
      ensures children[j].toNode != "a0"
    {
      ChildLinksAt(blos, loss, TreeIdAt, n, uni, j);
      LetterIdInjective(0, 0, TreeLevel(j + 2), TreePos(j + 2));
    }
    assert TreeLinks(blos, loss, size, uni) == root + children;
  }

  /** As written, the root is linked to "a1" and "a2" although the first
      level generateNodes writes is a0, a1: "a2" is never a node, so the link
      root -> a2 dangles whenever size >= 3, and no link at all ends at "a0",
      which is a node whenever size >= 2. */
  lemma TreeRootLinksAsWritten(blos: string, loss: string, size: int, uni: bool)
    ensures "a2" !in TreeIds(size)
    ensures size >= 3 ==> Link(blos, "root", loss, "a2", uni) in TreeLinks(blos, loss, size, uni)
    ensures size >= 2 ==> "a0" in TreeIds(size)
    ensures forall l | l in TreeLinks(blos, loss, size, uni) :: l.toNode != "a0"
  {
    A2NeverNode(size);
    NoLinkToA0(blos, loss, size, uni);
    TreeIdsShape(size);
    if size >= 3 {
      assert TreeLinks(blos, loss, size, uni)[1] == Link(blos, "root", loss, "a2", uni);
    }
  }

  // ---------------------------------------------------------------------------
  // Tree links as evidently intended

  /** The parent of non-root node i: the root for the first level, else the
      node with index ParentIndex(i). */
  function ParentId(i: nat): string {
    if i < 2 then "root" else TreeIdAt(ParentIndex(i))
  }

  /** root -> a0 and root -> a1: the root links matching the first level that
      generateNodes writes. */
  function IntendedRootLinks(blos: string, loss: string, size: int, uni: bool): seq<Link> {
    (if size >= 2 then [Link(blos, "root", loss, "a0", uni)] else [])
      + (if size >= 3 then [Link(blos, "root", loss, "a1", uni)] else [])
  }

  /** The tree links with the root links corrected. */
  function IntendedTreeLinks(blos: string, loss: string, size: int, uni: bool): seq<Link> {
    IntendedRootLinks(blos, loss, size, uni) + TreeChildLinks(blos, loss, TreeCount(size), uni)
  }

  /** Link i of the corrected tree ends at non-root node i. */
  lemma IntendedTreeLinkAt(blos: string, loss: string, size: int, uni: bool, i: nat)
    requires i < TreeCount(size)
    ensures |IntendedTreeLinks(blos, loss, size, uni)| == TreeCount(size)
    ensures IntendedTreeLinks(blos, loss, size, uni)[i] == Link(blos, ParentId(i), loss, TreeIdAt(i), uni)
  {
    var n := TreeCount(size);
    var root, children := IntendedRootLinks(blos, loss, size, uni), TreeChildLinks(blos, loss, n, uni);
    assert IntendedTreeLinks(blos, loss, size, uni) == root + children;
    if i < 2 {
      assert TreeIdAt(0) == LetterId(0, 0) == "a0";
      assert TreeIdAt(1) == LetterId(0, 1) == "a1";
    } else {
      ChildLinksAt(blos, loss, TreeIdAt, n, uni, i - 2);
      assert children[i - 2] == Link(blos, ParentId(i), loss, TreeIdAt(i), uni);
    }
  }

  /** Non-root node i and its parent are both nodes of the tree. */
  lemma ParentInTree(size: int, i: nat)
    requires i < TreeCount(size)
    ensures ParentId(i) in TreeIds(size) && TreeIdAt(i) in TreeIds(size)
  {
    var n := TreeCount(size);
    var ids := TreeIds(size);
    NonRootIdsAt(n, i);
    assert ids[i + 1] == TreeIdAt(i);
    if i >= 2 {
      var p := ParentIndex(i);
      NonRootIdsAt(n, p);
      assert ids[p + 1] == TreeIdAt(p);
    } else {
      assert ids[0] == "root";
    }
  }

  /** With the corrected root links, link i goes from the parent of non-root
      node i to that node, both ends being nodes of the tree: every node but
      the root has one incoming link, from its parent. */
  lemma IntendedTreeParentLinks(blos: string, loss: string, size: int, uni: bool, i: nat)
    requires i < TreeCount(size)
    ensures |IntendedTreeLinks(blos, loss, size, uni)| == TreeCount(size)
    ensures IntendedTreeLinks(blos, loss, size, uni)[i] == Link(blos, ParentId(i), loss, TreeIdAt(i), uni)
    ensures ParentId(i) in TreeIds(size) && TreeIdAt(i) in TreeIds(size)
  {
    IntendedTreeLinkAt(blos, loss, size, uni, i);
    ParentInTree(size, i);
  }

  // ---------------------------------------------------------------------------
  // The cleanup script and the XML layout

  lemma {:induction false} DeleteLinesAt(name: string, ids: seq<string>, i: nat)
    requires i < |ids|
    ensures DeleteLines(name, ids)[i] == DeleteLine(name, ids[i])
  {
    if i < |ids| - 1 {
      DeleteLinesAt(name, ids[..|ids| - 1], i);
    }
  }

  /** The cleanup script deletes the network's own link first, then the link
      of each node in the order the nodes were written, and undefines the
      network last. */
  lemma CleanupFollowsNodes(name: string, ids: seq<string>, i: nat)
    requires i < |ids|
    ensures |CleanupScript(name, ids)| == |ids| + 2
    ensures CleanupScript(name, ids)[0] == "sudo ip link delete " + name
    ensures CleanupScript(name, ids)[i + 1] == "sudo ip link delete " + name + "_" + ids[i]
    ensures CleanupScript(name, ids)[|ids| + 1] == "make desvirt-undefine TOPO=" + name
  {
    DeleteLinesAt(name, ids, i);
  }

  lemma {:induction false} NodeLinesAt(binary: string, names: seq<string>, i: nat)
    requires i < |names|
    ensures NodeLines(binary, names)[i] == NodeLine(binary, names[i])
  {
    if i < |names| - 1 {
      NodeLinesAt(binary, names[..|names| - 1], i);
    }
  }

  lemma {:induction false} LinkLinesAt(links: seq<Link>, i: nat)
    requires i < |links|
    ensures LinkLines(links)[i] == LinkLine(links[i])
  {
    if i < |links| - 1 {
      LinkLinesAt(links[..|links| - 1], i);
    }
  }

  /** The XML file: eleven header lines, one `<node>` line per node in order,
      the two lines between the sections, one `<link>` line per link in
      order, and the three closing lines. */
  lemma XmlLayout(description: string, name: string, binary: string, nodes: seq<string>, links: seq<Link>, i: nat)
    ensures |XmlDocument(description, name, binary, nodes, links)| == 16 + |nodes| + |links|
    ensures i < |nodes| ==> XmlDocument(description, name, binary, nodes, links)[11 + i] == NodeLine(binary, nodes[i])
    ensures i < |links| ==> XmlDocument(description, name, binary, nodes, links)[13 + |nodes| + i] == LinkLine(links[i])
  {
    var doc := XmlDocument(description, name, binary, nodes, links);
    var head, ns, ls := XmlHeader(description, name), NodeLines(binary, nodes), LinkLines(links);
    assert doc == head + ns + XmlMiddle + ls + XmlFooter;
    if i < |nodes| {
      NodeLinesAt(binary, nodes, i);
      assert doc[11 + i] == ns[i];
    }
    if i < |links| {
      LinkLinesAt(links, i);
      assert doc[13 + |nodes| + i] == ls[i];
    }
  }

  // ---------------------------------------------------------------------------
  // Names

  /** A common prefix cancels. */
  lemma PrefixCancel(prefix: string, a: string, b: string)
    requires prefix + a == prefix + b
    ensures a == b
  {
    assert a == (prefix + a)[|prefix|..];
    assert b == (prefix + b)[|prefix|..];
  }

  /** Two names made of one prefix and a number are equal only for equal
      numbers. */
  lemma PrefixedNumberUnique(prefix: string, i: int, j: int)
    requires prefix + IntToString(i) == prefix + IntToString(j)
    ensures i == j
  {
    PrefixCancel(prefix, IntToString(i), IntToString(j));
    IntToStringInjective(i, j);
  }

  /** A ring or tree name, the uni- or bi- prefix followed by str(size),
      determines the direction and the size: the prefixes differ in their
      first character. */
  lemma DirectedNameUnique(uniPrefix: string, biPrefix: string, d1: Direction, s1: int, d2: Direction, s2: int)
    requires uniPrefix != [] && biPrefix != [] && uniPrefix[0] == 'u' && biPrefix[0] == 'b'
    requires (if d1 == Uni then uniPrefix else biPrefix) + IntToString(s1)
          == (if d2 == Uni then uniPrefix else biPrefix) + IntToString(s2)
    ensures d1 == d2 && s1 == s2
  {
    var p1, p2 := if d1 == Uni then uniPrefix else biPrefix, if d2 == Uni then uniPrefix else biPrefix;
    assert (p1 + IntToString(s1))[0] == p1[0] && (p2 + IntToString(s2))[0] == p2[0];
    PrefixedNumberUnique(p1, s1, s2);
  }

  /** Regrouping a five-part concatenation after its first part. */
  lemma RegroupAfterFirst<T>(a: seq<T>, b: seq<T>, c: seq<T>, d: seq<T>, e: seq<T>)
    ensures a + b + c + d + e == a + (b + c + d + e)
  {
  }

  /** A grid's name shows its rows and columns. */
  lemma GridNameUnique(r1: int, c1: int, r2: int, c2: int)
    requires NetworkName(Grid, Uni, 0, r1, c1) == NetworkName(Grid, Uni, 0, r2, c2)
    ensures r1 == r2 && c1 == c2
  {
    var g1, g2 := "grid" + IntToString(r1) + "x" + IntToString(c1), "grid" + IntToString(r2) + "x" + IntToString(c2);
    RegroupAfterFirst(IntToString(r1 * c1), "grid", IntToString(r1), "x", IntToString(c1));
    RegroupAfterFirst(IntToString(r2 * c2), "grid", IntToString(r2), "x", IntToString(c2));
    IntToStringSplitUnique(r1 * c1, g1, r2 * c2, g2);
    GridSuffixUnique(r1, c1, r2, c2);
  }

  lemma GridSuffixUnique(r1: int, c1: int, r2: int, c2: int)
    requires "grid" + IntToString(r1) + "x" + IntToString(c1) == "grid" + IntToString(r2) + "x" + IntToString(c2)
    ensures r1 == r2 && c1 == c2
  {
    var a1, a2 := IntToString(r1), IntToString(r2);
    var t1, t2 := "x" + IntToString(c1), "x" + IntToString(c2);
    Assoc("grid" + a1, "x", IntToString(c1));
    Assoc("grid" + a2, "x", IntToString(c2));
    Assoc("grid", a1, t1);
    Assoc("grid", a2, t2);
    PrefixCancel("grid", a1 + t1, a2 + t2);
    IntToStringSplitUnique(r1, t1, r2, t2);
    PrefixedNumberUnique("x", c1, c2);
  }

  /** The network name, and with it both file names, determines the
      arguments it shows: rows and columns for a grid, direction and size for
      a ring or a tree, size for a line. */
  lemma NetworkNameDetermines(topo: Topo, d1: Direction, s1: int, r1: int, c1: int,
                              d2: Direction, s2: int, r2: int, c2: int)
    requires NetworkName(topo, d1, s1, r1, c1) == NetworkName(topo, d2, s2, r2, c2)
    ensures topo == Grid ==> r1 == r2 && c1 == c2
    ensures topo == Ring || topo == BinaryTree ==> d1 == d2 && s1 == s2
    ensures topo == Line ==> s1 == s2
  {
    match topo
    case Grid =>
      assert NetworkName(Grid, Uni, 0, r1, c1) == NetworkName(topo, d1, s1, r1, c1);
      assert NetworkName(Grid, Uni, 0, r2, c2) == NetworkName(topo, d2, s2, r2, c2);
      GridNameUnique(r1, c1, r2, c2);
    case Ring =>
      DirectedNameUnique("uni-ring", "bi-ring", d1, s1, d2, s2);
    case BinaryTree =>
      DirectedNameUnique("uni-tree", "bi-tree", d1, s1, d2, s2);
    case Line =>
      PrefixedNumberUnique("line", s1, s2);
  }
}
