/** What the topology generator (mac_topology_gen.py) writes, as functions:
    node identifiers, links, the network name and the lines of the XML file and
    of the cleanup script. The generator class in TopologyGen is proved to
    produce exactly these. */
module TopologySpec {
  import opened Decimal

  datatype Topo = Ring | Line | BinaryTree | Grid
  datatype Direction = Uni | Bi

  /** One `<link .../>` entry. `uni` is the attribute written as "true" or
      "false"; the two loss values are passed through as given. */
  datatype Link = Link(broadcastLoss: string, fromNode: string, loss: string, toNode: string, uni: bool)

  /** The `uni` attribute the generator derives from the direction flag. */
  function UniOf(dire: Direction): bool {
    dire == Uni
  }

  /** Number of iterations of Python's range(0, n). */
  function RangeLen(n: int): nat {
    if n > 0 then n else 0
  }

  /** Regrouping a concatenation, stated once so that the proofs about the
      generator's growing lists need not rediscover it. */
  lemma Assoc<T>(a: seq<T>, b: seq<T>, c: seq<T>)
    ensures a + b + c == a + (b + c)
  {
  }

  // ---------------------------------------------------------------------------
  // Identifiers

  /** Largest k for which chr(97 + k) lies below the surrogate block. */
  const MaxLetter: nat := 0xD7FF - 97

  /** chr(97 + k): 'a' for 0, 'b' for 1, ... Past MaxLetter (a tree of more
      than 2^55199 nodes) the Python program's text cannot be written, and the
      model puts U+FFFD there. */
  function Letter(k: nat): (c: char)
    ensures k <= MaxLetter ==> c as int == 97 + k
  {
    if k <= MaxLetter then (97 + k) as char else '\U{FFFD}'
  }

  /** str(chr(97 + k)) + str(n): a grid node (row letter, column number, as
      in "b3") and a non-root tree node (level letter, position) alike. */
  function LetterId(k: nat, n: nat): string {
    [Letter(k)] + NatToString(n)
  }

  /** "0", "1", ..., str(n - 1): the nodes of a ring or a line. */
  function NumberIds(n: nat): (ids: seq<string>)
    ensures |ids| == n
  {
    if n == 0 then [] else NumberIds(n - 1) + [NatToString(n - 1)]
  }

  /** The identifiers with letter r and numbers 0 .. n-1: row r of a grid with
      n columns, or the first n positions of tree level r. */
  function LetterRow(r: nat, n: nat): (ids: seq<string>)
    ensures |ids| == n
  {
    if n == 0 then [] else LetterRow(r, n - 1) + [LetterId(r, n - 1)]
  }

  lemma {:induction false} LetterRowAt(r: nat, n: nat, c: nat)
    requires c < n
    ensures LetterRow(r, n)[c] == LetterId(r, c)
  {
    if c < n - 1 {
      LetterRowAt(r, n - 1, c);
    }
  }

  /** All grid nodes in row-major order. */
  function GridIds(rows: nat, cols: nat): (ids: seq<string>)
    ensures |ids| == rows * cols
  {
    if rows == 0 then []
    else
      assert rows * cols == (rows - 1) * cols + cols;
      GridIds(rows - 1, cols) + LetterRow(rows - 1, cols)
  }

  /** Node (r, c) sits at position r * cols + c. */
  lemma {:induction false} GridIdsAt(rows: nat, cols: nat, r: nat, c: nat)
    requires r < rows && c < cols
    ensures r * cols + c < rows * cols && GridIds(rows, cols)[r * cols + c] == LetterId(r, c)
  {
    RowMajorIndex(r, c, rows, cols);
    assert rows * cols == (rows - 1) * cols + cols;
    if r < rows - 1 {
      GridIdsAt(rows - 1, cols, r, c);
      RowMajorIndex(r, c, rows - 1, cols);
    } else {
      LetterRowAt(r, cols, c);
    }
  }

  lemma RowMajorIndex(r: nat, c: nat, rows: nat, cols: nat)
    requires r < rows && c < cols
    ensures r * cols + c < rows * cols
  {
    var d: nat := rows - r - 1;
    assert rows == r + 1 + d;
    assert (r + 1 + d) * cols == r * cols + cols + d * cols;
  }

  function Pow2(k: nat): (p: nat)
    ensures p >= 1
  {
    if k == 0 then 1 else 2 * Pow2(k - 1)
  }

  /** Integer floor of log2(n). */
  function Log2Floor(n: nat): (k: nat)
    requires n >= 1
    ensures Pow2(k) <= n < Pow2(k + 1)
  {
    if n == 1 then 0 else 1 + Log2Floor(n / 2)
  }

  /** int(math.log(size + 1, 2)), taken as the exact floor of log2(size + 1). */
  function Depth(size: nat): nat {
    Log2Floor(size + 1)
  }

  /** Tree sizes whose level letters all lie below the surrogate block, so
      that the model's letters are Python's. */
  predicate TreeSizeOk(size: int) {
    Depth(RangeLen(size)) <= MaxLetter + 1
  }

  /** Level-order index of the parent of non-root node c, for c >= 2: the
      nodes 0 and 1 ("a0", "a1") are the root's children, and the children
      of node p are 2p + 2 and 2p + 3. */
  function ParentIndex(c: nat): nat
    requires c >= 2
  {
    c / 2 - 1
  }

  /** Level of the non-root node with level-order index i (0 for "a"). */
  function TreeLevel(i: nat): nat
  {
    if i < 2 then 0 else 1 + TreeLevel(ParentIndex(i))
  }

  /** Position of the non-root node i within its level: a left child is
      twice its parent's position, a right child one more. */
  function TreePos(i: nat): nat
  {
    if i < 2 then i else 2 * TreePos(ParentIndex(i)) + i % 2
  }

  /** Level-order index of position pos of level `level`: levels 0 .. L-1
      hold 2 + 4 + ... + 2^L = 2^(L+1) - 2 nodes. */
  function TreeIndex(level: nat, pos: nat): nat {
    Pow2(level + 1) - 2 + pos
  }

  /** The i-th non-root tree node in level order. */
  function TreeIdAt(i: nat): string
  {
    LetterId(TreeLevel(i), TreePos(i))
  }

  /** Number of non-root nodes of a tree of the given size. */
  function TreeCount(size: int): nat {
    if size >= 1 then size - 1 else 0
  }

  /** The first n non-root nodes in level order. */
  function NonRootIds(n: nat): (ids: seq<string>)
    ensures |ids| == n
  {
    if n == 0 then []
    else
      NonRootIds(n - 1) + [TreeIdAt(n - 1)]
  }

  /** The node with level-order index i. */
  lemma {:induction false} NonRootIdsAt(n: nat, i: nat)
    requires i < n
    ensures NonRootIds(n)[i] == TreeIdAt(i)
  {
    if i < n - 1 {
      NonRootIdsAt(n - 1, i);
    }
  }

  /** The positions of the levels 0 .. L-1, level by level: the nodes the
      tree branch writes once those levels are full. */
  function FullLevels(level: nat): seq<string> {
    if level == 0 then [] else FullLevels(level - 1) + LetterRow(level - 1, Pow2(level))
  }

  /** The nodes of a binary tree: "root", then the non-root nodes. */
  function TreeIds(size: int): (ids: seq<string>)
    ensures |ids| == 1 + TreeCount(size)
  {
    ["root"] + NonRootIds(TreeCount(size))
  }

  lemma Pow2Monotone(a: nat, b: nat)
    ensures a <= b ==> Pow2(a) <= Pow2(b)
    decreases b
  {
    if a < b { Pow2Monotone(a, b - 1); }
  }

  lemma Log2FloorMonotone(a: nat, b: nat)
    requires 1 <= a <= b
    ensures Log2Floor(a) <= Log2Floor(b)
  {
    Pow2Monotone(Log2Floor(b) + 1, Log2Floor(a));
  }

  /** Log2Floor(n) is the one k with 2^k <= n < 2^(k+1). */
  lemma Log2FloorUnique(n: nat, k: nat)
    requires n >= 1 && Pow2(k) <= n < Pow2(k + 1)
    ensures Log2Floor(n) == k
  {
    Pow2Monotone(Log2Floor(n) + 1, k);
    Pow2Monotone(k + 1, Log2Floor(n));
  }

  /** Nodes of any topology, in the order generateNodes writes them. */
  function TopologyNodes(topo: Topo, size: int, rows: nat, cols: int): seq<string>
  {
    match topo
    case Grid => GridIds(rows, RangeLen(cols))
    case Ring => NumberIds(RangeLen(size))
    case Line => NumberIds(RangeLen(size))
    case BinaryTree => TreeIds(size)
  }

  // ---------------------------------------------------------------------------
  // Links

  /** The links of a ring with the given size, for x in range(0, k). */
  function RingLinksUpTo(blos: string, loss: string, k: nat, size: int, uni: bool): (ls: seq<Link>)
    requires k <= size
    ensures |ls| == k
  {
    if k == 0 then []
    else
      RingLinksUpTo(blos, loss, k - 1, size, uni)
        + [Link(blos, NatToString(k - 1), loss, NatToString(if k == size then 0 else k), uni)]
  }

  function RingLinks(blos: string, loss: string, size: int, uni: bool): seq<Link> {
    RingLinksUpTo(blos, loss, RangeLen(size), RangeLen(size), uni)
  }

  /** Links x -> x+1 for x in range(0, k). */
  function LineLinksUpTo(blos: string, loss: string, k: nat, uni: bool): (ls: seq<Link>)
    ensures |ls| == k
  {
    if k == 0 then [] else LineLinksUpTo(blos, loss, k - 1, uni) + [Link(blos, NatToString(k - 1), loss, NatToString(k), uni)]
  }

  function LineLinks(blos: string, loss: string, size: int, uni: bool): seq<Link> {
    LineLinksUpTo(blos, loss, RangeLen(size - 1), uni)
  }

  /** The only grid link the generator emits for node (r, y): to (r, y + 1),
      always with uni="false". */
  function RightLink(blos: string, loss: string, r: nat, y: nat): Link
  {
    Link(blos, LetterId(r, y), loss, LetterId(r, y + 1), false)
  }

  lemma {:induction false} GridRowLinksAt(blos: string, loss: string, r: nat, n: nat, y: nat)
    requires y < n
    ensures GridRowLinks(blos, loss, r, n)[y] == RightLink(blos, loss, r, y)
  {
    if y < n - 1 {
      GridRowLinksAt(blos, loss, r, n - 1, y);
    }
  }

  function GridRowLinks(blos: string, loss: string, r: nat, n: nat): (ls: seq<Link>)
    ensures |ls| == n
  {
    if n == 0 then [] else GridRowLinks(blos, loss, r, n - 1) + [RightLink(blos, loss, r, n - 1)]
  }

  /** The grid links as the generator emits them, row by row. */
  function GridLinks(blos: string, loss: string, rows: nat, cols: nat): (ls: seq<Link>)
    ensures |ls| == rows * cols
  {
    if rows == 0 then []
    else
      assert rows * cols == (rows - 1) * cols + cols;
      GridLinks(blos, loss, rows - 1, cols) + GridRowLinks(blos, loss, rows - 1, cols)
  }

  /** The link written for node (r, y) sits at position r * cols + y. */
  lemma {:induction false} GridLinksAt(blos: string, loss: string, rows: nat, cols: nat, r: nat, y: nat)
    requires r < rows && y < cols
    ensures r * cols + y < rows * cols && GridLinks(blos, loss, rows, cols)[r * cols + y] == RightLink(blos, loss, r, y)
  {
    RowMajorIndex(r, y, rows, cols);
    assert rows * cols == (rows - 1) * cols + cols;
    if r < rows - 1 {
      GridLinksAt(blos, loss, rows - 1, cols, r, y);
      RowMajorIndex(r, y, rows - 1, cols);
    } else {
      GridRowLinksAt(blos, loss, r, cols, y);
    }
  }

  /** What addNeighbor appends to existingLinks for one link: the ordered
      pair, and its reverse when the link is bidirectional. */
  function LinkPairs(l: Link): (ps: seq<(string, string)>)
    ensures |ps| == if l.uni then 1 else 2
    ensures ps[0] == (l.fromNode, l.toNode)
    ensures !l.uni ==> ps[1] == (l.toNode, l.fromNode)
  {
    [(l.fromNode, l.toNode)] + (if l.uni then [] else [(l.toNode, l.fromNode)])
  }

  /** existingLinks after addNeighbor has written the given links in order. */
  function PairsOf(ls: seq<Link>): seq<(string, string)> {
    if ls == [] then [] else PairsOf(ls[..|ls| - 1]) + LinkPairs(ls[|ls| - 1])
  }

  lemma {:induction false} PairsOfAppend(a: seq<Link>, b: seq<Link>)
    ensures PairsOf(a + b) == PairsOf(a) + PairsOf(b)
    decreases |b|
  {
    if b != [] {
      assert (a + b)[..|a + b| - 1] == a + b[..|b| - 1];
      PairsOfAppend(a, b[..|b| - 1]);
    } else {
      assert a + b == a;
    }
  }

  /** Recording one more link appends its pairs. */
  lemma PairsOfSnoc(ls: seq<Link>, l: Link)
    ensures PairsOf(ls + [l]) == PairsOf(ls) + LinkPairs(l)
  {
    assert (ls + [l])[..|ls|] == ls;
  }

  /** The same, with the pairs written out. */
  lemma PairsOfLink(ls: seq<Link>, l: Link)
    ensures PairsOf(ls + [l]) == PairsOf(ls) + [(l.fromNode, l.toNode)]
                                 + (if l.uni then [] else [(l.toNode, l.fromNode)])
  {
    PairsOfSnoc(ls, l);
    assert LinkPairs(l) == [(l.fromNode, l.toNode)] + (if l.uni then [] else [(l.toNode, l.fromNode)]);
  }

  /** root -> a1 and root -> a2, as the generator writes them. */
  function RootLinks(blos: string, loss: string, size: int, uni: bool): seq<Link> {
    (if size >= 2 then [Link(blos, "root", loss, "a1", uni)] else [])
      + (if size >= 3 then [Link(blos, "root", loss, "a2", uni)] else [])
  }

  /** Parent -> child links to the non-root nodes 2 .. k-1 (levels "b" and
      below), in level order of the child, the node with level-order index i
      being called name(i). */
  function ChildLinks(blos: string, loss: string, name: nat -> string, k: nat, uni: bool): (ls: seq<Link>)
    ensures |ls| == if k >= 2 then k - 2 else 0
  {
    if k <= 2 then []
    else
      ChildLinks(blos, loss, name, k - 1, uni) + [Link(blos, name(ParentIndex(k - 1)), loss, name(k - 1), uni)]
  }

  /** The j-th child link goes from the parent of node j + 2 to node j + 2. */
  lemma {:induction false} ChildLinksAt(blos: string, loss: string, name: nat -> string, k: nat, uni: bool, j: nat)
    requires j + 2 < k
    ensures ChildLinks(blos, loss, name, k, uni)[j] == Link(blos, name(ParentIndex(j + 2)), loss, name(j + 2), uni)
  {
    if j + 3 < k {
      ChildLinksAt(blos, loss, name, k - 1, uni, j);
    }
  }

  /** The parent -> child links of the generator's tree, up to node k - 1. */
  function TreeChildLinks(blos: string, loss: string, k: nat, uni: bool): seq<Link> {
    ChildLinks(blos, loss, TreeIdAt, k, uni)
  }

  function Min(a: nat, b: nat): nat {
    if a <= b then a else b
  }

  /** What the tree block writes for parent (level, p): the link to its left
      child (level + 1, 2p), then to its right child (level + 1, 2p + 1), each
      only when that child is one of the first n non-root nodes. */
  function ParentLinks(blos: string, loss: string, name: nat -> string, n: nat, level: nat, p: nat, uni: bool): seq<Link> {
    (if TreeIndex(level + 1, 2 * p) < n
     then [Link(blos, name(TreeIndex(level, p)), loss, name(TreeIndex(level + 1, 2 * p)), uni)] else [])
      + (if TreeIndex(level + 1, 2 * p + 1) < n
         then [Link(blos, name(TreeIndex(level, p)), loss, name(TreeIndex(level + 1, 2 * p + 1)), uni)] else [])
  }

  /** What the tree block writes for the parents 0 .. m-1 of one level. */
  function LevelLinks(blos: string, loss: string, name: nat -> string, n: nat, level: nat, m: nat, uni: bool): seq<Link> {
    if m == 0 then []
    else LevelLinks(blos, loss, name, n, level, m - 1, uni) + ParentLinks(blos, loss, name, n, level, m - 1, uni)
  }

  /** One more parent of a level adds that parent's child links at the end. */
  lemma LevelLinksSnoc(blos: string, loss: string, name: nat -> string, n: nat, level: nat, m: nat, uni: bool)
    ensures LevelLinks(blos, loss, name, n, level, m + 1, uni)
         == LevelLinks(blos, loss, name, n, level, m, uni) + ParentLinks(blos, loss, name, n, level, m, uni)
  {
  }

  /** What the tree block writes for all parents of the levels 0 .. L-1. */
  function FullLevelLinks(blos: string, loss: string, name: nat -> string, n: nat, level: nat, uni: bool): seq<Link> {
    if level == 0 then []
    else FullLevelLinks(blos, loss, name, n, level - 1, uni) + LevelLinks(blos, loss, name, n, level - 1, Pow2(level), uni)
  }

  /** The tree links as the generator emits them. */
  function TreeLinks(blos: string, loss: string, size: int, uni: bool): seq<Link>
  {
    RootLinks(blos, loss, size, uni) + TreeChildLinks(blos, loss, TreeCount(size), uni)
  }

  /** Links of any topology, in the order the generator writes them. */
  function TopologyLinks(topo: Topo, dire: Direction, blos: string, loss: string, size: int, rows: nat, cols: int): seq<Link>
  {
    match topo
    case Grid => GridLinks(blos, loss, rows, RangeLen(cols))
    case Ring => RingLinks(blos, loss, size, UniOf(dire))
    case Line => LineLinks(blos, loss, size, UniOf(dire))
    case BinaryTree => TreeLinks(blos, loss, size, UniOf(dire))
  }

  // ---------------------------------------------------------------------------
  // Names and output text

  /** The network name, which is also the base of both file names. */
  function NetworkName(topo: Topo, dire: Direction, size: int, rows: int, cols: int): string {
    match topo
    case Grid => IntToString(rows * cols) + "grid" + IntToString(rows) + "x" + IntToString(cols)
    case Ring => (if dire == Uni then "uni-ring" else "bi-ring") + IntToString(size)
    case BinaryTree => (if dire == Uni then "uni-tree" else "bi-tree") + IntToString(size)
    case Line => "line" + IntToString(size)
  }

  function Description(topo: Topo, dire: Direction, size: int, rows: int, cols: int): string {
    match topo
    case Grid => IntToString(rows * cols) + " nodes in a regular " + IntToString(rows) + "x" + IntToString(cols) + " grid"
    case Ring =>
      IntToString(size) + (if dire == Uni then " nodes in a uni-directional ring" else " nodes in a bi-directional ring")
    case BinaryTree =>
      IntToString(size)
        + (if dire == Uni then " nodes in a uni-directional binary-tree (root down)" else " nodes in a bi-directional binary-tree")
    case Line => IntToString(size) + " nodes in a line"
  }

  function XmlFileName(name: string): string {
    name + ".xml"
  }

  function CleanupFileName(name: string): string {
    name + "_cleanup.sh"
  }

  function Quote(s: string): string {
    "\"" + s + "\""
  }

  function NodeLine(binary: string, name: string): string {
    "            <node binary=" + Quote(binary) + " name=" + Quote(name) + " type=\"riot_native\"/>"
  }

  function LinkLine(l: Link): string {
    "            <link broadcast_loss=" + Quote(l.broadcastLoss) + " from_if=\"wlan0\" from_node=" + Quote(l.fromNode)
      + " loss=" + Quote(l.loss) + " to_if=\"wlan0\" to_node=" + Quote(l.toNode)
      + " uni=" + Quote(if l.uni then "true" else "false") + "/>"
  }

  /** The fixed opening of the XML file, up to and including `<nodes>`. */
  function XmlHeader(description: string, name: string): (lines: seq<string>)
    ensures |lines| == 11
  {
    [ "<?xml version=\"1.0\" encoding=\"UTF-8\"?>",
      "<topology version=\"1\">",
      "    <net description=" + Quote(description) + " name=" + Quote(name) + ">",
      "        <nodeTypes>",
      "            <nodeType name=\"riot_native\">",
      "                <interfaces>",
      "                    <interface name=\"wlan0\" type=\"802.11bg\"/>",
      "                </interfaces>",
      "            </nodeType>",
      "        </nodeTypes>",
      "        <nodes>" ]
  }

  const XmlMiddle: seq<string> := ["        </nodes>", "        <links>"]

  /** The closing lines; the last one is written without a newline. */
  const XmlFooter: seq<string> := ["        </links>", "    </net>", "</topology>"]

  function NodeLines(binary: string, names: seq<string>): (lines: seq<string>)
    ensures |lines| == |names|
  {
    if names == [] then [] else NodeLines(binary, names[..|names| - 1]) + [NodeLine(binary, names[|names| - 1])]
  }

  function LinkLines(links: seq<Link>): (lines: seq<string>)
    ensures |lines| == |links|
  {
    if links == [] then [] else LinkLines(links[..|links| - 1]) + [LinkLine(links[|links| - 1])]
  }

  /** The XML file, line by line. */
  function XmlDocument(description: string, name: string, binary: string, nodes: seq<string>, links: seq<Link>): seq<string> {
    XmlHeader(description, name) + NodeLines(binary, nodes) + XmlMiddle + LinkLines(links) + XmlFooter
  }

  function DeleteLine(name: string, id: string): string {
    "sudo ip link delete " + name + "_" + id
  }

  function DeleteLines(name: string, ids: seq<string>): (lines: seq<string>)
    ensures |lines| == |ids|
  {
    if ids == [] then [] else DeleteLines(name, ids[..|ids| - 1]) + [DeleteLine(name, ids[|ids| - 1])]
  }

  lemma DeleteLinesSnoc(name: string, ids: seq<string>, id: string)
    ensures DeleteLines(name, ids + [id]) == DeleteLines(name, ids) + [DeleteLine(name, id)]
  {
    assert (ids + [id])[..|ids|] == ids;
  }

  lemma {:induction false} DeleteLinesAppend(name: string, a: seq<string>, b: seq<string>)
    ensures DeleteLines(name, a + b) == DeleteLines(name, a) + DeleteLines(name, b)
    decreases |b|
  {
    if b == [] {
      assert a + b == a;
    } else {
      var c := b[..|b| - 1];
      assert a + b == (a + c) + [b[|b| - 1]] && b == c + [b[|b| - 1]];
      DeleteLinesSnoc(name, a + c, b[|b| - 1]);
      DeleteLinesSnoc(name, c, b[|b| - 1]);
      DeleteLinesAppend(name, a, c);
    }
  }

  /** The cleanup script, line by line: delete the network's own link, then one
      link per node, then undefine the network. */
  function CleanupScript(name: string, ids: seq<string>): seq<string> {
    ["sudo ip link delete " + name] + DeleteLines(name, ids) + ["make desvirt-undefine TOPO=" + name]
  }

  // ---------------------------------------------------------------------------
  // The whole run

  /** The parsed command line: --t, --d, --s, --r, --c, --b, --l and --e. */
  datatype Params = Params(topo: Topo, dire: Direction, size: int, rows: int, cols: int,
                           blos: string, loss: string, binary: string)

  /** What a run writes: the XML file and the cleanup script, with their names. */
  datatype Output = Output(xmlName: string, xml: seq<string>, cleanupName: string, cleanup: seq<string>)

  /** The only way a run with valid arguments fails: math.log of a
      non-positive number, for a binary tree with --s below 0. */
  datatype Error = MathDomainError

  datatype Result<T> = Success(value: T) | Failure(error: Error)

  function Expected(p: Params): Output
    requires p.rows >= 0
  {
    var name := NetworkName(p.topo, p.dire, p.size, p.rows, p.cols);
    var nodes := TopologyNodes(p.topo, p.size, p.rows, p.cols);
    var links := TopologyLinks(p.topo, p.dire, p.blos, p.loss, p.size, p.rows, p.cols);
    Output(XmlFileName(name),
           XmlDocument(Description(p.topo, p.dire, p.size, p.rows, p.cols), name, p.binary, nodes, links),
           CleanupFileName(name),
           CleanupScript(name, nodes))
  }
}
