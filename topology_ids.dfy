/** Facts about the identifier schemes of the topology generator: which
    identifiers are equal, where a tree position sits in level order, and which
    ordered pairs the grid's existingLinks list already holds. */
module TopologyIds {
  import opened Decimal
  import opened TopologySpec

  lemma LetterInjective(a: nat, b: nat)
    requires a <= MaxLetter
    ensures Letter(a) == Letter(b) <==> a == b
  {
  }

  /** Letter identifiers are equal only when letter and number are. */
  lemma LetterIdInjective(a: nat, y: nat, b: nat, z: nat)
    requires a <= MaxLetter
    ensures LetterId(a, y) == LetterId(b, z) <==> a == b && y == z
  {
    if LetterId(a, y) == LetterId(b, z) {
      assert LetterId(a, y)[0] == Letter(a) && LetterId(b, z)[0] == Letter(b);
      LetterInjective(a, b);
      assert NatToString(y) == LetterId(a, y)[1..] && NatToString(z) == LetterId(b, z)[1..];
      NatToStringInjective(y, z);
    }
  }

  /** Position y of level L is the non-root node with index 2^(L+1) - 2 + y. */
  lemma {:induction false} TreeIdAtLevel(level: nat, y: nat)
    requires y < Pow2(level + 1)
    ensures TreeLevel(Pow2(level + 1) - 2 + y) == level && TreePos(Pow2(level + 1) - 2 + y) == y
    ensures TreeIdAt(Pow2(level + 1) - 2 + y) == LetterId(level, y)
  {
    if level > 0 {
      var i := Pow2(level + 1) - 2 + y;
      assert Pow2(level + 1) == 2 * Pow2(level);
      assert ParentIndex(i) == Pow2(level) - 2 + y / 2;
      TreeIdAtLevel(level - 1, y / 2);
    }
  }

  /** Every non-root index lies on its level's range of indices. */
  lemma {:induction false} TreeLevelRange(i: nat)
    ensures Pow2(TreeLevel(i) + 1) - 2 <= i < Pow2(TreeLevel(i) + 2) - 2
    ensures TreePos(i) == i + 2 - Pow2(TreeLevel(i) + 1)
    decreases i
  {
    if i >= 2 {
      var p := ParentIndex(i);
      TreeLevelRange(p);
      assert Pow2(TreeLevel(i) + 1) == 2 * Pow2(TreeLevel(p) + 1);
      assert Pow2(TreeLevel(i) + 2) == 2 * Pow2(TreeLevel(p) + 2);
    }
  }

  /** Python's `ident in treeNodes` for the first n non-root nodes holds
      exactly when the position's level-order index is below n. */
  lemma NonRootMember(n: nat, level: nat, y: nat)
    requires level <= MaxLetter && y < Pow2(level + 1)
    ensures LetterId(level, y) in NonRootIds(n) <==> TreeIndex(level, y) < n
  {
    var ids := NonRootIds(n);
    if LetterId(level, y) in ids {
      var i :| 0 <= i < n && ids[i] == LetterId(level, y);
      NonRootIdsAt(n, i);
      LetterIdInjective(level, y, TreeLevel(i), TreePos(i));
      TreeLevelRange(i);
    }
    if Pow2(level + 1) - 2 + y < n {
      TreeIdAtLevel(level, y);
      NonRootIdsAt(n, Pow2(level + 1) - 2 + y);
    }
  }

  /** The nodes of a level, written after the full levels above it, continue
      the level order: the first y positions of level L are the non-root
      nodes TreeIndex(L, 0) .. TreeIndex(L, y) - 1. */
  lemma {:induction false} LevelSuffix(level: nat, y: nat)
    requires y <= Pow2(level + 1)
    ensures NonRootIds(TreeIndex(level, 0)) + LetterRow(level, y) == NonRootIds(TreeIndex(level, y))
  {
    if y > 0 {
      LevelSuffix(level, y - 1);
      TreeIdAtLevel(level, y - 1);
      Assoc(NonRootIds(TreeIndex(level, 0)), LetterRow(level, y - 1), [LetterId(level, y - 1)]);
    }
  }

  /** Full levels followed by the first y positions of the next level are
      the first TreeIndex(L, y) non-root nodes in level order. */
  lemma {:induction false} FullLevelsIds(level: nat, y: nat)
    requires y <= Pow2(level + 1)
    ensures FullLevels(level) + LetterRow(level, y) == NonRootIds(TreeIndex(level, y))
  {
    if level == 0 {
      LevelSuffix(0, y);
    } else {
      FullLevelsIds(level - 1, Pow2(level));
      assert TreeIndex(level - 1, Pow2(level)) == TreeIndex(level, 0);
      LevelSuffix(level, y);
      Assoc(FullLevels(level - 1), LetterRow(level - 1, Pow2(level)), LetterRow(level, y));
    }
  }

  /** The links to children k and k + 1, each when it is among the first n
      nodes. */
  lemma TwoChildren(blos: string, loss: string, name: nat -> string, k: nat, n: nat, uni: bool)
    requires k >= 2
    ensures ChildLinks(blos, loss, name, Min(k + 2, n), uni)
      == ChildLinks(blos, loss, name, Min(k, n), uni)
         + ((if k < n then [Link(blos, name(ParentIndex(k)), loss, name(k), uni)] else [])
            + (if k + 1 < n then [Link(blos, name(ParentIndex(k + 1)), loss, name(k + 1), uni)] else []))
  {
    var a := ChildLinks(blos, loss, name, Min(k, n), uni);
    var l0 := Link(blos, name(ParentIndex(k)), loss, name(k), uni);
    var l1 := Link(blos, name(ParentIndex(k + 1)), loss, name(k + 1), uni);
    if k + 1 < n {
      assert a + [l0] + [l1] == a + ([l0] + [l1]);
    } else if k < n {
      assert a + [l0] == a + ([l0] + []);
    } else {
      assert a == a + ([] + []);
    }
  }

  /** The links of parent (L, p), whose first child has index k, are the
      child links k and k + 1 in level order. */
  lemma ParentLinksStep(blos: string, loss: string, name: nat -> string, n: nat, level: nat, p: nat, k: nat, k2: nat, uni: bool)
    requires p < Pow2(level + 1) && k == TreeIndex(level + 1, 2 * p) && k2 == k + 2
    ensures ChildLinks(blos, loss, name, Min(k, n), uni) + ParentLinks(blos, loss, name, n, level, p, uni)
         == ChildLinks(blos, loss, name, Min(k2, n), uni)
  {
    assert Pow2(level + 2) == 2 * Pow2(level + 1);
    assert ParentIndex(k) == TreeIndex(level, p) && ParentIndex(k + 1) == TreeIndex(level, p);
    assert TreeIndex(level + 1, 2 * p + 1) == k + 1;
    TwoChildren(blos, loss, name, k, n, uni);
  }

  /** The links of the first y parents of level L, written after the child
      links of the levels above (those before index k0), continue the child
      links in level order up to index k. */
  lemma {:induction false} LevelLinksSuffix(blos: string, loss: string, name: nat -> string, n: nat, level: nat, y: nat, k0: nat, k: nat, uni: bool)
    requires y <= Pow2(level + 1) && k0 == TreeIndex(level + 1, 0) && k == k0 + 2 * y
    ensures ChildLinks(blos, loss, name, Min(k0, n), uni) + LevelLinks(blos, loss, name, n, level, y, uni)
         == ChildLinks(blos, loss, name, Min(k, n), uni)
  {
    var a := ChildLinks(blos, loss, name, Min(k0, n), uni);
    if y > 0 {
      var p, km := y - 1, k - 2;
      var b := LevelLinks(blos, loss, name, n, level, p, uni);
      var c := ParentLinks(blos, loss, name, n, level, p, uni);
      LevelLinksSuffix(blos, loss, name, n, level, p, k0, km, uni);
      ParentLinksStep(blos, loss, name, n, level, p, km, k, uni);
      Assoc(a, b, c);
      calc {
        a + LevelLinks(blos, loss, name, n, level, y, uni);
        a + (b + c);
        a + b + c;
        ChildLinks(blos, loss, name, Min(km, n), uni) + c;
      }
    } else {
      assert k == k0;
      assert a + LevelLinks(blos, loss, name, n, level, y, uni) == a + [];
    }
  }

  /** The links of full levels followed by those of the first y parents of
      the next level are the child links in level order up to index k, the
      first child of parent y. */
  lemma {:induction false} FullLevelLinksChildren(blos: string, loss: string, name: nat -> string, n: nat, level: nat, y: nat, k: nat, uni: bool)
    requires y <= Pow2(level + 1) && k == TreeIndex(level + 1, 0) + 2 * y
    ensures FullLevelLinks(blos, loss, name, n, level, uni) + LevelLinks(blos, loss, name, n, level, y, uni)
         == ChildLinks(blos, loss, name, Min(k, n), uni)
  {
    var k0 := TreeIndex(level + 1, 0);
    if level == 0 {
      assert Min(k0, n) <= 2;
      LevelLinksSuffix(blos, loss, name, n, 0, y, k0, k, uni);
    } else {
      assert Pow2(level + 1) == 2 * Pow2(level);
      FullLevelLinksChildren(blos, loss, name, n, level - 1, Pow2(level), k0, uni);
      LevelLinksSuffix(blos, loss, name, n, level, y, k0, k, uni);
      Assoc(FullLevelLinks(blos, loss, name, n, level - 1, uni), LevelLinks(blos, loss, name, n, level - 1, Pow2(level), uni),
            LevelLinks(blos, loss, name, n, level, y, uni));
    }
  }

  /** The right-link pair of node (x, y) is not among the pairs of the first
      n right links of row a, when row a comes before row x or n <= y. */
  lemma {:induction false} RowPairsExclude(blos: string, loss: string, a: nat, n: nat, x: nat, y: nat)
    requires a <= MaxLetter && x <= MaxLetter
    requires a != x || n <= y
    ensures (LetterId(x, y), LetterId(x, y + 1)) !in PairsOf(GridRowLinks(blos, loss, a, n))
  {
    if n > 0 {
      var ls := GridRowLinks(blos, loss, a, n);
      assert ls[..n - 1] == GridRowLinks(blos, loss, a, n - 1);
      RowPairsExclude(blos, loss, a, n - 1, x, y);
      LetterIdInjective(x, y, a, n - 1);
      LetterIdInjective(x, y + 1, a, n - 1);
    }
  }

  /** ... nor among the pairs of the first r rows, for r <= x. */
  lemma {:induction false} GridPairsExclude(blos: string, loss: string, r: nat, cols: nat, x: nat, y: nat)
    requires r <= x <= MaxLetter
    ensures (LetterId(x, y), LetterId(x, y + 1)) !in PairsOf(GridLinks(blos, loss, r, cols))
  {
    if r > 0 {
      var last := r - 1;
      var above, row := GridLinks(blos, loss, last, cols), GridRowLinks(blos, loss, last, cols);
      assert GridLinks(blos, loss, r, cols) == above + row;
      PairsOfAppend(above, row);
      GridPairsExclude(blos, loss, last, cols, x, y);
      RowPairsExclude(blos, loss, last, cols, x, y);
    } else {
      assert PairsOf(GridLinks(blos, loss, r, cols)) == [];
    }
  }

}
