/** The loop of `CTree::insertFix` on the tree shape: its invariant, its guard,
    and what each of its cases (red uncle; black or absent uncle, with or
    without the inner rotation; parent on either side) does to the tree. */
module Fixup {
  import opened ByteOrder
  import opened TreeShape
  import opened SearchTree
  import opened RedBlack

  /** What holds at the head of the fixup loop with cursor `n`: the tree is
      balanced, the cursor is RED, it is the only RED node that may have a RED
      parent, and the root is BLACK unless the cursor is the root. */
  predicate Fixing(t: Tree, n: Ptr)
  {
    Distinct(t) && Balanced(t) && n in Ids(t) && ColorOf(t, n) == Red &&
    RedOkExcept(t, n) && (n == RootId(t) || RootColor(t) == Black)
  }

  /** The loop guard: the cursor is not the root and its parent is RED. A
      RED parent is a node of the tree. */
  predicate Guard(t: Tree, n: Ptr): (r: bool)
    ensures r ==> n != RootId(t) && ParentId(t, n) in Ids(t)
  {
    n != RootId(t) && ColorOf(t, ParentId(t, n)) == Red
  }

  /** Handle of the grandparent of `n`. */
  function Grand(t: Tree, n: Ptr): Ptr
  {
    ParentId(t, ParentId(t, n))
  }

  /** While the guard holds, the cursor has a RED parent, the parent is not the
      root, and the grandparent exists and is BLACK. */
  lemma Picture(t: Tree, n: Ptr)
    requires Fixing(t, n) && Guard(t, n)
    ensures var p := ParentId(t, n); var g := Grand(t, n); var s := Subtree(t, g);
      p in Ids(t) && p != RootId(t) && p != n && ColorOf(t, p) == Red &&
      g in Ids(t) && g != p && g != n && s.Node? && s.color == Black &&
      ((s.left.Node? && s.left.id == p && Subtree(t, p) == s.left) ||
       (s.right.Node? && s.right.id == p && Subtree(t, p) == s.right)) &&
      ((Subtree(t, p).left.Node? && Subtree(t, p).left.id == n && Subtree(t, n) == Subtree(t, p).left) ||
       (Subtree(t, p).right.Node? && Subtree(t, p).right.id == n && Subtree(t, n) == Subtree(t, p).right))
  {
    var p := ParentId(t, n);
    ParentFacts(t, n);
    SubtreeOfChild(t, p);
    assert Subtree(t, RootId(t)) == t;
    ParentFacts(t, p);
    var g := ParentId(t, p);
    SubtreeOfChild(t, g);
    RedParentBlack(t, n, p);
  }

  /** Red uncle: painting parent and uncle BLACK and the grandparent RED moves
      the cursor two levels up and keeps the invariant and the contents. */
  lemma RecolorCase(t: Tree, n: Ptr)
    requires Fixing(t, n) && Guard(t, n) && Ordered(t)
    requires Subtree(t, Grand(t, n)).Node?
    requires RootColor(Subtree(t, Grand(t, n)).left) == Red && RootColor(Subtree(t, Grand(t, n)).right) == Red
    ensures var g := Grand(t, n); var s := Subtree(t, g);
      g in Ids(t) && s.Node? && s.left.Node? && s.right.Node? &&
      var t' := Subst(t, g, Recolored(s));
      Fixing(t', g) && Ordered(t') && Content(t') == Content(t) && InOrder(t') == InOrder(t) &&
      Ids(t') == Ids(t) && Size(t') == Size(t) && RootId(t') == RootId(t) &&
      Size(Subtree(t, n)) < Size(Subtree(t', g)) <= Size(t')
  {
    Picture(t, n);
    var g := Grand(t, n);
    var s := Subtree(t, g);
    var s' := Recolored(s);
    SubtreeFacts(t, g);
    SubtreeColors(t, g, n);
    SubtreeOrdered(t, g);
    SubtreeFacts(t, n);
    assert Distinct(s.left) && Distinct(s.right) && Ordered(s.left) && Ordered(s.right);
    Repaint(s.left, Black);
    Repaint(s.right, Black);
    Repaint(s, Red);
    assert Distinct(s') && Ordered(s');
    RecolorStep(s, n);
    SubstFacts(t, g, s');
    LiftBlackHeight(t, g, s');
    LiftRed(t, g, s', n, g);
    SubstSearch(t, g, s');
    var t' := Subst(t, g, s');
    SubtreeFacts(t', g);
  }

  /** The tree after the inner step of a left-side pass: rotated left at the
      parent `p` when the cursor `n` is its right child, unchanged otherwise. */
  function InnerLeft(t: Tree, p: Ptr, n: Ptr): Tree
  {
    var ps := Subtree(t, p);
    if ps.Node? && ps.right.Node? && ps.right.id == n then Subst(t, p, RotateLeft(ps)) else t
  }

  /** Mirror of `InnerLeft`: rotated right at `p` when `n` is its left child. */
  function InnerRight(t: Tree, p: Ptr, n: Ptr): Tree
  {
    var ps := Subtree(t, p);
    if ps.Node? && ps.left.Node? && ps.left.id == n then Subst(t, p, RotateRight(ps)) else t
  }

  /** The tree after the outer step of a left-side pass at the grandparent `g`:
      its left child painted BLACK, `g` painted RED, then rotated right at `g`. */
  function OuterLeft(t: Tree, g: Ptr): Tree
    requires Subtree(t, g).Node? && Subtree(t, g).left.Node?
  {
    Subst(t, g, RotateRight(PaintedLeft(Subtree(t, g))))
  }

  /** Mirror of `OuterLeft`: right child BLACK, `g` RED, rotated left at `g`. */
  function OuterRight(t: Tree, g: Ptr): Tree
    requires Subtree(t, g).Node? && Subtree(t, g).right.Node?
  {
    Subst(t, g, RotateLeft(PaintedRight(Subtree(t, g))))
  }

  /** Black or absent uncle, cursor the left child of a left child: painting the
      parent BLACK and the grandparent RED and rotating right at the grandparent
      ends the loop with the invariant and the contents kept. */
  lemma OuterCaseLeft(t: Tree, n: Ptr)
    requires Fixing(t, n) && Guard(t, n) && Ordered(t)
    requires Subtree(t, Grand(t, n)).Node?
    requires var s := Subtree(t, Grand(t, n));
      RootColor(s.right) == Black && s.left.Node? && s.left.id == ParentId(t, n) &&
      s.left.left.Node? && s.left.left.id == n
    ensures var g := Grand(t, n); var s := Subtree(t, g);
      g in Ids(t) && s.Node? &&
      var t' := Subst(t, g, RotateRight(PaintedLeft(s)));
      Fixing(t', n) && !Guard(t', n) && Ordered(t') && Content(t') == Content(t) &&
      InOrder(t') == InOrder(t) && Ids(t') == Ids(t) && Size(t') == Size(t)
  {
    Picture(t, n);
    var g := Grand(t, n);
    var s := Subtree(t, g);
    var h := PaintedLeft(s);
    Repaint(s.left, Black);
    Repaint(s, Red);
    var f := RotateRight(h);
    SubtreeFacts(t, g);
    SubtreeColors(t, g, n);
    SubtreeOrdered(t, g);
    assert Distinct(s.left) && Distinct(s.right) && Ordered(s.left) && Ordered(s.right);
    assert Distinct(h) && Ordered(h);
    RotationsDistinct(h);
    OuterStepLeft(s, n);
    SubstFacts(t, g, f);
    LiftBlackHeight(t, g, f);
    ExceptIrrelevant(f, Null, n);
    LiftRed(t, g, f, n, n);
    RotateRightSearch(h);
    SubstSearch(t, g, f);
    var t' := Subst(t, g, f);
    SubstInside(t, g, f, n);
    assert Subtree(f, n) == s.left.left;
    assert ParentId(f, n) == f.id;
  }

  /** Black or absent uncle, cursor the right child of a right child (mirror of
      `OuterCaseLeft`). */
  lemma OuterCaseRight(t: Tree, n: Ptr)
    requires Fixing(t, n) && Guard(t, n) && Ordered(t)
    requires Subtree(t, Grand(t, n)).Node?
    requires var s := Subtree(t, Grand(t, n));
      RootColor(s.left) == Black && s.right.Node? && s.right.id == ParentId(t, n) &&
      s.right.right.Node? && s.right.right.id == n
    ensures var g := Grand(t, n); var s := Subtree(t, g);
      g in Ids(t) && s.Node? &&
      var t' := Subst(t, g, RotateLeft(PaintedRight(s)));
      Fixing(t', n) && !Guard(t', n) && Ordered(t') && Content(t') == Content(t) &&
      InOrder(t') == InOrder(t) && Ids(t') == Ids(t) && Size(t') == Size(t)
  {
    Picture(t, n);
    var g := Grand(t, n);
    var s := Subtree(t, g);
    var h := PaintedRight(s);
    Repaint(s.right, Black);
    Repaint(s, Red);
    var f := RotateLeft(h);
    SubtreeFacts(t, g);
    SubtreeColors(t, g, n);
    SubtreeOrdered(t, g);
    assert Distinct(s.left) && Distinct(s.right) && Ordered(s.left) && Ordered(s.right);
    assert Distinct(h) && Ordered(h);
    RotationsDistinct(h);
    OuterStepRight(s, n);
    SubstFacts(t, g, f);
    LiftBlackHeight(t, g, f);
    ExceptIrrelevant(f, Null, n);
    LiftRed(t, g, f, n, n);
    RotateLeftSearch(h);
    SubstSearch(t, g, f);
    var t' := Subst(t, g, f);
    SubstInside(t, g, f, n);
    assert Subtree(f, n) == s.right.right;
    assert ParentId(f, n) == f.id;
  }

  /** The inner rotation at the parent, seen from the grandparent: it replaces
      the grandparent's subtree, and keeps the contents and the order. */
  lemma InnerRewriteLeft(t: Tree, n: Ptr)
    requires Fixing(t, n) && Guard(t, n) && Ordered(t)
    requires Subtree(t, Grand(t, n)).Node?
    requires var s := Subtree(t, Grand(t, n));
      s.left.Node? && s.left.id == ParentId(t, n) && s.left.right.Node? && s.left.right.id == n
    ensures var p := ParentId(t, n); var g := Grand(t, n); var s := Subtree(t, g);
      var t' := Subst(t, p, RotateLeft(s.left));
      p in Ids(t) && g in Ids(t) && Subtree(t, p) == s.left && s.color == Black &&
      Subtree(t, n) == s.left.right &&
      t' == Subst(t, g, Node(Black, RotateLeft(s.left), g, s.key, s.val, s.right)) &&
      Ordered(t') && Content(t') == Content(t) && InOrder(t') == InOrder(t)
  {
    Picture(t, n);
    var p := ParentId(t, n);
    var g := Grand(t, n);
    var s := Subtree(t, g);
    var r := RotateLeft(s.left);
    SubtreeFacts(t, g);
    SubtreeOrdered(t, g);
    assert Distinct(s.right) && Ordered(s.left);
    SubstNested(t, g, p, r);
    SubstNotIn(s.right, p, r);
    RotateLeftSearch(s.left);
    SubstSearch(t, p, r);
  }

  /** Mirror of `InnerRewriteLeft`. */
  lemma InnerRewriteRight(t: Tree, n: Ptr)
    requires Fixing(t, n) && Guard(t, n) && Ordered(t)
    requires Subtree(t, Grand(t, n)).Node?
    requires var s := Subtree(t, Grand(t, n));
      s.right.Node? && s.right.id == ParentId(t, n) && s.right.left.Node? && s.right.left.id == n
    ensures var p := ParentId(t, n); var g := Grand(t, n); var s := Subtree(t, g);
      var t' := Subst(t, p, RotateRight(s.right));
      p in Ids(t) && g in Ids(t) && Subtree(t, p) == s.right && s.color == Black &&
      Subtree(t, n) == s.right.left &&
      t' == Subst(t, g, Node(Black, s.left, g, s.key, s.val, RotateRight(s.right))) &&
      Ordered(t') && Content(t') == Content(t) && InOrder(t') == InOrder(t)
  {
    Picture(t, n);
    var p := ParentId(t, n);
    var g := Grand(t, n);
    var s := Subtree(t, g);
    var r := RotateRight(s.right);
    SubtreeFacts(t, g);
    SubtreeOrdered(t, g);
    assert Distinct(s.left) && Ordered(s.right);
    SubstNested(t, g, p, r);
    SubstNotIn(s.left, p, r);
    RotateRightSearch(s.right);
    SubstSearch(t, p, r);
  }

  /** After the inner rotation the grandparent's new subtree `s1` has the old
      parent `p` as a RED grandchild under a RED child; the loop invariant holds
      with `p` as the cursor, and the guard still holds. */
  lemma InnerLift(t: Tree, n: Ptr, g: Ptr, s1: Tree, p: Ptr)
    requires Distinct(t) && Balanced(t) && RedOkExcept(t, n) && RootColor(t) == Black
    requires g in Ids(t) && n in Ids(Subtree(t, g)) && p in Ids(s1)
    requires Distinct(s1) && Ids(s1) == Ids(Subtree(t, g)) && s1.Node? && s1.id == g && s1.color == Black
    requires Balanced(s1) && BlackHeight(s1) == BlackHeight(Subtree(t, g)) && RedOkExcept(s1, p)
    requires p != s1.id && ColorOf(s1, p) == Red && ColorOf(s1, ParentId(s1, p)) == Red
    ensures var t' := Subst(t, g, s1);
      Fixing(t', p) && Guard(t', p) && Subtree(t', g) == s1 && ParentId(t', p) == ParentId(s1, p) &&
      Ids(t') == Ids(t) && Size(t') == Size(t)
  {
    SubtreeFacts(t, g);
    SubstFacts(t, g, s1);
    var t' := Subst(t, g, s1);
    assert Balanced(t') by {
      LiftBlackHeight(t, g, s1);
    }
    assert RedOkExcept(t', p) by {
      LiftRed(t, g, s1, n, p);
    }
    var q := ParentId(s1, p);
    ParentFacts(s1, p);
    SubstInside(t, g, s1, p);
    SubstInside(t, g, s1, q);
    assert ColorOf(t', p) == Red && ColorOf(t', q) == Red;
    if g != RootId(t) {
      ChildNotRoot(t, g);
    }
    DistinctSize(s1);
    DistinctSize(Subtree(t, g));
  }

  /** Black or absent uncle, cursor the right child of a left child: rotating
      left at the parent makes the old parent the cursor, now the left child of
      a left child, so that the outer case applies. */
  lemma InnerCaseLeft(t: Tree, n: Ptr)
    requires Fixing(t, n) && Guard(t, n) && Ordered(t)
    requires Subtree(t, Grand(t, n)).Node?
    requires var s := Subtree(t, Grand(t, n));
      RootColor(s.right) == Black && s.left.Node? && s.left.id == ParentId(t, n) &&
      s.left.right.Node? && s.left.right.id == n
    ensures var p := ParentId(t, n); var g := Grand(t, n);
      p in Ids(t) && Subtree(t, p).Node? && Subtree(t, p).right.Node? &&
      var t' := Subst(t, p, RotateLeft(Subtree(t, p)));
      Fixing(t', p) && Guard(t', p) && Ordered(t') && Content(t') == Content(t) &&
      InOrder(t') == InOrder(t) && Ids(t') == Ids(t) && Size(t') == Size(t) &&
      Grand(t', p) == g && Subtree(t', g).Node? &&
      RootColor(Subtree(t', g).right) == Black && Subtree(t', g).left.Node? &&
      Subtree(t', g).left.id == ParentId(t', p) &&
      Subtree(t', g).left.left.Node? && Subtree(t', g).left.left.id == p
  {
    InnerRewriteLeft(t, n);
    var p := ParentId(t, n);
    var g := Grand(t, n);
    var s := Subtree(t, g);
    var s1 := Node(Black, RotateLeft(s.left), g, s.key, s.val, s.right);
    SubtreeFacts(t, g);
    SubtreeColors(t, g, n);
    InnerStepLeft(s, n);
    assert p != g && p != n && p in Ids(s1.left.left) && p in Ids(s1.left) && p !in Ids(s1.right);
    assert RootId(s1.right) == Null || RootId(s1.right) in Ids(s1.right);
    assert Subtree(s1, p) == Subtree(s1.left, p) == Subtree(s1.left.left, p) == s1.left.left;
    assert ParentId(s1, p) == ParentId(s1.left, p) == s1.left.id;
    assert Subtree(s1, s1.left.id) == s1.left;
    InnerLift(t, n, g, s1, p);
    var t' := Subst(t, g, s1);
    assert ParentId(t', ParentId(t', p)) == g by {
      SubstInside(t, g, s1, s1.left.id);
    }
  }

  /** Black or absent uncle, cursor the left child of a right child (mirror of
      `InnerCaseLeft`). */
  lemma InnerCaseRight(t: Tree, n: Ptr)
    requires Fixing(t, n) && Guard(t, n) && Ordered(t)
    requires Subtree(t, Grand(t, n)).Node?
    requires var s := Subtree(t, Grand(t, n));
      RootColor(s.left) == Black && s.right.Node? && s.right.id == ParentId(t, n) &&
      s.right.left.Node? && s.right.left.id == n
    ensures var p := ParentId(t, n); var g := Grand(t, n);
      p in Ids(t) && Subtree(t, p).Node? && Subtree(t, p).left.Node? &&
      var t' := Subst(t, p, RotateRight(Subtree(t, p)));
      Fixing(t', p) && Guard(t', p) && Ordered(t') && Content(t') == Content(t) &&
      InOrder(t') == InOrder(t) && Ids(t') == Ids(t) && Size(t') == Size(t) &&
      Grand(t', p) == g && Subtree(t', g).Node? &&
      RootColor(Subtree(t', g).left) == Black && Subtree(t', g).right.Node? &&
      Subtree(t', g).right.id == ParentId(t', p) &&
      Subtree(t', g).right.right.Node? && Subtree(t', g).right.right.id == p
  {
    InnerRewriteRight(t, n);
    var p := ParentId(t, n);
    var g := Grand(t, n);
    var s := Subtree(t, g);
    var s1 := Node(Black, s.left, g, s.key, s.val, RotateRight(s.right));
    SubtreeFacts(t, g);
    SubtreeColors(t, g, n);
    InnerStepRight(s, n);
    assert p != g && p != n && p in Ids(s1.right.right) && p in Ids(s1.right) && p !in Ids(s1.left);
    assert RootId(s1.left) == Null || RootId(s1.left) in Ids(s1.left);
    assert Subtree(s1, p) == Subtree(s1.right, p) == Subtree(s1.right.right, p) == s1.right.right;
    assert ParentId(s1, p) == ParentId(s1.right, p) == s1.right.id;
    assert Subtree(s1, s1.right.id) == s1.right;
    InnerLift(t, n, g, s1, p);
    var t' := Subst(t, g, s1);
    assert ParentId(t', ParentId(t', p)) == g by {
      SubstInside(t, g, s1, s1.right.id);
    }
  }

  /** A fresh RED leaf attached below a non-empty red-black tree is a valid
      starting point for the loop. */
  lemma FixStart(t: Tree, key: Bytes, val: Bytes, id: nat)
    requires Distinct(t) && t.Node? && IsRedBlack(t) && key !in Keys(t) && id !in Ids(t)
    ensures Fixing(BstInsert(t, key, val, id), id)
  {
    BstInsertShape(t, key, val, id);
    BstInsertColors(t, key, val, id);
  }

  /** When the loop stops, painting the root BLACK leaves a red-black tree. */
  lemma FixDone(t: Tree, n: Ptr)
    requires Fixing(t, n) && !Guard(t, n)
    ensures t.Node? && IsRedBlack(t.(color := Black))
  {
    ExceptResolved(t, n);
    BlackenRoot(t);
  }
}
