/** The colour invariants of a red-black tree and the local facts behind the
    insertion fixup (`CTree::insertFix`): each fixup step rewrites the subtree of
    the cursor's grandparent, and the lifting lemmas carry what holds of that
    subtree over to the whole tree. */
module RedBlack {
  import opened ByteOrder
  import opened TreeShape
  import opened SearchTree

  /** Number of BLACK nodes on the leftmost path down to an absent child. */
  function BlackHeight(t: Tree): nat
  {
    match t
    case Leaf => 0
    case Node(c, l, _, _, _, _) => BlackHeight(l) + (if c == Black then 1 else 0)
  }

  /** Every path from a node down to an absent child passes through the same
      number of BLACK nodes. */
  predicate Balanced(t: Tree)
  {
    match t
    case Leaf => true
    case Node(_, l, _, _, _, r) => Balanced(l) && Balanced(r) && BlackHeight(l) == BlackHeight(r)
  }

  /** No RED node has a RED child, except that the child may be the node with
      handle `n` (the fixup cursor). With `n == Null` there is no exception. */
  predicate RedOkExcept(t: Tree, n: Ptr)
  {
    match t
    case Leaf => true
    case Node(c, l, _, _, _, r) =>
      (c == Red ==> (RootColor(l) == Red ==> RootId(l) == n) && (RootColor(r) == Red ==> RootId(r) == n)) &&
      RedOkExcept(l, n) && RedOkExcept(r, n)
  }

  /** No RED node has a RED parent. */
  predicate NoRedRed(t: Tree)
  {
    RedOkExcept(t, Null)
  }

  /** The three colour invariants: BLACK root, no RED node with a RED parent,
      equal black-height on every path. */
  predicate IsRedBlack(t: Tree)
  {
    RootColor(t) == Black && NoRedRed(t) && Balanced(t)
  }

  /** An exception for a handle that is not a child inside `t` allows nothing. */
  lemma {:induction false} ExceptIrrelevant(t: Tree, n: Ptr, m: Ptr)
    requires Distinct(t) && RedOkExcept(t, n)
    requires n !in Ids(t) || n == RootId(t)
    ensures RedOkExcept(t, m)
  {
    match t
    case Leaf =>
    case Node(c, l, h, _, _, r) =>
      ExceptIrrelevant(l, n, m);
      ExceptIrrelevant(r, n, m);
  }

  /** A RED node other than the excepted one has a BLACK parent. */
  lemma {:induction false} RedParentBlack(t: Tree, n: Ptr, y: Ptr)
    requires Distinct(t) && RedOkExcept(t, n) && y in Ids(t) && y != RootId(t) && y != n
    requires ColorOf(t, y) == Red
    ensures ColorOf(t, ParentId(t, y)) == Black
  {
    match t
    case Node(c, l, h, _, _, r) =>
      assert ParentId(t, y) == h ==> ColorOf(t, h) == c;
      if RootId(l) == y {
        assert l.Node? && y in Ids(l);
        assert Subtree(l, y) == l;
        assert Subtree(t, y) == l;
      } else if RootId(r) == y {
        assert r.Node? && y in Ids(r) && y !in Ids(l);
        assert Subtree(r, y) == r;
        assert Subtree(t, y) == r;
      } else if y in Ids(l) {
        ParentFacts(l, y);
        RedParentBlack(l, n, y);
      } else {
        ParentFacts(r, y);
        RedParentBlack(r, n, y);
      }
  }

  /** The colour invariants hold of every subtree. */
  lemma {:induction false} SubtreeColors(t: Tree, x: Ptr, n: Ptr)
    requires x in Ids(t)
    ensures Balanced(t) ==> Balanced(Subtree(t, x))
    ensures RedOkExcept(t, n) ==> RedOkExcept(Subtree(t, x), n)
  {
    match t
    case Node(_, l, h, _, _, r) =>
      if h != x {
        if x in Ids(l) {
          SubtreeColors(l, x, n);
        } else {
          SubtreeColors(r, x, n);
        }
      }
  }

  /** Replacing a subtree by a balanced one of the same black-height keeps the
      whole tree balanced, with the same black-height; the new root's colour may
      differ from the old one's. */
  lemma {:induction false} LiftBlackHeight(t: Tree, x: Ptr, s: Tree)
    requires Distinct(t) && x in Ids(t) && Balanced(t) && Balanced(s)
    requires BlackHeight(s) == BlackHeight(Subtree(t, x))
    ensures Balanced(Subst(t, x, s))
    ensures BlackHeight(Subst(t, x, s)) == BlackHeight(t)
  {
    match t
    case Node(c, l, h, _, _, r) =>
      if h != x {
        if x in Ids(l) {
          LiftBlackHeight(l, x, s);
          SubstNotIn(r, x, s);
        } else {
          LiftBlackHeight(r, x, s);
          SubstNotIn(l, x, s);
        }
      }
  }

  /** Replacing a subtree that contains the only RED-RED violation by one whose
      only violation is at `m` leaves `m` as the only violation of the whole tree,
      provided a RED new root under a RED parent is `m` itself. */
  lemma {:induction false} LiftRed(t: Tree, x: Ptr, s: Tree, n: Ptr, m: Ptr)
    requires Distinct(t) && x in Ids(t) && RedOkExcept(t, n) && n in Ids(Subtree(t, x))
    requires s.Node? && RedOkExcept(s, m)
    requires s.color == Red && x != RootId(t) && ColorOf(t, ParentId(t, x)) == Red ==> s.id == m
    ensures RedOkExcept(Subst(t, x, s), m)
  {
    match t
    case Node(c, l, h, _, _, r) =>
      if h != x {
        if x in Ids(l) {
          SubstNotIn(r, x, s);
          SubtreeFacts(l, x);
          ExceptIrrelevant(r, n, m);
          if RootId(l) != x {
            ChildNotRootOf(l, x);
            ParentFacts(l, x);
          }
          LiftRed(l, x, s, n, m);
        } else {
          SubstNotIn(l, x, s);
          SubtreeFacts(r, x);
          ExceptIrrelevant(l, n, m);
          if RootId(r) != x {
            ChildNotRootOf(r, x);
            ParentFacts(r, x);
          }
          LiftRed(r, x, s, n, m);
        }
      }
  }

  /** The root of `t` is not inside the subtree of any other node. */
  lemma ChildNotRootOf(t: Tree, x: Ptr)
    requires Distinct(t) && x in Ids(t) && x != RootId(t)
    ensures RootId(t) !in Ids(Subtree(t, x))
  {
    ChildNotRoot(t, x);
  }

  /** When the loop stops (the cursor is the root, or its parent is BLACK) the
      one allowed violation is not a violation at all. */
  lemma {:induction false} ExceptResolved(t: Tree, n: Ptr)
    requires Distinct(t) && RedOkExcept(t, n) && n in Ids(t)
    requires n == RootId(t) || ColorOf(t, ParentId(t, n)) == Black
    ensures NoRedRed(t)
  {
    match t
    case Node(c, l, h, _, _, r) =>
      if n == h {
        ExceptIrrelevant(t, n, Null);
      } else if n in Ids(l) {
        ExceptIrrelevant(r, n, Null);
        if RootId(l) != n {
          ParentFacts(l, n);
        }
        ExceptResolved(l, n);
      } else {
        ExceptIrrelevant(l, n, Null);
        if RootId(r) != n {
          ParentFacts(r, n);
        }
        ExceptResolved(r, n);
      }
  }

  /** Painting the root BLACK (`m_Root->m_Color = BLACK`) keeps the tree free of
      RED-RED edges and balanced, and makes it a red-black tree. */
  lemma BlackenRoot(t: Tree)
    requires t.Node? && NoRedRed(t) && Balanced(t)
    ensures IsRedBlack(t.(color := Black))
  {
  }

  /** Red-uncle case: parent and uncle are RED under a BLACK grandparent `s`.
      Painting the grandparent RED and both its children BLACK keeps the
      black-height and moves the only possible violation up to the grandparent. */
  lemma RecolorStep(s: Tree, n: Ptr)
    requires s.Node? && s.color == Black && Distinct(s) && Balanced(s)
    requires s.left.Node? && s.left.color == Red && s.right.Node? && s.right.color == Red
    requires RedOkExcept(s, n)
    requires n == RootId(s.left.left) || n == RootId(s.left.right) ||
             n == RootId(s.right.left) || n == RootId(s.right.right)
    ensures var s' := Recolored(s);
      Balanced(s') && BlackHeight(s') == BlackHeight(s) && RedOkExcept(s', s.id)
  {
    var p, u := s.left, s.right;
    ExceptIrrelevant(p.left, n, s.id);
    ExceptIrrelevant(p.right, n, s.id);
    ExceptIrrelevant(u.left, n, s.id);
    ExceptIrrelevant(u.right, n, s.id);
  }

  /** Outer case, parent a left child: the cursor is the RED left child of the
      RED parent and the uncle is BLACK or absent. Painting the parent BLACK and
      the grandparent RED, then rotating right at the grandparent, gives a subtree
      with a BLACK root, the same black-height, and no violation at all. */
  lemma OuterStepLeft(s: Tree, n: Ptr)
    requires s.Node? && s.color == Black && Distinct(s) && Balanced(s) && RedOkExcept(s, n)
    requires s.left.Node? && s.left.color == Red && RootColor(s.right) == Black
    requires s.left.left.Node? && s.left.left.id == n
    ensures var g := PaintedLeft(s);
      var f := RotateRight(g);
      f.color == Black && Balanced(f) && BlackHeight(f) == BlackHeight(s) && NoRedRed(f)
  {
    var p := s.left;
    ExceptIrrelevant(p.left, n, Null);
    ExceptIrrelevant(p.right, n, Null);
    ExceptIrrelevant(s.right, n, Null);
  }

  /** Outer case, parent a right child (mirror of `OuterStepLeft`). */
  lemma OuterStepRight(s: Tree, n: Ptr)
    requires s.Node? && s.color == Black && Distinct(s) && Balanced(s) && RedOkExcept(s, n)
    requires s.right.Node? && s.right.color == Red && RootColor(s.left) == Black
    requires s.right.right.Node? && s.right.right.id == n
    ensures var g := PaintedRight(s);
      var f := RotateLeft(g);
      f.color == Black && Balanced(f) && BlackHeight(f) == BlackHeight(s) && NoRedRed(f)
  {
    var p := s.right;
    ExceptIrrelevant(p.left, n, Null);
    ExceptIrrelevant(p.right, n, Null);
    ExceptIrrelevant(s.left, n, Null);
  }

  /** Inner case, parent a left child: the cursor is the RED right child of the
      RED parent. Rotating left at the parent turns it into the outer case, with
      the old parent as the cursor. */
  lemma InnerStepLeft(s: Tree, n: Ptr)
    requires s.Node? && s.color == Black && Distinct(s) && Balanced(s) && RedOkExcept(s, n)
    requires s.left.Node? && s.left.color == Red && RootColor(s.right) == Black
    requires s.left.right.Node? && s.left.right.id == n && s.left.right.color == Red
    ensures var s1 := Node(Black, RotateLeft(s.left), s.id, s.key, s.val, s.right);
      Distinct(s1) && Balanced(s1) && BlackHeight(s1) == BlackHeight(s) &&
      RedOkExcept(s1, s.left.id) && s1.left.color == Red &&
      s1.left.left.Node? && s1.left.left.id == s.left.id && s1.left.left.color == Red
  {
    var p, c := s.left, s.left.right;
    assert RedOkExcept(p, n) && RedOkExcept(c, n) && Balanced(p) && Balanced(c);
    RotationsDistinct(p);
    ExceptIrrelevant(p.left, n, p.id);
    ExceptIrrelevant(c.left, n, p.id);
    ExceptIrrelevant(c.right, n, p.id);
    ExceptIrrelevant(s.right, n, p.id);
  }

  /** Inner case, parent a right child (mirror of `InnerStepLeft`). */
  lemma InnerStepRight(s: Tree, n: Ptr)
    requires s.Node? && s.color == Black && Distinct(s) && Balanced(s) && RedOkExcept(s, n)
    requires s.right.Node? && s.right.color == Red && RootColor(s.left) == Black
    requires s.right.left.Node? && s.right.left.id == n && s.right.left.color == Red
    ensures var s1 := Node(Black, s.left, s.id, s.key, s.val, RotateRight(s.right));
      Distinct(s1) && Balanced(s1) && BlackHeight(s1) == BlackHeight(s) &&
      RedOkExcept(s1, s.right.id) && s1.right.color == Red &&
      s1.right.right.Node? && s1.right.right.id == s.right.id && s1.right.right.color == Red
  {
    var p, c := s.right, s.right.left;
    assert RedOkExcept(p, n) && RedOkExcept(c, n) && Balanced(p) && Balanced(c);
    RotationsDistinct(p);
    ExceptIrrelevant(p.right, n, p.id);
    ExceptIrrelevant(c.left, n, p.id);
    ExceptIrrelevant(c.right, n, p.id);
    ExceptIrrelevant(s.left, n, p.id);
  }

  /** Attaching a new RED leaf below a red-black tree (`insert` before its
      fixup) keeps every black-height; the only RED node that may have a RED
      parent is the new one. */
  lemma {:induction false} BstInsertColors(t: Tree, key: Bytes, val: Bytes, id: nat)
    requires Distinct(t) && key !in Keys(t) && id !in Ids(t) && Balanced(t) && NoRedRed(t)
    ensures Balanced(BstInsert(t, key, val, id))
    ensures BlackHeight(BstInsert(t, key, val, id)) == BlackHeight(t)
    ensures RedOkExcept(BstInsert(t, key, val, id), id)
  {
    match t
    case Leaf =>
    case Node(c, l, h, k, v, r) =>
      if Less(key, k) {
        BstInsertColors(l, key, val, id);
        BstInsertShape(l, key, val, id);
        ExceptIrrelevant(r, Null, id);
      } else {
        BstInsertColors(r, key, val, id);
        BstInsertShape(r, key, val, id);
        ExceptIrrelevant(l, Null, id);
      }
  }

  /** Number of nodes on the longest path from the root down. */
  function Height(t: Tree): nat
  {
    match t
    case Leaf => 0
    case Node(_, l, _, _, _, r) => 1 + (if Height(l) < Height(r) then Height(r) else Height(l))
  }

  function Pow2(n: nat): nat
  {
    if n == 0 then 1 else 2 * Pow2(n - 1)
  }

  lemma {:induction false} Pow2Monotone(m: nat, n: nat)
    requires m <= n
    ensures Pow2(m) <= Pow2(n)
    decreases n
  {
    if m < n {
      Pow2Monotone(m, n - 1);
    }
  }

  /** A balanced tree of black-height `h` has at least 2^h - 1 nodes. */
  lemma {:induction false} SizeBlackHeight(t: Tree)
    requires Balanced(t)
    ensures Pow2(BlackHeight(t)) <= Size(t) + 1
  {
    match t
    case Leaf =>
    case Node(c, l, _, _, _, r) =>
      SizeBlackHeight(l);
      SizeBlackHeight(r);
  }

  /** Without RED-RED edges at most every other node on a path is RED, so the
      height is at most twice the black-height, plus one for a RED root. */
  lemma {:induction false} HeightBlackHeight(t: Tree)
    requires Balanced(t) && NoRedRed(t)
    ensures Height(t) <= 2 * BlackHeight(t) + (if RootColor(t) == Red then 1 else 0)
  {
    match t
    case Leaf =>
    case Node(c, l, _, _, _, r) =>
      HeightBlackHeight(l);
      HeightBlackHeight(r);
  }

  lemma {:induction false} Pow2Add(a: nat, b: nat)
    ensures Pow2(a + b) == Pow2(a) * Pow2(b)
    decreases a
  {
    if a != 0 {
      Pow2Add(a - 1, b);
    }
  }

  lemma SquareMonotone(p: nat, n: nat)
    requires p <= n
    ensures p * p <= n * n
  {
    assert p * p <= p * n;
    assert p * n <= n * n;
  }

  /** The height `h` of a red-black tree with `n` nodes satisfies
      2^h <= (n + 1)^2, that is h <= 2 log2(n + 1), which is what bounds
      `find` and the descent of `insert` by O(log n). */
  lemma LogHeight(t: Tree)
    requires IsRedBlack(t)
    ensures Pow2(Height(t)) <= (Size(t) + 1) * (Size(t) + 1)
  {
    var h := BlackHeight(t);
    HeightBlackHeight(t);
    SizeBlackHeight(t);
    Pow2Monotone(Height(t), h + h);
    Pow2Add(h, h);
    SquareMonotone(Pow2(h), Size(t) + 1);
  }
}
