/** The heap of `CNode` records that `CTree` links together, modelled as an
    arena: a sequence of records addressed by integer handles, `Null` standing
    for `nullptr`. `Agrees` says that the records reachable from a handle spell
    out a given tree shape, parent links included. */
module Arena {
  import opened ByteOrder
  import opened TreeShape

  /** One `CNode`: key, value, child and parent links, colour. */
  datatype CNode = CNode(key: Bytes, val: Bytes, left: Ptr, right: Ptr, parent: Ptr, color: Color)

  /** The records of `A` hold the tree `t`, whose root's parent link is `p`. */
  predicate Agrees(t: Tree, p: Ptr, A: seq<CNode>)
  {
    match t
    case Leaf => true
    case Node(c, l, h, k, v, r) =>
      h < |A| && A[h] == CNode(k, v, RootId(l), RootId(r), p, c) && Agrees(l, h, A) && Agrees(r, h, A)
  }

  /** The parent link that the node `x` of `t` must carry when `t` hangs below `p`. */
  function LinkOf(t: Tree, p: Ptr, x: Ptr): Ptr
  {
    if x == RootId(t) then p else ParentId(t, x)
  }

  /** `n` with each child link that pointed to `x` pointing to `y` instead. */
  function Redirect(n: CNode, x: Ptr, y: Ptr): CNode
  {
    n.(left := if n.left == x then y else n.left, right := if n.right == x then y else n.right)
  }

  /** Every node of a stored tree has a record in the arena. */
  lemma {:induction false} AgreesBound(t: Tree, p: Ptr, A: seq<CNode>)
    requires Agrees(t, p, A)
    ensures forall i | i in Ids(t) :: i < |A|
  {
    match t
    case Leaf =>
    case Node(_, l, h, _, _, r) =>
      AgreesBound(l, h, A);
      AgreesBound(r, h, A);
  }

  /** Changing records outside the tree does not disturb it. */
  lemma {:induction false} AgreesFrame(t: Tree, p: Ptr, A: seq<CNode>, B: seq<CNode>)
    requires Agrees(t, p, A)
    requires forall i | i in Ids(t) :: i < |A| && i < |B| && B[i] == A[i]
    ensures Agrees(t, p, B)
  {
    match t
    case Leaf =>
    case Node(_, l, h, _, _, r) =>
      AgreesFrame(l, h, A, B);
      AgreesFrame(r, h, A, B);
  }

  /** Each subtree is stored below the parent link of its root. */
  lemma {:induction false} AgreesSubtree(t: Tree, p: Ptr, A: seq<CNode>, x: Ptr)
    requires Distinct(t) && Agrees(t, p, A) && x in Ids(t)
    ensures Agrees(Subtree(t, x), LinkOf(t, p, x), A)
  {
    match t
    case Node(_, l, h, _, _, r) =>
      if h != x {
        if x in Ids(l) {
          AgreesSubtree(l, h, A, x);
        } else {
          AgreesSubtree(r, h, A, x);
        }
      }
  }

  /** The record of node `x` holds its key, value, colour, children and parent. */
  lemma AgreesAt(t: Tree, p: Ptr, A: seq<CNode>, x: Ptr)
    requires Distinct(t) && Agrees(t, p, A) && x in Ids(t)
    ensures var s := Subtree(t, x);
      0 <= x < |A| && A[x] == CNode(s.key, s.val, RootId(s.left), RootId(s.right), LinkOf(t, p, x), s.color)
  {
    AgreesSubtree(t, p, A, x);
  }

  /** Rewriting the root record's parent link and colour stores the tree with
      the new root colour below the new parent. */
  lemma AgreesRoot(t: Tree, p: Ptr, A: seq<CNode>, p': Ptr, c: Color, B: seq<CNode>)
    requires t.Node? && Distinct(t) && Agrees(t, p, A)
    requires t.id < |B| && B[t.id] == A[t.id].(parent := p', color := c)
    requires forall i | i in Ids(t) && i != t.id :: i < |A| && i < |B| && B[i] == A[i]
    ensures Agrees(t.(color := c), p', B)
  {
    AgreesFrame(t.left, t.id, A, B);
    AgreesFrame(t.right, t.id, A, B);
  }

  /** Storing a replacement subtree `s` for the node `x`: if the records of `s`
      are in place, the parent's child link now leads to `s`, and nothing else
      outside the old subtree changed, the arena stores the whole new tree. */
  lemma {:induction false} AgreesSubst(t: Tree, p: Ptr, A: seq<CNode>, x: Ptr, s: Tree, B: seq<CNode>)
    requires Distinct(t) && Agrees(t, p, A) && x in Ids(t) && s.Node?
    requires Agrees(s, LinkOf(t, p, x), B)
    requires forall i | i in Ids(t) && i !in Ids(Subtree(t, x)) && i != ParentId(t, x) :: i < |A| && i < |B| && B[i] == A[i]
    requires x != RootId(t) ==>
      0 <= ParentId(t, x) < |A| && ParentId(t, x) < |B| && B[ParentId(t, x)] == Redirect(A[ParentId(t, x)], x, s.id)
    ensures Agrees(Subst(t, x, s), p, B)
  {
    match t
    case Node(c, l, h, k, v, r) =>
      if h != x {
        SubtreeFacts(t, x);
        if x in Ids(l) {
          SubtreeFacts(l, x);
          assert RootId(r) != x by {
            assert RootId(r) == Null || RootId(r) in Ids(r);
          }
          if x != RootId(l) {
            ParentFacts(l, x);
          }
          SubstNotIn(r, x, s);
          AgreesFrame(r, h, A, B);
          AgreesSubst(l, h, A, x, s, B);
        } else {
          SubtreeFacts(r, x);
          assert RootId(l) != x by {
            assert RootId(l) == Null || RootId(l) in Ids(l);
          }
          if x != RootId(r) {
            ParentFacts(r, x);
          }
          SubstNotIn(l, x, s);
          AgreesFrame(l, h, A, B);
          AgreesSubst(r, h, A, x, s, B);
        }
      }
  }

  /** `B` differs from `A` at most in the records whose handles are in `S`. */
  predicate SameExcept(A: seq<CNode>, B: seq<CNode>, S: set<Ptr>)
  {
    |B| == |A| && forall i | 0 <= i < |A| && i !in S :: B[i] == A[i]
  }

  /** The records `CTree::rotateLeft` touches at `x` exist and are distinct:
      `x`, its right child `y`, the left child `b` of `y` when there is one,
      and the parent `q` of `x` when there is one, which links `x` on exactly
      one side. */
  predicate LeftSite(A: seq<CNode>, x: Ptr)
  {
    0 <= x < |A| && 0 <= A[x].right < |A| && A[x].right != x &&
    var y := A[x].right; var b := A[y].left; var q := A[x].parent;
    (b == Null || (0 <= b < |A| && b != x && b != y)) &&
    (q != Null ==> 0 <= q < |A| && q != x && q != y && q != b && (A[q].left == x) != (A[q].right == x))
  }

  /** The arena after the record writes of `CTree::rotateLeft` at `x`, in
      the order the source makes them. Only links change: every record keeps
      its key, value and colour. */
  function RotateLeftWrites(A: seq<CNode>, x: Ptr): (B: seq<CNode>)
    requires LeftSite(A, x)
    ensures |B| == |A|
    ensures forall i :: 0 <= i < |A| ==> B[i].key == A[i].key && B[i].val == A[i].val && B[i].color == A[i].color
  {
    var y := A[x].right;
    var A1 := A[x := A[x].(right := A[y].left)];
    var A2 := if A1[x].right != Null then A1[A1[x].right := A1[A1[x].right].(parent := x)] else A1;
    var A3 := A2[y := A2[y].(parent := A2[x].parent)];
    var A4 :=
      if A3[x].parent == Null then A3
      else if A3[A3[x].parent].left == x then A3[A3[x].parent := A3[A3[x].parent].(left := y)]
      else A3[A3[x].parent := A3[A3[x].parent].(right := y)];
    var A5 := A4[y := A4[y].(left := x)];
    A5[x := A5[x].(parent := y)]
  }

  /** What the writes of `CTree::rotateLeft` amount to: `x` takes `b` as
      right child and `y` as parent, `b` takes `x` as parent, `y` takes `x` as
      left child and `q` as parent, the child link of `q` that led to `x` now
      leads to `y`, and no other record changes. */
  lemma RotateLeftWritesFacts(A: seq<CNode>, x: Ptr)
    requires LeftSite(A, x)
    ensures var B := RotateLeftWrites(A, x); var y := A[x].right; var b := A[y].left; var q := A[x].parent;
      SameExcept(A, B, {x, y, b, q}) &&
      B[x] == A[x].(right := b, parent := y) && B[y] == A[y].(left := x, parent := q) &&
      (b != Null ==> B[b] == A[b].(parent := x)) &&
      (q != Null ==> B[q] == Redirect(A[q], x, y))
  {
  }

  /** Mirror of `LeftSite` for `CTree::rotateRight`. */
  predicate RightSite(A: seq<CNode>, x: Ptr)
  {
    0 <= x < |A| && 0 <= A[x].left < |A| && A[x].left != x &&
    var y := A[x].left; var b := A[y].right; var q := A[x].parent;
    (b == Null || (0 <= b < |A| && b != x && b != y)) &&
    (q != Null ==> 0 <= q < |A| && q != x && q != y && q != b && (A[q].left == x) != (A[q].right == x))
  }

  /** Mirror of `RotateLeftWrites` for `CTree::rotateRight`. */
  function RotateRightWrites(A: seq<CNode>, x: Ptr): (B: seq<CNode>)
    requires RightSite(A, x)
    ensures |B| == |A|
    ensures forall i :: 0 <= i < |A| ==> B[i].key == A[i].key && B[i].val == A[i].val && B[i].color == A[i].color
  {
    var y := A[x].left;
    var A1 := A[x := A[x].(left := A[y].right)];
    var A2 := if A1[x].left != Null then A1[A1[x].left := A1[A1[x].left].(parent := x)] else A1;
    var A3 := A2[y := A2[y].(parent := A2[x].parent)];
    var A4 :=
      if A3[x].parent == Null then A3
      else if A3[A3[x].parent].left == x then A3[A3[x].parent := A3[A3[x].parent].(left := y)]
      else A3[A3[x].parent := A3[A3[x].parent].(right := y)];
    var A5 := A4[y := A4[y].(right := x)];
    A5[x := A5[x].(parent := y)]
  }

  /** Mirror of `RotateLeftWritesFacts`. */
  lemma RotateRightWritesFacts(A: seq<CNode>, x: Ptr)
    requires RightSite(A, x)
    ensures var B := RotateRightWrites(A, x); var y := A[x].left; var b := A[y].right; var q := A[x].parent;
      SameExcept(A, B, {x, y, b, q}) &&
      B[x] == A[x].(left := b, parent := y) && B[y] == A[y].(right := x, parent := q) &&
      (b != Null ==> B[b] == A[b].(parent := x)) &&
      (q != Null ==> B[q] == Redirect(A[q], x, y))
  {
  }

  /** The record writes of `CTree::rotateLeft` at `x`: `x` takes the left
      subtree of its right child `y`, that subtree's root takes `x` as parent, `y`
      takes the parent of `x` (whose child link is redirected to `y`, or the
      root is `y`), and `y` takes `x` as its left child. Afterwards the arena
      stores the tree rotated left at `x`. */
  lemma AgreesRotateLeft(t: Tree, A: seq<CNode>, x: Ptr)
    requires Distinct(t) && Agrees(t, Null, A) && x in Ids(t) && Subtree(t, x).right.Node?
    requires LeftSite(A, x)
    ensures Agrees(Subst(t, x, RotateLeft(Subtree(t, x))), Null, RotateLeftWrites(A, x))
  {
    RotateLeftSite(t, A, x);
    RotateLeftWritesFacts(A, x);
    AgreesRotateLeftRecords(t, A, x, RotateLeftWrites(A, x));
  }

  /** `AgreesRotateLeft` with the writes given record by record. */
  lemma AgreesRotateLeftRecords(t: Tree, A: seq<CNode>, x: Ptr, B: seq<CNode>)
    requires Distinct(t) && Agrees(t, Null, A) && x in Ids(t) && Subtree(t, x).right.Node?
    requires var S := Subtree(t, x); var y := S.right.id; var b := RootId(S.right.left);
      var q := LinkOf(t, Null, x);
      SameExcept(A, B, {x, y, b, q}) && 0 <= x < |A| && 0 <= y < |A| &&
      B[x] == A[x].(right := b, parent := y) && B[y] == A[y].(left := x, parent := q) &&
      (b != Null ==> 0 <= b < |A| && B[b] == A[b].(parent := x)) &&
      (q != Null ==> 0 <= q < |A| && B[q] == Redirect(A[q], x, y))
    ensures Agrees(Subst(t, x, RotateLeft(Subtree(t, x))), Null, B)
  {
    var S := Subtree(t, x);
    var y := S.right;
    var q := LinkOf(t, Null, x);
    SubtreeFacts(t, x);
    AgreesSubtree(t, Null, A, x);
    AgreesBound(t, Null, A);
    if x != RootId(t) {
      ParentFacts(t, x);
      ChildNotRoot(t, x);
    }
    assert q == Null || q !in Ids(S) by {
      if x != RootId(t) {
        ParentOutside(t, x);
      }
    }
    AgreesFrame(S.left, x, A, B);
    if y.left.Node? {
      AgreesRoot(y.left, y.id, A, x, y.left.color, B);
    }
    AgreesFrame(y.right, y.id, A, B);
    var u := RotateLeft(S);
    assert Agrees(u.left, y.id, B);
    AgreesSubst(t, Null, A, x, u, B);
  }

  /** The record writes of `CTree::rotateRight`, the mirror of `AgreesRotateLeft`. */
  lemma AgreesRotateRight(t: Tree, A: seq<CNode>, x: Ptr)
    requires Distinct(t) && Agrees(t, Null, A) && x in Ids(t) && Subtree(t, x).left.Node?
    requires RightSite(A, x)
    ensures Agrees(Subst(t, x, RotateRight(Subtree(t, x))), Null, RotateRightWrites(A, x))
  {
    RotateRightSite(t, A, x);
    RotateRightWritesFacts(A, x);
    AgreesRotateRightRecords(t, A, x, RotateRightWrites(A, x));
  }

  /** `AgreesRotateRight` with the writes given record by record. */
  lemma AgreesRotateRightRecords(t: Tree, A: seq<CNode>, x: Ptr, B: seq<CNode>)
    requires Distinct(t) && Agrees(t, Null, A) && x in Ids(t) && Subtree(t, x).left.Node?
    requires var S := Subtree(t, x); var y := S.left.id; var b := RootId(S.left.right);
      var q := LinkOf(t, Null, x);
      SameExcept(A, B, {x, y, b, q}) && 0 <= x < |A| && 0 <= y < |A| &&
      B[x] == A[x].(left := b, parent := y) && B[y] == A[y].(right := x, parent := q) &&
      (b != Null ==> 0 <= b < |A| && B[b] == A[b].(parent := x)) &&
      (q != Null ==> 0 <= q < |A| && B[q] == Redirect(A[q], x, y))
    ensures Agrees(Subst(t, x, RotateRight(Subtree(t, x))), Null, B)
  {
    var S := Subtree(t, x);
    var y := S.left;
    var q := LinkOf(t, Null, x);
    SubtreeFacts(t, x);
    AgreesSubtree(t, Null, A, x);
    AgreesBound(t, Null, A);
    if x != RootId(t) {
      ParentFacts(t, x);
      ChildNotRoot(t, x);
    }
    assert q == Null || q !in Ids(S) by {
      if x != RootId(t) {
        ParentOutside(t, x);
      }
    }
    AgreesFrame(S.right, x, A, B);
    if y.right.Node? {
      AgreesRoot(y.right, y.id, A, x, y.right.color, B);
    }
    AgreesFrame(y.left, y.id, A, B);
    var u := RotateRight(S);
    assert Agrees(u.right, y.id, B);
    AgreesSubst(t, Null, A, x, u, B);
  }

  /** The arena after `insert` appends the new RED record `z` for `key` and
      `val` under `x` and links it as the left or right child of `x`. The new
      record is the last one; only `x` gains a link, on the chosen side. */
  function AttachWrites(A: seq<CNode>, x: Ptr, goLeft: bool, key: Bytes, val: Bytes): (B: seq<CNode>)
    requires 0 <= x < |A|
    ensures |B| == |A| + 1 && B[|A|] == CNode(key, val, Null, Null, x, Red)
    ensures B[x] == if goLeft then A[x].(left := |A|) else A[x].(right := |A|)
    ensures forall i | 0 <= i < |A| && i != x :: B[i] == A[i]
  {
    var z := |A|;
    var A1 := A + [CNode(key, val, Null, Null, x, Red)];
    if goLeft then A1[x := A1[x].(left := z)] else A1[x := A1[x].(right := z)]
  }

  /** The arena after the append and the link write is `AttachWrites`. */
  lemma AttachWritesIs(A: seq<CNode>, x: Ptr, goLeft: bool, key: Bytes, val: Bytes, B: seq<CNode>)
    requires 0 <= x < |A|
    requires var A1 := A + [CNode(key, val, Null, Null, x, Red)];
      B == if goLeft then A1[x := A1[x].(left := |A|)] else A1[x := A1[x].(right := |A|)]
    ensures B == AttachWrites(A, x, goLeft, key, val)
  {
  }

  /** The record writes of `insert`'s `*current = new CNode(...)`: a new RED
      record with parent `x` is appended, and the empty child link of `x` on
      the side `goLeft` chooses now points to it. */
  lemma AgreesAttach(t: Tree, A: seq<CNode>, x: Ptr, goLeft: bool, key: Bytes, val: Bytes, B: seq<CNode>)
    requires Distinct(t) && Agrees(t, Null, A) && x in Ids(t)
    requires if goLeft then Subtree(t, x).left.Leaf? else Subtree(t, x).right.Leaf?
    requires |B| == |A| + 1 && 0 <= x < |A| && B[|A|] == CNode(key, val, Null, Null, x, Red)
    requires B[x] == if goLeft then A[x].(left := |A|) else A[x].(right := |A|)
    requires forall i | 0 <= i < |A| && i != x :: B[i] == A[i]
    ensures var S := Subtree(t, x); var z := Node(Red, Leaf, |A|, key, val, Leaf);
      Agrees(Subst(t, x, if goLeft then S.(left := z) else S.(right := z)), Null, B)
  {
    var S := Subtree(t, x);
    var z := Node(Red, Leaf, |A|, key, val, Leaf);
    SubtreeFacts(t, x);
    AgreesSubtree(t, Null, A, x);
    AgreesBound(t, Null, A);
    AgreesFrame(S.left, x, A, B);
    AgreesFrame(S.right, x, A, B);
    if x != RootId(t) {
      ParentFacts(t, x);
      ParentOutside(t, x);
    }
    AgreesSubst(t, Null, A, x, if goLeft then S.(left := z) else S.(right := z), B);
  }

  /** The arena after the three colour writes of the red-uncle case of
      `CTree::insertFix`: grandparent `g` RED, uncle `u` and parent `p` BLACK.
      Only colours change: every record keeps its key, value and links. */
  function RecolorWrites(A: seq<CNode>, g: Ptr, u: Ptr, p: Ptr): (B: seq<CNode>)
    requires 0 <= g < |A| && 0 <= u < |A| && 0 <= p < |A|
    ensures |B| == |A|
    ensures forall i :: 0 <= i < |A| ==>
      B[i].key == A[i].key && B[i].val == A[i].val &&
      B[i].left == A[i].left && B[i].right == A[i].right && B[i].parent == A[i].parent
  {
    var A1 := A[g := A[g].(color := Red)];
    var A2 := A1[u := A1[u].(color := Black)];
    A2[p := A2[p].(color := Black)]
  }

  /** On three distinct records the writes change only their colours. */
  lemma RecolorWritesFacts(A: seq<CNode>, g: Ptr, u: Ptr, p: Ptr)
    requires 0 <= g < |A| && 0 <= u < |A| && 0 <= p < |A| && g != u && g != p && u != p
    ensures var B := RecolorWrites(A, g, u, p);
      SameExcept(A, B, {g, u, p}) &&
      B[g] == A[g].(color := Red) && B[u] == A[u].(color := Black) && B[p] == A[p].(color := Black)
  {
  }

  /** The record writes of the red-uncle case: grandparent `g` RED, both of its
      children BLACK. */
  lemma AgreesRecolor(t: Tree, A: seq<CNode>, g: Ptr, B: seq<CNode>)
    requires Distinct(t) && Agrees(t, Null, A) && g in Ids(t)
    requires Subtree(t, g).left.Node? && Subtree(t, g).right.Node?
    requires var S := Subtree(t, g); var l := S.left.id; var r := S.right.id;
      SameExcept(A, B, {g, l, r}) && 0 <= g < |A| && 0 <= l < |A| && 0 <= r < |A| &&
      B[g] == A[g].(color := Red) && B[l] == A[l].(color := Black) && B[r] == A[r].(color := Black)
    ensures var S := Subtree(t, g);
      Agrees(Subst(t, g, Recolored(S)), Null, B)
  {
    var S := Subtree(t, g);
    SubtreeFacts(t, g);
    AgreesSubtree(t, Null, A, g);
    AgreesBound(t, Null, A);
    AgreesRoot(S.left, g, A, g, Black, B);
    AgreesRoot(S.right, g, A, g, Black, B);
    if g != RootId(t) {
      ParentFacts(t, g);
      ParentOutside(t, g);
    }
    AgreesSubst(t, Null, A, g, Recolored(S), B);
  }

  /** The record writes before the outer rotation: the parent, the child of `g`
      on the side `goLeft` chooses, BLACK, and the grandparent `g` RED. */
  lemma AgreesPaint(t: Tree, A: seq<CNode>, g: Ptr, goLeft: bool, B: seq<CNode>)
    requires Distinct(t) && Agrees(t, Null, A) && g in Ids(t)
    requires if goLeft then Subtree(t, g).left.Node? else Subtree(t, g).right.Node?
    requires var S := Subtree(t, g); var c := if goLeft then S.left.id else S.right.id;
      SameExcept(A, B, {g, c}) && 0 <= g < |A| && 0 <= c < |A| &&
      B[g] == A[g].(color := Red) && B[c] == A[c].(color := Black)
    ensures var S := Subtree(t, g);
      Agrees(Subst(t, g, if goLeft then PaintedLeft(S)
                         else PaintedRight(S)), Null, B)
  {
    var S := Subtree(t, g);
    SubtreeFacts(t, g);
    AgreesSubtree(t, Null, A, g);
    AgreesBound(t, Null, A);
    if goLeft {
      AgreesRoot(S.left, g, A, g, Black, B);
      AgreesFrame(S.right, g, A, B);
    } else {
      AgreesFrame(S.left, g, A, B);
      AgreesRoot(S.right, g, A, g, Black, B);
    }
    if g != RootId(t) {
      ParentFacts(t, g);
      ParentOutside(t, g);
    }
    var s := if goLeft then PaintedLeft(S)
             else PaintedRight(S);
    AgreesSubst(t, Null, A, g, s, B);
  }

  /** The handles `CTree::rotateLeft` reads at `x`: its right child `y`, the
      left child `b` of `y` and the parent `q` of `x`, as the records hold them. */
  lemma RotateLeftSite(t: Tree, A: seq<CNode>, x: Ptr)
    requires Distinct(t) && Agrees(t, Null, A) && x in Ids(t) && Subtree(t, x).right.Node?
    ensures LeftSite(A, x)
    ensures var y := A[x].right;
      y == Subtree(t, x).right.id && 0 <= y < |A| && y != x
    ensures var y := A[x].right; var b := A[y].left;
      b == RootId(Subtree(t, x).right.left) && (b == Null || (0 <= b < |A| && b != x && b != y))
    ensures var y := A[x].right; var b := A[y].left; var q := A[x].parent;
      q == LinkOf(t, Null, x) && (q == Null <==> x == RootId(t)) &&
      (q != Null ==> 0 <= q < |A| && q != x && q != y && q != b && (A[q].left == x) != (A[q].right == x))
  {
    var S := Subtree(t, x);
    SubtreeFacts(t, x);
    SubtreeOfChild(t, x);
    AgreesAt(t, Null, A, x);
    AgreesAt(t, Null, A, S.right.id);
    AgreesBound(t, Null, A);
    if x != RootId(t) {
      ParentFacts(t, x);
      ParentOutside(t, x);
      ParentLinks(t, A, x);
    } else {
      assert A[x].parent == Null;
    }
    assert RootId(S.right.left) == Null || RootId(S.right.left) in Ids(S.right.left);
    assert Distinct(S) && Distinct(S.right);
  }

  /** Mirror of `RotateLeftSite` for `CTree::rotateRight`. */
  lemma RotateRightSite(t: Tree, A: seq<CNode>, x: Ptr)
    requires Distinct(t) && Agrees(t, Null, A) && x in Ids(t) && Subtree(t, x).left.Node?
    ensures RightSite(A, x)
    ensures var y := A[x].left;
      y == Subtree(t, x).left.id && 0 <= y < |A| && y != x
    ensures var y := A[x].left; var b := A[y].right;
      b == RootId(Subtree(t, x).left.right) && (b == Null || (0 <= b < |A| && b != x && b != y))
    ensures var y := A[x].left; var b := A[y].right; var q := A[x].parent;
      q == LinkOf(t, Null, x) && (q == Null <==> x == RootId(t)) &&
      (q != Null ==> 0 <= q < |A| && q != x && q != y && q != b && (A[q].left == x) != (A[q].right == x))
  {
    var S := Subtree(t, x);
    SubtreeFacts(t, x);
    SubtreeOfChild(t, x);
    AgreesAt(t, Null, A, x);
    AgreesAt(t, Null, A, S.left.id);
    AgreesBound(t, Null, A);
    if x != RootId(t) {
      ParentFacts(t, x);
      ParentOutside(t, x);
      ParentLinks(t, A, x);
    } else {
      assert A[x].parent == Null;
    }
    assert RootId(S.left.right) == Null || RootId(S.left.right) in Ids(S.left.right);
    assert Distinct(S) && Distinct(S.left);
  }

  /** The parent record of a non-root node links to it on exactly one side. */
  lemma ParentLinks(t: Tree, A: seq<CNode>, x: Ptr)
    requires Distinct(t) && Agrees(t, Null, A) && x in Ids(t) && x != RootId(t)
    ensures var q := ParentId(t, x);
      0 <= q < |A| && (A[q].left == x) != (A[q].right == x)
  {
    var q := ParentId(t, x);
    ParentFacts(t, x);
    AgreesAt(t, Null, A, q);
    SubtreeFacts(t, q);
    var Q := Subtree(t, q);
    assert Distinct(Q);
    assert RootId(Q.left) == Null || RootId(Q.left) in Ids(Q.left);
    assert RootId(Q.right) == Null || RootId(Q.right) in Ids(Q.right);
  }
}
