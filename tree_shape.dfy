/** The shape of the node graph of a `CTree`, as an algebraic tree.

    Each `Node` carries the node's handle `id` (its index in the tree's arena of
    `CNode`s) together with the node's colour, key and value; `Leaf` is an absent
    child (`nullptr`). The handles let the model name the node an operation works
    on (`rotateLeft(node)`, the fixup cursor) and let the arena be tied to the tree.
    `Subst` replaces the subtree rooted at one handle, which is how every local
    restructuring (attach, recolour, rotate) is described. */
module TreeShape {
  import opened ByteOrder

  /** `enum color {RED, BLACK}`: a node's colour is one of exactly two values. */
  datatype Color = Red | Black

  /** A link: the handle of a node, or `Null` for `nullptr`. */
  type Ptr = int

  const Null: Ptr := -1

  datatype Tree =
    | Leaf
    | Node(color: Color, left: Tree, id: nat, key: Bytes, val: Bytes, right: Tree)

  /** Handles of the nodes of `t`. */
  function Ids(t: Tree): set<nat>
  {
    match t
    case Leaf => {}
    case Node(_, l, h, _, _, r) => Ids(l) + {h} + Ids(r)
  }

  /** Number of nodes of `t`. */
  function Size(t: Tree): nat
  {
    match t
    case Leaf => 0
    case Node(_, l, _, _, _, r) => Size(l) + 1 + Size(r)
  }

  /** No handle occurs twice: `t` is a tree, not a graph with sharing. */
  predicate Distinct(t: Tree)
  {
    match t
    case Leaf => true
    case Node(_, l, h, _, _, r) =>
      Distinct(l) && Distinct(r) && h !in Ids(l) && h !in Ids(r) && Ids(l) !! Ids(r)
  }

  /** The link that points at `t`: its root handle, `Null` for an empty tree. */
  function RootId(t: Tree): Ptr
  {
    if t.Leaf? then Null else t.id
  }

  /** Colour of the root; an absent child counts as BLACK (`!uncle` in the fixup). */
  function RootColor(t: Tree): Color
  {
    if t.Leaf? then Black else t.color
  }

  /** The subtree whose root has handle `x`. */
  function Subtree(t: Tree, x: Ptr): (s: Tree)
    ensures x in Ids(t) ==> s.Node? && s.id == x && Ids(s) <= Ids(t)
    ensures x !in Ids(t) ==> s.Leaf?
  {
    match t
    case Leaf => Leaf
    case Node(_, l, h, _, _, r) =>
      if h == x then t else if x in Ids(l) then Subtree(l, x) else Subtree(r, x)
  }

  /** Colour of the node with handle `x`. */
  function ColorOf(t: Tree, x: Ptr): Color
  {
    RootColor(Subtree(t, x))
  }

  /** `t` with the subtree rooted at handle `x` replaced by `s`. */
  function Subst(t: Tree, x: Ptr, s: Tree): Tree
  {
    match t
    case Leaf => Leaf
    case Node(c, l, h, k, v, r) =>
      if h == x then s else Node(c, Subst(l, x, s), h, k, v, Subst(r, x, s))
  }

  /** Handle of the parent of the node with handle `x` (`Null` for the root). */
  function ParentId(t: Tree, x: Ptr): Ptr
  {
    match t
    case Leaf => Null
    case Node(_, l, h, _, _, r) =>
      if h == x then Null
      else if RootId(l) == x || RootId(r) == x then h
      else if x in Ids(l) then ParentId(l, x)
      else ParentId(r, x)
  }

  /** Every handle is counted once: `Size` is the number of distinct reachable nodes. */
  lemma {:induction false} DistinctSize(t: Tree)
    requires Distinct(t)
    ensures |Ids(t)| == Size(t)
  {
    match t
    case Leaf =>
    case Node(_, l, h, _, _, r) =>
      DistinctSize(l);
      DistinctSize(r);
      assert Ids(l) + {h} !! Ids(r);
      assert |Ids(l) + {h}| == |Ids(l)| + 1;
  }

  lemma {:induction false} SubtreeFacts(t: Tree, x: Ptr)
    requires x in Ids(t)
    ensures Subtree(t, x).Node? && Subtree(t, x).id == x
    ensures Ids(Subtree(t, x)) <= Ids(t)
    ensures Size(Subtree(t, x)) <= Size(t)
    ensures Distinct(t) ==> Distinct(Subtree(t, x))
  {
    match t
    case Node(_, l, h, _, _, r) =>
      if h != x {
        if x in Ids(l) { SubtreeFacts(l, x); } else { SubtreeFacts(r, x); }
      }
  }

  /** The children of the node `x` are the subtrees of their own handles, and
      their parent link leads back to `x`. */
  lemma {:induction false} SubtreeOfChild(t: Tree, x: Ptr)
    requires Distinct(t) && x in Ids(t)
    ensures Subtree(t, x).left.Node? ==>
      Subtree(t, Subtree(t, x).left.id) == Subtree(t, x).left &&
      ParentId(t, Subtree(t, x).left.id) == x
    ensures Subtree(t, x).right.Node? ==>
      Subtree(t, Subtree(t, x).right.id) == Subtree(t, x).right &&
      ParentId(t, Subtree(t, x).right.id) == x
  {
    match t
    case Node(_, l, h, _, _, r) =>
      if h != x {
        if x in Ids(l) {
          SubtreeOfChild(l, x);
          SubtreeFacts(l, x);
          ChildNotRoot(l, x);
        } else {
          SubtreeOfChild(r, x);
          SubtreeFacts(r, x);
          ChildNotRoot(r, x);
        }
      }
  }

  /** A child of `x` is never the root of a tree that contains `x`. */
  lemma {:induction false} ChildNotRoot(t: Tree, x: Ptr)
    requires Distinct(t) && x in Ids(t)
    ensures RootId(Subtree(t, x).left) != RootId(t) || Subtree(t, x).left.Leaf?
    ensures RootId(Subtree(t, x).right) != RootId(t) || Subtree(t, x).right.Leaf?
    ensures Ids(Subtree(t, x).left) <= Ids(t) && Ids(Subtree(t, x).right) <= Ids(t)
    ensures x != RootId(t) ==> RootId(t) !in Ids(Subtree(t, x))
  {
    match t
    case Node(_, l, h, _, _, r) =>
      if h != x {
        if x in Ids(l) { ChildNotRoot(l, x); SubtreeFacts(l, x); }
        else { ChildNotRoot(r, x); SubtreeFacts(r, x); }
      }
  }

  /** The parent link of every node but the root leads to a node one of whose
      children it is. */
  lemma {:induction false} ParentFacts(t: Tree, y: Ptr)
    requires Distinct(t) && y in Ids(t)
    ensures y == RootId(t) ==> ParentId(t, y) == Null
    ensures y != RootId(t) ==>
      ParentId(t, y) in Ids(t) &&
      (RootId(Subtree(t, ParentId(t, y)).left) == y || RootId(Subtree(t, ParentId(t, y)).right) == y)
  {
    match t
    case Node(_, l, h, _, _, r) =>
      if h == y {
        assert RootId(l) != y && RootId(r) != y;
      } else if RootId(l) == y || RootId(r) == y {
      } else if y in Ids(l) {
        ParentFacts(l, y);
      } else {
        ParentFacts(r, y);
      }
  }

  /** The parent of a node lies outside the node's subtree. */
  lemma {:induction false} ParentOutside(t: Tree, x: Ptr)
    requires Distinct(t) && x in Ids(t) && x != RootId(t)
    ensures ParentId(t, x) !in Ids(Subtree(t, x))
  {
    match t
    case Node(_, l, h, _, _, r) =>
      if RootId(l) == x || RootId(r) == x {
      } else if x in Ids(l) {
        SubtreeFacts(l, x);
        ParentOutside(l, x);
      } else {
        SubtreeFacts(r, x);
        ParentOutside(r, x);
      }
  }

  lemma {:induction false} SubstNotIn(t: Tree, x: Ptr, s: Tree)
    requires x !in Ids(t)
    ensures Subst(t, x, s) == t
  {
    match t
    case Leaf =>
    case Node(_, l, _, _, _, r) =>
      SubstNotIn(l, x, s);
      SubstNotIn(r, x, s);
  }

  /** Replacing one subtree by another with the same handles keeps the tree
      a tree over the same handles, puts `s` where `x` was, and leaves the root
      alone unless `x` was the root. */
  lemma {:induction false} SubstFacts(t: Tree, x: Ptr, s: Tree)
    requires Distinct(t) && x in Ids(t)
    requires Distinct(s) && Ids(s) == Ids(Subtree(t, x)) && s.Node?
    ensures Distinct(Subst(t, x, s)) && Ids(Subst(t, x, s)) == Ids(t)
    ensures Size(Subst(t, x, s)) == Size(t) - Size(Subtree(t, x)) + Size(s)
    ensures Subtree(Subst(t, x, s), s.id) == s
    ensures RootId(Subst(t, x, s)) == if x == RootId(t) then s.id else RootId(t)
    ensures RootColor(Subst(t, x, s)) == if x == RootId(t) then s.color else RootColor(t)
    ensures ParentId(Subst(t, x, s), s.id) == ParentId(t, x)
  {
    match t
    case Node(c, l, h, k, v, r) =>
      SubtreeFacts(t, x);
      if h != x {
        if x in Ids(l) {
          SubtreeFacts(l, x);
          SubstFacts(l, x, s);
          SubstNotIn(r, x, s);
        } else {
          SubtreeFacts(r, x);
          SubstFacts(r, x, s);
          SubstNotIn(l, x, s);
        }
      }
  }

  /** Replacing at a descendant `y` of `x` is replacing at `x` by the subtree of `x`
      with `y` replaced. */
  lemma {:induction false} SubstNested(t: Tree, x: Ptr, y: Ptr, s: Tree)
    requires Distinct(t) && x in Ids(t) && y in Ids(Subtree(t, x))
    ensures Subst(t, y, s) == Subst(t, x, Subst(Subtree(t, x), y, s))
  {
    match t
    case Node(c, l, h, k, v, r) =>
      if h != x {
        SubtreeFacts(t, x);
        if x in Ids(l) {
          SubtreeFacts(l, x);
          SubstNested(l, x, y, s);
          SubstNotIn(r, y, s);
          SubstNotIn(r, x, Subst(Subtree(t, x), y, s));
        } else {
          SubtreeFacts(r, x);
          SubstNested(r, x, y, s);
          SubstNotIn(l, y, s);
          SubstNotIn(l, x, Subst(Subtree(t, x), y, s));
        }
      }
  }

  /** A second replacement at the same handle overrides the first. */
  lemma {:induction false} SubstTwice(t: Tree, x: Ptr, s1: Tree, s2: Tree)
    requires Distinct(t) && x in Ids(t) && s1.Node? && s1.id == x
    ensures Subst(Subst(t, x, s1), x, s2) == Subst(t, x, s2)
  {
    match t
    case Node(c, l, h, k, v, r) =>
      if h != x {
        if x in Ids(l) {
          SubstTwice(l, x, s1, s2);
          SubstNotIn(r, x, s1);
          SubstNotIn(r, x, s2);
        } else {
          SubstTwice(r, x, s1, s2);
          SubstNotIn(l, x, s1);
          SubstNotIn(l, x, s2);
        }
      }
  }

  /** Inside the replacement, subtrees and parent links are those of `s`. */
  lemma {:induction false} SubstInside(t: Tree, x: Ptr, s: Tree, y: Ptr)
    requires Distinct(t) && x in Ids(t)
    requires Distinct(s) && Ids(s) == Ids(Subtree(t, x)) && s.Node? && y in Ids(s)
    ensures Subtree(Subst(t, x, s), y) == Subtree(s, y)
    ensures y != s.id ==> ParentId(Subst(t, x, s), y) == ParentId(s, y)
  {
    match t
    case Node(c, l, h, k, v, r) =>
      SubtreeFacts(t, x);
      if h != x {
        if x in Ids(l) {
          SubtreeFacts(l, x);
          SubstFacts(l, x, s);
          SubstNotIn(r, x, s);
          if x != RootId(l) {
            ChildNotRoot(l, x);
          }
          SubstInside(l, x, s, y);
        } else {
          SubtreeFacts(r, x);
          SubstFacts(r, x, s);
          SubstNotIn(l, x, s);
          if x != RootId(r) {
            ChildNotRoot(r, x);
          }
          SubstInside(r, x, s, y);
        }
      }
  }

  /** The grandparent after the red-uncle recolouring: RED, both children BLACK. */
  function Recolored(s: Tree): Tree
    requires s.Node? && s.left.Node? && s.right.Node?
  {
    Node(Red, s.left.(color := Black), s.id, s.key, s.val, s.right.(color := Black))
  }

  /** The grandparent before the outer right rotation: RED, left child BLACK. */
  function PaintedLeft(s: Tree): Tree
    requires s.Node? && s.left.Node?
  {
    Node(Red, s.left.(color := Black), s.id, s.key, s.val, s.right)
  }

  /** The grandparent before the outer left rotation: RED, right child BLACK. */
  function PaintedRight(s: Tree): Tree
    requires s.Node? && s.right.Node?
  {
    Node(Red, s.left, s.id, s.key, s.val, s.right.(color := Black))
  }

  /** Left rotation at the root: the right child is promoted and takes the old
      root as its left child; the promoted child's left subtree moves under the
      old root. */
  function RotateLeft(t: Tree): (u: Tree)
    requires t.Node? && t.right.Node?
    ensures u.Node? && u.id == t.right.id && Ids(u) == Ids(t) && Size(u) == Size(t)
  {
    var y := t.right;
    Node(y.color, Node(t.color, t.left, t.id, t.key, t.val, y.left), y.id, y.key, y.val, y.right)
  }

  /** Right rotation at the root, the mirror image of `RotateLeft`. */
  function RotateRight(t: Tree): (u: Tree)
    requires t.Node? && t.left.Node?
    ensures u.Node? && u.id == t.left.id && Ids(u) == Ids(t) && Size(u) == Size(t)
  {
    var y := t.left;
    Node(y.color, y.left, y.id, y.key, y.val, Node(t.color, y.right, t.id, t.key, t.val, t.right))
  }

  /** Rotations keep the handles distinct. */
  lemma RotationsDistinct(t: Tree)
    requires Distinct(t)
    ensures t.Node? && t.right.Node? ==> Distinct(RotateLeft(t))
    ensures t.Node? && t.left.Node? ==> Distinct(RotateRight(t))
  {
    if t.Node? && t.right.Node? {
      var y := t.right;
      assert Distinct(y);
      assert Distinct(Node(t.color, t.left, t.id, t.key, t.val, y.left));
    }
    if t.Node? && t.left.Node? {
      var y := t.left;
      assert Distinct(y);
      assert Distinct(Node(t.color, y.right, t.id, t.key, t.val, t.right));
    }
  }

  /** The two rotations undo each other. */
  lemma RotationsInverse(t: Tree)
    requires t.Node? && t.right.Node?
    ensures RotateRight(RotateLeft(t)) == t
  {
  }
}
