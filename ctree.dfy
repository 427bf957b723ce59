/** `CTree`: the red-black tree index from byte-vector keys to byte-vector
    values. Its nodes live in an arena of `CNode` records (`nodes`) addressed by
    handles; `root` is `m_Root` and `size` is `m_Size`. The ghost field `shape`
    is the tree the records spell out, and every public operation is specified
    through it: `Contents()` is the map the tree stores. */
module CTreeIndex {
  import opened ByteOrder
  import opened TreeShape
  import opened SearchTree
  import opened RedBlack
  import opened Fixup
  import opened Arena

  /** What the guard of `insertFix` reads at the cursor `n`: the records of
      `n` and of its parent exist, and the guard on the records is `Guard`. */
  ghost predicate CursorView(t: Tree, A: seq<CNode>, n: Ptr)
  {
    0 <= n < |A| && (n != RootId(t) ==> 0 <= A[n].parent < |A|) &&
    (Guard(t, n) <==> n != RootId(t) && A[A[n].parent].color == Red)
  }

  lemma CursorViewHolds(t: Tree, A: seq<CNode>, n: Ptr)
    requires Distinct(t) && Agrees(t, Null, A) && n in Ids(t)
    ensures CursorView(t, A, n)
  {
    AgreesAt(t, Null, A, n);
    if n != RootId(t) {
      ParentFacts(t, n);
      AgreesAt(t, Null, A, ParentId(t, n));
    }
  }

  /** The records `insertFix` reads inside its loop: the parent `p` and
      grandparent `g` of the cursor, their child links and the colours of the
      children of `g`. */
  lemma FixSite(t: Tree, A: seq<CNode>, n: Ptr)
    requires Fixing(t, n) && Guard(t, n) && Agrees(t, Null, A)
    ensures var p := ParentId(t, n); var g := Grand(t, n);
      0 <= n < |A| && A[n].parent == p && 0 <= p < |A| && A[p].parent == g && 0 <= g < |A| &&
      p != n && g != n && g != p
    ensures var p := ParentId(t, n); var g := Grand(t, n); var s := Subtree(t, g); var ps := Subtree(t, p);
      s.Node? && ps.Node? && A[g].left == RootId(s.left) && A[g].right == RootId(s.right) &&
      A[p].left == RootId(ps.left) && A[p].right == RootId(ps.right)
    ensures var g := Grand(t, n); var s := Subtree(t, g);
      s.Node? && (s.left.Node? ==> 0 <= s.left.id < |A| && A[s.left.id].color == s.left.color && s.left.id != g) &&
      (s.right.Node? ==> 0 <= s.right.id < |A| && A[s.right.id].color == s.right.color && s.right.id != g) &&
      (s.left.Node? && s.right.Node? ==> s.left.id != s.right.id)
  {
    Picture(t, n);
    var p := ParentId(t, n);
    var g := Grand(t, n);
    var s := Subtree(t, g);
    AgreesAt(t, Null, A, n);
    AgreesAt(t, Null, A, p);
    AgreesAt(t, Null, A, g);
    SubtreeFacts(t, g);
    SubtreeOfChild(t, g);
    if s.left.Node? {
      assert s.left.id in Ids(s);
      AgreesAt(t, Null, A, s.left.id);
    }
    if s.right.Node? {
      assert s.right.id in Ids(s);
      AgreesAt(t, Null, A, s.right.id);
    }
  }

  /** The outer step when the parent is a left child: after the writes parent
      BLACK and grandparent RED the records hold the repainted tree, and
      rotating that tree right at the grandparent ends the loop with the
      invariant, the map, the key order and the nodes kept. */
  lemma OuterLeftStep(t: Tree, A: seq<CNode>, n: Ptr, B: seq<CNode>)
    requires Fixing(t, n) && Guard(t, n) && Ordered(t) && Agrees(t, Null, A)
    requires var s := Subtree(t, Grand(t, n));
      s.Node? && RootColor(s.right) == Black && s.left.Node? && s.left.id == ParentId(t, n) &&
      s.left.left.Node? && s.left.left.id == n
    requires var p := ParentId(t, n); var g := Grand(t, n);
      SameExcept(A, B, {g, p}) && 0 <= g < |A| && 0 <= p < |A| &&
      B[g] == A[g].(color := Red) && B[p] == A[p].(color := Black)
    ensures var g := Grand(t, n); var s := Subtree(t, g);
      var t' := Subst(t, g, PaintedLeft(s));
      Distinct(t') && Agrees(t', Null, B) && RootId(t') == RootId(t) && Size(t') == Size(t) &&
      g in Ids(t') && Subtree(t', g).Node? && Subtree(t', g).left.Node?
    ensures var g := Grand(t, n); var s := Subtree(t, g);
      var t' := Subst(t, g, PaintedLeft(s));
      var t'' := Subst(t', g, RotateRight(Subtree(t', g)));
      Fixing(t'', n) && !Guard(t'', n) && Ordered(t'') && Content(t'') == Content(t) &&
      InOrder(t'') == InOrder(t) && Ids(t'') == Ids(t) && t'' == OuterLeft(t, g)
  {
    Picture(t, n);
    var g := Grand(t, n);
    var s := Subtree(t, g);
    var h := PaintedLeft(s);
    SubtreeFacts(t, g);
    Repaint(s.left, Black);
    AgreesPaint(t, A, g, true, B);
    SubstFacts(t, g, h);
    SubstTwice(t, g, h, RotateRight(h));
    OuterCaseLeft(t, n);
  }

  /** Mirror of `OuterLeftStep` when the parent is a right child. */
  lemma OuterRightStep(t: Tree, A: seq<CNode>, n: Ptr, B: seq<CNode>)
    requires Fixing(t, n) && Guard(t, n) && Ordered(t) && Agrees(t, Null, A)
    requires var s := Subtree(t, Grand(t, n));
      s.Node? && RootColor(s.left) == Black && s.right.Node? && s.right.id == ParentId(t, n) &&
      s.right.right.Node? && s.right.right.id == n
    requires var p := ParentId(t, n); var g := Grand(t, n);
      SameExcept(A, B, {g, p}) && 0 <= g < |A| && 0 <= p < |A| &&
      B[g] == A[g].(color := Red) && B[p] == A[p].(color := Black)
    ensures var g := Grand(t, n); var s := Subtree(t, g);
      var t' := Subst(t, g, PaintedRight(s));
      Distinct(t') && Agrees(t', Null, B) && RootId(t') == RootId(t) && Size(t') == Size(t) &&
      g in Ids(t') && Subtree(t', g).Node? && Subtree(t', g).right.Node?
    ensures var g := Grand(t, n); var s := Subtree(t, g);
      var t' := Subst(t, g, PaintedRight(s));
      var t'' := Subst(t', g, RotateLeft(Subtree(t', g)));
      Fixing(t'', n) && !Guard(t'', n) && Ordered(t'') && Content(t'') == Content(t) &&
      InOrder(t'') == InOrder(t) && Ids(t'') == Ids(t) && t'' == OuterRight(t, g)
  {
    Picture(t, n);
    var g := Grand(t, n);
    var s := Subtree(t, g);
    var h := PaintedRight(s);
    SubtreeFacts(t, g);
    Repaint(s.right, Black);
    AgreesPaint(t, A, g, false, B);
    SubstFacts(t, g, h);
    SubstTwice(t, g, h, RotateLeft(h));
    OuterCaseRight(t, n);
  }

  /** The red-uncle step: after the writes grandparent RED, uncle and parent
      BLACK the records hold the recoloured tree, in which the grandparent is
      the new cursor of a loop invariant that holds again. */
  lemma RecolorAt(t: Tree, A: seq<CNode>, n: Ptr, u: Ptr, B: seq<CNode>)
    requires Fixing(t, n) && Guard(t, n) && Ordered(t) && Agrees(t, Null, A)
    requires var s := Subtree(t, Grand(t, n));
      s.Node? && s.left.Node? && s.right.Node? && s.left.color == Red && s.right.color == Red &&
      u != ParentId(t, n) && (u == s.left.id || u == s.right.id)
    requires var p := ParentId(t, n); var g := Grand(t, n);
      0 <= g < |A| && 0 <= u < |A| && 0 <= p < |A| && B == RecolorWrites(A, g, u, p)
    ensures var g := Grand(t, n); var s := Subtree(t, g);
      var t' := Subst(t, g, Recolored(s));
      Distinct(t') && Agrees(t', Null, B) && RootId(t') == RootId(t) && Size(t') == Size(t) &&
      Fixing(t', g) && Ordered(t') && Content(t') == Content(t) && InOrder(t') == InOrder(t) &&
      Ids(t') == Ids(t) && Size(Subtree(t, n)) < Size(Subtree(t', g))
  {
    Picture(t, n);
    var g := Grand(t, n);
    var s := Subtree(t, g);
    RecolorCase(t, n);
    FixSite(t, A, n);
    RecolorWritesFacts(A, g, u, ParentId(t, n));
    AgreesRecolor(t, A, g, B);
  }

  /** What one pass of the `insertFix` loop reads to choose its case: the
      parent `p` and grandparent `g` records, which side of `g` holds `p`,
      and the uncle on the other side with its colour. */
  lemma Branches(t: Tree, A: seq<CNode>, n: Ptr)
    requires Fixing(t, n) && Guard(t, n) && Agrees(t, Null, A)
    ensures 0 <= n < |A| && 0 <= A[n].parent < |A| && 0 <= A[A[n].parent].parent < |A|
    ensures var p := A[n].parent; var g := A[p].parent; var s := Subtree(t, Grand(t, n));
      p == ParentId(t, n) && g == Grand(t, n) && s.Node? &&
      (s.left.Node? && s.right.Node? ==> s.left.id != s.right.id) &&
      (A[g].left != Null ==> 0 <= A[g].left < |A|) && (A[g].right != Null ==> 0 <= A[g].right < |A|)
    ensures var p := A[n].parent; var g := A[p].parent; var s := Subtree(t, Grand(t, n));
      p == A[g].left ==> (s.Node? && s.left.Node? && s.left.id == p && s.left.color == Red &&
        A[g].right == RootId(s.right) && (A[g].right != Null ==> A[A[g].right].color == s.right.color))
    ensures var p := A[n].parent; var g := A[p].parent; var s := Subtree(t, Grand(t, n));
      p != A[g].left ==> (s.Node? && s.right.Node? && s.right.id == p && s.right.color == Red &&
        A[g].left == RootId(s.left) && (A[g].left != Null ==> A[A[g].left].color == s.left.color))
  {
    FixSite(t, A, n);
    Picture(t, n);
  }

  /** The state `insert` hands to `insertFix`: after the new RED record is
      appended and linked at the empty slot of `parent`, the records hold the
      search-tree insertion of the key, which has one more node, the new entry
      in its map, the same root, and satisfies the loop invariant at the new
      node. */
  lemma AttachStep(t: Tree, A: seq<CNode>, parent: Ptr, goLeft: bool, key: Bytes, value: Bytes, B: seq<CNode>)
    requires Distinct(t) && Agrees(t, Null, A) && |A| == Size(t) && Ordered(t) && IsRedBlack(t)
    requires parent in Ids(t) && key !in Content(t)
    requires var S := Subtree(t, parent);
      key != S.key && goLeft == Less(key, S.key) && (if goLeft then S.left else S.right).Leaf?
    requires BstInsert(t, key, value, |A|) == Subst(t, parent, BstInsert(Subtree(t, parent), key, value, |A|))
    requires 0 <= parent < |A| && B == AttachWrites(A, parent, goLeft, key, value)
    ensures var t' := BstInsert(t, key, value, |A|);
      Distinct(t') && Agrees(t', Null, B) && RootId(t') == RootId(t) && Size(t') == Size(t) + 1 &&
      Ids(t') == Ids(t) + {|A|} && Ordered(t') && Fixing(t', |A|) && Content(t') == Content(t)[key := value]
  {
    var S := Subtree(t, parent);
    var leaf := Node(Red, Leaf, |A|, key, value, Leaf);
    AgreesBound(t, Null, A);
    ContentKeys(t);
    AgreesAttach(t, A, parent, goLeft, key, value, B);
    assert BstInsert(S, key, value, |A|) == if goLeft then S.(left := leaf) else S.(right := leaf);
    BstInsertShape(t, key, value, |A|);
    BstInsertOrdered(t, key, value, |A|);
    BstInsertContent(t, key, value, |A|);
    FixStart(t, key, value, |A|);
  }

  class CTree {
    var nodes: seq<CNode>
    var size: nat
    var root: Ptr
    ghost var shape: Tree

    /** The records hold `shape` with no record left over, `root` is its root
        and `size` counts its nodes. */
    ghost predicate Linked()
      reads this
    {
      Distinct(shape) && Agrees(shape, Null, nodes) && root == RootId(shape) &&
      size == Size(shape) && |nodes| == size
    }

    /** The invariant every public operation keeps: a linked binary search tree
        under the byte order that satisfies the red-black invariants. */
    ghost predicate Valid()
      reads this
    {
      Linked() && Ordered(shape) && IsRedBlack(shape)
    }

    /** The key/value map the tree stores. */
    ghost function Contents(): map<Bytes, Bytes>
      reads this
    {
      Content(shape)
    }

    /** `CTree()`: no nodes, no root. */
    constructor ()
      ensures Valid() && Contents() == map[] && size == 0 && root == Null
    {
      nodes := [];
      size := 0;
      root := Null;
      shape := Leaf;
    }

    /** `m_Size` is the number of distinct nodes reachable from `m_Root`. */
    lemma SizeCountsNodes()
      requires Linked()
      ensures |Ids(shape)| == size
    {
      DistinctSize(shape);
    }

    /** `find`: look `key` up by descending from the root. */
    method Find(key: Bytes) returns (found: bool, value: Bytes)
      requires Valid()
      ensures found <==> key in Contents()
      ensures found ==> value == Contents()[key]
      ensures !found ==> value == []
    {
      if size == 0 {
        return false, [];
      }
      var current := root;
      ghost var sub := shape;
      ghost var up := Null;
      while current != Null
        invariant Agrees(sub, up, nodes) && current == RootId(sub) && Ordered(sub)
        invariant key in Content(shape) <==> key in Content(sub)
        invariant key in Content(sub) ==> Content(shape)[key] == Content(sub)[key]
        decreases Size(sub)
      {
        var n := nodes[current];
        if key == n.key {
          RootEntry(sub);
          return true, n.val;
        }
        Descend(sub, key);
        up := current;
        current := if Less(key, n.key) then n.left else n.right;
        sub := if Less(key, n.key) then sub.left else sub.right;
      }
      return false, [];
    }

    /** `insert`: descend as `find` does; on an equal key stop and report
        `false` with nothing changed, otherwise hang a new RED node at the empty
        link reached, count it and restore the red-black invariants. The first
        node of an empty tree becomes a BLACK root. */
    method Insert(key: Bytes, value: Bytes) returns (inserted: bool)
      requires Valid()
      modifies this
      ensures Valid()
      ensures inserted <==> key !in old(Contents())
      ensures inserted ==> Contents() == old(Contents())[key := value] && size == old(size) + 1
      ensures key in Contents() && Contents()[key] == if inserted then value else old(Contents())[key]
      ensures !inserted ==> nodes == old(nodes) && shape == old(shape) && size == old(size) && root == old(root)
    {
      if size == 0 {
        nodes := [CNode(key, value, Null, Null, Null, Black)];
        root := 0;
        size := 1;
        shape := Node(Black, Leaf, 0, key, value, Leaf);
        return true;
      }
      var found, parent, goLeft := Locate(key, value);
      if found {
        return false;
      }
      Attach(parent, goLeft, key, value);
      inserted := true;
    }

    /** The descent loop of `insert`: it finds `key` in the tree, or else the
        node `parent` whose empty link on the side `goLeft` is where the search
        for `key` ends, so that hanging a new node for `key` and `value` there
        is the search-tree insertion into the stored tree. */
    method Locate(key: Bytes, ghost value: Bytes) returns (found: bool, parent: Ptr, goLeft: bool)
      requires Valid() && size > 0
      ensures found <==> key in Contents()
      ensures !found ==> parent in Ids(shape)
      ensures !found ==> var S := Subtree(shape, parent);
        key != S.key && goLeft == Less(key, S.key) && (if goLeft then S.left else S.right).Leaf?
      ensures !found ==>
        BstInsert(shape, key, value, |nodes|) == Subst(shape, parent, BstInsert(Subtree(shape, parent), key, value, |nodes|))
    {
      ghost var t := shape;
      var current := root;
      parent, goLeft := Null, false;
      ghost var sub := t;
      while current != Null
        invariant current == RootId(sub) && Ordered(sub)
        invariant current != Null ==> current in Ids(t) && Subtree(t, current) == sub
        invariant parent != Null ==>
          (parent in Ids(t) && key != Subtree(t, parent).key && goLeft == Less(key, Subtree(t, parent).key) &&
           sub == if goLeft then Subtree(t, parent).left else Subtree(t, parent).right)
        invariant current == Null ==> parent != Null
        invariant key in Content(t) <==> key in Content(sub)
        invariant var a := if current != Null then current else parent;
          key !in Content(t) ==>
            BstInsert(t, key, value, |nodes|) == Subst(t, a, BstInsert(Subtree(t, a), key, value, |nodes|))
        decreases Size(sub)
      {
        AgreesAt(t, Null, nodes, current);
        parent := current;
        if key == nodes[current].key {
          RootEntry(sub);
          return true, parent, goLeft;
        }
        Descend(sub, key);
        BstInsertDescend(t, current, key, value, |nodes|);
        SubtreeOfChild(t, current);
        SubtreeFacts(t, current);
        goLeft := Less(key, nodes[current].key);
        current := if goLeft then nodes[current].left else nodes[current].right;
        sub := if goLeft then sub.left else sub.right;
        if current != Null {
          SubtreeOrdered(t, current);
        }
      }
      return false, parent, goLeft;
    }

    /** The end of `insert` below the node `parent`: the new RED record takes
        the next free handle, the chosen empty link of `parent` leads to it,
        `size` counts it and `insertFix` runs from it. */
    method Attach(parent: Ptr, goLeft: bool, key: Bytes, value: Bytes)
      requires Valid() && parent in Ids(shape) && key !in Content(shape)
      requires var S := Subtree(shape, parent);
        key != S.key && goLeft == Less(key, S.key) && (if goLeft then S.left else S.right).Leaf?
      requires BstInsert(shape, key, value, |nodes|) ==
        Subst(shape, parent, BstInsert(Subtree(shape, parent), key, value, |nodes|))
      modifies this
      ensures Valid() && Contents() == old(Contents())[key := value] && size == old(size) + 1
      ensures Ids(shape) == old(Ids(shape)) + {old(|nodes|)}
    {
      ghost var t := shape;
      ghost var A := nodes;
      AgreesAt(t, Null, A, parent);
      var z := |nodes|;
      nodes := nodes + [CNode(key, value, Null, Null, parent, Red)];
      if goLeft {
        nodes := nodes[parent := nodes[parent].(left := z)];
      } else {
        nodes := nodes[parent := nodes[parent].(right := z)];
      }
      size := size + 1;
      AttachWritesIs(A, parent, goLeft, key, value, nodes);
      AttachStep(t, A, parent, goLeft, key, value, nodes);
      shape := BstInsert(t, key, value, z);
      InsertFix(z);
    }

    /** `rotateLeft`: the right child of `x` takes its place and `x` becomes
        that child's left child. The tree stored is the old one with the
        subtree of `x` rotated; a search tree keeps its map and key order. */
    method RotateLeft(x: Ptr)
      requires Linked() && x in Ids(shape) && Subtree(shape, x).right.Node?
      modifies this
      ensures Linked() && size == old(size) && Ids(shape) == old(Ids(shape))
      ensures shape == Subst(old(shape), x, TreeShape.RotateLeft(Subtree(old(shape), x)))
      ensures LeftSite(old(nodes), x) && nodes == RotateLeftWrites(old(nodes), x)
      ensures Ordered(old(shape)) ==>
        Ordered(shape) && Content(shape) == old(Content(shape)) && InOrder(shape) == old(InOrder(shape))
    {
      ghost var t := shape;
      ghost var A := nodes;
      RotateLeftSite(t, A, x);

      var tmp := nodes[x].right;
      nodes := nodes[x := nodes[x].(right := nodes[tmp].left)];
      if nodes[x].right != Null {
        nodes := nodes[nodes[x].right := nodes[nodes[x].right].(parent := x)];
      }
      nodes := nodes[tmp := nodes[tmp].(parent := nodes[x].parent)];
      if nodes[x].parent == Null {
        root := tmp;
      } else if nodes[nodes[x].parent].left == x {
        nodes := nodes[nodes[x].parent := nodes[nodes[x].parent].(left := tmp)];
      } else {
        nodes := nodes[nodes[x].parent := nodes[nodes[x].parent].(right := tmp)];
      }
      nodes := nodes[tmp := nodes[tmp].(left := x)];
      nodes := nodes[x := nodes[x].(parent := tmp)];

      assert nodes == RotateLeftWrites(A, x);
      AgreesRotateLeft(t, A, x);
      SubstRotateLeft(t, x);
      shape := Subst(t, x, TreeShape.RotateLeft(Subtree(t, x)));
    }

    /** `rotateRight`: the mirror image of `RotateLeft`. */
    method RotateRight(x: Ptr)
      requires Linked() && x in Ids(shape) && Subtree(shape, x).left.Node?
      modifies this
      ensures Linked() && size == old(size) && Ids(shape) == old(Ids(shape))
      ensures shape == Subst(old(shape), x, TreeShape.RotateRight(Subtree(old(shape), x)))
      ensures RightSite(old(nodes), x) && nodes == RotateRightWrites(old(nodes), x)
      ensures Ordered(old(shape)) ==>
        Ordered(shape) && Content(shape) == old(Content(shape)) && InOrder(shape) == old(InOrder(shape))
    {
      ghost var t := shape;
      ghost var A := nodes;
      RotateRightSite(t, A, x);

      var tmp := nodes[x].left;
      nodes := nodes[x := nodes[x].(left := nodes[tmp].right)];
      if nodes[x].left != Null {
        nodes := nodes[nodes[x].left := nodes[nodes[x].left].(parent := x)];
      }
      nodes := nodes[tmp := nodes[tmp].(parent := nodes[x].parent)];
      if nodes[x].parent == Null {
        root := tmp;
      } else if nodes[nodes[x].parent].left == x {
        nodes := nodes[nodes[x].parent := nodes[nodes[x].parent].(left := tmp)];
      } else {
        nodes := nodes[nodes[x].parent := nodes[nodes[x].parent].(right := tmp)];
      }
      nodes := nodes[tmp := nodes[tmp].(right := x)];
      nodes := nodes[x := nodes[x].(parent := tmp)];

      assert nodes == RotateRightWrites(A, x);
      AgreesRotateRight(t, A, x);
      SubstRotateRight(t, x);
      shape := Subst(t, x, TreeShape.RotateRight(Subtree(t, x)));
    }

    /** `insertFix`: starting from the RED node `n` just attached, recolour and
        rotate towards the root until no RED node has a RED parent, then paint
        the root BLACK. The result is a red-black search tree with the same
        map, key order and nodes. */
    method InsertFix(n: Ptr)
      requires Linked() && Ordered(shape) && Fixing(shape, n)
      modifies this
      ensures Valid() && size == old(size) && Ids(shape) == old(Ids(shape))
      ensures Content(shape) == old(Content(shape)) && InOrder(shape) == old(InOrder(shape))
    {
      var node := n;
      CursorViewHolds(shape, nodes, node);
      while node != root && nodes[nodes[node].parent].color == Red
        invariant Linked() && Ordered(shape) && Fixing(shape, node) && CursorView(shape, nodes, node)
        invariant size == old(size) && Ids(shape) == old(Ids(shape))
        invariant Content(shape) == old(Content(shape)) && InOrder(shape) == old(InOrder(shape))
        decreases if Guard(shape, node) then 1 else 0, Size(shape) - Size(Subtree(shape, node))
      {
        node := FixStep(node);
      }
      FixDone(shape, node);
      ghost var A := nodes;
      AgreesBound(shape, Null, A);
      nodes := nodes[root := nodes[root].(color := Black)];
      AgreesRoot(shape, Null, A, Null, Black, nodes);
      Repaint(shape, Black);
      shape := shape.(color := Black);
    }

    /** One pass of the `insertFix` loop: the case analysis on the side of the
        parent and the colour of the uncle. Either the violation is resolved
        at the new cursor, or the cursor climbs to a strictly larger subtree. */
    method FixStep(node: Ptr) returns (next: Ptr)
      requires Linked() && Ordered(shape) && Fixing(shape, node) && Guard(shape, node)
      modifies this
      ensures Linked() && Ordered(shape) && Fixing(shape, next) && CursorView(shape, nodes, next)
      ensures size == old(size) && Ids(shape) == old(Ids(shape))
      ensures Content(shape) == old(Content(shape)) && InOrder(shape) == old(InOrder(shape))
      ensures Size(Subtree(shape, next)) <= Size(shape)
      ensures !Guard(shape, next) || old(Size(Subtree(shape, node))) < Size(Subtree(shape, next))
    {
      Branches(shape, nodes, node);
      if nodes[node].parent == nodes[nodes[nodes[node].parent].parent].left {
        var uncle := nodes[nodes[nodes[node].parent].parent].right;
        if uncle == Null || nodes[uncle].color == Black {
          next := RestructureLeft(node);
        } else {
          next := Recolor(node, uncle);
        }
      } else {
        var uncle := nodes[nodes[nodes[node].parent].parent].left;
        if uncle == Null || nodes[uncle].color == Black {
          next := RestructureRight(node);
        } else {
          next := Recolor(node, uncle);
        }
      }
      CursorViewHolds(shape, nodes, next);
      SubtreeFacts(shape, next);
    }

    /** The red-uncle case of the `insertFix` loop, on either side: grandparent
        RED, uncle and parent BLACK, and the cursor moves to the grandparent,
        whose subtree is strictly larger than the cursor's. */
    method Recolor(node: Ptr, uncle: Ptr) returns (next: Ptr)
      requires Linked() && Ordered(shape) && Fixing(shape, node) && Guard(shape, node)
      requires var s := Subtree(shape, Grand(shape, node));
        s.Node? && s.left.Node? && s.right.Node? && s.left.color == Red && s.right.color == Red &&
        uncle != ParentId(shape, node) && (uncle == s.left.id || uncle == s.right.id)
      modifies this
      ensures Linked() && Ordered(shape) && Fixing(shape, next) && next == old(Grand(shape, node))
      ensures size == old(size) && Ids(shape) == old(Ids(shape))
      ensures Content(shape) == old(Content(shape)) && InOrder(shape) == old(InOrder(shape))
      ensures old(Size(Subtree(shape, node))) < Size(Subtree(shape, next))
      ensures shape == Subst(old(shape), next, Recolored(old(Subtree(shape, Grand(shape, node)))))
      ensures var p := old(ParentId(shape, node));
        0 <= next < old(|nodes|) && 0 <= uncle < old(|nodes|) && 0 <= p < old(|nodes|) &&
        nodes == RecolorWrites(old(nodes), next, uncle, p)
    {
      ghost var t := shape;
      ghost var A := nodes;
      ghost var p := ParentId(t, node);
      ghost var g := Grand(t, node);
      assert 0 <= node < |A| && A[node].parent == p && 0 <= p < |A| && A[p].parent == g &&
        0 <= g < |A| && 0 <= uncle < |A| && g != p && g != uncle by {
        FixSite(t, A, node);
      }
      var parent := nodes[node].parent;
      var grand := nodes[parent].parent;
      nodes := nodes[grand := nodes[grand].(color := Red)];
      nodes := nodes[uncle := nodes[uncle].(color := Black)];
      nodes := nodes[parent := nodes[parent].(color := Black)];
      assert nodes == RecolorWrites(A, grand, uncle, parent);
      RecolorAt(t, A, node, uncle, nodes);
      ghost var s := Subtree(t, grand);
      shape := Subst(t, grand, Recolored(s));
      next := grand;
    }

    /** The black-or-absent-uncle case when the parent is a left child: an
        inner cursor is first rotated left at the parent and the parent becomes
        the cursor; then `FinishLeft` ends the loop. */
    method RestructureLeft(node: Ptr) returns (next: Ptr)
      requires Linked() && Ordered(shape) && Fixing(shape, node) && Guard(shape, node)
      requires var s := Subtree(shape, Grand(shape, node));
        s.Node? && RootColor(s.right) == Black && s.left.Node? && s.left.id == ParentId(shape, node)
      modifies this
      ensures Linked() && Ordered(shape) && Fixing(shape, next) && !Guard(shape, next)
      ensures size == old(size) && Ids(shape) == old(Ids(shape))
      ensures Content(shape) == old(Content(shape)) && InOrder(shape) == old(InOrder(shape))
      ensures var g := old(Grand(shape, node)); var t0 := InnerLeft(old(shape), old(ParentId(shape, node)), node);
        Subtree(t0, g).Node? && Subtree(t0, g).left.Node? && shape == OuterLeft(t0, g)
    {
      ghost var t := shape;
      FixSite(shape, nodes, node);
      Picture(shape, node);
      next := node;
      if next == nodes[nodes[next].parent].right {
        InnerCaseLeft(shape, next);
        next := nodes[next].parent;
        RotateLeft(next);
      }
      FinishLeft(next);
    }

    /** Parent BLACK, grandparent RED, rotate right at the grandparent: the
        cursor's parent is now BLACK and the loop ends. */
    method FinishLeft(node: Ptr)
      requires Linked() && Ordered(shape) && Fixing(shape, node) && Guard(shape, node)
      requires var s := Subtree(shape, Grand(shape, node));
        s.Node? && RootColor(s.right) == Black && s.left.Node? && s.left.id == ParentId(shape, node) &&
        s.left.left.Node? && s.left.left.id == node
      modifies this
      ensures Linked() && Ordered(shape) && Fixing(shape, node) && !Guard(shape, node)
      ensures size == old(size) && Ids(shape) == old(Ids(shape))
      ensures Content(shape) == old(Content(shape)) && InOrder(shape) == old(InOrder(shape))
      ensures shape == OuterLeft(old(shape), old(Grand(shape, node)))
    {
      ghost var t := shape;
      ghost var A := nodes;
      FixSite(t, A, node);
      nodes := nodes[nodes[node].parent := nodes[nodes[node].parent].(color := Black)];
      nodes := nodes[nodes[nodes[node].parent].parent := nodes[nodes[nodes[node].parent].parent].(color := Red)];
      OuterLeftStep(t, A, node, nodes);
      ghost var g := Grand(t, node);
      ghost var s := Subtree(t, g);
      shape := Subst(t, g, PaintedLeft(s));
      RotateRight(nodes[nodes[node].parent].parent);
    }

    /** Mirror of `RestructureLeft` when the parent is a right child. */
    method RestructureRight(node: Ptr) returns (next: Ptr)
      requires Linked() && Ordered(shape) && Fixing(shape, node) && Guard(shape, node)
      requires var s := Subtree(shape, Grand(shape, node));
        s.Node? && RootColor(s.left) == Black && s.right.Node? && s.right.id == ParentId(shape, node)
      modifies this
      ensures Linked() && Ordered(shape) && Fixing(shape, next) && !Guard(shape, next)
      ensures size == old(size) && Ids(shape) == old(Ids(shape))
      ensures Content(shape) == old(Content(shape)) && InOrder(shape) == old(InOrder(shape))
      ensures var g := old(Grand(shape, node)); var t0 := InnerRight(old(shape), old(ParentId(shape, node)), node);
        Subtree(t0, g).Node? && Subtree(t0, g).right.Node? && shape == OuterRight(t0, g)
    {
      ghost var t := shape;
      FixSite(shape, nodes, node);
      Picture(shape, node);
      next := node;
      if next == nodes[nodes[next].parent].left {
        InnerCaseRight(shape, next);
        next := nodes[next].parent;
        RotateRight(next);
      }
      FinishRight(next);
    }

    /** Mirror of `FinishLeft`: rotate left at the grandparent. */
    method FinishRight(node: Ptr)
      requires Linked() && Ordered(shape) && Fixing(shape, node) && Guard(shape, node)
      requires var s := Subtree(shape, Grand(shape, node));
        s.Node? && RootColor(s.left) == Black && s.right.Node? && s.right.id == ParentId(shape, node) &&
        s.right.right.Node? && s.right.right.id == node
      modifies this
      ensures Linked() && Ordered(shape) && Fixing(shape, node) && !Guard(shape, node)
      ensures size == old(size) && Ids(shape) == old(Ids(shape))
      ensures Content(shape) == old(Content(shape)) && InOrder(shape) == old(InOrder(shape))
      ensures shape == OuterRight(old(shape), old(Grand(shape, node)))
    {
      ghost var t := shape;
      ghost var A := nodes;
      FixSite(t, A, node);
      nodes := nodes[nodes[node].parent := nodes[nodes[node].parent].(color := Black)];
      nodes := nodes[nodes[nodes[node].parent].parent := nodes[nodes[nodes[node].parent].parent].(color := Red)];
      OuterRightStep(t, A, node, nodes);
      ghost var g := Grand(t, node);
      ghost var s := Subtree(t, g);
      shape := Subst(t, g, PaintedRight(s));
      RotateLeft(nodes[nodes[node].parent].parent);
    }
  }
}
