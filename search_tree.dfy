/** The binary-search-tree side of `CTree`: the key/value map a tree stands for,
    its in-order key sequence, the ordering invariant under the lexicographic byte
    order, and the leaf insertion that `insert`'s descent performs. */
module SearchTree {
  import opened ByteOrder
  import opened TreeShape

  /** Keys stored in `t`. */
  function Keys(t: Tree): set<Bytes>
  {
    match t
    case Leaf => {}
    case Node(_, l, _, k, _, r) => Keys(l) + {k} + Keys(r)
  }

  /** The abstract map from key to value that `t` stores. */
  function Content(t: Tree): map<Bytes, Bytes>
  {
    match t
    case Leaf => map[]
    case Node(_, l, _, k, v, r) => Content(l) + Content(r) + map[k := v]
  }

  /** Keys of `t` read left to right. */
  function InOrder(t: Tree): seq<Bytes>
  {
    match t
    case Leaf => []
    case Node(_, l, _, k, _, r) => InOrder(l) + [k] + InOrder(r)
  }

  /** BST property: every key on the left of a node is less than the node's key,
      every key on its right is greater (so, in particular, no key occurs twice). */
  predicate Ordered(t: Tree)
  {
    match t
    case Leaf => true
    case Node(_, l, _, k, _, r) =>
      Ordered(l) && Ordered(r) &&
      (forall k' | k' in Keys(l) :: Less(k', k)) &&
      (forall k' | k' in Keys(r) :: Less(k, k'))
  }

  /** A strictly increasing sequence of keys. */
  predicate StrictlyIncreasing(s: seq<Bytes>)
  {
    forall i, j | 0 <= i < j < |s| :: Less(s[i], s[j])
  }

  /** The keys of the map are the keys of the tree. */
  lemma {:induction false} ContentKeys(t: Tree)
    ensures Content(t).Keys == Keys(t)
  {
    match t
    case Leaf =>
    case Node(_, l, _, _, _, r) =>
      ContentKeys(l);
      ContentKeys(r);
  }

  /** The in-order sequence lists exactly the keys. */
  lemma {:induction false} InOrderKeys(t: Tree)
    ensures forall k :: k in InOrder(t) <==> k in Keys(t)
  {
    match t
    case Leaf =>
    case Node(_, l, _, _, _, r) =>
      InOrderKeys(l);
      InOrderKeys(r);
  }

  /** A search tree lists its keys in strictly increasing order. */
  lemma {:induction false} OrderedInOrder(t: Tree)
    requires Ordered(t)
    ensures StrictlyIncreasing(InOrder(t))
  {
    match t
    case Leaf =>
    case Node(_, l, _, k, _, r) =>
      OrderedInOrder(l);
      OrderedInOrder(r);
      InOrderKeys(l);
      InOrderKeys(r);
      var s := InOrder(t);
      var n := |InOrder(l)|;
      forall i, j | 0 <= i < j < |s|
        ensures Less(s[i], s[j])
      {
        if j < n {
          assert s[i] == InOrder(l)[i] && s[j] == InOrder(l)[j];
        } else if i > n {
          assert s[i] == InOrder(r)[i - n - 1] && s[j] == InOrder(r)[j - n - 1];
        } else if i == n {
          assert s[j] == InOrder(r)[j - n - 1] && s[j] in InOrder(r);
        } else if j == n {
          assert s[i] == InOrder(l)[i] && s[i] in InOrder(l);
        } else {
          assert s[i] == InOrder(l)[i] && s[i] in InOrder(l);
          assert s[j] == InOrder(r)[j - n - 1] && s[j] in InOrder(r);
          LessTransitive(s[i], k, s[j]);
        }
      }
  }

  /** One step of the descent in `find` and `insert`: below a node whose key
      differs from `key`, the key can only be in the subtree the comparison picks
      (left when `key < node.key`, right otherwise), with the same value. */
  lemma Descend(t: Tree, key: Bytes)
    requires t.Node? && Ordered(t) && key != t.key
    ensures var next := if Less(key, t.key) then t.left else t.right;
      (key in Content(t) <==> key in Content(next)) &&
      (key in Content(next) ==> Content(t)[key] == Content(next)[key])
  {
    ContentKeys(t.left);
    ContentKeys(t.right);
    if Less(key, t.key) {
      forall k' | k' in Keys(t.right) ensures k' != key {
        LessAsymmetric(t.key, k');
      }
    } else {
      LessTotal(key, t.key);
      forall k' | k' in Keys(t.left) ensures k' != key {
        LessAsymmetric(k', t.key);
      }
    }
  }

  /** The node's own entry is in the map. */
  lemma RootEntry(t: Tree)
    requires t.Node?
    ensures t.key in Content(t) && Content(t)[t.key] == t.val
  {
  }

  /** What `insert` does to the shape when `key` is new: walk down as the
      descent does and hang a RED leaf with handle `id` at the empty slot.
      The key set gains exactly `key`. */
  function BstInsert(t: Tree, key: Bytes, val: Bytes, id: nat): (r: Tree)
    ensures Keys(r) == Keys(t) + {key}
  {
    match t
    case Leaf => Node(Red, Leaf, id, key, val, Leaf)
    case Node(c, l, h, k, v, r) =>
      if key == k then t
      else if Less(key, k) then Node(c, BstInsert(l, key, val, id), h, k, v, r)
      else Node(c, l, h, k, v, BstInsert(r, key, val, id))
  }

  /** Inserting a fresh key keeps the handles distinct, adds the new handle, and
      the new node is a RED leaf. */
  lemma {:induction false} BstInsertShape(t: Tree, key: Bytes, val: Bytes, id: nat)
    requires Distinct(t) && key !in Keys(t) && id !in Ids(t)
    ensures Distinct(BstInsert(t, key, val, id))
    ensures Ids(BstInsert(t, key, val, id)) == Ids(t) + {id}
    ensures Size(BstInsert(t, key, val, id)) == Size(t) + 1
    ensures Subtree(BstInsert(t, key, val, id), id) == Node(Red, Leaf, id, key, val, Leaf)
    ensures t.Node? ==> RootId(BstInsert(t, key, val, id)) == t.id
    ensures RootColor(BstInsert(t, key, val, id)) == if t.Leaf? then Red else t.color
  {
    match t
    case Leaf =>
    case Node(c, l, h, k, v, r) =>
      if Less(key, k) {
        BstInsertShape(l, key, val, id);
      } else {
        BstInsertShape(r, key, val, id);
      }
  }

  /** Inserting a fresh key keeps the tree a search tree and adds that key. */
  lemma {:induction false} BstInsertOrdered(t: Tree, key: Bytes, val: Bytes, id: nat)
    requires Ordered(t) && key !in Keys(t)
    ensures Ordered(BstInsert(t, key, val, id))
    ensures Keys(BstInsert(t, key, val, id)) == Keys(t) + {key}
  {
    match t
    case Leaf =>
    case Node(c, l, h, k, v, r) =>
      if Less(key, k) {
        BstInsertOrdered(l, key, val, id);
      } else {
        LessTotal(key, k);
        BstInsertOrdered(r, key, val, id);
      }
  }

  /** Inserting a fresh key adds exactly that entry to the map; every other
      entry is unchanged. */
  lemma {:induction false} BstInsertContent(t: Tree, key: Bytes, val: Bytes, id: nat)
    requires key !in Keys(t)
    ensures Content(BstInsert(t, key, val, id)) == Content(t)[key := val]
  {
    match t
    case Leaf =>
    case Node(c, l, h, k, v, r) =>
      ContentKeys(r);
      if Less(key, k) {
        BstInsertContent(l, key, val, id);
        UpdateBelowLeft(Content(l), Content(r), k, v, key, val);
      } else if key != k {
        BstInsertContent(r, key, val, id);
        UpdateBelowRight(Content(l), Content(r), k, v, key, val);
      }
  }

  /** One step of `insert`'s descent: inserting below the node `x` is inserting
      below the child that the comparison with the key of `x` chooses. */
  lemma BstInsertDescend(t: Tree, x: Ptr, key: Bytes, val: Bytes, id: nat)
    requires Distinct(t) && x in Ids(t) && key != Subtree(t, x).key
    ensures var s := Subtree(t, x); var c := if Less(key, s.key) then s.left else s.right;
      c.Node? ==> Subst(t, x, BstInsert(s, key, val, id)) == Subst(t, c.id, BstInsert(c, key, val, id))
  {
    var s := Subtree(t, x);
    var c := if Less(key, s.key) then s.left else s.right;
    SubtreeFacts(t, x);
    if c.Node? {
      SubtreeOfChild(t, x);
      var b := BstInsert(c, key, val, id);
      SubstNested(t, x, c.id, b);
      if Less(key, s.key) {
        SubstNotIn(s.right, c.id, b);
      } else {
        SubstNotIn(s.left, c.id, b);
      }
    }
  }

  lemma UpdateBelowLeft(a: map<Bytes, Bytes>, b: map<Bytes, Bytes>, k: Bytes, v: Bytes, key: Bytes, val: Bytes)
    requires key !in b && key != k
    ensures a[key := val] + b + map[k := v] == (a + b + map[k := v])[key := val]
  {
  }

  lemma UpdateBelowRight(a: map<Bytes, Bytes>, b: map<Bytes, Bytes>, k: Bytes, v: Bytes, key: Bytes, val: Bytes)
    requires key != k
    ensures a + b[key := val] + map[k := v] == (a + b + map[k := v])[key := val]
  {
  }

  /** Concatenation of five pieces does not depend on where the middle piece is grouped. */
  lemma Regroup<T>(a: seq<T>, p: seq<T>, b: seq<T>, q: seq<T>, c: seq<T>)
    ensures (a + p + b) + q + c == a + p + (b + q + c)
  {
  }

  /** Rotations keep the in-order key sequence, hence the search order and the map. */
  lemma RotateLeftInOrder(t: Tree)
    requires t.Node? && t.right.Node?
    ensures InOrder(RotateLeft(t)) == InOrder(t)
  {
    var x, y := t, t.right;
    var a, b, c := x.left, y.left, y.right;
    var u := RotateLeft(t);
    var sa, sb, sc := InOrder(a), InOrder(b), InOrder(c);
    assert InOrder(u.left) == sa + [x.key] + sb;
    assert InOrder(u) == InOrder(u.left) + [y.key] + sc;
    assert InOrder(y) == sb + [y.key] + sc;
    assert InOrder(t) == sa + [x.key] + InOrder(y);
    Regroup(sa, [x.key], sb, [y.key], sc);
  }

  lemma RotateLeftKeys(t: Tree)
    requires t.Node? && t.right.Node?
    ensures Keys(RotateLeft(t)) == Keys(t)
  {
    var x, y := t, t.right;
    var a, b, c := x.left, y.left, y.right;
    var u := RotateLeft(t);
    assert u.left == Node(x.color, a, x.id, x.key, x.val, b) && u.right == c;
    assert Keys(u) == (Keys(a) + {x.key} + Keys(b)) + {y.key} + Keys(c);
    assert Keys(t) == Keys(a) + {x.key} + (Keys(b) + {y.key} + Keys(c));
  }

  lemma RotateLeftSearch(t: Tree)
    requires t.Node? && t.right.Node? && Ordered(t)
    ensures InOrder(RotateLeft(t)) == InOrder(t)
    ensures Keys(RotateLeft(t)) == Keys(t)
    ensures Content(RotateLeft(t)) == Content(t)
    ensures Ordered(RotateLeft(t))
  {
    RotateLeftInOrder(t);
    RotateLeftKeys(t);
    RotateLeftOrdered(t);
    RotateLeftContent(t);
  }

  lemma RotateLeftOrdered(t: Tree)
    requires t.Node? && t.right.Node? && Ordered(t)
    ensures Ordered(RotateLeft(t))
  {
    var x, y := t, t.right;
    var a, b := x.left, y.left;
    forall k' | k' in Keys(a) ensures Less(k', y.key) {
      LessTransitive(k', x.key, y.key);
    }
    assert Ordered(Node(x.color, a, x.id, x.key, x.val, b));
  }

  lemma RotateLeftContent(t: Tree)
    requires t.Node? && t.right.Node? && Ordered(t)
    ensures Content(RotateLeft(t)) == Content(t)
  {
    var x, y := t, t.right;
    var a, b, c := x.left, y.left, y.right;
    ContentKeys(c);
    assert x.key !in Keys(c) by {
      if x.key in Keys(c) { LessAsymmetric(x.key, y.key); }
    }
    LessIrreflexive(x.key);
    RotationMaps(Content(a), Content(b), Content(c), x.key, x.val, y.key, y.val);
    assert Content(t) == Content(a) + (Content(b) + Content(c) + map[y.key := y.val]) + map[x.key := x.val];
  }

  lemma RotateRightInOrder(t: Tree)
    requires t.Node? && t.left.Node?
    ensures InOrder(RotateRight(t)) == InOrder(t)
  {
    var x, y := t, t.left;
    var a, b, c := y.left, y.right, x.right;
    var u := RotateRight(t);
    var sa, sb, sc := InOrder(a), InOrder(b), InOrder(c);
    assert InOrder(u.right) == sb + [x.key] + sc;
    assert InOrder(u) == sa + [y.key] + InOrder(u.right);
    assert InOrder(y) == sa + [y.key] + sb;
    assert InOrder(t) == InOrder(y) + [x.key] + sc;
    Regroup(sa, [y.key], sb, [x.key], sc);
  }

  lemma RotateRightKeys(t: Tree)
    requires t.Node? && t.left.Node?
    ensures Keys(RotateRight(t)) == Keys(t)
  {
    var x, y := t, t.left;
    var a, b, c := y.left, y.right, x.right;
    var u := RotateRight(t);
    assert u.left == a && u.right == Node(x.color, b, x.id, x.key, x.val, c);
    assert Keys(u) == Keys(a) + {y.key} + (Keys(b) + {x.key} + Keys(c));
    assert Keys(t) == (Keys(a) + {y.key} + Keys(b)) + {x.key} + Keys(c);
  }

  lemma RotateRightSearch(t: Tree)
    requires t.Node? && t.left.Node? && Ordered(t)
    ensures InOrder(RotateRight(t)) == InOrder(t)
    ensures Keys(RotateRight(t)) == Keys(t)
    ensures Content(RotateRight(t)) == Content(t)
    ensures Ordered(RotateRight(t))
  {
    RotateRightInOrder(t);
    RotateRightKeys(t);
    RotateRightOrdered(t);
    RotateRightContent(t);
  }

  lemma RotateRightOrdered(t: Tree)
    requires t.Node? && t.left.Node? && Ordered(t)
    ensures Ordered(RotateRight(t))
  {
    var x, y := t, t.left;
    var b, c := y.right, x.right;
    forall k' | k' in Keys(c) ensures Less(y.key, k') {
      LessTransitive(y.key, x.key, k');
    }
    assert Ordered(Node(x.color, b, x.id, x.key, x.val, c));
  }

  lemma RotateRightContent(t: Tree)
    requires t.Node? && t.left.Node? && Ordered(t)
    ensures Content(RotateRight(t)) == Content(t)
  {
    var x, y := t, t.left;
    var a, b, c := y.left, y.right, x.right;
    ContentKeys(c);
    assert y.key !in Keys(c) by {
      if y.key in Keys(c) { LessAsymmetric(y.key, x.key); }
    }
    LessIrreflexive(y.key);
    RotationMaps(Content(a), Content(b), Content(c), y.key, y.val, x.key, x.val);
    assert RotateRight(t) == Node(y.color, a, y.id, y.key, y.val, Node(x.color, b, x.id, x.key, x.val, c));
    assert Content(t) == (Content(a) + Content(b) + map[y.key := y.val]) + Content(c) + map[x.key := x.val];
  }

  /** The map of a rotated node triple does not depend on the rotation, as long as
      the lower key is not overridden from the far subtree. */
  lemma RotationMaps(a: map<Bytes, Bytes>, b: map<Bytes, Bytes>, c: map<Bytes, Bytes>,
                     k1: Bytes, v1: Bytes, k2: Bytes, v2: Bytes)
    requires k1 !in c && k1 != k2
    ensures (a + b + map[k1 := v1]) + c + map[k2 := v2] == a + (b + c + map[k2 := v2]) + map[k1 := v1]
  {
  }

  /** Colour plays no part in the handles, keys, map or order of a tree. */
  lemma Repaint(t: Tree, c: Color)
    requires t.Node?
    ensures Ids(t.(color := c)) == Ids(t) && Size(t.(color := c)) == Size(t)
    ensures Distinct(t) ==> Distinct(t.(color := c))
    ensures Keys(t.(color := c)) == Keys(t) && Content(t.(color := c)) == Content(t)
    ensures InOrder(t.(color := c)) == InOrder(t)
    ensures Ordered(t) ==> Ordered(t.(color := c))
  {
  }

  /** Every subtree of a search tree is a search tree. */
  lemma {:induction false} SubtreeOrdered(t: Tree, x: Ptr)
    requires Ordered(t) && x in Ids(t)
    ensures Ordered(Subtree(t, x))
  {
    match t
    case Node(_, l, h, _, _, r) =>
      if h != x {
        if x in Ids(l) {
          SubtreeOrdered(l, x);
        } else {
          SubtreeOrdered(r, x);
        }
      }
  }

  /** A rotation at any node of a tree keeps it a tree over the same handles
      and, for a search tree, keeps the map, the key order and the ordering. */
  lemma SubstRotateLeft(t: Tree, x: Ptr)
    requires Distinct(t) && x in Ids(t) && Subtree(t, x).right.Node?
    ensures var t' := Subst(t, x, RotateLeft(Subtree(t, x)));
      Distinct(t') && Ids(t') == Ids(t) && Size(t') == Size(t) &&
      RootId(t') == (if x == RootId(t) then Subtree(t, x).right.id else RootId(t)) &&
      (Ordered(t) ==> Ordered(t') && Content(t') == Content(t) && InOrder(t') == InOrder(t))
  {
    var S := Subtree(t, x);
    SubtreeFacts(t, x);
    RotationsDistinct(S);
    SubstFacts(t, x, RotateLeft(S));
    if Ordered(t) {
      SubtreeOrdered(t, x);
      RotateLeftSearch(S);
      SubstSearch(t, x, RotateLeft(S));
    }
  }

  /** Mirror of `SubstRotateLeft`. */
  lemma SubstRotateRight(t: Tree, x: Ptr)
    requires Distinct(t) && x in Ids(t) && Subtree(t, x).left.Node?
    ensures var t' := Subst(t, x, RotateRight(Subtree(t, x)));
      Distinct(t') && Ids(t') == Ids(t) && Size(t') == Size(t) &&
      RootId(t') == (if x == RootId(t) then Subtree(t, x).left.id else RootId(t)) &&
      (Ordered(t) ==> Ordered(t') && Content(t') == Content(t) && InOrder(t') == InOrder(t))
  {
    var S := Subtree(t, x);
    SubtreeFacts(t, x);
    RotationsDistinct(S);
    SubstFacts(t, x, RotateRight(S));
    if Ordered(t) {
      SubtreeOrdered(t, x);
      RotateRightSearch(S);
      SubstSearch(t, x, RotateRight(S));
    }
  }

  /** Replacing a subtree by one with the same keys, map and in-order sequence
      changes none of these for the whole tree, and keeps it a search tree. */
  lemma {:induction false} SubstSearch(t: Tree, x: Ptr, s: Tree)
    requires Distinct(t) && x in Ids(t) && Ordered(t) && Ordered(s)
    requires Keys(s) == Keys(Subtree(t, x)) && Content(s) == Content(Subtree(t, x))
    requires InOrder(s) == InOrder(Subtree(t, x))
    ensures Keys(Subst(t, x, s)) == Keys(t) && Content(Subst(t, x, s)) == Content(t)
    ensures InOrder(Subst(t, x, s)) == InOrder(t) && Ordered(Subst(t, x, s))
  {
    match t
    case Node(c, l, h, k, v, r) =>
      if h != x {
        if x in Ids(l) {
          SubstSearch(l, x, s);
          SubstNotIn(r, x, s);
        } else {
          SubstSearch(r, x, s);
          SubstNotIn(l, x, s);
        }
      }
  }
}
