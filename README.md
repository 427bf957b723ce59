# CTree: a verified model of the YouTrackDB red-black tree index

`CTree` is an ordered key/value index. Keys and values are byte vectors
(`std::vector<uint8_t>`), and keys are ordered by `std::vector`'s
`operator<`, which compares unsigned bytes lexicographically and puts a
strict prefix first. The index is a red-black binary search tree with two
public operations:

- `find` descends from the root and reports whether the key is present and,
  if it is, its value.
- `insert` descends the same way. On an equal key it returns `false` and
  changes nothing. Otherwise it hangs a new RED node at the empty link it
  reached, increments `m_Size`, and runs `insertFix`. `insertFix` is the
  classic bottom-up rebalancing loop: recolour on a RED uncle; otherwise one
  or two rotations and a recolouring.

The model is imperative, like the source:

- The class `CTreeIndex.CTree` has the fields `nodes` (the node records),
  `root` (`m_Root`) and `size` (`m_Size`).
- Each `CNode` record holds key, value, left, right, parent and colour.
- Pointers are handles into `nodes`, with `Null` standing for `nullptr`. A
  field write such as `node->m_Right = x` is a one-record update of
  `nodes`. `new CNode` appends a record, so handles are never reused.
- A ghost field `shape` is the algebraic tree that the records spell out.
  `Linked()` ties every record's links, key, value and colour to `shape`,
  with no record left over.
- `Valid()` adds the search-tree order and the three red-black invariants.
- `Contents()` is the key/value map that `shape` stores.

Every method of the class is proved against these definitions:

- `Find` and `Insert` say what they return and what map results.
- The rotations state the new tree as the old one with one subtree rotated.
- `InsertFix` restores `Valid()` and keeps the map and the in-order key
  sequence.

Modules, one per file:

- `ByteOrder` (`byte_order.dfy`): the key order and the facts that make it a
  strict total order.
- `TreeShape` (`tree_shape.dfy`): the ghost tree. It has node handles,
  subtrees, parents, subtree replacement and the two rotations.
- `SearchTree` (`search_tree.dfy`): keys, stored map, in-order sequence and
  search order. It also has the insertion descent as a function and the
  rotation lemmas.
- `RedBlack` (`red_black.dfy`): colour invariants, the local rebalancing
  steps, and the logarithmic height bound.
- `Fixup` (`fixup.dfy`): the loop invariant of `insertFix` and one lemma per
  case of its body.
- `Arena` (`arena.dfy`): how the records spell out a tree, and the record
  writes of each pointer operation as a function of the old records.
- `CTreeIndex` (`ctree.dfy`): the class and the link-level lemmas behind its
  methods.

## Model

| member | source | states |
|---|---|---|
| CTreeIndex.CTree.constructor | YouTrackDB/CTree.h:54-55 | A new tree is valid and stores the empty map, with size 0 and a null root (the member defaults that `CTree() = default` keeps). |
| CTreeIndex.CTree.SizeCountsNodes | YouTrackDB/CTree.h:54 | `m_Size` equals the number of distinct nodes reachable from `m_Root`. |
| CTreeIndex.CTree.Find | YouTrackDB/CTree.cpp:3-14 | Returns found exactly when the key is in the stored map. The value returned is the stored one. Not-found comes with an empty vector, including the `m_Size == 0` shortcut. The tree is not changed. |
| CTreeIndex.CTree.Insert | YouTrackDB/CTree.cpp:16-40 | Returns `true` exactly when the key was absent. On `true`, the map gains exactly that entry and size grows by one. On `false`, records, root, size and tree are unchanged. Afterwards the key maps to the new value on `true` and to its old value on `false`, and the red-black search-tree invariant holds. An empty tree gets a single BLACK root. |
| CTreeIndex.CTree.Locate | YouTrackDB/CTree.cpp:25-32 | The descent loop of `insert`. It reports whether the key is present. If it is not, it returns the node whose empty left or right link ends the search, so that hanging the new node there is the search-tree insertion of the key. |
| CTreeIndex.CTree.Attach | YouTrackDB/CTree.cpp:34-38 | After the new node is linked in, `++m_Size` and `insertFix`, the tree is valid and the map has gained exactly the new entry. Size grows by one, and the node set grows by exactly the next free handle. That the new record is a RED leaf with the given key, value and parent is stated by `Arena.AgreesAttach`. |
| CTreeIndex.CTree.RotateLeft | YouTrackDB/CTree.cpp:42-59 | The records after the call are exactly `RotateLeftWrites` of the old records (the source's writes). They hold the old tree with the subtree at `x` rotated left. Links stay consistent: the promoted child becomes the root or takes `x`'s place in its parent's slot. The handle set and size are unchanged, and on a search tree so are the order, map and in-order sequence. |
| CTreeIndex.CTree.RotateRight | YouTrackDB/CTree.cpp:61-78 | Mirror of `RotateLeft`, with `RotateRightWrites`. |
| CTreeIndex.CTree.InsertFix | YouTrackDB/CTree.cpp:80-122 | Starting from a valid tree plus one new RED node (loop invariant `Fixing`), the loop ends, and after the root is painted BLACK all three red-black invariants hold. Map, in-order sequence, handles and size are unchanged. Termination: the guard fails, or the cursor's subtree grows strictly. |
| CTreeIndex.CTree.FixStep | YouTrackDB/CTree.cpp:84-118 | One pass of the loop body: the parent's side chooses the branch and the uncle's colour chooses the case. It keeps the loop invariant, the map and the key order. Either the guard fails at the new cursor, or the cursor's subtree is strictly larger. |
| CTreeIndex.CTree.Recolor | YouTrackDB/CTree.cpp:95-99 | RED uncle. The records after the call are exactly `RecolorWrites` of the old ones: grandparent RED, uncle and parent BLACK. The new tree is the old one with the grandparent's subtree recoloured, and the cursor moves to the grandparent. The invariant holds at the new cursor, whose subtree is strictly larger. The map and key order are unchanged. The same code appears at lines 112-116. |
| CTreeIndex.CTree.RestructureLeft | YouTrackDB/CTree.cpp:87-94 | Parent is a left child with a BLACK or absent uncle. The new tree is `OuterLeft(InnerLeft(t, p, n), g)`: a left rotation at the parent when the cursor is its right child, then parent BLACK, grandparent RED and a right rotation at the grandparent. Afterwards the guard fails, the invariant holds and the map and key order are unchanged. |
| CTreeIndex.CTree.FinishLeft | YouTrackDB/CTree.cpp:92-94 | The outer left case. The new tree is `OuterLeft(t, g)`: parent BLACK, grandparent RED, rotated right at the grandparent. The loop guard then fails, with the invariant, map and key order kept. |
| CTreeIndex.CTree.RestructureRight | YouTrackDB/CTree.cpp:104-111 | Mirror of `RestructureLeft`: the new tree is `OuterRight(InnerRight(t, p, n), g)`. |
| CTreeIndex.CTree.FinishRight | YouTrackDB/CTree.cpp:109-111 | Mirror of `FinishLeft`: the new tree is `OuterRight(t, g)`. |
| CTreeIndex.CursorViewHolds | YouTrackDB/CTree.cpp:83 | The loop guard read from the records (`node != m_Root && node->m_Parent->m_Color == RED`) is exactly the guard on the tree. |
| CTreeIndex.FixSite | YouTrackDB/CTree.cpp:84-85 | The parent and grandparent records the loop body reads exist, are distinct, and hold the tree's links and the colours of the grandparent's children. |
| CTreeIndex.RecolorAt | YouTrackDB/CTree.cpp:96-98 | After the three colour writes, the records hold the recoloured tree, in which the grandparent satisfies the loop invariant. |
| CTreeIndex.OuterLeftStep | YouTrackDB/CTree.cpp:92-94 | After the two colour writes, the records hold the repainted tree. Rotating it right at the grandparent gives `OuterLeft(t, g)` and ends the loop with the invariant, map and key order kept. |
| CTreeIndex.AttachStep | YouTrackDB/CTree.cpp:35-38 | After the attach writes, the records hold the search-tree insertion of the key. That tree has the same root, one more node (the new handle), the new entry in its map and its keys in order, and it satisfies the loop invariant of `insertFix` at the new node. |
| CTreeIndex.Branches | YouTrackDB/CTree.cpp:84-87 | The records the loop body reads (parent, grandparent, uncle) exist. The test `node->m_Parent == node->m_Parent->m_Parent->m_Left` decides which side of the grandparent holds the parent. The uncle read from the other slot is that side's child in the tree, with its colour. The right-side reads at lines 101-104 are the `else` of the same test. |
| CTreeIndex.OuterRightStep | YouTrackDB/CTree.cpp:109-111 | Mirror of `OuterLeftStep`. |
| ByteOrder.Less | YouTrackDB/CTree.cpp:11 | `key < current->m_Key` on `std::vector<uint8_t>`: lexicographic comparison of unsigned bytes, where a strict prefix orders first. A vector is never less than an equal one; the order's other properties are the lemmas below. |
| ByteOrder.LessIrreflexive | YouTrackDB/CTree.cpp:11 | No key is less than itself under unsigned lexicographic order. |
| ByteOrder.LessAsymmetric | YouTrackDB/CTree.cpp:11 | The key order never holds both ways. |
| ByteOrder.LessTransitive | YouTrackDB/CTree.cpp:11 | The key order is transitive. |
| ByteOrder.LessTotal | YouTrackDB/CTree.cpp:10-11 | Two different keys are ordered one way or the other, so equal/left/right covers every key. |
| ByteOrder.PrefixLess | YouTrackDB/CTree.h:21 | A strict prefix orders before the longer vector. |
| TreeShape.DistinctSize | YouTrackDB/CTree.h:54 | In a tree with distinct handles, the node count is the number of distinct handles. |
| TreeShape.RotationsInverse | YouTrackDB/CTree.cpp:42-78 | Rotating left and then right at the promoted node gives back the original subtree. |
| TreeShape.RotationsDistinct | YouTrackDB/CTree.cpp:42-78 | Rotations keep handles distinct. |
| SearchTree.ContentKeys | YouTrackDB/CTree.cpp:10 | The keys of the stored map are exactly the keys held in the nodes. |
| SearchTree.InOrderKeys | YouTrackDB/CTree.cpp:10 | A key occurs in the in-order sequence exactly when it is held in a node. |
| SearchTree.OrderedInOrder | YouTrackDB/CTree.cpp:11 | The in-order key sequence of a search tree is strictly increasing, so keys are unique. |
| SearchTree.Descend | YouTrackDB/CTree.cpp:11 | Below a node with a different key, the key can only be in the subtree the comparison picks, with the same value. |
| SearchTree.RootEntry | YouTrackDB/CTree.cpp:10 | A node's own key maps to its value. |
| SearchTree.BstInsert | YouTrackDB/CTree.cpp:25-35 | The tree `insert` builds: the same descent as the loop, with an equal key leaving the tree unchanged and a new RED leaf hung at the empty link reached. The key set gains exactly the key. Shape, order and map are the three lemmas below. |
| SearchTree.BstInsertShape | YouTrackDB/CTree.cpp:35 | Inserting a fresh key adds exactly one new handle, as a RED leaf. Handles stay distinct and the root is kept. |
| SearchTree.BstInsertOrdered | YouTrackDB/CTree.cpp:28-35 | Inserting a fresh key where the descent ends keeps search order and adds that key. |
| SearchTree.BstInsertContent | YouTrackDB/CTree.cpp:28-35 | Inserting a fresh key adds exactly that entry to the map. |
| SearchTree.BstInsertDescend | YouTrackDB/CTree.cpp:31 | Inserting below a node is inserting below the child the comparison chooses. |
| SearchTree.RotateLeftSearch | YouTrackDB/CTree.cpp:42-59 | A left rotation keeps the in-order sequence, the key set and the map, and keeps a search tree ordered. |
| SearchTree.RotateRightSearch | YouTrackDB/CTree.cpp:61-78 | Mirror of `RotateLeftSearch`. |
| SearchTree.SubstRotateLeft | YouTrackDB/CTree.cpp:42-59 | Rotating any subtree left keeps the whole tree's handles, size, order, map and in-order sequence. The root changes only when the rotated node was the root. |
| SearchTree.SubstRotateRight | YouTrackDB/CTree.cpp:61-78 | Mirror of `SubstRotateLeft`. |
| SearchTree.SubstSearch | YouTrackDB/CTree.cpp:80-122 | Replacing a subtree with one that has the same map and in-order sequence keeps the whole tree's map, order and in-order sequence. |
| RedBlack.RecolorStep | YouTrackDB/CTree.cpp:95-99 | Recolouring a BLACK grandparent with two RED children keeps the black-height. Only the grandparent can then have a RED parent. |
| RedBlack.OuterStepLeft | YouTrackDB/CTree.cpp:92-94 | Repainting and rotating right at the grandparent gives a BLACK-rooted subtree with the same black-height and no RED-RED edge. |
| RedBlack.OuterStepRight | YouTrackDB/CTree.cpp:109-111 | Mirror of `OuterStepLeft`. |
| RedBlack.InnerStepLeft | YouTrackDB/CTree.cpp:88-91 | Rotating left at the parent turns the inner case into the outer case with the old parent as cursor, keeping the black-height. |
| RedBlack.InnerStepRight | YouTrackDB/CTree.cpp:105-108 | Mirror of `InnerStepLeft`. |
| RedBlack.BstInsertColors | YouTrackDB/CTree.cpp:35 | Adding a RED leaf to a red-black tree keeps the black-heights equal. The only RED-RED edge can be at the new node. |
| RedBlack.BlackenRoot | YouTrackDB/CTree.cpp:121 | Painting the root BLACK turns a balanced tree without RED-RED edges into a red-black tree. |
| RedBlack.ExceptResolved | YouTrackDB/CTree.cpp:83 | When the guard fails (cursor is the root or has a BLACK parent), no RED-RED edge is left. |
| RedBlack.RedParentBlack | YouTrackDB/CTree.cpp:83 | Outside the cursor, every RED node has a BLACK parent. |
| RedBlack.LiftBlackHeight | YouTrackDB/CTree.cpp:80-122 | Replacing a subtree with one of equal black-height keeps the whole tree balanced, with the same black-height. |
| RedBlack.LiftRed | YouTrackDB/CTree.cpp:80-122 | Replacing a subtree keeps the no-RED-RED invariant outside it, with the exception moved to the new cursor. |
| RedBlack.SizeBlackHeight | YouTrackDB/CTree.h:17-19 | A balanced tree of black-height h has at least 2^h - 1 nodes. |
| RedBlack.HeightBlackHeight | YouTrackDB/CTree.h:17-19 | Without RED-RED edges, the height is at most twice the black-height, plus one for a RED root. |
| RedBlack.LogHeight | YouTrackDB/CTree.h:17-19 | A red-black tree with n nodes and height h has 2^h <= (n + 1)^2, that is h <= 2 log2(n + 1). This is what bounds `find` and `insert` by O(log n). |
| Fixup.Guard | YouTrackDB/CTree.cpp:83 | The loop guard on the tree: the cursor is not the root and its parent is RED. When it holds, the parent is a node of the tree, so `node->m_Parent->m_Parent` is read from an existing record. `CTreeIndex.CursorViewHolds` shows it equals the guard read from the records. |
| Fixup.Picture | YouTrackDB/CTree.cpp:83-85 | While the guard holds, the cursor has a RED parent that is not the root and a BLACK grandparent, and the parent is one of the grandparent's children. |
| Fixup.RecolorCase | YouTrackDB/CTree.cpp:95-99 | Recolouring at the grandparent keeps the loop invariant with the grandparent as cursor, and the map and key order. The cursor's subtree grows strictly. |
| Fixup.OuterCaseLeft | YouTrackDB/CTree.cpp:92-94 | Repainting and rotating right at the grandparent restores the invariant with the guard false, keeping the map and key order. |
| Fixup.OuterCaseRight | YouTrackDB/CTree.cpp:109-111 | Mirror of `OuterCaseLeft`. |
| Fixup.InnerCaseLeft | YouTrackDB/CTree.cpp:88-91 | Rotating left at the parent keeps the invariant with the parent as cursor, which is then in the outer position of the same grandparent. |
| Fixup.InnerCaseRight | YouTrackDB/CTree.cpp:105-108 | Mirror of `InnerCaseLeft`. |
| Fixup.FixStart | YouTrackDB/CTree.cpp:35-38 | After a fresh RED leaf is added to a red-black tree, the loop invariant holds at the new node. |
| Fixup.FixDone | YouTrackDB/CTree.cpp:119-121 | When the loop ends, painting the root BLACK yields a red-black tree. |
| Arena.AgreesAt | YouTrackDB/CTree.h:32-51 | The record at a node's handle holds its key, value, child links, parent link and colour. |
| Arena.RotateLeftWrites | YouTrackDB/CTree.cpp:43-58 | The seven record writes of `rotateLeft`, in source order, as a function of the old records. They keep the number of records and every record's key, value and colour. `CTree.RotateLeft` is proved to produce exactly this. |
| Arena.RotateRightWrites | YouTrackDB/CTree.cpp:62-77 | Mirror of `RotateLeftWrites` for `rotateRight`. |
| Arena.RecolorWrites | YouTrackDB/CTree.cpp:96-98 | The three colour writes of the red-uncle case, in source order: grandparent RED, uncle BLACK, parent BLACK. They keep the number of records and every record's key, value and links. `CTree.Recolor` is proved to produce exactly this. |
| Arena.AttachWrites | YouTrackDB/CTree.cpp:35 | `new CNode(key, value, parent)` appends a RED record with no children as the last handle. Then `parent->m_Left` or `parent->m_Right` is set to it, and no other record changes. |
| Arena.RotateLeftWritesFacts | YouTrackDB/CTree.cpp:43-58 | Together, the seven writes of `rotateLeft` give `x` its new right child and parent, the promoted node its new left child and parent, and the moved grandchild its new parent. They redirect the one parent slot that led to `x`, and touch no other record. |
| Arena.RotateRightWritesFacts | YouTrackDB/CTree.cpp:62-77 | Mirror of `RotateLeftWritesFacts`. |
| Arena.AgreesRotateLeft | YouTrackDB/CTree.cpp:42-59 | The records after `rotateLeft`'s writes hold the tree rotated left at `x`. |
| Arena.AgreesRotateRight | YouTrackDB/CTree.cpp:61-78 | Mirror of `AgreesRotateLeft`. |
| Arena.RotateLeftSite | YouTrackDB/CTree.cpp:43-55 | Every record `rotateLeft` dereferences exists. The parent link is null exactly at the root, and otherwise exactly one of the parent's slots leads to `x`. |
| Arena.RotateRightSite | YouTrackDB/CTree.cpp:62-74 | Mirror of `RotateLeftSite`. |
| Arena.AgreesAttach | YouTrackDB/CTree.cpp:35 | Appending the new record and filling the empty slot gives records that hold the tree with the new leaf in place. |
| Arena.RecolorWritesFacts | YouTrackDB/CTree.cpp:96-98 | The three colour writes change only the colours of grandparent, uncle and parent. |
| Arena.AgreesRecolor | YouTrackDB/CTree.cpp:96-98 | After those writes, the records hold the recoloured subtree. |
| Arena.AgreesRoot | YouTrackDB/CTree.cpp:121 | Repainting the root record gives records that hold the tree with a BLACK root. |

## Left out

- The `std::shared_mutex` and its shared and unique locks in `find` and `insert`: each operation is modelled as one atomic sequential step.
- `printTree` and `printTreeRec`: console output only.
- The recursive `delete` in `~CNode` and `~CTree`, and allocation failure of `new`: records are never freed, and an append always succeeds.
- Pointers as machine addresses: a pointer is a handle into the record sequence, and aliasing is captured by handle equality. Handles are never reused, because the source never deletes a node while the tree lives.
- CTreeIndex.CTree.Insert: `m_Size` is a `size_t`. The model counts with an unbounded natural number and does not model wrap-around after 2^64 insertions, which cannot occur with distinct allocated nodes.
- CTreeIndex.CTree.InsertFix: the loop body is split into the helper methods `FixStep`, `Recolor`, `RestructureLeft`/`RestructureRight` and `FinishLeft`/`FinishRight`. They perform the source's writes in the source's order, but as separate calls rather than one function body.
- CTreeIndex.CTree.Insert: the descent loop (`Locate`) and the attachment (`Attach`) are separate methods in the same way. `Locate` takes the value as a ghost parameter, only so that its contract can name the resulting insertion.
- `CMapWrapper.h`, `main.cpp` and the test harness in `tests.h` (threads, `std::rand`, `toByteVector`) are not part of this model. The sequential tests' expectations (fresh inserts return `true` and are then found with their value; repeated inserts return `false`) are what the contracts of `Insert` and `Find` state.
