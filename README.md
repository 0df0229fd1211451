# Binary search tree engine: a verified model

The repository implements one unbalanced binary search tree in ten
languages and in two React visualisers. The ports do not all implement the
same operations, but every port that implements an operation computes the
same result:

- **Insert** goes down the search path and adds a leaf. A duplicate is ignored.
- **Search** follows the ordering.
- **Delete** handles three cases. A node with no left child is replaced by its
  right child. A node with no right child is replaced by its left child.
  Otherwise the node takes the value of its in-order successor, the leftmost
  node of its right subtree, and that value is then deleted from the right
  subtree.
- **Queries**: height, node count, the three depth-first traversals and a
  breadth-first level order.

The operations each port has:

| port | operations |
|---|---|
| BSTVisualizer.tsx, BSTVisualizer.jsx | insert, search, delete, clone, height, count, the three traversals, the canvas layout |
| bst.cpp, bst.js | insert, search, delete, height, count, is-empty, the three traversals, level order grouped by depth |
| bst.py | insert, search, delete, height, count, the three traversals, level order grouped by depth |
| BST.java | insert, search, delete, height, count, the three traversals, a flat level order |
| bst.c | insert, search, delete, height, count, the three traversals, free |
| bst.rs | insert, search, height, in-order |
| bst.cs, bst.swift, bst.kt, bst.go | insert, in-order |

The visualisers lay the tree out on a 900-wide canvas.

The model has seven modules:

- `TreeModel` (tree_model.dfy): the value `Tree` with its elements, BST
  ordering, height, count and the three traversals. It also defines two
  reference operations on sorted sequences: `InsertSorted` and `Without`.
- `CopyOnWrite` (copy_on_write.dfy): the TypeScript visualiser's engine.
  - The engine never mutates a node, so it is modelled as functions on `Tree`.
  - Its traversals push into a shared accumulator, so they are modelled as
    methods.
  - These functions are the specification the heap ports are proved against.
- `Levels` (levels.dfy): level order and breadth-first order.
  - Both are defined over forests, that is, queues of subtrees.
  - Lemmas tie them to the depths of the tree.
- `Layout` (layout.dfy): the recursive canvas layout and its geometric
  guarantees.
- `Linked` (linked.dfy): the mutable node graph that the JavaScript
  visualiser and the C, C++, JavaScript, Python, Java, Rust, C#, Swift, Kotlin
  and Go ports share.
  - Every node carries a ghost footprint and the value tree it stands for.
  - Each recursive helper that rebinds child pointers or overwrites a node's
    value in place is a method.
  - Each method is proved to compute the `CopyOnWrite` function of the old
    value tree.
- `BstClass` (bst_class.dfy): the tree object of the class-based ports.
  - Its `root` field is rebound by insert, delete and free.
  - Its invariant is a well-formed node graph whose value tree is a BST.
  - The level-order loops drain a queue of nodes. Each iteration is tied to a
    ghost forest.
- `Demo` (demo.dfy): what the ports' demonstration programs compute.
  - The eleven-value tree 50, 30, 70, 20, 40, 60, 80, 10, 25, 35, 45 with the
    C, C++ and Java deletions.
  - The seven-value tree of the Rust, C#, Swift, Kotlin and Go demos.
  - The canvas layout of the eleven-value tree, which the visualisers'
    demo button loads.

Each heap method in `Linked` stands for the helper of that name in every port
that has it, and its row cites one of those ports. The other ports compute
the same result with differences of form that the model does not keep apart:

- Only Java's `minValue` tracks a running `min`. The C and C++ versions walk
  to the leftmost node and return its value, and the JavaScript visualiser
  does the walk inline in its delete (BSTVisualizer.jsx:26).
- C's `height_rec` stores the two subtree heights in locals first.
- The C, Java and Rust traversals print their values instead of collecting
  them, and Java prints its level order.

The deletions in the demo programs reach a different case from the one their
printed labels name:

- Java deletes 20 after 30. The label calls 20 a node with one child, but 20
  has two children at that point, as `Demo.JavaDemo` shows.
- C deletes 70 third. The label says one child, but 70 has two, as
  `Demo.CDemo` shows.

The final counts the demos print are unaffected.

## Model

| member | source | states |
|---|---|---|
| TreeModel.Height | BSTVisualizer.tsx:54-55 | the height is 0 exactly for the empty tree |
| TreeModel.Count | BSTVisualizer.tsx:57-58 | the count is 0 exactly for the empty tree |
| TreeModel.InOrderElements | BSTVisualizer.tsx:60-61 | the in-order sequence lists exactly the values stored in the tree |
| TreeModel.TraversalsAgree | BSTVisualizer.tsx:54-67 | in-order, pre-order and post-order all have `count` elements and the same multiset of values; pre-order starts with the root and post-order ends with it |
| TreeModel.BstIffAscending | bst.js:95-101 | a tree is a BST if and only if its in-order sequence is strictly ascending |
| TreeModel.BstCountIsCardinality | BSTVisualizer.tsx:57-58 | on a BST the node count equals the number of distinct values |
| TreeModel.HeightAtMostCount | BSTVisualizer.tsx:54-58 | the height never exceeds the node count |
| TreeModel.InsertSortedAscending | BSTVisualizer.tsx:29-34 | the reference insertion into a sorted sequence keeps it ascending, adds exactly `v`, and grows by one exactly when `v` was absent |
| TreeModel.WithoutAscending | BSTVisualizer.tsx:44-52 | the reference removal from a sorted sequence keeps it ascending, drops exactly `v`, and shrinks by one exactly when `v` was present |
| CopyOnWrite.MakeNode | BSTVisualizer.tsx:24 | a fresh node is the one-value tree: in-order `[v]`, height 1, count 1 |
| CopyOnWrite.Clone | BSTVisualizer.tsx:26-27 | the deep copy is equal to the original |
| CopyOnWrite.Insert | BSTVisualizer.tsx:29-34 | insertion always returns a node, never an empty tree |
| CopyOnWrite.Search | BSTVisualizer.tsx:36-40 | on any tree, a value the search reports found is stored in the tree; on a BST the converse holds too (`CopyOnWrite.SearchCorrect`) |
| CopyOnWrite.Remove | BSTVisualizer.tsx:44-52 | on any tree the result holds only values the old tree held; the two descents and the three root cases (no left child, no right child, successor copy) are each stated by the `Remove…InOrder` lemmas below |
| CopyOnWrite.MinNode | BSTVisualizer.tsx:42 | the node reached by following left children has no left child |
| CopyOnWrite.PushInorder | BSTVisualizer.tsx:60-61 | pushing into the accumulator appends the in-order sequence to what it held |
| CopyOnWrite.PushPreorder | BSTVisualizer.tsx:63-64 | pushing appends the pre-order sequence to what the accumulator held |
| CopyOnWrite.PushPostorder | BSTVisualizer.tsx:66-67 | pushing appends the post-order sequence to what the accumulator held |
| CopyOnWrite.InsertElements | BSTVisualizer.tsx:29-34 | after insertion the values are the old values plus `v` |
| CopyOnWrite.InsertInOrder | BSTVisualizer.tsx:29-34 | on a BST the new in-order sequence is the old one with `v` placed at its sorted position |
| CopyOnWrite.InsertPreservesBST | BSTVisualizer.tsx:29-34 | insertion preserves the BST ordering |
| CopyOnWrite.InsertCount | BSTVisualizer.tsx:29-34 | the count grows by one exactly when `v` was absent |
| CopyOnWrite.InsertPresent | BSTVisualizer.tsx:33 | inserting a value already present returns the same tree |
| CopyOnWrite.InsertIdempotent | BSTVisualizer.tsx:29-34 | inserting the same value twice gives the same tree as inserting it once |
| CopyOnWrite.SearchCorrect | BSTVisualizer.tsx:36-40 | on a BST, search is true if and only if `v` is stored in the tree |
| CopyOnWrite.MinNodeFirst | BSTVisualizer.tsx:42 | the leftmost node holds the first value of the in-order sequence |
| CopyOnWrite.MinNodeIsLeast | BSTVisualizer.tsx:42 | on a BST the leftmost node holds a stored value no larger than any other |
| CopyOnWrite.RemoveInOrder | BSTVisualizer.tsx:44-52 | on a BST the new in-order sequence is the old one with `v` dropped |
| CopyOnWrite.RemoveBelowInOrder | BSTVisualizer.tsx:46 | removing a value smaller than the root from the left subtree drops exactly that value from the in-order sequence |
| CopyOnWrite.RemoveAboveInOrder | BSTVisualizer.tsx:47 | removing a value larger than the root from the right subtree drops exactly that value from the in-order sequence |
| CopyOnWrite.RemoveRootInOrder | BSTVisualizer.tsx:48-51 | each of the three root cases (no left child, no right child, successor copy) drops exactly the root's value from the in-order sequence |
| CopyOnWrite.WithoutRoot | BSTVisualizer.tsx:48-49 | on a BST, dropping the root's value from the in-order sequence leaves the left subtree's sequence followed by the right subtree's |
| CopyOnWrite.RemoveSuccessorInOrder | BSTVisualizer.tsx:50-51 | the successor is the first in-order value of the right subtree, and removing it leaves the rest of that subtree's sequence |
| CopyOnWrite.RemovePreservesBST | BSTVisualizer.tsx:44-52 | removal preserves the BST ordering |
| CopyOnWrite.RemoveElements | BSTVisualizer.tsx:44-52 | after removal the values are the old values minus `v` |
| CopyOnWrite.RemoveCount | BSTVisualizer.tsx:44-52 | the count drops by one exactly when `v` was present |
| CopyOnWrite.RemoveAbsent | BSTVisualizer.tsx:45-47 | removing an absent value returns the same tree |
| CopyOnWrite.RemoveTwoChildren | BSTVisualizer.tsx:50-51 | with two children the root keeps its left subtree and takes the least stored value greater than the removed one |
| Levels.RoundStep | bst.cpp:126-131 | one inner-loop step dequeues the front subtree, appends its root's value to the level and queues its children behind the rest |
| Levels.RoundEnd | bst.cpp:123-133 | once a whole level has been dequeued, the levels still to come are those of the queued children, and the queue's total size has shrunk |
| Levels.FlatStep | BST.java:138-143 | one poll of the flat loop appends the front root's value, queues its children, and leaves the visit order still to come unchanged |
| Levels.BfsSplit | BST.java:138-143 | draining a queue visits the roots of its front part first, then the rest of the queue followed by the front part's children |
| Levels.BfsIsFlattenedLevels | BST.java:133-145 | the breadth-first visit order of a forest is its levels concatenated |
| Levels.LevelOrderCorrect | bst.cpp:118-135 | level order is empty for the empty tree, has `height` levels, level `i` lists the depth-`i` values left to right, and the concatenated levels have `count` elements, the same multiset of values as the in-order sequence |
| Levels.LevelOrderUnique | bst.js:119-136 | any list of `height` levels whose level `i` is the depth-`i` values is the level order |
| Levels.BfsOrderCorrect | BST.java:133-145 | the breadth-first visit order is the level order flattened, and visits every node exactly once |
| Layout.Positions | BSTVisualizer.tsx:69-79 | the entries the layout writes, later writes overriding earlier ones: the root at the midpoint of its interval on row `depth*80+50`, then the left subtree over the left half and the right subtree over the right half, one row down |
| Layout.CanvasLayout | BSTVisualizer.tsx:108 | the canvas layout starts at depth 0 over [0, 900] and has exactly one entry per stored value |
| Layout.CanvasHeight | BSTVisualizer.tsx:107 | the canvas is at least 420 high and tall enough for every row the tree uses, with 80 to spare below the last one |
| Layout.LayoutInto | BSTVisualizer.tsx:69-79 | writing into the accumulator leaves it holding its old entries overridden by the tree's layout |
| Layout.WriteThenSubtrees | BSTVisualizer.tsx:74-78 | writing the root entry and then each half's entries adds the subtree's layout to the accumulator |
| Layout.PositionsKeys | BSTVisualizer.tsx:69-79 | the layout has exactly one entry per stored value |
| Layout.PositionsSplit | BSTVisualizer.tsx:75-77 | on a BST the root is at the midpoint of its interval on row `depth*80+50`, and each subtree's entries survive unchanged from its half interval one row down |
| Layout.PositionsBounds | BSTVisualizer.tsx:75-77 | every x lies inside the interval, strictly when the interval is not a point, and every y lies between the subtree's first and last row |
| Layout.PositionsSides | BSTVisualizer.tsx:76-77 | on a BST the left subtree is drawn strictly left of the node's midpoint and the right subtree strictly right of it |
| Layout.PositionsOrdered | BSTVisualizer.tsx:69-79 | on a BST a smaller value is drawn strictly further left |
| Layout.InOrderLeftToRight | BSTVisualizer.tsx:69-79 | on a BST x strictly increases along the in-order sequence |
| Layout.PositionsRow | BSTVisualizer.tsx:75 | on a BST a value at depth `j` below the subtree's root is drawn on row `depth+j` |
| Layout.CanvasFits | BSTVisualizer.tsx:107-108 | the canvas layout has one entry per value, every x is strictly inside (0, 900), every y is at least 50 and below the canvas height, and a BST's root sits at (450, 50) |
| Linked.BstNode.constructor | BSTVisualizer.jsx:4 | a new node is a well-formed one-value tree with both children null |
| Linked.InsertRec | BSTVisualizer.jsx:6-11 | the helper rebinds child pointers in place so the returned root stands for the value-model insertion, returns the same root when one was given, and only adds fresh nodes |
| Linked.MinNode | bst.js:79-83 | the loop ends at a node without a left child, inside the subtree; it is the value model's leftmost node and on a BST holds the least stored value |
| Linked.MinValue | BST.java:73-80 | the walk that tracks `min` returns the leftmost node's value, which on a BST is the least stored value |
| Linked.DeleteRec | BSTVisualizer.jsx:19-30 | the in-place delete with the leftmost-walk successor returns a well-formed tree standing for the value-model removal, built only from the old nodes |
| Linked.SearchRec | bst.c:45-50 | the pointer walk answers as the value-model search does |
| Linked.HeightRec | bst.rs:71-76 | the recursion computes the height of the value tree |
| Linked.CountRec | BST.java:152-155 | the recursion computes the node count of the value tree |
| Linked.InorderRec | bst.cpp:68-73 | the out-vector receives the in-order sequence appended to what it held |
| Linked.PreorderRec | bst.py:111-116 | the result list receives the pre-order sequence appended to what it held |
| Linked.PostorderRec | bst.c:130-135 | the output receives the post-order sequence appended to what it held |
| Linked.CloneTree | BSTVisualizer.jsx:32-37 | the clone is a well-formed tree of entirely fresh nodes standing for the same value tree |
| Linked.Attach | BSTVisualizer.jsx:35 | setting both child pointers of a fresh node gives a well-formed node whose tree is the two children around its value |
| Linked.CloneThenInsert | BSTVisualizer.jsx:129 | the insert handler's clone-insert-clone yields fresh nodes standing for the value-model insertion and, modifying nothing, leaves the previous root untouched |
| Linked.CloneThenDelete | BSTVisualizer.jsx:144 | the delayed delete's clone-delete-clone yields fresh nodes standing for the value-model removal and leaves the previous root untouched |
| Linked.LayoutTree | BSTVisualizer.jsx:46-54 | walking the node graph writes the same entries the value-model layout does into the positions map |
| Linked.PushChildren | bst.cpp:129-130 | the non-null children are queued behind the queue's contents, left first |
| Linked.QueueStep | bst.cpp:127-130 | dequeuing a node and queueing its children keeps the node queue in step with the ghost forest |
| BstClass.Bst.constructor | bst.c:28-30 | a new tree is empty and valid |
| BstClass.Bst.Insert | bst.c:40-42 | the root is rebound to the value-model insertion, which is non-empty; the values gain `v` and the count grows by one exactly when `v` was absent |
| BstClass.Bst.Delete | bst.c:89-91 | the root is rebound to the value-model removal; the values lose `v` and the count drops by one exactly when `v` was present |
| BstClass.Bst.Free | bst.c:149-152 | afterwards the root is null and the tree is empty |
| BstClass.Bst.Search | bst.py:34-44 | search is true if and only if `v` is stored |
| BstClass.Bst.Height | bst.py:76-82 | returns the height, which never exceeds the count |
| BstClass.Bst.Count | bst.py:85-91 | returns the node count, which equals the number of distinct values |
| BstClass.Bst.IsEmpty | bst.cpp:111 | empty exactly when the root is null, which is exactly when the count is 0 |
| BstClass.Bst.Inorder | bst.py:94-104 | returns the in-order sequence, strictly ascending, of length `count`, listing exactly the stored values |
| BstClass.Bst.Preorder | bst.py:106-116 | returns the pre-order sequence: the same values as in-order, root first |
| BstClass.Bst.Postorder | bst.py:118-128 | returns the post-order sequence: the same values as in-order, root last |
| BstClass.Bst.LevelOrder | bst.py:130-146 | the nested queue loops return the level order: `height` levels, level `i` holding the depth-`i` values left to right, empty for the empty tree |
| BstClass.Bst.LevelOrderFlat | BST.java:133-145 | the single queue loop visits every node exactly once in breadth-first order, which is the levels concatenated; nothing for the empty tree |
| Demo.SevenShape | bst.rs:92-98 | inserting 50, 30, 70, 20, 40, 60, 80 builds the full three-level tree |
| Demo.ElevenShape | bst.cpp:147-153 | inserting the eleven demo values builds the four-level tree |
| Demo.SevenDemo | bst.rs:100-103 | the seven-value tree prints 20 to 80 in order, has height 3, and 40 is found |
| Demo.ElevenLayout | BSTVisualizer.tsx:170-174 | the canvas positions of the eleven-value tree the demo button loads, row by row: 50 at (450, 50), 30 and 70 on row 130, 20, 40, 60 and 80 on row 210, 10, 25, 35 and 45 on row 290 |
| Demo.ElevenInOrder | bst.cpp:156 | the eleven-value tree's in-order line is 10 to 80 |
| Demo.ElevenPreOrder | bst.cpp:157 | its pre-order line |
| Demo.ElevenPostOrder | bst.cpp:158 | its post-order line |
| Demo.ElevenCounts | bst.cpp:168-172 | height 4, count 11; 40 is found and 99 is not |
| Demo.ElevenLevels | bst.cpp:160-166 | the four printed levels |
| Demo.RemoveThirty | bst.cpp:174-175 | 30 has two children, and its successor 35 takes its place |
| Demo.ElevenRemoveThirty | bst.cpp:174-176 | after removing 30 the other ten values print in order |
| Demo.ElevenRemoveEighty | bst.cpp:178-182 | after also removing the leaf 80, nine values remain in order |
| Demo.JavaDemo | BST.java:181-193 | the Java demo's removals of 30, 20 and 10 leave eight values, and 20 has two children when it is removed |
| Demo.CDemo | bst.c:180-192 | the C demo's removals of 30, 10 and 70 leave eight values, and 70 has two children when it is removed |

## Left out

- The React components, SVG rendering, toasts, highlight state and `setTimeout` timers are presentation. The delayed delete is modelled as the operation it eventually performs (`Linked.CloneThenDelete`).
- The edge geometry uses `Math.sqrt` on floating point and is left out.
- Layout.LayoutInto: coordinates are exact reals. Rounding of IEEE doubles after repeated halving is not modelled. The strict results `Layout.PositionsOrdered`, `Layout.InOrderLeftToRight` and `Layout.CanvasFits` (every x strictly between 0 and 900) hold only over the reals. In doubles, a degenerate chain about 50 levels deep halves the interval below the precision of its endpoints, so x reaches 900 or two nodes share an x.
- The position map's string keys, and the back-reference from each position to its node, are left out. The map is `map<int, Position>`.
- Parsing the input with `parseInt` and `isNaN` is the caller's job. The model takes integers.
- Printing is not modelled. This covers `printVec`, the ASCII `print` of the JavaScript port, the traversal `printf`/`System.out`/`print!`/`Console.Write`/`fmt.Print` calls, the Java "Tree is empty." message, and the `main` programs. The traversals return the visit sequence instead. The Java level order returns the empty sequence where it would print that message.
- Memory management is not modelled:
  - `malloc` and the exit on out-of-memory;
  - `free`, `free_rec` and C++ `delete`, `freeRec` and the destructor;
  - the deleted C++ copy operations;
  - Rust's `Box`/`take()` ownership.
  `BstClass.Bst.Free` models only the root becoming null, and `Linked.DeleteRec` drops the unlinked node instead of freeing it.
- Height and count use unbounded integers. The 32-bit `int` overflow of C, C++ and Java, and the recursion depth, are not modelled.
- The C++ template is specialised to `int`.
- The JavaScript `insert` and `delete` return `this` for chaining. `BstClass.Bst.Insert` and `BstClass.Bst.Delete` return nothing.
- Linked.DeleteRec: the C, C++ and Java ports find the successor's value with `minValue`, while the JavaScript and Python ports use the node returned by `minNode`. Both return the same value (`Linked.MinNode` and `Linked.MinValue` each state it). `Linked.DeleteRec` uses the node-returning walk for all of them.
