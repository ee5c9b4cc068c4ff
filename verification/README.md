# Splay-tree memo table, modelled in Dafny

This project models the splay tree of `task_2.py` and the two Fibonacci
evaluators that sit on top of it:

- the `Node`/`SplayTree` pair: a binary search tree with parent pointers
  whose `insert` and `search` end by splaying a node to the root with
  zig, zig-zig and zig-zag rotations;
- `fibonacci_splay`, a memoised recursion that uses the tree as its memo
  table;
- the loop body of `fibonacci_lru`, a bottom-up iterative Fibonacci.

Modules:

- `trees.dfy`, module `Trees`: the node graph as an immutable `Tree`
  (`Leaf | Node(left, key, val, right)`), and the abstractions used in every
  specification: `Items` (the in-order (key, value) pairs), `Contents` (the
  key -> value map), `Keys`, `Size`, and `Ordered` (the search-tree invariant,
  stated node by node as in the source's comparisons).
- `splay.dfy`, module `SplayTree`: a node with its parent pointer is a zipper,
  the subtree under the node plus the path of frames up to the root
  (`path[0]` is the parent frame). Parent/child consistency holds by
  construction. `Rotate` pops one frame. `Splay` repeats `SplayStep` until
  the path is empty. `Descend` is the binary-search walk shared by `insert`
  and `search`. `Insert`, `Search` and `NewTree` are the public operations.
- `fibonacci.dfy`, module `Fibonacci`: `Fib`, `FibSplay` (memoised
  recursion), `FibFresh` (fresh seeded tree plus one evaluation), `FibIter`
  (the bottom-up loop).

Keys and values are unbounded integers, like Python's. The Python object
returned by `search` is modelled by the value it holds
(`SearchResult.found`); afterwards that node is the root of the returned
tree. Node identity (`is`) is replaced by position in the zipper, which is
sound because keys are unique.

`SplayTree.__init__` seeds the keys 0 and 1 (task_2.py:23-24), but
`fibonacci_splay` returns `n` for every `n < 2` before it consults the tree
(task_2.py:122-123). So the seeded values are never returned. The seeded
nodes still take part in the tree: search walks compare against keys 0 and
1 and can splay those nodes. `FibSplayCorrect` holds for any sound memo
table, including the empty tree.

On a failed search the code splays the last node visited
(task_2.py:104-106). `SearchMissRoot` pins this node down as the parent of
the empty child where the walk stopped. It also proves that in a search tree
this node holds either the in-order predecessor or the in-order successor of
the missing key: no stored key lies strictly between the two. It is not
always the closer of the two. `SearchMissNotNearest` shows this on a concrete
tree.

## Model

| member | source | states |
|---|---|---|
| `Trees.OrderedIffSorted` | task_2.py:73-89 | The search-tree invariant that insert's key comparisons maintain (left keys below, right keys above, at every node) holds exactly when the in-order key sequence is strictly increasing. |
| `SplayTree.Lift` | task_2.py:32-38 | Rotating a node above its parent gives a subtree whose root is that node, with its key and value, and whose in-order pairs are those of the parent's subtree before the rotation. |
| `SplayTree.Up` | task_2.py:53 | Moving from a node to its parent shortens the path by one, lands on a node, and leaves the whole tree unchanged. |
| `SplayTree.Down` | task_2.py:60-61 | Moving from a node to one child lengthens the path by one and leaves the whole tree unchanged. This is how zig-zig finds `x` again under `p` after `rotate(p)`. |
| `SplayTree.Rotate` | task_2.py:26-49 | With no parent, nothing changes. Otherwise the node moves up exactly one level: its path loses only the parent frame, so it takes the parent's place under the grandparent or becomes the root. It keeps its key and value. The former parent becomes its child on the side it came from, and its outer child is untouched. The in-order pairs of the whole tree are unchanged. |
| `SplayTree.SplayStep` | task_2.py:52-65 | One loop iteration (zig, zig-zig or zig-zag) reduces the node's depth by one when the parent is the root, and by two otherwise. It keeps the node's key and value and the in-order pairs of the whole tree. |
| `SplayTree.Splay` | task_2.py:51-65 | Splaying terminates because the depth decreases. It leaves the node with no parent, as the root, with its key and value. The resulting tree has the same in-order pairs as the tree it started from. |
| `SplayTree.SplayKeepsContents` | task_2.py:51-65 | Splaying preserves the key -> value contents and the node count. The result is a search tree exactly when the original tree was one. |
| `SplayTree.Descend` | task_2.py:71-83 | The search walk does not change the tree. It stops either at the node holding the key or at an empty child. Starting from a node, it stops at an empty child only below at least one node. |
| `SplayTree.PlacedItems` | task_2.py:79-89 | Writing the value where the walk stopped keeps the in-order key sequence strictly sorted. The stored map becomes the old map updated at the key. The sequence is unchanged in length when the key was already stored (its node's value is overwritten) and grows by exactly one pair otherwise (a new node is hung at the empty child). |
| `SplayTree.Insert` | task_2.py:67-90 | After insert, the root holds the inserted key and value. This includes the empty tree, which becomes a single node. |
| `SplayTree.InsertCorrect` | task_2.py:67-90 | On a search tree, insert keeps the search-tree invariant. The contents become the old contents updated at the key, and every other key keeps its value. The key set gains exactly that key. The node count is unchanged when the key was present (the value is overwritten in place) and grows by one otherwise. |
| `SplayTree.Search` | task_2.py:92-107 | Search never changes the in-order pairs, so contents, order and size are unchanged. An empty tree stays empty and reports no hit. A non-empty tree stays non-empty. On a hit, the root holds the searched key and the reported value. |
| `SplayTree.SearchCorrect` | task_2.py:92-103 | On a search tree, search reports a hit exactly when the key is stored, with the stored value. The result is still a search tree with the same contents. |
| `SplayTree.SearchMissRoot` | task_2.py:93-107 | On a miss in a non-empty search tree, the walk ends at an empty child. The new root is the last node visited, the parent of that empty child. Its key is stored, and no stored key lies strictly between that key and the searched one. |
| `SplayTree.SearchMissNotNearest` | task_2.py:104-106 | Searching 99 in a tree holding 100 with 0 as its left child splays 0, the last node visited, not 100, the nearest key. |
| `SplayTree.NewTree` | task_2.py:20-24 | A fresh tree, seeded by inserting (0, 0) and then (1, 1), is a search tree that stores exactly {0: 0, 1: 1}. |
| `Fibonacci.FibSplay` | task_2.py:121-130 | Below 2 the argument is returned and the tree is untouched. From 2 upwards, the returned tree's root holds `n` and the returned value, whether `n` was found by the search or inserted after the recursion. |
| `Fibonacci.MemoInsert` | task_2.py:129 | Inserting (n, Fib(n)) into a sound memo table keeps it sound. It updates the table only at `n` and adds no key other than `n`. |
| `Fibonacci.MissRecursion` | task_2.py:128 | On a miss, the two recursive evaluations share one table. Their results sum to Fib(n). The table they leave is sound and has gained only keys between 2 and n - 1. |
| `Fibonacci.FibSplayMiss` | task_2.py:127-130 | On a miss, the evaluation returns Fib(n). It leaves a sound table that holds `n` and has gained only keys between 2 and n. |
| `Fibonacci.FibSplayCorrect` | task_2.py:121-130 | Given a memo table whose every pair (k, v) has v == Fib(k), the evaluation returns Fib(n) for n >= 0. The table stays sound and loses no key. It gains only keys between 2 and n, and n itself when n >= 2. |
| `Fibonacci.FibFresh` | task_2.py:149-151 | Evaluating on a freshly seeded tree returns Fib(n) for n >= 0, and n itself for negative n. |
| `Fibonacci.FibIter` | task_2.py:111-118 | The bottom-up loop returns n for n < 2 and Fib(n) for n >= 2. Its loop keeps (a, b) equal to consecutive Fibonacci numbers. |

## Left out

- task_1.py (the range-sum functions and their `lru_cache` wrapper): not part of this model.
- The `@lru_cache` decorator on `fibonacci_lru` (task_2.py:110) is library caching with no visible behaviour of its own. Only the function body is modelled, as `FibIter`.
- `sys.setrecursionlimit` (task_2.py:7) is a limit on the host's call stack. `FibSplay` is modelled without a depth bound.
- The timing, table-printing and plotting block (task_2.py:133-173) is I/O and floating-point wall-clock measurement. Only the composition in `run_splay` is kept, as `FibFresh`.
- Python object identity and heap aliasing: nodes are identified by their position in the zipper. Rotation counts and amortised cost are not part of the functional contract and are not modelled.
- Keys are modelled as integers, the only keys the source ever stores. Other orderable Python key types are not modelled.
