/**
  The `SplayTree` class: rotation, splaying, insertion and search.

  A node with a parent pointer is represented as a zipper: the subtree rooted
  at the node (`focus`) together with the path of frames from its parent up
  to the root (`path[0]` is the parent).  A frame records the parent's key
  and value, its other child, and which child the focus is, so parent-pointer
  consistency holds by construction.  `Rebuild` reassembles the whole tree.
  Every operation is specified through `Items` (in-order pairs), `Contents`
  (the stored map) and `Ordered` (the search-tree invariant) of module Trees.
 */
module SplayTree {
  import opened Trees

  datatype Option<T> = None | Some(value: T)

  /** The position of a node under its parent: `WentLeft` when the node is the
      parent's left child (the frame keeps the parent's right child), and
      `WentRight` when it is the right child. */
  datatype Frame =
    | WentLeft(pkey: int, pval: int, pright: Tree)
    | WentRight(pleft: Tree, pkey: int, pval: int)

  datatype Zipper = Zipper(focus: Tree, path: seq<Frame>)

  /** The parent's subtree, given the child subtree and the parent's frame. */
  function Attach(t: Tree, f: Frame): Tree
  {
    match f
    case WentLeft(k, v, r) => Node(t, k, v, r)
    case WentRight(l, k, v) => Node(l, k, v, t)
  }

  /** The whole tree a zipper points into. */
  function Rebuild(z: Zipper): Tree
    decreases |z.path|
  {
    if z.path == [] then z.focus
    else Rebuild(Zipper(Attach(z.focus, z.path[0]), z.path[1..]))
  }

  /** In-order pairs of the whole tree that come before the focus. */
  function LeftItems(path: seq<Frame>): seq<(int, int)>
  {
    if path == [] then []
    else match path[0]
      case WentLeft(_, _, _) => LeftItems(path[1..])
      case WentRight(l, k, v) => LeftItems(path[1..]) + Items(l) + [(k, v)]
  }

  /** In-order pairs of the whole tree that come after the focus. */
  function RightItems(path: seq<Frame>): seq<(int, int)>
  {
    if path == [] then []
    else match path[0]
      case WentLeft(k, v, r) => [(k, v)] + Items(r) + RightItems(path[1..])
      case WentRight(_, _, _) => RightItems(path[1..])
  }

  /** The in-order sequence of the whole tree splits around the focus. */
  lemma {:induction false} RebuildItems(z: Zipper)
    ensures Items(Rebuild(z)) == LeftItems(z.path) + Items(z.focus) + RightItems(z.path)
    decreases |z.path|
  {
    if z.path != [] {
      RebuildItems(Zipper(Attach(z.focus, z.path[0]), z.path[1..]));
    }
  }

  /** Move the focus to the parent node, changing nothing in the tree. */
  function Up(z: Zipper): (r: Zipper)
    requires z.path != []
    ensures r.focus.Node? && |r.path| == |z.path| - 1
    ensures Rebuild(r) == Rebuild(z)
  {
    Zipper(Attach(z.focus, z.path[0]), z.path[1..])
  }

  /** Move the focus to one child of the focused node, changing nothing. */
  function Down(z: Zipper, toLeft: bool): (r: Zipper)
    requires z.focus.Node?
    ensures |r.path| == |z.path| + 1
    ensures r.focus == if toLeft then z.focus.left else z.focus.right
    ensures Rebuild(r) == Rebuild(z)
  {
    var Node(l, k, v, rt) := z.focus;
    if toLeft then Zipper(l, [WentLeft(k, v, rt)] + z.path)
    else Zipper(rt, [WentRight(l, k, v)] + z.path)
  }

  /** The subtree that results when the node at the root of `x` is rotated
      above its parent, the parent being described by frame `f`. */
  function Lift(x: Tree, f: Frame): (r: Tree)
    requires x.Node?
    ensures r.Node? && r.key == x.key && r.val == x.val
    ensures Items(r) == Items(Attach(x, f))
  {
    var Node(a, k, v, b) := x;
    match f
    case WentLeft(pk, pv, c) => Node(a, k, v, Node(b, pk, pv, c))
    case WentRight(c, pk, pv) => Node(Node(c, pk, pv, a), k, v, b)
  }

  /** Replacing the focus by a subtree with the same in-order pairs leaves
      the in-order pairs of the whole tree unchanged. */
  lemma RebuildSameItems(f: Tree, g: Tree, path: seq<Frame>)
    requires Items(f) == Items(g)
    ensures Items(Rebuild(Zipper(f, path))) == Items(Rebuild(Zipper(g, path)))
  {
    RebuildItems(Zipper(f, path));
    RebuildItems(Zipper(g, path));
  }

  /** `_rotate`: lift the focused node x one level, past its parent p.  With
      no parent it is a no-op.  Otherwise p takes x's inner child as its own
      child on x's side and becomes x's child; x takes p's place under the
      grandparent (the rest of the path), or becomes the root. */
  function Rotate(z: Zipper): (r: Zipper)
    requires z.focus.Node?
    ensures z.path == [] ==> r == z
    ensures z.path != [] ==> r.path == z.path[1..]
    ensures r.focus.Node? && r.focus.key == z.focus.key && r.focus.val == z.focus.val
    ensures z.path != [] && z.path[0].WentLeft? ==>
      r.focus.left == z.focus.left && r.focus.right.Node? && r.focus.right.key == z.path[0].pkey
    ensures z.path != [] && z.path[0].WentRight? ==>
      r.focus.right == z.focus.right && r.focus.left.Node? && r.focus.left.key == z.path[0].pkey
    ensures Items(Rebuild(r)) == Items(Rebuild(z))
  {
    if z.path == [] then z
    else
      var r := Zipper(Lift(z.focus, z.path[0]), z.path[1..]);
      RebuildSameItems(Up(z).focus, r.focus, r.path);
      r
  }

  /** One iteration of the `_splay` loop: zig when the parent is the root,
      zig-zig (rotate the parent, then the node) when node and parent are
      children on the same side, zig-zag (rotate the node twice) otherwise.
      The node's depth drops by one (zig) or two. */
  function SplayStep(z: Zipper): (r: Zipper)
    requires z.focus.Node? && z.path != []
    ensures |r.path| == if |z.path| == 1 then 0 else |z.path| - 2
    ensures r.focus.Node? && r.focus.key == z.focus.key && r.focus.val == z.focus.val
    ensures Items(Rebuild(r)) == Items(Rebuild(z))
  {
    if |z.path| == 1 then
      Rotate(z)
    else if z.path[0].WentLeft? == z.path[1].WentLeft? then
      var p := Rotate(Up(z));
      var x := Down(p, z.path[0].WentLeft?);
      Rotate(x)
    else
      Rotate(Rotate(z))
  }

  /** `_splay`: repeat splay steps until the node has no parent.  The result
      is the same in-order sequence with the node at the root. */
  function Splay(z: Zipper): (r: Zipper)
    requires z.focus.Node?
    ensures r.path == []
    ensures r.focus.Node? && r.focus.key == z.focus.key && r.focus.val == z.focus.val
    ensures Items(r.focus) == Items(Rebuild(z))
    decreases |z.path|
  {
    if z.path == [] then z else Splay(SplayStep(z))
  }

  /** Splaying changes only the shape: the whole tree keeps its contents,
      its node count and (in both directions) the search-tree invariant. */
  lemma SplayKeepsContents(z: Zipper)
    requires z.focus.Node?
    ensures Contents(Splay(z).focus) == Contents(Rebuild(z))
    ensures Size(Splay(z).focus) == Size(Rebuild(z))
    ensures Ordered(Splay(z).focus) <==> Ordered(Rebuild(z))
  {
    var r := Splay(z).focus;
    OrderedIffSorted(r);
    OrderedIffSorted(Rebuild(z));
    SizeIsItemCount(r);
    SizeIsItemCount(Rebuild(z));
  }

  /** The binary-search walk shared by `insert` and `search`: stop at the
      node holding `k`, or at the empty child where `k` would hang. */
  function Descend(z: Zipper, k: int): (r: Zipper)
    ensures Rebuild(r) == Rebuild(z)
    ensures r.focus.Leaf? || r.focus.key == k
    ensures |r.path| >= |z.path|
    ensures z.focus.Node? && r.focus.Leaf? ==> |r.path| > |z.path|
    decreases z.focus
  {
    match z.focus
    case Leaf => z
    case Node(l, nk, nv, rt) =>
      if k < nk then Descend(Zipper(l, [WentLeft(nk, nv, rt)] + z.path), k)
      else if k > nk then Descend(Zipper(rt, [WentRight(l, nk, nv)] + z.path), k)
      else z
  }

  /** The node that holds `k` once `v` is written at the walk's stop: the
      found node with its value overwritten, or a fresh leaf node. */
  function Placed(f: Tree, k: int, v: int): (r: Tree)
    ensures r.Node? && r.val == v
    ensures f.Node? ==> r.key == f.key && r.left == f.left && r.right == f.right
    ensures f.Leaf? ==> r == Node(Leaf, k, v, Leaf)
  {
    match f
    case Node(l, nk, _, rt) => Node(l, nk, v, rt)
    case Leaf => Node(Leaf, k, v, Leaf)
  }

  /** `insert`: an empty tree becomes a single node; otherwise an existing
      node with key `k` gets value `v`, or a new node is hung where the walk
      fell off the tree, and that node is splayed to the root. */
  function Insert(t: Tree, k: int, v: int): (r: Tree)
    ensures r.Node? && r.key == k && r.val == v
  {
    if t.Leaf? then Node(Leaf, k, v, Leaf)
    else
      var z := Descend(Zipper(t, []), k);
      Splay(Zipper(Placed(z.focus, k, v), z.path)).focus
  }

  /** What `search` leaves behind: the restructured tree, and the value of
      the node holding the key if there is one. */
  datatype SearchResult = SearchResult(tree: Tree, found: Option<int>)

  /** `search`: walk to `k`; on a hit splay the node holding it, on a miss
      splay the last node visited; an empty tree is left alone. */
  function Search(t: Tree, k: int): (r: SearchResult)
    ensures Items(r.tree) == Items(t)
    ensures t.Leaf? ==> r == SearchResult(Leaf, None)
    ensures t.Node? ==> r.tree.Node?
    ensures r.found.Some? ==> r.tree.key == k && r.tree.val == r.found.value
  {
    if t.Leaf? then SearchResult(Leaf, None)
    else
      var z := Descend(Zipper(t, []), k);
      if z.focus.Node? then
        SearchResult(Splay(z).focus, Some(z.focus.val))
      else
        SearchResult(Splay(Up(z)).focus, None)
  }

  /** `SplayTree()`: an empty tree seeded with the pairs (0, 0) and (1, 1). */
  function NewTree(): (t: Tree)
    ensures Ordered(t) && Contents(t) == map[0 := 0, 1 := 1]
  {
    var t0 := Insert(Leaf, 0, 0);
    InsertCorrect(Leaf, 0, 0);
    InsertCorrect(t0, 1, 1);
    Insert(t0, 1, 1)
  }

  lemma AllBelowConcat(a: seq<(int, int)>, b: seq<(int, int)>, k: int)
    ensures AllBelow(a + b, k) <==> AllBelow(a, k) && AllBelow(b, k)
  {
    if AllBelow(a + b, k) {
      forall i | 0 <= i < |a| ensures a[i].0 < k {
        assert (a + b)[i] == a[i];
      }
      forall i | 0 <= i < |b| ensures b[i].0 < k {
        assert (a + b)[|a| + i] == b[i];
      }
    }
    if AllBelow(a, k) && AllBelow(b, k) {
      forall i | 0 <= i < |a + b| ensures (a + b)[i].0 < k {
        if i < |a| {
          assert (a + b)[i] == a[i];
        } else {
          assert (a + b)[i] == b[i - |a|];
        }
      }
    }
  }

  lemma AllAboveConcat(a: seq<(int, int)>, b: seq<(int, int)>, k: int)
    ensures AllAbove(a + b, k) <==> AllAbove(a, k) && AllAbove(b, k)
  {
    if AllAbove(a + b, k) {
      forall i | 0 <= i < |a| ensures k < a[i].0 {
        assert (a + b)[i] == a[i];
      }
      forall i | 0 <= i < |b| ensures k < b[i].0 {
        assert (a + b)[|a| + i] == b[i];
      }
    }
    if AllAbove(a, k) && AllAbove(b, k) {
      forall i | 0 <= i < |a + b| ensures k < (a + b)[i].0 {
        if i < |a| {
          assert (a + b)[i] == a[i];
        } else {
          assert (a + b)[i] == b[i - |a|];
        }
      }
    }
  }

  /** In a search tree the children's pairs lie below and above the key. */
  lemma OrderedSplit(t: Tree)
    requires Ordered(t) && t.Node?
    ensures Ordered(t.left) && Ordered(t.right)
    ensures AllBelow(Items(t.left), t.key) && AllAbove(Items(t.right), t.key)
  {
    KeysAreItemKeys(t.left);
    KeysAreItemKeys(t.right);
    AllBelowKeys(Items(t.left), t.key);
    AllAboveKeys(Items(t.right), t.key);
  }

  /** The walk keeps everything left of the focus below `k` and everything
      right of it above `k`. */
  lemma {:induction false} DescendSplits(z: Zipper, k: int)
    requires Ordered(z.focus)
    requires AllBelow(LeftItems(z.path), k) && AllAbove(RightItems(z.path), k)
    ensures Ordered(Descend(z, k).focus)
    ensures AllBelow(LeftItems(Descend(z, k).path), k)
    ensures AllAbove(RightItems(Descend(z, k).path), k)
    decreases z.focus
  {
    match z.focus
    case Leaf =>
    case Node(l, nk, nv, rt) =>
      OrderedSplit(z.focus);
      if k < nk {
        var p := [WentLeft(nk, nv, rt)] + z.path;
        assert p[0] == WentLeft(nk, nv, rt) && p[1..] == z.path;
        AllAboveConcat([(nk, nv)], Items(rt), k);
        AllAboveConcat([(nk, nv)] + Items(rt), RightItems(z.path), k);
        DescendSplits(Zipper(l, p), k);
      } else if k > nk {
        var p := [WentRight(l, nk, nv)] + z.path;
        assert p[0] == WentRight(l, nk, nv) && p[1..] == z.path;
        AllBelowConcat(LeftItems(z.path), Items(l), k);
        AllBelowConcat(LeftItems(z.path) + Items(l), [(nk, nv)], k);
        DescendSplits(Zipper(rt, p), k);
      }
  }

  /** Where the walk for `k` stops in a search tree `t`: the pairs of `t`
      split into those below `k`, the focus, and those above `k`. */
  lemma DescendLocates(t: Tree, k: int)
    requires Ordered(t)
    ensures var z := Descend(Zipper(t, []), k);
      && Items(t) == LeftItems(z.path) + Items(z.focus) + RightItems(z.path)
      && Ordered(z.focus)
      && AllBelow(LeftItems(z.path), k) && AllAbove(RightItems(z.path), k)
  {
    var z := Descend(Zipper(t, []), k);
    RebuildItems(z);
    DescendSplits(Zipper(t, []), k);
  }

  lemma SortedPrefixSuffix(a: seq<(int, int)>, b: seq<(int, int)>)
    requires Sorted(a + b)
    ensures Sorted(a) && Sorted(b)
  {
    forall i, j | 0 <= i < j < |a| ensures a[i].0 < a[j].0 {
      assert (a + b)[i] == a[i] && (a + b)[j] == a[j];
    }
    forall i, j | 0 <= i < j < |b| ensures b[i].0 < b[j].0 {
      assert (a + b)[|a| + i] == b[i] && (a + b)[|a| + j] == b[j];
    }
  }

  /** Overwriting the value of a pair in a sorted sequence keeps it sorted
      and updates the denoted map at that key only. */
  lemma ReplaceValue(a: seq<(int, int)>, k: int, v0: int, v: int, b: seq<(int, int)>)
    requires Sorted(a + [(k, v0)] + b)
    ensures Sorted(a + [(k, v)] + b)
    ensures k in ToMap(a + [(k, v0)] + b) && ToMap(a + [(k, v0)] + b)[k] == v0
    ensures ToMap(a + [(k, v)] + b) == ToMap(a + [(k, v0)] + b)[k := v]
  {
    SortedAround(a, (k, v0), b);
    SortedAround(a, (k, v), b);
    AllAboveKeys(b, k);
    ToMapAround(a, (k, v), b);
    ToMapAround(a, (k, v0), b);
  }

  /** Adding a pair with a new key between the pairs below it and those
      above it keeps the sequence sorted and extends the map by that pair. */
  lemma AddPair(a: seq<(int, int)>, k: int, v: int, b: seq<(int, int)>)
    requires Sorted(a + b) && AllBelow(a, k) && AllAbove(b, k)
    ensures Sorted(a + [(k, v)] + b)
    ensures k !in ToMap(a + b)
    ensures ToMap(a + [(k, v)] + b) == ToMap(a + b)[k := v]
  {
    SortedPrefixSuffix(a, b);
    SortedAround(a, (k, v), b);
    AllBelowKeys(a, k);
    AllAboveKeys(b, k);
    KeysOfConcat(a, b);
    ToMapKeys(a + b);
    ToMapAround(a, (k, v), b);
  }

  /** Writing `v` at the stop of the walk for `k` yields a sorted sequence
      denoting the old map updated at `k`, one pair longer exactly when the
      walk fell off the tree. */
  lemma PlacedItems(L: seq<(int, int)>, f: Tree, R: seq<(int, int)>, k: int, v: int)
    requires f.Leaf? || f.key == k
    requires Ordered(f)
    requires Sorted(L + Items(f) + R)
    requires AllBelow(L, k) && AllAbove(R, k)
    ensures var s := L + Items(Placed(f, k, v)) + R;
      && Sorted(s)
      && ToMap(s) == ToMap(L + Items(f) + R)[k := v]
      && |s| == if k in ToMap(L + Items(f) + R) then |L + Items(f) + R| else |L + Items(f) + R| + 1
  {
    match f
    case Node(a, _, v0, b) =>
      assert L + Items(f) + R == (L + Items(a)) + [(k, v0)] + (Items(b) + R);
      assert L + Items(Placed(f, k, v)) + R == (L + Items(a)) + [(k, v)] + (Items(b) + R);
      ReplaceValue(L + Items(a), k, v0, v, Items(b) + R);
    case Leaf =>
      assert L + Items(f) + R == L + R;
      assert L + Items(Placed(f, k, v)) + R == L + [(k, v)] + R;
      AddPair(L, k, v, R);
  }

  /** `insert` on a search tree keeps it a search tree, stores `v` under `k`
      and leaves every other key's value alone; it adds a node exactly when
      `k` was not stored before. */
  lemma InsertCorrect(t: Tree, k: int, v: int)
    requires Ordered(t)
    ensures Ordered(Insert(t, k, v))
    ensures Contents(Insert(t, k, v)) == Contents(t)[k := v]
    ensures Size(Insert(t, k, v)) == if k in Contents(t) then Size(t) else Size(t) + 1
    ensures Keys(Insert(t, k, v)) == Keys(t) + {k}
  {
    var r := Insert(t, k, v);
    ContentsKeys(t);
    ContentsKeys(r);
    SizeIsItemCount(t);
    SizeIsItemCount(r);
    OrderedIffSorted(t);
    OrderedIffSorted(r);
    if t.Leaf? {
      assert Items(r) == [(k, v)];
      assert Items(r)[..0] == [];
    } else {
      var z := Descend(Zipper(t, []), k);
      DescendLocates(t, k);
      var x := Zipper(Placed(z.focus, k, v), z.path);
      assert r == Splay(x).focus;
      RebuildItems(x);
      PlacedItems(LeftItems(z.path), z.focus, RightItems(z.path), k, v);
    }
  }

  /** At the stop of the walk for `k`, the key is stored exactly when the
      walk stopped at a node, and then that node holds its stored value. */
  lemma StopLookup(L: seq<(int, int)>, f: Tree, R: seq<(int, int)>, k: int)
    requires f.Leaf? || f.key == k
    requires Sorted(L + Items(f) + R)
    requires AllBelow(L, k) && AllAbove(R, k)
    ensures f.Node? <==> k in ToMap(L + Items(f) + R)
    ensures f.Node? ==> ToMap(L + Items(f) + R)[k] == f.val
  {
    match f
    case Node(a, _, v0, b) =>
      assert L + Items(f) + R == (L + Items(a)) + [(k, v0)] + (Items(b) + R);
      ReplaceValue(L + Items(a), k, v0, v0, Items(b) + R);
    case Leaf =>
      assert L + Items(f) + R == L + R;
      AddPair(L, k, 0, R);
  }

  /** `search` on a search tree keeps it a search tree with the same
      contents, and reports a hit exactly when the key is stored, together
      with the stored value. */
  lemma SearchCorrect(t: Tree, k: int)
    requires Ordered(t)
    ensures Ordered(Search(t, k).tree)
    ensures Contents(Search(t, k).tree) == Contents(t)
    ensures Search(t, k).found.Some? <==> k in Contents(t)
    ensures Search(t, k).found.Some? ==> Search(t, k).found.value == Contents(t)[k]
  {
    var r := Search(t, k);
    OrderedIffSorted(t);
    OrderedIffSorted(r.tree);
    if t.Node? {
      var z := Descend(Zipper(t, []), k);
      DescendLocates(t, k);
      StopLookup(LeftItems(z.path), z.focus, RightItems(z.path), k);
    }
  }

  /** A `search` miss on a non-empty search tree splays the last node
      visited: the walk ends at an empty child, and the new root holds the
      key of that child's parent.  That key is stored, with no stored key
      strictly between it and `k`: the in-order predecessor or successor of
      `k`, whichever the walk happened to reach last. */
  lemma SearchMissRoot(t: Tree, k: int)
    requires Ordered(t) && t.Node? && k !in Contents(t)
    ensures Search(t, k).found == None
    ensures Search(t, k).tree.key in Contents(t)
    ensures forall j :: j in Contents(t) ==>
      !(k < j < Search(t, k).tree.key) && !(Search(t, k).tree.key < j < k)
    ensures var z := Descend(Zipper(t, []), k);
      && z.focus.Leaf? && z.path != []
      && Search(t, k).tree.key == Up(z).focus.key
  {
    var z := Descend(Zipper(t, []), k);
    MissStop(t, k);
    MissNeighbour(z, k);
    assert Search(t, k) == SearchResult(Splay(Up(z)).focus, None);
  }

  /** The last node visited need not hold the nearest stored key: searching
      99 in {0, 100} walks 100, then 0, and splays 0. */
  lemma SearchMissNotNearest()
    ensures Search(Node(Node(Leaf, 0, 0, Leaf), 100, 100, Leaf), 99).tree.key == 0
  {
    var t := Node(Node(Leaf, 0, 0, Leaf), 100, 100, Leaf);
    var stop := Zipper(Leaf, [WentRight(Leaf, 0, 0), WentLeft(100, 100, Leaf)]);
    assert Descend(Zipper(Node(Leaf, 0, 0, Leaf), [WentLeft(100, 100, Leaf)]), 99) == stop;
    assert Descend(Zipper(t, []), 99) == stop;
    assert Up(stop).focus.key == 0;
  }

  /** Where a failed walk stops: an empty child below at least one node,
      with the stored keys split into those below and those above `k`. */
  lemma MissStop(t: Tree, k: int)
    requires Ordered(t) && t.Node? && k !in Contents(t)
    ensures var z := Descend(Zipper(t, []), k);
      && z.focus.Leaf? && z.path != []
      && Sorted(LeftItems(z.path)) && Sorted(RightItems(z.path))
      && AllBelow(LeftItems(z.path), k) && AllAbove(RightItems(z.path), k)
      && Contents(t).Keys == KeysOf(LeftItems(z.path) + RightItems(z.path))
  {
    OrderedIffSorted(t);
    var z := Descend(Zipper(t, []), k);
    DescendLocates(t, k);
    var L, R := LeftItems(z.path), RightItems(z.path);
    StopLookup(L, z.focus, R, k);
    assert Contents(t) == ToMap(L + Items(z.focus) + R);
    assert z.focus.Leaf?;
    assert Items(t) == L + R;
    SortedPrefixSuffix(L, R);
    ToMapKeys(L + R);
  }

  /** The last node on a failed walk is adjacent to `k` in key order. */
  lemma MissNeighbour(z: Zipper, k: int)
    requires z.focus.Leaf? && z.path != []
    requires Sorted(LeftItems(z.path)) && Sorted(RightItems(z.path))
    requires AllBelow(LeftItems(z.path), k) && AllAbove(RightItems(z.path), k)
    ensures var p := Up(z).focus.key;
      && p in KeysOf(LeftItems(z.path) + RightItems(z.path))
      && forall j :: j in KeysOf(LeftItems(z.path) + RightItems(z.path)) ==> !(k < j < p) && !(p < j < k)
  {
    var L, R := LeftItems(z.path), RightItems(z.path);
    var p := Up(z).focus.key;
    KeysOfConcat(L, R);
    AllBelowKeys(L, k);
    AllAboveKeys(R, k);
    match z.path[0]
    case WentLeft(pk, pv, pr) =>
      assert R[0] == (pk, pv);
      KeyAtIndex(R, 0);
      forall j | j in KeysOf(R) ensures p <= j {
        var i := KeyHasIndex(R, j);
      }
    case WentRight(pl, pk, pv) =>
      assert L[|L| - 1] == (pk, pv);
      KeyAtIndex(L, |L| - 1);
      forall j | j in KeysOf(L) ensures j <= p {
        var i := KeyHasIndex(L, j);
      }
  }
}
