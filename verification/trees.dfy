/**
  The node graph of a splay tree, as an immutable value.

  A `Tree` is what is reachable from a `SplayTree`'s root: every `Node` owns
  its two children, and parent back-pointers are not stored at all (the
  zipper in module SplayTree recovers them structurally).  The module also fixes
  the abstraction used by every specification in the project:
  - `Items(t)`, the in-order sequence of (key, value) pairs;
  - `Contents(t)`, the key -> value map the tree stores;
  - `Ordered(t)`, the binary-search-tree invariant stated node by node,
    proved equivalent to `Items(t)` being strictly sorted by key.
 */
module Trees {

  datatype Tree = Leaf | Node(left: Tree, key: int, val: int, right: Tree)

  /** Number of nodes. */
  function Size(t: Tree): nat
  {
    match t
    case Leaf => 0
    case Node(l, _, _, r) => Size(l) + 1 + Size(r)
  }

  /** The set of keys stored anywhere in `t`. */
  function Keys(t: Tree): set<int>
  {
    match t
    case Leaf => {}
    case Node(l, k, _, r) => Keys(l) + {k} + Keys(r)
  }

  /** In-order sequence of (key, value) pairs. */
  function Items(t: Tree): seq<(int, int)>
  {
    match t
    case Leaf => []
    case Node(l, k, v, r) => Items(l) + [(k, v)] + Items(r)
  }

  /** The binary-search-tree invariant: every key of a left subtree is
      strictly smaller, and every key of a right subtree strictly larger,
      than the key of the node above it. */
  ghost predicate Ordered(t: Tree)
  {
    match t
    case Leaf => true
    case Node(l, k, _, r) =>
      && Ordered(l) && Ordered(r)
      && (forall x :: x in Keys(l) ==> x < k)
      && (forall x :: x in Keys(r) ==> k < x)
  }

  /** Keys occurring in a sequence of pairs. */
  function KeysOf(s: seq<(int, int)>): set<int>
  {
    set e | e in s :: e.0
  }

  ghost predicate Sorted(s: seq<(int, int)>)
  {
    forall i, j :: 0 <= i < j < |s| ==> s[i].0 < s[j].0
  }

  ghost predicate AllBelow(s: seq<(int, int)>, k: int)
  {
    forall i :: 0 <= i < |s| ==> s[i].0 < k
  }

  ghost predicate AllAbove(s: seq<(int, int)>, k: int)
  {
    forall i :: 0 <= i < |s| ==> k < s[i].0
  }

  /** The map a sequence of pairs denotes; a later pair overrides an earlier
      one with the same key (which never happens in a sorted sequence). */
  function ToMap(s: seq<(int, int)>): map<int, int>
  {
    if s == [] then map[]
    else ToMap(s[..|s| - 1])[s[|s| - 1].0 := s[|s| - 1].1]
  }

  /** The key -> value association a tree stores. */
  function Contents(t: Tree): map<int, int>
  {
    ToMap(Items(t))
  }

  lemma {:induction false} SizeIsItemCount(t: Tree)
    ensures |Items(t)| == Size(t)
  {
    match t
    case Leaf =>
    case Node(l, _, _, r) =>
      SizeIsItemCount(l);
      SizeIsItemCount(r);
  }

  lemma KeysOfConcat(a: seq<(int, int)>, b: seq<(int, int)>)
    ensures KeysOf(a + b) == KeysOf(a) + KeysOf(b)
  {
    forall x | x in KeysOf(a + b)
      ensures x in KeysOf(a) + KeysOf(b)
    {
      var e :| e in a + b && e.0 == x;
    }
    forall x | x in KeysOf(a) + KeysOf(b)
      ensures x in KeysOf(a + b)
    {
      if x in KeysOf(a) {
        var e :| e in a && e.0 == x;
        assert e in a + b;
      } else {
        var e :| e in b && e.0 == x;
        assert e in a + b;
      }
    }
  }

  /** The key set of a tree is the key set of its in-order sequence. */
  lemma {:induction false} KeysAreItemKeys(t: Tree)
    ensures KeysOf(Items(t)) == Keys(t)
  {
    match t
    case Leaf =>
    case Node(l, k, v, r) =>
      KeysAreItemKeys(l);
      KeysAreItemKeys(r);
      KeysOfConcat(Items(l) + [(k, v)], Items(r));
      KeysOfConcat(Items(l), [(k, v)]);
      assert KeysOf([(k, v)]) == {k};
  }

  lemma KeyAtIndex(s: seq<(int, int)>, i: int)
    requires 0 <= i < |s|
    ensures s[i].0 in KeysOf(s)
  {
    assert s[i] in s;
  }

  lemma KeyHasIndex(s: seq<(int, int)>, x: int) returns (i: int)
    requires x in KeysOf(s)
    ensures 0 <= i < |s| && s[i].0 == x
  {
    var e :| e in s && e.0 == x;
    i :| 0 <= i < |s| && s[i] == e;
  }

  /** A sequence split around one pair is sorted exactly when both sides are
      sorted and lie strictly below and above that pair's key. */
  lemma SortedAround(a: seq<(int, int)>, e: (int, int), b: seq<(int, int)>)
    ensures Sorted(a + [e] + b) <==> Sorted(a) && Sorted(b) && AllBelow(a, e.0) && AllAbove(b, e.0)
  {
    var s := a + [e] + b;
    assert forall i :: 0 <= i < |a| ==> s[i] == a[i];
    assert s[|a|] == e;
    assert forall i :: 0 <= i < |b| ==> s[|a| + 1 + i] == b[i];
    if Sorted(s) {
      forall i, j | 0 <= i < j < |b| ensures b[i].0 < b[j].0 {
        assert s[|a| + 1 + i] == b[i] && s[|a| + 1 + j] == b[j];
      }
      forall i | 0 <= i < |b| ensures e.0 < b[i].0 {
        assert s[|a| + 1 + i] == b[i];
      }
    }
    if Sorted(a) && Sorted(b) && AllBelow(a, e.0) && AllAbove(b, e.0) {
      forall i, j | 0 <= i < j < |s| ensures s[i].0 < s[j].0 {
        if j < |a| {
        } else if i < |a| {
          if j > |a| {
            assert s[j] == b[j - |a| - 1];
          }
        } else if i == |a| {
          assert s[j] == b[j - |a| - 1];
        } else {
          assert s[i] == b[i - |a| - 1] && s[j] == b[j - |a| - 1];
        }
      }
    }
  }

  lemma AllBelowKeys(s: seq<(int, int)>, k: int)
    ensures AllBelow(s, k) <==> forall x :: x in KeysOf(s) ==> x < k
  {
    if AllBelow(s, k) {
      forall x | x in KeysOf(s) ensures x < k {
        var i := KeyHasIndex(s, x);
      }
    }
    forall i | 0 <= i < |s| ensures (forall x :: x in KeysOf(s) ==> x < k) ==> s[i].0 < k {
      KeyAtIndex(s, i);
    }
  }

  lemma AllAboveKeys(s: seq<(int, int)>, k: int)
    ensures AllAbove(s, k) <==> forall x :: x in KeysOf(s) ==> k < x
  {
    if AllAbove(s, k) {
      forall x | x in KeysOf(s) ensures k < x {
        var i := KeyHasIndex(s, x);
      }
    }
    forall i | 0 <= i < |s| ensures (forall x :: x in KeysOf(s) ==> k < x) ==> k < s[i].0 {
      KeyAtIndex(s, i);
    }
  }

  /** The node-by-node search-tree invariant is the same thing as a strictly
      increasing in-order key sequence. */
  lemma {:induction false} OrderedIffSorted(t: Tree)
    ensures Ordered(t) <==> Sorted(Items(t))
  {
    match t
    case Leaf =>
    case Node(l, k, v, r) =>
      OrderedIffSorted(l);
      OrderedIffSorted(r);
      SortedAround(Items(l), (k, v), Items(r));
      KeysAreItemKeys(l);
      KeysAreItemKeys(r);
      AllBelowKeys(Items(l), k);
      AllAboveKeys(Items(r), k);
  }

  lemma {:induction false} ToMapConcat(a: seq<(int, int)>, b: seq<(int, int)>)
    ensures ToMap(a + b) == ToMap(a) + ToMap(b)
    decreases |b|
  {
    if b == [] {
      assert a + b == a;
    } else {
      var b' := b[..|b| - 1];
      var e := b[|b| - 1];
      assert (a + b)[..|a + b| - 1] == a + b';
      assert (a + b)[|a + b| - 1] == e;
      ToMapConcat(a, b');
    }
  }

  lemma {:induction false} ToMapKeys(s: seq<(int, int)>)
    ensures ToMap(s).Keys == KeysOf(s)
    decreases |s|
  {
    if s != [] {
      var s' := s[..|s| - 1];
      ToMapKeys(s');
      assert s == s' + [s[|s| - 1]];
      KeysOfConcat(s', [s[|s| - 1]]);
      assert KeysOf([s[|s| - 1]]) == {s[|s| - 1].0};
    }
  }

  /** Adding one pair in the middle of a sequence stores it, provided no
      later pair has the same key. */
  lemma ToMapAround(a: seq<(int, int)>, e: (int, int), b: seq<(int, int)>)
    requires e.0 !in KeysOf(b)
    ensures ToMap(a + [e] + b) == ToMap(a + b)[e.0 := e.1]
  {
    ToMapConcat(a + [e], b);
    ToMapConcat(a, [e]);
    ToMapConcat(a, b);
    ToMapKeys(b);
    assert [e][..0] == [];
  }

  /** A key is stored exactly when it is one of the tree's keys. */
  lemma ContentsKeys(t: Tree)
    ensures Contents(t).Keys == Keys(t)
  {
    ToMapKeys(Items(t));
    KeysAreItemKeys(t);
  }
}
