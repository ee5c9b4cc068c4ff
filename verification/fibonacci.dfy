/**
  The two Fibonacci evaluators built on top of the splay tree: a memoised
  recursion that uses a `SplayTree` as its memo table, and the bottom-up
  loop of the cached evaluator.  Both are specified against `Fib`.
 */
module Fibonacci {
  import opened Trees
  import opened SplayTree

  /** The Fibonacci numbers, by their recurrence. */
  function Fib(n: nat): nat
  {
    if n < 2 then n else Fib(n - 1) + Fib(n - 2)
  }

  /** A tree fit to serve as the memo table: a search tree in which every
      stored pair (k, v) has a natural key and v == Fib(k). */
  ghost predicate MemoTable(t: Tree)
  {
    && Ordered(t)
    && forall k :: k in Contents(t) ==> 0 <= k && Contents(t)[k] == Fib(k)
  }

  /** The value an evaluation returns and the memo table it leaves behind. */
  datatype Memo = Memo(value: int, tree: Tree)

  /** `fibonacci_splay`: below 2 return `n` without touching the tree;
      otherwise search the tree for `n` and return the stored value on a hit,
      or evaluate `n - 1` and `n - 2` against the same tree, insert their sum
      under `n` and return it. */
  function FibSplay(n: int, t: Tree): (r: Memo)
    ensures n < 2 ==> r == Memo(n, t)
    ensures n >= 2 ==> r.tree.Node? && r.tree.key == n && r.tree.val == r.value
    decreases n
  {
    if n < 2 then Memo(n, t)
    else
      var s := Search(t, n);
      if s.found.Some? then Memo(s.found.value, s.tree)
      else
        var a := FibSplay(n - 1, s.tree);
        var b := FibSplay(n - 2, a.tree);
        var sum := a.value + b.value;
        Memo(sum, Insert(b.tree, n, sum))
  }

  /** `u` holds every key `t` holds, and the keys it adds lie in [2, n]. */
  ghost predicate Grows(t: Tree, u: Tree, n: int)
  {
    && Contents(t).Keys <= Contents(u).Keys
    && forall k :: k in Contents(u) && k !in Contents(t) ==> 2 <= k <= n
  }

  lemma GrowsTrans(t: Tree, u: Tree, w: Tree, m: int, n: int)
    requires Grows(t, u, m) && Grows(u, w, n) && m <= n
    ensures Grows(t, w, n)
  {
  }

  /** Storing (n, Fib(n)) keeps a memo table sound and adds the key `n`. */
  lemma MemoInsert(t: Tree, n: int, v: int)
    requires MemoTable(t) && n >= 2 && v == Fib(n)
    ensures MemoTable(Insert(t, n, v))
    ensures Contents(Insert(t, n, v)) == Contents(t)[n := v]
    ensures Grows(t, Insert(t, n, v), n)
  {
    InsertCorrect(t, n, v);
  }

  /** Against a sound memo table `FibSplay` returns `Fib(n)` and leaves a
      sound memo table that has lost no key and gained only keys between 2
      and `n`, `n` itself among them when `n >= 2`. */
  lemma {:induction false} FibSplayCorrect(n: int, t: Tree)
    requires MemoTable(t)
    ensures MemoTable(FibSplay(n, t).tree)
    ensures n >= 0 ==> FibSplay(n, t).value == Fib(n)
    ensures Grows(t, FibSplay(n, t).tree, n)
    ensures n >= 2 ==> n in Contents(FibSplay(n, t).tree)
    decreases n, 2
  {
    if n >= 2 {
      var s := Search(t, n);
      SearchCorrect(t, n);
      if s.found.Some? {
        assert FibSplay(n, t) == Memo(Contents(t)[n], s.tree);
      } else {
        FibSplayMiss(n, t);
      }
    }
  }

  /** The miss case of `FibSplayCorrect`: both recursive evaluations run
      against the same table, and their sum is stored under `n`. */
  lemma {:induction false} FibSplayMiss(n: int, t: Tree)
    requires MemoTable(t) && n >= 2 && n !in Contents(t)
    ensures MemoTable(FibSplay(n, t).tree)
    ensures FibSplay(n, t).value == Fib(n)
    ensures Grows(t, FibSplay(n, t).tree, n)
    ensures n in Contents(FibSplay(n, t).tree)
    decreases n, 1
  {
    var b := MissRecursion(n, t);
    MissShape(n, t);
    var r := FibSplay(n, t);
    MemoInsert(b, n, r.value);
    GrowsTrans(t, b, r.tree, n - 1, n);
  }

  /** On a miss, the two recursive evaluations return Fib(n - 1) and
      Fib(n - 2) and leave a sound table `b` grown by keys below `n`. */
  lemma {:induction false} MissRecursion(n: int, t: Tree) returns (b: Tree)
    requires MemoTable(t) && n >= 2 && n !in Contents(t)
    ensures Search(t, n).found.None?
    ensures var a := FibSplay(n - 1, Search(t, n).tree);
      && b == FibSplay(n - 2, a.tree).tree
      && a.value + FibSplay(n - 2, a.tree).value == Fib(n)
    ensures MemoTable(b) && Grows(t, b, n - 1)
    decreases n, 0
  {
    var s := Search(t, n);
    SearchCorrect(t, n);
    var a := FibSplay(n - 1, s.tree);
    FibSplayCorrect(n - 1, s.tree);
    FibSplayCorrect(n - 2, a.tree);
    b := FibSplay(n - 2, a.tree).tree;
    GrowsTrans(t, a.tree, b, n - 1, n - 1);
  }

  /** On a miss, the evaluation stores the sum of the two recursive
      results under `n` in the table the second one left. */
  lemma MissShape(n: int, t: Tree)
    requires n >= 2
    ensures Search(t, n).found.None? ==>
      (FibSplay(n, t).value ==
        FibSplay(n - 1, Search(t, n).tree).value + FibSplay(n - 2, FibSplay(n - 1, Search(t, n).tree).tree).value)
    ensures Search(t, n).found.None? ==>
      (FibSplay(n, t).tree ==
        Insert(FibSplay(n - 2, FibSplay(n - 1, Search(t, n).tree).tree).tree, n, FibSplay(n, t).value))
  {
  }

  /** One measurement run: a freshly seeded `SplayTree` and one evaluation. */
  function FibFresh(n: int): (r: int)
    ensures n >= 0 ==> r == Fib(n)
    ensures n < 0 ==> r == n
  {
    var t := NewTree();
    FibSplayCorrect(n, t);
    FibSplay(n, t).value
  }

  /** The body of `fibonacci_lru`: `n` itself below 2, otherwise the pair
      (a, b) walks up the sequence from (Fib(0), Fib(1)) to (Fib(n-1), Fib(n)). */
  method FibIter(n: int) returns (r: int)
    ensures n < 2 ==> r == n
    ensures n >= 0 ==> r == Fib(n)
  {
    if n < 2 {
      return n;
    }
    var a, b := 0, 1;
    var i := 2;
    while i <= n
      invariant 2 <= i <= n + 1
      invariant a == Fib(i - 2) && b == Fib(i - 1)
    {
      a, b := b, a + b;
      i := i + 1;
    }
    return b;
  }
}
