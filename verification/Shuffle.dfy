/** The in-place Fisher-Yates shuffle that orders nodes and cached masters. */
module Shuffle {

  /** Two sequences hold the same elements the same number of times. */
  ghost predicate Permutation<T>(a: seq<T>, b: seq<T>) {
    multiset(a) == multiset(b)
  }

  lemma SwapPermutes<T>(a: seq<T>, i: nat, j: nat)
    requires i < |a| && j < |a|
    ensures Permutation(a[i := a[j]][j := a[i]], a)
  {
  }

  /** fyshuffle: whatever the random draws, the result is a permutation of the input. */
  method FisherYates(a: array<nat>)
    modifies a
    ensures Permutation(a[..], old(a[..]))
  {
    var n := a.Length;
    while n > 1
      invariant 0 <= n <= a.Length
      invariant Permutation(a[..], old(a[..]))
    {
      var r: nat :| r < n;
      n := n - 1;
      ghost var before := a[..];
      SwapPermutes(before, n, r);
      a[n], a[r] := a[r], a[n];
      assert a[..] == before[n := before[r]][r := before[n]];
    }
  }

  /** The numbers below n, in order. */
  function Upto(n: nat): (s: seq<nat>)
    ensures |s| == n && forall i :: 0 <= i < n ==> s[i] == i
  {
    seq(n, i => i)
  }

  /** A permutation of the numbers below n lists each of them exactly once. */
  lemma {:induction false} EachOnce(s: seq<nat>, n: nat)
    requires Permutation(s, Upto(n))
    ensures |s| == n
    ensures forall i :: 0 <= i < n ==> s[i] < n
    ensures forall i, j :: 0 <= i < j < n ==> s[i] != s[j]
    ensures forall k :: 0 <= k < n ==> k in s
  {
    assert |multiset(s)| == |multiset(Upto(n))|;
    forall i | 0 <= i < n ensures s[i] < n {
      assert s[i] in multiset(s);
      assert s[i] in multiset(Upto(n));
    }
    forall k | 0 <= k < n ensures k in s {
      assert Upto(n)[k] == k;
      assert k in multiset(Upto(n));
    }
    forall i, j | 0 <= i < j < n ensures s[i] != s[j] {
      UptoOnce(n, s[i]);
      assert s[..j] + s[j..] == s;
    }
  }

  lemma {:induction false} UptoOnce(n: nat, k: nat)
    ensures multiset(Upto(n))[k] == if k < n then 1 else 0
  {
    if n > 0 {
      assert Upto(n) == Upto(n - 1) + [n - 1];
      UptoOnce(n - 1, k);
    }
  }

  /** The elements at the given positions. */
  function Select<T>(items: seq<T>, at: seq<nat>): (s: seq<T>)
    requires forall i :: 0 <= i < |at| ==> at[i] < |items|
    ensures |s| == |at|
  {
    seq(|at|, i requires 0 <= i < |at| => items[at[i]])
  }

  function Without<T>(q: seq<T>, j: nat): (s: seq<T>)
    requires j < |q|
    ensures |s| == |q| - 1
  {
    q[..j] + q[j + 1..]
  }

  lemma TakenOut<T>(q: seq<T>, j: nat)
    requires j < |q|
    ensures multiset(q) == multiset(Without(q, j)) + multiset{q[j]}
  {
    assert q == q[..j] + [q[j]] + q[j + 1..];
  }

  lemma SelectTakenOut<T>(items: seq<T>, q: seq<nat>, j: nat)
    requires j < |q|
    requires forall i :: 0 <= i < |q| ==> q[i] < |items|
    ensures forall i :: 0 <= i < |q| - 1 ==> Without(q, j)[i] < |items|
    ensures multiset(Select(items, q)) == multiset(Select(items, Without(q, j))) + multiset{items[q[j]]}
  {
    assert Without(Select(items, q), j) == Select(items, Without(q, j));
    TakenOut(Select(items, q), j);
  }

  lemma BothTakenOut<T>(p: seq<T>, i: nat, q: seq<T>, j: nat)
    requires i < |p| && j < |q| && p[i] == q[j] && Permutation(p, q)
    ensures Permutation(Without(p, i), Without(q, j))
  {
    TakenOut(p, i);
    TakenOut(q, j);
    assert multiset(Without(p, i)) == multiset(p) - multiset{p[i]};
    assert multiset(Without(q, j)) == multiset(q) - multiset{q[j]};
  }

  /** Selecting by positions in another order permutes the selection. */
  lemma {:induction false} SelectPermutes<T>(items: seq<T>, p: seq<nat>, q: seq<nat>)
    requires Permutation(p, q)
    requires forall i :: 0 <= i < |p| ==> p[i] < |items|
    requires forall i :: 0 <= i < |q| ==> q[i] < |items|
    ensures Permutation(Select(items, p), Select(items, q))
    decreases |p|
  {
    assert |p| == |multiset(p)| == |multiset(q)| == |q|;
    if p != [] {
      hide Select, Without;
      assert p[0] in multiset(q);
      var j :| 0 <= j < |q| && q[j] == p[0];
      BothTakenOut(p, 0, q, j);
      SelectTakenOut(items, p, 0);
      SelectTakenOut(items, q, j);
      SelectPermutes(items, Without(p, 0), Without(q, j));
    }
  }

  /** Selecting by a shuffled list of all positions permutes the items. */
  lemma ShuffledSelection<T>(items: seq<T>, at: seq<nat>)
    requires Permutation(at, Upto(|items|))
    ensures forall i :: 0 <= i < |at| ==> at[i] < |items|
    ensures Permutation(Select(items, at), items)
  {
    EachOnce(at, |items|);
    SelectPermutes(items, at, Upto(|items|));
    assert Select(items, Upto(|items|)) == items;
  }
}
