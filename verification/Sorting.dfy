/** The contract of std::sort and std::stable_sort on a vector, realised by insertion. */
module Sorting {

  /** `perm` lists distinct indices in order of their keys; equal keys keep their order. */
  ghost predicate Ordering(keys: seq<int>, perm: seq<nat>) {
    && (forall i :: 0 <= i < |perm| ==> perm[i] < |keys|)
    && (forall i, j :: 0 <= i < j < |perm| ==>
          keys[perm[i]] < keys[perm[j]] || (keys[perm[i]] == keys[perm[j]] && perm[i] < perm[j]))
  }

  /** `r` lists the elements of `xs`, taking the one at index `perm[i]` as its i-th. */
  ghost predicate Rearranges<T>(xs: seq<T>, r: seq<T>, perm: seq<nat>) {
    && |r| == |perm| == |xs|
    && (forall i :: 0 <= i < |r| ==> perm[i] < |xs| && r[i] == xs[perm[i]])
    && multiset(r) == multiset(xs)
  }

  function InsertAt<T>(s: seq<T>, k: nat, x: T): (r: seq<T>)
    requires k <= |s|
    ensures |r| == |s| + 1
    ensures forall i :: 0 <= i < |r| ==> r[i] == if i < k then s[i] else if i == k then x else s[i - 1]
    ensures multiset(r) == multiset(s) + multiset{x}
  {
    assert s == s[..k] + s[k..];
    s[..k] + [x] + s[k..]
  }

  /** Inserting the largest index before the keys above its own keeps the order. */
  lemma InsertOrdering(keys: seq<int>, perm: seq<nat>, k: nat, n: nat)
    requires Ordering(keys, perm) && k <= |perm| && n < |keys|
    requires forall m :: 0 <= m < |perm| ==> perm[m] < n
    requires forall m :: 0 <= m < |perm| ==> (keys[n] < keys[perm[m]] <==> k <= m)
    ensures Ordering(keys, InsertAt(perm, k, n))
  {
  }

  lemma InsertRearranges<T>(xs: seq<T>, x: T, r: seq<T>, perm: seq<nat>, k: nat)
    requires Rearranges(xs, r, perm) && k <= |r|
    ensures Rearranges(xs + [x], InsertAt(r, k, x), InsertAt(perm, k, |xs|))
  {
    var r', perm' := InsertAt(r, k, x), InsertAt(perm, k, |xs|);
    forall i | 0 <= i < |r'| ensures perm'[i] < |xs| + 1 && r'[i] == (xs + [x])[perm'[i]] {
      if i > k {
        assert r'[i] == r[i - 1] == xs[perm[i - 1]];
      }
    }
  }

  /** Where index `n` belongs among the sorted indices below it. */
  method Position(keys: seq<int>, perm: seq<nat>, n: nat) returns (k: nat)
    requires Ordering(keys, perm) && n < |keys| && |perm| == n
    ensures k <= n && forall m :: 0 <= m < n ==> (keys[n] < keys[perm[m]] <==> k <= m)
  {
    k := n;
    while k > 0 && keys[n] < keys[perm[k - 1]]
      invariant k <= n
      invariant forall m :: k <= m < n ==> keys[n] < keys[perm[m]]
    {
      k := k - 1;
    }
  }

  /** Insert element `n` into the sorted elements below it. */
  method InsertNext<T>(xs: seq<T>, keys: seq<int>, n: nat, r: seq<T>, perm: seq<nat>)
    returns (r': seq<T>, perm': seq<nat>)
    requires |keys| == |xs| && n < |xs|
    requires Ordering(keys, perm) && Rearranges(xs[..n], r, perm)
    ensures Ordering(keys, perm') && Rearranges(xs[..n + 1], r', perm')
  {
    var k := Position(keys, perm, n);
    InsertRearranges(xs[..n], xs[n], r, perm, k);
    InsertOrdering(keys, perm, k, n);
    assert xs[..n] + [xs[n]] == xs[..n + 1];
    r', perm' := InsertAt(r, k, xs[n]), InsertAt(perm, k, n);
  }

  /** Sort `xs` by `keys`; also return where each element came from. */
  method StableSort<T>(xs: seq<T>, keys: seq<int>) returns (r: seq<T>, perm: seq<nat>)
    requires |keys| == |xs|
    ensures Ordering(keys, perm)
    ensures Rearranges(xs, r, perm)
  {
    r, perm := [], [];
    for n := 0 to |xs|
      invariant Ordering(keys, perm)
      invariant Rearranges(xs[..n], r, perm)
    {
      r, perm := InsertNext(xs, keys, n, r, perm);
    }
    assert xs[..|xs|] == xs;
  }

  // ---------------------------------------------------------------------------------------
  // An ordering of all elements leaves none out
  // ---------------------------------------------------------------------------------------

  ghost function Values(perm: seq<nat>): set<nat> {
    set i | 0 <= i < |perm| :: perm[i]
  }

  ghost function Indices(n: nat): (r: set<nat>)
    ensures |r| == n && forall k: nat :: k in r <==> k < n
  {
    if n == 0 then {} else Indices(n - 1) + {n - 1}
  }

  lemma {:induction false} ValuesSize(perm: seq<nat>)
    requires forall i, j :: 0 <= i < j < |perm| ==> perm[i] != perm[j]
    ensures |Values(perm)| == |perm|
  {
    if perm != [] {
      var n := |perm| - 1;
      ValuesSize(perm[..n]);
      assert Values(perm) == Values(perm[..n]) + {perm[n]};
    }
  }

  lemma SameSizeSame(a: set<nat>, b: set<nat>)
    requires a <= b && |a| == |b|
    ensures a == b
  {
    assert b == a + (b - a);
    assert |b - a| == 0;
  }

  lemma OrderingHits(keys: seq<int>, perm: seq<nat>, k: nat)
    requires Ordering(keys, perm) && |perm| == |keys| && k < |keys|
    ensures exists i :: 0 <= i < |perm| && perm[i] == k
  {
    ValuesSize(perm);
    forall v | v in Values(perm) ensures v in Indices(|keys|) {
    }
    SameSizeSame(Values(perm), Indices(|keys|));
    assert k in Indices(|keys|);
  }
}
