/** Stable sorting of indices by integer keys: the behaviour of NumPy's
    `argsort(kind='stable')` and of Python's `sorted` that the persistence
    code relies on. */
module Sorting {

  /** `i` precedes `j` in a stable ascending sort by `keys`: either its key is
      smaller, or the keys tie and `i` comes first in the input. */
  predicate StablyBefore(keys: seq<int>, i: nat, j: nat)
    requires i < |keys| && j < |keys|
  {
    keys[i] < keys[j] || (keys[i] == keys[j] && i < j)
  }

  /** Every index in `ord` is an index of `keys`, listed in stable order. */
  predicate IsStablyOrdered(keys: seq<int>, ord: seq<nat>)
  {
    (forall p :: 0 <= p < |ord| ==> ord[p] < |keys|) &&
    (forall p, q :: 0 <= p < q < |ord| ==> StablyBefore(keys, ord[p], ord[q]))
  }

  /** `ord` lists every index of `keys` exactly once, in stable ascending order. */
  predicate IsStableArgsort(keys: seq<int>, ord: seq<nat>)
  {
    |ord| == |keys| && IsStablyOrdered(keys, ord) &&
    (forall i :: 0 <= i < |keys| ==> i in ord)
  }

  /** Inserts index `j`, larger than every index in `s`, behind all indices whose key
      does not exceed `keys[j]`. */
  function Insert(keys: seq<int>, s: seq<nat>, j: nat): (r: seq<nat>)
    requires j < |keys| && IsStablyOrdered(keys, s)
    requires forall p :: 0 <= p < |s| ==> s[p] < j
    ensures |r| == |s| + 1 && IsStablyOrdered(keys, r)
    ensures forall x {:trigger x in r} :: x in r <==> x in s || x == j
    ensures forall p :: 0 <= p < |r| ==> r[p] <= j
  {
    if |s| == 0 then [j]
    else if keys[s[|s| - 1]] <= keys[j] then s + [j]
    else
      var r := Insert(keys, s[..|s| - 1], j);
      InsertedBefore(keys, s, j, r);
      r + [s[|s| - 1]]
  }

  lemma InsertedBefore(keys: seq<int>, s: seq<nat>, j: nat, r: seq<nat>)
    requires j < |keys| && IsStablyOrdered(keys, s) && |s| > 0
    requires keys[j] < keys[s[|s| - 1]]
    requires forall x :: x in r ==> x in s[..|s| - 1] || x == j
    requires forall p :: 0 <= p < |r| ==> r[p] < |keys|
    ensures forall p :: 0 <= p < |r| ==> StablyBefore(keys, r[p], s[|s| - 1])
  {
    forall p | 0 <= p < |r|
      ensures StablyBefore(keys, r[p], s[|s| - 1])
    {
      assert r[p] in r;
      if r[p] != j {
        var q :| 0 <= q < |s| - 1 && s[..|s| - 1][q] == r[p];
        assert s[q] == r[p];
      }
    }
  }

  /** The stable order of the indices `0..k-1`, built by insertion. */
  function InsertAll(keys: seq<int>, k: nat): (r: seq<nat>)
    requires k <= |keys|
    ensures |r| == k && IsStablyOrdered(keys, r)
    ensures forall x: nat {:trigger x in r} :: x in r <==> x < k
    ensures forall p :: 0 <= p < k ==> r[p] < k
  {
    if k == 0 then []
    else
      var s := InsertAll(keys, k - 1);
      assert forall p :: 0 <= p < |s| ==> s[p] < k - 1 by {
        forall p | 0 <= p < |s| ensures s[p] < k - 1 { assert s[p] in s; }
      }
      Insert(keys, s, k - 1)
  }

  /** `np.argsort(keys, kind='stable')`. */
  function StableArgsort(keys: seq<int>): (ord: seq<nat>)
    ensures IsStableArgsort(keys, ord)
  {
    InsertAll(keys, |keys|)
  }

  /** The elements of `xs` in the order the indices `ord` give. */
  function Permute<T>(xs: seq<T>, ord: seq<nat>): (r: seq<T>)
    requires forall p :: 0 <= p < |ord| ==> ord[p] < |xs|
    ensures |r| == |ord| && forall p :: 0 <= p < |ord| ==> r[p] == xs[ord[p]]
  {
    seq(|ord|, p requires 0 <= p < |ord| => xs[ord[p]])
  }

  lemma PermuteAppend<T>(xs: seq<T>, a: seq<nat>, b: seq<nat>)
    requires forall p :: 0 <= p < |a| ==> a[p] < |xs|
    requires forall p :: 0 <= p < |b| ==> b[p] < |xs|
    ensures Permute(xs, a + b) == Permute(xs, a) + Permute(xs, b)
  {
  }

  lemma {:induction false} InsertPermutes<T>(xs: seq<T>, keys: seq<int>, s: seq<nat>, j: nat)
    requires |xs| == |keys| && j < |keys| && IsStablyOrdered(keys, s)
    requires forall p :: 0 <= p < |s| ==> s[p] < j
    ensures multiset(Permute(xs, Insert(keys, s, j))) == multiset(Permute(xs, s)) + multiset{xs[j]}
  {
    if |s| == 0 {
      assert Permute(xs, [j]) == [xs[j]];
    } else if keys[s[|s| - 1]] <= keys[j] {
      PermuteAppend(xs, s, [j]);
      assert Permute(xs, [j]) == [xs[j]];
    } else {
      var init, last := s[..|s| - 1], s[|s| - 1];
      assert s == init + [last];
      var r := Insert(keys, init, j);
      assert Insert(keys, s, j) == r + [last];
      InsertPermutes(xs, keys, init, j);
      PermuteAppend(xs, r, [last]);
      PermuteAppend(xs, init, [last]);
      assert Permute(xs, [last]) == [xs[last]];
    }
  }

  lemma {:induction false} InsertAllPermutes<T>(xs: seq<T>, keys: seq<int>, k: nat)
    requires |xs| == |keys| && k <= |keys|
    ensures multiset(Permute(xs, InsertAll(keys, k))) == multiset(xs[..k])
  {
    if k > 0 {
      InsertAllPermutes(xs, keys, k - 1);
      InsertAllStepPermutes(xs, keys, k);
      PrefixMultiset(xs, k);
    }
  }

  lemma InsertAllStepPermutes<T>(xs: seq<T>, keys: seq<int>, k: nat)
    requires |xs| == |keys| && 0 < k <= |keys|
    ensures multiset(Permute(xs, InsertAll(keys, k))) == multiset(Permute(xs, InsertAll(keys, k - 1))) + multiset{xs[k - 1]}
  {
    var s := InsertAll(keys, k - 1);
    assert InsertAll(keys, k) == Insert(keys, s, k - 1);
    InsertPermutes(xs, keys, s, k - 1);
  }

  lemma PrefixMultiset<T>(xs: seq<T>, k: nat)
    requires 0 < k <= |xs|
    ensures multiset(xs[..k]) == multiset(xs[..k - 1]) + multiset{xs[k - 1]}
  {
    assert xs[..k] == xs[..k - 1] + [xs[k - 1]];
  }

  /** Rearranging a sequence by its stable argsort of any keys of the same length
      keeps every element, with multiplicity. */
  lemma StableArgsortPermutes<T>(xs: seq<T>, keys: seq<int>)
    requires |xs| == |keys|
    ensures multiset(Permute(xs, StableArgsort(keys))) == multiset(xs)
  {
    InsertAllPermutes(xs, keys, |keys|);
    assert xs[..|keys|] == xs;
  }

  /** Two stable argsorts of the same keys agree: the order is determined. */
  lemma {:induction false} StableArgsortUnique(keys: seq<int>, a: seq<nat>, b: seq<nat>)
    requires IsStableArgsort(keys, a) && IsStableArgsort(keys, b)
    ensures a == b
  {
    forall p | 0 <= p < |a|
      ensures a[p] == b[p]
    {
      RankIsCount(keys, a, p);
      RankIsCount(keys, b, p);
      assert a[p] in b;
      var i :| 0 <= i < |b| && b[i] == a[p];
      RankIsCount(keys, b, i);
      assert i == p;
    }
  }

  /** Position `p` of a stable argsort holds the index that exactly `p` indices
      precede. */
  lemma {:induction false} RankIsCount(keys: seq<int>, ord: seq<nat>, p: nat)
    requires IsStableArgsort(keys, ord) && p < |ord|
    ensures |set i | 0 <= i < |keys| && StablyBefore(keys, i, ord[p])| == p
  {
    var before := set i | 0 <= i < |keys| && StablyBefore(keys, i, ord[p]);
    var prefix := set q | 0 <= q < p :: ord[q];
    forall q | p <= q < |ord|
      ensures !StablyBefore(keys, ord[q], ord[p])
    {
      if q > p {
        assert StablyBefore(keys, ord[p], ord[q]);
      }
    }
    forall i | i in before ensures i in prefix {
      assert i in ord;
      var q :| 0 <= q < |ord| && ord[q] == i;
    }
    forall i | i in prefix ensures i in before {
      var q :| 0 <= q < p && ord[q] == i;
    }
    assert before == prefix;
    forall q, r | 0 <= q < r < |ord| ensures ord[q] != ord[r] {
      assert StablyBefore(keys, ord[q], ord[r]);
    }
    InjectiveImage(ord, p);
  }

  /** The first `p` entries of an argsort are distinct, so they form a set of size `p`. */
  lemma {:induction false} InjectiveImage(ord: seq<nat>, p: nat)
    requires p <= |ord|
    requires forall q, r :: 0 <= q < r < |ord| ==> ord[q] != ord[r]
    ensures |set q | 0 <= q < p :: ord[q]| == p
  {
    if p > 0 {
      InjectiveImage(ord, p - 1);
      var s := set q | 0 <= q < p - 1 :: ord[q];
      assert (set q | 0 <= q < p :: ord[q]) == s + {ord[p - 1]};
      assert ord[p - 1] !in s;
    }
  }

  /** The keys with every sign flipped, the device NumPy callers use to sort in
      descending order. */
  function Negate(xs: seq<int>): (r: seq<int>)
    ensures |r| == |xs| && forall i :: 0 <= i < |xs| ==> r[i] == -xs[i]
  {
    seq(|xs|, i requires 0 <= i < |xs| => -xs[i])
  }

  /** `sorted(xs, reverse=True)` for integers. */
  function SortDescending(xs: seq<int>): (r: seq<int>)
    ensures multiset(r) == multiset(xs)
    ensures forall p, q :: 0 <= p < q < |r| ==> r[p] >= r[q]
  {
    var ord := StableArgsort(Negate(xs));
    StableArgsortPermutes(xs, Negate(xs));
    Permute(xs, ord)
  }
}
