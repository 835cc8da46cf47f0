/** Feature vectors built from a persistence diagram: the sorted persistence values and
    the stable pairwise signatures of Carrière, Oudot and Ovsjanikov. */
module Vectorisation {
  import opened Sorting
  import opened PersistenceDiagrams

  /** The persistence of a pair: its distance from the diagonal, `abs(x - y)`. */
  function Persistence(x: int, y: int): (p: int)
    ensures p >= 0 && (p == x - y || p == y - x)
    ensures p == 0 <==> x == y
  {
    if x >= y then x - y else y - x
  }

  /** The persistence of every pair, in diagram order. */
  function Persistences(pairs: seq<Pair>): (d: seq<int>)
    ensures |d| == |pairs|
    ensures forall i :: 0 <= i < |pairs| ==> d[i] == Persistence(pairs[i].0, pairs[i].1)
  {
    seq(|pairs|, i requires 0 <= i < |pairs| => Persistence(pairs[i].0, pairs[i].1))
  }

  /** The vector of distances to the diagonal, largest first. */
  function FeaturiseDistances(pairs: seq<Pair>): (r: seq<int>)
    ensures |r| == |pairs|
    ensures multiset(r) == multiset(Persistences(pairs))
    ensures forall p, q :: 0 <= p < q < |r| ==> r[p] >= r[q]
    ensures forall p :: 0 <= p < |r| ==> r[p] >= 0
  {
    var r := SortDescending(Persistences(pairs));
    assert |r| == |multiset(r)|;
    forall p | 0 <= p < |r|
      ensures r[p] >= 0
    {
      assert r[p] in multiset(Persistences(pairs));
    }
    r
  }

  /** The infinity (Chebyshev) distance between the points `(a, b)` and `(x, y)`. */
  function Chebyshev(a: int, b: int, x: int, y: int): (d: int)
    ensures d >= Persistence(a, x) && d >= Persistence(b, y)
    ensures d == Persistence(a, x) || d == Persistence(b, y)
  {
    var u, v := Persistence(a, x), Persistence(b, y);
    if u >= v then u else v
  }

  /** The smallest of three values, as `min(u, v, w)`. */
  function Min3(u: int, v: int, w: int): (m: int)
    ensures m <= u && m <= v && m <= w
    ensures m == u || m == v || m == w
  {
    if u <= v && u <= w then u else if v <= w then v else w
  }

  /** The signature of two points: their Chebyshev distance, capped by the persistence
      of either point. */
  function Signature(p: Pair, q: Pair): (m: int)
    ensures 0 <= m
    ensures m <= Chebyshev(p.0, p.1, q.0, q.1)
    ensures m <= Persistence(p.0, p.1) && m <= Persistence(q.0, q.1)
    ensures m == Chebyshev(p.0, p.1, q.0, q.1) || m == Persistence(p.0, p.1) || m == Persistence(q.0, q.1)
    ensures p == q ==> m == 0
  {
    Min3(Chebyshev(p.0, p.1, q.0, q.1), Persistence(p.0, p.1), Persistence(q.0, q.1))
  }

  /** The values the inner loop emits for point `i`: its signature with each of the
      points `i, i + 1, ..., n - 1`. */
  function Row(pairs: seq<Pair>, i: nat): (row: seq<int>)
    requires i < |pairs|
    ensures |row| == |pairs| - i
  {
    seq(|pairs| - i, j requires 0 <= j < |pairs| - i => Signature(pairs[i], pairs[i + j]))
  }

  /** The values emitted for the first `k` points, row after row. */
  function Rows(pairs: seq<Pair>, k: nat): seq<int>
    requires k <= |pairs|
  {
    if k == 0 then [] else Rows(pairs, k - 1) + Row(pairs, k - 1)
  }

  /** Every value emitted, before sorting. */
  function Signatures(pairs: seq<Pair>): seq<int>
  {
    Rows(pairs, |pairs|)
  }

  /** Where row `i` starts among `n` points: `n + (n - 1) + ... + (n - i + 1)`. */
  function Offset(n: nat, i: nat): nat
    requires i <= n
  {
    if i == 0 then 0 else Offset(n, i - 1) + (n - (i - 1))
  }

  /** Twice the offset of row `i` is `i * (2n - i + 1)`. */
  lemma {:induction false} OffsetClosedForm(n: nat, i: nat)
    requires i <= n
    ensures 2 * Offset(n, i) == i * (2 * n - i + 1)
  {
    if i > 0 {
      OffsetClosedForm(n, i - 1);
      assert (i - 1) * (2 * n - i + 2) == i * (2 * n - i + 2) - (2 * n - i + 2);
      assert i * (2 * n - i + 2) == i * (2 * n - i + 1) + i;
    }
  }

  /** Later rows start later. */
  lemma {:induction false} OffsetGrows(n: nat, i: nat, k: nat)
    requires i <= k <= n
    ensures Offset(n, i) <= Offset(n, k)
  {
    if i < k {
      OffsetGrows(n, i, k - 1);
    }
  }

  /** The first `k` rows hold `Offset(n, k)` values. */
  lemma {:induction false} RowsLength(pairs: seq<Pair>, k: nat)
    requires k <= |pairs|
    ensures |Rows(pairs, k)| == Offset(|pairs|, k)
  {
    if k > 0 {
      RowsLength(pairs, k - 1);
    }
  }

  /** One value per pair of points `i <= j`: `n (n + 1) / 2` in all. */
  lemma SignaturesLength(pairs: seq<Pair>)
    ensures 2 * |Signatures(pairs)| == |pairs| * (|pairs| + 1)
  {
    RowsLength(pairs, |pairs|);
    OffsetClosedForm(|pairs|, |pairs|);
  }

  /** The value for points `i <= j` sits at position `Offset(n, i) + (j - i)`. */
  lemma {:induction false} RowsAt(pairs: seq<Pair>, k: nat, i: nat, j: nat)
    requires i < k <= |pairs| && i <= j < |pairs|
    ensures Offset(|pairs|, i) + (j - i) < |Rows(pairs, k)|
    ensures Rows(pairs, k)[Offset(|pairs|, i) + (j - i)] == Signature(pairs[i], pairs[j])
  {
    var n := |pairs|;
    RowsLength(pairs, k - 1);
    if i < k - 1 {
      RowsAt(pairs, k - 1, i, j);
      assert Rows(pairs, k) == Rows(pairs, k - 1) + Row(pairs, k - 1);
    } else {
      assert Row(pairs, i)[j - i] == Signature(pairs[i], pairs[j]);
    }
  }

  /** Every pair of points `i <= j` contributes its signature, at a position of its
      own. */
  lemma SignaturesAt(pairs: seq<Pair>, i: nat, j: nat)
    requires i <= j < |pairs|
    ensures Offset(|pairs|, i) + (j - i) < |Signatures(pairs)|
    ensures Signatures(pairs)[Offset(|pairs|, i) + (j - i)] == Signature(pairs[i], pairs[j])
  {
    RowsAt(pairs, |pairs|, i, j);
  }

  /** Every emitted value is the signature of some pair of points `i <= j`. */
  lemma {:induction false} RowsAreSignatures(pairs: seq<Pair>, k: nat, v: int)
    requires k <= |pairs| && v in Rows(pairs, k)
    ensures exists i, j :: 0 <= i <= j < |pairs| && i < k && v == Signature(pairs[i], pairs[j])
  {
    if v in Rows(pairs, k - 1) {
      RowsAreSignatures(pairs, k - 1, v);
      var i, j :| 0 <= i <= j < |pairs| && i < k - 1 && v == Signature(pairs[i], pairs[j]);
      assert i < k;
    } else {
      var row := Row(pairs, k - 1);
      var p :| 0 <= p < |row| && row[p] == v;
      assert v == Signature(pairs[k - 1], pairs[k - 1 + p]);
    }
  }

  /** So no emitted value is negative, and each is at most the persistence of both of
      its points. */
  lemma SignaturesBounded(pairs: seq<Pair>, v: int)
    requires v in Signatures(pairs)
    ensures exists i, j :: 0 <= i <= j < |pairs| && v == Signature(pairs[i], pairs[j]) &&
              0 <= v <= Persistence(pairs[i].0, pairs[i].1) && v <= Persistence(pairs[j].0, pairs[j].1)
  {
    RowsAreSignatures(pairs, |pairs|, v);
  }

  /** Each row starts with the signature of a point with itself, which is zero: at least
      one zero per point. */
  lemma {:induction false} RowsZeros(pairs: seq<Pair>, k: nat)
    requires k <= |pairs|
    ensures multiset(Rows(pairs, k))[0] >= k
  {
    if k > 0 {
      RowsZeros(pairs, k - 1);
      RowStartsWithZero(pairs, k - 1);
      ConcatCount(Rows(pairs, k - 1), Row(pairs, k - 1), 0);
    }
  }

  /** Occurrences in a concatenation add up. */
  lemma ConcatCount(a: seq<int>, b: seq<int>, x: int)
    ensures multiset(a + b)[x] == multiset(a)[x] + multiset(b)[x]
  {
    assert multiset(a + b) == multiset(a) + multiset(b);
  }

  /** The signature of point `i` with itself opens row `i`. */
  lemma RowStartsWithZero(pairs: seq<Pair>, i: nat)
    requires i < |pairs|
    ensures multiset(Row(pairs, i))[0] >= 1
  {
    var row := Row(pairs, i);
    assert row[0] == Signature(pairs[i], pairs[i]) == 0;
    assert row[0] in multiset(row);
  }

  /** The pairwise signatures of a diagram, largest first. */
  method FeaturisePairwiseDistances(pairs: seq<Pair>) returns (r: seq<int>)
    ensures r == SortDescending(Signatures(pairs))
    ensures 2 * |r| == |pairs| * (|pairs| + 1)
    ensures multiset(r) == multiset(Signatures(pairs))
    ensures forall p, q :: 0 <= p < q < |r| ==> r[p] >= r[q]
    ensures multiset(r)[0] >= |pairs|
  {
    var distances: seq<int> := [];
    for i := 0 to |pairs|
      invariant distances == Rows(pairs, i)
    {
      var (a, b) := pairs[i];
      var rest := pairs[i..];
      for j := 0 to |rest|
        invariant distances == Rows(pairs, i) + Row(pairs, i)[..j]
      {
        var (x, y) := rest[j];
        var m := Min3(Chebyshev(a, b, x, y), Persistence(a, b), Persistence(x, y));
        assert Row(pairs, i)[j] == Signature(pairs[i], rest[j]) == m;
        assert Row(pairs, i)[..j + 1] == Row(pairs, i)[..j] + [m];
        distances := distances + [m];
      }
      assert Row(pairs, i)[..|rest|] == Row(pairs, i);
    }
    r := SortDescending(distances);
    SignaturesLength(pairs);
    RowsZeros(pairs, |pairs|);
    assert |r| == |multiset(r)| == |multiset(distances)| == |distances|;
  }
}
