/** What the one-dimensional sweep of `FunctionPersistence` guarantees: pairs are
    recorded only at interior merge points, one per merge point; a merge point joins
    three components into one; a regular point merges in the direction its neighbours
    dictate; components stay runs of consecutive samples; and the closing pair ends
    every diagram of two or more samples. */
module FunctionPersistenceProperties {
  import opened Sorting
  import opened Filtration
  import opened UnionFind
  import opened PersistenceDiagrams
  import opened FunctionPersistence

  /** Every component is a run of consecutive positions. */
  predicate Contiguous(comp: seq<nat>)
  {
    forall i, j, k :: 0 <= i <= j <= k < |comp| && comp[i] == comp[k] ==> comp[j] == comp[i]
  }

  /** Positions `i <= j <= k` where `i` and `k` lie in the union of the components of
      two adjacent positions: then so does `j`. */
  lemma BetweenAdjacentComponents(comp: seq<nat>, a: nat, b: nat, i: nat, j: nat, k: nat)
    requires Contiguous(comp) && a < |comp| && b < |comp| && (a + 1 == b || b + 1 == a)
    requires i <= j <= k < |comp|
    requires comp[i] == comp[a] || comp[i] == comp[b]
    requires comp[k] == comp[a] || comp[k] == comp[b]
    ensures comp[j] == comp[a] || comp[j] == comp[b]
  {
    if comp[i] == comp[k] {
    } else if comp[i] == comp[a] {
      if j <= a {
        assert comp[i] == comp[a];
      } else {
        assert comp[b] == comp[k];
      }
    } else {
      if j <= b {
        assert comp[i] == comp[b];
      } else {
        assert comp[a] == comp[k];
      }
    }
  }

  /** Merging the components of two adjacent positions keeps every component a run. */
  lemma MergeAdjacentKeepsContiguous(comp: seq<nat>, a: nat, b: nat)
    requires IsLabelling(comp) && Contiguous(comp) && a < |comp| && b < |comp| && (a + 1 == b || b + 1 == a)
    ensures Contiguous(MergeLabels(comp, a, b))
  {
    var c := MergeLabels(comp, a, b);
    assert c == Relabel(comp, comp[a], comp[b]);
    forall i, j, k | 0 <= i <= j <= k < |c| && c[i] == c[k]
      ensures c[j] == c[i]
    {
      var inI := comp[i] == comp[a] || comp[i] == comp[b];
      var inK := comp[k] == comp[a] || comp[k] == comp[b];
      if inI && inK {
        BetweenAdjacentComponents(comp, a, b, i, j, k);
      } else if !inI && !inK {
        assert comp[i] == comp[k];
      }
    }
  }

  /** Merging the component of `a` into that of `b` is the same when `a` is replaced by
      any position sharing its label. */
  lemma MergeBySameLabel(comp: seq<nat>, a: nat, a': nat, b: nat)
    requires IsLabelling(comp) && a < |comp| && a' < |comp| && b < |comp| && comp[a] == comp[a']
    ensures MergeLabels(comp, a, b) == MergeLabels(comp, a', b)
  {
  }

  /** A merge point keeps every component a run: after the merge point joins its
      younger neighbour, joining that neighbour to the older one is the same as joining
      the merge point itself, which is adjacent to it. */
  lemma MergePointKeepsContiguous(order: Order, values: seq<int>, s: Sweep, index: nat)
    requires IsState(|values|, s) && Contiguous(s.comp) && 0 < index < |values| - 1
    ensures Contiguous(MergePointStep(order, values, s, index).comp)
  {
    var young := YoungerNeighbour(order, values, s.comp, index);
    var older := OtherNeighbour(index, young);
    var c1 := MergeLabels(s.comp, index, young);
    MergeAdjacentKeepsContiguous(s.comp, index, young);
    MergeBySameLabel(c1, young, index, older);
    MergeAdjacentKeepsContiguous(c1, index, older);
  }

  /** Any sample keeps every component a run. */
  lemma SampleStepKeepsContiguous(order: Order, values: seq<int>, s: Sweep, index: nat)
    requires IsState(|values|, s) && Contiguous(s.comp) && index < |values|
    ensures Contiguous(SampleStep(order, values, s, index).comp)
  {
    if IsSeed(order, values, index) {
    } else if IsMergePoint(order, values, index) {
      MergePointKeepsContiguous(order, values, s, index);
    } else {
      LeftMergeKeepsContiguous(order, values, s.comp, index);
      RightMergeKeepsContiguous(order, values, LeftMerge(order, values, s.comp, index), index);
    }
  }

  /** The left merge of a regular point joins adjacent positions, so keeps every
      component a run. */
  lemma LeftMergeKeepsContiguous(order: Order, values: seq<int>, comp: seq<nat>, index: nat)
    requires IsLabelling(comp) && |comp| == |values| && Contiguous(comp) && index < |values|
    ensures Contiguous(LeftMerge(order, values, comp, index))
  {
    if index != 0 {
      MergeAdjacentKeepsContiguous(comp, index - 1, index);
      MergeAdjacentKeepsContiguous(comp, index, index - 1);
    }
  }

  /** The right merge of a regular point joins adjacent positions, so keeps every
      component a run. */
  lemma RightMergeKeepsContiguous(order: Order, values: seq<int>, comp: seq<nat>, index: nat)
    requires IsLabelling(comp) && |comp| == |values| && Contiguous(comp) && index < |values|
    ensures Contiguous(RightMerge(order, values, comp, index))
  {
    if index != |values| - 1 {
      MergeAdjacentKeepsContiguous(comp, index + 1, index);
      MergeAdjacentKeepsContiguous(comp, index, index + 1);
    }
  }

  /** Throughout the sweep, in any visiting order, every component is a run of
      consecutive samples. */
  lemma {:induction false} SweepIsContiguous(order: Order, values: seq<int>, ord: seq<nat>, k: nat)
    requires NamesSamples(values, ord) && k <= |ord|
    ensures Contiguous(SweepPrefix(order, values, ord, k).comp)
  {
    if k == 0 {
      IdentityIsContiguous(|values|);
    } else {
      SweepIsContiguous(order, values, ord, k - 1);
      var s := SweepPrefix(order, values, ord, k - 1);
      assert SweepPrefix(order, values, ord, k) == SampleStep(order, values, s, ord[k - 1]);
      SampleStepKeepsContiguous(order, values, s, ord[k - 1]);
    }
  }

  /** Before any merge every sample is a component of its own. */
  lemma IdentityIsContiguous(n: nat)
    ensures Contiguous(Identity(n))
  {
    var c := Identity(n);
    assert forall i :: 0 <= i < |c| ==> c[i] == i;
  }

  /** The number of merge points among the indices `ord`. */
  function MergePoints(order: Order, values: seq<int>, ord: seq<nat>): nat
    requires NamesSamples(values, ord)
  {
    if ord == [] then 0
    else MergePoints(order, values, ord[..|ord| - 1]) + if IsMergePoint(order, values, ord[|ord| - 1]) then 1 else 0
  }

  /** The sweep records exactly one pair per merge point visited, and only there:
      every recorded pair ends in an interior merge point, so neither end of the series
      ever records a pair in the loop. */
  lemma {:induction false} PairsAtMergePoints(order: Order, values: seq<int>, ord: seq<nat>, k: nat)
    requires NamesSamples(values, ord) && k <= |ord|
    ensures var pairs := SweepPrefix(order, values, ord, k).pairs;
            |pairs| == MergePoints(order, values, ord[..k]) &&
            forall j :: 0 <= j < |pairs| ==>
              0 < pairs[j].1 < |values| - 1 && IsMergePoint(order, values, pairs[j].1)
  {
    if k > 0 {
      PairsAtMergePoints(order, values, ord, k - 1);
      assert ord[..k][..k - 1] == ord[..k - 1];
      var s := SweepPrefix(order, values, ord, k - 1);
      var index := ord[k - 1];
      if !IsSeed(order, values, index) && IsMergePoint(order, values, index) {
        assert SweepPrefix(order, values, ord, k).pairs == s.pairs + [(s.comp[YoungerNeighbour(order, values, s.comp, index)], index)];
      }
    }
  }

  /** At a merge point exactly one pair is recorded: the root of the younger
      neighbour with the merge point, where the right neighbour is the younger exactly
      when the left neighbour's root strictly precedes the right neighbour's root. The
      three components of the merge point and its neighbours become one, which keeps
      the older neighbour's label whenever the merge point was not already in it, and
      every other component is untouched. */
  lemma MergePointJoinsThree(order: Order, values: seq<int>, s: Sweep, index: nat)
    requires IsState(|values|, s) && index < |values| && IsMergePoint(order, values, index)
    ensures 0 < index < |values| - 1
    ensures var t, m := SampleStep(order, values, s, index), |s.pairs|;
            var leftOlder := Precedes(order, values[s.comp[index - 1]], values[s.comp[index + 1]]);
            |t.pairs| == m + 1 && t.pairs[..m] == s.pairs && t.pairs[m].1 == index &&
            (leftOlder ==> t.pairs[m].0 == s.comp[index + 1]) &&
            (!leftOlder ==> t.pairs[m].0 == s.comp[index - 1]) &&
            t.comp[index - 1] == t.comp[index] && t.comp[index + 1] == t.comp[index] &&
            (leftOlder && s.comp[index] != s.comp[index - 1] ==> t.comp[index] == s.comp[index - 1]) &&
            (!leftOlder && s.comp[index] != s.comp[index + 1] ==> t.comp[index] == s.comp[index + 1])
    ensures var t := SampleStep(order, values, s, index);
            forall i :: 0 <= i < |values| ==>
              if s.comp[i] == s.comp[index - 1] || s.comp[i] == s.comp[index] || s.comp[i] == s.comp[index + 1]
              then t.comp[i] == t.comp[index] else t.comp[i] == s.comp[i]
  {
    assert !IsSeed(order, values, index);
    var young := YoungerNeighbour(order, values, s.comp, index);
    var older := OtherNeighbour(index, young);
    var c1 := MergeLabels(s.comp, index, young);
    var c2 := MergeLabels(c1, young, older);
    assert c1 == Relabel(s.comp, s.comp[index], s.comp[young]);
    assert c2 == Relabel(c1, c1[young], c1[older]);
    assert SampleStep(order, values, s, index).comp == c2;
  }

  /** Sample `x` is a component of its own: labelled by itself, and the only sample
      with that label. */
  predicate Singleton(comp: seq<nat>, x: nat)
  {
    x < |comp| && comp[x] == x && forall j :: 0 <= j < |comp| && j != x ==> comp[j] != x
  }

  /** A merge between two samples other than `x` leaves the singleton `x` alone. */
  lemma MergeKeepsSingleton(comp: seq<nat>, a: nat, b: nat, x: nat)
    requires IsLabelling(comp) && a < |comp| && b < |comp| && a != x && b != x && Singleton(comp, x)
    ensures Singleton(MergeLabels(comp, a, b), x)
  {
    assert MergeLabels(comp, a, b) == Relabel(comp, comp[a], comp[b]);
  }

  /** A merge point and a neighbouring sample are never both merge points: each
      would need the other strictly earlier. */
  lemma AdjacentMergePoints(order: Order, values: seq<int>, a: nat, b: nat)
    requires b < |values| && a + 1 == b
    ensures !(IsMergePoint(order, values, a) && IsMergePoint(order, values, b))
  {
  }

  /** Visiting any sample other than a merge point `x` leaves `x` a singleton: the
      only merges that could reach `x` come from a neighbour, and `x` is strictly
      later than both of its neighbours. */
  lemma StepKeepsMergePointSingleton(order: Order, values: seq<int>, s: Sweep, index: nat, x: nat)
    requires IsState(|values|, s) && index < |values| && x < |values| && index != x
    requires IsMergePoint(order, values, x) && Singleton(s.comp, x)
    ensures Singleton(SampleStep(order, values, s, index).comp, x)
  {
    var n := |values|;
    if IsSeed(order, values, index) {
    } else if IsMergePoint(order, values, index) {
      if index + 1 == x {
        AdjacentMergePoints(order, values, index, x);
      } else if x + 1 == index {
        AdjacentMergePoints(order, values, x, index);
      } else {
        var young := YoungerNeighbour(order, values, s.comp, index);
        var older := OtherNeighbour(index, young);
        MergeKeepsSingleton(s.comp, index, young, x);
        MergeKeepsSingleton(MergeLabels(s.comp, index, young), young, older, x);
      }
    } else {
      var c1 := LeftMerge(order, values, s.comp, index);
      if index > 0 {
        if index - 1 == x {
          assert Precedes(order, values[index], values[x]);
          assert c1 == s.comp;
        } else {
          MergeKeepsSingleton(s.comp, index - 1, index, x);
          MergeKeepsSingleton(s.comp, index, index - 1, x);
        }
      }
      if index < n - 1 {
        if index + 1 == x {
          assert Precedes(order, values[index], values[x]);
          assert RightMerge(order, values, c1, index) == c1;
        } else {
          MergeKeepsSingleton(c1, index + 1, index, x);
          MergeKeepsSingleton(c1, index, index + 1, x);
        }
      }
    }
  }

  /** Until the sweep visits a merge point, it stays a component of its own, whatever
      the visiting order. */
  lemma {:induction false} UnvisitedMergePointIsSingleton(order: Order, values: seq<int>, ord: seq<nat>, k: nat, x: nat)
    requires NamesSamples(values, ord) && k <= |ord| && x < |values|
    requires IsMergePoint(order, values, x) && x !in ord[..k]
    ensures Singleton(SweepPrefix(order, values, ord, k).comp, x)
  {
    if k > 0 {
      assert ord[..k - 1] == ord[..k][..k - 1];
      assert ord[k - 1] in ord[..k];
      UnvisitedMergePointIsSingleton(order, values, ord, k - 1, x);
      StepKeepsMergePointSingleton(order, values, SweepPrefix(order, values, ord, k - 1), ord[k - 1], x);
    }
  }

  /** The filtration order visits every sample only once. */
  lemma FiltrationOrderDistinct(order: Order, values: seq<int>, k: nat)
    requires k < |values|
    ensures var ord := FiltrationOrder(order, values); ord[k] !in ord[..k]
  {
    var ord := FiltrationOrder(order, values);
    forall p | 0 <= p < k
      ensures ord[..k][p] != ord[k]
    {
      assert StablyBefore(SortKeys(order, values), ord[p], ord[k]);
    }
  }

  /** When the sweep in filtration order reaches a merge point, the point is still a
      component of its own. It records the younger neighbour's root with the point,
      and afterwards the point and both neighbours share the older neighbour's label:
      the left one's exactly when its root strictly precedes the right one's. */
  lemma SweepMergePoint(order: Order, values: seq<int>, k: nat)
    requires k < |values|
    requires IsMergePoint(order, values, FiltrationOrder(order, values)[k])
    ensures var ord := FiltrationOrder(order, values);
            var index, s := ord[k], SweepPrefix(order, values, ord, k).comp;
            0 < index < |values| - 1 && s[index] == index &&
            forall j :: 0 <= j < |values| && j != index ==> s[j] != index
    ensures var ord := FiltrationOrder(order, values);
            var index, s := ord[k], SweepPrefix(order, values, ord, k);
            var t := SweepPrefix(order, values, ord, k + 1);
            var leftOlder := Precedes(order, values[s.comp[index - 1]], values[s.comp[index + 1]]);
            var older := if leftOlder then index - 1 else index + 1;
            var young := if leftOlder then index + 1 else index - 1;
            t.pairs == s.pairs + [(s.comp[young], index)] &&
            t.comp[index - 1] == s.comp[older] && t.comp[index] == s.comp[older] &&
            t.comp[index + 1] == s.comp[older]
  {
    var ord := FiltrationOrder(order, values);
    FiltrationOrderVisits(order, values);
    FiltrationOrderDistinct(order, values, k);
    var index := ord[k];
    UnvisitedMergePointIsSingleton(order, values, ord, k, index);
    var s := SweepPrefix(order, values, ord, k);
    MergePointJoinsThree(order, values, s, index);
    var t := SweepPrefix(order, values, ord, k + 1);
    assert t == SampleStep(order, values, s, index);
    assert s.comp[index - 1] != index && s.comp[index + 1] != index;
    var m := |s.pairs|;
    assert t.pairs == t.pairs[..m] + [t.pairs[m]];
  }

  /** The left merge of a regular point. Towards a strictly earlier left neighbour the
      point's component takes the neighbour's label; towards an equal one the
      neighbour's component takes the point's label; at index 0, or when the left
      neighbour comes strictly later, nothing changes. */
  lemma LeftMergeDirection(order: Order, values: seq<int>, comp: seq<nat>, index: nat)
    requires IsLabelling(comp) && |comp| == |values| && index < |values|
    ensures var c := LeftMerge(order, values, comp, index);
            ((index == 0 || Precedes(order, values[index], values[index - 1])) ==> c == comp) &&
            forall i :: 0 <= i < |values| && index > 0 ==>
              (Precedes(order, values[index - 1], values[index]) ==>
                 c[i] == if comp[i] == comp[index] then comp[index - 1] else comp[i]) &&
              (values[index - 1] == values[index] ==>
                 c[i] == if comp[i] == comp[index - 1] then comp[index] else comp[i])
  {
    if index > 0 {
      assert MergeLabels(comp, index, index - 1) == Relabel(comp, comp[index], comp[index - 1]);
      assert MergeLabels(comp, index - 1, index) == Relabel(comp, comp[index - 1], comp[index]);
    }
  }

  /** The right merge of a regular point. It happens towards an equal right neighbour,
      where the neighbour's component takes the point's label, and towards a strictly
      earlier right neighbour when the left one is not strictly earlier, where the
      point's component takes the neighbour's label; at the last index, or otherwise,
      nothing changes. */
  lemma RightMergeDirection(order: Order, values: seq<int>, comp: seq<nat>, index: nat)
    requires IsLabelling(comp) && |comp| == |values| && index < |values|
    ensures var c, n := RightMerge(order, values, comp, index), |values|;
            ((index == n - 1 || Precedes(order, values[index], values[index + 1]) ||
              (index > 0 && Precedes(order, values[index - 1], values[index]) && values[index + 1] != values[index])) ==> c == comp) &&
            forall i :: 0 <= i < n && index < n - 1 ==>
              (Precedes(order, values[index + 1], values[index]) && (index == 0 || !Precedes(order, values[index - 1], values[index])) ==>
                 c[i] == if comp[i] == comp[index] then comp[index + 1] else comp[i]) &&
              (values[index + 1] == values[index] ==>
                 c[i] == if comp[i] == comp[index + 1] then comp[index] else comp[i])
  {
    if index < |values| - 1 {
      assert MergeLabels(comp, index, index + 1) == Relabel(comp, comp[index], comp[index + 1]);
      assert MergeLabels(comp, index + 1, index) == Relabel(comp, comp[index + 1], comp[index]);
    }
  }

  /** The closing pair: with two or more samples the pair of the first and the last
      sample in filtration order is among the index pairs, and every other index pair
      ends in a merge point; with fewer samples there are no pairs, so the diagram is
      empty. */
  lemma ClosingPairEndsPairs(order: Order, values: seq<int>)
    ensures |values| >= 2 ==>
              (FiltrationOrder(order, values)[0], FiltrationOrder(order, values)[|values| - 1]) in IndexPairs(order, values)
    ensures forall j :: 0 <= j < |IndexPairs(order, values)| ==>
              IndexPairs(order, values)[j] == (FiltrationOrder(order, values)[0], FiltrationOrder(order, values)[|values| - 1]) ||
              IsMergePoint(order, values, IndexPairs(order, values)[j].1)
    ensures |values| <= 1 ==> IndexPairs(order, values) == [] && Diagram(order, values) == []
  {
    var ord := FiltrationOrder(order, values);
    FiltrationOrderVisits(order, values);
    var loop := SweepPrefix(order, values, ord, |ord|).pairs;
    PairsAtMergePoints(order, values, ord, |ord|);
    var pairs := IndexPairs(order, values);
    assert pairs == ClosingPairs(ord, loop);
    forall j | 0 <= j < |pairs|
      ensures pairs[j] == (ord[0], ord[|values| - 1]) || IsMergePoint(order, values, pairs[j].1)
    {
      if j < |loop| {
        assert pairs[j] == loop[j];
      }
    }
    InteriorPairs(loop, |values|);
    assert |Diagram(order, values)| == |pairs|;
  }

  // ------------------------------------------------------- order duality

  /** Negation turns the neighbour values of a sample into their negations. */
  lemma NeighboursDual(values: seq<int>, index: nat)
    requires index < |values|
    ensures LeftValue(Negate(values), index) == -LeftValue(values, index)
    ensures RightValue(Negate(values), index) == -RightValue(values, index)
    ensures Negate(values)[index] == -values[index]
  {
  }

  /** Negation keeps seeds and merge points when the order is flipped. */
  lemma KindDual(values: seq<int>, index: nat)
    requires index < |values|
    ensures IsSeed(Superlevel, Negate(values), index) == IsSeed(Sublevel, values, index)
    ensures IsMergePoint(Superlevel, Negate(values), index) == IsMergePoint(Sublevel, values, index)
  {
    NeighboursDual(values, index);
  }

  /** Negation keeps the younger neighbour of a merge point when the order is
      flipped. */
  lemma YoungerDual(values: seq<int>, comp: seq<nat>, index: nat)
    requires |comp| == |values| && IsLabelling(comp) && 0 < index < |values| - 1
    ensures YoungerNeighbour(Superlevel, Negate(values), comp, index) == YoungerNeighbour(Sublevel, values, comp, index)
  {
    var neg := Negate(values);
    assert neg[comp[index - 1]] == -values[comp[index - 1]];
    assert neg[comp[index + 1]] == -values[comp[index + 1]];
  }

  /** Negation keeps both merges of a regular point when the order is flipped. */
  lemma RegularDual(values: seq<int>, comp: seq<nat>, index: nat)
    requires IsLabelling(comp) && |comp| == |values| && index < |values|
    ensures LeftMerge(Superlevel, Negate(values), comp, index) == LeftMerge(Sublevel, values, comp, index)
    ensures RightMerge(Superlevel, Negate(values), comp, index) == RightMerge(Sublevel, values, comp, index)
  {
    NeighboursDual(values, index);
  }

  /** One sample of the superlevel sweep over the negated values is the same step as
      the sublevel sweep over the values: negation swaps `>` for `<`, so every case
      and every merge direction agrees. */
  lemma StepDual(values: seq<int>, s: Sweep, index: nat)
    requires IsState(|values|, s) && index < |values|
    ensures SampleStep(Superlevel, Negate(values), s, index) == SampleStep(Sublevel, values, s, index)
  {
    KindDual(values, index);
    if 0 < index < |values| - 1 {
      YoungerDual(values, s.comp, index);
    }
    RegularDual(values, s.comp, index);
    RegularDual(values, LeftMerge(Sublevel, values, s.comp, index), index);
  }

  /** The superlevel sweep over the negated values builds the same labels and index
      pairs as the sublevel sweep over the values, for any visiting order. */
  lemma {:induction false} PrefixDual(values: seq<int>, ord: seq<nat>, k: nat)
    requires NamesSamples(values, ord) && k <= |ord|
    ensures SweepPrefix(Superlevel, Negate(values), ord, k) == SweepPrefix(Sublevel, values, ord, k)
  {
    if k > 0 {
      PrefixDual(values, ord, k - 1);
      StepDual(values, SweepPrefix(Sublevel, values, ord, k - 1), ord[k - 1]);
    }
  }

  /** The superlevel filtration of the negated values records the same index pairs
      as the sublevel filtration of the values. */
  lemma IndexPairsDual(values: seq<int>)
    ensures IndexPairs(Superlevel, Negate(values)) == IndexPairs(Sublevel, values)
  {
    OrderDuality(values);
    var ord := FiltrationOrder(Sublevel, values);
    FiltrationOrderVisits(Sublevel, values);
    PrefixDual(values, ord, |ord|);
  }

  /** Orienting index pairs by position over the negated values negates every value
      pair. */
  lemma OrientDual(values: seq<int>, pairs: seq<IndexPair>)
    requires forall j :: 0 <= j < |pairs| ==> pairs[j].0 < |values| && pairs[j].1 < |values|
    ensures Orient(Negate(values), pairs) == NegatePairs(Orient(values, pairs))
  {
  }

  /** The superlevel diagram of `-f` is the sublevel diagram of `f` with every value
      negated. */
  lemma SuperlevelOfNegation(values: seq<int>)
    ensures Diagram(Superlevel, Negate(values)) == NegatePairs(Diagram(Sublevel, values))
  {
    IndexPairsDual(values);
    OrientDual(values, IndexPairs(Sublevel, values));
  }

  /** Order duality of the one-dimensional sweep: the superlevel diagram of `-f` is
      the sublevel diagram of `f` with every value negated, and the sublevel diagram
      of `-f` is the superlevel diagram of `f` negated. */
  lemma FunctionDuality(values: seq<int>)
    ensures Diagram(Superlevel, Negate(values)) == NegatePairs(Diagram(Sublevel, values))
    ensures Diagram(Sublevel, Negate(values)) == NegatePairs(Diagram(Superlevel, values))
  {
    SuperlevelOfNegation(values);
    var neg := Negate(values);
    SuperlevelOfNegation(neg);
    NegateTwice(values);
    NegatePairsFlip(Diagram(Superlevel, values), Diagram(Sublevel, neg));
  }

  /** Negating twice gives the values back. */
  lemma NegateTwice(values: seq<int>)
    ensures Negate(Negate(values)) == values
  {
  }

  /** Pair lists that are each other's negations. */
  lemma NegatePairsFlip(a: seq<Pair>, b: seq<Pair>)
    requires a == NegatePairs(b)
    ensures b == NegatePairs(a)
  {
  }

  /** Pairs that all end strictly inside a series of `n` samples need `n >= 3`. */
  lemma InteriorPairs(pairs: seq<IndexPair>, n: int)
    requires forall j :: 0 <= j < |pairs| ==> 0 < pairs[j].1 < n - 1
    ensures n <= 2 ==> pairs == []
  {
    if pairs != [] {
      assert 0 < pairs[0].1 < n - 1;
    }
  }

}
