/** Zero-dimensional persistence of a one-dimensional function given by its samples
    (`calculate_persistence_diagrams_1d` in `pyper/persistent_homology/functions.py`):
    the merge tree of a sublevel filtration, or the split tree of a superlevel one. */
module FunctionPersistence {
  import opened Wrappers
  import opened Sorting
  import opened Filtration
  import opened UnionFind
  import opened PersistenceDiagrams

  /** A persistence pair as two sample indices. */
  type IndexPair = (nat, nat)

  /** What the sweep has built after a prefix of the samples: the component labels
      and the index pairs recorded so far. */
  datatype Sweep = Sweep(comp: seq<nat>, pairs: seq<IndexPair>)

  /** `s` labels `n` samples and its pairs name samples. */
  predicate IsState(n: nat, s: Sweep)
  {
    |s.comp| == n && IsLabelling(s.comp) &&
    forall j :: 0 <= j < |s.pairs| ==> s.pairs[j].0 < n && s.pairs[j].1 < n
  }

  /** The labels after `merge(a, b)`: the component of `a` takes the label of `b`. */
  function MergeLabels(comp: seq<nat>, a: nat, b: nat): (c: seq<nat>)
    requires IsLabelling(comp) && a < |comp| && b < |comp|
    ensures |c| == |comp| && IsLabelling(c)
    ensures c[a] == comp[b] && c[b] == comp[b]
  {
    RelabelKeepsLabelling(comp, comp[a], comp[b]);
    Relabel(comp, comp[a], comp[b])
  }

  /** The value left of `index`, or the value at `index` when there is none. */
  function LeftValue(values: seq<int>, index: nat): int
    requires index < |values|
  {
    if index > 0 then values[index - 1] else values[index]
  }

  /** The value right of `index`, or the value at `index` when there is none. */
  function RightValue(values: seq<int>, index: nat): int
    requires index < |values|
  {
    if index < |values| - 1 then values[index + 1] else values[index]
  }

  /** Neither value precedes the other: they are equal under the filtration. */
  predicate Incomparable(order: Order, a: int, b: int)
  {
    !Precedes(order, a, b) && !Precedes(order, b, a)
  }

  /** A local seed: both neighbours come later. */
  predicate IsSeed(order: Order, values: seq<int>, index: nat)
    requires index < |values|
  {
    Precedes(order, values[index], LeftValue(values, index)) && Precedes(order, values[index], RightValue(values, index))
  }

  /** A merge point: both neighbours come strictly earlier. */
  predicate IsMergePoint(order: Order, values: seq<int>, index: nat)
    requires index < |values|
  {
    Precedes(order, LeftValue(values, index), values[index]) && Precedes(order, RightValue(values, index), values[index])
  }

  /** At a merge point, the neighbour whose root comes later in the filtration is the
      younger one; when the root of the left neighbour does not strictly precede the
      root of the right one, the left neighbour is the younger. */
  function YoungerNeighbour(order: Order, values: seq<int>, comp: seq<nat>, index: nat): (y: nat)
    requires |comp| == |values| && IsLabelling(comp) && 0 < index < |values| - 1
    ensures y == index - 1 || y == index + 1
  {
    if Precedes(order, values[comp[index - 1]], values[comp[index + 1]]) then index + 1 else index - 1
  }

  /** The neighbour on the other side of `index` from `y`. */
  function OtherNeighbour(index: nat, y: nat): nat
    requires 0 < index
  {
    if y == index + 1 then index - 1 else index + 1
  }

  /** A merge point joins its two neighbours' components: the younger neighbour's root
      is paired with the merge point, the merge point joins the younger neighbour's
      component, and that component joins the older one. */
  function MergePointStep(order: Order, values: seq<int>, s: Sweep, index: nat): (t: Sweep)
    requires IsState(|values|, s) && 0 < index < |values| - 1
    ensures IsState(|values|, t)
  {
    var young := YoungerNeighbour(order, values, s.comp, index);
    var older := OtherNeighbour(index, young);
    Sweep(MergeLabels(MergeLabels(s.comp, index, young), young, older), s.pairs + [(s.comp[young], index)])
  }

  /** The left merge of a regular point: towards a strictly earlier neighbour the
      point joins that neighbour's component; towards an equal one the direction is
      reversed. No merge reaches past index 0. */
  function LeftMerge(order: Order, values: seq<int>, comp: seq<nat>, index: nat): (c: seq<nat>)
    requires IsLabelling(comp) && |comp| == |values| && index < |values|
    ensures |c| == |values| && IsLabelling(c)
  {
    var x, u := values[index], LeftValue(values, index);
    var equal := Incomparable(order, u, x);
    if (Precedes(order, u, x) || equal) && index != 0 then
      if equal then MergeLabels(comp, index - 1, index) else MergeLabels(comp, index, index - 1)
    else comp
  }

  /** The right merge of a regular point, chosen like the left one; a strictly earlier
      right neighbour counts only when the left one is not strictly earlier. No merge
      reaches past the last index. */
  function RightMerge(order: Order, values: seq<int>, comp: seq<nat>, index: nat): (c: seq<nat>)
    requires IsLabelling(comp) && |comp| == |values| && index < |values|
    ensures |c| == |values| && IsLabelling(c)
  {
    var x, u, v := values[index], LeftValue(values, index), RightValue(values, index);
    var equal := Incomparable(order, v, x);
    if ((!Precedes(order, u, x) && Precedes(order, v, x)) || equal) && index != |values| - 1 then
      if equal then MergeLabels(comp, index + 1, index) else MergeLabels(comp, index, index + 1)
    else comp
  }

  /** One sample of the sweep: a seed changes nothing, a merge point records a pair,
      a regular point merges without recording one. */
  function SampleStep(order: Order, values: seq<int>, s: Sweep, index: nat): (t: Sweep)
    requires IsState(|values|, s) && index < |values|
    ensures IsState(|values|, t)
  {
    if IsSeed(order, values, index) then s
    else if IsMergePoint(order, values, index) then
      MergePointStep(order, values, s, index)
    else
      Sweep(RightMerge(order, values, LeftMerge(order, values, s.comp, index), index), s.pairs)
  }

  /** The indices of `ord` all name samples. */
  predicate NamesSamples(values: seq<int>, ord: seq<nat>)
  {
    forall p :: 0 <= p < |ord| ==> ord[p] < |values|
  }

  /** The sweep over the first `k` samples of `ord`. */
  function SweepPrefix(order: Order, values: seq<int>, ord: seq<nat>, k: nat): (s: Sweep)
    requires NamesSamples(values, ord) && k <= |ord|
    ensures IsState(|values|, s)
  {
    if k == 0 then Sweep(Identity(|values|), [])
    else SampleStep(order, values, SweepPrefix(order, values, ord, k - 1), ord[k - 1])
  }

  /** The pair of the first and the last sample in filtration order, added when there
      are at least two samples and that exact pair is not yet recorded. */
  function ClosingPairs(ord: seq<nat>, pairs: seq<IndexPair>): seq<IndexPair>
  {
    if |ord| >= 2 && (ord[0], ord[|ord| - 1]) !in pairs then pairs + [(ord[0], ord[|ord| - 1])] else pairs
  }

  /** The index pairs the function turns into its diagram. */
  function IndexPairs(order: Order, values: seq<int>): (pairs: seq<IndexPair>)
    ensures forall j :: 0 <= j < |pairs| ==> pairs[j].0 < |values| && pairs[j].1 < |values|
  {
    var ord := FiltrationOrder(order, values);
    FiltrationOrderVisits(order, values);
    ClosingPairs(ord, SweepPrefix(order, values, ord, |ord|).pairs)
  }

  /** Each index pair as values, the smaller position first. */
  function Orient(values: seq<int>, pairs: seq<IndexPair>): (d: seq<Pair>)
    requires forall j :: 0 <= j < |pairs| ==> pairs[j].0 < |values| && pairs[j].1 < |values|
    ensures |d| == |pairs|
    ensures forall j :: 0 <= j < |pairs| ==>
              d[j] == if pairs[j].0 > pairs[j].1 then (values[pairs[j].1], values[pairs[j].0])
                                                 else (values[pairs[j].0], values[pairs[j].1])
  {
    if pairs == [] then []
    else
      var (c, d) := pairs[|pairs| - 1];
      Orient(values, pairs[..|pairs| - 1]) + [if c > d then (values[d], values[c]) else (values[c], values[d])]
  }

  /** The diagram the function returns for a valid order name. */
  function Diagram(order: Order, values: seq<int>): seq<Pair>
  {
    Orient(values, IndexPairs(order, values))
  }

  /** Case 2 of the loop, a merge point: looks up both neighbours' roots, records the
      younger one with `index`, and merges all three samples into the older one. */
  method ProcessMergePoint(uf: UnionFind, pairs: seq<IndexPair>, order: Order, values: seq<int>, index: nat, ghost s: Sweep)
    returns (pairs': seq<IndexPair>)
    requires IsState(|values|, s) && 0 < index < |values| - 1
    requires uf.Valid() && |uf.parent| == |values|
    requires LabelsOf(uf.parent, uf.rank, uf.bound) == s.comp && pairs == s.pairs
    modifies uf
    ensures uf.Valid() && |uf.parent| == |values|
    ensures LabelsOf(uf.parent, uf.rank, uf.bound) == MergePointStep(order, values, s, index).comp
    ensures pairs' == MergePointStep(order, values, s, index).pairs
  {
    var young := FindYounger(uf, order, values, index, s.comp);
    pairs' := JoinAtMergePoint(uf, pairs, s.comp, index, young, OtherNeighbour(index, young));
  }

  /** Looks up the roots of both neighbours and returns the younger neighbour. */
  method FindYounger(uf: UnionFind, order: Order, values: seq<int>, index: nat, ghost comp: seq<nat>) returns (young: nat)
    requires 0 < index < |values| - 1 && |comp| == |values| && IsLabelling(comp)
    requires uf.Valid() && |uf.parent| == |values| && LabelsOf(uf.parent, uf.rank, uf.bound) == comp
    modifies uf`parent
    ensures uf.Valid() && |uf.parent| == |values| && LabelsOf(uf.parent, uf.rank, uf.bound) == comp
    ensures young == YoungerNeighbour(order, values, comp, index)
  {
    var leftIsOlder := LeftIsOlder(uf, order, values, index, comp);
    young := if leftIsOlder then index + 1 else index - 1;
  }

  /** Whether the root of the left neighbour strictly precedes the root of the right
      neighbour. */
  method LeftIsOlder(uf: UnionFind, order: Order, values: seq<int>, index: nat, ghost comp: seq<nat>) returns (b: bool)
    requires 0 < index < |values| - 1 && |comp| == |values|
    requires uf.Valid() && |uf.parent| == |values| && LabelsOf(uf.parent, uf.rank, uf.bound) == comp
    modifies uf`parent
    ensures uf.Valid() && |uf.parent| == |values| && LabelsOf(uf.parent, uf.rank, uf.bound) == comp
    ensures b == Precedes(order, values[comp[index - 1]], values[comp[index + 1]])
  {
    ghost var before := uf.parent;
    var l := uf.Find(index - 1);
    assert l == LabelsOf(before, uf.rank, uf.bound)[index - 1];
    ghost var between := uf.parent;
    var r := uf.Find(index + 1);
    assert r == LabelsOf(between, uf.rank, uf.bound)[index + 1];
    b := Precedes(order, values[l], values[r]);
  }

  /** The younger neighbour's root is recorded with the merge point, then the merge
      point joins the younger neighbour, and that joins the older one. */
  method JoinAtMergePoint(uf: UnionFind, pairs: seq<IndexPair>, ghost comp: seq<nat>, index: nat, young: nat, older: nat)
    returns (pairs': seq<IndexPair>)
    requires uf.Valid() && index < |uf.parent| && young < |uf.parent| && older < |uf.parent|
    requires LabelsOf(uf.parent, uf.rank, uf.bound) == comp
    modifies uf
    ensures uf.Valid() && |uf.parent| == |comp|
    ensures LabelsOf(uf.parent, uf.rank, uf.bound) == MergeLabels(MergeLabels(comp, index, young), young, older)
    ensures pairs' == pairs + [(comp[young], index)]
  {
    var younger := uf.Find(young);
    assert younger == comp[young];
    pairs' := pairs + [(younger, index)];
    MergeOnce(uf, comp, index, young);
    MergeOnce(uf, MergeLabels(comp, index, young), young, older);
  }

  /** `merge(a, b)` on the labels. */
  method MergeOnce(uf: UnionFind, ghost comp: seq<nat>, a: nat, b: nat)
    requires uf.Valid() && a < |uf.parent| && b < |uf.parent|
    requires LabelsOf(uf.parent, uf.rank, uf.bound) == comp
    modifies uf
    ensures uf.Valid() && |uf.parent| == |comp|
    ensures LabelsOf(uf.parent, uf.rank, uf.bound) == MergeLabels(comp, a, b)
  {
    assert uf.Root(a) == comp[a] && uf.Root(b) == comp[b] by {
      assert LabelsOf(uf.parent, uf.rank, uf.bound)[a] == comp[a];
      assert LabelsOf(uf.parent, uf.rank, uf.bound)[b] == comp[b];
    }
    uf.Merge(a, b);
  }

  /** Case 3 of the loop, a regular point: merges towards the neighbours the rules
      select, never past either end of the series. */
  method ProcessRegularPoint(uf: UnionFind, order: Order, values: seq<int>, index: nat, ghost comp: seq<nat>)
    requires IsLabelling(comp) && |comp| == |values| && index < |values|
    requires uf.Valid() && |uf.parent| == |values| && LabelsOf(uf.parent, uf.rank, uf.bound) == comp
    modifies uf
    ensures uf.Valid() && |uf.parent| == |values|
    ensures LabelsOf(uf.parent, uf.rank, uf.bound) == RightMerge(order, values, LeftMerge(order, values, comp, index), index)
  {
    var n := |values|;
    var x, u, v := values[index], LeftValue(values, index), RightValue(values, index);
    var mergeLeft, mergeRight := false, false;
    if Precedes(order, u, x) {
      mergeLeft := true;
    } else if Precedes(order, v, x) {
      mergeRight := true;
    }
    var incomparableLeft := !Precedes(order, u, x) && !Precedes(order, x, u);
    var incomparableRight := !Precedes(order, v, x) && !Precedes(order, x, v);
    if incomparableLeft {
      mergeLeft := true;
    }
    if incomparableRight {
      mergeRight := true;
    }
    if !mergeLeft && !mergeRight {
      return;
    }
    MergeLeftward(uf, order, values, index, comp, mergeLeft, incomparableLeft);
    MergeRightward(uf, order, values, index, LeftMerge(order, values, comp, index), mergeRight, incomparableRight);
  }

  /** The left merge of a regular point, given the flags the loop computed. */
  method MergeLeftward(uf: UnionFind, order: Order, values: seq<int>, index: nat, ghost comp: seq<nat>,
                       mergeLeft: bool, incomparableLeft: bool)
    requires IsLabelling(comp) && |comp| == |values| && index < |values|
    requires uf.Valid() && |uf.parent| == |values| && LabelsOf(uf.parent, uf.rank, uf.bound) == comp
    requires var x, u := values[index], LeftValue(values, index);
             incomparableLeft == Incomparable(order, u, x) &&
             mergeLeft == (Precedes(order, u, x) || incomparableLeft)
    modifies uf
    ensures uf.Valid() && |uf.parent| == |values|
    ensures LabelsOf(uf.parent, uf.rank, uf.bound) == LeftMerge(order, values, comp, index)
  {
    if mergeLeft && index != 0 {
      if incomparableLeft {
        assert LeftMerge(order, values, comp, index) == MergeLabels(comp, index - 1, index);
        MergeOnce(uf, comp, index - 1, index);
      } else {
        assert LeftMerge(order, values, comp, index) == MergeLabels(comp, index, index - 1);
        MergeOnce(uf, comp, index, index - 1);
      }
    } else {
      assert LeftMerge(order, values, comp, index) == comp;
    }
  }

  /** The right merge of a regular point, given the flags the loop computed. */
  method MergeRightward(uf: UnionFind, order: Order, values: seq<int>, index: nat, ghost comp: seq<nat>,
                        mergeRight: bool, incomparableRight: bool)
    requires IsLabelling(comp) && |comp| == |values| && index < |values|
    requires uf.Valid() && |uf.parent| == |values| && LabelsOf(uf.parent, uf.rank, uf.bound) == comp
    requires var x, u, v := values[index], LeftValue(values, index), RightValue(values, index);
             incomparableRight == Incomparable(order, v, x) &&
             mergeRight == ((!Precedes(order, u, x) && Precedes(order, v, x)) || incomparableRight)
    modifies uf
    ensures uf.Valid() && |uf.parent| == |values|
    ensures LabelsOf(uf.parent, uf.rank, uf.bound) == RightMerge(order, values, comp, index)
  {
    if mergeRight && index != |values| - 1 {
      if incomparableRight {
        assert RightMerge(order, values, comp, index) == MergeLabels(comp, index + 1, index);
        MergeOnce(uf, comp, index + 1, index);
      } else {
        assert RightMerge(order, values, comp, index) == MergeLabels(comp, index, index + 1);
        MergeOnce(uf, comp, index, index + 1);
      }
    } else {
      assert RightMerge(order, values, comp, index) == comp;
    }
  }

  /** One pass of the main loop, for the sample at `index`. */
  method ProcessSample(uf: UnionFind, pairs: seq<IndexPair>, order: Order, values: seq<int>, index: nat, ghost s: Sweep)
    returns (pairs': seq<IndexPair>)
    requires IsState(|values|, s) && index < |values|
    requires uf.Valid() && |uf.parent| == |values|
    requires LabelsOf(uf.parent, uf.rank, uf.bound) == s.comp && pairs == s.pairs
    modifies uf
    ensures uf.Valid() && |uf.parent| == |values|
    ensures var t := SampleStep(order, values, s, index);
            LabelsOf(uf.parent, uf.rank, uf.bound) == t.comp && pairs' == t.pairs
  {
    var n := |values|;
    var x := values[index];
    var u, v := x, x;
    if index > 0 {
      u := values[index - 1];
    }
    if index < n - 1 {
      v := values[index + 1];
    }
    if Precedes(order, x, u) && Precedes(order, x, v) {
      pairs' := pairs;
    } else if Precedes(order, u, x) && Precedes(order, v, x) {
      pairs' := ProcessMergePoint(uf, pairs, order, values, index, s);
    } else {
      ProcessRegularPoint(uf, order, values, index, s.comp);
      pairs' := pairs;
    }
  }

  /** The main loop, over the samples in the order `ord`. */
  method SweepSamples(order: Order, values: seq<int>, ord: seq<nat>) returns (uf: UnionFind, pairs: seq<IndexPair>)
    requires NamesSamples(values, ord)
    ensures fresh(uf) && uf.Valid() && |uf.parent| == |values|
    ensures var s := SweepPrefix(order, values, ord, |ord|);
            LabelsOf(uf.parent, uf.rank, uf.bound) == s.comp && pairs == s.pairs
  {
    uf := new UnionFind(|values|);
    pairs := [];
    var k := 0;
    while k < |ord|
      invariant k <= |ord|
      invariant uf.Valid() && |uf.parent| == |values|
      invariant var s := SweepPrefix(order, values, ord, k);
                LabelsOf(uf.parent, uf.rank, uf.bound) == s.comp && pairs == s.pairs
    {
      pairs := ProcessSample(uf, pairs, order, values, ord[k], SweepPrefix(order, values, ord, k));
      k := k + 1;
    }
  }

  /** The closing loop: every index pair goes into a new diagram as values, the
      smaller position first. */
  method AddOriented(values: seq<int>, pairs: seq<IndexPair>) returns (pd: PersistenceDiagram)
    requires forall j :: 0 <= j < |pairs| ==> pairs[j].0 < |values| && pairs[j].1 < |values|
    ensures fresh(pd) && pd.pairs == Orient(values, pairs)
  {
    pd := new PersistenceDiagram();
    var k := 0;
    while k < |pairs|
      invariant k <= |pairs|
      invariant pd.pairs == Orient(values, pairs[..k])
    {
      var (c, d) := pairs[k];
      if c > d {
        c, d := d, c;
      }
      assert pairs[..k + 1][..k] == pairs[..k];
      pd.Add(values[c], values[d]);
      k := k + 1;
    }
    assert pairs[..k] == pairs;
  }

  /** `calculate_persistence_diagrams_1d(function, order)`; `None` stands for the
      assertion that rejects an unknown order. */
  method CalculatePersistenceDiagrams1D(values: seq<int>, order: string) returns (result: Option<PersistenceDiagram>)
    ensures result.None? <==> ParseOrder(order).None?
    ensures result.Some? ==> fresh(result.value) && result.value.pairs == Diagram(ParseOrder(order).value, values)
  {
    var filtration := ParseOrder(order);
    if filtration.None? {
      return None;
    }
    var indices := FiltrationOrder(filtration.value, values);
    FiltrationOrderVisits(filtration.value, values);
    var uf, pairs := SweepSamples(filtration.value, values, indices);
    if |indices| >= 2 {
      if (indices[0], indices[|indices| - 1]) !in pairs {
        pairs := pairs + [(indices[0], indices[|indices| - 1])];
      }
    }
    assert pairs == IndexPairs(filtration.value, values);
    var pd := AddOriented(values, pairs);
    return Some(pd);
  }
}
