/** Zero- and one-dimensional persistence of a graph whose vertices and edges carry
    values (`calculate_persistence_diagrams` in
    `pyper/persistent_homology/graphs.py`). The graph is given as plain sequences:
    vertex values, edge endpoints and edge values. */
module GraphPersistence {
  import opened Wrappers
  import opened Sorting
  import opened Filtration
  import opened UnionFind
  import opened PersistenceDiagrams

  type Edge = (nat, nat)

  /** Every edge has a value and both endpoints are vertices. */
  predicate IsGraph(vertexValues: seq<int>, edges: seq<Edge>, edgeValues: seq<int>)
  {
    |edges| == |edgeValues| &&
    forall e :: 0 <= e < |edges| ==> edges[e].0 < |vertexValues| && edges[e].1 < |vertexValues|
  }

  /** What the sweep has built after a prefix of the sorted edges: the component
      labels, the finished pairs of diagram 0 and the cycle edges. */
  datatype Sweep = Sweep(comp: seq<nat>, diagram: seq<Pair>, cycles: seq<nat>)

  /** One edge of the sweep. Endpoints with the same label close a cycle. Otherwise
      the smaller label dies: its vertex value is paired with the edge value and its
      component takes the larger label. */
  function EdgeStep(vertexValues: seq<int>, edges: seq<Edge>, edgeValues: seq<int>, s: Sweep, e: nat): (t: Sweep)
    requires IsGraph(vertexValues, edges, edgeValues) && e < |edges|
    requires |s.comp| == |vertexValues| && IsLabelling(s.comp)
    ensures |t.comp| == |vertexValues| && IsLabelling(t.comp)
  {
    var (u, v) := edges[e];
    var younger, older := s.comp[u], s.comp[v];
    if younger == older then
      s.(cycles := s.cycles + [e])
    else
      var dying := if younger > older then older else younger;
      var surviving := if younger > older then younger else older;
      RelabelDropsOneLabel(s.comp, dying, surviving);
      Sweep(Relabel(s.comp, dying, surviving), s.diagram + [(vertexValues[dying], edgeValues[e])], s.cycles)
  }

  /** The indices of `ord` all name edges. */
  predicate NamesEdges(edges: seq<Edge>, ord: seq<nat>)
  {
    forall p :: 0 <= p < |ord| ==> ord[p] < |edges|
  }

  /** The sweep over the first `k` edges of `ord`. */
  function SweepPrefix(vertexValues: seq<int>, edges: seq<Edge>, edgeValues: seq<int>, ord: seq<nat>, k: nat): (s: Sweep)
    requires IsGraph(vertexValues, edges, edgeValues) && NamesEdges(edges, ord) && k <= |ord|
    ensures |s.comp| == |vertexValues| && IsLabelling(s.comp)
    ensures forall j :: 0 <= j < |s.cycles| ==> s.cycles[j] < |edges|
  {
    if k == 0 then Sweep(Identity(|vertexValues|), [], [])
    else EdgeStep(vertexValues, edges, edgeValues, SweepPrefix(vertexValues, edges, edgeValues, ord, k - 1), ord[k - 1])
  }

  /** One more edge of `ord` is one more step of the sweep. */
  lemma SweepPrefixStep(vertexValues: seq<int>, edges: seq<Edge>, edgeValues: seq<int>, ord: seq<nat>, k: nat)
    requires IsGraph(vertexValues, edges, edgeValues) && NamesEdges(edges, ord) && k < |ord|
    ensures SweepPrefix(vertexValues, edges, edgeValues, ord, k + 1) ==
            EdgeStep(vertexValues, edges, edgeValues, SweepPrefix(vertexValues, edges, edgeValues, ord, k), ord[k])
  {
  }

  /** The edge order of the computation. */
  function EdgeOrder(edgeValues: seq<int>, order: Order): (ord: seq<nat>)
    ensures |ord| == |edgeValues| && forall p :: 0 <= p < |ord| ==> ord[p] < |edgeValues|
  {
    FiltrationOrder(order, edgeValues)
  }

  /** The sweep over all edges in filtration order. */
  function FullSweep(vertexValues: seq<int>, edges: seq<Edge>, edgeValues: seq<int>, order: Order): (s: Sweep)
    requires IsGraph(vertexValues, edges, edgeValues)
    ensures |s.comp| == |vertexValues| && IsLabelling(s.comp)
    ensures forall j :: 0 <= j < |s.cycles| ==> s.cycles[j] < |edges|
  {
    var ord := EdgeOrder(edgeValues, order);
    SweepPrefix(vertexValues, edges, edgeValues, ord, |ord|)
  }

  /** The destruction value of everything left unpaired: the value of the last edge
      in filtration order. */
  function UnpairedValue(edgeValues: seq<int>, order: Order): int
    requires |edgeValues| > 0
  {
    var ord := EdgeOrder(edgeValues, order);
    edgeValues[ord[|ord| - 1]]
  }

  /** Each index's value paired with the same destruction value `y`. */
  function Pairing(values: seq<int>, idx: seq<nat>, y: int): (r: seq<Pair>)
    requires forall j :: 0 <= j < |idx| ==> idx[j] < |values|
    ensures |r| == |idx| && forall j :: 0 <= j < |idx| ==> r[j] == (values[idx[j]], y)
  {
    if idx == [] then [] else Pairing(values, idx[..|idx| - 1], y) + [(values[idx[|idx| - 1]], y)]
  }

  /** The two diagrams the function returns: diagram 0 holds the merge pairs and then
      one pair per surviving component in ascending root order; diagram 1 holds one
      pair per cycle edge in processing order. */
  function Diagrams(vertexValues: seq<int>, edges: seq<Edge>, edgeValues: seq<int>, order: Order): (d: (seq<Pair>, seq<Pair>))
    requires IsGraph(vertexValues, edges, edgeValues) && |edges| > 0
  {
    var s := FullSweep(vertexValues, edges, edgeValues, order);
    var unpaired := UnpairedValue(edgeValues, order);
    var roots := RootsBelow(s.comp, |vertexValues|);
    (s.diagram + Pairing(vertexValues, roots, unpaired), Pairing(edgeValues, s.cycles, unpaired))
  }

  /** The diagrams in terms of the sweep that produced them. */
  lemma DiagramsFromSweep(vertexValues: seq<int>, edges: seq<Edge>, edgeValues: seq<int>, order: Order, s: Sweep, y: int)
    requires IsGraph(vertexValues, edges, edgeValues) && |edges| > 0
    requires s == FullSweep(vertexValues, edges, edgeValues, order) && y == UnpairedValue(edgeValues, order)
    ensures Diagrams(vertexValues, edges, edgeValues, order).0 == s.diagram + Pairing(vertexValues, RootsBelow(s.comp, |vertexValues|), y)
    ensures Diagrams(vertexValues, edges, edgeValues, order).1 == Pairing(edgeValues, s.cycles, y)
  {
  }

  /** The closing loops of the function: each index in `idx` adds the pair
      `(values[index], y)` to `d`, in order. */
  method AddPairs(d: PersistenceDiagram, values: seq<int>, idx: seq<nat>, y: int)
    requires forall j :: 0 <= j < |idx| ==> idx[j] < |values|
    modifies d
    ensures d.pairs == old(d.pairs) + Pairing(values, idx, y)
  {
    var j := 0;
    while j < |idx|
      invariant j <= |idx|
      invariant d.pairs == old(d.pairs) + Pairing(values, idx[..j], y)
    {
      assert idx[..j + 1][..j] == idx[..j];
      d.Add(values[idx[j]], y);
      j := j + 1;
    }
    assert idx[..j] == idx;
  }

  /** One pass of the main loop: the edge `e` goes through the union--find
      structure. A cycle edge is recorded; any other edge merges the component with
      the smaller root into the other and adds a pair to diagram 0. */
  method ProcessEdge(uf: UnionFind, d0: PersistenceDiagram, cycles: seq<nat>,
                     vertexValues: seq<int>, edges: seq<Edge>, edgeValues: seq<int>, e: nat, ghost s: Sweep)
    returns (cycles': seq<nat>)
    requires IsGraph(vertexValues, edges, edgeValues) && e < |edges|
    requires uf.Valid() && |uf.parent| == |vertexValues| && |s.comp| == |vertexValues| && IsLabelling(s.comp)
    requires LabelsOf(uf.parent, uf.rank, uf.bound) == s.comp && d0.pairs == s.diagram && cycles == s.cycles
    requires PointsUp(uf.parent)
    modifies uf, d0
    ensures uf.Valid() && |uf.parent| == |vertexValues| && PointsUp(uf.parent)
    ensures var t := EdgeStep(vertexValues, edges, edgeValues, s, e);
            LabelsOf(uf.parent, uf.rank, uf.bound) == t.comp && d0.pairs == t.diagram && cycles' == t.cycles
  {
    var (u, v) := edges[e];
    var younger := uf.Find(u);
    var older := uf.Find(v);
    assert younger == s.comp[u] && older == s.comp[v];
    if younger == older {
      return cycles + [e];
    }
    if younger > older {
      u, v := v, u;
      younger, older := older, younger;
    }
    var creation, destruction := vertexValues[younger], edgeValues[e];
    assert uf.Root(u) == younger && uf.Root(v) == older by {
      assert LabelsOf(uf.parent, uf.rank, uf.bound)[u] == s.comp[u];
      assert LabelsOf(uf.parent, uf.rank, uf.bound)[v] == s.comp[v];
    }
    uf.Merge(u, v);
    d0.Add(creation, destruction);
    cycles' := cycles;
  }

  /** The main loop of the function, over the edges in the order `ord`. */
  method SweepEdges(vertexValues: seq<int>, edges: seq<Edge>, edgeValues: seq<int>, ord: seq<nat>)
    returns (uf: UnionFind, d0: PersistenceDiagram, cycles: seq<nat>)
    requires IsGraph(vertexValues, edges, edgeValues) && NamesEdges(edges, ord)
    ensures fresh(uf) && fresh(d0) && uf.Valid() && |uf.parent| == |vertexValues| && PointsUp(uf.parent)
    ensures var s := SweepPrefix(vertexValues, edges, edgeValues, ord, |ord|);
            LabelsOf(uf.parent, uf.rank, uf.bound) == s.comp && d0.pairs == s.diagram && cycles == s.cycles
  {
    var n := |vertexValues|;
    uf := new UnionFind(n);
    d0 := new PersistenceDiagram();
    cycles := [];
    var k := 0;
    while k < |ord|
      invariant k <= |ord|
      invariant uf.Valid() && |uf.parent| == n && PointsUp(uf.parent)
      invariant var s := SweepPrefix(vertexValues, edges, edgeValues, ord, k);
                LabelsOf(uf.parent, uf.rank, uf.bound) == s.comp && d0.pairs == s.diagram && cycles == s.cycles
    {
      SweepPrefixStep(vertexValues, edges, edgeValues, ord, k);
      cycles := ProcessEdge(uf, d0, cycles, vertexValues, edges, edgeValues, ord[k],
                            SweepPrefix(vertexValues, edges, edgeValues, ord, k));
      k := k + 1;
    }
  }

  /** The last part of the function: every remaining root is paired with the
      unpaired value in diagram 0, and every cycle edge in a new diagram 1. */
  method PairEssential(uf: UnionFind, d0: PersistenceDiagram, vertexValues: seq<int>, edgeValues: seq<int>,
                       cycles: seq<nat>, unpaired: int, ghost s: Sweep)
    returns (d1: PersistenceDiagram)
    requires uf.Valid() && |uf.parent| == |vertexValues|
    requires LabelsOf(uf.parent, uf.rank, uf.bound) == s.comp && d0.pairs == s.diagram && cycles == s.cycles
    requires forall j :: 0 <= j < |cycles| ==> cycles[j] < |edgeValues|
    modifies d0
    ensures fresh(d1)
    ensures d0.pairs == s.diagram + Pairing(vertexValues, RootsBelow(s.comp, |vertexValues|), unpaired)
    ensures d1.pairs == Pairing(edgeValues, s.cycles, unpaired)
  {
    var roots := uf.Roots();
    LabelsHaveSameRoots(uf.parent, uf.rank, uf.bound);
    assert roots == RootsBelow(s.comp, |vertexValues|);
    AddPairs(d0, vertexValues, roots, unpaired);
    d1 := new PersistenceDiagram();
    AddPairs(d1, edgeValues, cycles, unpaired);
  }

  /** `calculate_persistence_diagrams(graph, order=order)`; `None` is the assertion
      failure for an unknown order name. At least one edge is needed once the order
      is valid, because the unpaired value is read from the last sorted edge. */
  method CalculatePersistenceDiagrams(vertexValues: seq<int>, edges: seq<Edge>, edgeValues: seq<int>, order: string)
    returns (result: Option<(PersistenceDiagram, PersistenceDiagram)>)
    requires IsGraph(vertexValues, edges, edgeValues)
    requires ParseOrder(order).Some? ==> |edges| > 0
    ensures result.None? <==> ParseOrder(order).None?
    ensures result.Some? ==>
              fresh(result.value.0) && fresh(result.value.1) &&
              (result.value.0.pairs, result.value.1.pairs) == Diagrams(vertexValues, edges, edgeValues, ParseOrder(order).value)
  {
    var filtration := ParseOrder(order);
    if filtration.None? {
      return None;
    }
    var ord := EdgeOrder(edgeValues, filtration.value);
    var uf, d0, cycles := SweepEdges(vertexValues, edges, edgeValues, ord);
    ghost var s := FullSweep(vertexValues, edges, edgeValues, filtration.value);
    var unpaired := edgeValues[ord[|ord| - 1]];
    assert unpaired == UnpairedValue(edgeValues, filtration.value);
    var d1 := PairEssential(uf, d0, vertexValues, edgeValues, cycles, unpaired, s);
    DiagramsFromSweep(vertexValues, edges, edgeValues, filtration.value, s, unpaired);
    return Some((d0, d1));
  }
}

/** Properties of the graph sweep and of the diagrams it produces. */
module GraphPersistenceProperties {
  import opened Sorting
  import opened Filtration
  import opened UnionFind
  import opened PersistenceDiagrams
  import opened GraphPersistence

  /** Every edge either merges two components, adding one pair to diagram 0, or is
      recorded as a cycle; each merge removes exactly one component. */
  lemma {:induction false} SweepCounts(vertexValues: seq<int>, edges: seq<Edge>, edgeValues: seq<int>, ord: seq<nat>, k: nat)
    requires IsGraph(vertexValues, edges, edgeValues) && NamesEdges(edges, ord) && k <= |ord|
    ensures var s := SweepPrefix(vertexValues, edges, edgeValues, ord, k);
            |s.diagram| + |s.cycles| == k &&
            |s.diagram| + |RootsBelow(s.comp, |vertexValues|)| == |vertexValues|
  {
    if k == 0 {
      InitialRoots(|vertexValues|, |vertexValues|);
    } else {
      SweepCounts(vertexValues, edges, edgeValues, ord, k - 1);
      var s := SweepPrefix(vertexValues, edges, edgeValues, ord, k - 1);
      var (u, v) := edges[ord[k - 1]];
      if s.comp[u] != s.comp[v] {
        var dying := if s.comp[u] > s.comp[v] then s.comp[v] else s.comp[u];
        var surviving := if s.comp[u] > s.comp[v] then s.comp[u] else s.comp[v];
        RelabelDropsOneLabel(s.comp, dying, surviving);
      }
    }
  }

  /** The sweep never lowers a vertex's label: the smaller label dies. */
  lemma EdgeStepRaisesLabels(vertexValues: seq<int>, edges: seq<Edge>, edgeValues: seq<int>, s: Sweep, e: nat)
    requires IsGraph(vertexValues, edges, edgeValues) && e < |edges|
    requires |s.comp| == |vertexValues| && IsLabelling(s.comp)
    requires forall j :: 0 <= j < |s.comp| ==> j <= s.comp[j]
    ensures var t := EdgeStep(vertexValues, edges, edgeValues, s, e);
            forall j :: 0 <= j < |t.comp| ==> j <= t.comp[j]
  {
  }

  /** Every component is labelled by its largest vertex: the smaller root always
      dies, so the survivor of a merge is the larger of two maxima. */
  lemma {:induction false} LabelIsLargestVertex(vertexValues: seq<int>, edges: seq<Edge>, edgeValues: seq<int>, ord: seq<nat>, k: nat)
    requires IsGraph(vertexValues, edges, edgeValues) && NamesEdges(edges, ord) && k <= |ord|
    ensures var c := SweepPrefix(vertexValues, edges, edgeValues, ord, k).comp;
            forall i, j :: 0 <= i < |c| && 0 <= j < |c| && c[i] == c[j] ==> j <= c[i]
  {
    RaisedLabels(vertexValues, edges, edgeValues, ord, k);
  }

  lemma {:induction false} RaisedLabels(vertexValues: seq<int>, edges: seq<Edge>, edgeValues: seq<int>, ord: seq<nat>, k: nat)
    requires IsGraph(vertexValues, edges, edgeValues) && NamesEdges(edges, ord) && k <= |ord|
    ensures forall j :: 0 <= j < |vertexValues| ==> j <= SweepPrefix(vertexValues, edges, edgeValues, ord, k).comp[j]
  {
    if k > 0 {
      RaisedLabels(vertexValues, edges, edgeValues, ord, k - 1);
      var s := SweepPrefix(vertexValues, edges, edgeValues, ord, k - 1);
      assert forall j :: 0 <= j < |s.comp| ==> j <= s.comp[j];
      assert ord[k - 1] < |edges|;
      EdgeStepRaisesLabels(vertexValues, edges, edgeValues, s, ord[k - 1]);
    }
  }

  /** The unpaired value is the largest edge value under a sublevel filtration and
      the smallest under a superlevel one. */
  lemma UnpairedIsExtreme(edgeValues: seq<int>, order: Order)
    requires |edgeValues| > 0
    ensures forall e :: 0 <= e < |edgeValues| ==> !Precedes(order, UnpairedValue(edgeValues, order), edgeValues[e])
  {
    var ord := EdgeOrder(edgeValues, order);
    FiltrationOrderVisits(order, edgeValues);
    forall e | 0 <= e < |edgeValues|
      ensures !Precedes(order, UnpairedValue(edgeValues, order), edgeValues[e])
    {
      assert e in ord;
      var p :| 0 <= p < |ord| && ord[p] == e;
      if p < |ord| - 1 {
        assert !Precedes(order, edgeValues[ord[|ord| - 1]], edgeValues[ord[p]]);
      }
    }
  }

  /** Diagram 0 has one pair per vertex; merge pairs and cycle pairs together
      account for every edge. */
  lemma DiagramSizes(vertexValues: seq<int>, edges: seq<Edge>, edgeValues: seq<int>, order: Order)
    requires IsGraph(vertexValues, edges, edgeValues) && |edges| > 0
    ensures var d, merges := Diagrams(vertexValues, edges, edgeValues, order), |FullSweep(vertexValues, edges, edgeValues, order).diagram|;
            |d.0| == |vertexValues| && merges + |d.1| == |edges|
  {
    var ord := EdgeOrder(edgeValues, order);
    SweepCounts(vertexValues, edges, edgeValues, ord, |ord|);
  }

  /** The key a value is sorted by under a filtration. */
  function SortKey(order: Order, x: int): int
  {
    if order == Sublevel then x else -x
  }

  /** The pairs' destruction values never decrease in sort key. */
  predicate DestructionsInOrder(order: Order, pairs: seq<Pair>)
  {
    forall a, b :: 0 <= a < b < |pairs| ==> SortKey(order, pairs[a].1) <= SortKey(order, pairs[b].1)
  }

  /** No pair's destruction value comes after `x` in sort key. */
  predicate NoneLaterThan(order: Order, pairs: seq<Pair>, x: int)
  {
    forall a :: 0 <= a < |pairs| ==> SortKey(order, pairs[a].1) <= SortKey(order, x)
  }

  /** One step keeps the merge pairs in order when none of them is later than the
      edge it processes. */
  lemma EdgeStepKeepsOrder(vertexValues: seq<int>, edges: seq<Edge>, edgeValues: seq<int>, order: Order, s: Sweep, e: nat)
    requires IsGraph(vertexValues, edges, edgeValues) && e < |edges|
    requires |s.comp| == |vertexValues| && IsLabelling(s.comp)
    requires DestructionsInOrder(order, s.diagram) && NoneLaterThan(order, s.diagram, edgeValues[e])
    ensures DestructionsInOrder(order, EdgeStep(vertexValues, edges, edgeValues, s, e).diagram)
    ensures NoneLaterThan(order, EdgeStep(vertexValues, edges, edgeValues, s, e).diagram, edgeValues[e])
  {
  }

  /** Merge pairs leave the sweep in filtration order of their destruction values,
      and none is later than the edge processed last. */
  lemma {:induction false} MergePairsInOrder(vertexValues: seq<int>, edges: seq<Edge>, edgeValues: seq<int>, order: Order, k: nat)
    requires IsGraph(vertexValues, edges, edgeValues)
    requires k <= |edges|
    ensures DestructionsInOrder(order, SweepPrefix(vertexValues, edges, edgeValues, EdgeOrder(edgeValues, order), k).diagram)
    ensures k > 0 ==> NoneLaterThan(order, SweepPrefix(vertexValues, edges, edgeValues, EdgeOrder(edgeValues, order), k).diagram,
                                    edgeValues[EdgeOrder(edgeValues, order)[k - 1]])
  {
    var ord := EdgeOrder(edgeValues, order);
    if k > 0 {
      MergePairsInOrder(vertexValues, edges, edgeValues, order, k - 1);
      var s := SweepPrefix(vertexValues, edges, edgeValues, ord, k - 1);
      if k > 1 {
        var keys := SortKeys(order, edgeValues);
        assert StablyBefore(keys, ord[k - 2], ord[k - 1]);
        assert keys[ord[k - 2]] == SortKey(order, edgeValues[ord[k - 2]]);
        assert keys[ord[k - 1]] == SortKey(order, edgeValues[ord[k - 1]]);
        assert NoneLaterThan(order, s.diagram, edgeValues[ord[k - 1]]);
      }
      EdgeStepKeepsOrder(vertexValues, edges, edgeValues, order, s, ord[k - 1]);
    }
  }

  /** One step over the negated graph from the negated state gives the negated
      result. */
  lemma EdgeStepNegation(vertexValues: seq<int>, edges: seq<Edge>, edgeValues: seq<int>, s: Sweep, n: Sweep, e: nat)
    requires IsGraph(vertexValues, edges, edgeValues) && e < |edges|
    requires |s.comp| == |vertexValues| && IsLabelling(s.comp)
    requires n.comp == s.comp && n.cycles == s.cycles && n.diagram == NegatePairs(s.diagram)
    ensures var t, m := EdgeStep(vertexValues, edges, edgeValues, s, e), EdgeStep(Negate(vertexValues), edges, Negate(edgeValues), n, e);
            m.comp == t.comp && m.cycles == t.cycles && m.diagram == NegatePairs(t.diagram)
  {
    var (u, v) := edges[e];
    if s.comp[u] != s.comp[v] {
      var dying := if s.comp[u] > s.comp[v] then s.comp[v] else s.comp[u];
      var pair := (vertexValues[dying], edgeValues[e]);
      assert NegatePairs(s.diagram + [pair]) == NegatePairs(s.diagram) + [(-pair.0, -pair.1)];
    }
  }

  /** Negating every value leaves the sweep's components and cycles alone and
      negates its pairs. */
  lemma {:induction false} SweepNegation(vertexValues: seq<int>, edges: seq<Edge>, edgeValues: seq<int>, ord: seq<nat>, k: nat)
    requires IsGraph(vertexValues, edges, edgeValues) && NamesEdges(edges, ord) && k <= |ord|
    ensures var s, n := SweepPrefix(vertexValues, edges, edgeValues, ord, k), SweepPrefix(Negate(vertexValues), edges, Negate(edgeValues), ord, k);
            n.comp == s.comp && n.cycles == s.cycles && n.diagram == NegatePairs(s.diagram)
  {
    if k > 0 {
      SweepNegation(vertexValues, edges, edgeValues, ord, k - 1);
      EdgeStepNegation(vertexValues, edges, edgeValues, SweepPrefix(vertexValues, edges, edgeValues, ord, k - 1),
                       SweepPrefix(Negate(vertexValues), edges, Negate(edgeValues), ord, k - 1), ord[k - 1]);
    }
  }

  /** Negating a list of pairs followed by a pairing negates each part: the
      values and the common destruction value. */
  lemma PairingNegation(pairs: seq<Pair>, values: seq<int>, idx: seq<nat>, y: int)
    requires forall j :: 0 <= j < |idx| ==> idx[j] < |values|
    ensures NegatePairs(pairs + Pairing(values, idx, y)) == NegatePairs(pairs) + Pairing(Negate(values), idx, -y)
  {
    var l, r := NegatePairs(pairs + Pairing(values, idx, y)), NegatePairs(pairs) + Pairing(Negate(values), idx, -y);
    assert |l| == |r|;
    forall j | 0 <= j < |l| ensures l[j] == r[j] {
      if j >= |pairs| {
        assert (pairs + Pairing(values, idx, y))[j] == Pairing(values, idx, y)[j - |pairs|];
      }
    }
  }

  /** The superlevel sweep of the negated graph is the sublevel sweep of the graph
      with its pairs negated, and its unpaired value is negated too. */
  lemma FullSweepNegation(vertexValues: seq<int>, edges: seq<Edge>, edgeValues: seq<int>)
    requires IsGraph(vertexValues, edges, edgeValues) && |edges| > 0
    ensures var s := FullSweep(vertexValues, edges, edgeValues, Sublevel);
            FullSweep(Negate(vertexValues), edges, Negate(edgeValues), Superlevel) == Sweep(s.comp, NegatePairs(s.diagram), s.cycles)
    ensures UnpairedValue(Negate(edgeValues), Superlevel) == -UnpairedValue(edgeValues, Sublevel)
  {
    OrderDuality(edgeValues);
    var ord := EdgeOrder(edgeValues, Sublevel);
    assert EdgeOrder(Negate(edgeValues), Superlevel) == ord;
    SweepNegation(vertexValues, edges, edgeValues, ord, |ord|);
  }

  /** A superlevel filtration of the negated graph is the sublevel filtration of the
      graph itself: both diagrams come out negated. */
  lemma GraphDuality(vertexValues: seq<int>, edges: seq<Edge>, edgeValues: seq<int>)
    requires IsGraph(vertexValues, edges, edgeValues) && |edges| > 0
    ensures var d, n := Diagrams(vertexValues, edges, edgeValues, Sublevel), Diagrams(Negate(vertexValues), edges, Negate(edgeValues), Superlevel);
            n.0 == NegatePairs(d.0) && n.1 == NegatePairs(d.1)
  {
    ZeroDuality(vertexValues, edges, edgeValues);
    OneDuality(vertexValues, edges, edgeValues);
  }

  lemma ZeroDuality(vertexValues: seq<int>, edges: seq<Edge>, edgeValues: seq<int>)
    requires IsGraph(vertexValues, edges, edgeValues) && |edges| > 0
    ensures Diagrams(Negate(vertexValues), edges, Negate(edgeValues), Superlevel).0 == NegatePairs(Diagrams(vertexValues, edges, edgeValues, Sublevel).0)
  {
    var w, f := Negate(vertexValues), Negate(edgeValues);
    var s := FullSweep(vertexValues, edges, edgeValues, Sublevel);
    var y := UnpairedValue(edgeValues, Sublevel);
    FullSweepNegation(vertexValues, edges, edgeValues);
    var n := Sweep(s.comp, NegatePairs(s.diagram), s.cycles);
    assert FullSweep(w, edges, f, Superlevel) == n;
    DiagramsFromSweep(vertexValues, edges, edgeValues, Sublevel, s, y);
    DiagramsFromSweep(w, edges, f, Superlevel, n, -y);
    assert |w| == |vertexValues|;
    PairingNegation(s.diagram, vertexValues, RootsBelow(s.comp, |vertexValues|), y);
  }


  lemma OneDuality(vertexValues: seq<int>, edges: seq<Edge>, edgeValues: seq<int>)
    requires IsGraph(vertexValues, edges, edgeValues) && |edges| > 0
    ensures Diagrams(Negate(vertexValues), edges, Negate(edgeValues), Superlevel).1 == NegatePairs(Diagrams(vertexValues, edges, edgeValues, Sublevel).1)
  {
    var w, f := Negate(vertexValues), Negate(edgeValues);
    var s := FullSweep(vertexValues, edges, edgeValues, Sublevel);
    var y := UnpairedValue(edgeValues, Sublevel);
    FullSweepNegation(vertexValues, edges, edgeValues);
    var n := Sweep(s.comp, NegatePairs(s.diagram), s.cycles);
    assert FullSweep(w, edges, f, Superlevel) == n;
    DiagramsFromSweep(vertexValues, edges, edgeValues, Sublevel, s, y);
    DiagramsFromSweep(w, edges, f, Superlevel, n, -y);
    PairingNegated(edgeValues, s.cycles, y);
  }

  /** Negating a pairing negates each value and the common destruction value. */
  lemma PairingNegated(values: seq<int>, idx: seq<nat>, y: int)
    requires forall j :: 0 <= j < |idx| ==> idx[j] < |values|
    ensures NegatePairs(Pairing(values, idx, y)) == Pairing(Negate(values), idx, -y)
  {
  }


  /** The path graph of the package's graph test: vertex values 1, 4, 3, 2, 1, edges
      0-1, 1-2, 2-3, 2-4 with values 4, 4, 3, 3. */
  predicate IsPathGraph(vertexValues: seq<int>, edges: seq<Edge>, edgeValues: seq<int>)
  {
    vertexValues == [1, 4, 3, 2, 1] && edges == [(0, 1), (1, 2), (2, 3), (2, 4)] && edgeValues == [4, 4, 3, 3]
  }

  lemma PathIsGraph(vertexValues: seq<int>, edges: seq<Edge>, edgeValues: seq<int>)
    requires IsPathGraph(vertexValues, edges, edgeValues)
    ensures IsGraph(vertexValues, edges, edgeValues)
  {
    assert edges[0] == (0, 1) && edges[1] == (1, 2) && edges[2] == (2, 3) && edges[3] == (2, 4);
  }

  /** Sorting the path graph's edge values 4, 4, 3, 3 stably visits edges 2, 3, 0, 1. */
  lemma PathOrderIsSorted(edgeValues: seq<int>, ord: seq<nat>)
    requires edgeValues == [4, 4, 3, 3] && ord == [2, 3, 0, 1]
    ensures EdgeOrder(edgeValues, Sublevel) == ord
  {
    assert forall i :: 0 <= i < 4 ==> i in ord by {
      assert ord[0] == 2 && ord[1] == 3 && ord[2] == 0 && ord[3] == 1;
    }
    StableArgsortUnique(SortKeys(Sublevel, edgeValues), FiltrationOrder(Sublevel, edgeValues), ord);
  }

  /** A merging edge advances the sweep by one merge pair. */
  lemma MergeStep(vertexValues: seq<int>, edges: seq<Edge>, edgeValues: seq<int>, ord: seq<nat>, k: nat, s: Sweep, from: nat, to: nat, t: Sweep)
    requires IsGraph(vertexValues, edges, edgeValues) && NamesEdges(edges, ord) && k < |ord|
    requires SweepPrefix(vertexValues, edges, edgeValues, ord, k) == s
    requires s.comp[edges[ord[k]].0] != s.comp[edges[ord[k]].1]
    requires from == if s.comp[edges[ord[k]].0] < s.comp[edges[ord[k]].1] then s.comp[edges[ord[k]].0] else s.comp[edges[ord[k]].1]
    requires to == if s.comp[edges[ord[k]].0] < s.comp[edges[ord[k]].1] then s.comp[edges[ord[k]].1] else s.comp[edges[ord[k]].0]
    requires t == Sweep(Relabel(s.comp, from, to), s.diagram + [(vertexValues[from], edgeValues[ord[k]])], s.cycles)
    ensures SweepPrefix(vertexValues, edges, edgeValues, ord, k + 1) == t
  {
    SweepPrefixStep(vertexValues, edges, edgeValues, ord, k);
  }

  /** The first edge of the path graph's sweep, edge 2-3 of value 3. */
  lemma PathSweepFirst(vertexValues: seq<int>, edges: seq<Edge>, edgeValues: seq<int>, ord: seq<nat>)
    requires IsPathGraph(vertexValues, edges, edgeValues) && ord == [2, 3, 0, 1]
    ensures SweepPrefix(vertexValues, edges, edgeValues, ord, 1) == Sweep([0, 1, 3, 3, 4], [(3, 3)], [])
  {
    PathIsGraph(vertexValues, edges, edgeValues);
    var s0 := Sweep([0, 1, 2, 3, 4], [], []);
    assert SweepPrefix(vertexValues, edges, edgeValues, ord, 0) == s0;
    var s1 := Sweep([0, 1, 3, 3, 4], [(3, 3)], []);
    assert Relabel(s0.comp, 2, 3) == s1.comp;
    MergeStep(vertexValues, edges, edgeValues, ord, 0, s0, 2, 3, s1);
  }

  /** The first two edges of the path graph's sweep, both of value 3: two merges. */
  lemma PathSweepHalf(vertexValues: seq<int>, edges: seq<Edge>, edgeValues: seq<int>, ord: seq<nat>)
    requires IsPathGraph(vertexValues, edges, edgeValues) && ord == [2, 3, 0, 1]
    ensures SweepPrefix(vertexValues, edges, edgeValues, ord, 2) == Sweep([0, 1, 4, 4, 4], [(3, 3), (2, 3)], [])
  {
    PathIsGraph(vertexValues, edges, edgeValues);
    PathSweepFirst(vertexValues, edges, edgeValues, ord);
    var s1 := Sweep([0, 1, 3, 3, 4], [(3, 3)], []);
    var s2 := Sweep([0, 1, 4, 4, 4], [(3, 3), (2, 3)], []);
    assert Relabel(s1.comp, 3, 4) == s2.comp;
    MergeStep(vertexValues, edges, edgeValues, ord, 1, s1, 3, 4, s2);
  }

  /** The sweep of the path graph: four merges and no cycle. */
  lemma PathSweep(vertexValues: seq<int>, edges: seq<Edge>, edgeValues: seq<int>, ord: seq<nat>)
    requires IsPathGraph(vertexValues, edges, edgeValues) && ord == [2, 3, 0, 1]
    ensures SweepPrefix(vertexValues, edges, edgeValues, ord, 4) ==
            Sweep([4, 4, 4, 4, 4], [(3, 3), (2, 3), (1, 4), (4, 4)], [])
  {
    PathIsGraph(vertexValues, edges, edgeValues);
    PathSweepHalf(vertexValues, edges, edgeValues, ord);
    var s2 := Sweep([0, 1, 4, 4, 4], [(3, 3), (2, 3)], []);
    var s3 := Sweep([1, 1, 4, 4, 4], [(3, 3), (2, 3), (1, 4)], []);
    assert Relabel(s2.comp, 0, 1) == s3.comp;
    MergeStep(vertexValues, edges, edgeValues, ord, 2, s2, 0, 1, s3);
    var s4 := Sweep([4, 4, 4, 4, 4], [(3, 3), (2, 3), (1, 4), (4, 4)], []);
    assert Relabel(s3.comp, 1, 4) == s4.comp;
    MergeStep(vertexValues, edges, edgeValues, ord, 3, s3, 1, 4, s4);
  }

  /** With the edge order known, the full sweep is the sweep over all of it. */
  lemma FullSweepOver(vertexValues: seq<int>, edges: seq<Edge>, edgeValues: seq<int>, order: Order, ord: seq<nat>)
    requires IsGraph(vertexValues, edges, edgeValues) && EdgeOrder(edgeValues, order) == ord
    ensures NamesEdges(edges, ord)
    ensures FullSweep(vertexValues, edges, edgeValues, order) == SweepPrefix(vertexValues, edges, edgeValues, ord, |ord|)
  {
  }

  /** The full sublevel sweep of the path graph, and its unpaired value 4. */
  lemma PathFullSweep(vertexValues: seq<int>, edges: seq<Edge>, edgeValues: seq<int>)
    requires IsPathGraph(vertexValues, edges, edgeValues)
    ensures IsGraph(vertexValues, edges, edgeValues)
    ensures FullSweep(vertexValues, edges, edgeValues, Sublevel) == Sweep([4, 4, 4, 4, 4], [(3, 3), (2, 3), (1, 4), (4, 4)], [])
    ensures UnpairedValue(edgeValues, Sublevel) == 4
  {
    var ord: seq<nat> := [2, 3, 0, 1];
    PathOrderIsSorted(edgeValues, ord);
    assert |ord| == 4;
    PathSweep(vertexValues, edges, edgeValues, ord);
    PathIsGraph(vertexValues, edges, edgeValues);
    FullSweepOver(vertexValues, edges, edgeValues, Sublevel, ord);
  }

  /** Of the labels the path graph's sweep ends with, only vertex 4 is a root. */
  lemma PathRoots(comp: seq<nat>)
    requires comp == [4, 4, 4, 4, 4]
    ensures RootsBelow(comp, 5) == [4]
  {
    assert RootsBelow(comp, 4) == [] by {
      assert RootsBelow(comp, 3) == [] by {
        assert RootsBelow(comp, 2) == [] by {
          assert RootsBelow(comp, 1) == [];
        }
      }
    }
  }

  /** The diagrams of the path graph under a sublevel filtration: the four merges,
      then the one surviving component, and no cycle. */
  lemma PathGraphExample(vertexValues: seq<int>, edges: seq<Edge>, edgeValues: seq<int>)
    requires IsPathGraph(vertexValues, edges, edgeValues)
    ensures Diagrams(vertexValues, edges, edgeValues, Sublevel) ==
            ([(3, 3), (2, 3), (1, 4), (4, 4), (1, 4)], [])
  {
    PathFullSweep(vertexValues, edges, edgeValues);
    var s := Sweep([4, 4, 4, 4, 4], [(3, 3), (2, 3), (1, 4), (4, 4)], []);
    PathRoots(s.comp);
    DiagramsFromSweep(vertexValues, edges, edgeValues, Sublevel, s, 4);
    PathPairing(vertexValues);
    assert s.diagram + [(1, 4)] == [(3, 3), (2, 3), (1, 4), (4, 4), (1, 4)];
    assert Pairing(edgeValues, s.cycles, 4) == [];
  }

  /** The surviving component of the path graph, root 4, starts at value 1. */
  lemma PathPairing(vertexValues: seq<int>)
    requires vertexValues == [1, 4, 3, 2, 1]
    ensures Pairing(vertexValues, [4], 4) == [(1, 4)]
  {
    var tail := Pairing(vertexValues, [4], 4);
    assert |tail| == 1 && tail[0] == (vertexValues[4], 4);
  }

}
