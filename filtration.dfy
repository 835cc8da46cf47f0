/** The filtration order shared by both persistence engines: which way values are
    sorted and which comparison (`operator.lt` or `operator.gt`) decides precedence. */
module Filtration {
  import opened Wrappers
  import opened Sorting

  datatype Order = Sublevel | Superlevel

  /** The `assert order in ['sublevel', 'superlevel']` both engines begin with: any
      other name fails the assertion, shown here as `None`. */
  function ParseOrder(name: string): (r: Option<Order>)
    ensures r == Some(Sublevel) <==> name == "sublevel"
    ensures r == Some(Superlevel) <==> name == "superlevel"
    ensures r.None? <==> name != "sublevel" && name != "superlevel"
  {
    if name == "sublevel" then Some(Sublevel)
    else if name == "superlevel" then Some(Superlevel)
    else None
  }

  /** What `np.argsort` is given: the values themselves, or their negations for a
      superlevel filtration. */
  function SortKeys(order: Order, values: seq<int>): (keys: seq<int>)
    ensures |keys| == |values|
  {
    if order == Sublevel then values else Negate(values)
  }

  /** The order in which the engines visit values: `np.argsort(keys, kind='stable')`. */
  function FiltrationOrder(order: Order, values: seq<int>): (ord: seq<nat>)
    ensures IsStableArgsort(SortKeys(order, values), ord)
  {
    StableArgsort(SortKeys(order, values))
  }

  /** `operator.lt` for a sublevel filtration, `operator.gt` for a superlevel one. */
  predicate Precedes(order: Order, a: int, b: int)
  {
    if order == Sublevel then a < b else a > b
  }

  /** The filtration order visits every index once; a later value never strictly
      precedes an earlier one, and equal values keep their index order. */
  lemma FiltrationOrderVisits(order: Order, values: seq<int>)
    ensures var ord := FiltrationOrder(order, values);
            |ord| == |values| &&
            (forall i :: 0 <= i < |values| ==> i in ord) &&
            (forall p :: 0 <= p < |ord| ==> ord[p] < |values|) &&
            (forall p, q :: 0 <= p < q < |ord| ==>
               !Precedes(order, values[ord[q]], values[ord[p]]) &&
               (values[ord[p]] == values[ord[q]] ==> ord[p] < ord[q]))
  {
    var ord := FiltrationOrder(order, values);
    var keys := SortKeys(order, values);
    forall p, q | 0 <= p < q < |ord|
      ensures !Precedes(order, values[ord[q]], values[ord[p]])
      ensures values[ord[p]] == values[ord[q]] ==> ord[p] < ord[q]
    {
      assert StablyBefore(keys, ord[p], ord[q]);
    }
  }

  /** A value that strictly precedes another is visited first. */
  lemma PrecedesVisitedFirst(order: Order, values: seq<int>, p: nat, q: nat)
    requires var ord := FiltrationOrder(order, values); p < |ord| && q < |ord|
    requires var ord := FiltrationOrder(order, values); Precedes(order, values[ord[p]], values[ord[q]])
    ensures p < q
  {
    FiltrationOrderVisits(order, values);
  }

  /** Negating every value swaps the two filtrations: sorting `-values` for a
      superlevel filtration visits indices exactly as sorting `values` for a sublevel
      one, and `>` on negations is `<` on the originals. */
  lemma OrderDuality(values: seq<int>)
    ensures FiltrationOrder(Superlevel, Negate(values)) == FiltrationOrder(Sublevel, values)
    ensures FiltrationOrder(Sublevel, Negate(values)) == FiltrationOrder(Superlevel, values)
    ensures forall a: int, b: int :: Precedes(Superlevel, -a, -b) == Precedes(Sublevel, a, b)
    ensures forall a: int, b: int :: Precedes(Sublevel, -a, -b) == Precedes(Superlevel, a, b)
  {
    assert Negate(Negate(values)) == values;
  }
}
