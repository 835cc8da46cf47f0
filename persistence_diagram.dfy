/** The persistence diagram container of `pyper/representations/persistence_diagram.py`:
    an append-only list of `(creation, destruction)` pairs. */
module PersistenceDiagrams {

  type Pair = (int, int)

  /** The component-wise negation of a list of pairs. */
  function NegatePairs(pairs: seq<Pair>): (r: seq<Pair>)
    ensures |r| == |pairs| && forall j :: 0 <= j < |pairs| ==> r[j] == (-pairs[j].0, -pairs[j].1)
  {
    seq(|pairs|, j requires 0 <= j < |pairs| => (-pairs[j].0, -pairs[j].1))
  }

  class PersistenceDiagram {
    var pairs: seq<Pair>

    /** `PersistenceDiagram()`: an empty diagram. */
    constructor ()
      ensures pairs == []
    {
      pairs := [];
    }

    /** `len(d)`: the number of pairs added so far. */
    function Length(): (n: nat)
      reads this
      ensures n == |pairs|
    {
      |pairs|
    }

    /** `d[index]`: the pair added at position `index`; a negative index counts
        from the end, as for any Python list. */
    function Get(index: int): (p: Pair)
      reads this
      requires -|pairs| <= index < |pairs|
      ensures index >= 0 ==> p == pairs[index]
      ensures index < 0 ==> p == pairs[|pairs| + index]
    {
      if index >= 0 then pairs[index] else pairs[|pairs| + index]
    }

    /** `add(x, y)`: appends `(x, y)` without checking `x <= y`. */
    method Add(x: int, y: int)
      modifies this
      ensures pairs == old(pairs) + [(x, y)]
    {
      pairs := pairs + [(x, y)];
    }

    /** `union(other)`: appends the pairs of `other`, in order, and returns this
        diagram. A diagram may be united with itself only while it is empty: the
        iteration then stops at once. */
    method Union(other: PersistenceDiagram) returns (r: PersistenceDiagram)
      requires other != this || pairs == []
      modifies this
      ensures r == this
      ensures pairs == old(pairs) + other.pairs
      ensures other.pairs == old(other.pairs)
    {
      var i := 0;
      while i < |other.pairs|
        invariant i <= |other.pairs|
        invariant pairs == old(pairs) + other.pairs[..i]
        invariant other != this || pairs == []
      {
        var (x, y) := other.pairs[i];
        Add(x, y);
        i := i + 1;
      }
      r := this;
    }
  }
}
