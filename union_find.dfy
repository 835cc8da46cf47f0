/** The directional Union--Find structure of `pyper/utilities.py`: a `_parent` list
    rewritten in place by a recursive, path-compressing `find` and by an asymmetric
    `merge(u, v)` that hangs `u`'s root under `v`'s root.

    The link structure is specified by pure functions over the parent list.
    Termination of the recursive `find` uses a ghost rank that strictly increases
    along every parent link and is bounded by a ghost `bound`. */
module UnionFind {

  /** The parent list is a forest: every link stays in range, every rank is at most
      `bound`, and following a link away from a non-root strictly raises the rank. */
  ghost predicate IsForest(parent: seq<nat>, rank: seq<nat>, bound: nat)
  {
    |rank| == |parent| &&
    (forall i :: 0 <= i < |parent| ==> parent[i] < |parent|) &&
    (forall i :: 0 <= i < |rank| ==> rank[i] <= bound) &&
    (forall i :: 0 <= i < |parent| && parent[i] != i ==> rank[i] < rank[parent[i]])
  }

  /** The fixed point reached by following parent links from `u`. */
  ghost function RootOf(parent: seq<nat>, rank: seq<nat>, bound: nat, u: nat): (r: nat)
    requires IsForest(parent, rank, bound) && u < |parent|
    ensures r < |parent| && parent[r] == r
    ensures u != r ==> rank[u] < rank[r]
    decreases bound - rank[u]
  {
    if parent[u] == u then u else RootOf(parent, rank, bound, parent[u])
  }

  /** The vertices visited from `u` up to and including its root. */
  ghost function PathOf(parent: seq<nat>, rank: seq<nat>, bound: nat, u: nat): (path: set<nat>)
    requires IsForest(parent, rank, bound) && u < |parent|
    ensures u in path && RootOf(parent, rank, bound, u) in path
    ensures forall i :: i in path ==> i < |parent| && RootOf(parent, rank, bound, i) == RootOf(parent, rank, bound, u)
    decreases bound - rank[u]
  {
    if parent[u] == u then {u} else {u} + PathOf(parent, rank, bound, parent[u])
  }

  /** The parent list after path compression from `u`: every vertex on `u`'s path
      points straight at the root, every other link is unchanged. */
  ghost function Compress(parent: seq<nat>, rank: seq<nat>, bound: nat, u: nat): (c: seq<nat>)
    requires IsForest(parent, rank, bound) && u < |parent|
    ensures |c| == |parent|
  {
    var path, root := PathOf(parent, rank, bound, u), RootOf(parent, rank, bound, u);
    seq(|parent|, i requires 0 <= i < |parent| => if i in path then root else parent[i])
  }

  /** Path compression keeps the structure a forest under the same ranks. */
  lemma CompressIsForest(parent: seq<nat>, rank: seq<nat>, bound: nat, u: nat)
    requires IsForest(parent, rank, bound) && u < |parent|
    ensures IsForest(Compress(parent, rank, bound, u), rank, bound)
  {
    var c, path, root := Compress(parent, rank, bound, u), PathOf(parent, rank, bound, u), RootOf(parent, rank, bound, u);
    forall i | 0 <= i < |c| && c[i] != i
      ensures rank[i] < rank[c[i]]
    {
      if i in path {
        assert RootOf(parent, rank, bound, i) == root;
      }
    }
  }

  /** Path compression changes no vertex's root. */
  lemma {:induction false} CompressKeepsRoots(parent: seq<nat>, rank: seq<nat>, bound: nat, u: nat, i: nat)
    requires IsForest(parent, rank, bound) && u < |parent| && i < |parent|
    ensures IsForest(Compress(parent, rank, bound, u), rank, bound)
    ensures RootOf(Compress(parent, rank, bound, u), rank, bound, i) == RootOf(parent, rank, bound, i)
    decreases bound - rank[i]
  {
    CompressIsForest(parent, rank, bound, u);
    var c, path, root := Compress(parent, rank, bound, u), PathOf(parent, rank, bound, u), RootOf(parent, rank, bound, u);
    if i in path {
      assert c[root] == root;
      assert RootOf(parent, rank, bound, i) == root;
      if c[i] != i {
        assert RootOf(c, rank, bound, i) == RootOf(c, rank, bound, root);
      }
    } else if parent[i] != i {
      CompressKeepsRoots(parent, rank, bound, u, parent[i]);
    }
  }

  /** Path compression creates and removes no root. */
  lemma CompressKeepsFixedPoints(parent: seq<nat>, rank: seq<nat>, bound: nat, u: nat)
    requires IsForest(parent, rank, bound) && u < |parent|
    ensures forall i :: 0 <= i < |parent| ==> (Compress(parent, rank, bound, u)[i] == i <==> parent[i] == i)
  {
    var path := PathOf(parent, rank, bound, u);
    forall i | 0 <= i < |parent| && i in path
      ensures (Compress(parent, rank, bound, u)[i] == i <==> parent[i] == i)
    {
      assert RootOf(parent, rank, bound, i) == RootOf(parent, rank, bound, u);
    }
  }

  /** Hanging root `a` under root `b` keeps a forest once `b`'s rank is raised to
      `max(rank[b], rank[a] + 1)`. */
  ghost function LinkedRank(rank: seq<nat>, a: nat, b: nat): seq<nat>
    requires a < |rank| && b < |rank|
  {
    rank[b := if rank[b] < rank[a] + 1 then rank[a] + 1 else rank[b]]
  }

  ghost function LinkedBound(rank: seq<nat>, bound: nat, a: nat): nat
    requires a < |rank|
  {
    if bound < rank[a] + 1 then rank[a] + 1 else bound
  }

  lemma LinkIsForest(parent: seq<nat>, rank: seq<nat>, bound: nat, a: nat, b: nat)
    requires IsForest(parent, rank, bound) && a < |parent| && b < |parent|
    requires parent[a] == a && parent[b] == b && a != b
    ensures IsForest(parent[a := b], LinkedRank(rank, a, b), LinkedBound(rank, bound, a))
  {
  }

  /** After hanging root `a` under root `b`, exactly the vertices whose root was `a`
      change root, and they now reach `b`. */
  lemma {:induction false} LinkRoots(parent: seq<nat>, rank: seq<nat>, bound: nat, a: nat, b: nat, i: nat)
    requires IsForest(parent, rank, bound) && a < |parent| && b < |parent| && i < |parent|
    requires parent[a] == a && parent[b] == b && a != b
    ensures IsForest(parent[a := b], LinkedRank(rank, a, b), LinkedBound(rank, bound, a))
    ensures var r := RootOf(parent, rank, bound, i);
            RootOf(parent[a := b], LinkedRank(rank, a, b), LinkedBound(rank, bound, a), i)
            == if r == a then b else r
    decreases bound - rank[i]
  {
    LinkIsForest(parent, rank, bound, a, b);
    if i != a && parent[i] != i {
      LinkRoots(parent, rank, bound, a, b, parent[i]);
    }
  }

  /** The parent list after `find(v)` and then `find(u)`. */
  ghost function CompressBoth(parent: seq<nat>, rank: seq<nat>, bound: nat, u: nat, v: nat): (c: seq<nat>)
    requires IsForest(parent, rank, bound) && u < |parent| && v < |parent|
    ensures |c| == |parent| && IsForest(c, rank, bound)
  {
    CompressIsForest(parent, rank, bound, v);
    var afterV := Compress(parent, rank, bound, v);
    CompressIsForest(afterV, rank, bound, u);
    Compress(afterV, rank, bound, u)
  }

  /** The two compressions of a merge change no root and no fixed point. */
  lemma CompressBothKeepsRoots(parent: seq<nat>, rank: seq<nat>, bound: nat, u: nat, v: nat)
    requires IsForest(parent, rank, bound) && u < |parent| && v < |parent|
    ensures var c := CompressBoth(parent, rank, bound, u, v);
            (forall i :: 0 <= i < |parent| ==> RootOf(c, rank, bound, i) == RootOf(parent, rank, bound, i)) &&
            (forall i :: 0 <= i < |parent| ==> (c[i] == i <==> parent[i] == i))
  {
    CompressIsForest(parent, rank, bound, v);
    var afterV := Compress(parent, rank, bound, v);
    forall i | 0 <= i < |parent|
      ensures RootOf(CompressBoth(parent, rank, bound, u, v), rank, bound, i) == RootOf(parent, rank, bound, i)
    {
      CompressKeepsRoots(parent, rank, bound, v, i);
      CompressKeepsRoots(afterV, rank, bound, u, i);
    }
    CompressKeepsFixedPoints(parent, rank, bound, v);
    CompressKeepsFixedPoints(afterV, rank, bound, u);
  }

  /** The parent list `merge(u, v)` leaves behind. Python evaluates the right-hand
      side of `_parent[find(u)] = find(v)` first, so `v`'s path is compressed before
      `u`'s. */
  ghost function Merged(parent: seq<nat>, rank: seq<nat>, bound: nat, u: nat, v: nat): (m: seq<nat>)
    requires IsForest(parent, rank, bound) && u < |parent| && v < |parent|
    ensures |m| == |parent|
  {
    if u == v then parent
    else CompressBoth(parent, rank, bound, u, v)[RootOf(parent, rank, bound, u) := RootOf(parent, rank, bound, v)]
  }

  /** Every link leads to an index at least as large. */
  predicate PointsUp(parent: seq<nat>)
  {
    forall i :: 0 <= i < |parent| ==> i <= parent[i]
  }

  /** When every link leads upwards, so does the way to the root. */
  lemma {:induction false} RootIsAbove(parent: seq<nat>, rank: seq<nat>, bound: nat, u: nat)
    requires IsForest(parent, rank, bound) && u < |parent| && PointsUp(parent)
    ensures u <= RootOf(parent, rank, bound, u)
    decreases bound - rank[u]
  {
    if parent[u] != u {
      RootIsAbove(parent, rank, bound, parent[u]);
    }
  }

  /** Path compression keeps every link leading upwards. */
  lemma CompressPointsUp(parent: seq<nat>, rank: seq<nat>, bound: nat, u: nat)
    requires IsForest(parent, rank, bound) && u < |parent| && PointsUp(parent)
    ensures PointsUp(Compress(parent, rank, bound, u))
  {
    forall i | i in PathOf(parent, rank, bound, u)
      ensures i <= RootOf(parent, rank, bound, u)
    {
      RootIsAbove(parent, rank, bound, i);
    }
  }

  /** A merge that hangs the smaller root under the larger keeps every link
      leading upwards. */
  lemma MergedPointsUp(parent: seq<nat>, rank: seq<nat>, bound: nat, u: nat, v: nat)
    requires IsForest(parent, rank, bound) && u < |parent| && v < |parent| && PointsUp(parent)
    requires RootOf(parent, rank, bound, u) <= RootOf(parent, rank, bound, v)
    ensures PointsUp(Merged(parent, rank, bound, u, v))
  {
    if u != v {
      CompressIsForest(parent, rank, bound, v);
      CompressPointsUp(parent, rank, bound, v);
      CompressPointsUp(Compress(parent, rank, bound, v), rank, bound, u);
    }
  }

  /** The ghost ranks after `merge(u, v)`: only a surviving root that receives a
      different root has its rank raised. */
  ghost function MergedRank(parent: seq<nat>, rank: seq<nat>, bound: nat, u: nat, v: nat): seq<nat>
    requires IsForest(parent, rank, bound) && u < |parent| && v < |parent|
  {
    var ru, rv := RootOf(parent, rank, bound, u), RootOf(parent, rank, bound, v);
    if ru == rv then rank else LinkedRank(rank, ru, rv)
  }

  ghost function MergedBound(parent: seq<nat>, rank: seq<nat>, bound: nat, u: nat, v: nat): nat
    requires IsForest(parent, rank, bound) && u < |parent| && v < |parent|
  {
    var ru, rv := RootOf(parent, rank, bound, u), RootOf(parent, rank, bound, v);
    if ru == rv then bound else LinkedBound(rank, bound, ru)
  }

  /** `merge(u, v)` keeps a forest, and every vertex whose root was `u`'s now has
      `v`'s root while every other vertex keeps its root. */
  lemma MergedRoots(parent: seq<nat>, rank: seq<nat>, bound: nat, u: nat, v: nat)
    requires IsForest(parent, rank, bound) && u < |parent| && v < |parent|
    ensures var m, mr, mb := Merged(parent, rank, bound, u, v), MergedRank(parent, rank, bound, u, v), MergedBound(parent, rank, bound, u, v);
            IsForest(m, mr, mb) &&
            forall i :: 0 <= i < |parent| ==>
              RootOf(m, mr, mb, i) ==
                if RootOf(parent, rank, bound, i) == RootOf(parent, rank, bound, u)
                then RootOf(parent, rank, bound, v) else RootOf(parent, rank, bound, i)
  {
    var ru, rv := RootOf(parent, rank, bound, u), RootOf(parent, rank, bound, v);
    if u != v {
      var c := CompressBoth(parent, rank, bound, u, v);
      CompressBothKeepsRoots(parent, rank, bound, u, v);
      assert c[ru] == ru && c[rv] == rv;
      if ru != rv {
        LinkIsForest(c, rank, bound, ru, rv);
        forall i | 0 <= i < |parent|
          ensures RootOf(c[ru := rv], LinkedRank(rank, ru, rv), LinkedBound(rank, bound, ru), i)
                  == if RootOf(c, rank, bound, i) == ru then rv else RootOf(c, rank, bound, i)
        {
          LinkRoots(c, rank, bound, ru, rv, i);
        }
      } else {
        assert c[ru := rv] == c;
      }
    }
  }

  /** In terms of labels, `merge(u, v)` renames `u`'s component to `v`'s root. */
  lemma MergedLabels(parent: seq<nat>, rank: seq<nat>, bound: nat, u: nat, v: nat)
    requires IsForest(parent, rank, bound) && u < |parent| && v < |parent|
    ensures var m, mr, mb := Merged(parent, rank, bound, u, v), MergedRank(parent, rank, bound, u, v), MergedBound(parent, rank, bound, u, v);
            IsForest(m, mr, mb) &&
            LabelsOf(m, mr, mb) == Relabel(LabelsOf(parent, rank, bound), RootOf(parent, rank, bound, u), RootOf(parent, rank, bound, v))
  {
    var m, mr, mb := Merged(parent, rank, bound, u, v), MergedRank(parent, rank, bound, u, v), MergedBound(parent, rank, bound, u, v);
    MergedRoots(parent, rank, bound, u, v);
    var c, l := LabelsOf(m, mr, mb), LabelsOf(parent, rank, bound);
    forall i | 0 <= i < |parent|
      ensures c[i] == Relabel(l, RootOf(parent, rank, bound, u), RootOf(parent, rank, bound, v))[i]
    {
      assert c[i] == RootOf(m, mr, mb, i) && l[i] == RootOf(parent, rank, bound, i);
    }
  }

  /** A merge of two components removes exactly one root; a merge inside one
      component changes no root. */
  lemma MergedRootCount(parent: seq<nat>, rank: seq<nat>, bound: nat, u: nat, v: nat)
    requires IsForest(parent, rank, bound) && u < |parent| && v < |parent|
    ensures var m := Merged(parent, rank, bound, u, v);
            (RootOf(parent, rank, bound, u) != RootOf(parent, rank, bound, v) ==>
               |RootsBelow(m, |m|)| == |RootsBelow(parent, |parent|)| - 1) &&
            (RootOf(parent, rank, bound, u) == RootOf(parent, rank, bound, v) ==>
               RootsBelow(m, |m|) == RootsBelow(parent, |parent|))
  {
    var ru, rv := RootOf(parent, rank, bound, u), RootOf(parent, rank, bound, v);
    if u != v {
      var c := CompressBoth(parent, rank, bound, u, v);
      CompressBothKeepsRoots(parent, rank, bound, u, v);
      SameFixedPointsSameRoots(parent, c, |parent|);
      if ru != rv {
        LinkDropsOneRoot(c, ru, rv, |c|);
      } else {
        assert c[ru := rv] == c;
      }
    }
  }

  /** The component labelling a forest represents: every vertex labelled by its root. */
  ghost function LabelsOf(parent: seq<nat>, rank: seq<nat>, bound: nat): (c: seq<nat>)
    requires IsForest(parent, rank, bound)
    ensures |c| == |parent| && IsLabelling(c)
    ensures forall i {:trigger c[i]} :: 0 <= i < |parent| ==> c[i] == RootOf(parent, rank, bound, i)
  {
    seq(|parent|, i requires 0 <= i < |parent| => RootOf(parent, rank, bound, i))
  }

  /** A vertex labels itself exactly when it is a root, so a forest and its labelling
      have the same roots. */
  lemma LabelsHaveSameRoots(parent: seq<nat>, rank: seq<nat>, bound: nat)
    requires IsForest(parent, rank, bound)
    ensures RootsBelow(LabelsOf(parent, rank, bound), |parent|) == RootsBelow(parent, |parent|)
  {
    var c := LabelsOf(parent, rank, bound);
    forall i | 0 <= i < |parent|
      ensures c[i] == i <==> parent[i] == i
    {
      assert c[i] == RootOf(parent, rank, bound, i);
    }
    SameFixedPointsSameRoots(c, parent, |parent|);
  }

  /** The identity parent list a new structure starts with. */
  function Identity(n: nat): (p: seq<nat>)
    ensures |p| == n && forall i :: 0 <= i < n ==> p[i] == i
  {
    seq(n, i requires 0 <= i < n => i)
  }

  /** The roots among the vertices `0..k-1`, in ascending order. */
  function RootsBelow(parent: seq<nat>, k: nat): (roots: seq<nat>)
    requires k <= |parent|
    ensures forall x: nat {:trigger x in roots} :: x in roots <==> x < k && parent[x] == x
    ensures forall a, b :: 0 <= a < b < |roots| ==> roots[a] < roots[b]
    ensures forall a :: 0 <= a < |roots| ==> roots[a] < k
  {
    if k == 0 then []
    else RootsBelow(parent, k - 1) + (if parent[k - 1] == k - 1 then [k - 1] else [])
  }

  /** Two parent lists with the same fixed points have the same roots. */
  lemma {:induction false} SameFixedPointsSameRoots(p: seq<nat>, q: seq<nat>, k: nat)
    requires k <= |p| && k <= |q|
    requires forall i :: 0 <= i < k ==> (p[i] == i <==> q[i] == i)
    ensures RootsBelow(p, k) == RootsBelow(q, k)
  {
    if k > 0 {
      SameFixedPointsSameRoots(p, q, k - 1);
    }
  }

  /** A fresh structure's roots are `0, 1, ..., n-1` in that order. */
  lemma {:induction false} InitialRoots(n: nat, k: nat)
    requires k <= n
    ensures RootsBelow(Identity(n), k) == Identity(k)
  {
    if k > 0 {
      InitialRoots(n, k - 1);
      assert Identity(n)[k - 1] == k - 1;
      assert RootsBelow(Identity(n), k) == RootsBelow(Identity(n), k - 1) + [k - 1];
      assert Identity(k) == Identity(k - 1) + [k - 1];
    }
  }

  /** Hanging a root under another root removes exactly that one root. */
  lemma {:induction false} LinkDropsOneRoot(parent: seq<nat>, a: nat, b: nat, k: nat)
    requires a < |parent| && b < |parent| && k <= |parent|
    requires parent[a] == a && a != b
    ensures |RootsBelow(parent[a := b], k)| == |RootsBelow(parent, k)| - (if a < k then 1 else 0)
  {
    if k > 0 {
      LinkDropsOneRoot(parent, a, b, k - 1);
    }
  }

  /** A flat labelling of components: `comp[i]` names the component of `i` by a
      representative that labels itself. It is the reference the engines' sweeps are
      stated in, and the forest is shown to agree with it. */
  predicate IsLabelling(comp: seq<nat>)
  {
    (forall i :: 0 <= i < |comp| ==> comp[i] < |comp|) &&
    (forall i {:trigger comp[comp[i]]} :: 0 <= i < |comp| ==> comp[comp[i]] == comp[i])
  }

  /** Renames component `from` to `to` (quick-find union). */
  function Relabel(comp: seq<nat>, from: nat, to: nat): (c: seq<nat>)
    ensures |c| == |comp|
    ensures forall i {:trigger c[i]} :: 0 <= i < |comp| ==> c[i] == if comp[i] == from then to else comp[i]
  {
    seq(|comp|, i requires 0 <= i < |comp| => if comp[i] == from then to else comp[i])
  }

  /** Renaming any label as a representative keeps a labelling. */
  lemma RelabelKeepsLabelling(comp: seq<nat>, from: nat, to: nat)
    requires IsLabelling(comp) && to < |comp| && comp[to] == to
    ensures IsLabelling(Relabel(comp, from, to))
  {
    var c := Relabel(comp, from, to);
    forall i | 0 <= i < |c|
      ensures c[c[i]] == c[i]
    {
      if comp[i] != from {
        assert comp[comp[i]] == comp[i];
      }
    }
  }

  /** Renaming one label as another keeps a labelling, and removes exactly one
      self-labelled representative. */
  lemma RelabelDropsOneLabel(comp: seq<nat>, from: nat, to: nat)
    requires IsLabelling(comp) && from < |comp| && to < |comp|
    requires comp[from] == from && comp[to] == to && from != to
    ensures IsLabelling(Relabel(comp, from, to))
    ensures |RootsBelow(Relabel(comp, from, to), |comp|)| == |RootsBelow(comp, |comp|)| - 1
  {
    var c := Relabel(comp, from, to);
    forall i | 0 <= i < |comp|
      ensures c[i] == i <==> comp[from := to][i] == i
    {
    }
    SameFixedPointsSameRoots(c, comp[from := to], |comp|);
    LinkDropsOneRoot(comp, from, to, |comp|);
  }

  /** The forest as a mutable object. */
  class UnionFind {
    var parent: seq<nat>
    ghost var rank: seq<nat>
    ghost var bound: nat

    ghost predicate Valid()
      reads this
    {
      IsForest(parent, rank, bound)
    }

    /** The component of `u`, named by its root. */
    ghost function Root(u: nat): (r: nat)
      reads this
      requires Valid() && u < |parent|
      ensures r < |parent| && parent[r] == r
    {
      RootOf(parent, rank, bound, u)
    }

    /** `UnionFind(n_vertices)`: every vertex its own parent. */
    constructor (n: nat)
      ensures Valid() && parent == Identity(n) && PointsUp(parent)
      ensures LabelsOf(parent, rank, bound) == Identity(n)
    {
      parent := Identity(n);
      rank := seq(n, i => 0);
      bound := 0;
    }

    /** `find(u)`: returns `u`'s root and compresses `u`'s path. */
    method Find(u: nat) returns (r: nat)
      requires Valid() && u < |parent|
      modifies this`parent
      ensures Valid()
      ensures r == RootOf(old(parent), rank, bound, u) && parent[r] == r
      ensures RootOf(parent, rank, bound, r) == r
      ensures parent == Compress(old(parent), rank, bound, u)
      ensures LabelsOf(parent, rank, bound) == LabelsOf(old(parent), rank, bound)
      ensures PointsUp(old(parent)) ==> PointsUp(parent)
      decreases bound - rank[u]
    {
      ghost var before := parent;
      if parent[u] == u {
        r := u;
        assert parent == Compress(before, rank, bound, u);
      } else {
        r := Find(parent[u]);
        parent := parent[u := r];
        assert parent == Compress(before, rank, bound, u);
      }
      CompressIsForest(before, rank, bound, u);
      if PointsUp(before) {
        CompressPointsUp(before, rank, bound, u);
      }
      forall i | 0 <= i < |parent|
        ensures LabelsOf(parent, rank, bound)[i] == LabelsOf(before, rank, bound)[i]
      {
        CompressKeepsRoots(before, rank, bound, u, i);
      }
    }

    /** `merge(u, v)`: `u`'s component joins `v`'s, and `v`'s root survives. */
    method Merge(u: nat, v: nat)
      requires Valid() && u < |parent| && v < |parent|
      modifies this
      ensures Valid() && |parent| == old(|parent|)
      ensures parent == Merged(old(parent), old(rank), old(bound), u, v)
      ensures LabelsOf(parent, rank, bound) == Relabel(old(LabelsOf(parent, rank, bound)), old(Root(u)), old(Root(v)))
      ensures old(Root(u)) != old(Root(v)) ==>
                |RootsBelow(parent, |parent|)| == |old(RootsBelow(parent, |parent|))| - 1
      ensures old(Root(u)) == old(Root(v)) ==>
                RootsBelow(parent, |parent|) == old(RootsBelow(parent, |parent|))
      ensures old(PointsUp(parent)) && old(Root(u)) <= old(Root(v)) ==> PointsUp(parent)
    {
      ghost var p0, rank0, bound0 := parent, rank, bound;
      if u != v {
        var rv := Find(v);
        ghost var p1 := parent;
        var ru := Find(u);
        assert ru == RootOf(p0, rank, bound, u) by {
          assert LabelsOf(p1, rank, bound)[u] == LabelsOf(p0, rank, bound)[u];
        }
        parent := parent[ru := rv];
        assert parent == Merged(p0, rank0, bound0, u, v);
      }
      rank := MergedRank(p0, rank0, bound0, u, v);
      bound := MergedBound(p0, rank0, bound0, u, v);
      MergedLabels(p0, rank0, bound0, u, v);
      MergedRootCount(p0, rank0, bound0, u, v);
      if PointsUp(p0) && RootOf(p0, rank0, bound0, u) <= RootOf(p0, rank0, bound0, v) {
        MergedPointsUp(p0, rank0, bound0, u, v);
      }
    }

    /** `roots()`: the vertices that are their own parent, in ascending order. */
    method Roots() returns (roots: seq<nat>)
      ensures roots == RootsBelow(parent, |parent|)
      ensures forall x: nat :: x in roots <==> x < |parent| && parent[x] == x
      ensures forall a, b :: 0 <= a < b < |roots| ==> roots[a] < roots[b]
    {
      roots := [];
      var vertex := 0;
      while vertex < |parent|
        invariant vertex <= |parent|
        invariant roots == RootsBelow(parent, vertex)
      {
        if parent[vertex] == vertex {
          roots := roots + [vertex];
        }
        vertex := vertex + 1;
      }
    }
  }
}
