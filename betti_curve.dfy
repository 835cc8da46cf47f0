/** `make_betti_curve` of `pyper/representations/betti_curve.py`: the number of
    active features of a persistence diagram as a step function of the threshold,
    given as samples. `np.nextafter(t, t - 1)`, the largest float below `t`, is the
    parameter `pred`. */
module BettiCurves {
  import opened Sorting
  import opened PersistenceDiagrams

  /** A potential event point: a threshold, and whether a feature is created
      (`True`) or destroyed there. */
  datatype Event = Event(threshold: int, isGenerator: bool)

  /** A sample of the curve: a threshold and a number of active features. */
  type Sample = (int, int)

  /** What `make_betti_curve` gives: `None` for an empty diagram, the `IndexError`
      raised at `output_[-1]` when every event has the same threshold, or the
      samples of the curve. */
  datatype BettiOutcome = NoEvents | Raises | Curve(samples: seq<Sample>)

  // ------------------------------------------------------- reference curve

  /** The creation event, then the destruction event, of every pair in order. */
  function Events(pairs: seq<Pair>): (e: seq<Event>)
    ensures |e| == 2 * |pairs|
    ensures forall i :: 0 <= i < |pairs| ==>
              e[2 * i] == Event(pairs[i].0, true) && e[2 * i + 1] == Event(pairs[i].1, false)
  {
    if pairs == [] then []
    else Events(pairs[..|pairs| - 1]) + [Event(pairs[|pairs| - 1].0, true), Event(pairs[|pairs| - 1].1, false)]
  }

  /** The thresholds of a sequence of events. */
  function Thresholds(events: seq<Event>): (ts: seq<int>)
    ensures |ts| == |events| && forall i :: 0 <= i < |events| ==> ts[i] == events[i].threshold
  {
    seq(|events|, i requires 0 <= i < |events| => events[i].threshold)
  }

  /** `sorted(event_points, key=lambda x: x[0])`, Python's stable sort by threshold. */
  function SortByThreshold(events: seq<Event>): (r: seq<Event>)
    ensures |r| == |events|
  {
    Permute(events, StableArgsort(Thresholds(events)))
  }

  /** The events are reordered, not changed: sorted by threshold alone, ties keeping
      their order of appearance. */
  lemma SortByThresholdIsStable(events: seq<Event>)
    ensures var r, ord := SortByThreshold(events), StableArgsort(Thresholds(events));
            multiset(r) == multiset(events) &&
            (forall p, q :: 0 <= p < q < |r| ==> r[p].threshold <= r[q].threshold) &&
            (forall p, q :: 0 <= p < q < |r| && r[p].threshold == r[q].threshold ==> ord[p] < ord[q]) &&
            (forall p :: 0 <= p < |r| ==> r[p] == events[ord[p]])
  {
    var ord := StableArgsort(Thresholds(events));
    StableArgsortPermutes(events, Thresholds(events));
    forall p, q | 0 <= p < q < |ord|
      ensures events[ord[p]].threshold <= events[ord[q]].threshold
      ensures events[ord[p]].threshold == events[ord[q]].threshold ==> ord[p] < ord[q]
    {
      assert StablyBefore(Thresholds(events), ord[p], ord[q]);
    }
  }

  // ------------------------------------------------------- reference curve

  /** +1 for a creation, -1 for a destruction. */
  function Weight(e: Event): int
  {
    if e.isGenerator then 1 else -1
  }

  /** The running count `n_active` after the events `s`. */
  function Balance(s: seq<Event>): int
  {
    if s == [] then 0 else Balance(s[..|s| - 1]) + Weight(s[|s| - 1])
  }

  /** The raw sequence `output`: each event's threshold with the count after it. */
  function RawCounts(s: seq<Event>): (raw: seq<Sample>)
    ensures |raw| == |s|
  {
    if s == [] then [] else RawCounts(s[..|s| - 1]) + [(s[|s| - 1].threshold, Balance(s))]
  }

  /** Entry `i` of the raw sequence is the threshold of event `i` with the running
      count after events `0..i`. */
  lemma {:induction false} RawCountsAt(s: seq<Event>)
    ensures forall i :: 0 <= i < |s| ==> RawCounts(s)[i] == (s[i].threshold, Balance(s[..i + 1]))
  {
    if s != [] {
      var init := s[..|s| - 1];
      RawCountsAt(init);
      forall i | 0 <= i < |s|
        ensures RawCounts(s)[i] == (s[i].threshold, Balance(s[..i + 1]))
      {
        if i < |init| {
          assert init[..i + 1] == s[..i + 1];
        } else {
          assert s[..i + 1] == s;
        }
      }
    }
  }

  /** The net count of the events of `s` whose threshold is at most `t`. */
  function Active(s: seq<Event>, t: int): int
  {
    if s == [] then 0
    else Active(s[..|s| - 1], t) + if s[|s| - 1].threshold <= t then Weight(s[|s| - 1]) else 0
  }

  /** How many pairs are created at or below `t`. */
  function CreatedBy(pairs: seq<Pair>, t: int): nat
  {
    if pairs == [] then 0
    else CreatedBy(pairs[..|pairs| - 1], t) + if pairs[|pairs| - 1].0 <= t then 1 else 0
  }

  /** How many pairs are destroyed at or below `t`. */
  function DestroyedBy(pairs: seq<Pair>, t: int): nat
  {
    if pairs == [] then 0
    else DestroyedBy(pairs[..|pairs| - 1], t) + if pairs[|pairs| - 1].1 <= t then 1 else 0
  }

  lemma {:induction false} ActiveAppend(a: seq<Event>, b: seq<Event>, t: int)
    ensures Active(a + b, t) == Active(a, t) + Active(b, t)
  {
    if b == [] {
      assert a + b == a;
    } else {
      var ab := a + b;
      assert ab[..|ab| - 1] == a + b[..|b| - 1];
      assert ab[|ab| - 1] == b[|b| - 1];
      ActiveAppend(a, b[..|b| - 1], t);
    }
  }

  /** The count at `t` depends on the events only as a multiset. */
  lemma {:induction false} ActivePermutation(a: seq<Event>, b: seq<Event>, t: int)
    requires multiset(a) == multiset(b)
    ensures Active(a, t) == Active(b, t)
  {
    if a != [] {
      var x := a[|a| - 1];
      assert a == a[..|a| - 1] + [x];
      assert x in multiset(b);
      var i :| 0 <= i < |b| && b[i] == x;
      assert b == b[..i] + [x] + b[i + 1..];
      var rest := b[..i] + b[i + 1..];
      assert multiset(a) == multiset(a[..|a| - 1]) + multiset{x};
      assert multiset(b) == multiset(b[..i]) + multiset{x} + multiset(b[i + 1..]);
      assert multiset(a[..|a| - 1]) == multiset(a) - multiset{x};
      assert multiset(rest) == multiset(b) - multiset{x};
      ActivePermutation(a[..|a| - 1], rest, t);
      ActiveAppend(b[..i] + [x], b[i + 1..], t);
      ActiveAppend(b[..i], [x], t);
      ActiveAppend(b[..i], b[i + 1..], t);
    }
  }

  /** Counted over the events of a diagram, the count at `t` is the number of pairs
      created by `t` less the number destroyed by `t`. */
  lemma {:induction false} ActiveOfEvents(pairs: seq<Pair>, t: int)
    ensures Active(Events(pairs), t) == CreatedBy(pairs, t) - DestroyedBy(pairs, t)
  {
    if pairs != [] {
      var init, last := pairs[..|pairs| - 1], pairs[|pairs| - 1];
      var two := [Event(last.0, true), Event(last.1, false)];
      assert Events(pairs) == Events(init) + two;
      ActiveOfEvents(init, t);
      ActiveAppend(Events(init), two, t);
      assert two[..1] == [Event(last.0, true)] && two[..1][..0] == [];
      assert Active(two[..1], t) == if last.0 <= t then 1 else 0;
      assert Active(two, t) == Active(two[..1], t) - (if last.1 <= t then 1 else 0);
    }
  }

  /** When every threshold of `s` is at most `t`, the count at `t` is the running
      count. */
  lemma {:induction false} ActiveOfAll(s: seq<Event>, t: int)
    requires forall i :: 0 <= i < |s| ==> s[i].threshold <= t
    ensures Active(s, t) == Balance(s)
  {
    if s != [] {
      ActiveOfAll(s[..|s| - 1], t);
    }
  }

  /** When every threshold of `s` exceeds `t`, the count at `t` is zero. */
  lemma {:induction false} ActiveOfNone(s: seq<Event>, t: int)
    requires forall i :: 0 <= i < |s| ==> s[i].threshold > t
    ensures Active(s, t) == 0
  {
    if s != [] {
      ActiveOfNone(s[..|s| - 1], t);
    }
  }

  /** Every pair is created and destroyed at or below a threshold bounding them all. */
  lemma {:induction false} AllCreatedAllDestroyed(pairs: seq<Pair>, t: int)
    requires forall i :: 0 <= i < |pairs| ==> pairs[i].0 <= t && pairs[i].1 <= t
    ensures CreatedBy(pairs, t) == |pairs| && DestroyedBy(pairs, t) == |pairs|
  {
    if pairs != [] {
      AllCreatedAllDestroyed(pairs[..|pairs| - 1], t);
    }
  }

  /** A pair created no later than it is destroyed is not destroyed before it is
      created, so no more pairs are destroyed than created by any threshold. */
  lemma {:induction false} DestroyedNoMoreThanCreated(pairs: seq<Pair>, t: int)
    requires forall i :: 0 <= i < |pairs| ==> pairs[i].0 <= pairs[i].1
    ensures DestroyedBy(pairs, t) <= CreatedBy(pairs, t)
  {
    if pairs != [] {
      DestroyedNoMoreThanCreated(pairs[..|pairs| - 1], t);
    }
  }

  // ------------------------------------------------------- reference curve

  /** The state the closure `process_event_points` updates: `prev_p`, `prev_v` and
      `output_`. */
  datatype Builder = Builder(prevP: int, prevV: int, output: seq<Sample>)

  /** One call `process_event_points(p, n_active)`: while the threshold stays the
      same only the count is updated; when it changes, the previous threshold is
      stored with its count, preceded by a synthetic sample just below it carrying
      the last stored count unless nothing was stored yet. */
  function Step(b: Builder, p: int, nActive: int, pred: int -> int): Builder
  {
    if b.prevP == p then b.(prevV := nActive)
    else
      var synthetic := if b.output != [] then [(pred(b.prevP), b.output[|b.output| - 1].1)] else [];
      Builder(p, nActive, b.output + synthetic + [(b.prevP, b.prevV)])
  }

  /** The closure called on each raw sample in turn, from the state `b`. */
  function Run(raw: seq<Sample>, b: Builder, pred: int -> int): Builder
  {
    if raw == [] then b
    else Step(Run(raw[..|raw| - 1], b, pred), raw[|raw| - 1].0, raw[|raw| - 1].1, pred)
  }

  /** The closure, its `nonlocal` variables as fields. */
  class CurveBuilder {
    var prevP: int
    var prevV: int
    var output: seq<Sample>

    /** `prev_p = event_points[0][0]`, `prev_v = 0`, `output_ = []`. */
    constructor (p: int)
      ensures State() == Builder(p, 0, [])
    {
      prevP, prevV, output := p, 0, [];
    }

    function State(): Builder
      reads this
    {
      Builder(prevP, prevV, output)
    }

    /** `process_event_points(p, n_active)`. */
    method Process(p: int, nActive: int, pred: int -> int)
      modifies this
      ensures State() == Step(old(State()), p, nActive, pred)
    {
      if prevP == p {
        prevV := nActive;
      } else {
        if output != [] {
          var oldValue := output[|output| - 1].1;
          var oldPoint := pred(prevP);
          output := output + [(oldPoint, oldValue)];
        }
        output := output + [(prevP, prevV)];
        prevP := p;
        prevV := nActive;
      }
    }
  }

  // ------------------------------------------------------- reference curve

  /** What follows the last call of the closure: `output_[-1]` raises `IndexError`
      when nothing was stored; otherwise the closing call
      `process_event_points(prev_p + 1, prev_v + 1)` is made unless the last stored
      threshold is `prev_p`. */
  function Close(b: Builder, pred: int -> int): BettiOutcome
  {
    if b.output == [] then Raises
    else if b.prevP != b.output[|b.output| - 1].0 then Curve(Step(b, b.prevP + 1, b.prevV + 1, pred).output)
    else Curve(b.output)
  }

  /** `make_betti_curve(diagram)` on the diagram's pairs. */
  function BettiCurve(pairs: seq<Pair>, pred: int -> int): BettiOutcome
  {
    var s := SortByThreshold(Events(pairs));
    if s == [] then NoEvents
    else Close(Run(RawCounts(s), Builder(s[0].threshold, 0, []), pred), pred)
  }

  // ------------------------------------------------------- reference curve

  /** The real samples: of every run of consecutive raw samples sharing a threshold,
      the last one. */
  function Collapse(raw: seq<Sample>): (r: seq<Sample>)
    ensures |r| <= |raw|
    ensures |raw| > 0 ==> |r| > 0 && r[|r| - 1] == raw[|raw| - 1]
  {
    if raw == [] then []
    else
      var init := Collapse(raw[..|raw| - 1]);
      if |raw| >= 2 && raw[|raw| - 2].0 == raw[|raw| - 1].0 then init[..|init| - 1] + [raw[|raw| - 1]]
      else init + [raw[|raw| - 1]]
  }

  /** The real samples with a synthetic sample before every real sample but the
      first: just below the real sample's threshold, with the previous real sample's
      count. */
  function WithSynthetic(reals: seq<Sample>, pred: int -> int): (w: seq<Sample>)
    ensures |reals| > 0 ==> |w| == 2 * |reals| - 1 && w[|w| - 1] == reals[|reals| - 1]
    ensures |reals| == 0 ==> w == []
  {
    if |reals| <= 1 then reals
    else
      var n := |reals|;
      WithSynthetic(reals[..n - 1], pred) + [(pred(reals[n - 1].0), reals[n - 2].1), reals[n - 1]]
  }

  /** Sample `2j` of the curve is real sample `j`. */
  lemma {:induction false} WithSyntheticRealAt(reals: seq<Sample>, pred: int -> int, j: nat)
    requires j < |reals|
    ensures WithSynthetic(reals, pred)[2 * j] == reals[j]
  {
    var n := |reals|;
    if j < n - 1 {
      var init := reals[..n - 1];
      WithSyntheticRealAt(init, pred, j);
      assert WithSynthetic(reals, pred) == WithSynthetic(init, pred) + [(pred(reals[n - 1].0), reals[n - 2].1), reals[n - 1]];
      assert init[j] == reals[j];
    }
  }

  /** Sample `2j - 1` is the synthetic sample before real sample `j`: just below its
      threshold, with the count of real sample `j - 1`. */
  lemma {:induction false} WithSyntheticBeforeAt(reals: seq<Sample>, pred: int -> int, j: nat)
    requires 0 < j < |reals|
    ensures WithSynthetic(reals, pred)[2 * j - 1] == (pred(reals[j].0), reals[j - 1].1)
  {
    var n := |reals|;
    var init := reals[..n - 1];
    assert WithSynthetic(reals, pred) == WithSynthetic(init, pred) + [(pred(reals[n - 1].0), reals[n - 2].1), reals[n - 1]];
    if j < n - 1 {
      WithSyntheticBeforeAt(init, pred, j);
      assert init[j] == reals[j] && init[j - 1] == reals[j - 1];
    }
  }

  /** The curve interleaves the real samples with the synthetic ones: real sample `j`
      at position `2j`, and before it, for `j > 0`, a sample just below its threshold
      with the count of real sample `j - 1`. */
  lemma WithSyntheticInterleaves(reals: seq<Sample>, pred: int -> int)
    ensures forall j :: 0 <= j < |reals| ==> WithSynthetic(reals, pred)[2 * j] == reals[j]
    ensures forall j :: 0 < j < |reals| ==>
              WithSynthetic(reals, pred)[2 * j - 1] == (pred(reals[j].0), reals[j - 1].1)
  {
    forall j | 0 <= j < |reals|
      ensures WithSynthetic(reals, pred)[2 * j] == reals[j]
    {
      WithSyntheticRealAt(reals, pred, j);
    }
    forall j | 0 < j < |reals|
      ensures WithSynthetic(reals, pred)[2 * j - 1] == (pred(reals[j].0), reals[j - 1].1)
    {
      WithSyntheticBeforeAt(reals, pred, j);
    }
  }

  /** The closure's state once it has seen raw samples whose real samples are `r`:
      every real sample but the last is stored, each after the first preceded by its
      synthetic sample, and the last is held in `prev_p` and `prev_v`. */
  predicate Holds(b: Builder, r: seq<Sample>, pred: int -> int)
  {
    r != [] && b.prevP == r[|r| - 1].0 && b.prevV == r[|r| - 1].1 &&
    b.output == WithSynthetic(r[..|r| - 1], pred)
  }

  /** A raw sample at a new threshold stores the held real sample and holds the new
      one. */
  lemma StepNewThreshold(b: Builder, r: seq<Sample>, x: Sample, pred: int -> int)
    requires Holds(b, r, pred) && x.0 != r[|r| - 1].0
    ensures Holds(Step(b, x.0, x.1, pred), r + [x], pred)
  {
    var n := |r|;
    assert (r + [x])[..n] == r;
    if n >= 2 {
      assert r[..n - 1][n - 2] == r[n - 2];
      assert b.output[|b.output| - 1] == r[n - 2];
      assert WithSynthetic(r, pred) == b.output + [(pred(r[n - 1].0), r[n - 2].1), r[n - 1]];
    } else {
      assert r[..n - 1] == [];
    }
  }

  /** A raw sample at the held threshold replaces the held real sample. */
  lemma StepSameThreshold(b: Builder, r: seq<Sample>, x: Sample, pred: int -> int)
    requires Holds(b, r, pred) && x.0 == r[|r| - 1].0
    ensures Holds(Step(b, x.0, x.1, pred), r[..|r| - 1] + [x], pred)
  {
    var r' := r[..|r| - 1] + [x];
    assert r'[..|r'| - 1] == r[..|r| - 1];
  }

  /** The closure, called on every raw sample, holds their real samples. */
  lemma {:induction false} RunCollapses(raw: seq<Sample>, pred: int -> int)
    requires raw != []
    ensures Holds(Run(raw, Builder(raw[0].0, 0, []), pred), Collapse(raw), pred)
  {
    var n := |raw|;
    var start := Builder(raw[0].0, 0, []);
    if n == 1 {
      assert raw[..0] == [];
      assert Run(raw, start, pred) == Step(start, raw[0].0, raw[0].1, pred);
      assert Collapse(raw) == [raw[0]];
    } else {
      var init := raw[..n - 1];
      assert init[0] == raw[0];
      RunCollapses(init, pred);
      var b, r := Run(init, start, pred), Collapse(init);
      assert Run(raw, start, pred) == Step(b, raw[n - 1].0, raw[n - 1].1, pred);
      assert r[|r| - 1] == raw[n - 2];
      if raw[n - 2].0 == raw[n - 1].0 {
        assert Collapse(raw) == r[..|r| - 1] + [raw[n - 1]];
        StepSameThreshold(b, r, raw[n - 1], pred);
      } else {
        assert Collapse(raw) == r + [raw[n - 1]];
        StepNewThreshold(b, r, raw[n - 1], pred);
      }
    }
  }

  /** The samples of the curve for a diagram's pairs. */
  function RealSamples(pairs: seq<Pair>): seq<Sample>
  {
    Collapse(RawCounts(SortByThreshold(Events(pairs))))
  }

  /** The last two of the samples `r` have different thresholds. */
  predicate LastTwoDiffer(r: seq<Sample>)
  {
    |r| >= 2 ==> r[|r| - 2].0 != r[|r| - 1].0
  }

  /** The last two real samples have different thresholds. */
  lemma {:induction false} CollapseLastTwoDiffer(raw: seq<Sample>)
    ensures LastTwoDiffer(Collapse(raw))
  {
    if raw != [] {
      var n := |raw|;
      var init := raw[..n - 1];
      CollapseLastTwoDiffer(init);
      var ri := Collapse(init);
      if init != [] {
        assert ri[|ri| - 1] == raw[n - 2];
        if raw[n - 2].0 == raw[n - 1].0 {
          var r := ri[..|ri| - 1] + [raw[n - 1]];
          assert Collapse(raw) == r;
          if |r| >= 2 {
            assert r[|r| - 2] == ri[|ri| - 2];
          }
        } else {
          assert Collapse(raw) == ri + [raw[n - 1]];
        }
      }
    }
  }

  /** Once the closure holds the real samples `r`: with one real sample nothing was
      stored and `output_[-1]` raises; with more, the last stored sample is real and
      lies below `prev_p`, so the closing call is made and completes the curve. */
  lemma ClosingStep(b: Builder, r: seq<Sample>, pred: int -> int)
    requires Holds(b, r, pred) && LastTwoDiffer(r)
    ensures |r| == 1 ==> Close(b, pred) == Raises
    ensures |r| >= 2 ==> Close(b, pred) == Curve(WithSynthetic(r, pred))
  {
    var n := |r|;
    var q, o := r[..n - 1], b.output;
    if n == 1 {
      assert q == [];
    } else {
      assert q[n - 2] == r[n - 2];
      ClosingCall(b, pred);
      assert WithSynthetic(r, pred) == WithSynthetic(q, pred) + [(pred(r[n - 1].0), r[n - 2].1), r[n - 1]];
    }
  }

  /** When the last stored threshold is not `prev_p`, the closing call stores the
      synthetic sample below `prev_p` and then `prev_p` itself. */
  lemma ClosingCall(b: Builder, pred: int -> int)
    requires b.output != [] && b.prevP != b.output[|b.output| - 1].0
    ensures Close(b, pred) == Curve(b.output + [(pred(b.prevP), b.output[|b.output| - 1].1), (b.prevP, b.prevV)])
  {
  }



  /** The first raw sample has the threshold of the first event. */
  lemma RawCountsFirst(s: seq<Event>)
    requires s != []
    ensures RawCounts(s)[0].0 == s[0].threshold
  {
    RawCountsAt(s);
  }

  /** `make_betti_curve` returns `None` exactly for an empty diagram; raises when
      every event shares one threshold; and otherwise returns the real samples, each
      after the first preceded by its synthetic sample, so `2k - 1` samples for `k`
      real ones. */
  lemma BettiCurveShape(pairs: seq<Pair>, pred: int -> int)
    ensures BettiCurve(pairs, pred) == NoEvents <==> pairs == []
    ensures pairs != [] && |RealSamples(pairs)| == 1 ==> BettiCurve(pairs, pred) == Raises
    ensures |RealSamples(pairs)| >= 2 ==> BettiCurve(pairs, pred) == Curve(WithSynthetic(RealSamples(pairs), pred))
    ensures |RealSamples(pairs)| >= 2 ==> |WithSynthetic(RealSamples(pairs), pred)| == 2 * |RealSamples(pairs)| - 1
  {
    var s := SortByThreshold(Events(pairs));
    if s != [] {
      var raw := RawCounts(s);
      RawCountsFirst(s);
      RunCollapses(raw, pred);
      CollapseLastTwoDiffer(raw);
      ClosingStep(Run(raw, Builder(raw[0].0, 0, []), pred), Collapse(raw), pred);
    }
  }

  /** The thresholds of the samples `r`. */
  function Points(r: seq<Sample>): set<int>
  {
    set j | 0 <= j < |r| :: r[j].0
  }

  /** The thresholds of the events `s`. */
  function EventThresholds(s: seq<Event>): set<int>
  {
    set k | 0 <= k < |s| :: s[k].threshold
  }

  /** The creation values of the pairs. */
  function Births(pairs: seq<Pair>): set<int>
  {
    set i | 0 <= i < |pairs| :: pairs[i].0
  }

  /** The destruction values of the pairs. */
  function Deaths(pairs: seq<Pair>): set<int>
  {
    set i | 0 <= i < |pairs| :: pairs[i].1
  }

  /** Every value of the pairs. */
  function Values(pairs: seq<Pair>): set<int>
  {
    Births(pairs) + Deaths(pairs)
  }

  /** Samples whose thresholds never decrease. */
  predicate Nondecreasing(raw: seq<Sample>)
  {
    forall p, q :: 0 <= p < q < |raw| ==> raw[p].0 <= raw[q].0
  }

  /** Every real sample is a raw sample. */
  lemma {:induction false} CollapseKeepsSamples(raw: seq<Sample>)
    ensures forall j :: 0 <= j < |Collapse(raw)| ==> Collapse(raw)[j] in raw
  {
    if raw != [] {
      var init := raw[..|raw| - 1];
      CollapseKeepsSamples(init);
      assert forall x :: x in init ==> x in raw;
    }
  }

  /** Thresholds strictly increase along `r`. */
  predicate StrictlyIncreasing(r: seq<Sample>)
  {
    forall j, k :: 0 <= j < k < |r| ==> r[j].0 < r[k].0
  }

  /** Appending a sample above every threshold keeps thresholds increasing. */
  lemma AppendIncreasing(r: seq<Sample>, x: Sample)
    requires StrictlyIncreasing(r) && (r != [] ==> r[|r| - 1].0 < x.0)
    ensures StrictlyIncreasing(r + [x])
  {
    forall j | 0 <= j < |r|
      ensures r[j].0 < x.0
    {
      if j < |r| - 1 {
        assert r[j].0 < r[|r| - 1].0;
      }
    }
  }

  /** Replacing the last sample by one with the same threshold keeps thresholds
      increasing. */
  lemma ReplaceLastIncreasing(r: seq<Sample>, x: Sample)
    requires StrictlyIncreasing(r) && r != [] && r[|r| - 1].0 == x.0
    ensures StrictlyIncreasing(r[..|r| - 1] + [x])
  {
    var r' := r[..|r| - 1] + [x];
    assert forall j :: 0 <= j < |r| - 1 ==> r'[j] == r[j];
  }

  /** Over raw samples in threshold order, the real samples' thresholds strictly
      increase: at most one real sample per threshold. */
  lemma {:induction false} CollapseIncreasing(raw: seq<Sample>)
    requires Nondecreasing(raw)
    ensures StrictlyIncreasing(Collapse(raw))
  {
    if raw != [] {
      var n := |raw|;
      var init := raw[..n - 1];
      CollapseIncreasing(init);
      var ri := Collapse(init);
      if init != [] {
        assert ri[|ri| - 1] == raw[n - 2];
        assert raw[n - 2].0 <= raw[n - 1].0;
        if raw[n - 2].0 == raw[n - 1].0 {
          ReplaceLastIncreasing(ri, raw[n - 1]);
        } else {
          AppendIncreasing(ri, raw[n - 1]);
        }
      }
    }
  }

  /** Every raw sample's threshold has a real sample. */
  lemma {:induction false} CollapseCovers(raw: seq<Sample>)
    ensures forall i :: 0 <= i < |raw| ==> raw[i].0 in Points(Collapse(raw))
  {
    if raw != [] {
      var n := |raw|;
      var init := raw[..n - 1];
      CollapseCovers(init);
      var ri, r := Collapse(init), Collapse(raw);
      forall i | 0 <= i < n
        ensures raw[i].0 in Points(r)
      {
        if i < n - 1 {
          assert init[i] == raw[i];
          var j :| 0 <= j < |ri| && ri[j].0 == raw[i].0;
          if j < |r| - 1 {
            assert r[j] == ri[j];
          } else {
            assert ri[|ri| - 1] == raw[n - 2];
            assert r[|r| - 1].0 == raw[i].0;
          }
        } else {
          assert r[|r| - 1].0 == raw[i].0;
        }
      }
    }
  }

  /** The real samples lie at exactly the thresholds of the raw samples. */
  lemma CollapsePoints(raw: seq<Sample>)
    ensures Points(Collapse(raw)) == Points(raw)
  {
    var r := Collapse(raw);
    CollapseKeepsSamples(raw);
    CollapseCovers(raw);
    forall t | t in Points(r)
      ensures t in Points(raw)
    {
      var j :| 0 <= j < |r| && r[j].0 == t;
      var i :| 0 <= i < |raw| && raw[i] == r[j];
    }
    forall t | t in Points(raw)
      ensures t in Points(r)
    {
      var i :| 0 <= i < |raw| && raw[i].0 == t;
    }
  }

  /** Events sorted by threshold. */
  predicate SortedByThreshold(s: seq<Event>)
  {
    forall p, q :: 0 <= p < q < |s| ==> s[p].threshold <= s[q].threshold
  }

  /** Raw samples of sorted events are in threshold order. */
  lemma RawCountsNondecreasing(s: seq<Event>)
    requires SortedByThreshold(s)
    ensures Nondecreasing(RawCounts(s))
  {
    RawCountsAt(s);
  }

  /** Each sample of `r` counts the net number of events of `s` at or below its
      threshold. */
  predicate CountsAre(r: seq<Sample>, s: seq<Event>)
  {
    forall j :: 0 <= j < |r| ==> r[j].1 == Active(s, r[j].0)
  }

  /** Counts at thresholds below a new event do not see it. */
  lemma CountsExtend(r: seq<Sample>, init: seq<Event>, e: Event)
    requires CountsAre(r, init) && forall j :: 0 <= j < |r| ==> r[j].0 < e.threshold
    ensures CountsAre(r, init + [e])
  {
    forall j | 0 <= j < |r|
      ensures r[j].1 == Active(init + [e], r[j].0)
    {
      ActiveAppend(init, [e], r[j].0);
    }
  }

  /** The running count after sorted events is their count at the last threshold. */
  lemma CountsAppendLast(r: seq<Sample>, s: seq<Event>)
    requires CountsAre(r, s) && SortedByThreshold(s) && s != []
    ensures CountsAre(r + [(s[|s| - 1].threshold, Balance(s))], s)
  {
    ActiveOfAll(s, s[|s| - 1].threshold);
  }

  /** One more sorted event: the real samples below its threshold keep their counts,
      and the new raw sample, which takes the place of a real sample at the same
      threshold, counts every event. */
  lemma CountsStep(ri: seq<Sample>, init: seq<Event>, e: Event)
    requires SortedByThreshold(init + [e]) && init != []
    requires CountsAre(ri, init) && StrictlyIncreasing(ri) && ri != []
    requires ri[|ri| - 1].0 == init[|init| - 1].threshold
    ensures CountsAre((if ri[|ri| - 1].0 == e.threshold then ri[..|ri| - 1] else ri) + [(e.threshold, Balance(init + [e]))], init + [e])
  {
    var s := init + [e];
    var last := ri[|ri| - 1];
    assert s[|init| - 1] == init[|init| - 1];
    assert last.0 <= e.threshold;
    var kept := if last.0 == e.threshold then ri[..|ri| - 1] else ri;
    forall j | 0 <= j < |kept|
      ensures kept[j].0 < e.threshold && kept[j].1 == Active(init, kept[j].0)
    {
      assert kept[j] == ri[j];
      if j < |ri| - 1 {
        assert ri[j].0 < last.0;
      }
    }
    CountsExtend(kept, init, e);
    assert s[|s| - 1] == e;
    CountsAppendLast(kept, s);
  }

  /** Over sorted events, the count of each real sample is the net count of all
      events at or below its threshold. */
  lemma {:induction false} CollapseCounts(s: seq<Event>)
    requires SortedByThreshold(s)
    ensures CountsAre(Collapse(RawCounts(s)), s)
  {
    if s != [] {
      var n := |s|;
      var init, e := s[..n - 1], s[n - 1];
      assert s == init + [e];
      var raw := RawCounts(s);
      assert raw == RawCounts(init) + [(e.threshold, Balance(s))];
      assert raw[..n - 1] == RawCounts(init);
      if init == [] {
        assert Collapse(raw) == [(e.threshold, Balance(s))];
        CountsAppendLast([], s);
      } else {
        assert SortedByThreshold(init);
        CollapseCounts(init);
        var ri := Collapse(RawCounts(init));
        RawCountsNondecreasing(init);
        CollapseIncreasing(RawCounts(init));
        assert RawCounts(init)[n - 2] == (init[n - 2].threshold, Balance(init));
        assert ri[|ri| - 1] == RawCounts(init)[n - 2];
        CountsStep(ri, init, e);
        assert Collapse(raw) == (if ri[|ri| - 1].0 == e.threshold then ri[..|ri| - 1] else ri) + [(e.threshold, Balance(s))];
      }
    }
  }

  /** The sorting reorders the events. */
  lemma SortedEventsPermute(events: seq<Event>)
    ensures multiset(SortByThreshold(events)) == multiset(events)
  {
    SortByThresholdIsStable(events);
  }

  /** The sorting puts the events in threshold order. */
  lemma SortedEventsAreSorted(events: seq<Event>)
    ensures SortedByThreshold(SortByThreshold(events))
  {
    SortByThresholdIsStable(events);
  }

  /** The raw samples lie at exactly the thresholds of the events. */
  lemma RawPoints(s: seq<Event>)
    ensures Points(RawCounts(s)) == EventThresholds(s)
  {
    var raw := RawCounts(s);
    RawThresholdsAt(s);
    forall t | t in Points(raw)
      ensures t in EventThresholds(s)
    {
      var i :| 0 <= i < |raw| && raw[i].0 == t;
      assert s[i].threshold == t;
    }
    forall t | t in EventThresholds(s)
      ensures t in Points(raw)
    {
      var k :| 0 <= k < |s| && s[k].threshold == t;
      assert raw[k].0 == t;
    }
  }

  /** Sorting keeps the thresholds of the events. */
  lemma SortedEventThresholds(events: seq<Event>)
    ensures EventThresholds(SortByThreshold(events)) == EventThresholds(events)
  {
    var s := SortByThreshold(events);
    SortedEventsPermute(events);
    forall t | t in EventThresholds(s)
      ensures t in EventThresholds(events)
    {
      var k :| 0 <= k < |s| && s[k].threshold == t;
      assert s[k] in multiset(events);
      var q :| 0 <= q < |events| && events[q] == s[k];
    }
    forall t | t in EventThresholds(events)
      ensures t in EventThresholds(s)
    {
      var q :| 0 <= q < |events| && events[q].threshold == t;
      assert events[q] in multiset(s);
      var k :| 0 <= k < |s| && s[k] == events[q];
    }
  }

  /** The events of a diagram lie at exactly its values. */
  lemma EventValues(pairs: seq<Pair>)
    ensures EventThresholds(Events(pairs)) == Values(pairs)
  {
    var e := Events(pairs);
    forall t | t in EventThresholds(e)
      ensures t in Values(pairs)
    {
      var k :| 0 <= k < |e| && e[k].threshold == t;
      var i := k / 2;
      if k == 2 * i {
        assert e[2 * i] == Event(pairs[i].0, true);
        assert pairs[i].0 in Births(pairs);
      } else {
        assert e[2 * i + 1] == Event(pairs[i].1, false);
        assert pairs[i].1 in Deaths(pairs);
      }
    }
    forall t | t in Values(pairs)
      ensures t in EventThresholds(e)
    {
      if t in Births(pairs) {
        var i :| 0 <= i < |pairs| && pairs[i].0 == t;
        assert e[2 * i].threshold == t;
      } else {
        var i :| 0 <= i < |pairs| && pairs[i].1 == t;
        assert e[2 * i + 1].threshold == t;
      }
    }
  }

  /** The thresholds of the real samples strictly increase: at most one real sample
      per threshold. */
  lemma RealSamplesIncrease(pairs: seq<Pair>)
    ensures StrictlyIncreasing(RealSamples(pairs))
  {
    var s := SortByThreshold(Events(pairs));
    SortedEventsAreSorted(Events(pairs));
    RawCountsNondecreasing(s);
    CollapseIncreasing(RawCounts(s));
  }

  /** `pred` behaves like `np.nextafter(t, t - 1)`: it lies strictly below `t`, and
      no value below `t` lies above it. */
  ghost predicate IsPredecessor(pred: int -> int)
  {
    (forall t :: pred(t) < t) &&
    (forall s, t {:trigger pred(s), pred(t)} :: s < t ==> s <= pred(t))
  }

  /** The synthetic sample before real sample `j` lies at or above real sample
      `j - 1` and strictly below real sample `j`. */
  lemma SyntheticAt(r: seq<Sample>, pred: int -> int, j: nat)
    requires IsPredecessor(pred) && StrictlyIncreasing(r) && 0 < j < |r|
    ensures r[j - 1].0 <= WithSynthetic(r, pred)[2 * j - 1].0 < r[j].0
  {
    WithSyntheticBeforeAt(r, pred, j);
    assert r[j - 1].0 < r[j].0;
    assert pred(r[j - 1].0) < r[j - 1].0;
  }

  /** Where sample `p` of the curve lies: a real sample at its own threshold, a
      synthetic one between the real samples around it. */
  lemma CurveSampleAt(r: seq<Sample>, pred: int -> int, p: nat)
    requires IsPredecessor(pred) && StrictlyIncreasing(r) && p < |WithSynthetic(r, pred)|
    ensures p % 2 == 0 ==> WithSynthetic(r, pred)[p].0 == r[p / 2].0
    ensures p % 2 == 1 ==>
              p / 2 + 1 < |r| && r[p / 2].0 <= WithSynthetic(r, pred)[p].0 < r[p / 2 + 1].0
  {
    if p % 2 == 0 {
      WithSyntheticRealAt(r, pred, p / 2);
    } else {
      var j := p / 2 + 1;
      assert 2 * j - 1 == p;
      SyntheticAt(r, pred, j);
    }
  }

  /** Interleaving strictly increasing samples `r` with synthetic samples at a
      predecessor puts each synthetic sample between the real sample before it,
      inclusive, and its own, exclusive. */
  lemma SyntheticBetweenReals(r: seq<Sample>, pred: int -> int)
    requires IsPredecessor(pred) && StrictlyIncreasing(r)
    ensures forall j :: 0 < j < |r| ==>
              r[j - 1].0 <= WithSynthetic(r, pred)[2 * j - 1].0 < r[j].0
  {
    forall j | 0 < j < |r|
      ensures r[j - 1].0 <= WithSynthetic(r, pred)[2 * j - 1].0 < r[j].0
    {
      SyntheticAt(r, pred, j);
    }
  }

  /** Interleaving strictly increasing samples `r` with synthetic samples at a
      predecessor gives thresholds that never decrease. */
  lemma CurveNondecreasing(r: seq<Sample>, pred: int -> int)
    requires IsPredecessor(pred) && StrictlyIncreasing(r)
    ensures var w := WithSynthetic(r, pred);
            forall p, q :: 0 <= p <= q < |w| ==> w[p].0 <= w[q].0
  {
    var w := WithSynthetic(r, pred);
    forall p, q | 0 <= p <= q < |w|
      ensures w[p].0 <= w[q].0
    {
      CurveSampleAt(r, pred, p);
      CurveSampleAt(r, pred, q);
      var a, b := p / 2, q / 2;
      if a < b {
        if p % 2 == 1 && a + 1 < b {
          assert r[a + 1].0 < r[b].0;
        } else if p % 2 == 0 {
          assert r[a].0 < r[b].0;
        }
      }
    }
  }

  /** For a predecessor `pred`, each synthetic sample of the curve lies between the
      real sample before it, inclusive, and its own real sample, exclusive: the
      curve's steps are half-open intervals. Along the whole curve thresholds never
      decrease. */
  lemma SyntheticSamplesBetween(pairs: seq<Pair>, pred: int -> int)
    requires IsPredecessor(pred)
    ensures var r := RealSamples(pairs);
            forall j :: 0 < j < |r| ==>
              r[j - 1].0 <= WithSynthetic(r, pred)[2 * j - 1].0 < r[j].0
    ensures var w := WithSynthetic(RealSamples(pairs), pred);
            forall p, q :: 0 <= p <= q < |w| ==> w[p].0 <= w[q].0
  {
    RealSamplesIncrease(pairs);
    SyntheticBetweenReals(RealSamples(pairs), pred);
    CurveNondecreasing(RealSamples(pairs), pred);
  }

  /** The real samples lie at exactly the values of the diagram: with
      `RealSamplesIncrease`, there is exactly one real sample per distinct value. */
  lemma RealSamplesThresholds(pairs: seq<Pair>)
    ensures Points(RealSamples(pairs)) == Values(pairs)
  {
    var e := Events(pairs);
    var s := SortByThreshold(e);
    CollapsePoints(RawCounts(s));
    RawPoints(s);
    SortedEventThresholds(e);
    EventValues(pairs);
  }

  /** Entry `i` of the raw sequence has the threshold of event `i`. */
  lemma RawThresholdsAt(s: seq<Event>)
    ensures forall i :: 0 <= i < |s| ==> RawCounts(s)[i].0 == s[i].threshold
  {
    RawCountsAt(s);
  }

  /** The count of each real sample is the number of pairs created by its threshold
      less the number destroyed by it. */
  lemma RealSamplesCount(pairs: seq<Pair>)
    ensures forall j :: 0 <= j < |RealSamples(pairs)| ==>
              RealSamples(pairs)[j].1 == CreatedBy(pairs, RealSamples(pairs)[j].0) - DestroyedBy(pairs, RealSamples(pairs)[j].0)
  {
    var s := SortByThreshold(Events(pairs));
    var r := RealSamples(pairs);
    SortedEventsAreSorted(Events(pairs));
    SortedEventsPermute(Events(pairs));
    CollapseCounts(s);
    forall j | 0 <= j < |r|
      ensures r[j].1 == CreatedBy(pairs, r[j].0) - DestroyedBy(pairs, r[j].0)
    {
      ActivePermutation(s, Events(pairs), r[j].0);
      ActiveOfEvents(pairs, r[j].0);
    }
  }

  /** The last sample lies at the largest value of the diagram and has count zero. */
  predicate LastSampleClosesCurve(pairs: seq<Pair>, r: seq<Sample>)
  {
    r != [] && r[|r| - 1].1 == 0 &&
    forall i :: 0 <= i < |pairs| ==> pairs[i].0 <= r[|r| - 1].0 && pairs[i].1 <= r[|r| - 1].0
  }

  /** The threshold of the last of the events `s`. */
  function LastThreshold(s: seq<Event>): int
    requires s != []
  {
    s[|s| - 1].threshold
  }

  /** The last event lies at the largest value of the diagram. */
  lemma LastEventIsLargest(pairs: seq<Pair>)
    requires pairs != []
    ensures forall i :: 0 <= i < |pairs| ==>
              pairs[i].0 <= LastThreshold(SortByThreshold(Events(pairs))) &&
              pairs[i].1 <= LastThreshold(SortByThreshold(Events(pairs)))
  {
    var s := SortByThreshold(Events(pairs));
    SortedEventsAreSorted(Events(pairs));
    SortedEventThresholds(Events(pairs));
    EventValues(pairs);
    var m := LastThreshold(s);
    forall i | 0 <= i < |pairs|
      ensures pairs[i].0 <= m && pairs[i].1 <= m
    {
      assert pairs[i].0 in Births(pairs) && pairs[i].1 in Deaths(pairs);
      var k :| 0 <= k < |s| && s[k].threshold == pairs[i].0;
      var k' :| 0 <= k' < |s| && s[k'].threshold == pairs[i].1;
      assert s[k].threshold <= s[|s| - 1].threshold;
      assert s[k'].threshold <= s[|s| - 1].threshold;
    }
  }

  /** The curve ends at the largest value of the diagram with no active feature. */
  lemma RealSamplesEndAtZero(pairs: seq<Pair>)
    requires pairs != []
    ensures LastSampleClosesCurve(pairs, RealSamples(pairs))
  {
    var s := SortByThreshold(Events(pairs));
    var raw := RawCounts(s);
    var m := s[|s| - 1].threshold;
    LastEventIsLargest(pairs);
    RealSamplesCount(pairs);
    AllCreatedAllDestroyed(pairs, m);
    var r := Collapse(raw);
    assert r[|r| - 1] == raw[|raw| - 1];
    assert raw[|raw| - 1].0 == m;
  }

  /** When every pair is created no later than it is destroyed, no count is negative. */
  lemma RealSamplesNonNegative(pairs: seq<Pair>)
    requires forall i :: 0 <= i < |pairs| ==> pairs[i].0 <= pairs[i].1
    ensures forall j :: 0 <= j < |RealSamples(pairs)| ==> RealSamples(pairs)[j].1 >= 0
  {
    RealSamplesCount(pairs);
    forall j | 0 <= j < |RealSamples(pairs)|
      ensures RealSamples(pairs)[j].1 >= 0
    {
      DestroyedNoMoreThanCreated(pairs, RealSamples(pairs)[j].0);
    }
  }

  /** The running count is zero after the last event. */
  lemma RunningCountEndsAtZero(pairs: seq<Pair>)
    ensures Balance(SortByThreshold(Events(pairs))) == 0
  {
    var s := SortByThreshold(Events(pairs));
    if s != [] {
      var raw := RawCounts(s);
      var r := Collapse(raw);
      RealSamplesEndAtZero(pairs);
      assert raw[|raw| - 1].1 == Balance(s);
      assert r[|r| - 1] == raw[|raw| - 1];
    }
  }

  /** Two sequences with strictly increasing thresholds at the same set of thresholds
      agree threshold by threshold. */
  lemma {:induction false} SameThresholds(r: seq<Sample>, e: seq<Sample>)
    requires StrictlyIncreasing(r) && StrictlyIncreasing(e)
    requires Points(r) == Points(e)
    ensures |r| == |e|
    ensures forall j :: 0 <= j < |r| ==> r[j].0 == e[j].0
    decreases |r|
  {
    NoPoints(r);
    NoPoints(e);
    if r != [] {
      var m, n := |r| - 1, |e| - 1;
      LastsAgree(r, e);
      PointsDropLast(r);
      PointsDropLast(e);
      IncreasingPrefix(r);
      IncreasingPrefix(e);
      SameThresholds(r[..m], e[..n]);
      assert forall j :: 0 <= j < m ==> r[j] == r[..m][j] && e[j] == e[..n][j];
    }
  }

  /** Only the empty sequence has no thresholds. */
  lemma NoPoints(r: seq<Sample>)
    ensures Points(r) == {} <==> r == []
  {
    if r != [] {
      assert r[0].0 in Points(r);
    }
  }

  /** Dropping the last sample of strictly increasing samples drops its threshold and
      no other. */
  lemma PointsDropLast(r: seq<Sample>)
    requires StrictlyIncreasing(r) && r != []
    ensures Points(r[..|r| - 1]) == Points(r) - {r[|r| - 1].0}
  {
    var m := |r| - 1;
    var r' := r[..m];
    forall t | t in Points(r')
      ensures t in Points(r) && t != r[m].0
    {
      var j :| 0 <= j < m && r'[j].0 == t;
      assert r[j] == r'[j];
    }
    forall t | t in Points(r) && t != r[m].0
      ensures t in Points(r')
    {
      var j :| 0 <= j < |r| && r[j].0 == t;
      assert r'[j] == r[j];
    }
  }

  /** Dropping the last sample keeps thresholds increasing. */
  lemma IncreasingPrefix(r: seq<Sample>)
    requires StrictlyIncreasing(r) && r != []
    ensures StrictlyIncreasing(r[..|r| - 1])
  {
  }

  /** Strictly increasing samples at the same thresholds end at the same threshold. */
  lemma LastsAgree(r: seq<Sample>, e: seq<Sample>)
    requires StrictlyIncreasing(r) && StrictlyIncreasing(e) && r != [] && e != []
    requires Points(r) == Points(e)
    ensures r[|r| - 1].0 == e[|e| - 1].0
  {
    var m, n := |r| - 1, |e| - 1;
    assert r[m].0 in Points(e) && e[n].0 in Points(r);
    var q :| 0 <= q < |e| && e[q].0 == r[m].0;
    var p :| 0 <= p < |r| && r[p].0 == e[n].0;
    assert q < n ==> e[q].0 < e[n].0;
    assert p < m ==> r[p].0 < r[m].0;
  }

  /** The real samples are determined by the diagram alone: any sequence with strictly
      increasing thresholds at exactly the values of the diagram, each with its count
      of created less destroyed pairs, is the sequence of real samples. */
  lemma RealSamplesDetermined(pairs: seq<Pair>, e: seq<Sample>)
    requires StrictlyIncreasing(e) && Points(e) == Values(pairs)
    requires forall j :: 0 <= j < |e| ==> e[j].1 == CreatedBy(pairs, e[j].0) - DestroyedBy(pairs, e[j].0)
    ensures RealSamples(pairs) == e
  {
    var r := RealSamples(pairs);
    RealSamplesIncrease(pairs);
    RealSamplesThresholds(pairs);
    SameThresholds(r, e);
    RealSamplesCount(pairs);
    CountsAgree(pairs, r, e);
  }

  /** Two sequences with the same thresholds whose counts both come from the diagram
      are equal. */
  lemma CountsAgree(pairs: seq<Pair>, r: seq<Sample>, e: seq<Sample>)
    requires |r| == |e| && forall j :: 0 <= j < |r| ==> r[j].0 == e[j].0
    requires forall j :: 0 <= j < |r| ==> r[j].1 == CreatedBy(pairs, r[j].0) - DestroyedBy(pairs, r[j].0)
    requires forall j :: 0 <= j < |e| ==> e[j].1 == CreatedBy(pairs, e[j].0) - DestroyedBy(pairs, e[j].0)
    ensures r == e
  {
    assert forall j :: 0 <= j < |r| ==> r[j] == e[j];
  }

  /** The six-pair diagram of the package's Betti-curve example gives seven real
      samples. */
  lemma SixPairExample(pairs: seq<Pair>, e: seq<Sample>)
    requires pairs == [(0, 1), (0, 6), (1, 2), (2, 3), (3, 6), (5, 8)]
    requires e == [(0, 2), (1, 2), (2, 2), (3, 2), (5, 3), (6, 1), (8, 0)]
    ensures RealSamples(pairs) == e
  {
    SixPairValues(pairs, e);
    SixPairCountsAll(pairs, e);
    RealSamplesDetermined(pairs, e);
  }

  /** Each expected count of the six-pair example is the diagram's count. */
  lemma SixPairCountsAll(pairs: seq<Pair>, e: seq<Sample>)
    requires pairs == [(0, 1), (0, 6), (1, 2), (2, 3), (3, 6), (5, 8)]
    requires e == [(0, 2), (1, 2), (2, 2), (3, 2), (5, 3), (6, 1), (8, 0)]
    ensures forall j :: 0 <= j < |e| ==> e[j].1 == CreatedBy(pairs, e[j].0) - DestroyedBy(pairs, e[j].0)
  {
    forall j | 0 <= j < |e|
      ensures e[j].1 == CreatedBy(pairs, e[j].0) - DestroyedBy(pairs, e[j].0)
    {
      SixPairCounts(pairs, e[j].0);
    }
  }

  /** The expected thresholds of the six-pair example increase and are the values of
      the diagram. */
  lemma SixPairValues(pairs: seq<Pair>, e: seq<Sample>)
    requires pairs == [(0, 1), (0, 6), (1, 2), (2, 3), (3, 6), (5, 8)]
    requires e == [(0, 2), (1, 2), (2, 2), (3, 2), (5, 3), (6, 1), (8, 0)]
    ensures StrictlyIncreasing(e)
    ensures Points(e) == Values(pairs)
  {
    var v := {0, 1, 2, 3, 5, 6, 8};
    forall t | t in Values(pairs)
      ensures t in v
    {
      if t in Births(pairs) {
        var i :| 0 <= i < |pairs| && pairs[i].0 == t;
        assert i == 0 || i == 1 || i == 2 || i == 3 || i == 4 || i == 5;
      } else {
        var i :| 0 <= i < |pairs| && pairs[i].1 == t;
        assert i == 0 || i == 1 || i == 2 || i == 3 || i == 4 || i == 5;
      }
    }
    assert pairs[0].0 in Births(pairs) && pairs[0].1 in Deaths(pairs) && pairs[2].1 in Deaths(pairs);
    assert pairs[3].1 in Deaths(pairs) && pairs[5].0 in Births(pairs) && pairs[1].1 in Deaths(pairs);
    assert pairs[5].1 in Deaths(pairs);
    assert Values(pairs) == v;
    forall t | t in Points(e)
      ensures t in v
    {
      var j :| 0 <= j < |e| && e[j].0 == t;
      assert j == 0 || j == 1 || j == 2 || j == 3 || j == 4 || j == 5 || j == 6;
    }
    assert e[0].0 in Points(e) && e[1].0 in Points(e) && e[2].0 in Points(e) && e[3].0 in Points(e);
    assert e[4].0 in Points(e) && e[5].0 in Points(e) && e[6].0 in Points(e);
    assert Points(e) == v;
  }

  /** The counts of the six-pair diagram at each of its values. */
  lemma SixPairCounts(pairs: seq<Pair>, t: int)
    requires pairs == [(0, 1), (0, 6), (1, 2), (2, 3), (3, 6), (5, 8)]
    ensures t == 0 ==> CreatedBy(pairs, t) - DestroyedBy(pairs, t) == 2
    ensures t == 1 ==> CreatedBy(pairs, t) - DestroyedBy(pairs, t) == 2
    ensures t == 2 ==> CreatedBy(pairs, t) - DestroyedBy(pairs, t) == 2
    ensures t == 3 ==> CreatedBy(pairs, t) - DestroyedBy(pairs, t) == 2
    ensures t == 5 ==> CreatedBy(pairs, t) - DestroyedBy(pairs, t) == 3
    ensures t == 6 ==> CreatedBy(pairs, t) - DestroyedBy(pairs, t) == 1
    ensures t == 8 ==> CreatedBy(pairs, t) - DestroyedBy(pairs, t) == 0
  {
    var c, d := CreatedBy(pairs, t), DestroyedBy(pairs, t);
    var p5 := pairs[..5];
    var p4 := p5[..4];
    var p3 := p4[..3];
    var p2 := p3[..2];
    var p1 := p2[..1];
    assert p5 == [(0, 1), (0, 6), (1, 2), (2, 3), (3, 6)];
    assert p4 == [(0, 1), (0, 6), (1, 2), (2, 3)];
    assert p3 == [(0, 1), (0, 6), (1, 2)];
    assert p2 == [(0, 1), (0, 6)];
    assert p1 == [(0, 1)] && p1[..0] == [];
    assert CreatedBy(p1, t) == (if 0 <= t then 1 else 0) && DestroyedBy(p1, t) == (if 1 <= t then 1 else 0);
    assert CreatedBy(p2, t) == CreatedBy(p1, t) + (if 0 <= t then 1 else 0);
    assert DestroyedBy(p2, t) == DestroyedBy(p1, t) + (if 6 <= t then 1 else 0);
    assert CreatedBy(p3, t) == CreatedBy(p2, t) + (if 1 <= t then 1 else 0);
    assert DestroyedBy(p3, t) == DestroyedBy(p2, t) + (if 2 <= t then 1 else 0);
    assert CreatedBy(p4, t) == CreatedBy(p3, t) + (if 2 <= t then 1 else 0);
    assert DestroyedBy(p4, t) == DestroyedBy(p3, t) + (if 3 <= t then 1 else 0);
    assert CreatedBy(p5, t) == CreatedBy(p4, t) + (if 3 <= t then 1 else 0);
    assert DestroyedBy(p5, t) == DestroyedBy(p4, t) + (if 6 <= t then 1 else 0);
    assert c == CreatedBy(p5, t) + (if 5 <= t then 1 else 0);
    assert d == DestroyedBy(p5, t) + (if 8 <= t then 1 else 0);
  }

  /** The first loop: the creation and the destruction event of every pair, in
      order. */
  method EventPoints(pairs: seq<Pair>) returns (eventPoints: seq<Event>)
    ensures eventPoints == Events(pairs)
  {
    eventPoints := [];
    for i := 0 to |pairs|
      invariant eventPoints == Events(pairs[..i])
    {
      var (x, y) := pairs[i];
      assert pairs[..i + 1][..i] == pairs[..i];
      eventPoints := eventPoints + [Event(x, true), Event(y, false)];
    }
    assert pairs[..|pairs|] == pairs;
  }

  /** The second loop: the running count after each event, with its threshold. */
  method RunningCounts(eventPoints: seq<Event>) returns (output: seq<Sample>)
    ensures output == RawCounts(eventPoints)
  {
    var nActive := 0;
    output := [];
    for i := 0 to |eventPoints|
      invariant nActive == Balance(eventPoints[..i]) && output == RawCounts(eventPoints[..i])
    {
      var e := eventPoints[i];
      assert eventPoints[..i + 1][..i] == eventPoints[..i];
      if e.isGenerator {
        nActive := nActive + 1;
      } else {
        nActive := nActive - 1;
      }
      output := output + [(e.threshold, nActive)];
    }
    assert eventPoints[..|eventPoints|] == eventPoints;
  }

  /** The third loop: the closure over every raw sample, starting at `first`. */
  method Collect(output: seq<Sample>, first: int, pred: int -> int) returns (builder: CurveBuilder)
    ensures fresh(builder) && builder.State() == Run(output, Builder(first, 0, []), pred)
  {
    builder := new CurveBuilder(first);
    for i := 0 to |output|
      invariant builder.State() == Run(output[..i], Builder(first, 0, []), pred)
    {
      assert output[..i + 1][..i] == output[..i];
      builder.Process(output[i].0, output[i].1, pred);
    }
    assert output[..|output|] == output;
  }

  /** The end of `make_betti_curve`: `output_[-1]`, then the closing call when the
      last stored threshold is not `prev_p`. The curve returned is the closure's
      final `output_`. */
  method CloseCurve(builder: CurveBuilder, pred: int -> int) returns (result: BettiOutcome)
    modifies builder
    ensures result == Close(old(builder.State()), pred)
    ensures result.Curve? ==> result.samples == builder.output
  {
    if builder.output == [] {
      return Raises;
    }
    if builder.prevP != builder.output[|builder.output| - 1].0 {
      builder.Process(builder.prevP + 1, builder.prevV + 1, pred);
    }
    return Curve(builder.output);
  }

  /** `make_betti_curve(diagram)`. */
  method MakeBettiCurve(diagram: PersistenceDiagram, pred: int -> int) returns (result: BettiOutcome)
    ensures result == BettiCurve(diagram.pairs, pred)
  {
    var eventPoints := EventPoints(diagram.pairs);
    eventPoints := SortByThreshold(eventPoints);
    var output := RunningCounts(eventPoints);
    if eventPoints == [] {
      return NoEvents;
    }
    var builder := Collect(output, eventPoints[0].threshold, pred);
    result := CloseCurve(builder, pred);
  }
}
