/**
 The trailing one-second window over completed requests: the `event`
 record and the pruning pass that drops events which have aged out.
 */
module Window {
  import Clock

  /** One completed request: its start and end readings and the label it
      was classified under. */
  datatype Event = Event(t0: int, t1: int, statusText: string)

  /** How long an event stays visible after its start. */
  const Interval: int := Clock.Second

  /** The test both the pruner and the report apply: `now.Sub(e.t0) < interval`.
      An event is visible exactly until one interval after its start,
      whatever the saturation of `Sub` does. */
  predicate InWindow(e: Event, now: int): (b: bool)
    ensures b <==> now < e.t0 + Interval
  {
    Clock.SubBelowIff(now, e.t0, Interval);
    Clock.Sub(now, e.t0) < Interval
  }

  /** Once an event has left the window it never comes back. */
  lemma InWindowEarlier(e: Event, p: int, now: int)
    requires p <= now
    ensures InWindow(e, now) ==> InWindow(e, p)
  {
  }

  /** The pruning pass: rebuilds the slice by appending, in order, every
      event still inside the window at `now`. */
  function Prune(es: seq<Event>, now: int): (r: seq<Event>)
    ensures |r| <= |es|
    ensures forall i :: 0 <= i < |r| ==> InWindow(r[i], now)
  {
    if |es| == 0 then []
    else
      var e := es[|es| - 1];
      Prune(es[..|es| - 1], now) + (if InWindow(e, now) then [e] else [])
  }

  /** The positions of `es` whose events are inside the window, ascending. */
  function KeptIndices(es: seq<Event>, now: int): (idx: seq<nat>)
  {
    if |es| == 0 then []
    else
      KeptIndices(es[..|es| - 1], now) + (if InWindow(es[|es| - 1], now) then [|es| - 1] else [])
  }

  lemma PruneAppend(es: seq<Event>, e: Event, now: int)
    ensures Prune(es + [e], now) == Prune(es, now) + (if InWindow(e, now) then [e] else [])
  {
  }

  /** The kept positions are ascending, in bounds, and are exactly the
      positions whose events are in the window. */
  lemma {:induction false} KeptIndicesExact(es: seq<Event>, now: int)
    ensures var idx := KeptIndices(es, now);
      && (forall j :: 0 <= j < |idx| ==> idx[j] < |es|)
      && (forall j, j' :: 0 <= j < j' < |idx| ==> idx[j] < idx[j'])
      && (forall i :: 0 <= i < |es| ==> (InWindow(es[i], now) <==> i in idx))
  {
    if |es| > 0 {
      var pre := es[..|es| - 1];
      KeptIndicesExact(pre, now);
      var idx' := KeptIndices(pre, now);
      var idx := KeptIndices(es, now);
      assert idx == idx' + (if InWindow(es[|es| - 1], now) then [|es| - 1] else []);
      forall i | 0 <= i < |es| - 1
        ensures InWindow(es[i], now) <==> i in idx
      {
        assert es[i] == pre[i];
        assert i in idx <==> i in idx';
      }
    }
  }

  /** Pruning reads `es` at the kept positions. */
  lemma {:induction false} PruneAtKept(es: seq<Event>, now: int)
    ensures var idx := KeptIndices(es, now);
      && |Prune(es, now)| == |idx|
      && (forall j :: 0 <= j < |idx| ==> idx[j] < |es| && Prune(es, now)[j] == es[idx[j]])
  {
    if |es| > 0 {
      var pre := es[..|es| - 1];
      PruneAtKept(pre, now);
      KeptIndicesExact(pre, now);
    }
  }

  /** Pruning selects exactly the in-window positions, keeping their order:
      the result is `es` read at a strictly increasing list of indices, and
      an index is on that list if and only if its event is in the window. */
  lemma PruneSelects(es: seq<Event>, now: int)
    ensures var idx := KeptIndices(es, now);
      && |Prune(es, now)| == |idx|
      && (forall j :: 0 <= j < |idx| ==> idx[j] < |es| && Prune(es, now)[j] == es[idx[j]])
      && (forall j, j' :: 0 <= j < j' < |idx| ==> idx[j] < idx[j'])
      && (forall i :: 0 <= i < |es| ==> (InWindow(es[i], now) <==> i in idx))
  {
    KeptIndicesExact(es, now);
    PruneAtKept(es, now);
  }

  /** An event survives pruning iff it occurs in `es` and is in the window. */
  lemma {:induction false} PruneMembership(es: seq<Event>, now: int, e: Event)
    ensures e in Prune(es, now) <==> e in es && InWindow(e, now)
  {
    if |es| > 0 {
      var pre := es[..|es| - 1];
      PruneMembership(pre, now, e);
      assert es == pre + [es[|es| - 1]];
    }
  }

  /** Pruning at two instants keeps exactly what pruning at the later one
      keeps, in either order. */
  lemma {:induction false} PruneCompose(es: seq<Event>, a: int, b: int)
    ensures Prune(Prune(es, a), b) == Prune(es, if a <= b then b else a)
  {
    if |es| > 0 {
      var pre := es[..|es| - 1];
      var e := es[|es| - 1];
      var later := if a <= b then b else a;
      PruneCompose(pre, a, b);
      if a <= b {
        InWindowEarlier(e, a, b);
      } else {
        InWindowEarlier(e, b, a);
      }
      assert Prune(es, later) == Prune(pre, later) + (if InWindow(e, later) then [e] else []);
      if InWindow(e, a) {
        assert Prune(es, a) == Prune(pre, a) + [e];
        PruneAppend(Prune(pre, a), e, b);
      } else {
        assert Prune(es, a) == Prune(pre, a);
      }
    }
  }

  /** Pruning twice at the same instant equals pruning once. */
  lemma PruneIdempotent(es: seq<Event>, now: int)
    ensures Prune(Prune(es, now), now) == Prune(es, now)
  {
    PruneCompose(es, now, now);
  }
}
