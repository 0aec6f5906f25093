/**
 The report drawn on every repaint: for the events still inside the window,
 how many carry each label, the labels in ascending order, and the largest
 latency seen.
 */
module Stats {
  import Clock
  import Window
  import Lex

  type Event = Window.Event

  /** `e.t1.Sub(e.t0)`: how long the request took, exact whenever the
      difference fits in a Duration and saturated to its bounds otherwise. */
  function Latency(e: Event): (d: int)
    ensures Clock.IsDuration(d)
    ensures Clock.IsDuration(e.t1 - e.t0) ==> d == e.t1 - e.t0
    ensures e.t1 - e.t0 > Clock.MaxDuration ==> d == Clock.MaxDuration
    ensures e.t1 - e.t0 < Clock.MinDuration ==> d == Clock.MinDuration
  {
    Clock.Sub(e.t1, e.t0)
  }

  /** Reading a Go map: a missing key reads as zero. */
  function Get(m: map<string, nat>, k: string): nat {
    if k in m then m[k] else 0
  }

  /** The labels of a list of events, in the same order. */
  function Statuses(es: seq<Event>): (ss: seq<string>)
    ensures |ss| == |es|
    ensures forall i :: 0 <= i < |es| ==> ss[i] == es[i].statusText
  {
    seq(|es|, i requires 0 <= i < |es| => es[i].statusText)
  }

  /** The labels of the in-window events, in the order they were recorded. */
  function WindowStatuses(es: seq<Event>, now: int): seq<string> {
    Statuses(Window.Prune(es, now))
  }

  /** The counting pass: `m[e.statusText]++` for every in-window event. */
  function Tally(es: seq<Event>, now: int): (m: map<string, nat>)
    ensures forall k :: k in m ==> m[k] >= 1
  {
    if |es| == 0 then map[]
    else
      var m := Tally(es[..|es| - 1], now);
      var e := es[|es| - 1];
      if Window.InWindow(e, now) then m[e.statusText := Get(m, e.statusText) + 1] else m
  }

  /** The maximum pass: starts at zero and takes any in-window latency that
      exceeds it. The result is never negative, bounds every in-window
      latency, and is zero or the latency of some in-window event. */
  function MaxLatency(es: seq<Event>, now: int): (d: int)
    ensures d >= 0
    ensures forall i :: 0 <= i < |es| && Window.InWindow(es[i], now) ==> Latency(es[i]) <= d
    ensures d == 0 || exists i :: 0 <= i < |es| && Window.InWindow(es[i], now) && d == Latency(es[i])
  {
    if |es| == 0 then 0
    else
      var pre := es[..|es| - 1];
      var d := MaxLatency(pre, now);
      var e := es[|es| - 1];
      assert forall i :: 0 <= i < |pre| ==> pre[i] == es[i];
      if Window.InWindow(e, now) && Latency(e) > d then Latency(e) else d
  }

  /** What one repaint shows: the sorted labels, the count per label and
      the largest latency. */
  datatype Snapshot = Snapshot(keys: seq<string>, counts: map<string, nat>, maxLatency: int)

  /** One report over the events at instant `now`: the labels come out
      strictly ascending and are exactly the keys of the count map, every
      count is positive, and the largest latency is never negative. */
  function MakeReport(es: seq<Event>, now: int): (r: Snapshot)
    ensures Lex.StrictlySorted(r.keys)
    ensures forall k :: k in r.keys <==> k in r.counts
    ensures forall k :: k in r.counts ==> r.counts[k] >= 1
    ensures r.maxLatency >= 0
  {
    TallyKeys(es, now);
    Snapshot(Lex.Sort(WindowStatuses(es, now)), Tally(es, now), MaxLatency(es, now))
  }

  /** The sum of the counts of the listed labels. */
  function Total(m: map<string, nat>, ks: seq<string>): nat {
    if |ks| == 0 then 0 else Get(m, ks[0]) + Total(m, ks[1..])
  }

  lemma StatusesAppend(a: seq<Event>, b: seq<Event>)
    ensures Statuses(a + b) == Statuses(a) + Statuses(b)
  {
  }

  /** Peels the last event off every pass of the report. */
  lemma Unfold(es: seq<Event>, now: int)
    requires |es| > 0
    ensures var pre := es[..|es| - 1]; var e := es[|es| - 1];
      && Window.Prune(es, now) == Window.Prune(pre, now) + (if Window.InWindow(e, now) then [e] else [])
      && WindowStatuses(es, now) == WindowStatuses(pre, now) + (if Window.InWindow(e, now) then [e.statusText] else [])
  {
    var pre := es[..|es| - 1];
    var e := es[|es| - 1];
    StatusesAppend(Window.Prune(pre, now), if Window.InWindow(e, now) then [e] else []);
  }

  /** Every label's count is the number of in-window events carrying it,
      that is its multiplicity among the in-window labels. */
  lemma {:induction false} TallyCounts(es: seq<Event>, now: int, k: string)
    ensures Get(Tally(es, now), k) == multiset(WindowStatuses(es, now))[k]
    ensures k in Tally(es, now) <==> k in WindowStatuses(es, now)
  {
    if |es| > 0 {
      var pre := es[..|es| - 1];
      TallyCounts(pre, now, k);
      Unfold(es, now);
    }
  }

  /** The keys of the count map are the in-window labels. */
  lemma TallyKeys(es: seq<Event>, now: int)
    ensures forall k :: k in Tally(es, now) <==> k in WindowStatuses(es, now)
  {
    forall k
      ensures k in Tally(es, now) <==> k in WindowStatuses(es, now)
    {
      TallyCounts(es, now, k);
    }
  }

  /** A label is a key of the report iff some in-window event carries it:
      events that have aged out contribute no key, and a key never remains
      with a count of zero. */
  lemma TallyDomain(es: seq<Event>, now: int, k: string)
    ensures k in Tally(es, now) <==>
      exists i :: 0 <= i < |es| && Window.InWindow(es[i], now) && es[i].statusText == k
  {
    TallyCounts(es, now, k);
    var kept := Window.Prune(es, now);
    var ws := WindowStatuses(es, now);
    if k in ws {
      var j :| 0 <= j < |ws| && ws[j] == k;
      Window.PruneMembership(es, now, kept[j]);
      var i :| 0 <= i < |es| && es[i] == kept[j];
    }
    if exists i :: 0 <= i < |es| && Window.InWindow(es[i], now) && es[i].statusText == k {
      var i :| 0 <= i < |es| && Window.InWindow(es[i], now) && es[i].statusText == k;
      Window.PruneMembership(es, now, es[i]);
      var j :| 0 <= j < |kept| && kept[j] == es[i];
      assert ws[j] == k;
    }
  }

  /** The report's keys are strictly ascending, hence free of duplicates,
      and are exactly the labels that have a count. */
  lemma KeysAreSortedDomain(es: seq<Event>, now: int)
    ensures var r := MakeReport(es, now);
      && Lex.StrictlySorted(r.keys)
      && Lex.Distinct(r.keys)
      && (forall k :: k in r.keys <==> k in r.counts)
  {
    Lex.SortedDistinct(MakeReport(es, now).keys);
  }

  /** Collecting the map's keys in whatever order the map yields them and
      sorting the list gives the report's keys. */
  lemma KeysOrderIndependent(es: seq<Event>, now: int, listing: seq<string>)
    requires Lex.Distinct(listing)
    requires forall k :: k in listing <==> k in Tally(es, now)
    ensures Lex.Sort(listing) == MakeReport(es, now).keys
  {
    KeysAreSortedDomain(es, now);
    Lex.SortAnyOrder(listing, MakeReport(es, now).keys);
  }

  lemma {:induction false} TotalUnaffected(m: map<string, nat>, ks: seq<string>, s: string, v: nat)
    requires s !in ks
    ensures Total(m[s := v], ks) == Total(m, ks)
  {
    if |ks| > 0 {
      TotalUnaffected(m, ks[1..], s, v);
    }
  }

  lemma {:induction false} TotalUpdate(m: map<string, nat>, ks: seq<string>, s: string, v: nat)
    requires Lex.Distinct(ks) && s in ks
    ensures Total(m[s := v], ks) == Total(m, ks) - Get(m, s) + v
  {
    if ks[0] == s {
      assert s !in ks[1..];
      TotalUnaffected(m, ks[1..], s, v);
    } else {
      TotalUpdate(m, ks[1..], s, v);
    }
  }

  lemma {:induction false} TotalCoversWindow(es: seq<Event>, now: int, ks: seq<string>)
    requires Lex.Distinct(ks)
    requires forall k :: k in Tally(es, now) ==> k in ks
    ensures Total(Tally(es, now), ks) == |Window.Prune(es, now)|
  {
    if |es| == 0 {
      TotalZero(ks);
    } else {
      var pre := es[..|es| - 1];
      var e := es[|es| - 1];
      Unfold(es, now);
      var t := Tally(pre, now);
      if Window.InWindow(e, now) {
        assert e.statusText in Tally(es, now);
        TotalCoversWindow(pre, now, ks);
        TotalUpdate(t, ks, e.statusText, Get(t, e.statusText) + 1);
      } else {
        TotalCoversWindow(pre, now, ks);
      }
    }
  }

  lemma {:induction false} TotalZero(ks: seq<string>)
    ensures Total(map[], ks) == 0
  {
    if |ks| > 0 {
      TotalZero(ks[1..]);
    }
  }

  /** The counts shown sum to the number of in-window events. */
  lemma CountsSumToWindowSize(es: seq<Event>, now: int)
    ensures var r := MakeReport(es, now);
      Total(r.counts, r.keys) == |Window.Prune(es, now)|
  {
    KeysAreSortedDomain(es, now);
    TotalCoversWindow(es, now, MakeReport(es, now).keys);
  }

  /** The last step of the counting pass. */
  lemma TallyStep(es: seq<Event>, now: int)
    requires |es| > 0
    ensures Tally(es, now) ==
      (var m := Tally(es[..|es| - 1], now); var e := es[|es| - 1];
       if Window.InWindow(e, now) then m[e.statusText := Get(m, e.statusText) + 1] else m)
  {
  }

  /** The last step of the maximum pass. */
  lemma MaxLatencyStep(es: seq<Event>, now: int)
    requires |es| > 0
    ensures MaxLatency(es, now) ==
      (var d := MaxLatency(es[..|es| - 1], now); var e := es[|es| - 1];
       if Window.InWindow(e, now) && Latency(e) > d then Latency(e) else d)
  {
  }

  /** The counting pass over a slice pruned at `p` sees the window of the
      later of `p` and `now`. */
  lemma {:induction false} TallyAfterPrune(es: seq<Event>, p: int, now: int)
    ensures Tally(Window.Prune(es, p), now) == Tally(es, if p <= now then now else p)
  {
    if |es| > 0 {
      var pre := es[..|es| - 1];
      var e := es[|es| - 1];
      var later := if p <= now then now else p;
      TallyAfterPrune(pre, p, now);
      if p <= now {
        Window.InWindowEarlier(e, p, now);
      } else {
        Window.InWindowEarlier(e, now, p);
      }
      TallyStep(es, later);
      if Window.InWindow(e, p) {
        var kept := Window.Prune(pre, p) + [e];
        assert Window.Prune(es, p) == kept;
        assert kept[..|kept| - 1] == Window.Prune(pre, p);
        TallyStep(kept, now);
      } else {
        assert Window.Prune(es, p) == Window.Prune(pre, p);
      }
    }
  }

  /** The maximum pass over a slice pruned at `p` sees the window of the
      later of `p` and `now`. */
  lemma {:induction false} MaxLatencyAfterPrune(es: seq<Event>, p: int, now: int)
    ensures MaxLatency(Window.Prune(es, p), now) == MaxLatency(es, if p <= now then now else p)
  {
    if |es| > 0 {
      var pre := es[..|es| - 1];
      var e := es[|es| - 1];
      var later := if p <= now then now else p;
      MaxLatencyAfterPrune(pre, p, now);
      if p <= now {
        Window.InWindowEarlier(e, p, now);
      } else {
        Window.InWindowEarlier(e, now, p);
      }
      MaxLatencyStep(es, later);
      if Window.InWindow(e, p) {
        var kept := Window.Prune(pre, p) + [e];
        assert Window.Prune(es, p) == kept;
        assert kept[..|kept| - 1] == Window.Prune(pre, p);
        MaxLatencyStep(kept, now);
      } else {
        assert Window.Prune(es, p) == Window.Prune(pre, p);
      }
    }
  }

  /** Both passes read the clock before taking the lock, so the pruner may
      run in between with a reading `p` taken after the report's `now`. A
      report over a slice pruned at `p` is the report at the later of the two
      readings: pruning at or before `now` changes nothing, and pruning after
      it shows the window as of `p`. */
  lemma ReportAfterPrune(es: seq<Event>, p: int, now: int)
    ensures MakeReport(Window.Prune(es, p), now) == MakeReport(es, if p <= now then now else p)
  {
    Window.PruneCompose(es, p, now);
    TallyAfterPrune(es, p, now);
    MaxLatencyAfterPrune(es, p, now);
  }

  /** In particular the pruner running at any instant up to `now`, including
      `now` itself, never changes what a report at `now` shows. */
  lemma ReportIgnoresEarlierPrune(es: seq<Event>, p: int, now: int)
    requires p <= now
    ensures MakeReport(Window.Prune(es, p), now) == MakeReport(es, now)
  {
    ReportAfterPrune(es, p, now);
  }

  /** An event appended to the slice adds one to its label's count in every
      report taken before one interval after its start, and changes nothing
      in any report taken from then on. */
  lemma RecordVisibleUntilExpiry(es: seq<Event>, e: Event, now: int, k: string)
    ensures now < e.t0 + Window.Interval ==>
      Get(Tally(es + [e], now), k) == Get(Tally(es, now), k) + (if k == e.statusText then 1 else 0)
    ensures now >= e.t0 + Window.Interval ==>
      MakeReport(es + [e], now) == MakeReport(es, now)
  {
    var es' := es + [e];
    assert es'[..|es|] == es;
    Unfold(es', now);
    if now >= e.t0 + Window.Interval {
      assert WindowStatuses(es', now) == WindowStatuses(es, now);
      assert Tally(es', now) == Tally(es, now);
      assert MaxLatency(es', now) == MaxLatency(es, now);
    }
  }
}
