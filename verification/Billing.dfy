/** GPU-hour accounting: running intervals assembled from lifecycle events, and
    why looking at one event before the window is enough. GPU time is counted in
    GPU-microseconds, so no rounding is involved. */
module Billing {
  import opened Basics

  datatype Kind = LaunchEvent | StartEvent | RestartEvent | StopEvent | DestroyEvent

  predicate Opens(k: Kind) { k in {LaunchEvent, StartEvent, RestartEvent} }

  /** A row of `vm_events`; an absent GPU count counts as zero. */
  datatype Event = Event(ts: int, vm: string, kind: Kind, gpus: nat, billable: bool)

  /** The open interval of a VM: when it opened and the opening event's values. */
  datatype Interval = Interval(start: int, gpus: nat, billable: bool)

  datatype Usage = Usage(open: Option<Interval>, tracked: nat, billable: nat)

  function Max(a: int, b: int): int { if a < b then b else a }
  function Min(a: int, b: int): int { if a < b then a else b }

  /** Length of [start, end) inside the window [since, now). */
  function Overlap(start: int, end: int, since: int, now: int): nat {
    var lo, hi := Max(start, since), Min(end, now);
    if lo < hi then hi - lo else 0
  }

  function Accrue(u: Usage, end: int, since: int, now: int): Usage
    requires u.open.Some?
  {
    var i := u.open.value;
    var used := Overlap(i.start, end, since, now) * i.gpus;
    u.(tracked := u.tracked + used, billable := u.billable + if i.billable then used else 0)
  }

  function Feed(u: Usage, e: Event, since: int, now: int): Usage {
    if Opens(e.kind) then
      if u.open.None? then u.(open := Some(Interval(e.ts, e.gpus, e.billable))) else u
    else if u.open.Some? then Accrue(u, e.ts, since, now).(open := None)
    else u
  }

  function Assemble(events: seq<Event>, since: int, now: int): Usage {
    if events == [] then Usage(None, 0, 0)
    else Feed(Assemble(events[..|events| - 1], since, now), events[|events| - 1], since, now)
  }

  /** An interval still open accrues until now. */
  function Closed(u: Usage, since: int, now: int): Usage {
    if u.open.Some? then Accrue(u, now, since, now) else u
  }

  function Totals(events: seq<Event>, since: int, now: int): Usage { Closed(Assemble(events, since, now), since, now) }

  // ---------------------------------------------------------------------
  // The loop over all VMs at once
  // ---------------------------------------------------------------------

  function Of(events: seq<Event>, vm: string): seq<Event> {
    if events == [] then []
    else Of(events[..|events| - 1], vm) + if events[|events| - 1].vm == vm then [events[|events| - 1]] else []
  }

  /** The assembly loops of the usage endpoint keep the VMs apart: each VM's
      totals are those of its own events. */
  method AssembleUsage(events: seq<Event>, since: int, now: int) returns (perVm: map<string, Usage>)
    ensures forall vm :: vm in perVm <==> Of(events, vm) != []
    ensures forall vm | vm in perVm :: perVm[vm] == Totals(Of(events, vm), since, now)
  {
    perVm := map[];
    for k := 0 to |events|
      invariant forall vm :: vm in perVm <==> Of(events[..k], vm) != []
      invariant forall vm | vm in perVm :: perVm[vm] == Assemble(Of(events[..k], vm), since, now)
    {
      var e := events[k];
      ghost var before := perVm;
      var u := if e.vm in perVm then perVm[e.vm] else Usage(None, 0, 0);
      perVm := perVm[e.vm := Feed(u, e, since, now)];
      forall vm
        ensures vm in perVm <==> Of(events[..k + 1], vm) != []
        ensures vm in perVm ==> perVm[vm] == Assemble(Of(events[..k + 1], vm), since, now)
      {
        assert events[..k + 1][..k] == events[..k];
        var a, b := Of(events[..k], vm), Of(events[..k + 1], vm);
        if vm == e.vm { assert b == a + [e] && b[..|b| - 1] == a; } else { assert b == a; }
      }
    }
    assert events[..|events|] == events;
    perVm := map vm | vm in perVm :: Closed(perVm[vm], since, now);
  }

  // ---------------------------------------------------------------------
  // Reference: the GPUs on the clock at each instant
  // ---------------------------------------------------------------------

  /** In time order; events with the same stamp stand in the order they are listed. */
  predicate InOrder(events: seq<Event>) {
    forall i, j | 0 <= i < j < |events| :: events[i].ts <= events[j].ts
  }

  /** The events up to and including instant `t`. */
  function UpTo(events: seq<Event>, t: int): seq<Event> {
    if events == [] then []
    else if events[|events| - 1].ts <= t then events
    else UpTo(events[..|events| - 1], t)
  }

  /** The interval a history leaves open. */
  function OpenAfter(events: seq<Event>): Option<Interval> {
    if events == [] then None
    else
      OpenStep(OpenAfter(events[..|events| - 1]), events[|events| - 1])
  }

  function OpenStep(before: Option<Interval>, e: Event): Option<Interval> {
    if !Opens(e.kind) then None
    else if before.None? then Some(Interval(e.ts, e.gpus, e.billable)) else before
  }

  lemma OpenAfterPrefix(events: seq<Event>, i: nat, j: nat)
    requires i < j <= |events|
    ensures OpenAfter(events[i..j]) == OpenStep(OpenAfter(events[i..j - 1]), events[j - 1])
  {
    assert events[i..j][..j - 1 - i] == events[i..j - 1];
  }

  function Rate(o: Option<Interval>): nat { if o.Some? then o.value.gpus else 0 }

  function BillRate(o: Option<Interval>): nat { if o.Some? && o.value.billable then o.value.gpus else 0 }

  function OnClock(events: seq<Event>, t: int): nat { Rate(OpenAfter(UpTo(events, t))) }

  function OnBill(events: seq<Event>, t: int): nat { BillRate(OpenAfter(UpTo(events, t))) }

  /** Sum of the GPUs on the clock over every instant of [lo, hi). */
  function Clocked(events: seq<Event>, lo: int, hi: int): nat
    decreases hi - lo
  {
    if hi <= lo then 0 else Clocked(events, lo, hi - 1) + OnClock(events, hi - 1)
  }

  function Billed(events: seq<Event>, lo: int, hi: int): nat
    decreases hi - lo
  {
    if hi <= lo then 0 else Billed(events, lo, hi - 1) + OnBill(events, hi - 1)
  }

  // ---------------------------------------------------------------------
  // The assembled totals are those sums
  // ---------------------------------------------------------------------

  lemma {:induction false} AssembleOpen(events: seq<Event>, since: int, now: int)
    ensures Assemble(events, since, now).open == OpenAfter(events)
  {
    if events != [] { AssembleOpen(events[..|events| - 1], since, now); }
  }

  /** Inside a window `UpTo` is the prefix of the events not after the instant. */
  lemma {:induction false} UpToPrefix(events: seq<Event>, t: int)
    requires InOrder(events)
    ensures var j := |UpTo(events, t)|;
      && j <= |events| && UpTo(events, t) == events[..j]
      && (forall i | 0 <= i < j :: events[i].ts <= t) && (forall i | j <= i < |events| :: t < events[i].ts)
  {
    if events != [] && t < events[|events| - 1].ts {
      UpToPrefix(events[..|events| - 1], t);
    }
  }

  lemma UpToIs(events: seq<Event>, t: int, j: nat)
    requires InOrder(events) && j <= |events|
    requires (forall i | 0 <= i < j :: events[i].ts <= t) && (forall i | j <= i < |events| :: t < events[i].ts)
    ensures UpTo(events, t) == events[..j]
  {
    UpToPrefix(events, t);
    var k := |UpTo(events, t)|;
    assert (k > 0 ==> events[k - 1].ts <= t) && (j > 0 ==> events[j - 1].ts <= t);
  }

  /** Between two instants where the history does not change, the sum is the
      overlap times the GPUs. */
  lemma {:induction false} ConstantStretch(events: seq<Event>, lo: int, hi: int, g: nat, b: nat)
    requires lo <= hi && forall t | lo <= t < hi :: OnClock(events, t) == g && OnBill(events, t) == b
    ensures Clocked(events, lo, hi) == (hi - lo) * g && Billed(events, lo, hi) == (hi - lo) * b
    decreases hi - lo
  {
    if lo < hi {
      ConstantStretch(events, lo, hi - 1, g, b);
      assert (hi - 1 - lo) * g + g == (hi - lo) * g;
      assert (hi - 1 - lo) * b + b == (hi - lo) * b;
    }
  }

  lemma {:induction false} SumsSplit(events: seq<Event>, lo: int, mid: int, hi: int)
    requires lo <= mid <= hi
    ensures Clocked(events, lo, hi) == Clocked(events, lo, mid) + Clocked(events, mid, hi)
    ensures Billed(events, lo, hi) == Billed(events, lo, mid) + Billed(events, mid, hi)
    decreases hi - mid
  {
    if mid < hi { SumsSplit(events, lo, mid, hi - 1); }
  }

  lemma {:induction false} SumsAgree(a: seq<Event>, b: seq<Event>, lo: int, hi: int)
    requires forall t | lo <= t < hi :: OnClock(a, t) == OnClock(b, t) && OnBill(a, t) == OnBill(b, t)
    ensures Clocked(a, lo, hi) == Clocked(b, lo, hi) && Billed(a, lo, hi) == Billed(b, lo, hi)
    decreases hi - lo
  {
    if lo < hi { SumsAgree(a, b, lo, hi - 1); }
  }

  function Clamp(t: int, lo: int, hi: int): int { Min(Max(t, lo), hi) }

  lemma {:induction false} OpenStartBound(events: seq<Event>)
    requires InOrder(events) && OpenAfter(events).Some?
    ensures OpenAfter(events).value.start <= events[|events| - 1].ts
  {
    var init := events[..|events| - 1];
    if OpenAfter(init).Some? { OpenStartBound(init); }
  }

  /** Moving the end of the window past every event changes nothing yet. */
  lemma {:induction false} AssembleEarlier(events: seq<Event>, since: int, now: int, cut: int)
    requires since <= cut <= now && InOrder(events) && forall i | 0 <= i < |events| :: events[i].ts <= cut
    ensures Assemble(events, since, now) == Assemble(events, since, cut)
  {
    if events != [] {
      AssembleEarlier(events[..|events| - 1], since, now, cut);
    }
  }

  /** An interval open since `start` accrues the stretch from the cut on. */
  lemma OverlapGrows(start: int, ts: int, since: int, now: int)
    requires since <= now && start <= ts
    ensures var cut := Clamp(ts, since, now);
      && Overlap(start, now, since, now) == Overlap(start, cut, since, cut) + (now - cut)
      && Overlap(start, ts, since, now) == Overlap(start, cut, since, cut)
      && Overlap(ts, now, since, now) == now - cut
  {
  }

  /** After the last event the clock runs at the rate it leaves behind. */
  lemma LastStretch(events: seq<Event>, since: int, now: int)
    requires InOrder(events) && events != [] && since <= now
    ensures var init, cut, o := events[..|events| - 1], Clamp(events[|events| - 1].ts, since, now), OpenAfter(events);
      && Clocked(events, since, now) == Clocked(init, since, cut) + (now - cut) * Rate(o)
      && Billed(events, since, now) == Billed(init, since, cut) + (now - cut) * BillRate(o)
  {
    var init, last, o := events[..|events| - 1], events[|events| - 1], OpenAfter(events);
    var cut := Clamp(last.ts, since, now);
    SumsSplit(events, since, cut, now);
    forall t | since <= t < cut ensures OnClock(events, t) == OnClock(init, t) && OnBill(events, t) == OnBill(init, t) {
      assert t < last.ts;
    }
    SumsAgree(events, init, since, cut);
    ConstantStretch(events, cut, now, Rate(o), BillRate(o));
  }

  /** One event and the stretch after it, in the assembled totals. */
  lemma FeedStep(u: Usage, e: Event, since: int, now: int)
    requires since <= now && (u.open.Some? ==> u.open.value.start <= e.ts)
    ensures var cut, o := Clamp(e.ts, since, now), OpenStep(u.open, e);
      var before, after := Closed(u, since, cut), Closed(Feed(u, e, since, now), since, now);
      && after.tracked == before.tracked + (now - cut) * Rate(o)
      && after.billable == before.billable + (now - cut) * BillRate(o)
  {
    var cut := Clamp(e.ts, since, now);
    if u.open.Some? {
      OverlapGrows(u.open.value.start, e.ts, since, now);
      Distributes(Overlap(u.open.value.start, cut, since, cut), now - cut, u.open.value.gpus);
    } else {
      OverlapGrows(e.ts, e.ts, since, now);
    }
  }

  lemma {:induction false} TotalsStep(events: seq<Event>, since: int, now: int)
    requires InOrder(events) && events != [] && since <= now
    ensures var init, cut, o := events[..|events| - 1], Clamp(events[|events| - 1].ts, since, now), OpenAfter(events);
      && Totals(events, since, now).tracked == Totals(init, since, cut).tracked + (now - cut) * Rate(o)
      && Totals(events, since, now).billable == Totals(init, since, cut).billable + (now - cut) * BillRate(o)
  {
    var init, last := events[..|events| - 1], events[|events| - 1];
    if last.ts < now { AssembleEarlier(init, since, now, Clamp(last.ts, since, now)); }
    AssembleOpen(init, since, now);
    if OpenAfter(init).Some? { OpenStartBound(init); }
    FeedStep(Assemble(init, since, now), last, since, now);
  }

  /** The assembled totals, for any history in time order, are the GPUs on the clock
      summed over every instant of the window. */
  lemma {:induction false} TotalsAreSums(events: seq<Event>, since: int, now: int)
    requires InOrder(events) && since <= now
    ensures Totals(events, since, now).tracked == Clocked(events, since, now)
    ensures Totals(events, since, now).billable == Billed(events, since, now)
    decreases |events|
  {
    if events == [] {
      ConstantStretch(events, since, now, 0, 0);
    } else {
      TotalsAreSums(events[..|events| - 1], since, Clamp(events[|events| - 1].ts, since, now));
      LastStretch(events, since, now);
      TotalsStep(events, since, now);
    }
  }

  lemma Distributes(a: nat, b: nat, g: nat)
    ensures (a + b) * g == a * g + b * g
  {
  }

  /** Billable time never exceeds tracked time, whatever the events. */
  lemma {:induction false} BillableWithinTracked(events: seq<Event>, since: int, now: int)
    ensures Assemble(events, since, now).billable <= Assemble(events, since, now).tracked
    ensures Totals(events, since, now).billable <= Totals(events, since, now).tracked
  {
    if events != [] { BillableWithinTracked(events[..|events| - 1], since, now); }
  }

  // ---------------------------------------------------------------------
  // One event before the window is enough
  // ---------------------------------------------------------------------

  /** Number of events before the window. */
  function PreCount(events: seq<Event>, since: int): (k: nat)
    requires InOrder(events)
    ensures k <= |events|
    ensures (forall i | 0 <= i < k :: events[i].ts < since) && (forall i | k <= i < |events| :: since <= events[i].ts)
  {
    if events == [] then 0
    else if events[|events| - 1].ts < since then |events|
    else PreCount(events[..|events| - 1], since)
  }

  /** What the endpoint reads: the latest event before the window and the window's own. */
  function Selected(events: seq<Event>, since: int): seq<Event>
    requires InOrder(events)
  {
    var k := PreCount(events, since);
    if k == 0 then events else events[k - 1..]
  }

  /** The values the endpoint believes to be on the clock at the window start. */
  function Believed(events: seq<Event>, since: int): Option<Interval>
    requires InOrder(events)
  {
    var k := PreCount(events, since);
    if k == 0 then None else OpenAfter([events[k - 1]])
  }

  function Carried(events: seq<Event>, since: int): Option<Interval>
    requires InOrder(events)
  {
    OpenAfter(events[..PreCount(events, since)])
  }

  /** Same GPUs and same billing, whenever they started. */
  predicate SameRate(a: Option<Interval>, b: Option<Interval>) {
    a.Some? == b.Some? && (a.Some? ==> a.value.gpus == b.value.gpus && a.value.billable == b.value.billable)
  }

  /** The index of the first closing event from `k` on. */
  function NextClose(events: seq<Event>, k: nat): (c: nat)
    requires k <= |events|
    ensures k <= c <= |events|
    ensures forall i | k <= i < c :: Opens(events[i].kind)
    ensures c < |events| ==> !Opens(events[c].kind)
    decreases |events| - k
  {
    if k == |events| || !Opens(events[k].kind) then k else NextClose(events, k + 1)
  }

  /** The last event decides whether an interval is open, so belief and truth can
      only differ in the rate. */
  lemma BelievedIsOpen(events: seq<Event>, since: int)
    requires InOrder(events)
    ensures Believed(events, since).Some? == Carried(events, since).Some?
    ensures var k := PreCount(events, since); k > 0 ==>
      && Carried(events, since) == OpenStep(OpenAfter(events[..k - 1]), events[k - 1])
      && Believed(events, since) == OpenStep(None, events[k - 1])
  {
    var k := PreCount(events, since);
    if k > 0 {
      OpenAfterPrefix(events, 0, k);
      assert events[0..k] == events[..k] && events[0..k - 1] == events[..k - 1];
      OpenAfterOne(events[k - 1]);
    }
  }

  lemma OpenAfterOne(e: Event)
    ensures OpenAfter([e]) == OpenStep(None, e)
  {
    assert [e][..0] == [];
  }

  /** The endpoint's view of the first `j` events. */
  function Seen(events: seq<Event>, since: int, j: nat): seq<Event>
    requires InOrder(events) && PreCount(events, since) <= j <= |events|
  {
    var k := PreCount(events, since);
    if k == 0 then events[..j] else events[k - 1..j]
  }

  /** Two views that start apart at `k` agree once an event closes both. */
  lemma {:induction false} ViewsFrom(events: seq<Event>, k: nat, c: nat, j: nat)
    requires 0 < k <= c <= |events| && k <= j <= |events|
    requires (forall i | k <= i < c :: Opens(events[i].kind)) && (c < |events| ==> !Opens(events[c].kind))
    requires OpenAfter(events[0..k]).Some? == OpenAfter(events[k - 1..k]).Some?
    ensures var full, seen := OpenAfter(events[0..j]), OpenAfter(events[k - 1..j]);
      && (SameRate(OpenAfter(events[0..k]), OpenAfter(events[k - 1..k])) || c < j ==> SameRate(full, seen))
      && (OpenAfter(events[0..k]).Some? && j <= c ==>
            full == OpenAfter(events[0..k]) && seen == OpenAfter(events[k - 1..k]))
    decreases j
  {
    if k < j {
      ViewsFrom(events, k, c, j - 1);
      OpenAfterPrefix(events, 0, j);
      OpenAfterPrefix(events, k - 1, j);
    }
  }

  /** From the window start on, the two views differ only until the next close. */
  lemma ViewsAfter(events: seq<Event>, since: int, j: nat)
    requires InOrder(events) && PreCount(events, since) <= j <= |events|
    ensures var k, full, seen := PreCount(events, since), OpenAfter(events[..j]), OpenAfter(Seen(events, since, j));
      && (SameRate(Carried(events, since), Believed(events, since)) || NextClose(events, k) < j ==>
          SameRate(full, seen))
      && (Carried(events, since).Some? && j <= NextClose(events, k) ==>
            full == Carried(events, since) && seen == Believed(events, since))
  {
    var k := PreCount(events, since);
    if k > 0 {
      BelievedIsOpen(events, since);
      assert events[k - 1..k] == [events[k - 1]] && events[0..k] == events[..k] && events[0..j] == events[..j];
      ViewsFrom(events, k, NextClose(events, k), j);
    }
  }

  lemma ReachesWindow(events: seq<Event>, since: int, t: int)
    requires InOrder(events) && since <= t
    ensures PreCount(events, since) <= |UpTo(events, t)|
  {
    UpToPrefix(events, t);
    var k := PreCount(events, since);
    assert k > 0 ==> events[k - 1].ts <= t;
  }

  /** Both views at an instant of the window. */
  lemma ViewsAt(events: seq<Event>, since: int, t: int) returns (j: nat)
    requires InOrder(events) && since <= t
    ensures PreCount(events, since) <= j <= |events|
    ensures (forall i | 0 <= i < j :: events[i].ts <= t) && (forall i | j <= i < |events| :: t < events[i].ts)
    ensures UpTo(events, t) == events[..j] && UpTo(Selected(events, since), t) == Seen(events, since, j)
  {
    var k := PreCount(events, since);
    ReachesWindow(events, since, t);
    UpToPrefix(events, t);
    j := |UpTo(events, t)|;
    if k > 0 {
      var sel := events[k - 1..];
      UpToIs(sel, t, j - (k - 1));
      assert sel[..j - (k - 1)] == events[k - 1..j];
    }
  }

  lemma ViewsSum(events: seq<Event>, since: int, now: int)
    requires InOrder(events) && SameRate(Carried(events, since), Believed(events, since))
    ensures Clocked(Selected(events, since), since, now) == Clocked(events, since, now)
    ensures Billed(Selected(events, since), since, now) == Billed(events, since, now)
  {
    forall t | since <= t < now
      ensures OnClock(Selected(events, since), t) == OnClock(events, t)
      ensures OnBill(Selected(events, since), t) == OnBill(events, t)
    {
      var j := ViewsAt(events, since, t);
      ViewsAfter(events, since, j);
    }
    SumsAgree(Selected(events, since), events, since, now);
  }

  /** Windowed accounting is exact when the event just before the window, if it
      found the interval already open, carries the opener's values. */
  lemma WindowedExact(events: seq<Event>, since: int, now: int)
    requires InOrder(events) && since <= now
    requires SameRate(Carried(events, since), Believed(events, since))
    ensures var u := Totals(Selected(events, since), since, now);
      u.tracked == Clocked(events, since, now) && u.billable == Billed(events, since, now)
  {
    TotalsAreSums(Selected(events, since), since, now);
    ViewsSum(events, since, now);
  }

  /** Where the believed rate is on the clock: up to the next close, or to the
      end of the window. */
  function BeliefEnds(events: seq<Event>, since: int, now: int): int
    requires InOrder(events)
  {
    var c := NextClose(events, PreCount(events, since));
    if c < |events| then Min(events[c].ts, now) else now
  }

  lemma BeforeBeliefEnds(events: seq<Event>, since: int, now: int, t: int)
    requires InOrder(events) && since <= t < BeliefEnds(events, since, now) && Carried(events, since).Some?
    ensures OnClock(Selected(events, since), t) == Rate(Believed(events, since))
    ensures OnBill(Selected(events, since), t) == BillRate(Believed(events, since))
    ensures OnClock(events, t) == Rate(Carried(events, since)) && OnBill(events, t) == BillRate(Carried(events, since))
  {
    var j := ViewsAt(events, since, t);
    var c := NextClose(events, PreCount(events, since));
    assert c < |events| ==> t < events[c].ts;
    ViewsAfter(events, since, j);
  }

  lemma AfterBeliefEnds(events: seq<Event>, since: int, now: int, t: int)
    requires InOrder(events) && since <= t && BeliefEnds(events, since, now) <= t < now
    ensures OnClock(Selected(events, since), t) == OnClock(events, t)
    ensures OnBill(Selected(events, since), t) == OnBill(events, t)
  {
    var j := ViewsAt(events, since, t);
    var c := NextClose(events, PreCount(events, since));
    assert c < |events| && events[c].ts <= t;
    ViewsAfter(events, since, j);
  }

  /** Two histories with constant rates up to `end` and the same ones after it. */
  lemma {:induction false} SumsDiffer(a: seq<Event>, b: seq<Event>, lo: int, end: int, hi: int,
                                      x: nat, y: nat, p: nat, q: nat)
    requires lo <= end <= hi
    requires forall t | lo <= t < end ::
      OnClock(a, t) == x && OnClock(b, t) == y && OnBill(a, t) == p && OnBill(b, t) == q
    requires forall t | end <= t < hi :: OnClock(a, t) == OnClock(b, t) && OnBill(a, t) == OnBill(b, t)
    ensures Clocked(a, lo, hi) - Clocked(b, lo, hi) == (end - lo) * (x - y)
    ensures Billed(a, lo, hi) - Billed(b, lo, hi) == (end - lo) * (p - q)
  {
    ConstantStretch(a, lo, end, x, p);
    ConstantStretch(b, lo, end, y, q);
    SumsAgree(a, b, end, hi);
    SumsSplit(a, lo, end, hi);
    SumsSplit(b, lo, end, hi);
    Factors(end - lo, x, y);
    Factors(end - lo, p, q);
  }

  /** The rates of both views, before and after the next close. */
  lemma RatesApart(events: seq<Event>, since: int, now: int)
    requires InOrder(events) && since <= now && Carried(events, since).Some?
    ensures var sel, end := Selected(events, since), BeliefEnds(events, since, now);
      var full, seen := Carried(events, since), Believed(events, since);
      && since <= end <= now
      && (forall t | since <= t < end ::
            OnClock(sel, t) == Rate(seen) && OnClock(events, t) == Rate(full)
            && OnBill(sel, t) == BillRate(seen) && OnBill(events, t) == BillRate(full))
      && (forall t | end <= t < now :: OnClock(sel, t) == OnClock(events, t) && OnBill(sel, t) == OnBill(events, t))
  {
    var sel, end := Selected(events, since), BeliefEnds(events, since, now);
    var full, seen := Carried(events, since), Believed(events, since);
    forall t | since <= t < end
      ensures OnClock(sel, t) == Rate(seen) && OnClock(events, t) == Rate(full)
      ensures OnBill(sel, t) == BillRate(seen) && OnBill(events, t) == BillRate(full)
    {
      BeforeBeliefEnds(events, since, now, t);
    }
    forall t | end <= t < now
      ensures OnClock(sel, t) == OnClock(events, t) && OnBill(sel, t) == OnBill(events, t)
    {
      AfterBeliefEnds(events, since, now, t);
    }
  }

  /** Both views summed: they differ by the rates until the next close. */
  lemma {:induction false} ViewsDiffer(events: seq<Event>, since: int, now: int)
    requires InOrder(events) && since <= now && Carried(events, since).Some?
    ensures var sel, wrong := Selected(events, since), BeliefEnds(events, since, now) - since;
      var seen, full := Believed(events, since), Carried(events, since);
      && Clocked(sel, since, now) - Clocked(events, since, now) == wrong * (Rate(seen) - Rate(full))
      && Billed(sel, since, now) - Billed(events, since, now) == wrong * (BillRate(seen) - BillRate(full))
  {
    var sel, end := Selected(events, since), BeliefEnds(events, since, now);
    var full, seen := Carried(events, since), Believed(events, since);
    RatesApart(events, since, now);
    SumsDiffer(sel, events, since, end, now, Rate(seen), Rate(full), BillRate(seen), BillRate(full));
  }

  /** The windowed view misses the truth by exactly the rate difference times the
      time until the next close, on the clock and on the bill. */
  lemma {:induction false} WindowedError(events: seq<Event>, since: int, now: int)
    requires InOrder(events) && since <= now && Carried(events, since).Some?
    ensures var u, wrong := Totals(Selected(events, since), since, now), BeliefEnds(events, since, now) - since;
      var seen, full := Believed(events, since), Carried(events, since);
      && u.tracked - Clocked(events, since, now) == wrong * (Rate(seen) - Rate(full))
      && u.billable - Billed(events, since, now) == wrong * (BillRate(seen) - BillRate(full))
  {
    TotalsAreSums(Selected(events, since), since, now);
    ViewsDiffer(events, since, now);
  }

  lemma Factors(d: int, a: int, b: int)
    ensures d * a - d * b == d * (a - b)
  {
  }

  /** Nothing was on the clock at the window start, or no window time passes
      before the next close. */
  predicate BeliefUnused(events: seq<Event>, since: int, now: int)
    requires InOrder(events)
  {
    Carried(events, since).None? || BeliefEnds(events, since, now) == since
  }

  /** Exactly when a window is accounted right: the belief is not used, or the
      latest event before the window carries the rate the opener set. Tracked and
      billable time fail independently. */
  lemma WindowedIff(events: seq<Event>, since: int, now: int)
    requires InOrder(events) && since <= now
    ensures var u := Totals(Selected(events, since), since, now);
      var seen, full := Believed(events, since), Carried(events, since);
      && (u.tracked == Clocked(events, since, now) <==>
            BeliefUnused(events, since, now) || Rate(seen) == Rate(full))
      && (u.billable == Billed(events, since, now) <==>
            BeliefUnused(events, since, now) || BillRate(seen) == BillRate(full))
  {
    var u := Totals(Selected(events, since), since, now);
    var seen, full, wrong := Believed(events, since), Carried(events, since), BeliefEnds(events, since, now) - since;
    if full.None? {
      BelievedIsOpen(events, since);
      WindowedExact(events, since, now);
    } else {
      WindowedError(events, since, now);
      ZeroDifference(u.tracked, Clocked(events, since, now), wrong, Rate(seen) - Rate(full));
      ZeroDifference(u.billable, Billed(events, since, now), wrong, BillRate(seen) - BillRate(full));
    }
  }

  lemma ZeroDifference(x: int, y: int, d: int, r: int)
    requires x - y == d * r
    ensures x == y <==> d == 0 || r == 0
  {
  }

  /** A single opening event before the window is on the clock all through it. */
  lemma OneOpening(e: Event, since: int, now: int)
    requires Opens(e.kind) && e.ts < since <= now
    ensures Clocked([e], since, now) == (now - since) * e.gpus
    ensures Billed([e], since, now) == (now - since) * if e.billable then e.gpus else 0
  {
    OpenAfterOne(e);
    ConstantStretch([e], since, now, e.gpus, if e.billable then e.gpus else 0);
  }

  /** What a window after two openings believes, and what is true. */
  lemma {:induction false} TwoOpenings(a: Event, b: Event, since: int, now: int)
    requires Opens(a.kind) && Opens(b.kind) && a.ts < b.ts < since < now
    ensures var h := [a, b];
      && Selected(h, since) == [b] && BeliefEnds(h, since, now) == now
      && Carried(h, since) == Some(Interval(a.ts, a.gpus, a.billable))
      && Believed(h, since) == Some(Interval(b.ts, b.gpus, b.billable))
  {
    var h := [a, b];
    PreCountIs(h, since, 2);
    assert h[1..] == [b] && h[..2] == h && h[..1] == [a];
    OpenAfterOne(a);
    OpenAfterOne(b);
    assert OpenAfter(h) == OpenStep(OpenAfter(h[..1]), b);
  }

  /** A launch, start or restart opens an interval: with nothing after it the VM is on
      the clock from then on, on the bill if the event says so. */
  lemma OpeningCounts(e: Event, since: int, now: int)
    requires e.kind in {LaunchEvent, StartEvent, RestartEvent} && since <= e.ts <= now
    ensures Totals([e], since, now).tracked == (now - e.ts) * e.gpus
    ensures Totals([e], since, now).billable == if e.billable then (now - e.ts) * e.gpus else 0
  {
    assert [e][..0] == [] && Assemble([e], since, now) == Feed(Assemble([], since, now), e, since, now);
  }

  /** A stop or destroy ends it: the time between the two counts, at the opener's values,
      and a second stop adds nothing. */
  lemma {:induction false} ClosingEnds(e: Event, c: Event, again: Event, since: int, now: int)
    requires e.kind in {LaunchEvent, StartEvent, RestartEvent}
    requires c.kind in {StopEvent, DestroyEvent} && again.kind in {StopEvent, DestroyEvent}
    requires since <= e.ts <= c.ts <= again.ts <= now
    ensures var u := Totals([e, c], since, now);
      && u.tracked == (c.ts - e.ts) * e.gpus && u.billable == (if e.billable then (c.ts - e.ts) * e.gpus else 0)
      && Totals([e, c, again], since, now) == u
  {
    assert [e][..0] == [] && [e, c][..1] == [e] && [e, c, again][..2] == [e, c];
    assert Assemble([e], since, now) == Feed(Assemble([], since, now), e, since, now);
    assert Assemble([e, c], since, now) == Feed(Assemble([e], since, now), c, since, now);
    assert Assemble([e, c, again], since, now) == Feed(Assemble([e, c], since, now), again, since, now);
  }

  /** A history the two ways into the code do produce: the scheduler's billable
      start and, while it runs, a restart from the command line, which is not
      billable unless asked. A window after it tracks all the time and bills none,
      although all of it is billable. */
  lemma {:induction false} RestartUnbills(a: Event, b: Event, since: int, now: int)
    requires a.kind == StartEvent && b.kind == RestartEvent && a.ts < b.ts < since < now
    requires a.gpus == b.gpus && b.gpus > 0 && a.billable && !b.billable
    ensures var u := Totals(Selected([a, b], since), since, now);
      && u.tracked == Clocked([a, b], since, now) == (now - since) * a.gpus
      && u.billable == 0 && Billed([a, b], since, now) == (now - since) * a.gpus
  {
    TwoOpenings(a, b, since, now);
    OneOpening(b, since, now);
    TotalsAreSums([b], since, now);
    ViewsDiffer([a, b], since, now);
    Factors(now - since, 0, a.gpus);
    Factors(now - since, a.gpus, a.gpus);
  }

  /** The concrete case: two GPUs for two units of time. */
  lemma RestartUnbillsFour()
    ensures var h := [Event(0, "v", StartEvent, 2, true), Event(1, "v", RestartEvent, 2, false)];
      var u := Totals(Selected(h, 2), 2, 4);
      InOrder(h) && u.tracked == Clocked(h, 2, 4) == 4 && u.billable == 0 && Billed(h, 2, 4) == 4
  {
    RestartUnbills(Event(0, "v", StartEvent, 2, true), Event(1, "v", RestartEvent, 2, false), 2, 4);
  }

  /** Every event that finds the interval open carries the opener's values. */
  predicate Redundant(events: seq<Event>) {
    forall i | 0 <= i < |events| && Opens(events[i].kind) && OpenAfter(events[..i]).Some? ::
      var o := OpenAfter(events[..i]).value; events[i].gpus == o.gpus && events[i].billable == o.billable
  }

  lemma RedundantSameRate(events: seq<Event>, since: int)
    requires InOrder(events) && Redundant(events)
    ensures SameRate(Carried(events, since), Believed(events, since))
  {
    BelievedIsOpen(events, since);
  }

  lemma {:induction false} PreCountIs(events: seq<Event>, since: int, k: nat)
    requires InOrder(events) && k <= |events|
    requires (k > 0 ==> events[k - 1].ts < since) && (k < |events| ==> since <= events[k].ts)
    ensures PreCount(events, since) == k
  {
    var n := PreCount(events, since);
    assert n > 0 ==> events[n - 1].ts < since;
    assert n < |events| ==> since <= events[n].ts;
  }

  lemma {:induction false} SuffixInOrder(events: seq<Event>, i: nat)
    requires InOrder(events) && i <= |events|
    ensures InOrder(events[i..])
  {
    assert forall j | 0 <= j < |events| - i :: events[i..][j] == events[i + j];
  }

  lemma {:induction false} SuffixPreCount(events: seq<Event>, i: nat, m: nat, since: int)
    requires InOrder(events) && i < m <= |events|
    requires events[m - 1].ts < since && (m < |events| ==> since <= events[m].ts)
    ensures InOrder(events[i..]) && PreCount(events[i..], since) == m - i
  {
    SuffixInOrder(events, i);
    assert events[i..][m - i - 1] == events[m - 1] && (m < |events| ==> events[i..][m - i] == events[m]);
    PreCountIs(events[i..], since, m - i);
  }

  lemma {:induction false} SuffixSelected(events: seq<Event>, i: nat, m: nat, since: int)
    requires InOrder(events) && i < m <= |events|
    requires events[m - 1].ts < since && (m < |events| ==> since <= events[m].ts)
    ensures InOrder(events[i..]) && Selected(events[i..], since) == events[m - 1..]
  {
    SuffixPreCount(events, i, m, since);
    assert events[i..][m - i - 1..] == events[m - 1..];
  }

  lemma PreCountEdges(events: seq<Event>, since: int)
    requires InOrder(events)
    ensures var m := PreCount(events, since);
      && (m > 0 ==> events[m - 1].ts < since) && (m < |events| ==> since <= events[m].ts)
  {
  }

  lemma {:induction false} PreCountGrows(events: seq<Event>, a: int, b: int)
    requires InOrder(events) && a <= b
    ensures PreCount(events, a) <= PreCount(events, b)
  {
    var k, m := PreCount(events, a), PreCount(events, b);
    assert k > 0 ==> events[k - 1].ts < b;
  }

  lemma {:induction false} SelectedAgainLater(events: seq<Event>, a: int, b: int, k: nat, m: nat)
    requires InOrder(events) && a <= b && k == PreCount(events, a) && k > 0 && m == PreCount(events, b)
    ensures InOrder(events[k - 1..]) && m > 0 && Selected(events[k - 1..], b) == events[m - 1..]
  {
    PreCountEdges(events, b);
    PreCountGrows(events, a, b);
    SuffixSelected(events, k - 1, m, b);
  }

  lemma SelectedFrom(events: seq<Event>, since: int)
    requires InOrder(events)
    ensures var k := PreCount(events, since); Selected(events, since) == if k == 0 then events else events[k - 1..]
  {
  }

  /** A window read from what an earlier window reads is the window itself. */
  lemma {:induction false} SelectedAgain(events: seq<Event>, a: int, b: int, sel: seq<Event>)
    requires InOrder(events) && a <= b && sel == Selected(events, a)
    ensures InOrder(sel) && Selected(sel, b) == Selected(events, b)
  {
    var k, m := PreCount(events, a), PreCount(events, b);
    SelectedFrom(events, a);
    if k > 0 {
      SelectedFrom(events, b);
      SelectedAgainLater(events, a, b, k, m);
    }
  }

  /** Exactly when two adjacent windows add up to the one that spans them: when
      the second window is accounted right for the history the first one sees. */
  lemma AdjacentWindowsAddIff(events: seq<Event>, a: int, b: int, c: int)
    requires InOrder(events) && a <= b <= c
    ensures InOrder(Selected(events, a))
    ensures var u, v, w := Totals(Selected(events, a), a, b), Totals(Selected(events, b), b, c),
                           Totals(Selected(events, a), a, c);
      var sel := Selected(events, a);
      var seen, full := Believed(sel, b), Carried(sel, b);
      && (u.tracked + v.tracked == w.tracked <==> BeliefUnused(sel, b, c) || Rate(seen) == Rate(full))
      && (u.billable + v.billable == w.billable <==> BeliefUnused(sel, b, c) || BillRate(seen) == BillRate(full))
  {
    var sel := Selected(events, a);
    SelectedAgain(events, a, b, sel);
    TotalsAreSums(sel, a, b);
    TotalsAreSums(sel, a, c);
    SumsSplit(sel, a, b, c);
    WindowedIff(sel, b, c);
  }

  /** Adjacent windows of a history without conflicting openings add up. */
  lemma AdjacentWindowsAdd(events: seq<Event>, a: int, b: int, c: int)
    requires InOrder(events) && Redundant(events) && a <= b <= c
    ensures var u, v, w := Totals(Selected(events, a), a, b), Totals(Selected(events, b), b, c),
                           Totals(Selected(events, a), a, c);
      u.tracked + v.tracked == w.tracked && u.billable + v.billable == w.billable
  {
    RedundantSameRate(events, a);
    RedundantSameRate(events, b);
    WindowedExact(events, a, b);
    WindowedExact(events, b, c);
    WindowedExact(events, a, c);
    SumsSplit(events, a, b, c);
  }

  // ---------------------------------------------------------------------
  // The two queries of the endpoint
  // ---------------------------------------------------------------------

  type Histories = map<string, seq<Event>>

  /** The table: each VM's rows in time order. */
  predicate Table(hist: Histories) {
    forall v | v in hist :: InOrder(hist[v]) && forall i | 0 <= i < |hist[v]| :: hist[v][i].vm == v
  }

  function PreRow(history: seq<Event>, since: int): seq<Event>
    requires InOrder(history)
  {
    var k := PreCount(history, since);
    if k == 0 then [] else [history[k - 1]]
  }

  /** Rows grouped by VM, laid out one VM after the other. */
  function Gather(parts: Histories, vms: seq<string>): seq<Event> {
    if vms == [] then []
    else
      var v := vms[|vms| - 1];
      Gather(parts, vms[..|vms| - 1]) + if v in parts then parts[v] else []
  }

  /** Each VM's latest row before the window. */
  function PreRows(hist: Histories, since: int): Histories
    requires Table(hist)
  {
    map v | v in hist :: PreRow(hist[v], since)
  }

  /** Each VM's rows inside the window. */
  function WindowRows(hist: Histories, since: int): Histories
    requires Table(hist)
  {
    map v | v in hist :: hist[v][PreCount(hist[v], since)..]
  }

  predicate OwnRows(parts: Histories) {
    forall v, i | v in parts && 0 <= i < |parts[v]| :: parts[v][i].vm == v
  }

  lemma {:induction false} OfConcat(a: seq<Event>, b: seq<Event>, vm: string)
    ensures Of(a + b, vm) == Of(a, vm) + Of(b, vm)
  {
    if b == [] {
      assert a + b == a;
    } else {
      assert (a + b)[..|a + b| - 1] == a + b[..|b| - 1];
      OfConcat(a, b[..|b| - 1], vm);
    }
  }

  lemma {:induction false} OfSingleVm(s: seq<Event>, v: string, vm: string)
    requires forall i | 0 <= i < |s| :: s[i].vm == v
    ensures Of(s, vm) == if v == vm then s else []
  {
    if s != [] { OfSingleVm(s[..|s| - 1], v, vm); }
  }

  lemma {:induction false} GatherOf(parts: Histories, vms: seq<string>, vm: string)
    requires OwnRows(parts) && NoDuplicates(vms)
    ensures Of(Gather(parts, vms), vm) == if vm in vms && vm in parts then parts[vm] else []
  {
    if vms != [] {
      var init, v := vms[..|vms| - 1], vms[|vms| - 1];
      assert vms == init + [v];
      GatherOf(parts, init, vm);
      var part := if v in parts then parts[v] else [];
      OfConcat(Gather(parts, init), part, vm);
      OfSingleVm(part, v, vm);
      if v == vm {
        assert vm !in init;
        assert Of(Gather(parts, vms), vm) == [] + part == part;
      } else {
        assert vm in vms <==> vm in init;
        assert Of(Gather(parts, vms), vm) == Of(Gather(parts, init), vm) + [];
      }
    }
  }

  /** What the endpoint reads of a VM splits into its two queries. */
  lemma SelectedSplits(history: seq<Event>, since: int)
    requires InOrder(history)
    ensures Selected(history, since) == PreRow(history, since) + history[PreCount(history, since)..]
  {
    var k := PreCount(history, since);
    assert k > 0 ==> [history[k - 1]] + history[k..] == history[k - 1..];
    assert [] + history[0..] == history;
  }

  /** The rows the two queries return for a VM are its selected history. */
  lemma QueriesSelect(hist: Histories, vms: seq<string>, since: int, vm: string)
    requires Table(hist) && NoDuplicates(vms) && vm in vms && vm in hist
    ensures Of(Gather(PreRows(hist, since), vms) + Gather(WindowRows(hist, since), vms), vm)
      == Selected(hist[vm], since)
  {
    GatherOf(PreRows(hist, since), vms, vm);
    GatherOf(WindowRows(hist, since), vms, vm);
    OfConcat(Gather(PreRows(hist, since), vms), Gather(WindowRows(hist, since), vms), vm);
    SelectedSplits(hist[vm], since);
  }

  /** The totals of a VM, none for one without rows. */
  function TotalsOf(perVm: map<string, Usage>, v: string): Usage {
    if v in perVm then perVm[v] else Usage(None, 0, 0)
  }

  /** A window of a VM is accounted right exactly when its latest event before the
      window agrees with the opener, or does not matter. */
  ghost predicate RightUnderAgreement(history: seq<Event>, u: Usage, since: int, now: int)
    requires InOrder(history)
  {
    var seen, full := Believed(history, since), Carried(history, since);
    && (u.tracked == Clocked(history, since, now) <==> BeliefUnused(history, since, now) || Rate(seen) == Rate(full))
    && (u.billable == Billed(history, since, now) <==>
          BeliefUnused(history, since, now) || BillRate(seen) == BillRate(full))
  }

  lemma {:induction false} OneVmRight(history: seq<Event>, u: Usage, since: int, now: int)
    requires InOrder(history) && since <= now && u == Totals(Selected(history, since), since, now)
    ensures RightUnderAgreement(history, u, since, now)
    ensures Redundant(history) ==>
      u.tracked == Clocked(history, since, now) && u.billable == Billed(history, since, now)
  {
    WindowedIff(history, since, now);
    if Redundant(history) {
      RedundantSameRate(history, since);
      WindowedExact(history, since, now);
    }
  }

  /** What the loop made of a VM's rows are the totals of its selected history. */
  lemma {:induction false} OneVmTotals(hist: Histories, vms: seq<string>, since: int, now: int, v: string,
                                       perVm: map<string, Usage>)
    requires Table(hist) && NoDuplicates(vms) && v in vms && v in hist
    requires var rows := Gather(PreRows(hist, since), vms) + Gather(WindowRows(hist, since), vms);
      && (v in perVm <==> Of(rows, v) != [])
      && (v in perVm ==> perVm[v] == Totals(Of(rows, v), since, now))
    ensures TotalsOf(perVm, v) == Totals(Selected(hist[v], since), since, now)
    ensures v !in perVm ==> hist[v] == []
  {
    QueriesSelect(hist, vms, since, v);
    assert Totals([], since, now) == Usage(None, 0, 0);
  }

  /** The endpoint, from its two queries alone: every VM's totals are the GPU time
      it was really on the clock and on the bill inside the window, exactly unless
      its latest event before the window disagrees with its opener. */
  method VmUsage(hist: Histories, vms: seq<string>, since: int, now: int) returns (perVm: map<string, Usage>)
    requires Table(hist) && NoDuplicates(vms) && (forall v | v in vms :: v in hist) && since <= now
    ensures forall v | v in vms :: RightUnderAgreement(hist[v], TotalsOf(perVm, v), since, now)
    ensures forall v | v in vms && Redundant(hist[v]) ::
      && TotalsOf(perVm, v).tracked == Clocked(hist[v], since, now)
      && TotalsOf(perVm, v).billable == Billed(hist[v], since, now)
    ensures forall v | v in vms && v !in perVm :: hist[v] == []
  {
    var rows := Gather(PreRows(hist, since), vms) + Gather(WindowRows(hist, since), vms);
    perVm := AssembleUsage(rows, since, now);
    forall v | v in vms
      ensures RightUnderAgreement(hist[v], TotalsOf(perVm, v), since, now)
      ensures Redundant(hist[v]) ==>
        && TotalsOf(perVm, v).tracked == Clocked(hist[v], since, now)
        && TotalsOf(perVm, v).billable == Billed(hist[v], since, now)
      ensures v !in perVm ==> hist[v] == []
    {
      OneVmTotals(hist, vms, since, now, v, perVm);
      OneVmRight(hist[v], TotalsOf(perVm, v), since, now);
    }
  }
}
