/** What a fault-free tick achieves: the same-tick GPU handoff, convergence of
    steady intents, and that a converged host is left alone. */
module Convergence {
  import opened Basics
  import opened Schedule
  import Names
  import opened GpuPool
  import opened Reconciler

  // ---------------------------------------------------------------------
  // The stop pass without faults
  // ---------------------------------------------------------------------

  /** A VM put to rest: powered off and stripped of its GPUs. A container has
      none to give back. */
  function Rested(inst: Instance): Instance {
    (if inst.isVm then Stripped(inst) else inst).(running := false)
  }

  /** The instance the stop pass leaves. */
  function AfterStops(h: HostState, n: string, now: int): Option<Instance> {
    if n !in h.insts then None
    else if n in Local(h) && Decide(h, n, now) in {StopGuest, ReleaseStopped} then Some(Rested(h.insts[n]))
    else Some(h.insts[n])
  }

  /** Nothing fails in the tick, and no marker it compares lacks a timezone. */
  predicate Clean(h: HostState, now: int, f: Faults) {
    NoFaults(f) && forall n | n in Local(h) :: Decide(h, n, now) != Choke
  }

  lemma AloneWithoutFaults(h: HostState, n: string, now: int, f: Faults)
    requires NoFaults(f) && n in Local(h) && Decide(h, n, now) != Choke
    ensures var a := Alone(h, n, now, f);
      && !a.aborted && Get(a.h.insts, n) == AfterStops(h, n, now)
      && Get(a.h.graces, n) == (match Decide(h, n, now)
           case HandsOff => Get(h.graces, n)
           case AwaitGrace => Get(h.graces, n)
           case WarnGuest => Some(Grace(Utc(Truncated(now)), false))
           case _ => None)
      && (n in a.h.issues <==> n in h.issues && Decide(h, n, now) in {StartLater, WarnGuest, AwaitGrace})
  {
    match Decide(h, n, now) {
      case HandsOff =>
      case KeepRunning =>
      case StartLater =>
      case WarnGuest =>
      case AwaitGrace =>
      case Choke =>
      case StopGuest =>
        var e := Stop(h.insts, n, f);
        if h.insts[n].isVm { ReleaseStrips(e.insts, n, f); }
      case StaysOff =>
      case ReleaseStopped =>
        if n in h.insts && h.insts[n].isVm { ReleaseStrips(h.insts, n, f); }
    }
  }

  lemma {:induction false} StopPassCompletes(p: Phase, snap: HostState, names: seq<string>, now: int, f: Faults)
    requires NoFaults(f) && !p.aborted && NoDuplicates(names)
    requires forall m | m in names :: m in Local(snap) && AgreesOn(p, snap, m) && Decide(snap, m, now) != Choke
    ensures var q := StopPass(p, snap, names, now, f);
      && !q.aborted
      && (forall m :: m in q.toStart <==> m in p.toStart || (m in names && Decide(snap, m, now) == StartLater))
      && (NoDuplicates(p.toStart) && (forall m | m in names :: m !in p.toStart) ==> NoDuplicates(q.toStart))
    decreases |names|
  {
    if names != [] {
      var m := names[0];
      var next := Visit(p, snap, m, now, f);
      VisitLocal(p, snap, m, now, f);
      VisitIsAlone(p, snap, m, now, f);
      AloneWithoutFaults(snap, m, now, f);
      forall k | k in names[1..] ensures AgreesOn(next, snap, k) && k in Local(snap) && Decide(snap, k, now) != Choke {
        assert k in names && k != m && SameOf(k, next.h, p.h);
      }
      StopPassCompletes(next, snap, names[1..], now, f);
      assert forall k :: k in names <==> k == m || k in names[1..];
    }
  }

  /** The whole stop pass without faults, VM by VM. */
  lemma FirstPassWithoutFaults(h: HostState, now: int, f: Faults)
    requires Clean(h, now, f)
    ensures var q := FirstPass(h, now, f);
      && !q.aborted && q.h == h.(insts := q.h.insts, graces := q.h.graces, issues := q.h.issues)
      && (forall n :: Get(q.h.insts, n) == AfterStops(h, n, now))
      && NoDuplicates(q.toStart)
      && (forall n :: n in q.toStart <==> n in Local(h) && Decide(h, n, now) == StartLater)
      && (forall n | n in Local(h) :: Get(q.h.graces, n) == Get(Alone(h, n, now, f).h.graces, n))
      && (forall n | n in Local(h) :: n in q.h.issues <==> n in Alone(h, n, now, f).h.issues)
      && (forall n | n !in Local(h) :: Get(q.h.graces, n) == Get(h.graces, n) && (n in q.h.issues <==> n in h.issues))
  {
    var names := Names.Sorted(Local(h));
    StopPassCompletes(Phase(h, false, [], {}, {}, {}), h, names, now, f);
    var q := FirstPass(h, now, f);
    forall n
      ensures Get(q.h.insts, n) == AfterStops(h, n, now)
      ensures n in Local(h) ==> Get(q.h.graces, n) == Get(Alone(h, n, now, f).h.graces, n)
                                && (n in q.h.issues <==> n in Alone(h, n, now, f).h.issues)
      ensures n !in Local(h) ==> Get(q.h.graces, n) == Get(h.graces, n) && (n in q.h.issues <==> n in h.issues)
      ensures q.h == h.(insts := q.h.insts, graces := q.h.graces, issues := q.h.issues)
    {
      FirstPassEach(h, now, f, n);
      if n in Local(h) { AloneWithoutFaults(h, n, now, f); }
    }
  }

  // ---------------------------------------------------------------------
  // Same-tick handoff
  // ---------------------------------------------------------------------

  /** The tick hands back the GPUs of `n`. */
  predicate Releases(h: HostState, n: string, now: int) {
    n in Local(h) && n in h.insts && h.insts[n].isVm && Decide(h, n, now) in {StopGuest, ReleaseStopped}
  }

  /** The pool the start pass sees is the pool before the tick plus everything
      the stop pass released. */
  lemma HandoffPool(h: HostState, now: int, f: Faults)
    requires Clean(h, now, f) && Exclusive(h.pool, h.insts)
    ensures var mid := FirstPass(h, now, f).h;
      forall g :: g in Free(h.pool, mid.insts) <==>
        g in Free(h.pool, h.insts) || exists n, d :: HeldBy(h.insts, n, d, g) && Releases(h, n, now)
  {
    var mid := FirstPass(h, now, f).h;
    FirstPassWithoutFaults(h, now, f);
    AssignedMeans(h.insts);
    AssignedMeans(mid.insts);
    forall n, d, g
      ensures HeldBy(mid.insts, n, d, g) <==> HeldBy(h.insts, n, d, g) && !Releases(h, n, now)
    {
      assert Get(mid.insts, n) == AfterStops(h, n, now);
    }
  }

  /** GPUs the listed VMs still lack. */
  function TotalMissing(h: HostState, names: seq<string>): nat {
    if names == [] then 0 else Missing(h.insts, Want(h, names[0]), names[0]) + TotalMissing(h, names[1..])
  }

  /** `n` runs with its registered GPU count (or the larger one it already held). */
  ghost predicate UpInFull(before: HostState, after: HostState, n: string) {
    && Running(after, n) && n in before.insts
    && (before.insts[n].isVm ==>
          |GpuDevices(after.insts[n])| == |GpuDevices(before.insts[n])| + Missing(before.insts, Want(before, n), n)
          && Want(before, n) <= |GpuDevices(after.insts[n])|)
  }

  lemma DropCount(x: seq<string>, y: seq<string>, k: nat)
    requires NoDuplicates(x) && NoDuplicates(y) && k <= |x|
    requires forall g :: g in y <==> g in x && g !in x[..k]
    ensures |y| == |x| - k
  {
    var z := x[k..];
    assert x == x[..k] + z;
    forall g | g in z ensures g !in x[..k] {
      var j :| 0 <= j < |z| && z[j] == g;
      assert x[k + j] == g;
    }
    DistinctSize(z);
    DistinctSize(y);
    assert (set g | g in z) == (set g | g in y);
  }

  /** Acquiring `k` GPUs shortens the healthy free list by exactly `k`. */
  lemma HealthyShrinks(pool: seq<string>, a: Instances, b: Instances, wedged: set<string>, k: nat)
    requires NoDuplicates(pool) && k <= |Healthy(pool, a, wedged)|
    requires forall g :: g in Assigned(b) <==> g in Assigned(a) || g in Healthy(pool, a, wedged)[..k]
    ensures |Healthy(pool, b, wedged)| == |Healthy(pool, a, wedged)| - k
  {
    DropCount(Healthy(pool, a, wedged), Healthy(pool, b, wedged), k);
  }

  /** Acquisition without faults: it succeeds iff the missing GPUs are free and
      healthy, and takes the first of those. */
  lemma AcquireExact(pool: seq<string>, insts: Instances, want: nat, n: string, f: Faults)
    requires NoFaults(f) && Exclusive(pool, insts) && n in insts
    ensures var e, k := EnsureAttached(pool, insts, want, n, f), Missing(insts, want, n);
      var healthy := Healthy(pool, insts, f.wedged);
      && (e.raised <==> |healthy| < k)
      && (!e.raised ==>
            && n in e.insts && |GpuDevices(e.insts[n])| == |GpuDevices(insts[n])| + k
            && forall g :: g in Assigned(e.insts) <==> g in Assigned(insts) || g in healthy[..k])
  {
    var k, healthy := Missing(insts, want, n), Healthy(pool, insts, f.wedged);
    if 0 < k <= |healthy| {
      AttachAllCounts(insts, n, healthy[..k], 0, f);
      assert forall g | g in healthy[..k] :: g in healthy;
      AttachAllAdds(pool, insts, n, healthy[..k], 0, f);
    }
  }

  /** One start without faults: it succeeds iff the missing GPUs are there. */
  lemma StartOneExact(h: HostState, n: string, f: Faults)
    requires NoFaults(f) && Exclusive(h.pool, h.insts) && n in h.insts && !h.insts[n].running
    ensures var q := StartOne(h, n, f);
      && Exclusive(h.pool, q.insts) && q == h.(insts := q.insts, issues := q.issues)
      && n in q.insts && q.insts == h.insts[n := q.insts[n]]
      && (Running(q, n) <==> Missing(h.insts, Want(h, n), n) <= |Healthy(h.pool, h.insts, f.wedged)|)
      && q.issues == if Running(q, n) then h.issues - {n} else h.issues + {n}
  {
    EnsureAttachedKeeps(h.pool, h.insts, Want(h, n), n, f);
    BringUpKeeps(h.pool, h.insts, Want(h, n), n, f);
    AcquireExact(h.pool, h.insts, Want(h, n), n, f);
  }

  /** A start that succeeds takes exactly the missing GPUs. */
  lemma StartOneTakes(h: HostState, n: string, f: Faults)
    requires NoFaults(f) && Exclusive(h.pool, h.insts) && n in h.insts && !h.insts[n].running
    requires Missing(h.insts, Want(h, n), n) <= |Healthy(h.pool, h.insts, f.wedged)|
    ensures var q := StartOne(h, n, f);
      && UpInFull(h, q, n)
      && |Healthy(h.pool, q.insts, f.wedged)|
         == |Healthy(h.pool, h.insts, f.wedged)| - Missing(h.insts, Want(h, n), n)
  {
    var e := EnsureAttached(h.pool, h.insts, Want(h, n), n, f);
    EnsureAttachedKeeps(h.pool, h.insts, Want(h, n), n, f);
    AcquireExact(h.pool, h.insts, Want(h, n), n, f);
    SameAssigned(e.insts, n);
    assert StartOne(h, n, f).insts == Powered(e.insts, n, true);
    HealthyShrinks(h.pool, h.insts, StartOne(h, n, f).insts, f.wedged, Missing(h.insts, Want(h, n), n));
  }

  lemma SameAssigned(insts: Instances, n: string)
    requires n in insts
    ensures Assigned(Powered(insts, n, true)) == Assigned(insts)
  {
    AssignedMeans(insts);
    AssignedMeans(Powered(insts, n, true));
    assert forall m, d, g :: HeldBy(Powered(insts, n, true), m, d, g) <==> HeldBy(insts, m, d, g);
  }

  lemma {:induction false} TotalMissingSame(a: HostState, b: HostState, names: seq<string>)
    requires a.registry == b.registry && forall n | n in names :: Get(a.insts, n) == Get(b.insts, n)
    ensures TotalMissing(a, names) == TotalMissing(b, names)
  {
    if names != [] {
      assert names[0] in names;
      TotalMissingSame(a, b, names[1..]);
    }
  }

  /** The start pass touches only the listed VMs. */
  lemma {:induction false} StartPassOthers(h: HostState, names: seq<string>, f: Faults, n: string)
    requires NoFaults(f) && Exclusive(h.pool, h.insts) && NoDuplicates(names) && n !in names
    requires forall m | m in names :: m in h.insts && !h.insts[m].running
    ensures var q := StartPass(h, names, f);
      Get(q.insts, n) == Get(h.insts, n) && (n in q.issues <==> n in h.issues)
    decreases |names|
  {
    if names != [] {
      StartOneExact(h, names[0], f);
      var next := StartOne(h, names[0], f);
      forall m | m in names[1..] ensures m in next.insts && !next.insts[m].running {
        assert m in names && m != names[0];
      }
      StartPassOthers(next, names[1..], f, n);
    }
  }

  ghost predicate AllRunning(h: HostState, names: seq<string>) { forall n | n in names :: Running(h, n) }

  /** What remains to be started after the first of the list. */
  lemma AfterOneStart(h: HostState, names: seq<string>, f: Faults)
    requires NoFaults(f) && Exclusive(h.pool, h.insts) && NoDuplicates(names) && names != []
    requires forall n | n in names :: n in h.insts && !h.insts[n].running
    ensures var m, rest, next := names[0], names[1..], StartOne(h, names[0], f);
      && NoDuplicates(rest) && m !in rest && Exclusive(next.pool, next.insts) && next.pool == h.pool
      && next.registry == h.registry && TotalMissing(next, rest) == TotalMissing(h, rest)
      && (forall n | n in rest :: n in next.insts && !next.insts[n].running && next.insts[n] == h.insts[n])
      && (Running(StartPass(h, names, f), m) <==> Running(next, m))
      && Get(StartPass(h, names, f).insts, m) == Get(next.insts, m)
      && (m in StartPass(h, names, f).issues <==> m in next.issues)
  {
    var m, rest, next := names[0], names[1..], StartOne(h, names[0], f);
    assert m in names;
    StartOneExact(h, m, f);
    forall n | n in rest ensures n in next.insts && !next.insts[n].running && next.insts[n] == h.insts[n] {
      assert n in names && n != m;
    }
    TotalMissingSame(h, next, rest);
    StartPassOthers(next, rest, f, m);
  }

  /** Every start of the pass succeeds iff the missing GPUs of all of them
      together are free and healthy. */
  lemma {:induction false} AllStartIff(h: HostState, names: seq<string>, f: Faults)
    requires NoFaults(f) && Exclusive(h.pool, h.insts) && NoDuplicates(names)
    requires forall n | n in names :: n in h.insts && !h.insts[n].running
    ensures AllRunning(StartPass(h, names, f), names)
      <==> TotalMissing(h, names) <= |Healthy(h.pool, h.insts, f.wedged)|
    decreases |names|
  {
    if names != [] {
      var m, rest, next := names[0], names[1..], StartOne(h, names[0], f);
      assert m in names;
      StartOneExact(h, m, f);
      AfterOneStart(h, names, f);
      AllStartIff(next, rest, f);
      if Running(next, m) { StartOneTakes(h, m, f); }
      assert forall n :: n in names <==> n == m || n in rest;
    }
  }

  /** With room for all, each comes up in full and without an issue. */
  lemma {:induction false} AllStartInFull(h: HostState, names: seq<string>, f: Faults, n: string)
    requires NoFaults(f) && Exclusive(h.pool, h.insts) && NoDuplicates(names) && n in names
    requires forall n | n in names :: n in h.insts && !h.insts[n].running
    requires TotalMissing(h, names) <= |Healthy(h.pool, h.insts, f.wedged)|
    ensures UpInFull(h, StartPass(h, names, f), n) && n !in StartPass(h, names, f).issues
    decreases |names|
  {
    var m, rest, next := names[0], names[1..], StartOne(h, names[0], f);
    assert m in names;
    StartOneExact(h, m, f);
    StartOneTakes(h, m, f);
    AfterOneStart(h, names, f);
    if n != m {
      assert n in rest;
      AllStartInFull(next, rest, f, n);
      UpInFullSame(next, h, StartPass(h, names, f), n);
    }
  }

  lemma UpInFullSame(a: HostState, b: HostState, q: HostState, n: string)
    requires UpInFull(a, q, n) && a.registry == b.registry && n in b.insts && a.insts[n] == b.insts[n]
    ensures UpInFull(b, q, n)
  {
  }

  /** The VMs a tick will try to start all exist on this host. */
  predicate StartersExist(h: HostState, now: int) {
    forall n | n in Local(h) && Decide(h, n, now) == StartLater :: n in h.insts
  }

  /** After the stop pass, enough healthy GPUs are free for everyone to start. */
  ghost predicate RoomToStart(h: HostState, now: int, f: Faults) {
    var p := FirstPass(h, now, f);
    TotalMissing(p.h, p.toStart) <= |Healthy(h.pool, p.h.insts, f.wedged)|
  }

  /** The start pass finds its VMs as the tick found them. */
  lemma StartersReady(h: HostState, now: int, f: Faults)
    requires Clean(h, now, f) && Exclusive(h.pool, h.insts) && StartersExist(h, now)
    ensures var p := FirstPass(h, now, f);
      && p.h.pool == h.pool && p.h.registry == h.registry && Exclusive(p.h.pool, p.h.insts)
      && !p.aborted && NoDuplicates(p.toStart)
      && (forall n :: n in p.toStart <==> n in Local(h) && Decide(h, n, now) == StartLater)
      && (forall n | n in p.toStart ::
            n in p.h.insts && n in h.insts && p.h.insts[n] == h.insts[n] && !h.insts[n].running)
  {
    var p := FirstPass(h, now, f);
    FirstPassWithoutFaults(h, now, f);
    StopPassKeepsExclusive(Phase(h, false, [], {}, {}, {}), h, Names.Sorted(Local(h)), now, f);
    forall n | n in p.toStart
      ensures n in p.h.insts && n in h.insts && p.h.insts[n] == h.insts[n] && !h.insts[n].running
    {
      assert Get(p.h.insts, n) == AfterStops(h, n, now);
    }
  }

  /** Same-tick handoff: in a tick without faults every VM it starts comes up iff,
      counting the GPUs released in this very tick, the missing ones are free and
      healthy. */
  lemma SameTickHandoff(h: HostState, now: int, f: Faults)
    requires Clean(h, now, f) && Exclusive(h.pool, h.insts) && StartersExist(h, now)
    ensures (forall n | n in Local(h) && Decide(h, n, now) == StartLater :: Running(Tick(h, now, f), n))
       <==> RoomToStart(h, now, f)
  {
    StartersReady(h, now, f);
    var p := FirstPass(h, now, f);
    AllStartIff(p.h, p.toStart, f);
    assert forall n :: Running(Tick(h, now, f), n) <==> Running(StartPass(p.h, p.toStart, f), n);
  }

  /** With room, each comes up with its full registered count and without an issue. */
  lemma HandoffInFull(h: HostState, now: int, f: Faults, n: string)
    requires Clean(h, now, f) && Exclusive(h.pool, h.insts) && StartersExist(h, now) && RoomToStart(h, now, f)
    requires n in Local(h) && Decide(h, n, now) == StartLater
    ensures UpInFull(h, Tick(h, now, f), n) && n !in Tick(h, now, f).issues
  {
    StartersReady(h, now, f);
    var p := FirstPass(h, now, f);
    AllStartInFull(p.h, p.toStart, f, n);
    UpInFullSame(p.h, h, StartPass(p.h, p.toStart, f), n);
  }

  // ---------------------------------------------------------------------
  // A converged host is left alone
  // ---------------------------------------------------------------------

  predicate Quiet(h: HostState, n: string, now: int) {
    && n !in h.issues
    && (Decide(h, n, now) in {HandsOff, StaysOff} || (Decide(h, n, now) == KeepRunning && n !in h.graces))
  }

  predicate Converged(h: HostState, now: int) {
    h.issues <= h.registry.Keys && forall n | n in Local(h) :: Quiet(h, n, now)
  }

  lemma {:induction false} QuietPass(p: Phase, snap: HostState, names: seq<string>, now: int, f: Faults)
    requires p.h == snap && !p.aborted && forall n | n in names :: Quiet(snap, n, now)
    ensures var q := StopPass(p, snap, names, now, f); q.h == snap && !q.aborted && q.toStart == p.toStart
    decreases |names|
  {
    if names != [] {
      var n := names[0];
      assert n in names && Quiet(snap, n, now);
      assert snap.issues - {n} == snap.issues;
      if Decide(snap, n, now) == KeepRunning { assert snap.graces - {n} == snap.graces; }
      QuietPass(Visit(p, snap, n, now, f), snap, names[1..], now, f);
    }
  }

  /** A tick of a converged host changes nothing at all. */
  lemma ConvergedIsFixed(h: HostState, now: int, f: Faults)
    requires Converged(h, now)
    ensures Tick(h, now, f) == h
  {
    QuietPass(Phase(h, false, [], {}, {}, {}), h, Names.Sorted(Local(h)), now, f);
    assert h.issues * h.registry.Keys == h.issues;
  }

  // ---------------------------------------------------------------------
  // Steady intents converge
  // ---------------------------------------------------------------------

  datatype TickIn = TickIn(now: int, faults: Faults)

  function TickRun(h: HostState, ticks: seq<TickIn>): HostState {
    if ticks == [] then h
    else
      var t := ticks[|ticks| - 1];
      Tick(TickRun(h, ticks[..|ticks| - 1]), t.now, t.faults)
  }

  /** A fault-free tick with room to start, VM by VM. */
  lemma TickEach(h: HostState, now: int, f: Faults, n: string)
    requires Clean(h, now, f) && Exclusive(h.pool, h.insts) && StartersExist(h, now) && RoomToStart(h, now, f)
    ensures var q := Tick(h, now, f);
      && q == h.(insts := q.insts, graces := q.graces, issues := q.issues)
      && Exclusive(q.pool, q.insts) && q.issues <= q.registry.Keys
      && (n in Local(h) ==>
            && Get(q.graces, n) == Get(Alone(h, n, now, f).h.graces, n)
            && (if Decide(h, n, now) == StartLater then Running(q, n) && n !in q.issues
                else Get(q.insts, n) == AfterStops(h, n, now)
                     && (n in q.issues ==> n in h.issues && Decide(h, n, now) in {WarnGuest, AwaitGrace})))
  {
    var p := FirstPass(h, now, f);
    FirstPassWithoutFaults(h, now, f);
    TickKeepsExclusive(h, now, f);
    StartPassFrame(p.h, p.toStart, f);
    StartersReady(h, now, f);
    if n in Local(h) {
      AloneWithoutFaults(h, n, now, f);
      if Decide(h, n, now) == StartLater {
        HandoffInFull(h, now, f, n);
      } else {
        StartPassOthers(p.h, p.toStart, f, n);
      }
    }
  }

  /** A marker that has expired by `t0` plus the grace. */
  predicate Old(g: Grace, t0: int) {
    g.immediate || g.warned.Unparseable? || (g.warned.Utc? && g.warned.at <= t0)
  }

  /** The intents are at `t` what they are at `t0`. */
  predicate Steady(h: HostState, t0: int, t: int) {
    forall n | n in Local(h) && Managed(h, n) :: DesiredOn(h.desired[n], t) == DesiredOn(h.desired[n], t0)
  }

  /** `n` has been put to rest since `h0`. */
  ghost predicate AtRest(h0: HostState, h: HostState, n: string) {
    && !Running(h, n) && n !in h.graces && n !in h.issues
    && (Running(h0, n) ==> n in h.insts && (h.insts[n].isVm ==> GpuDevices(h.insts[n]) == {}))
  }

  /** Where `n` stands after at least one tick from `h0` at `t0`. */
  ghost predicate TrackOne(h0: HostState, h: HostState, t0: int, n: string) {
    if !Managed(h, n) then n !in h.issues
    else if DesiredOn(h.desired[n], t0) then Running(h, n) && n !in h.graces && n !in h.issues
    else AtRest(h0, h, n) || (Running(h, n) && n in h.graces && Old(h.graces[n], t0))
  }

  ghost predicate OnTrack(h0: HostState, h: HostState, t0: int) {
    && h == h0.(insts := h.insts, graces := h.graces, issues := h.issues)
    && Exclusive(h.pool, h.insts) && h.issues <= h.registry.Keys
    && forall n | n in Local(h0) :: TrackOne(h0, h, t0, n)
  }

  lemma FirstTickOnTrack(h: HostState, t0: int, f: Faults)
    requires Clean(h, t0, f) && Exclusive(h.pool, h.insts) && StartersExist(h, t0) && RoomToStart(h, t0, f)
    requires forall n | n in h.graces :: Old(h.graces[n], t0)
    ensures OnTrack(h, Tick(h, t0, f), t0)
  {
    var q := Tick(h, t0, f);
    TickEach(h, t0, f, "");
    forall n | n in Local(h) ensures TrackOne(h, q, t0, n) { FirstTickOne(h, t0, f, n); }
  }

  lemma FirstTickOne(h: HostState, t0: int, f: Faults, n: string)
    requires Clean(h, t0, f) && Exclusive(h.pool, h.insts) && StartersExist(h, t0) && RoomToStart(h, t0, f)
    requires n in Local(h) && (n in h.graces ==> Old(h.graces[n], t0))
    ensures TrackOne(h, Tick(h, t0, f), t0, n)
  {
    TickEach(h, t0, f, n);
    AloneWithoutFaults(h, n, t0, f);
  }

  /** A later tick keeps on track, and from the grace on every VM wanted off is at rest. */
  lemma LaterTickOnTrack(h0: HostState, h: HostState, t0: int, t: int, f: Faults)
    requires NoFaults(f) && OnTrack(h0, h, t0) && Steady(h0, t0, t)
    ensures OnTrack(h0, Tick(h, t, f), t0)
    ensures t - t0 >= GRACE ==>
      forall n | n in Local(h0) && Managed(h0, n) && !DesiredOn(h0.desired[n], t0) :: AtRest(h0, Tick(h, t, f), n)
  {
    var q := Tick(h, t, f);
    forall n | n in Local(h) ensures Decide(h, n, t) !in {StartLater, Choke} { assert TrackOne(h0, h, t0, n); }
    NoStartersNoNeed(h, t, f);
    TickEach(h, t, f, "");
    forall n | n in Local(h0)
      ensures TrackOne(h0, q, t0, n)
      ensures t - t0 >= GRACE && Managed(h0, n) && !DesiredOn(h0.desired[n], t0) ==> AtRest(h0, q, n)
    {
      assert TrackOne(h0, h, t0, n);
      TickEach(h, t, f, n);
      AloneWithoutFaults(h, n, t, f);
    }
  }

  lemma NoStartersNoNeed(h: HostState, t: int, f: Faults)
    requires Clean(h, t, f) && forall n | n in Local(h) :: Decide(h, n, t) != StartLater
    ensures StartersExist(h, t) && RoomToStart(h, t, f)
  {
    FirstPassWithoutFaults(h, t, f);
    var p := FirstPass(h, t, f);
    if p.toStart != [] { HasMember(p.toStart); }
  }

  lemma HasMember(s: seq<string>)
    requires s != []
    ensures exists n :: n in s
  {
    assert s[0] in s;
  }

  lemma {:induction false} RunOnTrack(h: HostState, ticks: seq<TickIn>)
    requires ticks != [] && Exclusive(h.pool, h.insts)
    requires forall i | 0 <= i < |ticks| :: NoFaults(ticks[i].faults) && Steady(h, ticks[0].now, ticks[i].now)
    requires StartersExist(h, ticks[0].now) && RoomToStart(h, ticks[0].now, ticks[0].faults)
    requires forall n | n in h.graces :: Old(h.graces[n], ticks[0].now)
    ensures OnTrack(h, TickRun(h, ticks), ticks[0].now)
    decreases |ticks|
  {
    var init, last := ticks[..|ticks| - 1], ticks[|ticks| - 1];
    if |ticks| == 1 {
      assert init == [] && TickRun(h, init) == h;
      FirstTickOnTrack(h, last.now, last.faults);
    } else {
      assert init[0] == ticks[0];
      RunOnTrack(h, init);
      LaterTickOnTrack(h, TickRun(h, init), ticks[0].now, last.now, last.faults);
    }
  }

  /** Convergence: with steady intents, no faults and room to start at the first
      tick, a run of ticks that reaches the grace leaves every VM wanted on
      running and every VM wanted off at rest (one that was running has given its
      GPUs back), and from then on ticks change nothing. */
  lemma {:induction false} SteadyIntentsConverge(h: HostState, ticks: seq<TickIn>, later: int, f: Faults)
    requires |ticks| >= 2 && Exclusive(h.pool, h.insts)
    requires forall i | 0 <= i < |ticks| :: NoFaults(ticks[i].faults) && Steady(h, ticks[0].now, ticks[i].now)
    requires Steady(h, ticks[0].now, later)
    requires StartersExist(h, ticks[0].now) && RoomToStart(h, ticks[0].now, ticks[0].faults)
    requires forall n | n in h.graces :: Old(h.graces[n], ticks[0].now)
    requires ticks[|ticks| - 1].now - ticks[0].now >= GRACE
    ensures var q := TickRun(h, ticks);
      && (forall n | n in Local(h) && Managed(h, n) ::
            if DesiredOn(h.desired[n], ticks[0].now) then Running(q, n) && n !in q.graces else AtRest(h, q, n))
      && Tick(q, later, f) == q
  {
    var init, last, t0 := ticks[..|ticks| - 1], ticks[|ticks| - 1], ticks[0].now;
    assert init[0] == ticks[0];
    RunOnTrack(h, init);
    LaterTickOnTrack(h, TickRun(h, init), t0, last.now, last.faults);
    var q := TickRun(h, ticks);
    forall n | n in Local(h) ensures Quiet(q, n, later) { assert TrackOne(h, q, t0, n); }
    ConvergedIsFixed(q, later, f);
  }
}
