/** What a tick does to each VM, in the terms of the records it reads, and what
    becomes of failures and of stop-now requests. */
module TickEffects {
  import opened Basics
  import opened Schedule
  import Names
  import opened GpuPool
  import opened Lifecycle
  import opened Reconciler
  import opened Convergence
  import opened ReleaseFaults
  import opened GraceSafety

  // ---------------------------------------------------------------------
  // A clean tick follows the records
  // ---------------------------------------------------------------------

  /** The record asks for the VM to be on: 'on', or a schedule with a window over `now`. */
  predicate AsksOn(d: Desired, now: int) {
    d.mode == On || (d.mode == Scheduled && AnyRawCovers(d.windows, now))
  }

  /** The marker has run its course: stop-now, no readable stamp, or 300 seconds old. */
  predicate Due(g: Grace, now: int) {
    g.immediate || g.warned.Unparseable? || (g.warned.Utc? && now - g.warned.at >= 300_000_000)
  }

  /** Powered off, and without GPUs if it is a VM; other devices stay. */
  ghost predicate PutToRest(before: Instance, after: Instance) {
    && !after.running && after.isVm == before.isVm
    && (before.isVm ==>
          after.devices == map d | d in before.devices && before.devices[d] == OtherDevice :: before.devices[d])
    && (!before.isVm ==> after.devices == before.devices)
  }

  /** What becomes of a local VM with a record other than 'unmanaged'. */
  ghost predicate Followed(h: HostState, q: HostState, n: string, now: int)
    requires n in h.desired
  {
    if AsksOn(h.desired[n], now) then
      && Running(q, n) && n !in q.graces && n !in q.issues
      && (if Running(h, n) then q.insts[n] == h.insts[n] else UpInFull(h, q, n))
    else if !Running(h, n) then
      && !Running(q, n) && n !in q.graces && n !in q.issues
      && (if n in h.graces && n in h.insts then n in q.insts && PutToRest(h.insts[n], q.insts[n])
          else Get(q.insts, n) == Get(h.insts, n))
    else if n !in h.graces then
      Get(q.insts, n) == Get(h.insts, n) && Get(q.graces, n) == Some(Grace(Utc(Truncated(now)), false))
    else if Due(h.graces[n], now) then
      n in q.insts && PutToRest(h.insts[n], q.insts[n]) && n !in q.graces && n !in q.issues
    else Get(q.insts, n) == Get(h.insts, n) && Get(q.graces, n) == Get(h.graces, n)
  }

  /** A clean tick with room to start does to every local VM what its record asks:
      on, it runs; off and running, it is warned, waits out its 300 seconds and is put
      to rest; off and stopped, it stays so, its GPUs given back if it had a marker.
      A VM without a record, or with an 'unmanaged' one, is left alone. */
  lemma TickFollowsRecords(h: HostState, now: int, f: Faults, n: string)
    requires Clean(h, now, f) && Exclusive(h.pool, h.insts) && StartersExist(h, now) && RoomToStart(h, now, f)
    requires n in h.registry && h.registry[n].host == h.here
    ensures var q := Tick(h, now, f);
      if n in h.desired && h.desired[n].mode != Unmanaged then Followed(h, q, n, now)
      else Get(q.insts, n) == Get(h.insts, n) && Get(q.graces, n) == Get(h.graces, n) && n !in q.issues
  {
    TickEach(h, now, f, n);
    AloneWithoutFaults(h, n, now, f);
    if n in h.desired { WantedByMode(h.desired[n], now); }
    if Decide(h, n, now) == StartLater { HandoffInFull(h, now, f, n); }
    if n in h.insts { RestedIsPut(h.insts[n]); }
  }

  lemma RestedIsPut(inst: Instance)
    ensures PutToRest(inst, Rested(inst))
  {
    assert inst.isVm ==>
      Rested(inst).devices == map d | d in inst.devices && inst.devices[d] == OtherDevice :: inst.devices[d];
  }

  // ---------------------------------------------------------------------
  // Everybody else
  // ---------------------------------------------------------------------

  lemma {:induction false} StartersListed(p: Phase, snap: HostState, names: seq<string>, now: int, f: Faults, n: string)
    requires n !in p.toStart && n !in names
    ensures n !in StopPass(p, snap, names, now, f).toStart
    decreases |names|
  {
    if names != [] && !p.aborted {
      assert names[0] in names;
      StartersListed(Visit(p, snap, names[0], now, f), snap, names[1..], now, f, n);
    }
  }

  /** A tick, whatever fails in it, touches nothing of an instance that is not
      registered or is registered on another host. */
  lemma OthersUntouched(h: HostState, now: int, f: Faults, n: string)
    requires Exclusive(h.pool, h.insts) && !(n in h.registry && h.registry[n].host == h.here)
    ensures var q := Tick(h, now, f); Get(q.insts, n) == Get(h.insts, n) && Get(q.graces, n) == Get(h.graces, n)
  {
    var p, names := FirstPass(h, now, f), Names.Sorted(Local(h));
    FirstPassEach(h, now, f, n);
    StopPassKeepsExclusive(Phase(h, false, [], {}, {}, {}), h, names, now, f);
    StartersListed(Phase(h, false, [], {}, {}, {}), h, names, now, f, n);
    StartPassSkips(p.h, p.toStart, f, n);
    StartPassFrame(p.h, p.toStart, f);
  }

  /** A command changes the instances as its operation does and no record; a change
      of records leaves the instances alone. A VM that is not registered wants no GPU. */
  lemma CommandsActOnInstances(h: HostState, op: Op, f: Faults, r: HostState, n: string)
    ensures HostNext(h, Command(op), f) == h.(insts := Do(h.pool, h.insts, op, f).insts)
    ensures HostNext(h, Recorded(r.registry, r.desired, r.graces, r.issues), f)
      == r.(here := h.here, pool := h.pool, insts := h.insts)
    ensures n !in h.registry ==> Want(h, n) == 0
    ensures n in h.registry ==> Want(h, n) == h.registry[n].gpus
  {
  }

  // ---------------------------------------------------------------------
  // Order
  // ---------------------------------------------------------------------

  lemma {:induction false} StartersOrdered(p: Phase, snap: HostState, names: seq<string>, now: int, f: Faults)
    requires InTextOrder(names) && InTextOrder(p.toStart)
    requires forall i, j | 0 <= i < |p.toStart| && 0 <= j < |names| :: Names.Before(p.toStart[i], names[j])
    ensures InTextOrder(StopPass(p, snap, names, now, f).toStart)
    decreases |names|
  {
    if names != [] && !p.aborted {
      var next := Visit(p, snap, names[0], now, f);
      assert next.toStart == p.toStart || next.toStart == p.toStart + [names[0]];
      forall i, j | 0 <= i < |next.toStart| && 0 <= j < |names[1..]|
        ensures Names.Before(next.toStart[i], names[1..][j])
      {
        assert names[1..][j] == names[j + 1];
      }
      StartersOrdered(next, snap, names[1..], now, f);
    }
  }

  /** The start pass goes through its VMs in text order of their names, so an earlier
      name has the first claim on the GPUs. */
  lemma StartsInNameOrder(h: HostState, now: int, f: Faults)
    ensures InTextOrder(FirstPass(h, now, f).toStart)
  {
    Names.SortedInOrder(Local(h));
    StartersOrdered(Phase(h, false, [], {}, {}, {}), h, Names.Sorted(Local(h)), now, f);
  }

  lemma {:induction false} StartPassConcat(h: HostState, a: seq<string>, b: seq<string>, f: Faults)
    ensures StartPass(h, a + b, f) == StartPass(StartPass(h, a, f), b, f)
    decreases |a|
  {
    if a == [] {
      assert a + b == b;
    } else {
      assert (a + b)[0] == a[0] && (a + b)[1..] == a[1..] + b;
      StartPassConcat(StartOne(h, a[0], f), a[1..], b, f);
    }
  }

  // ---------------------------------------------------------------------
  // Failures are reported and retried
  // ---------------------------------------------------------------------

  lemma {:induction false} StartPassIssues(h: HostState, names: seq<string>, f: Faults, n: string)
    requires n !in names
    ensures n in StartPass(h, names, f).issues <==> n in h.issues
    decreases |names|
  {
    if names != [] {
      assert names[0] in names;
      StartPassIssues(StartOne(h, names[0], f), names[1..], f, n);
    }
  }

  /** A stop command that fails changes nothing of the VM, is reported, and is tried
      again by every later tick that finds it still wanted off. */
  lemma FailedStopRetried(h: HostState, now: int, f: Faults, n: string, later: int)
    requires Exclusive(h.pool, h.insts) && n in FirstPass(h, now, f).stops && n in f.stop
    requires now <= later && n in h.desired && !AsksOn(h.desired[n], later)
    ensures var q := Tick(h, now, f);
      && Get(q.insts, n) == Get(h.insts, n) && Get(q.graces, n) == Get(h.graces, n) && n in q.issues
      && Decide(q, n, later) == StopGuest
  {
    FirstPassEach(h, now, f, n);
    TickLeaves(h, now, f, n);
    WantedByMode(h.desired[n], later);
    var p := FirstPass(h, now, f);
    StartersDecided(Phase(h, false, [], {}, {}, {}), h, Names.Sorted(Local(h)), now, f, n);
    StartPassIssues(p.h, p.toStart, f, n);
    StartPassFrame(p.h, p.toStart, f);
    assert Alone(h, n, now, f).h.issues == h.issues + {n};
  }

  /** A release that fails after its VM was stopped is reported. */
  lemma FailedReleaseReported(h: HostState, now: int, f: Faults, n: string)
    requires Exclusive(h.pool, h.insts) && n in FirstPass(h, now, f).stops && n !in f.stop
    requires n in h.insts
    ensures n in Tick(h, now, f).issues <==>
      n in f.unlisted || (h.insts[n].isVm && DetachFails(h.insts[n], n, f))
  {
    FirstPassEach(h, now, f, n);
    var p, off := FirstPass(h, now, f), Powered(h.insts, n, false);
    StartersDecided(Phase(h, false, [], {}, {}, {}), h, Names.Sorted(Local(h)), now, f, n);
    StartPassIssues(p.h, p.toStart, f, n);
    StartPassFrame(p.h, p.toStart, f);
    if off[n].isVm { ReleaseExact(off, n, f); }
    assert DetachFails(off[n], n, f) == DetachFails(h.insts[n], n, f);
    assert n in Alone(h, n, now, f).h.issues <==> Release(off, n, f).raised;
  }

  lemma {:induction false} StartedOrIssue(h: HostState, names: seq<string>, f: Faults, n: string)
    requires Exclusive(h.pool, h.insts) && NoDuplicates(names) && n in names && !Running(h, n)
    ensures var q := StartPass(h, names, f); Running(q, n) <==> n !in q.issues
    decreases |names|
  {
    var m, rest := names[0], names[1..];
    var next := StartOne(h, m, f);
    BringUpKeeps(h.pool, h.insts, Want(h, m), m, f);
    EnsureAttachedKeeps(h.pool, h.insts, Want(h, m), m, f);
    if n == m {
      StartExact(h.pool, h.insts, Want(h, m), m, f);
      assert n !in rest;
      StartPassSkips(next, rest, f, n);
      StartPassIssues(next, rest, f, n);
    } else {
      assert n in rest && Get(next.insts, n) == Get(h.insts, n);
      StartedOrIssue(next, rest, f, n);
    }
  }

  /** Every VM a tick is due to start either runs afterwards or has its failure
      reported, whatever fails, unless the tick ended before its start pass. */
  lemma StartedOrReported(h: HostState, now: int, f: Faults, n: string)
    requires Exclusive(h.pool, h.insts) && !FirstPass(h, now, f).aborted && n in FirstPass(h, now, f).toStart
    ensures var q := Tick(h, now, f); Running(q, n) <==> n !in q.issues
  {
    var p, names := FirstPass(h, now, f), Names.Sorted(Local(h));
    FirstPassEach(h, now, f, n);
    StopPassKeepsExclusive(Phase(h, false, [], {}, {}, {}), h, names, now, f);
    StartersDecided(Phase(h, false, [], {}, {}, {}), h, names, now, f, n);
    if n !in names { StartersListed(Phase(h, false, [], {}, {}, {}), h, names, now, f, n); }
    StartsInNameOrder(h, now, f);
    OrderedDistinct(p.toStart);
    StartedOrIssue(p.h, p.toStart, f, n);
    StartPassFrame(p.h, p.toStart, f);
  }

  lemma OrderedDistinct(names: seq<string>)
    requires InTextOrder(names)
    ensures NoDuplicates(names)
  {
    forall i, j | 0 <= i < j < |names| ensures names[i] != names[j] { Names.BeforeTotal(names[i], names[i]); }
  }

  // ---------------------------------------------------------------------
  // Stop now
  // ---------------------------------------------------------------------

  /** A stop-now request marks exactly a registered VM whose record is not 'unmanaged'
      and asks for it to be off at that time, and changes nothing else. */
  lemma StopNowMarks(h: HostState, n: string, at: int)
    ensures Apply(h, StopNow(n, at)) ==
      if n in h.registry && n in h.desired && h.desired[n].mode != Unmanaged && !AsksOn(h.desired[n], at)
      then h.(graces := h.graces[n := Grace(Utc(Truncated(at)), true)]) else h
  {
    if n in h.desired { WantedByMode(h.desired[n], at); }
  }

  /** After an accepted stop-now, the next tick that gets to the VM tells it to stop
      if it still runs and is still wanted off, at whatever time. */
  lemma StopNowStops(h: HostState, n: string, at: int, now: int, f: Faults)
    requires n in h.registry && n in h.desired && h.desired[n].mode != Unmanaged && Running(h, n)
    requires !AsksOn(h.desired[n], at) && !AsksOn(h.desired[n], now)
    ensures var q := Apply(h, StopNow(n, at)); n in FirstPass(q, now, f).visited ==> n in FirstPass(q, now, f).stops
  {
    StopNowMarks(h, n, at);
    WantedByMode(h.desired[n], now);
    FirstPassEach(Apply(h, StopNow(n, at)), now, f, n);
  }

  /** A warned VM, still running and wanted off, is told to stop by a tick that gets
      to it iff 300 seconds have passed since its stamp. */
  lemma WarnedStopsIff(h: HostState, n: string, stamp: int, now: int, f: Faults)
    requires n in h.desired && h.desired[n].mode != Unmanaged && Running(h, n) && !AsksOn(h.desired[n], now)
    requires n in h.graces && h.graces[n] == Grace(Utc(stamp), false) && n in FirstPass(h, now, f).visited
    ensures n in FirstPass(h, now, f).stops <==> now - stamp >= 300_000_000
  {
    WantedByMode(h.desired[n], now);
    FirstPassEach(h, now, f, n);
  }
}
