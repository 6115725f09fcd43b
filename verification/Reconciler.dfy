/** The per-host reconciler tick: a stop pass that warns, waits, stops and
    releases, then a start pass that claims whatever has been freed. */
module Reconciler {
  import opened Basics
  import opened Schedule
  import opened Names
  import opened GpuPool

  /** A stop-grace marker with the stamp it carries. */
  datatype Grace = Grace(warned: Stamp, immediate: bool)

  datatype Registered = Registered(gpus: nat, host: string)

  /** Everything a tick reads and writes: Incus instances and etcd records. */
  datatype HostState = HostState(
    here: string, pool: seq<string>, insts: Instances, registry: map<string, Registered>,
    desired: map<string, Desired>, graces: map<string, Grace>, issues: set<string>)

  const GRACE: int := 300 * SECOND

  function Local(h: HostState): set<string> {
    set n | n in h.registry && h.registry[n].host == h.here
  }

  predicate Running(h: HostState, n: string) { n in h.insts && h.insts[n].running }

  /** The scheduler has a say over `n`: a record other than 'unmanaged'. */
  predicate Managed(h: HostState, n: string) { n in h.desired && h.desired[n].mode != Unmanaged }

  predicate Expired(g: Grace, now: int) {
    g.immediate || g.warned.Unparseable? || (g.warned.Utc? && now - g.warned.at >= GRACE)
  }

  /** What a tick resolves to do about one VM. `Choke` is a marker whose stamp has
      no timezone: subtracting it from the clock raises. */
  datatype Decision =
    | HandsOff | KeepRunning | StartLater | WarnGuest | AwaitGrace | Choke | StopGuest | StaysOff | ReleaseStopped

  function Decide(h: HostState, n: string, now: int): Decision {
    if !Managed(h, n) then HandsOff
    else if DesiredOn(h.desired[n], now) then if Running(h, n) then KeepRunning else StartLater
    else if Running(h, n) then
      if n !in h.graces then WarnGuest
      else if Expired(h.graces[n], now) then StopGuest
      else if h.graces[n].warned.Naive? then Choke else AwaitGrace
    else if n in h.graces then ReleaseStopped
    else StaysOff
  }

  /** Progress of the stop pass, with a log of whom it reached, warned and told
      to stop. A release that raises outside the stop branch aborts the tick, and
      so does a marker that cannot be compared with the clock. */
  datatype Phase = Phase(
    h: HostState, aborted: bool, toStart: seq<string>,
    visited: set<string>, warned: set<string>, stops: set<string>)

  /** The stop branch: stop, then drop the marker, then release. */
  function StopAndRelease(h: HostState, n: string, f: Faults): HostState {
    var e := Stop(h.insts, n, f);
    if e.raised then h.(issues := h.issues + {n})
    else
      var r := Release(e.insts, n, f);
      h.(insts := r.insts, graces := h.graces - {n},
         issues := if r.raised then h.issues + {n} else h.issues - {n})
  }

  /** One VM of the stop pass; `snap` is the state read when the tick began. */
  function Visit(p: Phase, snap: HostState, n: string, now: int, f: Faults): Phase {
    var q := p.(visited := p.visited + {n});
    var h := p.h;
    match Decide(snap, n, now)
    case HandsOff => q.(h := h.(issues := h.issues - {n}))
    case KeepRunning => q.(h := h.(graces := h.graces - {n}, issues := h.issues - {n}))
    case StartLater => q.(h := h.(graces := h.graces - {n}), toStart := p.toStart + [n])
    case WarnGuest => q.(h := h.(graces := h.graces[n := Grace(Utc(Truncated(now)), false)]), warned := p.warned + {n})
    case AwaitGrace => q
    case Choke => q.(aborted := true)
    case StopGuest => q.(h := StopAndRelease(h, n, f), stops := p.stops + {n})
    case StaysOff => q.(h := h.(issues := h.issues - {n}))
    case ReleaseStopped =>
      var r := Release(h.insts, n, f);
      q.(h := h.(insts := r.insts, graces := h.graces - {n}, issues := h.issues - {n}), aborted := r.raised)
  }

  function StopPass(p: Phase, snap: HostState, names: seq<string>, now: int, f: Faults): Phase
    decreases |names|
  {
    if names == [] || p.aborted then p
    else StopPass(Visit(p, snap, names[0], now, f), snap, names[1..], now, f)
  }

  function Want(h: HostState, n: string): nat { if n in h.registry then h.registry[n].gpus else 0 }

  function StartOne(h: HostState, n: string, f: Faults): HostState {
    var e := BringUp(h.pool, h.insts, Want(h, n), n, f);
    h.(insts := e.insts, issues := if e.raised then h.issues + {n} else h.issues - {n})
  }

  function StartPass(h: HostState, names: seq<string>, f: Faults): HostState
    decreases |names|
  {
    if names == [] then h else StartPass(StartOne(h, names[0], f), names[1..], f)
  }

  function FirstPass(h: HostState, now: int, f: Faults): Phase {
    StopPass(Phase(h, false, [], {}, {}, {}), h, Names.Sorted(Local(h)), now, f)
  }

  /** Issues of VMs that left the registry are dropped at the end. */
  function Swept(h: HostState): HostState { h.(issues := h.issues * h.registry.Keys) }

  function Tick(h: HostState, now: int, f: Faults): HostState {
    var p := FirstPass(h, now, f);
    if p.aborted then p.h else Swept(StartPass(p.h, p.toStart, f))
  }

  // ---------------------------------------------------------------------
  // The imperative form
  // ---------------------------------------------------------------------

  class Host {
    const here: string
    var pool: seq<string>
    var insts: Instances
    var registry: map<string, Registered>
    var desired: map<string, Desired>
    var graces: map<string, Grace>
    var issues: set<string>

    constructor (h: HostState)
      ensures State() == h
    {
      here, pool, insts, registry := h.here, h.pool, h.insts, h.registry;
      desired, graces, issues := h.desired, h.graces, h.issues;
    }

    ghost function State(): HostState
      reads this
    {
      HostState(here, pool, insts, registry, desired, graces, issues)
    }

    method ReleaseGpus(n: string, f: Faults) returns (raised: bool)
      modifies this`insts
      ensures Effect(insts, raised) == Release(old(insts), n, f)
    {
      if n in f.unlisted { return true; }
      if n !in insts || !insts[n].isVm { return false; }
      if insts[n].running { return true; }
      var names := Names.Sorted(insts[n].devices.Keys);
      for k := 0 to |names|
        invariant n in insts
        invariant DetachAll(insts, n, names[k..], f) == DetachAll(old(insts), n, names, f)
      {
        assert names[k..][1..] == names[k + 1..];
        var d := names[k];
        if d in insts[n].devices && insts[n].devices[d].Gpu? {
          if (n, d) in f.detach { return true; }
          insts := insts[n := insts[n].(devices := insts[n].devices - {d})];
        }
      }
      return false;
    }

    /** The slot search of the attach loop. */
    static method NextSlot(used: set<string>, i: nat) returns (r: nat)
      ensures r == FreeSlot(used, i)
    {
      r := i;
      while GpuName(r) in used
        invariant i <= r <= FreeSlot(used, i)
        decreases FreeSlot(used, i) - r
      {
        r := r + 1;
      }
    }

    method AttachPicked(n: string, picked: seq<string>, f: Faults) returns (raised: bool)
      requires n in insts
      modifies this`insts
      ensures Effect(insts, raised) == AttachAll(old(insts), n, picked, 0, f)
    {
      var idx := 0;
      for k := 0 to |picked|
        invariant n in insts
        invariant AttachAll(insts, n, picked[k..], idx, f) == AttachAll(old(insts), n, picked, 0, f)
      {
        assert picked[k..][0] == picked[k] && picked[k..][1..] == picked[k + 1..];
        idx := NextSlot(insts[n].devices.Keys, idx);
        if (n, picked[k]) in f.attach { return true; }
        insts := insts[n := insts[n].(devices := insts[n].devices[GpuName(idx) := Gpu(picked[k])])];
      }
      return false;
    }

    method EnsureGpusAttached(n: string, want: nat, f: Faults) returns (raised: bool)
      modifies this`insts
      ensures Effect(insts, raised) == EnsureAttached(pool, old(insts), want, n, f)
    {
      if n in f.unlisted { return true; }
      if n !in insts || !insts[n].isVm { return false; }
      var have := |GpuDevices(insts[n])|;
      if want <= have { return false; }
      var picked := SelectHealthyGpus(Free(pool, insts), want - have, f.wedged);
      if picked.None? { return true; }
      raised := AttachPicked(n, picked.value, f);
    }

    /** `vm_start` as the reconciler calls it. */
    method VmStart(n: string, f: Faults) returns (raised: bool)
      modifies this`insts
      ensures Effect(insts, raised) == BringUp(pool, old(insts), Want(State(), n), n, f)
    {
      if n in f.nas { return true; }
      raised := EnsureGpusAttached(n, if n in registry then registry[n].gpus else 0, f);
      if raised || n !in insts || insts[n].running || n in f.start { return true; }
      insts := insts[n := insts[n].(running := true)];
    }

    method StopGuestNow(n: string, f: Faults)
      modifies this`insts, this`graces, this`issues
      ensures State() == StopAndRelease(old(State()), n, f)
    {
      if n !in insts || !insts[n].running || n in f.stop {
        issues := issues + {n};
        return;
      }
      insts := insts[n := insts[n].(running := false)];
      graces := graces - {n};
      var raised := ReleaseGpus(n, f);
      issues := if raised then issues + {n} else issues - {n};
    }

    /** The stop pass for one VM; `running` and `mark` were read when the tick began. */
    method StopPassOne(n: string, now: int, running: bool, mark: Option<Grace>, f: Faults,
                       ghost p: Phase, ghost snap: HostState)
      returns (start: bool, aborted: bool)
      requires p.h == State() && !p.aborted && snap.desired == desired
      requires running == Running(snap, n) && mark == Get(snap.graces, n)
      modifies this`insts, this`graces, this`issues
      ensures var q := Visit(p, snap, n, now, f);
        q.h == State() && q.aborted == aborted && q.toStart == p.toStart + if start then [n] else []
    {
      start, aborted := false, false;
      if n !in desired || desired[n].mode == Unmanaged {
        issues := issues - {n};
      } else if DesiredOn(desired[n], now) {
        graces := graces - {n};
        if running { issues := issues - {n}; } else { start := true; }
      } else if running {
        if mark.None? {
          graces := graces[n := Grace(Utc(Truncated(now)), false)];
        } else if mark.value.immediate || mark.value.warned.Unparseable? {
          StopGuestNow(n, f);
        } else if mark.value.warned.Naive? {
          aborted := true;
        } else if now - mark.value.warned.at >= GRACE {
          StopGuestNow(n, f);
        }
      } else {
        issues := issues - {n};
        if mark.Some? {
          graces := graces - {n};
          aborted := ReleaseGpus(n, f);
        }
      }
    }

    /** The start pass. */
    method StartAll(names: seq<string>, f: Faults)
      modifies this`insts, this`issues
      ensures State() == StartPass(old(State()), names, f)
    {
      for k := 0 to |names|
        invariant StartPass(State(), names[k..], f) == StartPass(old(State()), names, f)
      {
        assert names[k..][0] == names[k] && names[k..][1..] == names[k + 1..];
        var raised := VmStart(names[k], f);
        issues := if raised then issues + {names[k]} else issues - {names[k]};
      }
    }

    /** `reconcile`: one tick. */
    method Reconcile(now: int, f: Faults)
      modifies this`insts, this`graces, this`issues
      ensures State() == Tick(old(State()), now, f)
    {
      var statuses := set n | n in insts && insts[n].running;
      var marks := graces;
      var names := Names.Sorted(set n | n in registry && registry[n].host == here);
      var toStart := [];
      ghost var snap := State();
      ghost var log := Phase(snap, false, [], {}, {}, {});
      for k := 0 to |names|
        invariant log.h == State() && !log.aborted && log.toStart == toStart
        invariant StopPass(log, snap, names[k..], now, f) == FirstPass(snap, now, f)
      {
        var n := names[k];
        assert names[k..][0] == n && names[k..][1..] == names[k + 1..];
        var start, aborted := StopPassOne(n, now, n in statuses, Get(marks, n), f, log, snap);
        log := Visit(log, snap, n, now, f);
        if aborted { return; }
        if start { toStart := toStart + [n]; }
      }
      StartAll(toStart, f);
      issues := issues * registry.Keys;
    }
  }

  // ---------------------------------------------------------------------
  // What the page and the command line say about the next tick
  // ---------------------------------------------------------------------

  /** The pending indicator is exactly the direction of the next tick, except
      for a mode text the page would not write: the tick treats it as off. */
  lemma PendingPredictsTick(h: HostState, n: string, now: int)
    ensures var pending := PendingState(Get(h.desired, n), Running(h, n), n in h.graces, now);
      var d := Decide(h, n, now);
      && (pending == Some(WillStart) <==> d == StartLater)
      && (pending == Some(WillStop) <==>
            d in {WarnGuest, AwaitGrace, Choke, StopGuest, ReleaseStopped} && h.desired[n].mode != Other)
  {
  }

  // ---------------------------------------------------------------------
  // How one tick treats each VM
  // ---------------------------------------------------------------------

  /** `a` and `b` have the same instance, marker and issue of `n`. */
  ghost predicate SameOf(n: string, a: HostState, b: HostState) {
    Get(a.insts, n) == Get(b.insts, n) && Get(a.graces, n) == Get(b.graces, n) && (n in a.issues <==> n in b.issues)
  }

  /** `p` and `snap` agree on everything the visit of `n` looks at. */
  ghost predicate AgreesOn(p: Phase, snap: HostState, n: string) {
    SameOf(n, p.h, snap)
  }

  /** `b` is `a` except for the instance, marker and issue of `n`. */
  ghost predicate SameBut(n: string, a: HostState, b: HostState) {
    && b == a.(insts := b.insts, graces := b.graces, issues := b.issues)
    && (forall m | m != n :: SameOf(m, b, a))
  }

  lemma StopAndReleaseLocal(h: HostState, n: string, f: Faults)
    ensures SameBut(n, h, StopAndRelease(h, n, f))
  {
    var e := Stop(h.insts, n, f);
    if !e.raised { ReleaseLocal(e.insts, e.insts, n, f); }
  }

  /** A visit changes nothing of the other VMs. */
  lemma VisitLocal(p: Phase, snap: HostState, n: string, now: int, f: Faults)
    ensures SameBut(n, p.h, Visit(p, snap, n, now, f).h)
  {
    match Decide(snap, n, now) {
      case HandsOff =>
      case KeepRunning =>
      case StartLater =>
      case WarnGuest =>
      case AwaitGrace =>
      case Choke =>
      case StopGuest => StopAndReleaseLocal(p.h, n, f);
      case StaysOff =>
      case ReleaseStopped => ReleaseLocal(p.h.insts, p.h.insts, n, f);
    }
  }

  /** What the visit of `n` leaves of its marker and its instance. */
  function Alone(snap: HostState, n: string, now: int, f: Faults): Phase {
    Visit(Phase(snap, false, [], {}, {}, {}), snap, n, now, f)
  }

  lemma StopAndReleaseAlone(a: HostState, b: HostState, n: string, f: Faults)
    requires Get(a.insts, n) == Get(b.insts, n) && Get(a.graces, n) == Get(b.graces, n)
    ensures var x, y := StopAndRelease(a, n, f), StopAndRelease(b, n, f);
      SameOf(n, x, y)
  {
    var e, e' := Stop(a.insts, n, f), Stop(b.insts, n, f);
    if !e.raised { ReleaseLocal(e.insts, e'.insts, n, f); }
  }

  lemma VisitIsAlone(p: Phase, snap: HostState, n: string, now: int, f: Faults)
    requires AgreesOn(p, snap, n) && !p.aborted
    ensures var q, a := Visit(p, snap, n, now, f), Alone(snap, n, now, f);
      SameOf(n, q.h, a.h) && q.aborted == a.aborted
  {
    match Decide(snap, n, now) {
      case HandsOff =>
      case KeepRunning =>
      case StartLater =>
      case WarnGuest =>
      case AwaitGrace =>
      case Choke =>
      case StopGuest => StopAndReleaseAlone(p.h, snap, n, f);
      case StaysOff =>
      case ReleaseStopped => ReleaseLocal(p.h.insts, snap.insts, n, f);
    }
  }

  /** The log of the stop pass: whom it reached, warned and told to stop. */
  lemma {:induction false} StopPassLog(p: Phase, snap: HostState, names: seq<string>, now: int, f: Faults, n: string)
    requires NoDuplicates(names) && (n in names ==> n !in p.visited)
    ensures var q := StopPass(p, snap, names, now, f);
      var reached := n in q.visited && n !in p.visited;
      && p.visited <= q.visited && (reached ==> n in names) && (!q.aborted && n in names ==> n in q.visited)
      && (n in q.warned <==> n in p.warned || (reached && Decide(snap, n, now) == WarnGuest))
      && (n in q.stops <==> n in p.stops || (reached && Decide(snap, n, now) == StopGuest))
    decreases |names|
  {
    if names != [] && !p.aborted {
      assert n in names <==> n == names[0] || n in names[1..];
      StopPassLog(Visit(p, snap, names[0], now, f), snap, names[1..], now, f, n);
    }
  }

  /** The stop pass treats every VM it reaches as if it were alone, and leaves
      every other one as it was. */
  lemma {:induction false} StopPassEach(p: Phase, snap: HostState, names: seq<string>, now: int, f: Faults, n: string)
    requires NoDuplicates(names) && (forall m | m in names :: AgreesOn(p, snap, m) && m !in p.visited)
    ensures var q := StopPass(p, snap, names, now, f);
      && q.h == p.h.(insts := q.h.insts, graces := q.h.graces, issues := q.h.issues)
      && (if n in q.visited && n !in p.visited then SameOf(n, q.h, Alone(snap, n, now, f).h) else SameOf(n, q.h, p.h))
    decreases |names|
  {
    if names != [] && !p.aborted {
      var m := names[0];
      var next := Visit(p, snap, m, now, f);
      VisitLocal(p, snap, m, now, f);
      VisitIsAlone(p, snap, m, now, f);
      forall k | k in names[1..] ensures AgreesOn(next, snap, k) && k !in next.visited {
        assert k in names && k != m && SameOf(k, next.h, p.h);
      }
      assert n != m ==> SameOf(n, next.h, p.h);
      StopPassLog(next, snap, names[1..], now, f, n);
      StopPassEach(next, snap, names[1..], now, f, n);
    }
  }

  lemma FirstPassEach(h: HostState, now: int, f: Faults, n: string)
    ensures var q := FirstPass(h, now, f);
      && q.h == h.(insts := q.h.insts, graces := q.h.graces, issues := q.h.issues)
      && (n in q.visited ==> n in Local(h)) && (!q.aborted && n in Local(h) ==> n in q.visited)
      && (n in q.warned <==> n in q.visited && Decide(h, n, now) == WarnGuest)
      && (n in q.stops <==> n in q.visited && Decide(h, n, now) == StopGuest)
      && SameOf(n, q.h, if n in q.visited then Alone(h, n, now, f).h else h)
  {
    var p := Phase(h, false, [], {}, {}, {});
    var names := Names.Sorted(Local(h));
    StopPassLog(p, h, names, now, f, n);
    StopPassEach(p, h, names, now, f, n);
  }

  lemma {:induction false} StartPassFrame(h: HostState, names: seq<string>, f: Faults)
    ensures var q := StartPass(h, names, f); q == h.(insts := q.insts, issues := q.issues)
    decreases |names|
  {
    if names != [] { StartPassFrame(StartOne(h, names[0], f), names[1..], f); }
  }

  // ---------------------------------------------------------------------
  // GPU conservation over runs that include ticks
  // ---------------------------------------------------------------------

  /** What a visit can do to the instances: nothing, release, or stop and release. */
  lemma VisitInsts(p: Phase, snap: HostState, n: string, now: int, f: Faults)
    ensures var q, insts := Visit(p, snap, n, now, f), p.h.insts;
      q.h.pool == p.h.pool
      && q.h.insts in {insts, Release(insts, n, f).insts, Release(Stop(insts, n, f).insts, n, f).insts}
  {
  }

  lemma VisitKeepsExclusive(p: Phase, snap: HostState, n: string, now: int, f: Faults)
    requires Exclusive(p.h.pool, p.h.insts)
    ensures var q := Visit(p, snap, n, now, f); q.h.pool == p.h.pool && Exclusive(q.h.pool, q.h.insts)
  {
    VisitInsts(p, snap, n, now, f);
    ReleaseKeeps(p.h.pool, p.h.insts, n, f);
    StopKeeps(p.h.pool, p.h.insts, n, f);
    ReleaseKeeps(p.h.pool, Stop(p.h.insts, n, f).insts, n, f);
  }

  lemma {:induction false} StopPassKeepsExclusive(p: Phase, snap: HostState, names: seq<string>, now: int, f: Faults)
    requires Exclusive(p.h.pool, p.h.insts)
    ensures var q := StopPass(p, snap, names, now, f).h; q.pool == p.h.pool && Exclusive(q.pool, q.insts)
    decreases |names|
  {
    if names != [] && !p.aborted {
      VisitKeepsExclusive(p, snap, names[0], now, f);
      StopPassKeepsExclusive(Visit(p, snap, names[0], now, f), snap, names[1..], now, f);
    }
  }

  lemma {:induction false} StartPassKeepsExclusive(h: HostState, names: seq<string>, f: Faults)
    requires Exclusive(h.pool, h.insts)
    ensures var q := StartPass(h, names, f); q.pool == h.pool && Exclusive(q.pool, q.insts)
    decreases |names|
  {
    if names != [] {
      BringUpKeeps(h.pool, h.insts, Want(h, names[0]), names[0], f);
      StartPassKeepsExclusive(StartOne(h, names[0], f), names[1..], f);
    }
  }

  lemma TickKeepsExclusive(h: HostState, now: int, f: Faults)
    requires Exclusive(h.pool, h.insts)
    ensures var q := Tick(h, now, f); q.pool == h.pool && Exclusive(q.pool, q.insts)
  {
    StopPassKeepsExclusive(Phase(h, false, [], {}, {}, {}), h, Names.Sorted(Local(h)), now, f);
    var p := FirstPass(h, now, f);
    StartPassKeepsExclusive(p.h, p.toStart, f);
  }

  /** A host command, a tick, or any change of records that touches no device. */
  datatype HostEvent = Command(op: Op) | Reconciled(now: int) | Recorded(
    registry: map<string, Registered>, desired: map<string, Desired>, graces: map<string, Grace>, issues: set<string>)

  function HostNext(h: HostState, e: HostEvent, f: Faults): HostState {
    match e
    case Command(op) => h.(insts := Do(h.pool, h.insts, op, f).insts)
    case Reconciled(now) => Tick(h, now, f)
    case Recorded(registry, desired, graces, issues) =>
      h.(registry := registry, desired := desired, graces := graces, issues := issues)
  }

  function HostRun(h: HostState, events: seq<(HostEvent, Faults)>): HostState {
    if events == [] then h
    else
      var (e, f) := events[|events| - 1];
      HostNext(HostRun(h, events[..|events| - 1]), e, f)
  }

  /** Over every sequence of launches, starts, restarts, stops, releases,
      destroys and ticks, with commands failing wherever they like, no GPU is
      attached twice and free plus attached is exactly the pool. */
  lemma {:induction false} GpusConserved(h: HostState, events: seq<(HostEvent, Faults)>)
    requires Exclusive(h.pool, h.insts)
    ensures var q := HostRun(h, events);
      && q.pool == h.pool && Exclusive(q.pool, q.insts)
      && (forall g :: g in h.pool <==> (g in Free(h.pool, q.insts)) != (g in Assigned(q.insts)))
      && |Free(h.pool, q.insts)| + |Holdings(q.insts)| == |h.pool|
  {
    if events != [] {
      GpusConserved(h, events[..|events| - 1]);
      var x := HostRun(h, events[..|events| - 1]);
      var (e, f) := events[|events| - 1];
      match e {
        case Command(op) => DoKeeps(x.pool, x.insts, op, f);
        case Reconciled(now) => TickKeepsExclusive(x, now, f);
        case Recorded(_, _, _, _) =>
      }
    }
    FreePlusAttachedIsPool(h.pool, HostRun(h, events).insts);
  }
}
