/** What a failing GPU release does to a tick, and a marker it cannot read: they
    can keep every other VM from starting, and the GPUs a release left behind are
    never asked for again. */
module ReleaseFaults {
  import opened Basics
  import opened Schedule
  import Names
  import opened GpuPool
  import opened Lifecycle
  import opened Reconciler
  import opened Convergence

  // ---------------------------------------------------------------------
  // When a tick is cut short
  // ---------------------------------------------------------------------

  /** `n` was found stopped with a marker and its release fails, or it runs under a
      marker whose stamp has no timezone. */
  predicate Blocks(h: HostState, n: string, now: int, f: Faults) {
    || Decide(h, n, now) == Choke
    || (Decide(h, n, now) == ReleaseStopped
        && (n in f.unlisted || (n in h.insts && h.insts[n].isVm && DetachFails(h.insts[n], n, f))))
  }

  lemma AloneAborts(h: HostState, n: string, now: int, f: Faults)
    ensures Alone(h, n, now, f).aborted <==> Blocks(h, n, now, f)
  {
    if Decide(h, n, now) == ReleaseStopped && n in h.insts && h.insts[n].isVm { ReleaseExact(h.insts, n, f); }
  }

  lemma {:induction false} StopPassAbortIff(p: Phase, snap: HostState, names: seq<string>, now: int, f: Faults)
    requires NoDuplicates(names) && !p.aborted && forall m | m in names :: AgreesOn(p, snap, m)
    ensures StopPass(p, snap, names, now, f).aborted <==> exists n | n in names :: Blocks(snap, n, now, f)
    decreases |names|
  {
    if names != [] {
      var m, rest := names[0], names[1..];
      var next := Visit(p, snap, m, now, f);
      assert forall k :: k in names <==> k == m || k in rest;
      VisitLocal(p, snap, m, now, f);
      VisitIsAlone(p, snap, m, now, f);
      AloneAborts(snap, m, now, f);
      if !next.aborted {
        forall k | k in rest ensures AgreesOn(next, snap, k) { assert k in names && k != m && SameOf(k, next.h, p.h); }
        StopPassAbortIff(next, snap, rest, now, f);
      }
    }
  }

  /** Exactly when a tick ends in its stop pass: some local VM wanted off was found
      stopped with a marker and cannot be listed or has a GPU that cannot be
      detached, or runs under an unexpired marker without a timezone. */
  lemma TickAbortsIff(h: HostState, now: int, f: Faults)
    ensures FirstPass(h, now, f).aborted <==> exists n | n in Local(h) :: Blocks(h, n, now, f)
  {
    StopPassAbortIff(Phase(h, false, [], {}, {}, {}), h, Names.Sorted(Local(h)), now, f);
  }

  lemma AloneStartsNothing(h: HostState, n: string, now: int, f: Faults)
    requires !Running(h, n)
    ensures !Running(Alone(h, n, now, f).h, n)
  {
    if Decide(h, n, now) == ReleaseStopped { ReleaseLocal(h.insts, h.insts, n, f); }
  }

  /** Such a tick starts no VM at all, whoever is wanted on. */
  lemma BlockedTickStartsNobody(h: HostState, now: int, f: Faults, blocker: string, n: string)
    requires blocker in Local(h) && Blocks(h, blocker, now, f) && !Running(h, n)
    ensures !Running(Tick(h, now, f), n)
  {
    TickAbortsIff(h, now, f);
    FirstPassEach(h, now, f, n);
    AloneStartsNothing(h, n, now, f);
  }

  /** A host on which "a" was shut down during its grace and still holds the GPU,
      and "b", which needs none, is wanted on. */
  function TwoVms(): HostState {
    HostState("h", ["g"],
              map["a" := Instance(true, false, map["gpu0" := Gpu("g")]), "b" := Instance(true, false, map[])],
              map["a" := Registered(1, "h"), "b" := Registered(0, "h")],
              map["a" := Desired(Off, []), "b" := Desired(On, [])], map["a" := Grace(Utc(0), false)], {})
  }

  function Detaching(failing: set<(string, string)>): Faults { Faults({}, {}, {}, {}, failing, {}, {}) }

  function Unlisting(failing: set<string>): Faults { Faults({}, {}, {}, failing, {}, {}, {}) }

  lemma TwoVmsDecided()
    ensures var h := TwoVms();
      && Local(h) == {"a", "b"} && Decide(h, "a", 0) == ReleaseStopped && Decide(h, "b", 0) == StartLater
      && "a" in h.insts && "b" in h.insts && !Running(h, "b")
      && h.insts["a"] == Instance(true, false, map["gpu0" := Gpu("g")])
      && Want(h, "b") == 0 && Exclusive(h.pool, h.insts)
  {
    var h := TwoVms();
    assert forall n, d, g | HeldBy(h.insts, n, d, g) :: n == "a" && d == "gpu0" && g == "g";
  }

  /** One failing detach of "a" keeps "b" from starting. */
  lemma FailedDetachBlocksStart()
    ensures !Running(Tick(TwoVms(), 0, Detaching({("a", "gpu0")})), "b")
  {
    var f := Detaching({("a", "gpu0")});
    TwoVmsDecided();
    assert ("a", "gpu0") in f.detach;
    BlockedTickStartsNobody(TwoVms(), 0, f, "a", "b");
  }

  /** So does one failing listing of "a", with every detach in order. */
  lemma FailedListingBlocksStart()
    ensures !Running(Tick(TwoVms(), 0, Unlisting({"a"})), "b")
  {
    TwoVmsDecided();
    BlockedTickStartsNobody(TwoVms(), 0, Unlisting({"a"}), "a", "b");
  }

  /** Without it "b" comes up. */
  lemma CleanDetachLetsStart()
    ensures Running(Tick(TwoVms(), 0, Detaching({})), "b")
  {
    TwoVmsDecided();
    OnlyStarterComesUp(TwoVms(), 0, Detaching({}), "b");
  }

  /** A VM that needs no GPU and is the only one to start comes up in a clean tick. */
  lemma OnlyStarterComesUp(h: HostState, now: int, f: Faults, n: string)
    requires Clean(h, now, f) && Exclusive(h.pool, h.insts) && n in Local(h) && n in h.insts && Want(h, n) == 0
    requires forall m | m in Local(h) :: Decide(h, m, now) == StartLater <==> m == n
    ensures Running(Tick(h, now, f), n)
  {
    StartersReady(h, now, f);
    var p := FirstPass(h, now, f);
    NothingMissing(p.h, p.toStart);
    SameTickHandoff(h, now, f);
  }

  lemma {:induction false} NothingMissing(h: HostState, names: seq<string>)
    requires forall n | n in names :: Want(h, n) == 0
    ensures TotalMissing(h, names) == 0
  {
    if names != [] {
      assert names[0] in names;
      NothingMissing(h, names[1..]);
    }
  }

  // ---------------------------------------------------------------------
  // What is released, and what never is
  // ---------------------------------------------------------------------

  lemma {:induction false} StartersDecided(p: Phase, snap: HostState, names: seq<string>, now: int, f: Faults,
                                           n: string)
    requires n in p.toStart ==> Decide(snap, n, now) == StartLater
    ensures n in StopPass(p, snap, names, now, f).toStart ==> Decide(snap, n, now) == StartLater
    decreases |names|
  {
    if names != [] && !p.aborted {
      StartersDecided(Visit(p, snap, names[0], now, f), snap, names[1..], now, f, n);
    }
  }

  lemma {:induction false} StartPassSkips(h: HostState, names: seq<string>, f: Faults, n: string)
    requires Exclusive(h.pool, h.insts) && n !in names
    ensures Get(StartPass(h, names, f).insts, n) == Get(h.insts, n)
    decreases |names|
  {
    if names != [] {
      EnsureAttachedKeeps(h.pool, h.insts, Want(h, names[0]), names[0], f);
      BringUpKeeps(h.pool, h.insts, Want(h, names[0]), names[0], f);
      StartPassSkips(StartOne(h, names[0], f), names[1..], f, n);
    }
  }

  /** A tick leaves a VM it does not start as its stop pass left it. */
  lemma TickLeaves(h: HostState, now: int, f: Faults, n: string)
    requires Exclusive(h.pool, h.insts) && Decide(h, n, now) != StartLater
    ensures var q, p := Tick(h, now, f), FirstPass(h, now, f);
      && q == h.(insts := q.insts, graces := q.graces, issues := q.issues) && Exclusive(q.pool, q.insts)
      && var alone := if n in p.visited then Alone(h, n, now, f).h else h;
         Get(q.insts, n) == Get(alone.insts, n) && Get(q.graces, n) == Get(alone.graces, n)
  {
    var p := FirstPass(h, now, f);
    FirstPassEach(h, now, f, n);
    StopPassKeepsExclusive(Phase(h, false, [], {}, {}, {}), h, Names.Sorted(Local(h)), now, f);
    StartersDecided(Phase(h, false, [], {}, {}, {}), h, Names.Sorted(Local(h)), now, f, n);
    StartPassSkips(p.h, p.toStart, f, n);
    StartPassFrame(p.h, p.toStart, f);
    TickKeepsExclusive(h, now, f);
  }

  /** The tick gets to `n` and takes it down: it stops it, or finds it stopped with
      a marker. */
  predicate TakesDown(h: HostState, n: string, now: int, f: Faults) {
    && n in FirstPass(h, now, f).visited && n in h.insts && h.insts[n].isVm
    && (Decide(h, n, now) == ReleaseStopped || (Decide(h, n, now) == StopGuest && n !in f.stop))
  }

  /** A tick that takes a VM down drops its marker, and leaves it without GPUs iff it
      had none or neither the listing nor a detach of the release fails. */
  lemma TickReleasesIff(h: HostState, now: int, f: Faults, n: string)
    requires Exclusive(h.pool, h.insts) && TakesDown(h, n, now, f)
    ensures var q := Tick(h, now, f);
      && n in q.insts && !q.insts[n].running && n !in q.graces
      && (GpuDevices(q.insts[n]) == {} <==> GpuDevices(h.insts[n]) == {} || !ReleaseFails(h.insts[n], n, f))
  {
    TickLeaves(h, now, f, n);
    var insts := if Decide(h, n, now) == StopGuest then Powered(h.insts, n, false) else h.insts;
    ReleaseExact(insts, n, f);
    ReleaseLocal(insts, insts, n, f);
    assert Get(Tick(h, now, f).insts, n) == Get(Release(insts, n, f).insts, n);
  }

  /** `n` is managed and wanted off at every tick. */
  predicate WantedOff(h: HostState, n: string, ticks: seq<TickIn>) {
    Managed(h, n) && forall i | 0 <= i < |ticks| :: !DesiredOn(h.desired[n], ticks[i].now)
  }

  /** A stopped VM without a marker is never touched again while it is wanted off,
      whatever fails or succeeds. */
  lemma {:induction false} NeverRetried(h: HostState, ticks: seq<TickIn>, n: string)
    requires Exclusive(h.pool, h.insts) && !Running(h, n) && n !in h.graces && WantedOff(h, n, ticks)
    ensures var q := TickRun(h, ticks);
      && q == h.(insts := q.insts, graces := q.graces, issues := q.issues) && Exclusive(q.pool, q.insts)
      && Get(q.insts, n) == Get(h.insts, n) && n !in q.graces
    decreases |ticks|
  {
    if ticks != [] {
      var init, last := ticks[..|ticks| - 1], ticks[|ticks| - 1];
      NeverRetried(h, init, n);
      var x := TickRun(h, init);
      assert Decide(x, n, last.now) == StaysOff;
      TickLeaves(x, last.now, last.faults, n);
    }
  }

  /** A VM taken down by a tick is without GPUs after every later run in which it
      stays wanted off iff it had none or its release did not fail in that one tick:
      there is no retry. */
  lemma ReleasedForGoodIff(h: HostState, now: int, f: Faults, ticks: seq<TickIn>, n: string)
    requires Exclusive(h.pool, h.insts) && TakesDown(h, n, now, f) && WantedOff(h, n, ticks)
    ensures var q := TickRun(Tick(h, now, f), ticks);
      && n in q.insts && !q.insts[n].running
      && (GpuDevices(q.insts[n]) == {} <==> GpuDevices(h.insts[n]) == {} || !ReleaseFails(h.insts[n], n, f))
  {
    TickReleasesIff(h, now, f, n);
    TickLeaves(h, now, f, n);
    NeverRetried(Tick(h, now, f), ticks, n);
  }

  /** A host whose only VM runs, is wanted off and was told to stop now. */
  function OneVm(): HostState {
    HostState("h", ["g"], map["a" := Instance(true, true, map["gpu0" := Gpu("g")])], map["a" := Registered(1, "h")],
              map["a" := Desired(Off, [])], map["a" := Grace(Utc(0), true)], {})
  }

  lemma OneVmStopped(f: Faults)
    requires "a" !in f.stop
    ensures TakesDown(OneVm(), "a", 0, f) && Exclusive(OneVm().pool, OneVm().insts)
    ensures GpuDevices(OneVm().insts["a"]) == {"gpu0"}
  {
    var h := OneVm();
    assert Local(h) == {"a"} && Decide(h, "a", 0) == StopGuest;
    assert forall n, d, g | HeldBy(h.insts, n, d, g) :: n == "a" && d == "gpu0" && g == "g";
    TickAbortsIff(h, 0, f);
    FirstPassEach(h, 0, f, "a");
  }

  /** One failing detach while it is stopped, or one failing listing, and no number
      of later ticks, however clean, gives its GPU back. */
  lemma GpuNeverReturns(f: Faults, ticks: seq<TickIn>)
    requires f == Detaching({("a", "gpu0")}) || f == Unlisting({"a"})
    ensures var q := TickRun(Tick(OneVm(), 0, f), ticks);
      "a" in q.insts && !q.insts["a"].running && GpuDevices(q.insts["a"]) != {}
  {
    var h := OneVm();
    OneVmStopped(f);
    assert f == Detaching({("a", "gpu0")}) ==> h.insts["a"].devices["gpu0"].Gpu? && ("a", "gpu0") in f.detach;
    assert ReleaseFails(h.insts["a"], "a", f);
    ReleasedForGoodIff(h, 0, f, ticks, "a");
  }

  /** A marker without a timezone ends the tick of a running VM before anybody
      starts, tick after tick: nothing of the VM changes, its marker included. */
  lemma ZonelessMarkerStays(h: HostState, now: int, f: Faults, n: string)
    requires Exclusive(h.pool, h.insts) && n in Local(h) && Decide(h, n, now) == Choke
    ensures var q := Tick(h, now, f);
      && Get(q.insts, n) == Get(h.insts, n) && Get(q.graces, n) == Get(h.graces, n)
      && forall m | !Running(h, m) :: !Running(q, m)
  {
    TickLeaves(h, now, f, n);
    forall m | !Running(h, m) ensures !Running(Tick(h, now, f), m) { BlockedTickStartsNobody(h, now, f, n, m); }
  }
}
