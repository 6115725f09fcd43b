/** Stop-grace safety over every run of ticks, stop-now requests and whatever
    else happens to the host in between. */
module GraceSafety {
  import opened Basics
  import opened Schedule
  import Names
  import opened GpuPool
  import opened Reconciler

  /** `Outside` is any other change: schedule edits, command line operations,
      launches, or a destroy that drops markers. Nothing else writes markers. */
  datatype Event =
    | TickAt(now: int, faults: Faults)
    | StopNow(name: string, at: int)
    | Outside(next: HostState, dropped: set<string>)

  /** The stop-now endpoint only acts on a VM the schedule wants off. */
  predicate StopNowAccepted(h: HostState, n: string, at: int) {
    n in h.registry && Managed(h, n) && !DesiredOn(h.desired[n], at)
  }

  function Apply(h: HostState, e: Event): HostState {
    match e
    case TickAt(now, faults) => Tick(h, now, faults)
    case StopNow(n, at) =>
      if StopNowAccepted(h, n, at) then h.(graces := h.graces[n := Grace(Utc(Truncated(at)), true)]) else h
    case Outside(next, dropped) => next.(graces := h.graces - dropped)
  }

  /** The state just before event `k`. */
  function Before(h0: HostState, events: seq<Event>, k: nat): HostState
    requires k <= |events|
  {
    if k == 0 then h0 else Apply(Before(h0, events, k - 1), events[k - 1])
  }

  /** The stop pass of tick `k`. */
  function PassAt(h0: HostState, events: seq<Event>, k: nat): Phase
    requires k < |events| && events[k].TickAt?
  {
    FirstPass(Before(h0, events, k), events[k].now, events[k].faults)
  }

  /** Event `k` is a tick that got to `n` and found it wanted on. */
  ghost predicate SawOn(h0: HostState, events: seq<Event>, k: nat, n: string)
    requires k < |events|
  {
    events[k].TickAt? && n in PassAt(h0, events, k).visited
    && var h := Before(h0, events, k); Managed(h, n) && DesiredOn(h.desired[n], events[k].now)
  }

  /** Event `k` wrote marker `g` for `n`: a tick that warned the guest, or an
      accepted stop-now. */
  ghost predicate Wrote(h0: HostState, events: seq<Event>, k: nat, n: string, g: Grace)
    requires k < |events|
  {
    match events[k]
    case TickAt(now, _) => n in PassAt(h0, events, k).warned && g == Grace(Utc(Truncated(now)), false)
    case StopNow(m, at) =>
      m == n && StopNowAccepted(Before(h0, events, k), n, at) && g == Grace(Utc(Truncated(at)), true)
    case Outside(_, _) => false
  }

  /** Event `m` wrote `g`, and no tick between `m` and `k` saw `n` wanted on. */
  ghost predicate Standing(h0: HostState, events: seq<Event>, m: nat, k: nat, n: string, g: Grace)
    requires k <= |events|
  {
    m < k && Wrote(h0, events, m, n, g) && forall j | m < j < k :: !SawOn(h0, events, j, n)
  }

  /** A marker present after a tick was written by its warning, or was there
      before and the tick did not find the VM wanted on. */
  lemma TickMarkers(h: HostState, now: int, f: Faults, n: string)
    requires n in Tick(h, now, f).graces
    ensures var p, g := FirstPass(h, now, f), Tick(h, now, f).graces[n];
      || (n in p.warned && g == Grace(Utc(Truncated(now)), false))
      || (n in h.graces && g == h.graces[n]
          && !(n in p.visited && Managed(h, n) && DesiredOn(h.desired[n], now)))
  {
    var p := FirstPass(h, now, f);
    FirstPassEach(h, now, f, n);
    StartPassFrame(p.h, p.toStart, f);
    assert Tick(h, now, f).graces == p.h.graces;
    assert Get(p.h.graces, n) == Some(Tick(h, now, f).graces[n]);
    if n in p.visited { AloneMarker(h, now, f, n); }
  }

  lemma AloneMarker(h: HostState, now: int, f: Faults, n: string)
    requires n in Alone(h, n, now, f).h.graces
    ensures var d, g := Decide(h, n, now), Alone(h, n, now, f).h.graces[n];
      || (d == WarnGuest && g == Grace(Utc(Truncated(now)), false))
      || (d !in {WarnGuest, KeepRunning, StartLater} && n in h.graces && g == h.graces[n])
  {
    match Decide(h, n, now) {
      case HandsOff =>
      case KeepRunning =>
      case StartLater =>
      case WarnGuest =>
      case AwaitGrace =>
      case Choke =>
      case StopGuest => assert n in StopAndRelease(h, n, f).graces ==> StopAndRelease(h, n, f).graces == h.graces;
      case StaysOff =>
      case ReleaseStopped =>
    }
  }

  /** A marker before event `k` was written by the event just before, or was there
      already and that event did not see the VM wanted on. */
  lemma MarkerStep(h0: HostState, events: seq<Event>, k: nat, n: string)
    requires 0 < k <= |events| && n in Before(h0, events, k).graces
    ensures var h, g := Before(h0, events, k - 1), Before(h0, events, k).graces[n];
      Wrote(h0, events, k - 1, n, g) || (n in h.graces && h.graces[n] == g && !SawOn(h0, events, k - 1, n))
  {
    var h, e := Before(h0, events, k - 1), events[k - 1];
    if e.TickAt? { TickMarkers(h, e.now, e.faults, n); }
  }

  /** Backwards search: what is there at `k` was written at some `m`, and was not
      seen to be unwanted in between. */
  lemma {:induction false} Traced(k: nat, has: seq<bool>, wrote: seq<bool>, saw: seq<bool>) returns (m: nat)
    requires k < |has| && k <= |wrote| && k <= |saw| && !has[0] && has[k]
    requires forall j | 0 <= j < k && has[j + 1] :: wrote[j] || (has[j] && !saw[j])
    ensures m < k && wrote[m] && forall j | m < j < k :: !saw[j]
    decreases k
  {
    assert has[(k - 1) + 1];
    if wrote[k - 1] { m := k - 1; } else { m := Traced(k - 1, has, wrote, saw); }
  }

  ghost predicate HasMarker(h0: HostState, events: seq<Event>, j: nat, n: string, g: Grace)
    requires j <= |events|
  {
    Get(Before(h0, events, j).graces, n) == Some(g)
  }

  /** The life of a marker, event by event. */
  lemma MarkerHistory(h0: HostState, events: seq<Event>, n: string, g: Grace)
    returns (has: seq<bool>, wrote: seq<bool>, saw: seq<bool>)
    requires h0.graces == map[]
    ensures |has| == |events| + 1 && |wrote| == |saw| == |events| && !has[0]
    ensures forall j | 0 <= j <= |events| :: has[j] <==> HasMarker(h0, events, j, n, g)
    ensures forall j | 0 <= j < |events| :: wrote[j] <==> Wrote(h0, events, j, n, g)
    ensures forall j | 0 <= j < |events| :: saw[j] <==> SawOn(h0, events, j, n)
    ensures forall j | 0 <= j < |events| && has[j + 1] :: wrote[j] || (has[j] && !saw[j])
  {
    has := seq(|events| + 1, j requires 0 <= j <= |events| => HasMarker(h0, events, j, n, g));
    wrote := seq(|events|, j requires 0 <= j < |events| => Wrote(h0, events, j, n, g));
    saw := seq(|events|, j requires 0 <= j < |events| => SawOn(h0, events, j, n));
    forall j | 0 <= j < |events| && has[j + 1] ensures wrote[j] || (has[j] && !saw[j]) {
      MarkerStep(h0, events, j + 1, n);
    }
  }

  /** Every marker can be traced back to the event that wrote it. */
  lemma MarkersTraced(h0: HostState, events: seq<Event>, k: nat, n: string, g: Grace) returns (m: nat)
    requires h0.graces == map[] && k <= |events| && HasMarker(h0, events, k, n, g)
    ensures Standing(h0, events, m, k, n, g)
  {
    var has, wrote, saw := MarkerHistory(h0, events, n, g);
    m := Traced(k, has, wrote, saw);
    assert wrote[m];
  }

  /** Grace safety: a tick tells a VM to stop only if it is managed, running and
      not wanted on, and some earlier event accounts for it: an accepted
      stop-now, or a warning tick whose recorded stamp is at least the grace
      back (so the guest really had more than 299 s). No tick in between that
      got to the VM found it wanted on. */
  lemma {:induction false} StopsAreGraceful(h0: HostState, events: seq<Event>, k: nat, n: string)
    requires h0.graces == map[] && k < |events| && events[k].TickAt? && n in PassAt(h0, events, k).stops
    ensures var h, now := Before(h0, events, k), events[k].now;
      && Managed(h, n) && Running(h, n) && !DesiredOn(h.desired[n], now)
      && exists m: nat, g: Grace ::
           && Standing(h0, events, m, k, n, g)
           && (events[m].StopNow? ||
               (events[m].TickAt? && now - Truncated(events[m].now) >= GRACE && now - events[m].now > 299 * SECOND))
  {
    var h, now := Before(h0, events, k), events[k].now;
    FirstPassEach(h, now, events[k].faults, n);
    var m := MarkersTraced(h0, events, k, n, h.graces[n]);
    assert Expired(h.graces[n], now);
  }

  /** A start pass never powers anything off. */
  lemma {:induction false} StartPassKeepsRunning(h: HostState, names: seq<string>, f: Faults, n: string)
    requires Exclusive(h.pool, h.insts) && Running(h, n)
    ensures Running(StartPass(h, names, f), n)
    decreases |names|
  {
    if names != [] {
      EnsureAttachedKeeps(h.pool, h.insts, Want(h, names[0]), names[0], f);
      BringUpKeeps(h.pool, h.insts, Want(h, names[0]), names[0], f);
      StartPassKeepsRunning(StartOne(h, names[0], f), names[1..], f, n);
    }
  }

  /** A VM that runs before a tick and not after it was told to stop by it. */
  lemma OnlyStopsPowerOff(h: HostState, now: int, f: Faults, n: string)
    requires Exclusive(h.pool, h.insts) && Running(h, n) && !Running(Tick(h, now, f), n)
    ensures n in FirstPass(h, now, f).stops
  {
    var p := FirstPass(h, now, f);
    FirstPassEach(h, now, f, n);
    if Running(p.h, n) {
      StopPassKeepsExclusive(Phase(h, false, [], {}, {}, {}), h, Names.Sorted(Local(h)), now, f);
      StartPassKeepsRunning(p.h, p.toStart, f, n);
      assert false;
    }
    assert Get(p.h.insts, n) != Get(h.insts, n);
    assert n in p.visited;
    assert Decide(h, n, now) == StopGuest by { AloneInstance(h, now, f, n); }
  }

  lemma AloneInstance(h: HostState, now: int, f: Faults, n: string)
    requires Running(h, n)
    ensures Decide(h, n, now) != StopGuest ==> Get(Alone(h, n, now, f).h.insts, n) == Get(h.insts, n)
  {
  }
}
