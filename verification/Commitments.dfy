/** GPU capacity commitments: which GPUs of a host are spoken for, and when. */
module Commitments {
  import opened Basics
  import opened Schedule

  /** A registry record. An absent host is the empty string, an absent GPU
      count is zero. */
  datatype Vm = Vm(name: string, owner: string, gpus: nat, host: string, container: bool)

  /** `windows` is `None` for GPUs that are held all the time. */
  datatype Commitment =
    Commitment(vm: string, owner: string, gpus: nat, mode: Mode, windows: Option<seq<Window>>)

  function ModeOf(desired: map<string, Desired>, name: string): Mode {
    if name in desired then desired[name].mode else Unmanaged
  }

  function WindowsOf(desired: map<string, Desired>, name: string): seq<RawWindow> {
    if name in desired then desired[name].windows else []
  }

  function LiveWindows(ws: seq<RawWindow>, now: int): seq<Window> {
    if ws == [] then []
    else
      var p := ParseWindow(ws[|ws| - 1], Some(now));
      LiveWindows(ws[..|ws| - 1], now) + if p.Some? then [p.value] else []
  }

  /** The commitment one registry record implies, if any. */
  function CommitmentOf(vm: Vm, desired: map<string, Desired>, now: int): Option<Commitment> {
    var mode := ModeOf(desired, vm.name);
    var live := LiveWindows(WindowsOf(desired, vm.name), now);
    if vm.container || vm.gpus == 0 || vm.host == "" || mode == Off then None
    else if mode == Scheduled && live == [] then None
    else Some(Commitment(vm.name, vm.owner, vm.gpus, mode,
                         if mode == Scheduled then Some(live) else None))
  }

  /** The commitments on `host`, in registry order. */
  function HostCommits(registry: seq<Vm>, desired: map<string, Desired>, now: int, host: string)
    : seq<Commitment>
  {
    if registry == [] then []
    else
      var vm := registry[|registry| - 1];
      var c := CommitmentOf(vm, desired, now);
      HostCommits(registry[..|registry| - 1], desired, now, host)
      + if c.Some? && vm.host == host then [c.value] else []
  }

  function At(hosts: map<string, seq<Commitment>>, host: string): seq<Commitment> {
    if host in hosts then hosts[host] else []
  }

  lemma HostCommitsStep(registry: seq<Vm>, k: nat, desired: map<string, Desired>, now: int, host: string)
    requires k < |registry|
    ensures var c := CommitmentOf(registry[k], desired, now);
      HostCommits(registry[..k + 1], desired, now, host)
      == HostCommits(registry[..k], desired, now, host)
         + if c.Some? && registry[k].host == host then [c.value] else []
  {
    assert registry[..k + 1][..k] == registry[..k];
  }

  /** One registry record more, for every host at once. */
  lemma HostsStep(before: map<string, seq<Commitment>>, after: map<string, seq<Commitment>>,
                  registry: seq<Vm>, k: nat, desired: map<string, Desired>, now: int)
    requires k < |registry| && forall h :: At(before, h) == HostCommits(registry[..k], desired, now, h)
    requires var vm, c := registry[k], CommitmentOf(registry[k], desired, now);
      after == if c.Some? then before[vm.host := At(before, vm.host) + [c.value]] else before
    ensures forall h :: At(after, h) == HostCommits(registry[..k + 1], desired, now, h)
  {
    forall h ensures At(after, h) == HostCommits(registry[..k + 1], desired, now, h) {
      assert At(before, h) == HostCommits(registry[..k], desired, now, h);
      HostCommitsStep(registry, k, desired, now, h);
    }
  }

  /** The commitments follow the registry: those of its parts, in their order. */
  lemma {:induction false} CommitsConcat(a: seq<Vm>, b: seq<Vm>, desired: map<string, Desired>, now: int, host: string)
    ensures HostCommits(a + b, desired, now, host)
      == HostCommits(a, desired, now, host) + HostCommits(b, desired, now, host)
  {
    if b == [] {
      assert a + b == a;
    } else {
      assert (a + b)[..|a + b| - 1] == a + b[..|b| - 1];
      CommitsConcat(a, b[..|b| - 1], desired, now, host);
    }
  }

  /** What one record commits: under its own name, owner and GPU count, with its
      windows iff it is scheduled. */
  lemma CommitmentNames(vm: Vm, desired: map<string, Desired>, now: int)
    ensures HostCommits([vm], desired, now, vm.host)
      == (var c := CommitmentOf(vm, desired, now); if c.Some? then [c.value] else [])
    ensures forall host | host != vm.host :: HostCommits([vm], desired, now, host) == []
    ensures var c := CommitmentOf(vm, desired, now); c.Some? ==>
      && c.value.vm == vm.name && c.value.owner == vm.owner && c.value.gpus == vm.gpus
      && c.value.mode == (if vm.name in desired then desired[vm.name].mode else Unmanaged)
      && (c.value.windows.Some? <==> vm.name in desired && desired[vm.name].mode == Scheduled)
  {
    assert [vm][..0] == [];
  }

  method GpuCommitments(registry: seq<Vm>, desired: map<string, Desired>, now: int)
    returns (hosts: map<string, seq<Commitment>>)
    ensures forall h :: At(hosts, h) == HostCommits(registry, desired, now, h)
    ensures forall h | h in hosts :: hosts[h] != []
  {
    hosts := map[];
    for k := 0 to |registry|
      invariant forall h :: At(hosts, h) == HostCommits(registry[..k], desired, now, h)
      invariant forall h | h in hosts :: hosts[h] != []
    {
      ghost var before := hosts;
      var vm := registry[k];
      var c := CommitmentOf(vm, desired, now);
      if c.Some? {
        hosts := hosts[vm.host := At(hosts, vm.host) + [c.value]];
      }
      HostsStep(before, hosts, registry, k, desired, now);
    }
    assert registry[..|registry|] == registry;
  }

  predicate AnyCovers(ws: seq<Window>, t: int) { exists i | 0 <= i < |ws| :: ws[i].Covers(t) }

  predicate ActiveAt(c: Commitment, t: int) { c.windows.None? || AnyCovers(c.windows.value, t) }

  /** The commitments that hold GPUs at `t`. */
  function Holders(commits: seq<Commitment>, t: int): seq<Commitment> {
    if commits == [] then []
    else
      var c := commits[|commits| - 1];
      Holders(commits[..|commits| - 1], t) + if ActiveAt(c, t) then [c] else []
  }

  function GpuSum(commits: seq<Commitment>): nat {
    if commits == [] then 0
    else GpuSum(commits[..|commits| - 1]) + commits[|commits| - 1].gpus
  }

  function CommittedAt(commits: seq<Commitment>, t: int): nat { GpuSum(Holders(commits, t)) }

  // ---------------------------------------------------------------------
  // Reference reading of the registry: who holds GPUs at an instant
  // ---------------------------------------------------------------------

  /** Unmanaged and 'on' hold GPUs always, 'off' never, a schedule during its windows. */
  predicate HoldsAt(desired: map<string, Desired>, name: string, t: int) {
    var mode := ModeOf(desired, name);
    mode != Off && (mode == Scheduled ==> WindowOpen(WindowsOf(desired, name), t))
  }

  predicate OnPool(vm: Vm, host: string) { !vm.container && vm.host == host }

  function Share(vm: Vm, desired: map<string, Desired>, host: string, t: int): nat {
    if OnPool(vm, host) && HoldsAt(desired, vm.name, t) then vm.gpus else 0
  }

  /** GPUs of `host` held at `t`, straight from the registry and the stored intents. */
  function Demand(registry: seq<Vm>, desired: map<string, Desired>, host: string, t: int): nat {
    if registry == [] then 0
    else
      Demand(registry[..|registry| - 1], desired, host, t)
      + Share(registry[|registry| - 1], desired, host, t)
  }

  /** GPUs of the VMs of `host` that the reconciler wants powered on at `t`. */
  function WantedOn(registry: seq<Vm>, desired: map<string, Desired>, host: string, t: int): nat {
    if registry == [] then 0
    else
      var vm := registry[|registry| - 1];
      WantedOn(registry[..|registry| - 1], desired, host, t)
      + if OnPool(vm, host) && vm.name in desired && DesiredOn(desired[vm.name], t) then vm.gpus else 0
  }

  /** A record the page writes wants its VM on exactly when it holds GPUs. */
  lemma WantedIsHeld(desired: map<string, Desired>, name: string, t: int)
    requires name in desired && desired[name].mode in {On, Off, Scheduled}
    ensures DesiredOn(desired[name], t) <==> HoldsAt(desired, name, t)
    ensures HoldsAt(desired, name, t) <==>
      desired[name].mode == On || (desired[name].mode == Scheduled && AnyRawCovers(desired[name].windows, t))
  {
    WantedByMode(desired[name], t);
    OpenIsCovered(desired[name].windows, t);
  }

  /** Every VM of the host that holds GPUs is managed. */
  predicate AllManaged(registry: seq<Vm>, desired: map<string, Desired>, host: string) {
    forall vm | vm in registry && OnPool(vm, host) ::
      vm.name in desired && desired[vm.name].mode in {On, Off, Scheduled}
  }

  /** On a fully managed host the GPUs wanted on are all the GPUs committed. */
  lemma {:induction false} WantedIsDemand(registry: seq<Vm>, desired: map<string, Desired>, host: string, t: int)
    requires AllManaged(registry, desired, host)
    ensures WantedOn(registry, desired, host, t) == Demand(registry, desired, host, t)
  {
    if registry != [] {
      var vm := registry[|registry| - 1];
      assert vm in registry;
      WantedIsDemand(registry[..|registry| - 1], desired, host, t);
      if OnPool(vm, host) { WantedIsHeld(desired, vm.name, t); }
    }
  }

  lemma {:induction false} WantedWithinDemand(registry: seq<Vm>, desired: map<string, Desired>, host: string, t: int)
    ensures WantedOn(registry, desired, host, t) <= Demand(registry, desired, host, t)
  {
    if registry != [] {
      WantedWithinDemand(registry[..|registry| - 1], desired, host, t);
    }
  }

  // ---------------------------------------------------------------------
  // What the computed commitments charge
  // ---------------------------------------------------------------------

  /** A window of `ws` contains `t` and has not elapsed at `now`. */
  predicate OpenAsOf(ws: seq<RawWindow>, t: int, now: int) {
    exists i | 0 <= i < |ws| :: OpenWindow(ws[i], t) && now < ws[i].end.at
  }

  predicate HeldAsOf(desired: map<string, Desired>, name: string, t: int, now: int) {
    var mode := ModeOf(desired, name);
    mode != Off && (mode == Scheduled ==> OpenAsOf(WindowsOf(desired, name), t, now))
  }

  /** GPUs of `host` held at `t` by intents that have not elapsed at `now`: from
      `now` on this is the demand, before it what lasts from `t` until now. */
  function Charged(registry: seq<Vm>, desired: map<string, Desired>, host: string, t: int, now: int): nat {
    if registry == [] then 0
    else
      var vm := registry[|registry| - 1];
      Charged(registry[..|registry| - 1], desired, host, t, now)
      + if OnPool(vm, host) && HeldAsOf(desired, vm.name, t, now) then vm.gpus else 0
  }

  lemma OpenFromNow(ws: seq<RawWindow>, t: int, now: int)
    requires now <= t
    ensures OpenAsOf(ws, t, now) <==> WindowOpen(ws, t)
  {
    if i :| 0 <= i < |ws| && OpenWindow(ws[i], t) { assert now < ws[i].end.at; }
  }

  lemma {:induction false} ChargedIsDemand(registry: seq<Vm>, desired: map<string, Desired>, host: string, t: int,
                                           now: int)
    requires now <= t
    ensures Charged(registry, desired, host, t, now) == Demand(registry, desired, host, t)
  {
    if registry != [] {
      ChargedIsDemand(registry[..|registry| - 1], desired, host, t, now);
      OpenFromNow(WindowsOf(desired, registry[|registry| - 1].name), t, now);
    }
  }

  /** Dropping elapsed windows keeps exactly the others. */
  lemma {:induction false} LiveWindowsOpen(ws: seq<RawWindow>, now: int, t: int)
    ensures AnyCovers(LiveWindows(ws, now), t) <==> OpenAsOf(ws, t, now)
    ensures forall i | 0 <= i < |LiveWindows(ws, now)| :: now < LiveWindows(ws, now)[i].end
  {
    if ws != [] {
      var init, w := ws[..|ws| - 1], ws[|ws| - 1];
      LiveWindowsOpen(init, now, t);
      var a, b := LiveWindows(init, now), LiveWindows(ws, now);
      assert a <= b;
      if OpenAsOf(ws, t, now) {
        var i :| 0 <= i < |ws| && OpenWindow(ws[i], t) && now < ws[i].end.at;
        if i < |init| {
          assert OpenWindow(init[i], t) && now < init[i].end.at;
          var j :| 0 <= j < |a| && a[j].Covers(t);
          assert b[j].Covers(t);
        } else {
          assert b[|b| - 1].Covers(t);
        }
      }
      if j :| 0 <= j < |b| && b[j].Covers(t) {
        if j < |a| {
          assert a[j].Covers(t);
          assert AnyCovers(a, t);
          var i :| 0 <= i < |init| && OpenWindow(init[i], t) && now < init[i].end.at;
          assert OpenWindow(ws[i], t) && now < ws[i].end.at;
        } else {
          assert OpenWindow(ws[|ws| - 1], t) && now < ws[|ws| - 1].end.at;
        }
      }
    }
  }

  lemma CommitmentHolds(vm: Vm, desired: map<string, Desired>, now: int, t: int)
    requires vm.host != ""
    ensures var c := CommitmentOf(vm, desired, now);
      (c.Some? && ActiveAt(c.value, t)) <==> (!vm.container && vm.gpus != 0 && HeldAsOf(desired, vm.name, t, now))
  {
    LiveWindowsOpen(WindowsOf(desired, vm.name), now, t);
  }

  /** The computed commitments charge a host, at every instant, exactly what the
      registry and the stored intents not yet elapsed say it owes. */
  lemma {:induction false} CommitsAreCharged(registry: seq<Vm>, desired: map<string, Desired>, now: int,
                                             host: string, t: int)
    requires host != ""
    ensures CommittedAt(HostCommits(registry, desired, now, host), t) == Charged(registry, desired, host, t, now)
  {
    if registry != [] {
      var init, vm := registry[..|registry| - 1], registry[|registry| - 1];
      CommitsAreCharged(init, desired, now, host, t);
      var a, b := HostCommits(init, desired, now, host), HostCommits(registry, desired, now, host);
      if vm.host == host {
        CommitmentHolds(vm, desired, now, t);
        var c := CommitmentOf(vm, desired, now);
        if c.Some? {
          assert b[..|b| - 1] == a;
          HoldersAppend(a, c.value, t);
        } else {
          assert b == a;
        }
      } else {
        assert b == a;
      }
    }
  }

  /** From now on that is everything the registry and the stored intents say it owes. */
  lemma CommitsAreDemand(registry: seq<Vm>, desired: map<string, Desired>, now: int, host: string, t: int)
    requires now <= t && host != ""
    ensures CommittedAt(HostCommits(registry, desired, now, host), t) == Demand(registry, desired, host, t)
  {
    CommitsAreCharged(registry, desired, now, host, t);
    ChargedIsDemand(registry, desired, host, t, now);
  }

  lemma HoldersAppend(a: seq<Commitment>, c: Commitment, t: int)
    ensures CommittedAt(a + [c], t) == CommittedAt(a, t) + if ActiveAt(c, t) then c.gpus else 0
  {
    assert (a + [c])[..|a|] == a;
    var h := Holders(a, t);
    assert (h + [c])[..|h|] == h;
    assert h + [] == h;
  }

  // ---------------------------------------------------------------------
  // The sparse probe
  // ---------------------------------------------------------------------

  /** `p` holds at least everyone who holds at `t`. */
  lemma {:induction false} HoldersMonotone(commits: seq<Commitment>, p: int, t: int)
    requires forall k | 0 <= k < |commits| :: ActiveAt(commits[k], t) ==> ActiveAt(commits[k], p)
    ensures CommittedAt(commits, t) <= CommittedAt(commits, p)
  {
    if commits != [] {
      var init, c := commits[..|commits| - 1], commits[|commits| - 1];
      HoldersMonotone(init, p, t);
      assert commits == init + [c];
      HoldersAppend(init, c, t);
      HoldersAppend(init, c, p);
    }
  }

  /** Probing only `points` is enough when they hold `lo` and every window
      start strictly inside the range. */
  ghost predicate CoversStarts(points: seq<int>, commits: seq<Commitment>, lo: int, hi: int) {
    lo in points
    && forall k, i | 0 <= k < |commits| && commits[k].windows.Some? && 0 <= i < |commits[k].windows.value| ::
         lo < commits[k].windows.value[i].start < hi ==> commits[k].windows.value[i].start in points
  }

  /** The latest probe at or before `t`. */
  lemma LatestProbe(points: seq<int>, lo: int, t: int) returns (p: int)
    requires lo in points && lo <= t
    ensures p in points && lo <= p <= t
    ensures forall q | q in points && q <= t :: q <= p
  {
    p := lo;
    for k := 0 to |points|
      invariant p in points && lo <= p <= t
      invariant forall j | 0 <= j < k :: points[j] <= t ==> points[j] <= p
    {
      if p < points[k] <= t { p := points[k]; }
    }
  }

  /** Committed capacity peaks at a probe: every instant of the range is
      dominated by some probe of the range. */
  lemma PeakAtProbe(points: seq<int>, commits: seq<Commitment>, lo: int, hi: int, t: int) returns (p: int)
    requires CoversStarts(points, commits, lo, hi) && lo <= t < hi
    ensures p in points && lo <= p <= t
    ensures CommittedAt(commits, t) <= CommittedAt(commits, p)
  {
    p := LatestProbe(points, lo, t);
    forall k | 0 <= k < |commits| && ActiveAt(commits[k], t)
      ensures ActiveAt(commits[k], p)
    {
      if commits[k].windows.Some? {
        var ws := commits[k].windows.value;
        var i :| 0 <= i < |ws| && ws[i].Covers(t);
        assert ws[i].Covers(p);
      }
    }
    HoldersMonotone(commits, p, t);
  }

  datatype Conflict = Conflict(at: int, free: int, holders: seq<Commitment>)

  /** The candidate's GPUs are free at `t`. */
  predicate FitsAt(commits: seq<Commitment>, gpus: int, pool: int, t: int) {
    gpus <= pool - CommittedAt(commits, t)
  }

  /** What `gpu_conflict` decides for a range: every instant of it, or just
      `lo` when the range is empty. */
  ghost predicate FitsRange(commits: seq<Commitment>, gpus: int, pool: int, lo: int, hi: int) {
    if lo < hi then forall t | lo <= t < hi :: FitsAt(commits, gpus, pool, t)
    else FitsAt(commits, gpus, pool, lo)
  }

  /** The probe points: `lo` and every window start strictly inside the range. */
  method ProbePoints(commits: seq<Commitment>, lo: int, hi: int) returns (points: seq<int>)
    ensures CoversStarts(points, commits, lo, hi)
    ensures forall p | p in points :: p == lo || lo < p < hi
  {
    points := [lo];
    for k := 0 to |commits|
      invariant CoversStarts(points, commits[..k], lo, hi)
      invariant forall p | p in points :: p == lo || lo < p < hi
    {
      var ws := if commits[k].windows.Some? then commits[k].windows.value else [];
      for i := 0 to |ws|
        invariant CoversStarts(points, commits[..k], lo, hi)
        invariant forall j | 0 <= j < i :: lo < ws[j].start < hi ==> ws[j].start in points
        invariant forall p | p in points :: p == lo || lo < p < hi
      {
        if lo < ws[i].start < hi { points := points + [ws[i].start]; }
      }
    }
    assert commits[..|commits|] == commits;
  }

  /** `worst` is the worst shortage over the first `k` probes. */
  ghost predicate WorstOf(worst: Option<Conflict>, commits: seq<Commitment>, gpus: int, pool: int, points: seq<int>,
                          k: nat)
    requires k <= |points|
  {
    if worst.None? then forall j | 0 <= j < k :: FitsAt(commits, gpus, pool, points[j])
    else
      && worst.value.at in points[..k]
      && worst.value.holders == Holders(commits, worst.value.at)
      && worst.value.free == pool - CommittedAt(commits, worst.value.at) < gpus
      && forall j | 0 <= j < k :: worst.value.free <= pool - CommittedAt(commits, points[j])
  }

  /** One probe more: the new one if it is short and shorter than any before. */
  lemma {:induction false} WorstStep(worst: Option<Conflict>, commits: seq<Commitment>, gpus: int, pool: int,
                                     points: seq<int>, k: nat)
    requires k < |points| && WorstOf(worst, commits, gpus, pool, points, k)
    ensures var free := pool - CommittedAt(commits, points[k]);
      var next := if free < gpus && (worst.None? || free < worst.value.free)
                  then Some(Conflict(points[k], free, Holders(commits, points[k]))) else worst;
      WorstOf(next, commits, gpus, pool, points, k + 1)
  {
    assert points[..k + 1] == points[..k] + [points[k]];
  }

  /** The worst probe of a covering set is the worst instant of the range. */
  lemma WorstOfRange(worst: Option<Conflict>, commits: seq<Commitment>, gpus: int, pool: int, points: seq<int>,
                     lo: int, hi: int)
    requires CoversStarts(points, commits, lo, hi)
    requires forall p | p in points :: p == lo || lo < p < hi
    requires WorstOf(worst, commits, gpus, pool, points, |points|)
    ensures worst.None? <==> FitsRange(commits, gpus, pool, lo, hi)
    ensures worst.Some? ==> forall t | lo <= t < hi :: worst.value.free <= pool - CommittedAt(commits, t)
  {
    forall t | lo <= t < hi
      ensures worst.Some? ==> worst.value.free <= pool - CommittedAt(commits, t)
      ensures worst.None? ==> FitsAt(commits, gpus, pool, t)
    {
      var p := PeakAtProbe(points, commits, lo, hi, t);
      var j :| 0 <= j < |points| && points[j] == p;
    }
    assert points[..|points|] == points;
    if worst.Some? {
      assert !FitsAt(commits, gpus, pool, worst.value.at);
    }
  }

  /** The sparse sweep is exact: no conflict iff the candidate fits at every
      instant of the range, and a reported conflict is at a true minimum. */
  method GpuConflict(commits: seq<Commitment>, gpus: int, pool: int, lo: int, hi: int)
    returns (worst: Option<Conflict>)
    ensures worst.None? <==> FitsRange(commits, gpus, pool, lo, hi)
    ensures worst.Some? ==>
      var c := worst.value;
      && c.holders == Holders(commits, c.at)
      && c.free == pool - CommittedAt(commits, c.at) < gpus
      && lo <= c.at && (lo < hi ==> c.at < hi) && (hi <= lo ==> c.at == lo)
      && forall t | lo <= t < hi :: c.free <= pool - CommittedAt(commits, t)
  {
    var points := ProbePoints(commits, lo, hi);
    worst := SweepProbes(commits, gpus, pool, points);
    WorstOfRange(worst, commits, gpus, pool, points, lo, hi);
    assert points[..|points|] == points;
  }

  /** The loop over the probes. */
  method SweepProbes(commits: seq<Commitment>, gpus: int, pool: int, points: seq<int>)
    returns (worst: Option<Conflict>)
    ensures WorstOf(worst, commits, gpus, pool, points, |points|)
  {
    worst := None;
    for k := 0 to |points|
      invariant WorstOf(worst, commits, gpus, pool, points, k)
    {
      WorstStep(worst, commits, gpus, pool, points, k);
      var active := Holders(commits, points[k]);
      var free := pool - GpuSum(active);
      if free < gpus && (worst.None? || free < worst.value.free) {
        worst := Some(Conflict(points[k], free, active));
      }
    }
  }
}
