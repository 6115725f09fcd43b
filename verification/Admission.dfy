/** Admission control of the scheduling page, and capacity safety of every run
    of accepted edits. */
module Admission {
  import opened Basics
  import opened Schedule
  import opened Commitments

  predicate UniqueNames(registry: seq<Vm>) {
    forall i, j | 0 <= i < j < |registry| :: registry[i].name != registry[j].name
  }

  function Find(registry: seq<Vm>, name: string): (r: Option<Vm>)
    ensures r.Some? ==> r.value in registry && r.value.name == name
    ensures r.None? ==> forall i | 0 <= i < |registry| :: registry[i].name != name
  {
    if registry == [] then None
    else if registry[|registry| - 1].name == name then Some(registry[|registry| - 1])
    else Find(registry[..|registry| - 1], name)
  }

  /** The registry with one name popped. */
  function Without(registry: seq<Vm>, name: string): (r: seq<Vm>)
    ensures forall i | 0 <= i < |r| :: r[i].name != name
  {
    if registry == [] then []
    else
      var vm := registry[|registry| - 1];
      Without(registry[..|registry| - 1], name) + if vm.name == name then [] else [vm]
  }

  // ---------------------------------------------------------------------
  // The check itself
  // ---------------------------------------------------------------------

  /** The time ranges a proposed intent would hold its GPUs for. */
  function Ranges(mode: Mode, windows: seq<Window>, now: int): seq<Window> {
    if mode == On then [Window(now, DATETIME_MAX)] else windows
  }

  /** Intents that are never checked: containers, records without host or
      GPUs, modes other than on/schedule, and hosts that reported no pool. */
  predicate Unchecked(pools: map<string, int>, vm: Vm, mode: Mode) {
    vm.container || vm.host == "" || vm.gpus == 0 || mode !in {On, Scheduled} || vm.host !in pools
  }

  function OtherCommits(registry: seq<Vm>, desired: map<string, Desired>, vm: Vm, now: int): seq<Commitment> {
    HostCommits(Without(registry, vm.name), desired, now, vm.host)
  }

  ghost predicate Admissible(registry: seq<Vm>, desired: map<string, Desired>, pools: map<string, int>,
                             vm: Vm, mode: Mode, windows: seq<Window>, now: int)
  {
    Unchecked(pools, vm, mode) ||
    var commits, rs := OtherCommits(registry, desired, vm, now), Ranges(mode, windows, now);
    forall i | 0 <= i < |rs| :: FitsRange(commits, vm.gpus, pools[vm.host], rs[i].start, rs[i].end)
  }

  /** A conflict reported for some range: too few GPUs are left at its instant,
      nowhere in the range are fewer left, and its holders are those of the instant. */
  ghost predicate Explains(c: Conflict, commits: seq<Commitment>, gpus: int, pool: int, ranges: seq<Window>) {
    exists i | 0 <= i < |ranges| ::
      && (if ranges[i].start < ranges[i].end then ranges[i].Covers(c.at) else c.at == ranges[i].start)
      && c.holders == Holders(commits, c.at) && c.free == pool - CommittedAt(commits, c.at) < gpus
      && forall t | ranges[i].Covers(t) :: c.free <= pool - CommittedAt(commits, t)
  }

  /** `_gpu_admission_error`: rejects exactly the inadmissible intents. */
  method GpuAdmissionError(registry: seq<Vm>, desired: map<string, Desired>, pools: map<string, int>,
                           vm: Vm, mode: Mode, windows: seq<Window>, now: int)
    returns (error: Option<Conflict>)
    ensures error.None? <==> Admissible(registry, desired, pools, vm, mode, windows, now)
    ensures vm.container || vm.host == "" || vm.gpus == 0 || mode in {Off, Unmanaged} || vm.host !in pools ==>
      error.None?
    ensures error.Some? ==> vm.host in pools && Explains(error.value, OtherCommits(registry, desired, vm, now),
                                                         vm.gpus, pools[vm.host], Ranges(mode, windows, now))
  {
    if Unchecked(pools, vm, mode) { return None; }
    var hosts := GpuCommitments(Without(registry, vm.name), desired, now);
    var commits := At(hosts, vm.host);
    var ranges := Ranges(mode, windows, now);
    for k := 0 to |ranges|
      invariant forall i | 0 <= i < k ::
        FitsRange(commits, vm.gpus, pools[vm.host], ranges[i].start, ranges[i].end)
    {
      error := GpuConflict(commits, vm.gpus, pools[vm.host], ranges[k].start, ranges[k].end);
      if error.Some? { return; }
    }
    return None;
  }

  // ---------------------------------------------------------------------
  // The set endpoint
  // ---------------------------------------------------------------------

  /** `mode` is `None` for a text that is none of the four modes. */
  datatype Request =
    Request(email: string, isAdmin: bool, vm: string, mode: Option<Mode>, windows: PostedWindows)

  datatype Outcome = Accepted | NoSuchVm | NotYours | BadMode | AdminOnly | BadWindows | OverCapacity

  predicate ValidName(name: string) {
    name != "" && forall i | 0 <= i < |name| ::
      'a' <= name[i] <= 'z' || '0' <= name[i] <= '9' || name[i] == '-'
  }

  /** The ASCII codes a name is made of: lower case letters, digits and the hyphen. */
  predicate NameCode(code: int) { 97 <= code <= 122 || 48 <= code <= 57 || code == 45 }

  lemma NamesAllowed(name: string)
    ensures ValidName(name) <==> |name| > 0 && forall i | 0 <= i < |name| :: NameCode(name[i] as int)
  {
  }

  /** The windows an edit stores, whatever its mode. */
  function KeptWindows(posted: PostedWindows, now: int): seq<Window> {
    if AcceptableList(posted) then Sorted(LiveTruncated(posted.items, now)) else []
  }

  /** The page's verdict; `parsed` and `checked` are its two clock readings. */
  ghost function Verdict(registry: seq<Vm>, desired: map<string, Desired>, pools: map<string, int>,
                         r: Request, parsed: int, checked: int): Outcome
  {
    var vm := Find(registry, r.vm);
    if !ValidName(r.vm) || vm.None? then NoSuchVm
    else if !r.isAdmin && vm.value.owner != r.email then NotYours
    else if r.mode.None? || r.mode.value == Other then BadMode
    else if !r.isAdmin && (r.mode.value == Unmanaged || (r.vm in desired && desired[r.vm].mode == Unmanaged))
    then AdminOnly
    else if r.mode.value == Scheduled && !AcceptableList(r.windows) then BadWindows
    else if !Admissible(registry, desired, pools, vm.value, r.mode.value, KeptWindows(r.windows, parsed), checked)
    then OverCapacity
    else Accepted
  }

  ghost function Edited(registry: seq<Vm>, desired: map<string, Desired>, pools: map<string, int>,
                        r: Request, parsed: int, checked: int): map<string, Desired>
  {
    if Verdict(registry, desired, pools, r, parsed, checked) != Accepted then desired
    else desired[r.vm := Desired(r.mode.value, StoredAll(KeptWindows(r.windows, parsed)))]
  }

  /** The record of `r.vm` is what `r` posted: its mode, and from `parsed` on its
      windows, cut to whole seconds; none of a list that is not acceptable. */
  ghost predicate StoresRequest(desired: map<string, Desired>, r: Request, parsed: int) {
    && r.vm in desired && Some(desired[r.vm].mode) == r.mode
    && (AcceptableList(r.windows) ==> forall t | parsed <= t ::
          AnyRawCovers(desired[r.vm].windows, t) <==> exists p | p in r.windows.items :: StoredCovers(p, t))
    && (!AcceptableList(r.windows) ==> desired[r.vm].windows == [])
  }

  lemma EditStores(registry: seq<Vm>, desired: map<string, Desired>, pools: map<string, int>,
                   r: Request, parsed: int, checked: int)
    ensures Verdict(registry, desired, pools, r, parsed, checked) == Accepted ==>
      StoresRequest(Edited(registry, desired, pools, r, parsed, checked), r, parsed)
  {
    if Verdict(registry, desired, pools, r, parsed, checked) != Accepted { return; }
    var stored := Edited(registry, desired, pools, r, parsed, checked)[r.vm];
    if AcceptableList(r.windows) {
      forall t | parsed <= t
        ensures AnyRawCovers(stored.windows, t) <==> exists p | p in r.windows.items :: StoredCovers(p, t)
      {
        PostedWindowsKept(r.windows, parsed, t);
        OpenIsCovered(stored.windows, t);
      }
    }
  }

  /** Everything an accepted request has to satisfy, and nothing else. */
  ghost predicate InOrder(registry: seq<Vm>, desired: map<string, Desired>, pools: map<string, int>,
                          r: Request, vm: Vm, parsed: int, checked: int)
  {
    && ValidName(r.vm) && (r.isAdmin || vm.owner == r.email)
    && r.mode in {Some(On), Some(Off), Some(Scheduled), Some(Unmanaged)}
    && (r.isAdmin || (r.mode != Some(Unmanaged) && (r.vm in desired ==> desired[r.vm].mode != Unmanaged)))
    && (r.mode == Some(Scheduled) ==> AcceptableList(r.windows))
    && Admissible(registry, desired, pools, vm, r.mode.value, KeptWindows(r.windows, parsed), checked)
  }

  /** A request is accepted iff everything is in order; otherwise the answer names
      something that is not. */
  lemma VerdictMeans(registry: seq<Vm>, desired: map<string, Desired>, pools: map<string, int>,
                     r: Request, parsed: int, checked: int)
    ensures var o, vm := Verdict(registry, desired, pools, r, parsed, checked), Find(registry, r.vm);
      && (o == Accepted <==> vm.Some? && InOrder(registry, desired, pools, r, vm.value, parsed, checked))
      && (o == NoSuchVm <==> !ValidName(r.vm) || vm.None?)
      && (o == NotYours ==> vm.Some? && !r.isAdmin && vm.value.owner != r.email)
      && (o == BadMode ==> r.mode.None? || r.mode.value == Other)
      && (o == AdminOnly ==>
            !r.isAdmin && (r.mode == Some(Unmanaged) || (r.vm in desired && desired[r.vm].mode == Unmanaged)))
      && (o == BadWindows ==> r.mode == Some(Scheduled) && !AcceptableList(r.windows))
      && (o == OverCapacity ==>
            vm.Some? && r.mode.Some?
            && !Admissible(registry, desired, pools, vm.value, r.mode.value, KeptWindows(r.windows, parsed), checked))
  {
  }

  /** The etcd records the scheduling page reads and the one prefix it writes. */
  class SchedulePage {
    var registry: seq<Vm>
    var pools: map<string, int>
    var desired: map<string, Desired>

    constructor (registry: seq<Vm>, pools: map<string, int>)
      ensures this.registry == registry && this.pools == pools && desired == map[]
    {
      this.registry, this.pools, this.desired := registry, pools, map[];
    }

    method Set(r: Request, parsed: int, checked: int) returns (o: Outcome)
      modifies this`desired
      ensures o == Verdict(registry, old(desired), pools, r, parsed, checked)
      ensures desired == Edited(registry, old(desired), pools, r, parsed, checked)
      // an accepted request stores what was posted, and only that record changes
      ensures o == Accepted ==> StoresRequest(desired, r, parsed)
      ensures forall n | n != r.vm :: Get(desired, n) == Get(old(desired), n)
      ensures o != Accepted ==> desired == old(desired)
      // whoever changes a record may do so, and 'unmanaged' is for admins alone
      ensures desired != old(desired) ==>
        r.isAdmin || exists vm | vm in registry :: vm.name == r.vm && vm.owner == r.email
      ensures !r.isAdmin && desired != old(desired) ==>
        && r.vm in desired && desired[r.vm].mode != Unmanaged
        && (r.vm in old(desired) ==> old(desired)[r.vm].mode != Unmanaged)
    {
      VerdictMeans(registry, desired, pools, r, parsed, checked);
      EditStores(registry, desired, pools, r, parsed, checked);
      var vm := Find(registry, r.vm);
      if !ValidName(r.vm) || vm.None? { return NoSuchVm; }
      if !r.isAdmin && vm.value.owner != r.email { return NotYours; }
      if r.mode.None? || r.mode.value == Other { return BadMode; }
      var mode := r.mode.value;
      if !r.isAdmin {
        if mode == Unmanaged { return AdminOnly; }
        if r.vm in desired && desired[r.vm].mode == Unmanaged { return AdminOnly; }
      }
      var kept := ParseWindows(r.windows, parsed);
      if mode == Scheduled && kept.None? { return BadWindows; }
      var windows := if kept.Some? then kept.value else [];
      var error := GpuAdmissionError(registry, desired, pools, vm.value, mode, windows, checked);
      if error.Some? { return OverCapacity; }
      desired := desired[r.vm := Desired(mode, StoredAll(windows))];
      return Accepted;
    }
  }

  // ---------------------------------------------------------------------
  // Exactness of one decision
  // ---------------------------------------------------------------------

  lemma {:induction false} DemandIgnores(registry: seq<Vm>, desired: map<string, Desired>, name: string, d: Desired,
                                         host: string, t: int)
    requires forall i | 0 <= i < |registry| :: registry[i].name != name
    ensures Demand(registry, desired[name := d], host, t) == Demand(registry, desired, host, t)
  {
    if registry != [] {
      DemandIgnores(registry[..|registry| - 1], desired, name, d, host, t);
    }
  }

  lemma DemandAppend(registry: seq<Vm>, vm: Vm, desired: map<string, Desired>, host: string, t: int)
    ensures Demand(registry + [vm], desired, host, t)
      == Demand(registry, desired, host, t) + Share(vm, desired, host, t)
  {
    assert (registry + [vm])[..|registry|] == registry;
  }

  /** A host's demand is the demand of the others plus the VM's own share. */
  lemma {:induction false} DemandSplit(registry: seq<Vm>, desired: map<string, Desired>, vm: Vm, host: string, t: int)
    requires UniqueNames(registry) && vm in registry
    ensures Demand(registry, desired, host, t)
         == Demand(Without(registry, vm.name), desired, host, t) + Share(vm, desired, host, t)
  {
    var init, last := registry[..|registry| - 1], registry[|registry| - 1];
    if last.name == vm.name {
      var i :| 0 <= i < |registry| && registry[i] == vm;
      assert i == |registry| - 1;
      WithoutAbsent(init, vm.name);
      assert Without(registry, vm.name) == init + [] == init;
    } else {
      assert vm in init;
      DemandSplit(init, desired, vm, host, t);
      DemandAppend(Without(init, vm.name), last, desired, host, t);
    }
  }

  lemma {:induction false} WithoutAbsent(registry: seq<Vm>, name: string)
    requires forall i | 0 <= i < |registry| :: registry[i].name != name
    ensures Without(registry, name) == registry
  {
    if registry != [] {
      WithoutAbsent(registry[..|registry| - 1], name);
    }
  }

  /** An instant before `now` is charged no more than `now` itself. */
  lemma PastDominated(registry: seq<Vm>, desired: map<string, Desired>, now: int, host: string, t: int)
    requires t <= now
    ensures CommittedAt(HostCommits(registry, desired, now, host), t)
         <= CommittedAt(HostCommits(registry, desired, now, host), now)
  {
    var commits := HostCommits(registry, desired, now, host);
    CommitsLive(registry, desired, now, host);
    forall k | 0 <= k < |commits| && ActiveAt(commits[k], t) ensures ActiveAt(commits[k], now) {
      if commits[k].windows.Some? {
        var ws := commits[k].windows.value;
        var i :| 0 <= i < |ws| && ws[i].Covers(t);
        assert commits[k] in commits;
        assert ws[i].Covers(now);
      }
    }
    HoldersMonotone(commits, now, t);
  }

  predicate Live(c: Commitment, now: int) {
    c.windows.Some? ==> forall i | 0 <= i < |c.windows.value| :: now < c.windows.value[i].end
  }

  lemma {:induction false} CommitsLive(registry: seq<Vm>, desired: map<string, Desired>, now: int, host: string)
    ensures forall c | c in HostCommits(registry, desired, now, host) :: Live(c, now)
  {
    if registry != [] {
      var init, vm := registry[..|registry| - 1], registry[|registry| - 1];
      CommitsLive(init, desired, now, host);
      LiveWindowsOpen(WindowsOf(desired, vm.name), now, now);
    }
  }

  /** The instants, from `now` on, at which an intent would hold GPUs. */
  predicate WouldHold(mode: Mode, windows: seq<Window>, t: int) {
    mode == On || exists i | 0 <= i < |windows| :: windows[i].Covers(t)
  }

  /** The others leave room for the VM at every future instant its intent claims. */
  ghost predicate RoomFor(registry: seq<Vm>, desired: map<string, Desired>, pool: int,
                          vm: Vm, mode: Mode, windows: seq<Window>, now: int)
  {
    forall t | now <= t < DATETIME_MAX && WouldHold(mode, windows, t) ::
      Demand(Without(registry, vm.name), desired, vm.host, t) + vm.gpus <= pool
  }

  /** An admitted intent has room at every future instant it claims. */
  lemma AdmittedHasRoom(registry: seq<Vm>, desired: map<string, Desired>, pools: map<string, int>,
                        vm: Vm, mode: Mode, windows: seq<Window>, now: int)
    requires mode in {On, Scheduled} && !Unchecked(pools, vm, mode)
    requires Admissible(registry, desired, pools, vm, mode, windows, now)
    ensures RoomFor(registry, desired, pools[vm.host], vm, mode, windows, now)
  {
    var commits, rs := OtherCommits(registry, desired, vm, now), Ranges(mode, windows, now);
    forall t | now <= t < DATETIME_MAX && WouldHold(mode, windows, t)
      ensures Demand(Without(registry, vm.name), desired, vm.host, t) + vm.gpus <= pools[vm.host]
    {
      CommitsAreDemand(Without(registry, vm.name), desired, now, vm.host, t);
      var i :| 0 <= i < |rs| && rs[i].Covers(t);
      assert FitsRange(commits, vm.gpus, pools[vm.host], rs[i].start, rs[i].end);
      assert FitsAt(commits, vm.gpus, pools[vm.host], t);
    }
  }

  /** A window that still claims an instant: not empty and not elapsed. */
  predicate HasFuture(w: Window, now: int) { w.start < w.end && now < w.end }

  /** The instants the probes of a window answer for: its own, and its start even
      if it is empty. */
  predicate Probed(w: Window, t: int) { t == w.start || w.Covers(t) }

  lemma ProbedRange(commits: seq<Commitment>, gpus: int, pool: int, w: Window)
    ensures FitsRange(commits, gpus, pool, w.start, w.end)
      <==> forall t | Probed(w, t) :: FitsAt(commits, gpus, pool, t)
  {
    assert Probed(w, w.start);
    assert forall t | w.start <= t < w.end :: Probed(w, t);
  }

  /** The others leave room at every instant probed for the windows that have no
      future, where only what has not elapsed is charged. */
  ghost predicate PastProbesFit(registry: seq<Vm>, desired: map<string, Desired>, pool: int,
                                vm: Vm, windows: seq<Window>, now: int)
  {
    forall i, t | 0 <= i < |windows| && !HasFuture(windows[i], now) && Probed(windows[i], t) ::
      Charged(Without(registry, vm.name), desired, vm.host, t, now) + vm.gpus <= pool
  }

  /** Room at the instants a window claims is room in its whole range: an instant
      already past is dominated by `now`, which the window covers too. */
  lemma FutureWindowFits(registry: seq<Vm>, desired: map<string, Desired>, pool: int,
                         vm: Vm, mode: Mode, windows: seq<Window>, now: int, w: Window)
    requires RoomFor(registry, desired, pool, vm, mode, windows, now) && vm.host != ""
    requires HasFuture(w, now) && w.end <= DATETIME_MAX
    requires forall t | now <= t && w.Covers(t) :: WouldHold(mode, windows, t)
    ensures FitsRange(OtherCommits(registry, desired, vm, now), vm.gpus, pool, w.start, w.end)
  {
    var others := Without(registry, vm.name);
    forall t | w.start <= t < w.end ensures FitsAt(OtherCommits(registry, desired, vm, now), vm.gpus, pool, t) {
      var u := if t < now then now else t;
      assert w.Covers(u);
      CommitsAreDemand(others, desired, now, vm.host, u);
      if t < now { PastDominated(others, desired, now, vm.host, t); }
    }
  }

  lemma PastWindowFits(registry: seq<Vm>, desired: map<string, Desired>, pool: int, vm: Vm, now: int, w: Window)
    requires vm.host != ""
    ensures FitsRange(OtherCommits(registry, desired, vm, now), vm.gpus, pool, w.start, w.end)
       <==> forall t | Probed(w, t) :: Charged(Without(registry, vm.name), desired, vm.host, t, now) + vm.gpus <= pool
  {
    var commits, others := OtherCommits(registry, desired, vm, now), Without(registry, vm.name);
    ProbedRange(commits, vm.gpus, pool, w);
    forall t ensures CommittedAt(commits, t) == Charged(others, desired, vm.host, t, now) {
      CommitsAreCharged(others, desired, now, vm.host, t);
    }
  }

  /** Admission is exact for every list of windows: an intent is admitted iff the
      others leave room at every instant it claims and, for the windows that no
      longer claim any, at the instants probed for them. */
  lemma AdmissionExact(registry: seq<Vm>, desired: map<string, Desired>, pools: map<string, int>,
                       vm: Vm, mode: Mode, windows: seq<Window>, now: int)
    requires mode in {On, Scheduled} && !Unchecked(pools, vm, mode) && now < DATETIME_MAX
    requires forall i | 0 <= i < |windows| :: windows[i].end <= DATETIME_MAX
    ensures Admissible(registry, desired, pools, vm, mode, windows, now)
       <==> && RoomFor(registry, desired, pools[vm.host], vm, mode, windows, now)
            && (mode == Scheduled ==> PastProbesFit(registry, desired, pools[vm.host], vm, windows, now))
  {
    var pool, rs := pools[vm.host], Ranges(mode, windows, now);
    var commits := OtherCommits(registry, desired, vm, now);
    if Admissible(registry, desired, pools, vm, mode, windows, now) {
      AdmittedHasRoom(registry, desired, pools, vm, mode, windows, now);
      if mode == Scheduled {
        forall i, t | 0 <= i < |windows| && !HasFuture(windows[i], now) && Probed(windows[i], t)
          ensures Charged(Without(registry, vm.name), desired, vm.host, t, now) + vm.gpus <= pool
        {
          assert FitsRange(commits, vm.gpus, pool, rs[i].start, rs[i].end);
          PastWindowFits(registry, desired, pool, vm, now, windows[i]);
        }
      }
    }
    if RoomFor(registry, desired, pool, vm, mode, windows, now)
       && (mode == Scheduled ==> PastProbesFit(registry, desired, pool, vm, windows, now)) {
      forall i | 0 <= i < |rs| ensures FitsRange(commits, vm.gpus, pool, rs[i].start, rs[i].end) {
        if HasFuture(rs[i], now) {
          FutureWindowFits(registry, desired, pool, vm, mode, windows, now, rs[i]);
        } else {
          PastWindowFits(registry, desired, pool, vm, now, rs[i]);
        }
      }
    }
  }

  /** Windows without a future do get through: two posted instants inside one second
      are stored as an empty window. */
  lemma EmptyWindowStored()
    ensures var posted := WindowList([Posted(Utc(100_000), Utc(900_000))]);
      AcceptableList(posted) && KeptWindows(posted, 0) == [Window(0, 0)]
  {
    var w := Posted(Utc(100_000), Utc(900_000));
    assert [w][..0] == [];
    assert LiveTruncated([w], 0) == [Window(0, 0)];
    assert [Window(0, 0)][..0] == [];
  }

  /** The probe of an empty window's start rejects it although it claims no GPU
      at any instant. */
  lemma EmptyWindowRejected()
    ensures var a, b := Vm("a", "", 1, "h", false), Vm("b", "", 1, "h", false);
      var pools, desired := map["h" := 1], map["a" := Desired(On, [])];
      && !Admissible([a, b], desired, pools, b, Scheduled, [Window(0, 0)], 0)
      && RoomFor([a, b], desired, 1, b, Scheduled, [Window(0, 0)], 0)
  {
    var a, b := Vm("a", "", 1, "h", false), Vm("b", "", 1, "h", false);
    var desired := map["a" := Desired(On, [])];
    assert [a, b][..1] == [a] && [a][..0] == [];
    assert Without([a], "b") == [a] && Without([a, b], "b") == [a];
    CommitsAreDemand([a], desired, 0, "h", 0);
    assert Demand([a], desired, "h", 0) == 1;
    assert !FitsAt(OtherCommits([a, b], desired, b, 0), 1, 1, 0);
    assert Ranges(Scheduled, [Window(0, 0)], 0)[0] == Window(0, 0);
  }

  // ---------------------------------------------------------------------
  // Whole runs of edits
  // ---------------------------------------------------------------------

  ghost predicate FitsFrom(registry: seq<Vm>, desired: map<string, Desired>, host: string, pool: int, from: int) {
    forall t | from <= t < DATETIME_MAX :: Demand(registry, desired, host, t) <= pool
  }

  /** One edit, accepted or not, that does not ask for 'unmanaged'. */
  lemma EditKeepsCapacity(registry: seq<Vm>, desired: map<string, Desired>, pools: map<string, int>,
                          host: string, r: Request, clock: int, parsed: int, checked: int)
    requires UniqueNames(registry) && host != "" && host in pools
    requires clock <= parsed <= checked && r.mode != Some(Unmanaged)
    requires FitsFrom(registry, desired, host, pools[host], clock)
    ensures FitsFrom(registry, Edited(registry, desired, pools, r, parsed, checked), host, pools[host], checked)
  {
    if Verdict(registry, desired, pools, r, parsed, checked) != Accepted { return; }
    var vm, mode, windows := Find(registry, r.vm).value, r.mode.value, KeptWindows(r.windows, parsed);
    var after := Edited(registry, desired, pools, r, parsed, checked);
    forall t | checked <= t < DATETIME_MAX ensures Demand(registry, after, host, t) <= pools[host] {
      DemandSplit(registry, desired, vm, host, t);
      DemandSplit(registry, after, vm, host, t);
      DemandIgnores(Without(registry, vm.name), desired, vm.name, after[vm.name], host, t);
      StoredWindowsOpen(windows, t);
      if OnPool(vm, host) && vm.gpus > 0 && HoldsAt(after, vm.name, t) {
        assert WouldHold(mode, windows, t);
        AdmittedHasRoom(registry, desired, pools, vm, mode, windows, checked);
      }
    }
  }

  datatype Edit = Edit(request: Request, parsed: int, checked: int)

  /** The clock never goes back and nobody asks for 'unmanaged'. */
  predicate ManagedRun(clock: int, edits: seq<Edit>)
    decreases |edits|
  {
    edits == [] ||
    (clock <= edits[0].parsed <= edits[0].checked && edits[0].request.mode != Some(Unmanaged)
     && ManagedRun(edits[0].checked, edits[1..]))
  }

  function EndClock(clock: int, edits: seq<Edit>): int {
    if edits == [] then clock else edits[|edits| - 1].checked
  }

  ghost function AfterEdits(registry: seq<Vm>, desired: map<string, Desired>, pools: map<string, int>, edits: seq<Edit>)
    : map<string, Desired>
    decreases |edits|
  {
    if edits == [] then desired
    else
      var e := edits[0];
      AfterEdits(registry, Edited(registry, desired, pools, e.request, e.parsed, e.checked), pools, edits[1..])
  }

  lemma {:induction false} EditsKeepCapacity(registry: seq<Vm>, desired: map<string, Desired>, pools: map<string, int>,
                                             host: string, clock: int, edits: seq<Edit>)
    requires UniqueNames(registry) && host != "" && host in pools && ManagedRun(clock, edits)
    requires FitsFrom(registry, desired, host, pools[host], clock)
    ensures FitsFrom(registry, AfterEdits(registry, desired, pools, edits), host, pools[host], EndClock(clock, edits))
    decreases |edits|
  {
    if edits != [] {
      var e := edits[0];
      EditKeepsCapacity(registry, desired, pools, host, e.request, clock, e.parsed, e.checked);
      var next := Edited(registry, desired, pools, e.request, e.parsed, e.checked);
      EditsKeepCapacity(registry, next, pools, host, e.checked, edits[1..]);
      assert EndClock(clock, edits) == EndClock(e.checked, edits[1..]);
    }
  }

  /** Capacity safety over whole runs: if a host's commitments fit its reported
      pool from the clock on, then after any run of on/off/schedule edits the
      committed GPUs, and so the GPUs of the VMs wanted on, fit the pool at
      every instant from the end of the run on. */
  lemma CapacitySafe(registry: seq<Vm>, desired: map<string, Desired>, pools: map<string, int>,
                     host: string, clock: int, edits: seq<Edit>)
    requires UniqueNames(registry) && host != "" && host in pools && ManagedRun(clock, edits)
    requires FitsFrom(registry, desired, host, pools[host], clock)
    ensures var end := AfterEdits(registry, desired, pools, edits);
      forall t | EndClock(clock, edits) <= t < DATETIME_MAX ::
        WantedOn(registry, end, host, t) <= Demand(registry, end, host, t) <= pools[host]
  {
    EditsKeepCapacity(registry, desired, pools, host, clock, edits);
    var end := AfterEdits(registry, desired, pools, edits);
    forall t | EndClock(clock, edits) <= t < DATETIME_MAX
      ensures WantedOn(registry, end, host, t) <= Demand(registry, end, host, t) <= pools[host]
    {
      WantedWithinDemand(registry, end, host, t);
    }
  }

  /** An accepted 'unmanaged' edit is never checked; it keeps the host within
      its pool iff the others leave room for the VM at every future instant. */
  lemma UnmanagedKeepsCapacityIff(registry: seq<Vm>, desired: map<string, Desired>, pools: map<string, int>,
                                  r: Request, parsed: int, checked: int)
    requires UniqueNames(registry) && r.mode == Some(Unmanaged)
    requires Verdict(registry, desired, pools, r, parsed, checked) == Accepted
    requires var vm := Find(registry, r.vm).value; !vm.container && vm.host in pools
    ensures var vm := Find(registry, r.vm).value;
      FitsFrom(registry, Edited(registry, desired, pools, r, parsed, checked), vm.host, pools[vm.host], checked)
      <==> RoomFor(registry, desired, pools[vm.host], vm, On, [], checked)
  {
    var vm := Find(registry, r.vm).value;
    var after := Edited(registry, desired, pools, r, parsed, checked);
    forall t | checked <= t < DATETIME_MAX
      ensures Demand(registry, after, vm.host, t) == Demand(Without(registry, vm.name), desired, vm.host, t) + vm.gpus
    {
      DemandSplit(registry, after, vm, vm.host, t);
      DemandIgnores(Without(registry, vm.name), desired, vm.name, after[vm.name], vm.host, t);
    }
    assert forall t :: WouldHold(On, [], t);
  }

  /** A run in which an 'unmanaged' edit overcommits a host that fitted. */
  lemma UnmanagedOvercommits()
    ensures var registry := [Vm("a", "", 1, "h", false), Vm("b", "", 1, "h", false)];
      var pools, desired := map["h" := 1], map["a" := Desired(On, []), "b" := Desired(Off, [])];
      var r := Request("", true, "b", Some(Unmanaged), WindowList([]));
      && FitsFrom(registry, desired, "h", 1, 0)
      && Verdict(registry, desired, pools, r, 0, 0) == Accepted
      && !FitsFrom(registry, Edited(registry, desired, pools, r, 0, 0), "h", 1, 0)
  {
    var a, b := Vm("a", "", 1, "h", false), Vm("b", "", 1, "h", false);
    var registry := [a, b];
    var pools, desired := map["h" := 1], map["a" := Desired(On, []), "b" := Desired(Off, [])];
    var r := Request("", true, "b", Some(Unmanaged), WindowList([]));
    assert registry[..1] == [a] && [a][..0] == [];
    var after := Edited(registry, desired, pools, r, 0, 0);
    assert Demand([a], after, "h", 0) == 1;
    assert Demand(registry, after, "h", 0) == 2;
    assert forall t :: Demand([a], desired, "h", t) == 1;
  }
}
