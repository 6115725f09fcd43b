/** Edits of the scheduling page that race: the capacity check of one and its
    write are two steps, and other edits may come in between. */
module Races {
  import opened Basics
  import opened Schedule
  import opened Commitments
  import opened Admission

  /** What an edit does not change: the registry and the reported pools. */
  datatype Site = Site(registry: seq<Vm>, pools: map<string, int>)

  /** An intent that passed the check and has not been written. */
  datatype Passed = Passed(vm: Vm, mode: Mode, windows: seq<Window>)

  datatype Page = Page(desired: map<string, Desired>, passed: map<nat, Passed>)

  datatype Step =
    | Check(pid: nat, request: Request, parsed: int, checked: int)
    | Write(pid: nat, at: int)

  function TimeOf(s: Step): int { if s.Check? then s.checked else s.at }

  function Written(desired: map<string, Desired>, p: Passed): map<string, Desired> {
    desired[p.vm.name := Desired(p.mode, StoredAll(p.windows))]
  }

  /** A step that does not apply changes nothing. */
  ghost function Next(site: Site, x: Page, s: Step): Page {
    match s
    case Check(pid, r, parsed, checked) =>
      if pid in x.passed || Verdict(site.registry, x.desired, site.pools, r, parsed, checked) != Accepted then x
      else
        var p := Passed(Find(site.registry, r.vm).value, r.mode.value, KeptWindows(r.windows, parsed));
        x.(passed := x.passed[pid := p])
    case Write(pid, _) =>
      if pid !in x.passed then x else Page(Written(x.desired, x.passed[pid]), x.passed - {pid})
  }

  /** The page after the first `k` steps. */
  ghost function After(site: Site, x: Page, steps: seq<Step>, k: nat): Page
    requires k <= |steps|
  {
    if k == 0 then x else Next(site, After(site, x, steps, k - 1), steps[k - 1])
  }

  function ClockAt(clock: int, steps: seq<Step>, k: nat): int
    requires k <= |steps|
  {
    if k == 0 then clock else TimeOf(steps[k - 1])
  }

  /** The clock never goes back and nobody asks for 'unmanaged'. */
  predicate Managed(clock: int, steps: seq<Step>) {
    && (forall k | 0 <= k < |steps| :: ClockAt(clock, steps, k) <= TimeOf(steps[k]))
    && (forall k | 0 <= k < |steps| && steps[k].Check? :: steps[k].request.mode != Some(Unmanaged))
  }

  ghost predicate Sound(site: Site, x: Page) {
    forall pid | pid in x.passed :: x.passed[pid].vm in site.registry && x.passed[pid].mode in {On, Off, Scheduled}
  }

  /** The others, as they are when it is written, leave room for an intent. */
  ghost predicate HasRoom(site: Site, desired: map<string, Desired>, p: Passed, host: string, at: int)
    requires host in site.pools
  {
    OnPool(p.vm, host) && p.mode != Off ==>
      RoomFor(site.registry, desired, site.pools[host], p.vm, if p.mode == On then On else Scheduled, p.windows, at)
  }

  /** One write keeps a fitting host fitting iff the others leave room at that time. */
  lemma WriteFitsIff(site: Site, desired: map<string, Desired>, p: Passed, host: string, at: int)
    requires UniqueNames(site.registry) && host in site.pools
    requires p.vm in site.registry && p.mode in {On, Off, Scheduled}
    requires FitsFrom(site.registry, desired, host, site.pools[host], at)
    ensures FitsFrom(site.registry, Written(desired, p), host, site.pools[host], at)
      <==> HasRoom(site, desired, p, host, at)
  {
    var after, others := Written(desired, p), Without(site.registry, p.vm.name);
    forall t | at <= t < DATETIME_MAX
      ensures Demand(site.registry, after, host, t) == Demand(others, desired, host, t) + Share(p.vm, after, host, t)
      ensures Demand(others, desired, host, t) <= site.pools[host]
      ensures HoldsAt(after, p.vm.name, t) <==> p.mode != Off && WouldHold(p.mode, p.windows, t)
    {
      DemandSplit(site.registry, desired, p.vm, host, t);
      DemandSplit(site.registry, after, p.vm, host, t);
      DemandIgnores(others, desired, p.vm.name, after[p.vm.name], host, t);
      StoredWindowsOpen(p.windows, t);
    }
  }

  lemma NextSound(site: Site, x: Page, s: Step)
    requires Sound(site, x) && (s.Check? ==> s.request.mode != Some(Unmanaged))
    ensures Sound(site, Next(site, x, s))
  {
  }

  lemma {:induction false} AlwaysSound(site: Site, x: Page, clock: int, steps: seq<Step>, k: nat)
    requires Sound(site, x) && Managed(clock, steps) && k <= |steps|
    ensures Sound(site, After(site, x, steps, k))
    decreases k
  {
    if k > 0 {
      AlwaysSound(site, x, clock, steps, k - 1);
      NextSound(site, After(site, x, steps, k - 1), steps[k - 1]);
    }
  }

  ghost predicate FitsAfter(site: Site, x: Page, clock: int, steps: seq<Step>, host: string, k: nat)
    requires k <= |steps| && host in site.pools
  {
    FitsFrom(site.registry, After(site, x, steps, k).desired, host, site.pools[host], ClockAt(clock, steps, k))
  }

  /** Step `k`, if it writes an intent, writes it when the others leave room. */
  ghost predicate RoomAt(site: Site, x: Page, steps: seq<Step>, host: string, k: nat)
    requires k < |steps| && host in site.pools
  {
    var y := After(site, x, steps, k);
    steps[k].Write? && steps[k].pid in y.passed ==>
      HasRoom(site, y.desired, y.passed[steps[k].pid], host, steps[k].at)
  }

  lemma StepFitsIff(site: Site, x: Page, clock: int, steps: seq<Step>, host: string, k: nat)
    requires UniqueNames(site.registry) && host in site.pools && Sound(site, x) && Managed(clock, steps)
    requires k < |steps| && FitsAfter(site, x, clock, steps, host, k)
    ensures FitsAfter(site, x, clock, steps, host, k + 1) <==> RoomAt(site, x, steps, host, k)
  {
    var y, s := After(site, x, steps, k), steps[k];
    AlwaysSound(site, x, clock, steps, k);
    assert After(site, x, steps, k + 1) == Next(site, y, s);
    if s.Write? && s.pid in y.passed { WriteFitsIff(site, y.desired, y.passed[s.pid], host, s.at); }
  }

  /** A chain whose links hold exactly when `room` does is whole iff `room` always holds. */
  lemma {:induction false} ChainIff(fits: seq<bool>, room: seq<bool>)
    requires |fits| == |room| + 1 && fits[0]
    requires forall k | 0 <= k < |room| && fits[k] :: fits[k + 1] <==> room[k]
    ensures (forall k | 0 <= k < |fits| :: fits[k]) <==> forall k | 0 <= k < |room| :: room[k]
    decreases |room|
  {
    if room != [] {
      var n := |room| - 1;
      ChainIff(fits[..n + 1], room[..n]);
      assert fits == fits[..n + 1] + [fits[n + 1]] && room == room[..n] + [room[n]];
      assert fits[..n + 1][n] == fits[n];
    }
  }

  /** Exactly which interleavings of checks and writes keep a host within its pool
      all along: those in which every write finds, among the records as they are
      then, the room its check found earlier. */
  lemma RacesFitIff(site: Site, x: Page, clock: int, steps: seq<Step>, host: string)
    requires UniqueNames(site.registry) && host in site.pools && Sound(site, x) && Managed(clock, steps)
    requires FitsFrom(site.registry, x.desired, host, site.pools[host], clock)
    ensures (forall k | 0 <= k <= |steps| :: FitsAfter(site, x, clock, steps, host, k))
       <==> forall k | 0 <= k < |steps| :: RoomAt(site, x, steps, host, k)
  {
    var fits := seq(|steps| + 1, k requires 0 <= k <= |steps| => FitsAfter(site, x, clock, steps, host, k));
    var room := seq(|steps|, k requires 0 <= k < |steps| => RoomAt(site, x, steps, host, k));
    forall k | 0 <= k < |room| && fits[k] ensures fits[k + 1] <==> room[k] {
      StepFitsIff(site, x, clock, steps, host, k);
    }
    assert FitsAfter(site, x, clock, steps, host, 0) == fits[0];
    ChainIff(fits, room);
    assert forall k | 0 <= k <= |steps| :: FitsAfter(site, x, clock, steps, host, k) == fits[k];
    assert forall k | 0 <= k < |steps| :: RoomAt(site, x, steps, host, k) == room[k];
  }

  /** A check and its write with nothing in between are one call of the endpoint:
      both leave the same records behind, whatever the answer. */
  lemma CheckAndWriteIsSet(site: Site, desired: map<string, Desired>, r: Request, parsed: int, checked: int, at: int)
    ensures var steps := [Check(0, r, parsed, checked), Write(0, at)];
      After(site, Page(desired, map[]), steps, 2).desired
      == Edited(site.registry, desired, site.pools, r, parsed, checked)
  {
    var x, steps := Page(desired, map[]), [Check(0, r, parsed, checked), Write(0, at)];
    assert After(site, x, steps, 1) == Next(site, After(site, x, steps, 0), steps[0]);
    assert After(site, x, steps, 2) == Next(site, After(site, x, steps, 1), steps[1]);
  }

  /** `b` asks no more of a host than `a`, leaving one VM aside. */
  ghost predicate NoMoreThan(site: Site, a: map<string, Desired>, b: map<string, Desired>, vm: Vm, from: int) {
    forall t | from <= t < DATETIME_MAX ::
      Demand(Without(site.registry, vm.name), b, vm.host, t) <= Demand(Without(site.registry, vm.name), a, vm.host, t)
  }

  /** An intent whose check passed still has room when the other VMs of its host ask
      no more than they did at the check, in particular if nobody wrote meanwhile. */
  lemma UndisturbedHasRoom(site: Site, r: Request, parsed: int, checked: int,
                           before: map<string, Desired>, after: map<string, Desired>, at: int)
    requires Verdict(site.registry, before, site.pools, r, parsed, checked) == Accepted && checked <= at
    requires var vm := Find(site.registry, r.vm).value;
      !Unchecked(site.pools, vm, r.mode.value) && NoMoreThan(site, before, after, vm, at)
    ensures var vm := Find(site.registry, r.vm).value;
      HasRoom(site, after, Passed(vm, r.mode.value, KeptWindows(r.windows, parsed)), vm.host, at)
  {
    var vm, windows := Find(site.registry, r.vm).value, KeptWindows(r.windows, parsed);
    AdmittedHasRoom(site.registry, before, site.pools, vm, r.mode.value, windows, checked);
  }

  // ---------------------------------------------------------------------
  // Runs in which nobody asks for more in between
  // ---------------------------------------------------------------------

  /** Step `c` is a check that passes, and step `w` the write that follows it up. */
  ghost predicate Pair(site: Site, x: Page, steps: seq<Step>, c: nat, w: nat)
    requires c < w < |steps|
  {
    && steps[c].Check? && steps[w].Write? && steps[c].pid == steps[w].pid
    && steps[c].pid !in After(site, x, steps, c).passed && steps[c].pid in After(site, x, steps, c + 1).passed
    && forall j | c < j < w :: !(steps[j].Write? && steps[j].pid == steps[w].pid)
  }

  /** The intent the check of step `c` let through. */
  function Intent(site: Site, s: Step): Option<Passed>
    requires s.Check?
  {
    var vm := Find(site.registry, s.request.vm);
    if vm.None? || s.request.mode.None? then None
    else Some(Passed(vm.value, s.request.mode.value, KeptWindows(s.request.windows, s.parsed)))
  }

  /** Writing `p` makes its VM hold no more of its host than before, from `from` on. */
  ghost predicate AsksNoMore(desired: map<string, Desired>, p: Passed, host: string, from: int) {
    forall t | from <= t < DATETIME_MAX :: Share(p.vm, Written(desired, p), host, t) <= Share(p.vm, desired, host, t)
  }

  /** Step `j` does not make another VM than `vm` ask for more of its host. */
  ghost predicate Calm(site: Site, x: Page, steps: seq<Step>, vm: Vm, from: int, j: nat)
    requires j < |steps|
  {
    var y := After(site, x, steps, j);
    steps[j].Write? && steps[j].pid in y.passed && y.passed[steps[j].pid].vm.name != vm.name ==>
      AsksNoMore(y.desired, y.passed[steps[j].pid], vm.host, from)
  }

  ghost predicate CalmBetween(site: Site, x: Page, steps: seq<Step>, c: nat, w: nat)
    requires c < w < |steps| && steps[c].Check?
  {
    var p := Intent(site, steps[c]);
    p.Some? ==> forall j | c < j < w :: Calm(site, x, steps, p.value.vm, TimeOf(steps[w]), j)
  }

  /** Between every check and its write, no other VM of that host asks for more. */
  ghost predicate AllCalm(site: Site, x: Page, steps: seq<Step>) {
    forall c, w | 0 <= c < w < |steps| && Pair(site, x, steps, c, w) :: CalmBetween(site, x, steps, c, w)
  }

  /** A passed check stays what it was until it is written. */
  lemma {:induction false} Pending(site: Site, x: Page, steps: seq<Step>, w: nat, pid: nat) returns (c: nat)
    requires x.passed == map[] && w < |steps| && steps[w].Write? && steps[w].pid == pid
    requires pid in After(site, x, steps, w).passed
    ensures c < w && Pair(site, x, steps, c, w) && steps[c].Check?
    ensures var y := After(site, x, steps, c);
      && Verdict(site.registry, y.desired, site.pools, steps[c].request, steps[c].parsed, steps[c].checked) == Accepted
      && Intent(site, steps[c]) == Some(After(site, x, steps, w).passed[pid])
  {
    var k: nat := w;
    while pid in After(site, x, steps, k - 1).passed
      invariant 0 < k <= w && pid in After(site, x, steps, k).passed
      invariant After(site, x, steps, k).passed[pid] == After(site, x, steps, w).passed[pid]
      invariant forall j | k <= j < w :: !(steps[j].Write? && steps[j].pid == pid)
      decreases k
    {
      k := k - 1;
    }
    c := k - 1;
    assert After(site, x, steps, k) == Next(site, After(site, x, steps, c), steps[c]);
  }

  lemma CalmStep(site: Site, x: Page, steps: seq<Step>, vm: Vm, from: int, j: nat)
    requires UniqueNames(site.registry) && vm in site.registry && j < |steps|
    requires Sound(site, After(site, x, steps, j)) && Calm(site, x, steps, vm, from, j)
    ensures NoMoreThan(site, After(site, x, steps, j).desired, After(site, x, steps, j + 1).desired, vm, from)
  {
    var y, s, others := After(site, x, steps, j), steps[j], Without(site.registry, vm.name);
    assert After(site, x, steps, j + 1) == Next(site, y, s);
    if s.Write? && s.pid in y.passed {
      var p := y.passed[s.pid];
      var z := Written(y.desired, p);
      forall t | from <= t < DATETIME_MAX
        ensures Demand(others, z, vm.host, t) <= Demand(others, y.desired, vm.host, t)
      {
        if p.vm.name == vm.name {
          DemandIgnores(others, y.desired, p.vm.name, z[p.vm.name], vm.host, t);
        } else {
          OthersSplit(site.registry, y.desired, p.vm, vm.name, vm.host, t);
          OthersSplit(site.registry, z, p.vm, vm.name, vm.host, t);
          DemandIgnores(Without(others, p.vm.name), y.desired, p.vm.name, z[p.vm.name], vm.host, t);
        }
      }
    }
  }

  lemma {:induction false} WithoutKeeps(registry: seq<Vm>, name: string)
    requires UniqueNames(registry)
    ensures UniqueNames(Without(registry, name))
    ensures forall vm | vm in registry && vm.name != name :: vm in Without(registry, name)
    ensures forall vm | vm in Without(registry, name) :: vm in registry
  {
    if registry != [] {
      var init, last := registry[..|registry| - 1], registry[|registry| - 1];
      assert registry == init + [last];
      WithoutKeeps(init, name);
      var rest := Without(init, name);
      forall i | 0 <= i < |rest| ensures rest[i].name != last.name {
        assert rest[i] in init;
      }
    }
  }

  /** The others than one VM split once more. */
  lemma OthersSplit(registry: seq<Vm>, desired: map<string, Desired>, vm: Vm, gone: string, host: string, t: int)
    requires UniqueNames(registry) && vm in registry && vm.name != gone
    ensures var others := Without(registry, gone);
      Demand(others, desired, host, t)
      == Demand(Without(others, vm.name), desired, host, t) + Share(vm, desired, host, t)
  {
    WithoutKeeps(registry, gone);
    DemandSplit(Without(registry, gone), desired, vm, host, t);
  }

  lemma {:induction false} CalmStretch(site: Site, x: Page, clock: int, steps: seq<Step>, vm: Vm, from: int,
                                       c: nat, w: nat)
    requires UniqueNames(site.registry) && Sound(site, x) && Managed(clock, steps) && vm in site.registry
    requires c <= w <= |steps| && forall j | c <= j < w :: Calm(site, x, steps, vm, from, j)
    ensures NoMoreThan(site, After(site, x, steps, c).desired, After(site, x, steps, w).desired, vm, from)
    decreases w - c
  {
    if c < w {
      CalmStretch(site, x, clock, steps, vm, from, c, w - 1);
      AlwaysSound(site, x, clock, steps, w - 1);
      CalmStep(site, x, steps, vm, from, w - 1);
    }
  }

  lemma {:induction false} ClockGrows(clock: int, steps: seq<Step>, c: nat, w: nat)
    requires Managed(clock, steps) && c <= w < |steps|
    ensures TimeOf(steps[c]) <= TimeOf(steps[w])
    decreases w - c
  {
    if c < w {
      ClockGrows(clock, steps, c, w - 1);
      assert ClockAt(clock, steps, w) <= TimeOf(steps[w]);
    }
  }

  /** What was asked at the check of a pair bounds what is asked at its write. */
  lemma {:induction false} CalmPair(site: Site, x: Page, clock: int, steps: seq<Step>, c: nat, w: nat, vm: Vm)
    requires UniqueNames(site.registry) && Sound(site, x) && Managed(clock, steps) && vm in site.registry
    requires c < w < |steps| && steps[c].Check? && CalmBetween(site, x, steps, c, w)
    requires Intent(site, steps[c]).Some? && Intent(site, steps[c]).value.vm == vm
    ensures NoMoreThan(site, After(site, x, steps, c).desired, After(site, x, steps, w).desired, vm, TimeOf(steps[w]))
  {
    forall j | c <= j < w ensures Calm(site, x, steps, vm, TimeOf(steps[w]), j) { }
    CalmStretch(site, x, clock, steps, vm, TimeOf(steps[w]), c, w);
  }

  /** So a write that follows a calm stretch finds the room its check found. */
  lemma {:induction false} CalmPairHasRoom(site: Site, x: Page, clock: int, steps: seq<Step>, host: string,
                                           c: nat, w: nat, p: Passed)
    requires UniqueNames(site.registry) && host != "" && host in site.pools && Sound(site, x) && Managed(clock, steps)
    requires c < w < |steps| && steps[c].Check? && CalmBetween(site, x, steps, c, w)
    requires Intent(site, steps[c]) == Some(p) && p.vm.gpus > 0
    requires Verdict(site.registry, After(site, x, steps, c).desired, site.pools, steps[c].request,
                     steps[c].parsed, steps[c].checked) == Accepted
    requires p.mode != Unmanaged
    ensures HasRoom(site, After(site, x, steps, w).desired, p, host, TimeOf(steps[w]))
  {
    if OnPool(p.vm, host) && p.mode != Off {
      CalmPair(site, x, clock, steps, c, w, p.vm);
      ClockGrows(clock, steps, c, w);
      UndisturbedHasRoom(site, steps[c].request, steps[c].parsed, steps[c].checked,
                         After(site, x, steps, c).desired, After(site, x, steps, w).desired, TimeOf(steps[w]));
    }
  }

  lemma {:induction false} CalmWriteHasRoom(site: Site, x: Page, clock: int, steps: seq<Step>, host: string, w: nat)
    requires UniqueNames(site.registry) && host != "" && host in site.pools
    requires x.passed == map[] && Managed(clock, steps)
    requires AllCalm(site, x, steps) && w < |steps| && FitsAfter(site, x, clock, steps, host, w)
    ensures RoomAt(site, x, steps, host, w)
  {
    var y, s := After(site, x, steps, w), steps[w];
    if s.Write? && s.pid in y.passed {
      var p := y.passed[s.pid];
      var c := Pending(site, x, steps, w, s.pid);
      AlwaysSound(site, x, clock, steps, w);
      if p.vm.gpus == 0 {
        assert ClockAt(clock, steps, w) <= s.at;
        SmallHasRoom(site, y.desired, p, host, s.at);
      } else {
        CalmPairHasRoom(site, x, clock, steps, host, c, w, p);
      }
    }
  }

  /** An intent without GPUs has room wherever the host fits. */
  lemma SmallHasRoom(site: Site, desired: map<string, Desired>, p: Passed, host: string, at: int)
    requires UniqueNames(site.registry) && host in site.pools && p.vm in site.registry && p.vm.gpus == 0
    requires FitsFrom(site.registry, desired, host, site.pools[host], at)
    ensures HasRoom(site, desired, p, host, at)
  {
    forall t | at <= t < DATETIME_MAX
      ensures Demand(Without(site.registry, p.vm.name), desired, host, t) <= site.pools[host]
    {
      DemandSplit(site.registry, desired, p.vm, host, t);
    }
  }

  lemma {:induction false} CalmStepFits(site: Site, x: Page, clock: int, steps: seq<Step>, host: string, k: nat)
    requires UniqueNames(site.registry) && host != "" && host in site.pools
    requires x.passed == map[] && Managed(clock, steps) && AllCalm(site, x, steps)
    requires k < |steps| && FitsAfter(site, x, clock, steps, host, k)
    ensures FitsAfter(site, x, clock, steps, host, k + 1)
  {
    CalmWriteHasRoom(site, x, clock, steps, host, k);
    StepFitsIff(site, x, clock, steps, host, k);
  }

  /** Capacity safety of racing edits: if between every check and its write no other
      VM of that host comes to ask for more, a fitting host fits all along. */
  lemma {:induction false} CalmRunsFit(site: Site, x: Page, clock: int, steps: seq<Step>, host: string, k: nat)
    requires UniqueNames(site.registry) && host != "" && host in site.pools
    requires x.passed == map[] && Managed(clock, steps)
    requires FitsFrom(site.registry, x.desired, host, site.pools[host], clock)
    requires AllCalm(site, x, steps) && k <= |steps|
    ensures FitsAfter(site, x, clock, steps, host, k)
    decreases k
  {
    if k > 0 {
      CalmRunsFit(site, x, clock, steps, host, k - 1);
      CalmStepFits(site, x, clock, steps, host, k - 1);
    }
  }

  // ---------------------------------------------------------------------
  // Two edits that overcommit a host
  // ---------------------------------------------------------------------

  function TwoOff(): Site { Site([Vm("a", "", 1, "h", false), Vm("b", "", 1, "h", false)], map["h" := 1]) }

  function BothOff(): map<string, Desired> { map["a" := Desired(Off, []), "b" := Desired(Off, [])] }

  function TurnOn(name: string): Request { Request("", true, name, Some(On), WindowList([])) }

  lemma DemandOfTwo(a: Vm, b: Vm, desired: map<string, Desired>, host: string, t: int)
    ensures Demand([a, b], desired, host, t) == Share(a, desired, host, t) + Share(b, desired, host, t)
  {
    assert [a, b][..1] == [a] && [a][..0] == [];
    assert Demand([a], desired, host, t) == Share(a, desired, host, t);
  }

  /** Nobody holds a GPU, so there is room for either of the two. */
  lemma EitherFits(name: string)
    requires name in {"a", "b"}
    ensures Admissible(TwoOff().registry, BothOff(), TwoOff().pools, Vm(name, "", 1, "h", false), On, [], 0)
  {
    var a, b, vm := Vm("a", "", 1, "h", false), Vm("b", "", 1, "h", false), Vm(name, "", 1, "h", false);
    forall t | 0 <= t < DATETIME_MAX ensures Demand(Without([a, b], name), BothOff(), "h", t) + 1 <= 1 {
      DemandSplit([a, b], BothOff(), vm, "h", t);
      DemandOfTwo(a, b, BothOff(), "h", t);
    }
    AdmissionExact([a, b], BothOff(), map["h" := 1], vm, On, [], 0);
  }

  lemma EitherFound(name: string)
    requires name in {"a", "b"}
    ensures Find(TwoOff().registry, name) == Some(Vm(name, "", 1, "h", false))
  {
    var a, b := Vm("a", "", 1, "h", false), Vm("b", "", 1, "h", false);
    assert [a, b][..1] == [a];
  }

  /** On its own, either of the two may be turned on. */
  lemma EitherPasses(name: string)
    requires name in {"a", "b"}
    ensures Verdict(TwoOff().registry, BothOff(), TwoOff().pools, TurnOn(name), 0, 0) == Accepted
  {
    EitherFound(name);
    EitherFits(name);
    assert LiveTruncated([], 0) == [] && KeptWindows(WindowList([]), 0) == [];
  }

  /** Both checks before both writes: each finds the host empty, and one GPU ends up
      committed twice. */
  lemma RacingEditsOvercommit()
    ensures var site, x := TwoOff(), Page(BothOff(), map[]);
      var steps := [Check(0, TurnOn("a"), 0, 0), Check(1, TurnOn("b"), 0, 0), Write(0, 0), Write(1, 0)];
      && FitsFrom(site.registry, x.desired, "h", 1, 0)
      && Demand(site.registry, After(site, x, steps, 4).desired, "h", 0) == 2
  {
    var site, x := TwoOff(), Page(BothOff(), map[]);
    var a, b := Vm("a", "", 1, "h", false), Vm("b", "", 1, "h", false);
    var steps := [Check(0, TurnOn("a"), 0, 0), Check(1, TurnOn("b"), 0, 0), Write(0, 0), Write(1, 0)];
    forall t ensures Demand(site.registry, x.desired, "h", t) == 0 { DemandOfTwo(a, b, x.desired, "h", t); }
    EitherFound("a");
    EitherFound("b");
    EitherPasses("a");
    EitherPasses("b");
    var x1 := After(site, x, steps, 1);
    assert x1 == Next(site, After(site, x, steps, 0), steps[0]);
    var x2 := After(site, x, steps, 2);
    assert x2 == Next(site, x1, steps[1]) && x2.passed.Keys == {0, 1};
    var x3 := After(site, x, steps, 3);
    assert x3 == Next(site, x2, steps[2]);
    var x4 := After(site, x, steps, 4);
    assert x4 == Next(site, x3, steps[3]);
    assert x4.desired["a"].mode == On && x4.desired["b"].mode == On;
    DemandOfTwo(a, b, x4.desired, "h", 0);
  }
}
