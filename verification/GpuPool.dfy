/** The passthrough GPU pool of a host: who holds which GPU, and the two
    inverse operations that release a stopped VM's GPUs and re-acquire them. */
module GpuPool {
  import opened Basics
  import opened Names

  /** A device entry of an instance; only physical GPUs carry a PCI address. */
  datatype Device = Gpu(pci: string) | OtherDevice

  datatype Instance = Instance(isVm: bool, running: bool, devices: map<string, Device>)

  type Instances = map<string, Instance>

  /** Which commands of the host fail, and which free GPUs fail their liveness
      probe. `unlisted` are the instances for which the listing that opens a
      release or an acquisition fails. */
  datatype Faults = Faults(
    stop: set<string>, start: set<string>, nas: set<string>, unlisted: set<string>,
    detach: set<(string, string)>, attach: set<(string, string)>, wedged: set<string>)

  predicate NoFaults(f: Faults) {
    f.stop == {} && f.start == {} && f.nas == {} && f.unlisted == {} && f.detach == {} && f.attach == {}
  }

  /** An operation's effect and whether it raised. */
  datatype Effect = Effect(insts: Instances, raised: bool)

  // ---------------------------------------------------------------------
  // Reading the pool
  // ---------------------------------------------------------------------

  predicate Holds(insts: Instances, n: string, d: string) {
    n in insts && d in insts[n].devices && insts[n].devices[d].Gpu?
  }

  function GpuDevices(inst: Instance): set<string> {
    set d | d in inst.devices && inst.devices[d].Gpu?
  }

  /** Device `d` of instance `n` is GPU `g`. */
  predicate HeldBy(insts: Instances, n: string, d: string, g: string) {
    Holds(insts, n, d) && insts[n].devices[d].pci == g
  }

  function Assigned(insts: Instances): set<string> {
    set n, d | n in insts && d in insts[n].devices && insts[n].devices[d].Gpu? :: insts[n].devices[d].pci
  }

  lemma AssignedMeans(insts: Instances)
    ensures forall g :: g in Assigned(insts) <==> exists n, d :: HeldBy(insts, n, d, g)
  {
    forall g | g in Assigned(insts) ensures exists n, d :: HeldBy(insts, n, d, g) {
      var n, d :| n in insts && d in insts[n].devices && insts[n].devices[d].Gpu? && insts[n].devices[d].pci == g;
      assert HeldBy(insts, n, d, g);
    }
  }

  function Without(s: seq<string>, gone: set<string>): (r: seq<string>)
    ensures forall x :: x in r <==> x in s && x !in gone
    ensures NoDuplicates(s) ==> NoDuplicates(r)
  {
    if s == [] then []
    else Without(s[..|s| - 1], gone) + if s[|s| - 1] in gone then [] else [s[|s| - 1]]
  }

  function Free(pool: seq<string>, insts: Instances): seq<string> { Without(pool, Assigned(insts)) }

  function Healthy(pool: seq<string>, insts: Instances, wedged: set<string>): seq<string> {
    Without(Free(pool, insts), wedged)
  }

  /** `select_healthy_gpus`: the first `n` healthy free GPUs in pool order. */
  method SelectHealthyGpus(free: seq<string>, n: nat, wedged: set<string>) returns (picked: Option<seq<string>>)
    ensures var healthy := Without(free, wedged);
      picked == if |healthy| < n then None else Some(healthy[..n])
  {
    var healthy := [];
    for k := 0 to |free|
      invariant healthy == Without(free[..k], wedged)
    {
      assert free[..k + 1][..k] == free[..k];
      if free[k] !in wedged { healthy := healthy + [free[k]]; }
    }
    assert free[..|free|] == free;
    return if |healthy| < n then None else Some(healthy[..n]);
  }

  // ---------------------------------------------------------------------
  // Release and attach
  // ---------------------------------------------------------------------

  function Detached(insts: Instances, n: string, d: string): Instances
    requires n in insts
  {
    insts[n := insts[n].(devices := insts[n].devices - {d})]
  }

  /** The device loop of `release_gpus`. */
  function DetachAll(insts: Instances, n: string, names: seq<string>, f: Faults): Effect
    requires n in insts
  {
    if names == [] then Effect(insts, false)
    else if !Holds(insts, n, names[0]) then DetachAll(insts, n, names[1..], f)
    else if (n, names[0]) in f.detach then Effect(insts, true)
    else DetachAll(Detached(insts, n, names[0]), n, names[1..], f)
  }

  /** `release_gpus`. */
  function Release(insts: Instances, n: string, f: Faults): Effect {
    if n in f.unlisted then Effect(insts, true)
    else if n !in insts || !insts[n].isVm then Effect(insts, false)
    else if insts[n].running then Effect(insts, true)
    else DetachAll(insts, n, Sorted(insts[n].devices.Keys), f)
  }

  function Attached(insts: Instances, n: string, d: string, pci: string): Instances
    requires n in insts
  {
    insts[n := insts[n].(devices := insts[n].devices[d := Gpu(pci)])]
  }

  /** The attach loop: each GPU goes to the next free "gpu<i>" slot. */
  function AttachAll(insts: Instances, n: string, picked: seq<string>, i: nat, f: Faults): Effect
    requires n in insts
    decreases |picked|
  {
    if picked == [] then Effect(insts, false)
    else if (n, picked[0]) in f.attach then Effect(insts, true)
    else
      var slot := FreeSlot(insts[n].devices.Keys, i);
      AttachAll(Attached(insts, n, GpuName(slot), picked[0]), n, picked[1..], slot, f)
  }

  /** The attach loop of a launch: device names go by position, and one already
      there is a failure. */
  function AttachNumbered(insts: Instances, n: string, picked: seq<string>, i: nat, f: Faults): Effect
    requires n in insts
    decreases |picked|
  {
    if picked == [] then Effect(insts, false)
    else if (n, picked[0]) in f.attach || GpuName(i) in insts[n].devices then Effect(insts, true)
    else AttachNumbered(Attached(insts, n, GpuName(i), picked[0]), n, picked[1..], i + 1, f)
  }

  /** GPUs a VM lacks against its registered count. */
  function Missing(insts: Instances, want: nat, n: string): nat {
    if n !in insts || !insts[n].isVm then 0
    else
      var have := |GpuDevices(insts[n])|;
      if want <= have then 0 else want - have
  }

  /** `_ensure_gpus_attached`; `want` is the registered count. */
  function EnsureAttached(pool: seq<string>, insts: Instances, want: nat, n: string, f: Faults): Effect {
    var missing := Missing(insts, want, n);
    var healthy := Healthy(pool, insts, f.wedged);
    if n in f.unlisted then Effect(insts, true)
    else if missing == 0 then Effect(insts, false)
    else if |healthy| < missing then Effect(insts, true)
    else AttachAll(insts, n, healthy[..missing], 0, f)
  }

  // ---------------------------------------------------------------------
  // Lifecycle operations (their effect on instances and devices)
  // ---------------------------------------------------------------------

  function Powered(insts: Instances, n: string, on: bool): Instances
    requires n in insts
  {
    insts[n := insts[n].(running := on)]
  }

  /** `incus stop`. */
  function Stop(insts: Instances, n: string, f: Faults): Effect {
    if n !in insts || !insts[n].running || n in f.stop then Effect(insts, true)
    else Effect(Powered(insts, n, false), false)
  }

  /** Shared tail of start and restart: NAS share, GPUs, `incus start`. */
  function BringUp(pool: seq<string>, insts: Instances, want: nat, n: string, f: Faults): Effect {
    if n in f.nas then Effect(insts, true)
    else
      var e := EnsureAttached(pool, insts, want, n, f);
      if e.raised || n !in e.insts || e.insts[n].running || n in f.start then Effect(e.insts, true)
      else Effect(Powered(e.insts, n, true), false)
  }

  /** `vm_restart`; `unseen` is a status query that failed, which counts as not running. */
  function Restart(pool: seq<string>, insts: Instances, want: nat, n: string, unseen: bool, f: Faults): Effect {
    if n in insts && insts[n].running && !unseen then
      var e := Stop(insts, n, f);
      if e.raised then e else BringUp(pool, e.insts, want, n, f)
    else BringUp(pool, insts, want, n, f)
  }

  /** `vm_stop`, optionally releasing the GPUs afterwards. */
  function StopAndMaybeRelease(insts: Instances, n: string, release: bool, f: Faults): Effect {
    var e := Stop(insts, n, f);
    if e.raised || !release then e else Release(e.insts, n, f)
  }

  /** `vm_launch`: pick first, then create the instance (with its other devices
      but no GPU yet), pin its address, attach, and start. `initFails` is a failed
      creation, `pinFails` a failed pin. */
  function Launch(pool: seq<string>, insts: Instances, n: string, isVm: bool, gpus: nat,
                  others: set<string>, initFails: bool, pinFails: bool, f: Faults): Effect
  {
    var healthy := Healthy(pool, insts, f.wedged);
    var need := if isVm then gpus else 0;
    if n in insts || |healthy| < need || initFails then Effect(insts, true)
    else
      var created := insts[n := Instance(isVm, false, map d | d in others :: OtherDevice)];
      var e := AttachNumbered(created, n, healthy[..need], 0, f);
      if pinFails then Effect(created, true)
      else if e.raised || n !in e.insts || n in f.nas || n in f.start then Effect(e.insts, true)
      else Effect(Powered(e.insts, n, true), false)
  }

  /** `vm_destroy`; an instance it does not see (`unseen`) is left alone. */
  function Destroy(insts: Instances, n: string, unseen: bool, deleteFails: bool, f: Faults): Effect {
    if n !in insts || unseen then Effect(insts, false)
    else
      var e := if insts[n].running then Stop(insts, n, f) else Effect(insts, false);
      if e.raised || deleteFails then Effect(e.insts, true) else Effect(e.insts - {n}, false)
  }

  // ---------------------------------------------------------------------
  // Exclusive assignment
  // ---------------------------------------------------------------------

  /** Every attached GPU belongs to the pool and to one device of one instance. */
  ghost predicate Exclusive(pool: seq<string>, insts: Instances) {
    && NoDuplicates(pool)
    && (forall n, d, g | HeldBy(insts, n, d, g) :: g in pool)
    && (forall n, d, m, c, g | HeldBy(insts, n, d, g) && HeldBy(insts, m, c, g) :: n == m && d == c)
  }

  /** Dropping holdings keeps exclusiveness. */
  lemma FewerHoldings(pool: seq<string>, insts: Instances, after: Instances)
    requires Exclusive(pool, insts)
    requires forall n, d, g | HeldBy(after, n, d, g) :: HeldBy(insts, n, d, g)
    ensures Exclusive(pool, after)
  {
  }

  lemma AttachedHoldings(insts: Instances, n: string, d: string, pci: string)
    requires n in insts && d !in insts[n].devices
    ensures forall m, c, g ::
      HeldBy(Attached(insts, n, d, pci), m, c, g) <==> HeldBy(insts, m, c, g) || (m == n && c == d && g == pci)
  {
  }

  lemma AttachOne(pool: seq<string>, insts: Instances, n: string, d: string, pci: string)
    requires Exclusive(pool, insts) && n in insts && d !in insts[n].devices
    requires pci in pool && pci !in Assigned(insts)
    ensures Exclusive(pool, Attached(insts, n, d, pci))
    ensures Assigned(Attached(insts, n, d, pci)) == Assigned(insts) + {pci}
  {
    var after := Attached(insts, n, d, pci);
    AttachedHoldings(insts, n, d, pci);
    AssignedMeans(insts);
    AssignedMeans(after);
    assert HeldBy(after, n, d, pci);
    forall g | g in Assigned(insts) ensures g in Assigned(after) {
      var m, c :| HeldBy(insts, m, c, g);
      assert HeldBy(after, m, c, g);
    }
  }

  /** `after` differs from `insts` in the devices of `n` only. */
  ghost predicate OnlyDevicesOf(n: string, insts: Instances, after: Instances) {
    && n in insts && n in after && after == insts[n := after[n]]
    && after[n].isVm == insts[n].isVm && after[n].running == insts[n].running
  }

  /** Attaching, however far it gets: nothing is doubly assigned and only `n` changes. */
  lemma {:induction false} AttachAllKeeps(pool: seq<string>, insts: Instances, n: string, picked: seq<string>,
                                          i: nat, f: Faults)
    requires Exclusive(pool, insts) && n in insts && NoDuplicates(picked)
    requires forall g | g in picked :: g in pool && g !in Assigned(insts)
    ensures var e := AttachAll(insts, n, picked, i, f); Exclusive(pool, e.insts) && OnlyDevicesOf(n, insts, e.insts)
    decreases |picked|
  {
    if picked != [] && (n, picked[0]) !in f.attach {
      var slot := FreeSlot(insts[n].devices.Keys, i);
      var next := Attached(insts, n, GpuName(slot), picked[0]);
      AttachOne(pool, insts, n, GpuName(slot), picked[0]);
      assert forall g | g in picked[1..] :: g in picked && g != picked[0];
      AttachAllKeeps(pool, next, n, picked[1..], slot, f);
    } else {
      assert insts == insts[n := insts[n]];
    }
  }

  lemma {:induction false} AttachNumberedKeeps(pool: seq<string>, insts: Instances, n: string, picked: seq<string>,
                                               i: nat, f: Faults)
    requires Exclusive(pool, insts) && n in insts && NoDuplicates(picked)
    requires forall g | g in picked :: g in pool && g !in Assigned(insts)
    ensures var e := AttachNumbered(insts, n, picked, i, f);
      Exclusive(pool, e.insts) && OnlyDevicesOf(n, insts, e.insts)
    decreases |picked|
  {
    if picked != [] && (n, picked[0]) !in f.attach && GpuName(i) !in insts[n].devices {
      AttachOne(pool, insts, n, GpuName(i), picked[0]);
      assert forall g | g in picked[1..] :: g in picked && g != picked[0];
      AttachNumberedKeeps(pool, Attached(insts, n, GpuName(i), picked[0]), n, picked[1..], i + 1, f);
    } else {
      assert insts == insts[n := insts[n]];
    }
  }

  /** Without a fault, exactly the picked GPUs are added. */
  lemma {:induction false} AttachAllAdds(pool: seq<string>, insts: Instances, n: string, picked: seq<string>, i: nat,
                                         f: Faults)
    requires Exclusive(pool, insts) && n in insts && NoDuplicates(picked) && f.attach == {}
    requires forall g | g in picked :: g in pool && g !in Assigned(insts)
    ensures var e := AttachAll(insts, n, picked, i, f);
      !e.raised && forall g :: g in Assigned(e.insts) <==> g in Assigned(insts) || g in picked
    decreases |picked|
  {
    if picked != [] {
      var slot := FreeSlot(insts[n].devices.Keys, i);
      var next := Attached(insts, n, GpuName(slot), picked[0]);
      AttachOne(pool, insts, n, GpuName(slot), picked[0]);
      assert forall g | g in picked[1..] :: g in picked && g != picked[0];
      AttachAllAdds(pool, next, n, picked[1..], slot, f);
      assert forall g :: g in picked <==> g == picked[0] || g in picked[1..];
    }
  }

  lemma {:induction false} AttachAllCounts(insts: Instances, n: string, picked: seq<string>, i: nat, f: Faults)
    requires n in insts && f.attach == {}
    ensures var e := AttachAll(insts, n, picked, i, f);
      n in e.insts && |GpuDevices(e.insts[n])| == |GpuDevices(insts[n])| + |picked|
    decreases |picked|
  {
    if picked != [] {
      var slot := FreeSlot(insts[n].devices.Keys, i);
      var next := Attached(insts, n, GpuName(slot), picked[0]);
      assert GpuDevices(next[n]) == GpuDevices(insts[n]) + {GpuName(slot)};
      AttachAllCounts(next, n, picked[1..], slot, f);
    }
  }

  lemma {:induction false} DetachAllKeeps(pool: seq<string>, insts: Instances, n: string, names: seq<string>, f: Faults)
    requires Exclusive(pool, insts) && n in insts
    ensures Exclusive(pool, DetachAll(insts, n, names, f).insts)
    decreases |names|
  {
    if names != [] {
      if Holds(insts, n, names[0]) {
        var next := Detached(insts, n, names[0]);
        assert forall m, d, g | HeldBy(next, m, d, g) :: HeldBy(insts, m, d, g);
        FewerHoldings(pool, insts, next);
        DetachAllKeeps(pool, next, n, names[1..], f);
      } else {
        DetachAllKeeps(pool, insts, n, names[1..], f);
      }
    }
  }

  /** Detaching touches `n` only, and its outcome depends on `n` only. */
  lemma {:induction false} DetachAllLocal(a: Instances, b: Instances, n: string, names: seq<string>, f: Faults)
    requires n in a && n in b && a[n] == b[n]
    ensures var e, e' := DetachAll(a, n, names, f), DetachAll(b, n, names, f);
      OnlyDevicesOf(n, a, e.insts) && n in e'.insts && e.insts[n] == e'.insts[n] && e.raised == e'.raised
    decreases |names|
  {
    assert a == a[n := a[n]];
    if names != [] {
      if Holds(a, n, names[0]) {
        DetachAllLocal(Detached(a, n, names[0]), Detached(b, n, names[0]), n, names[1..], f);
      } else {
        DetachAllLocal(a, b, n, names[1..], f);
      }
    }
  }

  /** Without a fault, exactly the listed GPU devices go. */
  lemma {:induction false} DetachAllRemoves(insts: Instances, n: string, names: seq<string>, f: Faults)
    requires n in insts && f.detach == {}
    ensures var e := DetachAll(insts, n, names, f);
      && !e.raised && n in e.insts
      && (forall d :: d in e.insts[n].devices <==>
            d in insts[n].devices && !(insts[n].devices[d].Gpu? && d in names))
      && (forall d | d in e.insts[n].devices :: e.insts[n].devices[d] == insts[n].devices[d])
    decreases |names|
  {
    if names != [] {
      assert names == [names[0]] + names[1..];
      DetachAllRemoves(if Holds(insts, n, names[0]) then Detached(insts, n, names[0]) else insts, n, names[1..], f);
    }
  }

  /** What a VM keeps once its GPUs are released. */
  function Stripped(inst: Instance): Instance {
    inst.(devices := map d | d in inst.devices && !inst.devices[d].Gpu? :: inst.devices[d])
  }

  lemma ReleaseKeeps(pool: seq<string>, insts: Instances, n: string, f: Faults)
    requires Exclusive(pool, insts)
    ensures Exclusive(pool, Release(insts, n, f).insts)
  {
    if n in insts && insts[n].isVm && !insts[n].running {
      DetachAllKeeps(pool, insts, n, Sorted(insts[n].devices.Keys), f);
    }
  }

  lemma ReleaseLocal(a: Instances, b: Instances, n: string, f: Faults)
    requires Get(a, n) == Get(b, n)
    ensures var e, e' := Release(a, n, f), Release(b, n, f);
      && e.raised == e'.raised && Get(e.insts, n) == Get(e'.insts, n)
      && if n in a then OnlyDevicesOf(n, a, e.insts) else e.insts == a
  {
    if n in a {
      assert a == a[n := a[n]];
      DetachAllLocal(a, b, n, Sorted(a[n].devices.Keys), f);
    }
  }

  /** A release without faults strips a stopped VM of every GPU and of nothing else. */
  lemma ReleaseStrips(insts: Instances, n: string, f: Faults)
    requires n !in f.unlisted && f.detach == {} && n in insts && insts[n].isVm && !insts[n].running
    ensures Release(insts, n, f) == Effect(insts[n := Stripped(insts[n])], false)
  {
    var names := Sorted(insts[n].devices.Keys);
    DetachAllLocal(insts, insts, n, names, f);
    DetachAllRemoves(insts, n, names, f);
    var e := DetachAll(insts, n, names, f);
    assert e.insts[n].devices == Stripped(insts[n]).devices;
  }

  lemma PoweredKeeps(pool: seq<string>, insts: Instances, n: string, on: bool)
    requires Exclusive(pool, insts) && n in insts
    ensures Exclusive(pool, Powered(insts, n, on))
  {
    var after := Powered(insts, n, on);
    assert forall m, d, g | HeldBy(after, m, d, g) :: HeldBy(insts, m, d, g);
    FewerHoldings(pool, insts, after);
  }

  lemma EnsureAttachedKeeps(pool: seq<string>, insts: Instances, want: nat, n: string, f: Faults)
    requires Exclusive(pool, insts)
    ensures var e := EnsureAttached(pool, insts, want, n, f);
      && Exclusive(pool, e.insts)
      && if n in insts then OnlyDevicesOf(n, insts, e.insts) else e.insts == insts
  {
    var missing := Missing(insts, want, n);
    var healthy := Healthy(pool, insts, f.wedged);
    if n !in f.unlisted && missing > 0 && missing <= |healthy| {
      assert forall g | g in healthy[..missing] :: g in healthy;
      AttachAllKeeps(pool, insts, n, healthy[..missing], 0, f);
    } else if n in insts {
      assert insts == insts[n := insts[n]];
    }
  }

  // ---------------------------------------------------------------------
  // Conservation over runs of lifecycle operations
  // ---------------------------------------------------------------------

  datatype Op =
    | DoLaunch(n: string, isVm: bool, gpus: nat, others: set<string>, initFails: bool, pinFails: bool)
    | DoStart(n: string, want: nat)
    | DoRestart(n: string, want: nat, unseen: bool)
    | DoStop(n: string, release: bool)
    | DoRelease(n: string)
    | DoDestroy(n: string, unseen: bool, deleteFails: bool)

  function Do(pool: seq<string>, insts: Instances, op: Op, f: Faults): Effect {
    match op
    case DoLaunch(n, isVm, gpus, others, initFails, pinFails) =>
      Launch(pool, insts, n, isVm, gpus, others, initFails, pinFails, f)
    case DoStart(n, want) => BringUp(pool, insts, want, n, f)
    case DoRestart(n, want, unseen) => Restart(pool, insts, want, n, unseen, f)
    case DoStop(n, release) => StopAndMaybeRelease(insts, n, release, f)
    case DoRelease(n) => Release(insts, n, f)
    case DoDestroy(n, unseen, deleteFails) => Destroy(insts, n, unseen, deleteFails, f)
  }

  lemma BringUpKeeps(pool: seq<string>, insts: Instances, want: nat, n: string, f: Faults)
    requires Exclusive(pool, insts)
    ensures Exclusive(pool, BringUp(pool, insts, want, n, f).insts)
  {
    EnsureAttachedKeeps(pool, insts, want, n, f);
    var e := EnsureAttached(pool, insts, want, n, f);
    if n in e.insts { PoweredKeeps(pool, e.insts, n, true); }
  }

  lemma StopKeeps(pool: seq<string>, insts: Instances, n: string, f: Faults)
    requires Exclusive(pool, insts)
    ensures Exclusive(pool, Stop(insts, n, f).insts)
  {
    if n in insts { PoweredKeeps(pool, insts, n, false); }
  }

  lemma CreatedKeeps(pool: seq<string>, insts: Instances, n: string, isVm: bool, others: set<string>)
    requires Exclusive(pool, insts) && n !in insts
    ensures var created := insts[n := Instance(isVm, false, map d | d in others :: OtherDevice)];
      Exclusive(pool, created) && Assigned(created) == Assigned(insts)
  {
    var created := insts[n := Instance(isVm, false, map d | d in others :: OtherDevice)];
    assert forall m, d, g :: HeldBy(created, m, d, g) <==> HeldBy(insts, m, d, g);
    FewerHoldings(pool, insts, created);
    AssignedMeans(insts);
    AssignedMeans(created);
  }

  lemma LaunchKeeps(pool: seq<string>, insts: Instances, n: string, isVm: bool, gpus: nat,
                    others: set<string>, initFails: bool, pinFails: bool, f: Faults)
    requires Exclusive(pool, insts)
    ensures Exclusive(pool, Launch(pool, insts, n, isVm, gpus, others, initFails, pinFails, f).insts)
  {
    var healthy := Healthy(pool, insts, f.wedged);
    var need := if isVm then gpus else 0;
    if !(n in insts || |healthy| < need || initFails) {
      CreatedKeeps(pool, insts, n, isVm, others);
      var created := insts[n := Instance(isVm, false, map d | d in others :: OtherDevice)];
      assert forall g | g in healthy[..need] :: g in healthy;
      AttachNumberedKeeps(pool, created, n, healthy[..need], 0, f);
      var e := AttachNumbered(created, n, healthy[..need], 0, f);
      PoweredKeeps(pool, e.insts, n, true);
    }
  }

  lemma DoKeeps(pool: seq<string>, insts: Instances, op: Op, f: Faults)
    requires Exclusive(pool, insts)
    ensures Exclusive(pool, Do(pool, insts, op, f).insts)
  {
    match op
    case DoLaunch(n, isVm, gpus, others, initFails, pinFails) =>
      LaunchKeeps(pool, insts, n, isVm, gpus, others, initFails, pinFails, f);
    case DoStart(n, want) => BringUpKeeps(pool, insts, want, n, f);
    case DoRestart(n, want, _) =>
      StopKeeps(pool, insts, n, f);
      BringUpKeeps(pool, Stop(insts, n, f).insts, want, n, f);
      BringUpKeeps(pool, insts, want, n, f);
    case DoStop(n, release) =>
      StopKeeps(pool, insts, n, f);
      ReleaseKeeps(pool, Stop(insts, n, f).insts, n, f);
    case DoRelease(n) => ReleaseKeeps(pool, insts, n, f);
    case DoDestroy(n, _, _) =>
      StopKeeps(pool, insts, n, f);
      var e := if n in insts && insts[n].running then Stop(insts, n, f) else Effect(insts, false);
      FewerHoldings(pool, e.insts, e.insts - {n});
  }

  /** All (instance, device) pairs that hold a GPU. */
  function Holdings(insts: Instances): set<(string, string)> {
    set n, d | n in insts && d in insts[n].devices && insts[n].devices[d].Gpu? :: (n, d)
  }

  /** One device per GPU, so as many holdings as held GPUs. */
  lemma {:induction false} HoldingsCount(pool: seq<string>, insts: Instances, s: set<(string, string)>,
                                         held: set<string>)
    requires Exclusive(pool, insts)
    requires forall p | p in s :: exists g :: g in held && HeldBy(insts, p.0, p.1, g)
    requires forall g | g in held :: exists n, d :: (n, d) in s && HeldBy(insts, n, d, g)
    ensures |s| == |held|
    decreases |held|
  {
    if held == {} {
      assert forall p :: p !in s;
    } else {
      var g :| g in held;
      var n, d :| (n, d) in s && HeldBy(insts, n, d, g);
      var s', held' := s - {(n, d)}, held - {g};
      forall p | p in s' ensures exists x :: x in held' && HeldBy(insts, p.0, p.1, x) {
        var x :| x in held && HeldBy(insts, p.0, p.1, x);
        assert x in held';
      }
      forall x | x in held' ensures exists m, c :: (m, c) in s' && HeldBy(insts, m, c, x) {
        var m, c :| (m, c) in s && HeldBy(insts, m, c, x);
        assert (m, c) in s';
      }
      HoldingsCount(pool, insts, s', held');
    }
  }

  lemma {:induction false} DistinctSize(s: seq<string>)
    requires NoDuplicates(s)
    ensures |set x | x in s| == |s|
  {
    if s != [] {
      var init, last := s[..|s| - 1], s[|s| - 1];
      DistinctSize(init);
      assert s == init + [last];
      assert (set x | x in s) == (set x | x in init) + {last};
    }
  }

  lemma AsManyHoldings(pool: seq<string>, insts: Instances)
    requires Exclusive(pool, insts)
    ensures |Holdings(insts)| == |Assigned(insts)|
  {
    AssignedMeans(insts);
    var held, taken := Holdings(insts), Assigned(insts);
    forall p | p in held ensures exists g :: g in taken && HeldBy(insts, p.0, p.1, g) {
      assert HeldBy(insts, p.0, p.1, insts[p.0].devices[p.1].pci);
    }
    forall g | g in taken ensures exists n, d :: (n, d) in held && HeldBy(insts, n, d, g) {
      var n, d :| HeldBy(insts, n, d, g);
      assert (n, d) in held;
    }
    HoldingsCount(pool, insts, held, taken);
  }

  lemma AssignedInPool(pool: seq<string>, insts: Instances)
    requires Exclusive(pool, insts)
    ensures forall g | g in Assigned(insts) :: g in pool
  {
    AssignedMeans(insts);
  }

  /** Conservation: the free GPUs and the attached ones are disjoint and make up
      exactly the pool, and as many device entries hold a GPU as GPUs are attached. */
  lemma FreePlusAttachedIsPool(pool: seq<string>, insts: Instances)
    requires Exclusive(pool, insts)
    ensures forall g :: g in pool <==> (g in Free(pool, insts)) != (g in Assigned(insts))
    ensures |Free(pool, insts)| + |Holdings(insts)| == |pool|
  {
    AssignedInPool(pool, insts);
    AsManyHoldings(pool, insts);
    PartsCount(pool, Assigned(insts));
  }

  lemma PartsCount(pool: seq<string>, taken: set<string>)
    requires NoDuplicates(pool) && forall g | g in taken :: g in pool
    ensures |Without(pool, taken)| + |taken| == |pool|
  {
    var free := Without(pool, taken);
    DistinctSize(pool);
    DistinctSize(free);
    assert (set x | x in pool) == (set x | x in free) + taken;
  }
}
