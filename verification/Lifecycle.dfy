/** What each lifecycle operation does to an instance, and exactly when it fails:
    releasing and attaching GPUs, launch, start, restart, stop and destroy. */
module Lifecycle {
  import opened Basics
  import opened Names
  import opened GpuPool

  // ---------------------------------------------------------------------
  // Order of the pool
  // ---------------------------------------------------------------------

  /** Filtering keeps the order of the list. */
  lemma {:induction false} WithoutConcat(a: seq<string>, b: seq<string>, gone: set<string>)
    ensures Without(a + b, gone) == Without(a, gone) + Without(b, gone)
  {
    if b == [] {
      assert a + b == a;
    } else {
      assert (a + b)[..|a + b| - 1] == a + b[..|b| - 1];
      WithoutConcat(a, b[..|b| - 1], gone);
    }
  }

  lemma WithoutOne(x: string, gone: set<string>)
    ensures Without([x], gone) == if x in gone then [] else [x]
  {
    assert [x][..0] == [];
  }

  /** The healthy GPUs are listed in pool order: one GPU more at the end of the pool
      is the last of them, if it is free and healthy. */
  lemma HealthyInPoolOrder(pool: seq<string>, g: string, insts: Instances, wedged: set<string>)
    ensures Healthy(pool + [g], insts, wedged)
      == Healthy(pool, insts, wedged) + if g in Assigned(insts) || g in wedged then [] else [g]
  {
    WithoutConcat(pool, [g], Assigned(insts));
    WithoutOne(g, Assigned(insts));
    WithoutConcat(Free(pool, insts), Without([g], Assigned(insts)), wedged);
    WithoutOne(g, wedged);
  }

  // ---------------------------------------------------------------------
  // Releasing
  // ---------------------------------------------------------------------

  /** Some GPU of `n` cannot be detached. */
  predicate DetachFails(inst: Instance, n: string, f: Faults) {
    exists d | d in inst.devices && inst.devices[d].Gpu? :: (n, d) in f.detach
  }

  lemma {:induction false} DetachAllExact(insts: Instances, n: string, names: seq<string>, f: Faults)
    requires n in insts && NoDuplicates(names)
    ensures var e := DetachAll(insts, n, names, f);
      && n in e.insts
      && (e.raised <==> exists d | d in names :: Holds(insts, n, d) && (n, d) in f.detach)
      && (e.raised ==> exists d :: Holds(e.insts, n, d))
      && (!e.raised ==> forall d | d in names :: !Holds(e.insts, n, d))
      && (forall d | Holds(e.insts, n, d) :: Holds(insts, n, d))
    decreases |names|
  {
    if names != [] {
      var d, rest := names[0], names[1..];
      assert forall c :: c in names <==> c == d || c in rest;
      assert d !in rest;
      if Holds(insts, n, d) && (n, d) !in f.detach {
        var next := Detached(insts, n, d);
        assert forall c :: Holds(next, n, c) <==> Holds(insts, n, c) && c != d;
        DetachAllExact(next, n, rest, f);
      } else if !Holds(insts, n, d) {
        DetachAllExact(insts, n, rest, f);
      }
    }
  }

  predicate InTextOrder(names: seq<string>) { forall i, j | 0 <= i < j < |names| :: Before(names[i], names[j]) }

  /** A detach fails at or before `d` in text order. */
  predicate FailsUpTo(insts: Instances, n: string, names: seq<string>, f: Faults, d: string) {
    exists i | 0 <= i < |names| ::
      Holds(insts, n, names[i]) && (n, names[i]) in f.detach && (names[i] == d || Before(names[i], d))
  }

  /** The loop stops at the first detach that fails: what comes before it in text
      order is detached, the rest and everything that is no GPU stays. */
  lemma {:induction false} DetachAllOrder(insts: Instances, n: string, names: seq<string>, f: Faults, d: string)
    requires n in insts && InTextOrder(names) && d in insts[n].devices
    ensures var e := DetachAll(insts, n, names, f);
      n in e.insts
      && (d in e.insts[n].devices <==> !Holds(insts, n, d) || d !in names || FailsUpTo(insts, n, names, f, d))
      && (d in e.insts[n].devices ==> e.insts[n].devices[d] == insts[n].devices[d])
    decreases |names|
  {
    if names != [] {
      var c, rest := names[0], names[1..];
      assert forall x :: x in names <==> x == c || x in rest;
      assert forall x | x in rest :: Before(c, x);
      BeforeTotal(c, d);
      if Holds(insts, n, c) && (n, c) in f.detach {
        assert names[0] == c && (d in names ==> FailsUpTo(insts, n, names, f, d));
      } else if Holds(insts, n, c) {
        var next := Detached(insts, n, c);
        if d != c {
          DetachAllOrder(next, n, rest, f, d);
          FailsUpToTail(insts, next, n, names, f, d);
        } else {
          DetachAllLocal(next, next, n, rest, f);
          DetachNotThere(next, n, rest, f, d);
          NothingFailsBefore(insts, n, names, f);
        }
      } else {
        DetachAllOrder(insts, n, rest, f, d);
        FailsUpToTail(insts, insts, n, names, f, d);
      }
    }
  }

  lemma FailsUpToTail(insts: Instances, next: Instances, n: string, names: seq<string>, f: Faults, d: string)
    requires n in insts && n in next && names != [] && InTextOrder(names)
    requires !(Holds(insts, n, names[0]) && (n, names[0]) in f.detach)
    requires forall c | c != names[0] :: Holds(next, n, c) == Holds(insts, n, c)
    ensures FailsUpTo(next, n, names[1..], f, d) == FailsUpTo(insts, n, names, f, d)
  {
    BeforeTotal(names[0], names[0]);
    if FailsUpTo(insts, n, names, f, d) {
      var i :| 0 <= i < |names| && Holds(insts, n, names[i]) && (n, names[i]) in f.detach
               && (names[i] == d || Before(names[i], d));
      assert names[1..][i - 1] == names[i] && names[i] != names[0];
    }
    if FailsUpTo(next, n, names[1..], f, d) {
      var i :| 0 <= i < |names| - 1 && Holds(next, n, names[1..][i]) && (n, names[1..][i]) in f.detach
               && (names[1..][i] == d || Before(names[1..][i], d));
      assert names[i + 1] == names[1..][i] && Before(names[0], names[i + 1]);
    }
  }

  lemma NothingFailsBefore(insts: Instances, n: string, names: seq<string>, f: Faults)
    requires n in insts && names != [] && InTextOrder(names) && !((n, names[0]) in f.detach)
    ensures !FailsUpTo(insts, n, names, f, names[0])
  {
    forall i | 0 < i < |names| ensures names[i] != names[0] && !Before(names[i], names[0]) {
      BeforeTotal(names[i], names[0]);
    }
  }

  lemma {:induction false} DetachNotThere(insts: Instances, n: string, names: seq<string>, f: Faults, d: string)
    requires n in insts && d !in insts[n].devices
    ensures var e := DetachAll(insts, n, names, f); n in e.insts && d !in e.insts[n].devices
    decreases |names|
  {
    if names != [] {
      DetachNotThere(if Holds(insts, n, names[0]) then Detached(insts, n, names[0]) else insts, n, names[1..], f, d);
    }
  }

  /** A detach of a GPU of the instance fails at or before `d` in text order. */
  ghost predicate StopsBy(insts: Instances, n: string, f: Faults, d: string) {
    exists c :: Holds(insts, n, c) && (n, c) in f.detach && (c == d || Before(c, d))
  }

  lemma {:induction false} StopsByListed(insts: Instances, n: string, names: seq<string>, f: Faults, d: string)
    requires n in insts && forall c | Holds(insts, n, c) :: c in names
    ensures StopsBy(insts, n, f, d) == FailsUpTo(insts, n, names, f, d)
  {
    if c :| Holds(insts, n, c) && (n, c) in f.detach && (c == d || Before(c, d)) {
      var i :| 0 <= i < |names| && names[i] == c;
      assert FailsUpTo(insts, n, names, f, d);
    }
  }

  /** A release touches GPU devices only, in text order of their names, and stops at
      the first detach that fails. */
  lemma {:induction false} ReleaseInOrder(insts: Instances, n: string, f: Faults, d: string)
    requires n in insts && insts[n].isVm && !insts[n].running && d in insts[n].devices
    ensures var e := Release(insts, n, f);
      n in e.insts
      && (d in e.insts[n].devices <==>
            n in f.unlisted || !insts[n].devices[d].Gpu? || StopsBy(insts, n, f, d))
      && (d in e.insts[n].devices ==> e.insts[n].devices[d] == insts[n].devices[d])
  {
    if n !in f.unlisted {
      var names := Sorted(insts[n].devices.Keys);
      SortedInOrder(insts[n].devices.Keys);
      DetachAllOrder(insts, n, names, f, d);
      StopsByListed(insts, n, names, f, d);
    }
  }

  /** A release of `n` fails: at the listing that opens it, or at a detach. */
  predicate ReleaseFails(inst: Instance, n: string, f: Faults) { n in f.unlisted || DetachFails(inst, n, f) }

  /** A release of a stopped VM raises iff its listing or one of its detaches fails,
      and it leaves no GPU attached iff there was none or it does not raise. */
  lemma ReleaseExact(insts: Instances, n: string, f: Faults)
    requires n in insts && insts[n].isVm && !insts[n].running
    ensures var e := Release(insts, n, f);
      && n in e.insts && (e.raised <==> ReleaseFails(insts[n], n, f))
      && (GpuDevices(e.insts[n]) == {} <==> GpuDevices(insts[n]) == {} || !ReleaseFails(insts[n], n, f))
  {
    if n in f.unlisted { return; }
    var names := Sorted(insts[n].devices.Keys);
    DetachAllExact(insts, n, names, f);
    var e := Release(insts, n, f);
    assert e.raised <==> DetachFails(insts[n], n, f) by {
      if d :| d in names && Holds(insts, n, d) && (n, d) in f.detach { assert insts[n].devices[d].Gpu?; }
      if d :| d in insts[n].devices && insts[n].devices[d].Gpu? && (n, d) in f.detach {
        assert d in names && Holds(insts, n, d);
      }
    }
    assert forall d :: d in GpuDevices(e.insts[n]) <==> Holds(e.insts, n, d);
    assert forall d :: d in GpuDevices(insts[n]) <==> Holds(insts, n, d);
  }

  // ---------------------------------------------------------------------
  // Attaching
  // ---------------------------------------------------------------------

  /** How many of the picked GPUs the loop attaches: those before the first failure. */
  function Attachable(picked: seq<string>, n: string, f: Faults): (k: nat)
    ensures k <= |picked| && (forall i | 0 <= i < k :: (n, picked[i]) !in f.attach)
    ensures k < |picked| ==> (n, picked[k]) in f.attach
  {
    if picked == [] || (n, picked[0]) in f.attach then 0 else 1 + Attachable(picked[1..], n, f)
  }

  /** The attach loop touches one instance only and fails iff an attach fails. */
  lemma {:induction false} AttachAllRaises(insts: Instances, n: string, picked: seq<string>, i: nat, f: Faults)
    requires n in insts
    ensures var e := AttachAll(insts, n, picked, i, f);
      OnlyDevicesOf(n, insts, e.insts) && (e.raised <==> Attachable(picked, n, f) < |picked|)
    decreases |picked|
  {
    assert insts == insts[n := insts[n]];
    if picked != [] && (n, picked[0]) !in f.attach {
      var slot := FreeSlot(insts[n].devices.Keys, i);
      AttachAllRaises(Attached(insts, n, GpuName(slot), picked[0]), n, picked[1..], slot, f);
    }
  }

  /** It keeps every device there was, and what it adds are picked GPUs from before
      the first failure. */
  lemma {:induction false} AttachAllKeepsOld(insts: Instances, n: string, picked: seq<string>, i: nat, f: Faults,
                                             d: string)
    requires n in insts
    ensures var e, k := AttachAll(insts, n, picked, i, f), Attachable(picked, n, f);
      && n in e.insts
      && (d in insts[n].devices ==> d in e.insts[n].devices && e.insts[n].devices[d] == insts[n].devices[d])
      && (d in e.insts[n].devices && d !in insts[n].devices ==>
            e.insts[n].devices[d].Gpu? && e.insts[n].devices[d].pci in picked[..k])
    decreases |picked|
  {
    if picked != [] && (n, picked[0]) !in f.attach {
      var slot, k := FreeSlot(insts[n].devices.Keys, i), Attachable(picked, n, f);
      AttachAllKeepsOld(Attached(insts, n, GpuName(slot), picked[0]), n, picked[1..], slot, f, d);
      assert picked[..k] == [picked[0]] + picked[1..][..k - 1];
    }
  }

  /** Each picked GPU from before the first failure is under a new device. */
  lemma {:induction false} AttachAllHas(insts: Instances, n: string, picked: seq<string>, i: nat, f: Faults, g: string)
    requires n in insts && g in picked[..Attachable(picked, n, f)]
    ensures exists d :: d !in insts[n].devices && HeldBy(AttachAll(insts, n, picked, i, f).insts, n, d, g)
    decreases |picked|
  {
    var slot, k := FreeSlot(insts[n].devices.Keys, i), Attachable(picked, n, f);
    var next, e := Attached(insts, n, GpuName(slot), picked[0]), AttachAll(insts, n, picked, i, f);
    assert picked[..k] == [picked[0]] + picked[1..][..k - 1];
    if g == picked[0] {
      AttachAllKeepsOld(next, n, picked[1..], slot, f, GpuName(slot));
      assert HeldBy(e.insts, n, GpuName(slot), g);
    } else {
      AttachAllHas(next, n, picked[1..], slot, f, g);
      var d :| d !in next[n].devices && HeldBy(e.insts, n, d, g);
      assert d !in insts[n].devices;
    }
  }

  lemma {:induction false} AttachAllNumber(insts: Instances, n: string, picked: seq<string>, i: nat, f: Faults)
    requires n in insts
    ensures var e := AttachAll(insts, n, picked, i, f);
      n in e.insts && |GpuDevices(e.insts[n])| == |GpuDevices(insts[n])| + Attachable(picked, n, f)
    decreases |picked|
  {
    if picked != [] && (n, picked[0]) !in f.attach {
      var slot := FreeSlot(insts[n].devices.Keys, i);
      var next := Attached(insts, n, GpuName(slot), picked[0]);
      assert GpuDevices(next[n]) == GpuDevices(insts[n]) + {GpuName(slot)};
      AttachAllNumber(next, n, picked[1..], slot, f);
    }
  }

  /** The devices of a launch: `gpu<i>` holds the first GPU, `gpu<i + 1>` the next. */
  function Numbered(picked: seq<string>, i: nat): map<string, Device>
    decreases |picked|
  {
    if picked == [] then map[] else Numbered(picked[1..], i + 1)[GpuName(i) := Gpu(picked[0])]
  }

  lemma {:induction false} NumberedAt(picked: seq<string>, i: nat, j: nat)
    requires j < |picked|
    ensures GpuName(i + j) in Numbered(picked, i) && Numbered(picked, i)[GpuName(i + j)] == Gpu(picked[j])
    decreases |picked|
  {
    if j > 0 {
      NumberedAt(picked[1..], i + 1, j - 1);
      assert i + 1 + (j - 1) == i + j;
      if GpuName(i + j) == GpuName(i) { GpuNameInjective(i + j, i); }
    }
  }

  lemma {:induction false} NumberedFrom(picked: seq<string>, i: nat, d: string) returns (j: nat)
    requires d in Numbered(picked, i)
    ensures j < |picked| && d == GpuName(i + j)
    decreases |picked|
  {
    if d == GpuName(i) {
      j := 0;
    } else {
      j := NumberedFrom(picked[1..], i + 1, d);
      j := j + 1;
    }
  }

  /** The attach of the `j`-th GPU of a launch fails. */
  predicate StuckAt(used: set<string>, n: string, picked: seq<string>, i: nat, f: Faults, j: nat)
    requires j < |picked|
  {
    (n, picked[j]) in f.attach || GpuName(i + j) in used
  }

  predicate Stuck(used: set<string>, n: string, picked: seq<string>, i: nat, f: Faults) {
    exists j | 0 <= j < |picked| :: StuckAt(used, n, picked, i, f, j)
  }

  lemma StuckLater(used: set<string>, n: string, picked: seq<string>, i: nat, f: Faults)
    requires picked != [] && !StuckAt(used, n, picked, i, f, 0)
    ensures Stuck(used + {GpuName(i)}, n, picked[1..], i + 1, f) == Stuck(used, n, picked, i, f)
  {
    var rest := picked[1..];
    if Stuck(used, n, picked, i, f) {
      var j :| 0 <= j < |picked| && StuckAt(used, n, picked, i, f, j);
      assert i + 1 + (j - 1) == i + j;
      assert StuckAt(used + {GpuName(i)}, n, rest, i + 1, f, j - 1);
    }
    if Stuck(used + {GpuName(i)}, n, rest, i + 1, f) {
      var j :| 0 <= j < |rest| && StuckAt(used + {GpuName(i)}, n, rest, i + 1, f, j);
      if GpuName(i + 1 + j) == GpuName(i) { GpuNameInjective(i + 1 + j, i); }
      assert i + 1 + j == i + (j + 1);
      assert StuckAt(used, n, picked, i, f, j + 1);
    }
  }

  /** The loop of a launch fails iff one of its attaches does; otherwise it adds
      exactly the numbered devices. */
  lemma {:induction false} AttachNumberedExact(insts: Instances, n: string, picked: seq<string>, i: nat, f: Faults)
    requires n in insts
    ensures var e := AttachNumbered(insts, n, picked, i, f);
      && OnlyDevicesOf(n, insts, e.insts) && (e.raised <==> Stuck(insts[n].devices.Keys, n, picked, i, f))
      && (!e.raised ==> e.insts[n].devices == insts[n].devices + Numbered(picked, i))
    decreases |picked|
  {
    assert insts == insts[n := insts[n]];
    if picked != [] {
      if StuckAt(insts[n].devices.Keys, n, picked, i, f, 0) {
        assert i + 0 == i;
      } else {
        assert i + 0 == i;
        var next := Attached(insts, n, GpuName(i), picked[0]);
        AttachNumberedExact(next, n, picked[1..], i + 1, f);
        StuckLater(insts[n].devices.Keys, n, picked, i, f);
        assert next[n].devices.Keys == insts[n].devices.Keys + {GpuName(i)};
        if GpuName(i) in Numbered(picked[1..], i + 1) {
          var j := NumberedFrom(picked[1..], i + 1, GpuName(i));
          GpuNameInjective(i, i + 1 + j);
        }
      }
    }
  }

  // ---------------------------------------------------------------------
  // Launch
  // ---------------------------------------------------------------------

  /** A launch fails at one of its commands or at a device name in use. */
  predicate LaunchFails(n: string, picked: seq<string>, others: set<string>, initFails: bool, pinFails: bool,
                        f: Faults)
  {
    initFails || pinFails || n in f.nas || n in f.start || Stuck(others, n, picked, 0, f)
  }

  /** A launch raises iff the name exists, too few healthy GPUs are free or one of
      its commands fails. Otherwise the new instance runs, with the numbered devices
      of the first healthy free GPUs in pool order, as many as asked for (none for a
      container), and no other instance changes. */
  lemma {:induction false} LaunchEffect(pool: seq<string>, insts: Instances, n: string, isVm: bool, gpus: nat,
                                        others: set<string>, initFails: bool, pinFails: bool, f: Faults)
    ensures var e := Launch(pool, insts, n, isVm, gpus, others, initFails, pinFails, f);
      var healthy, k := Healthy(pool, insts, f.wedged), if isVm then gpus else 0;
      && (e.raised <==>
            n in insts || |healthy| < k || LaunchFails(n, healthy[..k], others, initFails, pinFails, f))
      && (!e.raised ==>
            e.insts == insts[n := Instance(isVm, true,
                                           (map d | d in others :: OtherDevice) + Numbered(healthy[..k], 0))])
  {
    var healthy, k := Healthy(pool, insts, f.wedged), if isVm then gpus else 0;
    if n !in insts && k <= |healthy| && !initFails {
      var created := insts[n := Instance(isVm, false, map d | d in others :: OtherDevice)];
      AttachNumberedExact(created, n, healthy[..k], 0, f);
      assert created[n].devices.Keys == others;
    }
  }

  /** So its GPU devices are exactly gpu0 to gpu(k - 1), holding the first `k`. */
  lemma LaunchedDevices(pool: seq<string>, insts: Instances, n: string, isVm: bool, gpus: nat,
                        others: set<string>, initFails: bool, pinFails: bool, f: Faults)
    requires !Launch(pool, insts, n, isVm, gpus, others, initFails, pinFails, f).raised
    ensures var q := Launch(pool, insts, n, isVm, gpus, others, initFails, pinFails, f).insts;
      var healthy, k := Healthy(pool, insts, f.wedged), if isVm then gpus else 0;
      && n in q && q[n].running && q[n].isVm == isVm && q == insts[n := q[n]] && k <= |healthy|
      && (forall j | 0 <= j < k :: HeldBy(q, n, GpuName(j), healthy[j]))
      && (forall d | Holds(q, n, d) :: exists j | 0 <= j < k :: HeldBy(q, n, d, healthy[j]) && d == GpuName(j))
      && (forall d | d in others :: d in q[n].devices && q[n].devices[d] == OtherDevice)
  {
    LaunchEffect(pool, insts, n, isVm, gpus, others, initFails, pinFails, f);
    var q := Launch(pool, insts, n, isVm, gpus, others, initFails, pinFails, f).insts;
    var healthy, k := Healthy(pool, insts, f.wedged), if isVm then gpus else 0;
    forall j | 0 <= j < k ensures HeldBy(q, n, GpuName(j), healthy[j]) { NumberedAt(healthy[..k], 0, j); }
    forall d | Holds(q, n, d) ensures exists j | 0 <= j < k :: HeldBy(q, n, d, healthy[j]) && d == GpuName(j) {
      var j := NumberedFrom(healthy[..k], 0, d);
      assert HeldBy(q, n, d, healthy[j]);
    }
    forall d | d in others ensures q[n].devices[d] == OtherDevice {
      if d in Numbered(healthy[..k], 0) {
        var j := NumberedFrom(healthy[..k], 0, d);
        assert StuckAt(others, n, healthy[..k], 0, f, j);
      }
    }
  }

  // ---------------------------------------------------------------------
  // Start and restart
  // ---------------------------------------------------------------------

  /** The acquisition before a start fails: its listing, too few healthy GPUs, or an
      attach of one of those it takes. */
  predicate AcquireFails(pool: seq<string>, insts: Instances, want: nat, n: string, f: Faults) {
    var k, healthy := Missing(insts, want, n), Healthy(pool, insts, f.wedged);
    n in f.unlisted || |healthy| < k || exists j | 0 <= j < k :: (n, healthy[j]) in f.attach
  }

  /** `after` is instance `n` of `insts` with all its devices and, if it is a VM,
      with the first healthy free GPUs it lacked. */
  ghost predicate Acquired(pool: seq<string>, insts: Instances, want: nat, n: string, f: Faults, after: Instances) {
    var k, healthy := Missing(insts, want, n), Healthy(pool, insts, f.wedged);
    && n in insts && n in after && after[n].isVm == insts[n].isVm && after == insts[n := after[n]] && k <= |healthy|
    && (forall d | d in insts[n].devices :: d in after[n].devices && after[n].devices[d] == insts[n].devices[d])
    && (forall d | d in after[n].devices && d !in insts[n].devices ::
          after[n].devices[d].Gpu? && after[n].devices[d].pci in healthy[..k])
    && (forall g | g in healthy[..k] :: exists d :: d !in insts[n].devices && HeldBy(after, n, d, g))
    && (insts[n].isVm ==> want <= |GpuDevices(after[n])|)
  }

  lemma AcquireEffect(pool: seq<string>, insts: Instances, want: nat, n: string, f: Faults)
    requires n in insts
    ensures var e := EnsureAttached(pool, insts, want, n, f);
      && (e.raised <==> AcquireFails(pool, insts, want, n, f))
      && n in e.insts && e.insts[n].running == insts[n].running
      && (!e.raised ==> Acquired(pool, insts, want, n, f, e.insts))
  {
    var k, healthy := Missing(insts, want, n), Healthy(pool, insts, f.wedged);
    assert insts == insts[n := insts[n]];
    if n !in f.unlisted && 0 < k <= |healthy| {
      AttachAllRaises(insts, n, healthy[..k], 0, f);
      AttachAllNumber(insts, n, healthy[..k], 0, f);
      var m, e := Attachable(healthy[..k], n, f), AttachAll(insts, n, healthy[..k], 0, f);
      forall d
        ensures d in insts[n].devices ==> d in e.insts[n].devices && e.insts[n].devices[d] == insts[n].devices[d]
        ensures d in e.insts[n].devices && d !in insts[n].devices ==>
          e.insts[n].devices[d].Gpu? && e.insts[n].devices[d].pci in healthy[..k][..m]
      {
        AttachAllKeepsOld(insts, n, healthy[..k], 0, f, d);
      }
      forall g | g in healthy[..k][..m] ensures exists d :: d !in insts[n].devices && HeldBy(e.insts, n, d, g) {
        AttachAllHas(insts, n, healthy[..k], 0, f, g);
      }
      if j :| 0 <= j < k && (n, healthy[j]) in f.attach { assert healthy[..k][j] == healthy[j] && m < k; }
      if m < k { assert (n, healthy[m]) in f.attach; }
      assert m == k ==> healthy[..k][..m] == healthy[..k];
    }
  }

  /** A start raises iff the share, the acquisition or the start command fails, or
      there is nothing to start or it runs already. Otherwise the instance runs with
      its devices and the GPUs it lacked, and no other instance changes. */
  lemma StartExact(pool: seq<string>, insts: Instances, want: nat, n: string, f: Faults)
    ensures var e := BringUp(pool, insts, want, n, f);
      && (e.raised <==>
            || n !in insts || insts[n].running || n in f.nas || n in f.start
            || AcquireFails(pool, insts, want, n, f))
      && (!e.raised ==> Acquired(pool, insts, want, n, f, e.insts) && e.insts[n].running)
  {
    if n in insts {
      AcquireEffect(pool, insts, want, n, f);
      var a, e := EnsureAttached(pool, insts, want, n, f), BringUp(pool, insts, want, n, f);
      if !e.raised {
        assert GpuDevices(e.insts[n]) == GpuDevices(a.insts[n]);
        assert forall d, g :: HeldBy(e.insts, n, d, g) <==> HeldBy(a.insts, n, d, g);
      }
    } else if n !in f.nas {
      assert Missing(insts, want, n) == 0;
    }
  }

  /** A restart is a start of the stopped instance: a running one is stopped first,
      and a failing stop ends it with nothing changed. One whose status could not be
      read is not stopped, and then cannot be started. */
  lemma RestartExact(pool: seq<string>, insts: Instances, want: nat, n: string, unseen: bool, f: Faults)
    ensures var e := Restart(pool, insts, want, n, unseen, f);
      if n !in insts || !insts[n].running then e == BringUp(pool, insts, want, n, f)
      else if unseen then e.raised
      else if n in f.stop then e == Effect(insts, true)
      else e == BringUp(pool, Powered(insts, n, false), want, n, f)
  {
    StartExact(pool, insts, want, n, f);
  }

  // ---------------------------------------------------------------------
  // Stop and destroy
  // ---------------------------------------------------------------------

  lemma {:induction false} ReleasedDevice(insts: Instances, n: string, f: Faults, d: string)
    requires n in insts && insts[n].isVm && !insts[n].running && !ReleaseFails(insts[n], n, f)
    ensures var e := Release(insts, n, f);
      && n in e.insts && (d in e.insts[n].devices <==> d in insts[n].devices && !insts[n].devices[d].Gpu?)
      && (d in e.insts[n].devices ==> e.insts[n].devices[d] == insts[n].devices[d])
  {
    if d in insts[n].devices {
      ReleaseInOrder(insts, n, f, d);
      assert !StopsBy(insts, n, f, d);
    } else {
      DetachNotThere(insts, n, Sorted(insts[n].devices.Keys), f, d);
    }
  }

  /** A release that does not fail strips a stopped VM of its GPUs and of nothing else. */
  lemma {:induction false} ReleaseStripsUnlessFailing(insts: Instances, n: string, f: Faults)
    requires n in insts && insts[n].isVm && !insts[n].running && !ReleaseFails(insts[n], n, f)
    ensures Release(insts, n, f) == Effect(insts[n := Stripped(insts[n])], false)
  {
    var e := Release(insts, n, f);
    ReleaseExact(insts, n, f);
    ReleaseLocal(insts, insts, n, f);
    forall d
      ensures d in e.insts[n].devices <==> d in insts[n].devices && !insts[n].devices[d].Gpu?
      ensures d in e.insts[n].devices ==> e.insts[n].devices[d] == insts[n].devices[d]
    {
      ReleasedDevice(insts, n, f, d);
    }
    assert e.insts[n].devices == Stripped(insts[n]).devices;
  }

  /** A stop raises iff there is nothing running under the name, the command fails,
      or the release asked for fails. Unless it was the stop that failed the instance
      is off afterwards. Without a release it keeps its devices, with one a VM has
      lost exactly its GPUs; no other instance changes. */
  lemma StopExact(insts: Instances, n: string, release: bool, f: Faults)
    ensures var e := StopAndMaybeRelease(insts, n, release, f);
      if n !in insts || !insts[n].running || n in f.stop then e == Effect(insts, true)
      else
        && (e.raised <==> release && (n in f.unlisted || (insts[n].isVm && DetachFails(insts[n], n, f))))
        && n in e.insts && e.insts == insts[n := e.insts[n]] && !e.insts[n].running && e.insts[n].isVm == insts[n].isVm
        && (!release || !insts[n].isVm ==> e.insts[n].devices == insts[n].devices)
        && (release && insts[n].isVm && !e.raised ==>
              e.insts[n].devices == map d | d in insts[n].devices && !insts[n].devices[d].Gpu? :: insts[n].devices[d])
  {
    if n in insts && insts[n].running && n !in f.stop {
      var off := Powered(insts, n, false);
      ReleaseLocal(off, off, n, f);
      assert DetachFails(off[n], n, f) == DetachFails(insts[n], n, f);
      if release && insts[n].isVm {
        ReleaseExact(off, n, f);
        if !ReleaseFails(off[n], n, f) { ReleaseStripsUnlessFailing(off, n, f); }
      }
    }
  }

  /** A destroy that raises has at most stopped the instance; one that does not has
      removed it and nothing else, or has not seen it. */
  lemma DestroyExact(insts: Instances, n: string, unseen: bool, deleteFails: bool, f: Faults)
    ensures var e := Destroy(insts, n, unseen, deleteFails, f);
      && (e.raised <==> n in insts && !unseen && ((insts[n].running && n in f.stop) || deleteFails))
      && (!e.raised ==> forall m :: Get(e.insts, m) == if m == n && !unseen then None else Get(insts, m))
      && (e.raised ==>
            && n in e.insts && e.insts == insts[n := e.insts[n]]
            && e.insts[n] == insts[n].(running := insts[n].running && n in f.stop))
  {
    if n in insts { assert insts == insts[n := insts[n]]; }
  }

  /** A release refuses a running VM, and has nothing to do for a container or an
      instance that is not there. */
  lemma ReleaseRefuses(insts: Instances, n: string, f: Faults)
    ensures n in insts && insts[n].isVm && insts[n].running ==> Release(insts, n, f) == Effect(insts, true)
    ensures n !in insts || !insts[n].isVm ==> Release(insts, n, f) == Effect(insts, n in f.unlisted)
  {
  }

  /** The operations a run is made of are the ones described here. */
  lemma {:induction false} OperationsAre(pool: seq<string>, insts: Instances, op: Op, f: Faults)
    ensures op.DoLaunch? ==>
      Do(pool, insts, op, f)
      == Launch(pool, insts, op.n, op.isVm, op.gpus, op.others, op.initFails, op.pinFails, f)
    ensures op.DoStart? ==> Do(pool, insts, op, f) == BringUp(pool, insts, op.want, op.n, f)
    ensures op.DoRestart? ==> Do(pool, insts, op, f) == Restart(pool, insts, op.want, op.n, op.unseen, f)
    ensures op.DoStop? ==> Do(pool, insts, op, f) == StopAndMaybeRelease(insts, op.n, op.release, f)
    ensures op.DoRelease? ==> Do(pool, insts, op, f) == Release(insts, op.n, f)
    ensures op.DoDestroy? ==> Do(pool, insts, op, f) == Destroy(insts, op.n, op.unseen, op.deleteFails, f)
  {
  }
}
