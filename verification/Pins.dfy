/** Pinning static addresses on existing instances without moving the guests
    that already hold one of their own. */
module Pins {
  import opened Basics

  /** An address on the instance bridge, or any other one. */
  datatype Address = OnBridge(octet: int) | Elsewhere(text: string)

  datatype Inst = Inst(name: string, pin: Option<Address>, live: Option<Address>)

  const POOL_START: int := 10
  const POOL_END: int := 200
  const BASTION: string := "bastion"

  function LowestFree(taken: set<Address>, i: int): (r: Option<Address>)
    ensures r.Some? ==> r.value.OnBridge? && i <= r.value.octet <= POOL_END && r.value !in taken
    ensures r.None? ==> forall j | i <= j <= POOL_END :: OnBridge(j) in taken
    decreases POOL_END - i
  {
    if i > POOL_END then None else if OnBridge(i) !in taken then Some(OnBridge(i)) else LowestFree(taken, i + 1)
  }

  /** `_pick_vm_ip`: the preferred address if nobody has it, else the lowest free. */
  function PickIp(prefer: Option<Address>, taken: set<Address>): (r: Option<Address>)
    ensures r.Some? ==> r.value !in taken
    ensures prefer.Some? && prefer.value !in taken ==> r == prefer
  {
    if prefer.Some? && prefer.value !in taken then prefer else LowestFree(taken, POOL_START)
  }

  method PickVmIp(prefer: Option<Address>, taken: set<Address>) returns (r: Option<Address>)
    ensures r == PickIp(prefer, taken)
    ensures prefer.Some? && prefer.value !in taken ==> r == prefer
    ensures !(prefer.Some? && prefer.value !in taken) && r.Some? ==>
      && r.value.OnBridge? && 10 <= r.value.octet <= 200 && r.value !in taken
      && forall i | 10 <= i < r.value.octet :: OnBridge(i) in taken
    ensures r.None? <==> !(prefer.Some? && prefer.value !in taken) && forall i | 10 <= i <= 200 :: OnBridge(i) in taken
  {
    if prefer.Some? && prefer.value !in taken { return prefer; }
    var i := POOL_START;
    while i <= POOL_END
      invariant POOL_START <= i <= POOL_END + 1
      invariant LowestFree(taken, i) == LowestFree(taken, POOL_START)
      invariant forall j | POOL_START <= j < i :: OnBridge(j) in taken
    {
      if OnBridge(i) !in taken { return Some(OnBridge(i)); }
      i := i + 1;
    }
    return None;
  }

  /** How many instances are live at an address. */
  function LiveCount(insts: seq<Inst>, a: Address): nat {
    if insts == [] then 0
    else LiveCount(insts[..|insts| - 1], a) + if insts[|insts| - 1].live == Some(a) then 1 else 0
  }

  predicate Unpinned(i: Inst) { i.pin.None? && i.name != BASTION }

  /** An unpinned instance whose live address is uniquely its own. */
  predicate OwnsLive(insts: seq<Inst>, i: Inst) {
    Unpinned(i) && i.live.Some? && LiveCount(insts, i.live.value) == 1
  }

  /** The unpinned instances of `part`, those that own their address or the others. */
  function Queue(insts: seq<Inst>, part: seq<Inst>, owners: bool): seq<Inst> {
    if part == [] then []
    else
      var i := part[|part| - 1];
      Queue(insts, part[..|part| - 1], owners) + if Unpinned(i) && OwnsLive(insts, i) == owners then [i] else []
  }

  function PinsOf(insts: seq<Inst>): set<Address> {
    set k | 0 <= k < |insts| && insts[k].pin.Some? :: insts[k].pin.value
  }

  datatype Pinned = Pinned(name: string, address: Address)

  datatype Outcome = Outcome(pins: seq<Pinned>, taken: set<Address>, exhausted: bool)

  /** The pinning loop; it stops where the pool is exhausted. */
  function Assign(queue: seq<Inst>, taken: set<Address>): Outcome {
    if queue == [] then Outcome([], taken, false)
    else
      var o := Assign(queue[..|queue| - 1], taken);
      var i := queue[|queue| - 1];
      var a := PickIp(i.live, o.taken);
      if o.exhausted then o
      else if a.None? then o.(exhausted := true)
      else Outcome(o.pins + [Pinned(i.name, a.value)], o.taken + {a.value}, false)
  }

  function Migrated(insts: seq<Inst>): Outcome {
    Assign(Queue(insts, insts, true) + Queue(insts, insts, false), PinsOf(insts))
  }

  method PinQueue(queue: seq<Inst>, pins: set<Address>) returns (o: Outcome)
    ensures o == Assign(queue, pins)
  {
    o := Outcome([], pins, false);
    for k := 0 to |queue|
      invariant !o.exhausted && o == Assign(queue[..k], pins)
    {
      assert queue[..k + 1][..k] == queue[..k];
      var a := PickVmIp(queue[k].live, o.taken);
      if a.None? {
        o := o.(exhausted := true);
        StopsThere(queue, pins, k + 1);
        return;
      }
      o := Outcome(o.pins + [Pinned(queue[k].name, a.value)], o.taken + {a.value}, false);
    }
    assert queue[..|queue|] == queue;
  }

  method PinExistingVms(insts: seq<Inst>) returns (o: Outcome)
    ensures o == Migrated(insts)
  {
    var first, later := [], [];
    for k := 0 to |insts|
      invariant first == Queue(insts, insts[..k], true) && later == Queue(insts, insts[..k], false)
    {
      assert insts[..k + 1][..k] == insts[..k];
      if Unpinned(insts[k]) {
        if OwnsLive(insts, insts[k]) { first := first + [insts[k]]; } else { later := later + [insts[k]]; }
      }
    }
    assert insts[..|insts|] == insts;
    o := PinQueue(first + later, PinsOf(insts));
  }

  lemma {:induction false} StopsThere(queue: seq<Inst>, taken: set<Address>, k: nat)
    requires k <= |queue| && Assign(queue[..k], taken).exhausted
    ensures Assign(queue, taken) == Assign(queue[..k], taken)
    decreases |queue| - k
  {
    if k == |queue| {
      assert queue[..k] == queue;
    } else {
      assert queue[..k + 1][..k] == queue[..k];
      StopsThere(queue, taken, k + 1);
    }
  }

  // ---------------------------------------------------------------------
  // Distinct pins
  // ---------------------------------------------------------------------

  lemma {:induction false} AssignDistinct(queue: seq<Inst>, taken: set<Address>)
    ensures var o := Assign(queue, taken);
      && taken <= o.taken && |o.pins| <= |queue| && (!o.exhausted ==> |o.pins| == |queue|)
      && (forall k | 0 <= k < |o.pins| :: o.pins[k].name == queue[k].name
                                          && o.pins[k].address !in taken && o.pins[k].address in o.taken)
      && (forall i, j | 0 <= i < j < |o.pins| :: o.pins[i].address != o.pins[j].address)
  {
    if queue != [] { AssignDistinct(queue[..|queue| - 1], taken); }
  }

  /** After the migration, finished or cut short, no two pins coincide: the new
      ones differ from each other and from every pin there was. */
  lemma PinsStayDistinct(insts: seq<Inst>)
    ensures var o := Migrated(insts);
      && (forall i, j | 0 <= i < j < |o.pins| :: o.pins[i].address != o.pins[j].address)
      && (forall i, k | 0 <= i < |o.pins| && 0 <= k < |insts| && insts[k].pin.Some? ::
            o.pins[i].address != insts[k].pin.value)
  {
    AssignDistinct(Queue(insts, insts, true) + Queue(insts, insts, false), PinsOf(insts));
    assert forall k | 0 <= k < |insts| && insts[k].pin.Some? :: insts[k].pin.value in PinsOf(insts);
  }

  // ---------------------------------------------------------------------
  // Guests keep their addresses
  // ---------------------------------------------------------------------

  lemma {:induction false} LiveCountAtLeast(insts: seq<Inst>, a: Address, i: nat, j: nat)
    requires i < |insts| && j < |insts| && insts[i].live == insts[j].live == Some(a)
    ensures LiveCount(insts, a) >= if i == j then 1 else 2
  {
    var init, k := insts[..|insts| - 1], |insts| - 1;
    if i < k && j < k { LiveCountAtLeast(init, a, i, j); }
    else if i < k { LiveCountAtLeast(init, a, i, i); }
    else if j < k { LiveCountAtLeast(init, a, j, j); }
  }

  /** Who stands at place `k` of the owners' queue. */
  lemma {:induction false} QueueFrom(insts: seq<Inst>, n: nat, k: nat) returns (j: nat)
    requires n <= |insts| && k < |Queue(insts, insts[..n], true)|
    ensures j < n && insts[j] == Queue(insts, insts[..n], true)[k] && OwnsLive(insts, insts[j])
    decreases n
  {
    assert insts[..n][..n - 1] == insts[..n - 1];
    if k < |Queue(insts, insts[..n - 1], true)| { j := QueueFrom(insts, n - 1, k); } else { j := n - 1; }
  }

  /** The owners' queue lists distinct live addresses. */
  lemma {:induction false} OwnersDistinct(insts: seq<Inst>, n: nat, a: nat, b: nat)
    requires n <= |insts| && a < b < |Queue(insts, insts[..n], true)|
    ensures Queue(insts, insts[..n], true)[a].live != Queue(insts, insts[..n], true)[b].live
    decreases n
  {
    assert insts[..n][..n - 1] == insts[..n - 1];
    if b < |Queue(insts, insts[..n - 1], true)| {
      OwnersDistinct(insts, n - 1, a, b);
    } else {
      var j := QueueFrom(insts, n - 1, a);
      if insts[j].live == insts[n - 1].live { LiveCountAtLeast(insts, insts[j].live.value, j, n - 1); }
    }
  }

  /** Queued instances with distinct, untaken live addresses all keep them. */
  lemma {:induction false} AssignKeeps(queue: seq<Inst>, taken: set<Address>)
    requires forall k | 0 <= k < |queue| :: queue[k].live.Some? && queue[k].live.value !in taken
    requires forall i, j | 0 <= i < j < |queue| :: queue[i].live != queue[j].live
    ensures var o := Assign(queue, taken);
      && !o.exhausted && |o.pins| == |queue|
      && (forall k | 0 <= k < |queue| :: o.pins[k] == Pinned(queue[k].name, queue[k].live.value))
      && (forall a | a in o.taken :: a in taken || exists k | 0 <= k < |queue| :: queue[k].live.value == a)
  {
    if queue != [] {
      var init, i := queue[..|queue| - 1], queue[|queue| - 1];
      AssignKeeps(init, taken);
      var o, p := Assign(init, taken), Assign(queue, taken);
      forall k | 0 <= k < |init| ensures init[k].live.value != i.live.value { assert queue[k].live == init[k].live; }
      assert i.live.value !in o.taken;
      forall a | a in p.taken ensures a in taken || exists k | 0 <= k < |queue| :: queue[k].live.value == a {
        if a in o.taken && a !in taken {
          var k :| 0 <= k < |init| && init[k].live.value == a;
          assert queue[k].live.value == a;
        } else if a !in taken {
          assert queue[|queue| - 1].live.value == a;
        }
      }
    }
  }

  lemma {:induction false} AssignPrefix(a: seq<Inst>, b: seq<Inst>, taken: set<Address>)
    requires !Assign(a, taken).exhausted
    ensures Assign(a, taken).pins <= Assign(a + b, taken).pins
  {
    if b == [] {
      assert a + b == a;
    } else {
      assert (a + b)[..|a + b| - 1] == a + b[..|b| - 1];
      AssignPrefix(a, b[..|b| - 1], taken);
    }
  }

  /** Every instance that owns its live address has it as its new pin. */
  ghost predicate OwnersKeep(insts: seq<Inst>) {
    var q, o := Queue(insts, insts, true), Migrated(insts);
    |q| <= |o.pins| && forall k | 0 <= k < |q| :: o.pins[k].name == q[k].name && Some(o.pins[k].address) == q[k].live
  }

  predicate NotPinned(i: Inst, pins: set<Address>) { i.live.Some? && i.live.value !in pins }

  /** All guests with an address of their own keep it through the migration iff
      none of those addresses is already somebody's pin. */
  lemma OwnersKeepIff(insts: seq<Inst>)
    ensures OwnersKeep(insts) <==>
      forall k | 0 <= k < |Queue(insts, insts, true)| :: NotPinned(Queue(insts, insts, true)[k], PinsOf(insts))
  {
    var q, rest, taken := Queue(insts, insts, true), Queue(insts, insts, false), PinsOf(insts);
    assert insts[..|insts|] == insts;
    forall a, b | 0 <= a < b < |q| ensures q[a].live != q[b].live { OwnersDistinct(insts, |insts|, a, b); }
    forall k | 0 <= k < |q| ensures OwnsLive(insts, q[k]) { var j := QueueFrom(insts, |insts|, k); }
    AssignDistinct(q + rest, taken);
    if forall k | 0 <= k < |q| :: NotPinned(q[k], taken) {
      AssignKeeps(q, taken);
      AssignPrefix(q, rest, taken);
    }
  }

  /** A guest whose own live address is the pin of another is moved. */
  lemma PinnedElsewhereMoves()
    ensures var insts := [Inst("a", Some(OnBridge(20)), None), Inst("b", None, Some(OnBridge(20)))];
      OwnsLive(insts, insts[1]) && !OwnersKeep(insts)
  {
    var a, b := Inst("a", Some(OnBridge(20)), None), Inst("b", None, Some(OnBridge(20)));
    var insts := [a, b];
    assert insts[..1] == [a] && [a][..0] == [] && insts[..2] == insts;
    assert LiveCount([a], OnBridge(20)) == LiveCount([a][..0], OnBridge(20)) + 0;
    assert LiveCount(insts, OnBridge(20)) == LiveCount(insts[..1], OnBridge(20)) + 1 == 1;
    assert Queue(insts, [a], true) == [] && Queue(insts, insts, true) == Queue(insts, insts[..1], true) + [b] == [b];
    assert insts[0].pin.value in PinsOf(insts);
    assert !NotPinned(Queue(insts, insts, true)[0], PinsOf(insts));
    OwnersKeepIff(insts);
  }

  // ---------------------------------------------------------------------
  // Who is pinned
  // ---------------------------------------------------------------------

  lemma {:induction false} QueuedIs(insts: seq<Inst>, part: seq<Inst>, owners: bool, i: Inst)
    ensures i in Queue(insts, part, owners) <==> i in part && Unpinned(i) && OwnsLive(insts, i) == owners
  {
    if part != [] {
      assert part == part[..|part| - 1] + [part[|part| - 1]];
      QueuedIs(insts, part[..|part| - 1], owners, i);
    }
  }

  /** A migration that is not cut short pins every instance that had no pin, except the
      bastion, and nothing else; it is cut short only when every address of the pool
      is pinned. */
  lemma EveryGuestPinned(insts: seq<Inst>, name: string)
    ensures var o := Migrated(insts);
      && (!o.exhausted ==>
            ((exists k | 0 <= k < |o.pins| :: o.pins[k].name == name)
             <==> name != "bastion" && exists i | i in insts :: i.name == name && i.pin == None))
      && (o.exhausted ==> forall a | 10 <= a <= 200 :: OnBridge(a) in o.taken)
  {
    var first, later, o := Queue(insts, insts, true), Queue(insts, insts, false), Migrated(insts);
    AssignDistinct(first + later, PinsOf(insts));
    ExhaustedIsFull(first + later, PinsOf(insts));
    if !o.exhausted {
      if k :| 0 <= k < |o.pins| && o.pins[k].name == name {
        var i := (first + later)[k];
        QueuedIs(insts, insts, true, i);
        QueuedIs(insts, insts, false, i);
        assert i in insts && i.name == name && i.pin == None;
      }
      if i :| i in insts && i.name == name && i.pin == None && name != "bastion" {
        QueuedIs(insts, insts, true, i);
        QueuedIs(insts, insts, false, i);
        assert i in first + later;
        var k :| 0 <= k < |first + later| && (first + later)[k] == i;
        assert o.pins[k].name == name;
      }
    }
  }

  lemma {:induction false} ExhaustedIsFull(queue: seq<Inst>, taken: set<Address>)
    ensures var o := Assign(queue, taken); o.exhausted ==> forall a | 10 <= a <= 200 :: OnBridge(a) in o.taken
  {
    if queue != [] { ExhaustedIsFull(queue[..|queue| - 1], taken); }
  }

  // ---------------------------------------------------------------------
  // New pins and the live addresses of others
  // ---------------------------------------------------------------------

  /** The pins that stand when the `k`-th guest of a queue gets its own. */
  function StandingPins(queue: seq<Inst>, pins: set<Address>, k: nat): set<Address>
    requires k <= |Assign(queue, pins).pins|
  {
    pins + set i | 0 <= i < k :: Assign(queue, pins).pins[i].address
  }

  lemma {:induction false} AssignTaken(queue: seq<Inst>, pins: set<Address>)
    ensures var o := Assign(queue, pins); o.taken == StandingPins(queue, pins, |o.pins|)
  {
    if queue != [] {
      var init := queue[..|queue| - 1];
      AssignTaken(init, pins);
      var o, p := Assign(init, pins), Assign(queue, pins);
      forall a ensures a in p.taken <==> a in StandingPins(queue, pins, |p.pins|) {
        assert a in o.taken <==> a in StandingPins(init, pins, |o.pins|);
        if |p.pins| > |o.pins| {
          assert p.pins[..|o.pins|] == o.pins && p.taken == o.taken + {p.pins[|o.pins|].address};
        }
        if a in StandingPins(init, pins, |o.pins|) && a !in pins {
          var i :| 0 <= i < |o.pins| && o.pins[i].address == a;
          assert p.pins[i].address == a;
        }
      }
    }
  }

  /** One more guest leaves the pins before it as they were. */
  lemma {:induction false} AssignGrows(queue: seq<Inst>, pins: set<Address>, k: nat)
    requires queue != [] && k <= |Assign(queue[..|queue| - 1], pins).pins|
    ensures Assign(queue[..|queue| - 1], pins).pins <= Assign(queue, pins).pins
    ensures StandingPins(queue[..|queue| - 1], pins, k) == StandingPins(queue, pins, k)
  {
    var o, p := Assign(queue[..|queue| - 1], pins), Assign(queue, pins);
    assert o.pins <= p.pins;
    assert forall i | 0 <= i < k :: o.pins[i] == p.pins[i];
  }

  lemma {:induction false} LastPicked(queue: seq<Inst>, pins: set<Address>)
    requires queue != [] && |Assign(queue[..|queue| - 1], pins).pins| < |Assign(queue, pins).pins|
    ensures var k := |queue| - 1;
      && |Assign(queue[..k], pins).pins| == k && |Assign(queue, pins).pins| == k + 1
      && PickIp(queue[k].live, Assign(queue[..k], pins).taken) == Some(Assign(queue, pins).pins[k].address)
  {
    AssignDistinct(queue[..|queue| - 1], pins);
  }

  /** Each pin is picked against the pins standing then. */
  lemma {:induction false} PickedAgainst(queue: seq<Inst>, pins: set<Address>, k: nat)
    requires k < |Assign(queue, pins).pins| <= |queue|
    ensures PickIp(queue[k].live, StandingPins(queue, pins, k)) == Some(Assign(queue, pins).pins[k].address)
  {
    var init := queue[..|queue| - 1];
    if k < |Assign(init, pins).pins| {
      AssignDistinct(init, pins);
      PickedAgainst(init, pins, k);
      AssignGrows(queue, pins, k);
    } else {
      LastPicked(queue, pins);
      AssignTaken(init, pins);
      AssignGrows(queue, pins, k);
    }
  }

  /** Exactly when a new pin is some given address, say another instance's live
      one: no pin has it yet, and either the guest is live there itself or it has
      no address it can keep and every lower address of the pool is pinned. Live
      addresses of others, the bastion's included, play no part. */
  lemma NewPinIff(insts: seq<Inst>, k: nat, a: Address)
    requires k < |Migrated(insts).pins|
    ensures var q := Queue(insts, insts, true) + Queue(insts, insts, false);
      k < |q| && var standing, live := StandingPins(q, PinsOf(insts), k), q[k].live;
      Migrated(insts).pins[k].address == a <==>
        && a !in standing
        && (|| live == Some(a)
            || ((live.Some? ==> live.value in standing)
                && a.OnBridge? && POOL_START <= a.octet <= POOL_END
                && forall i | POOL_START <= i < a.octet :: OnBridge(i) in standing))
  {
    var q := Queue(insts, insts, true) + Queue(insts, insts, false);
    AssignDistinct(q, PinsOf(insts));
    PickedAgainst(q, PinsOf(insts), k);
    LowestFreeIs(StandingPins(q, PinsOf(insts), k), POOL_START, a);
  }

  lemma {:induction false} LowestFreeIs(taken: set<Address>, i: int, a: Address)
    ensures LowestFree(taken, i) == Some(a) <==>
      a !in taken && a.OnBridge? && i <= a.octet <= POOL_END && forall j | i <= j < a.octet :: OnBridge(j) in taken
    decreases POOL_END - i
  {
    if i <= POOL_END && OnBridge(i) in taken {
      LowestFreeIs(taken, i + 1, a);
    } else if i <= POOL_END && a.OnBridge? && i < a.octet {
      assert OnBridge(i) !in taken;
    }
  }

  predicate InPool(a: Address) { a.OnBridge? && POOL_START <= a.octet <= POOL_END }

  predicate UnpinnedAt(insts: seq<Inst>, a: Address) {
    exists j | 0 <= j < |insts| :: Unpinned(insts[j]) && insts[j].live == Some(a)
  }

  /** The live address of `i` cannot go to anybody else: it is its own and nobody's
      pin, or somebody's pin without being its own, or outside the pool and not the
      address of a guest that is to be pinned. */
  predicate LiveIsSafe(insts: seq<Inst>, i: Inst) {
    i.live.Some? ==>
      if OwnsLive(insts, i) then i.live.value !in PinsOf(insts)
      else i.live.value in PinsOf(insts) || (!InPool(i.live.value) && !UnpinnedAt(insts, i.live.value))
  }

  /** Where an owner stands in the owners' queue. */
  lemma {:induction false} QueueHas(insts: seq<Inst>, n: nat, m: nat) returns (k: nat)
    requires m < n <= |insts| && OwnsLive(insts, insts[m])
    ensures k < |Queue(insts, insts[..n], true)| && Queue(insts, insts[..n], true)[k] == insts[m]
    decreases n
  {
    assert insts[..n][..n - 1] == insts[..n - 1];
    if m == n - 1 { k := |Queue(insts, insts[..n - 1], true)|; } else { k := QueueHas(insts, n - 1, m); }
  }

  /** Who stands at place `k` of the other queue. */
  lemma {:induction false} LaterFrom(insts: seq<Inst>, n: nat, k: nat) returns (j: nat)
    requires n <= |insts| && k < |Queue(insts, insts[..n], false)|
    ensures j < n && insts[j] == Queue(insts, insts[..n], false)[k] && Unpinned(insts[j])
    decreases n
  {
    assert insts[..n][..n - 1] == insts[..n - 1];
    if k < |Queue(insts, insts[..n - 1], false)| { j := LaterFrom(insts, n - 1, k); } else { j := n - 1; }
  }

  /** The guest that gets the `k`-th pin. */
  lemma PinnedGuest(insts: seq<Inst>, k: nat) returns (j: nat)
    requires k < |Migrated(insts).pins|
    ensures var q := Queue(insts, insts, true) + Queue(insts, insts, false);
      && k < |q| && j < |insts| && insts[j] == q[k] && Unpinned(insts[j])
      && insts[j].name == Migrated(insts).pins[k].name
      && (k < |Queue(insts, insts, true)| ==> OwnsLive(insts, insts[j]))
  {
    var first, later := Queue(insts, insts, true), Queue(insts, insts, false);
    assert insts[..|insts|] == insts;
    AssignDistinct(first + later, PinsOf(insts));
    if k < |first| { j := QueueFrom(insts, |insts|, k); } else { j := LaterFrom(insts, |insts|, k - |first|); }
  }

  /** If every owner's address is nobody's pin, the owners have theirs. */
  lemma OwnerHasPin(insts: seq<Inst>, m: nat) returns (k: nat)
    requires (forall i | i in insts :: LiveIsSafe(insts, i)) && m < |insts| && OwnsLive(insts, insts[m])
    ensures k < |Migrated(insts).pins| && k < |Queue(insts, insts, true)|
    ensures Migrated(insts).pins[k] == Pinned(insts[m].name, insts[m].live.value)
  {
    assert insts[..|insts|] == insts;
    k := QueueHas(insts, |insts|, m);
    forall i | 0 <= i < |Queue(insts, insts, true)| ensures NotPinned(Queue(insts, insts, true)[i], PinsOf(insts)) {
      var j := QueueFrom(insts, |insts|, i);
      assert insts[j] in insts;
    }
    OwnersKeepIff(insts);
  }

  /** No pin goes to a live address of another instance when every live address is
      safe, which can be told from the instances alone. */
  lemma NoForeignPin(insts: seq<Inst>, k: nat, m: nat)
    requires forall i | i in insts :: LiveIsSafe(insts, i)
    requires k < |Migrated(insts).pins| && m < |insts| && insts[m].name != Migrated(insts).pins[k].name
    ensures insts[m].live != Some(Migrated(insts).pins[k].address)
  {
    var a := Migrated(insts).pins[k].address;
    var j := PinnedGuest(insts, k);
    PinsStayDistinct(insts);
    assert insts[m] in insts && LiveIsSafe(insts, insts[m]);
    NewPinIff(insts, k, a);
    if OwnsLive(insts, insts[m]) { var i := OwnerHasPin(insts, m); }
  }

  /** So a stopped guest is pinned onto the live address of the unpinned bastion. */
  lemma BastionAddressGiven()
    ensures var insts := [Inst(BASTION, None, Some(OnBridge(10))), Inst("v", None, None)];
      var o := Migrated(insts);
      !o.exhausted && o.pins == [Pinned("v", OnBridge(10))]
  {
    var b, v := Inst(BASTION, None, Some(OnBridge(10))), Inst("v", None, None);
    var insts := [b, v];
    assert insts[..1] == [b] && [b][..0] == [] && [v][..0] == [];
    assert Queue(insts, [b], true) == [] && Queue(insts, insts, true) == [];
    assert Queue(insts, [b], false) == [] && Queue(insts, insts, false) == [v];
    assert PinsOf(insts) == {} && [] + [v] == [v];
    assert Assign([v], {}) == Outcome([Pinned("v", OnBridge(10))], {OnBridge(10)}, false);
  }
}
