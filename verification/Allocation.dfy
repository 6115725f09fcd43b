/** Node allocation by compare-and-swap. Admin API creators and DHCP allocators
    share one store with two indexes; each attempt is split at its etcd calls so
    that any number of them can interleave. */
module Allocation {
  import opened Basics
  import opened NodeNames

  datatype Record = Record(hostname: Hostname, kind: NodeType, ip: Ip, mac: string, viaWg: bool)

  /** A stored value with the revision that last wrote it. */
  datatype Entry = Entry(rec: Record, mod: nat)

  /** An absent key is one whose etcd version is zero. */
  datatype Store = Store(byMac: map<string, Entry>, byHost: map<Hostname, Entry>, rev: nat)

  // ---------------------------------------------------------------------
  // One allocator, step by step
  // ---------------------------------------------------------------------

  /** Where an allocator stands: what it has read so far and which etcd call it
      makes next. `tries` counts the attempts left, the current one included.
      `found` is the by-mac entry a DHCP attempt read, `nameRev` the revision of
      a by-hostname entry it validated as its own. */
  datatype Proc =
    | CreatorLooks(mac: string, kind: NodeType, viaWg: bool)
    | CreatorPicks(mac: string, kind: NodeType, viaWg: bool, tries: nat)
    | CreatorCommits(rec: Record, tries: nat)
    | CreatorRechecks(mac: string, kind: NodeType, viaWg: bool, tries: nat)
    | DhcpLooks(mac: string, kind: NodeType, requested: Option<Hostname>, tries: nat)
    | DhcpNames(mac: string, kind: NodeType, requested: Option<Hostname>, tries: nat, found: Option<Entry>,
                want: Hostname)
    | DhcpPicks(mac: string, kind: NodeType, requested: Option<Hostname>, tries: nat, found: Option<Entry>)
    | DhcpCommits(rec: Record, kind: NodeType, requested: Option<Hostname>, tries: nat, found: Option<Entry>,
                  nameRev: Option<nat>)
    | Finished(rec: Record)
    | Failed

  const CREATOR_TRIES: nat := 5
  const DHCP_TRIES: nat := 3

  predicate Fresh(p: Proc) {
    p.CreatorLooks? || (p.DhcpLooks? && p.tries == DHCP_TRIES)
  }

  /** Anything ending in 'a' is taken for a management name, and those are never
      handed out over DHCP; an empty request is none. */
  predicate Ignored(h: Hostname) {
    match h
    case Node(_, _, _, amt) => amt
    case Dynamic(_) => false
    case Unrecognised(text) => text == "" || text[|text| - 1] == 'a'
  }

  function Wanted(requested: Option<Hostname>): Option<Hostname> {
    if requested.Some? && Ignored(requested.value) then None else requested
  }

  /** A request counts unless it is empty or ends in 'a', as management names do. */
  lemma RequestCounts(h: Hostname)
    ensures h.Node? ==> Wanted(Some(h)) == (if h.amt then None else Some(h))
    ensures h.Dynamic? ==> Wanted(Some(h)) == Some(h)
    ensures Wanted(Some(Unrecognised(""))) == None && Wanted(Some(Unrecognised("alpha"))) == None
    ensures Wanted(Some(Unrecognised("laptop"))) == Some(Unrecognised("laptop")) && Wanted(None) == None
  {
  }

  /** The type a requested name stands for. */
  function TypeOfName(h: Hostname): NodeType {
    if !h.Node? then Compute
    else match h.prefix
      case S => Storage
      case C => Compute
      case M => Macos
      case Nv => Nvidia
      case Nas => NasBox
      case D => Compute
      case X => Adhoc
  }

  /** Types follow the prefix; prefixes without a type of their own are compute. */
  lemma TypePlan(n: int, spelling: nat, amt: bool)
    ensures TypeOfName(Node(S, n, spelling, amt)) == Storage && TypeOfName(Node(C, n, spelling, amt)) == Compute
    ensures TypeOfName(Node(M, n, spelling, amt)) == Macos && TypeOfName(Node(Nv, n, spelling, amt)) == Nvidia
    ensures TypeOfName(Node(Nas, n, spelling, amt)) == NasBox && TypeOfName(Node(X, n, spelling, amt)) == Adhoc
  {
  }

  /** The first octet of the dynamic range, from `o` on, that is not taken. */
  function NextDynamic(taken: set<int>, o: int): (r: Option<int>)
    ensures r.Some? ==> o <= r.value <= DYNAMIC_END && r.value !in taken
    ensures r.Some? ==> forall x | o <= x < r.value :: x in taken
    ensures r.None? ==> forall x | o <= x <= DYNAMIC_END :: x in taken
    decreases DYNAMIC_END - o
  {
    if o > DYNAMIC_END then None
    else if o !in taken then Some(o)
    else NextDynamic(taken, o + 1)
  }

  function Octets(s: Store): set<int> { set h | h in s.byHost :: s.byHost[h].rec.ip.octet }

  method GetNextDynamicIp(taken: set<int>) returns (r: Option<int>)
    ensures r == NextDynamic(taken, DYNAMIC_START)
    ensures r.Some? ==> 200 <= r.value <= 249 && r.value !in taken && forall x | 200 <= x < r.value :: x in taken
    ensures r.None? ==> forall x | 200 <= x <= 249 :: x in taken
  {
    var o := DYNAMIC_START;
    while o <= DYNAMIC_END && o in taken
      invariant DYNAMIC_START <= o <= DYNAMIC_END + 1
      invariant NextDynamic(taken, o) == NextDynamic(taken, DYNAMIC_START)
    {
      o := o + 1;
    }
    return if o <= DYNAMIC_END then Some(o) else None;
  }

  /** Both indexes written in one transaction. */
  function Put(s: Store, rec: Record): Store {
    var e := Entry(rec, s.rev + 1);
    Store(s.byMac[rec.mac := e], s.byHost[rec.hostname := e], s.rev + 1)
  }

  predicate CreatorCompares(s: Store, rec: Record) {
    rec.mac !in s.byMac && rec.hostname !in s.byHost
  }

  predicate DhcpCompares(s: Store, rec: Record, found: Option<Entry>, nameRev: Option<nat>) {
    && (if found.Some? then rec.mac in s.byMac && s.byMac[rec.mac].mod == found.value.mod
        else rec.mac !in s.byMac)
    && (if nameRev.Some? then rec.hostname in s.byHost && s.byHost[rec.hostname].mod == nameRev.value
        else rec.hostname !in s.byHost)
  }

  /** The DHCP transaction also retires the name the MAC had before. */
  function Reallocate(s: Store, rec: Record, found: Option<Entry>): Store {
    var t := Put(s, rec);
    if found.Some? && found.value.rec.hostname != rec.hostname
    then t.(byHost := t.byHost - {found.value.rec.hostname})
    else t
  }

  /** One etcd call of one allocator. `listing` is the by-hostname listing the
      call would return, `leased` the octets in the DHCP server's lease table. */
  function Step(s: Store, p: Proc, listing: seq<Hostname>, leased: set<int>): (Store, Proc) {
    match p
    case CreatorLooks(mac, kind, viaWg) =>
      (s, if mac in s.byMac then Finished(s.byMac[mac].rec) else CreatorPicks(mac, kind, viaWg, CREATOR_TRIES))
    case CreatorPicks(mac, kind, viaWg, tries) =>
      if tries == 0 then (s, Failed)
      else
        var h := NextName(listing, kind);
        var a := ApiAddress(h, viaWg);
        (s, if a.Address? then CreatorCommits(Record(h, kind, a.ip, mac, viaWg), tries) else Failed)
    case CreatorCommits(rec, tries) =>
      if CreatorCompares(s, rec) then (Put(s, rec), Finished(rec))
      else (s, CreatorRechecks(rec.mac, rec.kind, rec.viaWg, if tries == 0 then 0 else tries - 1))
    case CreatorRechecks(mac, kind, viaWg, tries) =>
      (s, if mac in s.byMac then Finished(s.byMac[mac].rec) else CreatorPicks(mac, kind, viaWg, tries))
    case DhcpLooks(mac, kind, requested, tries) =>
      var want := Wanted(requested);
      if tries == 0 then (s, Failed)
      else if mac in s.byMac && (want.None? || s.byMac[mac].rec.hostname == want.value)
      then (s, Finished(s.byMac[mac].rec))
      else
        var found := Get(s.byMac, mac);
        (s, if want.Some? && DhcpAddress(want.value).Some?
            then DhcpNames(mac, kind, requested, tries, found, want.value)
            else DhcpPicks(mac, kind, requested, tries, found))
    case DhcpNames(mac, kind, requested, tries, found, want) =>
      var ip := DhcpAddress(want);
      if ip.None? || (want in s.byHost && s.byHost[want].rec.mac != mac)
      then (s, DhcpPicks(mac, kind, requested, tries, found))
      else
        var rec := Record(want, TypeOfName(want), ip.value, mac, false);
        (s, DhcpCommits(rec, kind, requested, tries, found,
                        if want in s.byHost then Some(s.byHost[want].mod) else None))
    case DhcpPicks(mac, kind, requested, tries, found) =>
      var o := NextDynamic(Octets(s) + leased, DYNAMIC_START);
      (s, if o.None? then Failed
          else DhcpCommits(Record(Dynamic(o.value), kind, Ip(Lan, o.value), mac, false),
                           kind, requested, tries, found, None))
    case DhcpCommits(rec, kind, requested, tries, found, nameRev) =>
      if DhcpCompares(s, rec, found, nameRev) then (Reallocate(s, rec, found), Finished(rec))
      else (s, DhcpLooks(rec.mac, kind, requested, if tries == 0 then 0 else tries - 1))
    case Finished(_) => (s, p)
    case Failed => (s, p)
  }

  // ---------------------------------------------------------------------
  // All allocators together
  // ---------------------------------------------------------------------

  datatype System = System(store: Store, procs: map<nat, Proc>)

  /** Either a new allocator appears or some allocator makes its next call. */
  datatype Action =
    | Spawn(pid: nat, proc: Proc)
    | Advance(pid: nat, listing: seq<Hostname>, leased: set<int>)

  predicate Lists(listing: seq<Hostname>, s: Store) {
    NoDuplicates(listing) && (forall h | h in listing :: h in s.byHost) && (forall h | h in s.byHost :: h in listing)
  }

  /** An action that does not apply changes nothing. */
  function Next(x: System, a: Action): System {
    match a
    case Spawn(pid, proc) =>
      if pid in x.procs || !Fresh(proc) then x else x.(procs := x.procs[pid := proc])
    case Advance(pid, listing, leased) =>
      if pid !in x.procs || !Lists(listing, x.store) then x
      else
        var (store, proc) := Step(x.store, x.procs[pid], listing, leased);
        System(store, x.procs[pid := proc])
  }

  function Run(x: System, actions: seq<Action>): System {
    if actions == [] then x else Next(Run(x, actions[..|actions| - 1]), actions[|actions| - 1])
  }

  // ---------------------------------------------------------------------
  // The two indexes mirror each other
  // ---------------------------------------------------------------------

  /** Each hostname entry is the entry of the MAC it names, and vice versa. */
  ghost predicate Mirror(s: Store) {
    && (forall m | m in s.byMac ::
          var r := s.byMac[m].rec; r.mac == m && r.hostname in s.byHost && s.byHost[r.hostname].rec == r)
    && (forall h | h in s.byHost ::
          var r := s.byHost[h].rec; r.hostname == h && r.mac in s.byMac && s.byMac[r.mac].rec == r)
  }

  ghost predicate Stamped(s: Store) {
    && (forall m | m in s.byMac :: s.byMac[m].mod <= s.rev)
    && (forall h | h in s.byHost :: s.byHost[h].mod <= s.rev)
  }

  /** What an allocator read still stands whenever the revision it remembers does. */
  ghost predicate ReadHolds(s: Store, mac: string, found: Option<Entry>) {
    found.Some? ==>
      && found.value.mod <= s.rev
      && (mac in s.byMac && s.byMac[mac].mod == found.value.mod ==> s.byMac[mac].rec == found.value.rec)
  }

  ghost predicate NameHolds(s: Store, mac: string, h: Hostname, nameRev: Option<nat>) {
    nameRev.Some? ==>
      && nameRev.value <= s.rev
      && (h in s.byHost && s.byHost[h].mod == nameRev.value ==> s.byHost[h].rec.mac == mac)
  }

  ghost predicate Remembers(s: Store, p: Proc) {
    match p
    case DhcpNames(mac, _, _, _, found, _) => ReadHolds(s, mac, found)
    case DhcpPicks(mac, _, _, _, found) => ReadHolds(s, mac, found)
    case DhcpCommits(rec, _, _, _, found, nameRev) =>
      ReadHolds(s, rec.mac, found) && NameHolds(s, rec.mac, rec.hostname, nameRev)
    case _ => true
  }

  ghost predicate Coherent(x: System) {
    Mirror(x.store) && Stamped(x.store) && forall pid | pid in x.procs :: Remembers(x.store, x.procs[pid])
  }

  lemma CreatorCommitMirrors(s: Store, rec: Record)
    requires Mirror(s) && CreatorCompares(s, rec)
    ensures Mirror(Put(s, rec))
  {
  }

  /** The DHCP transaction: its compares pin down that the retired name and the
      claimed name both belong to this MAC, so no other record loses its mirror. */
  lemma DhcpCommitMirrors(s: Store, rec: Record, found: Option<Entry>, nameRev: Option<nat>)
    requires Mirror(s) && ReadHolds(s, rec.mac, found) && NameHolds(s, rec.mac, rec.hostname, nameRev)
    requires DhcpCompares(s, rec, found, nameRev)
    ensures Mirror(Reallocate(s, rec, found))
  {
    var t := Reallocate(s, rec, found);
    if rec.hostname in s.byHost {
      assert s.byMac[rec.mac].rec == s.byHost[rec.hostname].rec;
    }
    forall m | m in t.byMac
      ensures var r := t.byMac[m].rec; r.mac == m && r.hostname in t.byHost && t.byHost[r.hostname].rec == r
    {
      if m != rec.mac {
        var r := s.byMac[m].rec;
        assert s.byHost[r.hostname].rec == r;
        assert r.hostname != rec.hostname;
        assert found.Some? ==> r.hostname != found.value.rec.hostname;
      }
    }
    forall h | h in t.byHost
      ensures var r := t.byHost[h].rec; r.hostname == h && r.mac in t.byMac && t.byMac[r.mac].rec == r
    {
      if h != rec.hostname {
        assert s.byHost[h].rec.mac != rec.mac;
      }
    }
  }

  /** A commit writes at a revision nobody remembers, so every memory survives. */
  lemma CommitRemembers(s: Store, rec: Record, found: Option<Entry>, p: Proc)
    requires Remembers(s, p)
    ensures Remembers(Put(s, rec), p)
    ensures Remembers(Reallocate(s, rec, found), p)
  {
  }

  lemma StepCoherent(s: Store, p: Proc, listing: seq<Hostname>, leased: set<int>)
    requires Mirror(s) && Stamped(s) && Remembers(s, p)
    ensures var (t, q) := Step(s, p, listing, leased); Mirror(t) && Stamped(t) && Remembers(t, q)
    ensures forall other | Remembers(s, other) :: Remembers(Step(s, p, listing, leased).0, other)
  {
    if p.CreatorCommits? && CreatorCompares(s, p.rec) {
      CreatorCommitMirrors(s, p.rec);
      forall other | Remembers(s, other) { CommitRemembers(s, p.rec, None, other); }
    } else if p.DhcpCommits? && DhcpCompares(s, p.rec, p.found, p.nameRev) {
      DhcpCommitMirrors(s, p.rec, p.found, p.nameRev);
      forall other | Remembers(s, other) { CommitRemembers(s, p.rec, p.found, other); }
    }
  }

  /** Under every interleaving of any number of creators and DHCP allocators,
      re-allocation included, the two indexes stay exact mirrors. */
  lemma {:induction false} AlwaysMirrored(x: System, actions: seq<Action>)
    requires Coherent(x)
    ensures Coherent(Run(x, actions))
  {
    if actions != [] {
      AlwaysMirrored(x, actions[..|actions| - 1]);
      var y, a := Run(x, actions[..|actions| - 1]), actions[|actions| - 1];
      if a.Advance? && a.pid in y.procs {
        StepCoherent(y.store, y.procs[a.pid], a.listing, a.leased);
      }
    }
  }

  /** An empty store with nobody at work is coherent, so what is proved from there
      on holds of every run there is. */
  lemma StartsCoherent()
    ensures var x := System(Store(map[], map[], 0), map[]);
      Coherent(x) && EverythingAssigned(x) && Tidy(x) && DistinctIps(x.store)
  {
  }

  // ---------------------------------------------------------------------
  // No two records share an address
  // ---------------------------------------------------------------------

  predicate RecordAddressed(r: Record) { Addressed(r.hostname, r.viaWg, r.ip) }

  /** A request the address guarantee covers: a plain numeral if it is a node
      name at all. */
  predicate PlainRequest(requested: Option<Hostname>) {
    requested.Some? && requested.value.Node? ==> requested.value.spelling == 0
  }

  /** Development nodes only come up over WireGuard. */
  predicate PlainCreate(kind: NodeType, viaWg: bool) { kind == Dev ==> viaWg }

  predicate Plain(p: Proc) {
    match p
    case CreatorLooks(_, kind, viaWg) => PlainCreate(kind, viaWg)
    case CreatorPicks(_, kind, viaWg, _) => PlainCreate(kind, viaWg)
    case CreatorCommits(rec, _) => RecordAddressed(rec) && PlainCreate(rec.kind, rec.viaWg)
    case CreatorRechecks(_, kind, viaWg, _) => PlainCreate(kind, viaWg)
    case DhcpLooks(_, _, requested, _) => PlainRequest(requested)
    case DhcpNames(_, _, requested, _, _, want) =>
      PlainRequest(requested) && (want.Node? ==> want.spelling == 0 && !want.amt)
    case DhcpPicks(_, _, requested, _, _) => PlainRequest(requested)
    case DhcpCommits(rec, _, requested, _, _, _) => RecordAddressed(rec) && PlainRequest(requested)
    case Finished(_) => true
    case Failed => true
  }

  ghost predicate AllAddressed(s: Store) {
    && (forall m | m in s.byMac :: RecordAddressed(s.byMac[m].rec))
    && (forall h | h in s.byHost :: RecordAddressed(s.byHost[h].rec))
  }

  ghost predicate Tidy(x: System) {
    AllAddressed(x.store) && forall pid | pid in x.procs :: Plain(x.procs[pid])
  }

  predicate PlainActions(actions: seq<Action>) {
    forall i | 0 <= i < |actions| && actions[i].Spawn? :: Plain(actions[i].proc)
  }

  lemma StepTidy(s: Store, p: Proc, listing: seq<Hostname>, leased: set<int>)
    requires AllAddressed(s) && Plain(p)
    ensures var (t, q) := Step(s, p, listing, leased); AllAddressed(t) && Plain(q)
  {
    match p {
      case CreatorLooks(_, _, _) =>
      case CreatorPicks(_, _, _, _) =>
      case CreatorCommits(rec, _) => PutAddressed(s, rec, None);
      case CreatorRechecks(_, _, _, _) =>
      case DhcpLooks(_, _, _, _) =>
      case DhcpNames(_, _, _, _, _, _) =>
      case DhcpPicks(_, _, _, _, _) =>
      case DhcpCommits(rec, _, _, _, found, _) => PutAddressed(s, rec, found);
      case Finished(_) =>
      case Failed =>
    }
  }

  lemma PutAddressed(s: Store, rec: Record, found: Option<Entry>)
    requires AllAddressed(s) && RecordAddressed(rec)
    ensures AllAddressed(Put(s, rec)) && AllAddressed(Reallocate(s, rec, found))
  {
  }

  lemma {:induction false} AlwaysTidy(x: System, actions: seq<Action>)
    requires Tidy(x) && PlainActions(actions)
    ensures Tidy(Run(x, actions))
  {
    if actions != [] {
      AlwaysTidy(x, actions[..|actions| - 1]);
      var y, a := Run(x, actions[..|actions| - 1]), actions[|actions| - 1];
      if a.Advance? && a.pid in y.procs {
        StepTidy(y.store, y.procs[a.pid], a.listing, a.leased);
      }
    }
  }

  ghost predicate DistinctIps(s: Store) {
    forall m, n | m in s.byMac && n in s.byMac && m != n :: s.byMac[m].rec.ip != s.byMac[n].rec.ip
  }

  predicate RecordAssigned(r: Record) { Assigned(r.hostname, r.viaWg, r.ip) }

  /** Every record stored, and every record about to be committed, has an address
      its name determines. */
  ghost predicate AllAssigned(s: Store) {
    && (forall m | m in s.byMac :: RecordAssigned(s.byMac[m].rec))
    && (forall h | h in s.byHost :: RecordAssigned(s.byHost[h].rec))
  }

  predicate ProcAssigned(p: Proc) {
    match p
    case CreatorCommits(rec, _) => RecordAssigned(rec)
    case DhcpNames(_, _, _, _, _, want) => want.Node? ==> !want.amt
    case DhcpCommits(rec, _, _, _, _, _) => RecordAssigned(rec)
    case _ => true
  }

  ghost predicate EverythingAssigned(x: System) {
    AllAssigned(x.store) && forall pid | pid in x.procs :: ProcAssigned(x.procs[pid])
  }

  lemma StepAssigned(s: Store, p: Proc, listing: seq<Hostname>, leased: set<int>)
    requires AllAssigned(s) && ProcAssigned(p)
    ensures var (t, q) := Step(s, p, listing, leased); AllAssigned(t) && ProcAssigned(q)
  {
    match p {
      case CreatorLooks(_, _, _) =>
      case CreatorPicks(_, _, _, _) =>
      case CreatorCommits(rec, _) => PutAssigned(s, rec, None);
      case CreatorRechecks(_, _, _, _) =>
      case DhcpLooks(_, _, _, _) =>
      case DhcpNames(_, _, _, _, _, _) =>
      case DhcpPicks(_, _, _, _, _) =>
      case DhcpCommits(rec, _, _, _, found, _) => PutAssigned(s, rec, found);
      case Finished(_) =>
      case Failed =>
    }
  }

  lemma PutAssigned(s: Store, rec: Record, found: Option<Entry>)
    requires AllAssigned(s) && RecordAssigned(rec)
    ensures AllAssigned(Put(s, rec)) && AllAssigned(Reallocate(s, rec, found))
  {
  }

  /** Under every interleaving, whatever is requested, every stored address is one
      its name determines. */
  lemma {:induction false} AlwaysAssigned(x: System, actions: seq<Action>)
    requires EverythingAssigned(x)
    ensures EverythingAssigned(Run(x, actions))
  {
    if actions != [] {
      AlwaysAssigned(x, actions[..|actions| - 1]);
      var y, a := Run(x, actions[..|actions| - 1]), actions[|actions| - 1];
      if a.Advance? && a.pid in y.procs {
        StepAssigned(y.store, y.procs[a.pid], a.listing, a.leased);
      }
    }
  }

  /** Two records whose names share an address although they differ. */
  predicate Clash(a: Record, b: Record) {
    || SpellingTwins(a.hostname, a.viaWg, b.hostname, b.viaWg)
    || DevOn(a.hostname, a.viaWg, b.hostname) || DevOn(b.hostname, b.viaWg, a.hostname)
  }

  /** Exactly when distinct records have distinct addresses, in every state the
      two allocators can reach with any requests: no two stored records are two
      spellings of one number on one subnet, or a development node outside
      WireGuard on a dynamic address. */
  lemma {:induction false} DistinctIpsIff(x: System, actions: seq<Action>)
    requires Coherent(x) && EverythingAssigned(x)
    ensures var s := Run(x, actions).store;
      DistinctIps(s) <==> forall m, n | m in s.byMac && n in s.byMac && m != n :: !Clash(s.byMac[m].rec, s.byMac[n].rec)
  {
    AlwaysMirrored(x, actions);
    AlwaysAssigned(x, actions);
    var s := Run(x, actions).store;
    forall m, n | m in s.byMac && n in s.byMac && m != n
      ensures s.byMac[m].rec.ip == s.byMac[n].rec.ip <==> Clash(s.byMac[m].rec, s.byMac[n].rec)
    {
      var a, b := s.byMac[m].rec, s.byMac[n].rec;
      assert a.hostname != b.hostname;
      SharedAddressIff(a.hostname, a.viaWg, a.ip, b.hostname, b.viaWg, b.ip);
    }
  }

  /** With plain requests and development nodes over WireGuard nothing clashes, so
      distinct allocation records have distinct addresses in every reachable state. */
  lemma {:induction false} AlwaysDistinctIps(x: System, actions: seq<Action>)
    requires Coherent(x) && Tidy(x) && PlainActions(actions)
    ensures DistinctIps(Run(x, actions).store)
  {
    AlwaysMirrored(x, actions);
    AlwaysTidy(x, actions);
    DistinctIpsIff(x, actions);
    var s := Run(x, actions).store;
    forall m, n | m in s.byMac && n in s.byMac && m != n ensures !Clash(s.byMac[m].rec, s.byMac[n].rec) {
      var a, b := s.byMac[m].rec, s.byMac[n].rec;
      assert a.hostname != b.hostname && RecordAddressed(a) && RecordAddressed(b);
    }
  }

  /** Without the WireGuard condition it fails: a development node created over
      the LAN lands on an address of the dynamic range that is already given. */
  lemma DevOverLanCollides(dyn: Record, x: System, actions: seq<Action>)
    requires dyn == Record(Dynamic(201), Compute, Ip(Lan, 201), "a", false)
    requires x == System(Store(map["a" := Entry(dyn, 1)], map[Dynamic(201) := Entry(dyn, 1)], 1), map[])
    requires actions == [Spawn(0, CreatorLooks("b", Dev, false)), Advance(0, [Dynamic(201)], {}),
                         Advance(0, [Dynamic(201)], {}), Advance(0, [Dynamic(201)], {})]
    ensures Coherent(x) && Tidy(x) && !DistinctIps(Run(x, actions).store)
  {
    var y1 := Next(x, actions[0]);
    var y2 := Next(y1, actions[1]);
    assert y2.procs[0] == CreatorPicks("b", Dev, false, CREATOR_TRIES);
    assert [Dynamic(201)][..0] == [];
    assert Numbers([Dynamic(201)], D) == [];
    assert NextName([Dynamic(201)], Dev) == Node(D, 1, 0, false);
    var y3 := Next(y2, actions[2]);
    assert y3.procs[0] == CreatorCommits(Record(Node(D, 1, 0, false), Dev, Ip(Lan, 201), "b", false), CREATOR_TRIES);
    var y4 := Next(y3, actions[3]);
    assert y4.store.byMac["b"].rec.ip == y4.store.byMac["a"].rec.ip;
    RunFour(x, actions);
  }

  lemma RunFour(x: System, a: seq<Action>)
    requires |a| == 4
    ensures Run(x, a) == Next(Next(Next(Next(x, a[0]), a[1]), a[2]), a[3])
  {
    assert a[..3][..2] == a[..2] && a[..2][..1] == a[..1] && a[..1][..0] == [];
    assert Run(x, a[..1]) == Next(x, a[0]) && Run(x, a[..2]) == Next(Run(x, a[..1]), a[1]);
    assert Run(x, a[..3]) == Next(Run(x, a[..2]), a[2]);
  }

  // ---------------------------------------------------------------------
  // What an allocator returns, and that it returns
  // ---------------------------------------------------------------------

  function MacOf(p: Proc): string
    requires !p.Failed?
  {
    if p.CreatorCommits? || p.DhcpCommits? || p.Finished? then p.rec.mac else p.mac
  }

  /** Whatever an allocator returns is, at that step, the record both indexes
      hold for its MAC; a step that does not return one leaves the store alone. */
  lemma ReturnedIsStored(s: Store, p: Proc, listing: seq<Hostname>, leased: set<int>)
    requires Mirror(s) && !p.Finished? && !p.Failed?
    requires Stamped(s) && Remembers(s, p)
    ensures var (t, q) := Step(s, p, listing, leased);
      if q.Finished? then
        && MacOf(p) in t.byMac && t.byMac[MacOf(p)].rec == q.rec
        && q.rec.hostname in t.byHost && t.byHost[q.rec.hostname].rec == q.rec
      else t == s
  {
    StepCoherent(s, p, listing, leased);
  }

  /** `k` calls of one allocator while nobody else touches the store. */
  function CallsAlone(s: Store, p: Proc, listing: seq<Hostname>, leased: set<int>, k: nat): (Store, Proc)
    decreases k
  {
    if k == 0 then (s, p)
    else
      var (t, q) := Step(s, p, listing, leased);
      if t == s then CallsAlone(s, q, listing, leased, k - 1) else (t, q)
  }

  /** The name a creator would pick can be committed. */
  predicate CanCreate(s: Store, kind: NodeType, viaWg: bool, listing: seq<Hostname>) {
    NextName(listing, kind) !in s.byHost && ApiAddress(NextName(listing, kind), viaWg).Address?
  }

  lemma {:induction false} RepeatedPicksFail(s: Store, mac: string, kind: NodeType, viaWg: bool,
                                             tries: nat, listing: seq<Hostname>, leased: set<int>)
    requires mac !in s.byMac && Lists(listing, s) && !CanCreate(s, kind, viaWg, listing)
    ensures CallsAlone(s, CreatorPicks(mac, kind, viaWg, tries), listing, leased, 3 * tries + 1) == (s, Failed)
    decreases tries
  {
    var p := CreatorPicks(mac, kind, viaWg, tries);
    var q := Step(s, p, listing, leased).1;
    if q.Failed? {
      FailedStays(s, listing, leased, 3 * tries);
    } else {
      var r := Step(s, q, listing, leased).1;
      assert r == CreatorRechecks(mac, kind, viaWg, tries - 1);
      assert Step(s, r, listing, leased) == (s, CreatorPicks(mac, kind, viaWg, tries - 1));
      RepeatedPicksFail(s, mac, kind, viaWg, tries - 1, listing, leased);
      var k := 3 * tries + 1;
      assert CallsAlone(s, r, listing, leased, k - 2)
          == CallsAlone(s, CreatorPicks(mac, kind, viaWg, tries - 1), listing, leased, k - 3);
      assert CallsAlone(s, q, listing, leased, k - 1) == CallsAlone(s, r, listing, leased, k - 2);
    }
  }

  lemma {:induction false} FailedStays(s: Store, listing: seq<Hostname>, leased: set<int>, k: nat)
    ensures CallsAlone(s, Failed, listing, leased, k) == (s, Failed)
  {
    if k > 0 { FailedStays(s, listing, leased, k - 1); }
  }

  /** A creator of a new MAC that is left alone creates its record iff the picked
      name is free and has an address. Otherwise it spends every try on the same
      pick and fails, and as long as the names in use do not change so does every
      creator of that type after it. */
  lemma CreatorAloneIff(s: Store, mac: string, kind: NodeType, viaWg: bool, listing: seq<Hostname>, leased: set<int>)
    requires mac !in s.byMac && Lists(listing, s)
    ensures var (t, q) := CallsAlone(s, CreatorLooks(mac, kind, viaWg), listing, leased, 3 * CREATOR_TRIES + 2);
      if CanCreate(s, kind, viaWg, listing)
      then
        var rec := Record(NextName(listing, kind), kind, ApiAddress(NextName(listing, kind), viaWg).ip, mac, viaWg);
        q == Finished(rec) && t == Put(s, rec)
      else t == s && q.Failed?
  {
    var picks, n := CreatorPicks(mac, kind, viaWg, CREATOR_TRIES), 3 * CREATOR_TRIES + 2;
    assert Step(s, CreatorLooks(mac, kind, viaWg), listing, leased) == (s, picks);
    if CanCreate(s, kind, viaWg, listing) {
      var commits := Step(s, picks, listing, leased).1;
      assert Step(s, commits, listing, leased) == (Put(s, commits.rec), Finished(commits.rec));
      assert Put(s, commits.rec).rev != s.rev;
      assert CallsAlone(s, picks, listing, leased, n - 1) == CallsAlone(s, commits, listing, leased, n - 2);
    } else {
      RepeatedPicksFail(s, mac, kind, viaWg, CREATOR_TRIES, listing, leased);
    }
  }

  // ---------------------------------------------------------------------
  // Known MACs, lost races and the ways to fail
  // ---------------------------------------------------------------------

  lemma {:induction false} EndStays(s: Store, p: Proc, listing: seq<Hostname>, leased: set<int>, k: nat)
    requires p.Finished? || p.Failed?
    ensures CallsAlone(s, p, listing, leased, k) == (s, p)
  {
    if k > 0 { EndStays(s, p, listing, leased, k - 1); }
  }

  /** A creator of a MAC that has a record returns that record, at its first call. */
  lemma KnownMacReturned(s: Store, mac: string, kind: NodeType, viaWg: bool,
                         listing: seq<Hostname>, leased: set<int>, k: nat)
    requires mac in s.byMac && k >= 1
    ensures CallsAlone(s, CreatorLooks(mac, kind, viaWg), listing, leased, k) == (s, Finished(s.byMac[mac].rec))
  {
    EndStays(s, Finished(s.byMac[mac].rec), listing, leased, k - 1);
  }

  /** A MAC that has a record keeps having one. */
  lemma {:induction false} MacsStay(x: System, actions: seq<Action>, mac: string)
    requires mac in x.store.byMac
    ensures mac in Run(x, actions).store.byMac
  {
    if actions != [] { MacsStay(x, actions[..|actions| - 1], mac); }
  }

  predicate Idle(actions: seq<Action>, pid: nat) {
    forall i | 0 <= i < |actions| && actions[i].Advance? :: actions[i].pid != pid
  }

  lemma {:induction false} IdleStays(x: System, actions: seq<Action>, pid: nat)
    requires pid in x.procs && Idle(actions, pid)
    ensures pid in Run(x, actions).procs && Run(x, actions).procs[pid] == x.procs[pid]
  {
    if actions != [] { IdleStays(x, actions[..|actions| - 1], pid); }
  }

  /** A creator whose commit comes too late, because another allocator gave its MAC a
      record first, returns at its next call the record the MAC has by then, however
      the others go on in between. */
  lemma LostRaceReturns(x: System, pid: nat, lost: Action, between: seq<Action>, again: Action)
    requires pid in x.procs && x.procs[pid].CreatorCommits? && x.procs[pid].rec.mac in x.store.byMac
    requires lost.Advance? && lost.pid == pid && Lists(lost.listing, x.store) && Idle(between, pid)
    requires var y := Run(Next(x, lost), between); again.Advance? && again.pid == pid && Lists(again.listing, y.store)
    ensures var mac, y := x.procs[pid].rec.mac, Run(Next(x, lost), between);
      mac in y.store.byMac && Next(y, again) == y.(procs := y.procs[pid := Finished(y.store.byMac[mac].rec)])
  {
    IdleStays(Next(x, lost), between, pid);
    MacsStay(Next(x, lost), between, x.procs[pid].rec.mac);
  }

  /** Action `i` is a call of `pid` that goes through. */
  predicate Calls(x: System, actions: seq<Action>, pid: nat, i: nat)
    requires i < |actions|
  {
    var y := Run(x, actions[..i]);
    actions[i].Advance? && actions[i].pid == pid && pid in y.procs && Lists(actions[i].listing, y.store)
  }

  /** Action `i` is a look of creator `pid` at its MAC. */
  predicate Looks(x: System, actions: seq<Action>, pid: nat, i: nat)
    requires i < |actions|
  {
    Calls(x, actions, pid, i)
    && (Run(x, actions[..i]).procs[pid].CreatorLooks? || Run(x, actions[..i]).procs[pid].CreatorRechecks?)
  }

  /** The last look of `pid` found no record for its MAC. */
  ghost predicate LookedInVain(x: System, actions: seq<Action>, pid: nat, mac: string) {
    exists i | 0 <= i < |actions| ::
      Looks(x, actions, pid, i) && mac !in Run(x, actions[..i]).store.byMac
      && forall j | i < j < |actions| :: !Looks(x, actions, pid, j)
  }

  lemma LooksPrefix(x: System, actions: seq<Action>, pid: nat, i: nat)
    requires i < |actions| - 1
    ensures Looks(x, actions[..|actions| - 1], pid, i) == Looks(x, actions, pid, i)
    ensures actions[..|actions| - 1][..i] == actions[..i]
  {
    assert actions[..|actions| - 1][..i] == actions[..i];
  }

  lemma VainStays(x: System, actions: seq<Action>, pid: nat, mac: string)
    requires actions != [] && LookedInVain(x, actions[..|actions| - 1], pid, mac)
    requires !Looks(x, actions, pid, |actions| - 1)
    ensures LookedInVain(x, actions, pid, mac)
  {
    var init := actions[..|actions| - 1];
    var i :| 0 <= i < |init| && Looks(x, init, pid, i) && mac !in Run(x, init[..i]).store.byMac
             && forall j | i < j < |init| :: !Looks(x, init, pid, j);
    LooksPrefix(x, actions, pid, i);
    forall j | i < j < |actions| ensures !Looks(x, actions, pid, j) {
      if j < |init| { LooksPrefix(x, actions, pid, j); }
    }
  }

  predicate OfCreator(p: Proc, mac: string) {
    match p
    case CreatorLooks(m, _, _) => m == mac
    case CreatorPicks(m, _, _, _) => m == mac
    case CreatorCommits(rec, _) => rec.mac == mac
    case CreatorRechecks(m, _, _, _) => m == mac
    case Finished(_) => true
    case Failed => true
    case _ => false
  }

  /** A creator fails only after a last look that found its MAC without a record. */
  lemma {:induction false} CreatorFailsOnlyInVain(x: System, actions: seq<Action>, pid: nat, mac: string)
    requires pid in x.procs && x.procs[pid].CreatorLooks? && x.procs[pid].mac == mac
    ensures var y := Run(x, actions);
      && pid in y.procs && OfCreator(y.procs[pid], mac)
      && (y.procs[pid].CreatorPicks? || y.procs[pid].CreatorCommits? || y.procs[pid].Failed? ==>
            LookedInVain(x, actions, pid, mac))
  {
    if actions != [] {
      var init, a := actions[..|actions| - 1], actions[|actions| - 1];
      CreatorFailsOnlyInVain(x, init, pid, mac);
      var y, z := Run(x, init), Run(x, actions);
      if Looks(x, actions, pid, |actions| - 1) {
        assert z.procs[pid].CreatorPicks? ==> mac !in y.store.byMac;
      } else if z.procs[pid].CreatorPicks? || z.procs[pid].CreatorCommits? || z.procs[pid].Failed? {
        assert y.procs[pid].CreatorPicks? || y.procs[pid].CreatorCommits? || y.procs[pid].Failed?;
        VainStays(x, actions, pid, mac);
      }
    }
  }

  /** The commits of `pid` that lost their race. */
  function Losses(x: System, actions: seq<Action>, pid: nat): nat {
    if actions == [] then 0
    else
      var init, i := actions[..|actions| - 1], |actions| - 1;
      var y := Run(x, init);
      Losses(x, init, pid)
      + if Calls(x, actions, pid, i) && LosesRace(y.store, y.procs[pid]) then 1 else 0
  }

  predicate LosesRace(s: Store, p: Proc) {
    match p
    case CreatorCommits(rec, _) => !CreatorCompares(s, rec)
    case DhcpCommits(rec, _, _, _, found, nameRev) => !DhcpCompares(s, rec, found, nameRev)
    case _ => false
  }

  /** Action `i` is a pick of `pid` that finds nothing to pick. */
  predicate FindsNothing(x: System, actions: seq<Action>, pid: nat, i: nat)
    requires i < |actions|
  {
    Calls(x, actions, pid, i) &&
    var y, a := Run(x, actions[..i]), actions[i];
    match y.procs[pid]
    case CreatorPicks(_, kind, viaWg, _) => !ApiAddress(NextName(a.listing, kind), viaWg).Address?
    case DhcpPicks(_, _, _, _, _) => NextDynamic(Octets(y.store) + a.leased, DYNAMIC_START).None?
    case _ => false
  }

  ghost predicate FoundNothing(x: System, actions: seq<Action>, pid: nat) {
    exists i | 0 <= i < |actions| :: FindsNothing(x, actions, pid, i)
  }

  /** The tries an allocator has left; the first look of a creator has all five. */
  function TriesLeft(p: Proc): nat {
    match p
    case CreatorLooks(_, _, _) => 5
    case CreatorPicks(_, _, _, tries) => tries
    case CreatorCommits(_, tries) => tries
    case CreatorRechecks(_, _, _, tries) => tries
    case DhcpLooks(_, _, _, tries) => tries
    case DhcpNames(_, _, _, tries, _, _) => tries
    case DhcpPicks(_, _, _, tries, _) => tries
    case DhcpCommits(_, _, _, tries, _, _) => tries
    case Finished(_) => 0
    case Failed => 0
  }

  lemma StepTries(s: Store, p: Proc, listing: seq<Hostname>, leased: set<int>)
    requires InTries(p) && !p.Finished? && !p.Failed?
    ensures var q := Step(s, p, listing, leased).1;
      && (!q.Finished? && !q.Failed? ==> TriesLeft(q) + (if LosesRace(s, p) then 1 else 0) == TriesLeft(p))
      && (q.Failed? ==>
            || (TriesLeft(p) == 0 && !LosesRace(s, p))
            || (p.CreatorPicks? && !ApiAddress(NextName(listing, p.kind), p.viaWg).Address?)
            || (p.DhcpPicks? && NextDynamic(Octets(s) + leased, DYNAMIC_START).None?))
      && (LosesRace(s, p) ==> !q.Finished? && !q.Failed?)
  {
  }

  /** Where an allocator with `tries` tries stands. */
  ghost predicate Accounted(x: System, actions: seq<Action>, pid: nat, tries: nat) {
    var y := Run(x, actions);
    && pid in y.procs && InTries(y.procs[pid])
    && (!y.procs[pid].Finished? && !y.procs[pid].Failed? ==>
          TriesLeft(y.procs[pid]) + Losses(x, actions, pid) == tries)
    && (y.procs[pid].Failed? ==> Losses(x, actions, pid) == tries || FoundNothing(x, actions, pid))
  }

  lemma {:induction false} CallAccounted(x: System, actions: seq<Action>, pid: nat, tries: nat)
    requires actions != [] && Accounted(x, actions[..|actions| - 1], pid, tries)
    requires Calls(x, actions, pid, |actions| - 1)
    ensures Accounted(x, actions, pid, tries)
  {
    var init, a, i := actions[..|actions| - 1], actions[|actions| - 1], |actions| - 1;
    var y := Run(x, init);
    var p := y.procs[pid];
    NothingStays(x, actions, pid);
    StepRanks(y.store, p, a.listing, a.leased);
    assert Run(x, actions).procs[pid] == Step(y.store, p, a.listing, a.leased).1;
    if !p.Finished? && !p.Failed? {
      StepTries(y.store, p, a.listing, a.leased);
      assert Run(x, actions).procs[pid].Failed? && TriesLeft(p) != 0 ==> FindsNothing(x, actions, pid, i);
    }
  }

  lemma {:induction false} OtherAccounted(x: System, actions: seq<Action>, pid: nat, tries: nat)
    requires actions != [] && Accounted(x, actions[..|actions| - 1], pid, tries)
    requires !Calls(x, actions, pid, |actions| - 1)
    ensures Accounted(x, actions, pid, tries)
  {
    NothingStays(x, actions, pid);
    assert Run(x, actions).procs[pid] == Run(x, actions[..|actions| - 1]).procs[pid];
  }

  /** Why an allocator fails: it lost as many races as it has tries, five for a
      creator and three for a DHCP call, or a pick found no name or no address. */
  lemma {:induction false} FailsOnlyBeaten(x: System, actions: seq<Action>, pid: nat, tries: nat)
    requires pid in x.procs && Fresh(x.procs[pid])
    requires tries == (if x.procs[pid].CreatorLooks? then 5 else 3)
    ensures Accounted(x, actions, pid, tries)
  {
    if actions != [] {
      FailsOnlyBeaten(x, actions[..|actions| - 1], pid, tries);
      if Calls(x, actions, pid, |actions| - 1) {
        CallAccounted(x, actions, pid, tries);
      } else {
        OtherAccounted(x, actions, pid, tries);
      }
    }
  }

  lemma {:induction false} NothingAt(x: System, actions: seq<Action>, pid: nat, i: nat)
    requires i < |actions| - 1
    ensures FindsNothing(x, actions[..|actions| - 1], pid, i) == FindsNothing(x, actions, pid, i)
  {
    assert actions[..|actions| - 1][..i] == actions[..i] && actions[..|actions| - 1][i] == actions[i];
  }

  lemma {:induction false} NothingStays(x: System, actions: seq<Action>, pid: nat)
    requires actions != []
    ensures FoundNothing(x, actions[..|actions| - 1], pid) ==> FoundNothing(x, actions, pid)
  {
    var init := actions[..|actions| - 1];
    if FoundNothing(x, init, pid) {
      var i :| 0 <= i < |init| && FindsNothing(x, init, pid, i);
      NothingAt(x, actions, pid, i);
    }
  }

  // ---------------------------------------------------------------------
  // Whether a client keeps its address
  // ---------------------------------------------------------------------

  /** The record a DHCP call that is left alone ends with, if any. */
  function DhcpOutcome(s: Store, mac: string, kind: NodeType, requested: Option<Hostname>, leased: set<int>)
    : Option<Record>
  {
    var want, o := Wanted(requested), NextDynamic(Octets(s) + leased, DYNAMIC_START);
    if mac in s.byMac && (want.None? || s.byMac[mac].rec.hostname == want.value) then Some(s.byMac[mac].rec)
    else if want.Some? && DhcpAddress(want.value).Some? && want.value !in s.byHost
    then Some(Record(want.value, TypeOfName(want.value), DhcpAddress(want.value).value, mac, false))
    else if o.Some? then Some(DynamicRecord(o.value, kind, mac))
    else None
  }

  /** One DHCP call with nobody else at work. */
  function DhcpCall(s: Store, mac: string, kind: NodeType, requested: Option<Hostname>,
                    listing: seq<Hostname>, leased: set<int>): (Store, Proc)
  {
    CallsAlone(s, DhcpLooks(mac, kind, requested, DHCP_TRIES), listing, leased, 4)
  }

  /** An octet nobody has belongs to a name nobody has. */
  lemma FreeOctetFreeName(s: Store, o: int)
    requires Mirror(s) && AllAssigned(s) && o !in Octets(s)
    ensures Dynamic(o) !in s.byHost
  {
  }

  /** A call that leaves the store alone leads to the next. */
  lemma CallsOn(s: Store, p: Proc, q: Proc, listing: seq<Hostname>, leased: set<int>, k: nat)
    requires k > 0 && Step(s, p, listing, leased) == (s, q)
    ensures CallsAlone(s, p, listing, leased, k) == CallsAlone(s, q, listing, leased, k - 1)
  {
  }

  lemma {:induction false} CommitAlone(s: Store, p: Proc, listing: seq<Hostname>, leased: set<int>, k: nat)
    requires p.DhcpCommits? && DhcpCompares(s, p.rec, p.found, p.nameRev) && k > 0
    ensures CallsAlone(s, p, listing, leased, k) == (Reallocate(s, p.rec, p.found), Finished(p.rec))
  {
    assert Reallocate(s, p.rec, p.found).rev != s.rev;
  }

  function DynamicRecord(o: int, kind: NodeType, mac: string): Record {
    Record(Dynamic(o), kind, Ip(Lan, o), mac, false)
  }

  /** The commit of a dynamic address nobody has. */
  lemma {:induction false} CommitDynamic(s: Store, mac: string, kind: NodeType, requested: Option<Hostname>, o: int,
                                         listing: seq<Hostname>, leased: set<int>, k: nat)
    requires Mirror(s) && AllAssigned(s) && o !in Octets(s) && k > 0
    ensures var rec, found := DynamicRecord(o, kind, mac), Get(s.byMac, mac);
      CallsAlone(s, DhcpCommits(rec, kind, requested, DHCP_TRIES, found, None), listing, leased, k)
      == (Reallocate(s, rec, found), Finished(rec))
  {
    FreeOctetFreeName(s, o);
    var rec, found := DynamicRecord(o, kind, mac), Get(s.byMac, mac);
    CommitAlone(s, DhcpCommits(rec, kind, requested, DHCP_TRIES, found, None), listing, leased, k);
  }

  /** What the picking call leads to. */
  lemma PickStep(s: Store, p: Proc, listing: seq<Hostname>, leased: set<int>)
    requires p.DhcpPicks?
    ensures var o := NextDynamic(Octets(s) + leased, DYNAMIC_START);
      Step(s, p, listing, leased) == (s,
        if o.None? then Failed
        else DhcpCommits(DynamicRecord(o.value, p.kind, p.mac), p.kind, p.requested, p.tries, p.found, None))
  {
  }

  /** From there on. */
  lemma {:induction false} PickedAlone(s: Store, mac: string, kind: NodeType, requested: Option<Hostname>,
                                       o: Option<int>, listing: seq<Hostname>, leased: set<int>, k: nat)
    requires Mirror(s) && AllAssigned(s) && k > 0 && (o.Some? ==> o.value !in Octets(s))
    ensures var found := Get(s.byMac, mac);
      o.Some? ==>
        var rec := DynamicRecord(o.value, kind, mac);
        CallsAlone(s, DhcpCommits(rec, kind, requested, DHCP_TRIES, found, None), listing, leased, k)
        == (Reallocate(s, rec, found), Finished(rec))
    ensures CallsAlone(s, Failed, listing, leased, k) == (s, Failed)
  {
    FailedStays(s, listing, leased, k);
    if o.Some? { CommitDynamic(s, mac, kind, requested, o.value, listing, leased, k); }
  }

  /** Picking and committing a dynamic address. */
  lemma {:induction false} PickAlone(s: Store, mac: string, kind: NodeType, requested: Option<Hostname>,
                                     listing: seq<Hostname>, leased: set<int>, k: nat)
    requires Mirror(s) && AllAssigned(s) && k >= 2
    ensures var o, found := NextDynamic(Octets(s) + leased, DYNAMIC_START), Get(s.byMac, mac);
      CallsAlone(s, DhcpPicks(mac, kind, requested, DHCP_TRIES, found), listing, leased, k)
      == if o.None? then (s, Failed)
         else (Reallocate(s, DynamicRecord(o.value, kind, mac), found), Finished(DynamicRecord(o.value, kind, mac)))
  {
    var o := NextDynamic(Octets(s) + leased, DYNAMIC_START);
    var p := DhcpPicks(mac, kind, requested, DHCP_TRIES, Get(s.byMac, mac));
    PickStep(s, p, listing, leased);
    CallsOn(s, p, Step(s, p, listing, leased).1, listing, leased, k);
    PickedAlone(s, mac, kind, requested, o, listing, leased, k - 1);
  }

  lemma FinishedStays(s: Store, rec: Record, listing: seq<Hostname>, leased: set<int>)
    ensures CallsAlone(s, Finished(rec), listing, leased, 3) == (s, Finished(rec))
  {
    assert CallsAlone(s, Finished(rec), listing, leased, 1) == (s, Finished(rec));
    assert CallsAlone(s, Finished(rec), listing, leased, 2) == (s, Finished(rec));
  }

  /** What a DHCP call that is left alone does: it returns the record there is if
      that has the wanted name or none is wanted, else allocates the wanted name if
      it is valid and free, else the lowest free dynamic address, else nothing. */
  lemma DhcpAlone(s: Store, mac: string, kind: NodeType, requested: Option<Hostname>,
                  listing: seq<Hostname>, leased: set<int>)
    requires Mirror(s) && AllAssigned(s)
    ensures var out, found := DhcpOutcome(s, mac, kind, requested, leased), Get(s.byMac, mac);
      DhcpCall(s, mac, kind, requested, listing, leased)
      == if out.None? then (s, Failed)
         else if found.Some? && out.value == found.value.rec then (s, Finished(out.value))
         else (Reallocate(s, out.value, found), Finished(out.value))
  {
    var want, found := Wanted(requested), Get(s.byMac, mac);
    var p := DhcpLooks(mac, kind, requested, DHCP_TRIES);
    var q := Step(s, p, listing, leased).1;
    if q.Finished? {
      FinishedStays(s, q.rec, listing, leased);
    } else if q.DhcpPicks? {
      PickAlone(s, mac, kind, requested, listing, leased, 3);
      OwnOctetTaken(s, mac, leased);
    } else {
      var r := Step(s, q, listing, leased).1;
      if want.value in s.byHost {
        assert s.byHost[want.value].rec.mac != mac;
        PickAlone(s, mac, kind, requested, listing, leased, 2);
        OwnOctetTaken(s, mac, leased);
      } else {
        assert r.DhcpCommits? && r.nameRev == None;
        CommitAlone(s, r, listing, leased, 2);
      }
    }
  }

  /** The octet a client has counts as taken, also against the client itself. */
  lemma OwnOctetTaken(s: Store, mac: string, leased: set<int>)
    requires Mirror(s)
    ensures var o := NextDynamic(Octets(s) + leased, DYNAMIC_START);
      mac in s.byMac && o.Some? ==> s.byMac[mac].rec.ip.octet != o.value
  {
    if mac in s.byMac { assert s.byMac[mac].rec.hostname in s.byHost; }
  }

  lemma ReallocateKeeps(s: Store, rec: Record)
    requires Mirror(s) && Stamped(s) && AllAssigned(s) && RecordAssigned(rec)
    requires rec.hostname in s.byHost ==> s.byHost[rec.hostname].rec.mac == rec.mac
    ensures var t := Reallocate(s, rec, Get(s.byMac, rec.mac));
      Mirror(t) && AllAssigned(t) && rec.mac in t.byMac && t.byMac[rec.mac].rec == rec
  {
    var found := Get(s.byMac, rec.mac);
    var nameRev := if rec.hostname in s.byHost then Some(s.byHost[rec.hostname].mod) else None;
    DhcpCommitMirrors(s, rec, found, nameRev);
    PutAssigned(s, rec, found);
  }

  /** The store after a call that returned a record. */
  lemma AfterCall(s: Store, mac: string, kind: NodeType, requested: Option<Hostname>,
                  listing: seq<Hostname>, leased: set<int>)
    requires Mirror(s) && Stamped(s) && AllAssigned(s)
    ensures var (t, q) := DhcpCall(s, mac, kind, requested, listing, leased);
      q.Finished? ==> Mirror(t) && AllAssigned(t) && mac in t.byMac && t.byMac[mac].rec == q.rec
  {
    DhcpAlone(s, mac, kind, requested, listing, leased);
    var out, found := DhcpOutcome(s, mac, kind, requested, leased), Get(s.byMac, mac);
    var want, o := Wanted(requested), NextDynamic(Octets(s) + leased, DYNAMIC_START);
    if out.Some? && !(found.Some? && out.value == found.value.rec) {
      if o.Some? { FreeOctetFreeName(s, o.value); }
      ReallocateKeeps(s, out.value);
    }
  }

  /** Exactly when a client that repeats its request gets the same record again,
      nobody else being at work: iff the request names nothing, or the first call
      gave it the name it asked for. Any other client is moved, its old name is
      dropped, or the call fails. */
  lemma SecondCallStableIff(s: Store, mac: string, kind: NodeType, requested: Option<Hostname>,
                            listing: seq<Hostname>, leased: set<int>, listing': seq<Hostname>, leased': set<int>)
    requires Mirror(s) && Stamped(s) && AllAssigned(s)
    requires DhcpCall(s, mac, kind, requested, listing, leased).1.Finished?
    ensures var (t, q) := DhcpCall(s, mac, kind, requested, listing, leased);
      var (u, r) := DhcpCall(t, mac, kind, requested, listing', leased');
      if Wanted(requested).None? || Wanted(requested) == Some(q.rec.hostname)
      then u == t && r == q
      else (u == t && r.Failed?) || (r.Finished? && r.rec.hostname != q.rec.hostname && q.rec.hostname !in u.byHost)
  {
    var (t, q) := DhcpCall(s, mac, kind, requested, listing, leased);
    AfterCall(s, mac, kind, requested, listing, leased);
    DhcpAlone(t, mac, kind, requested, listing', leased');
    OwnOctetTaken(t, mac, leased');
    var o := NextDynamic(Octets(t) + leased', DYNAMIC_START);
    if q.rec.hostname.Dynamic? { assert RecordAssigned(t.byMac[mac].rec) && q.rec.ip.octet == q.rec.hostname.octet; }
  }

  /** A client with an unrecognised name and a dynamic address gets the next free one. */
  lemma {:induction false} UnrecognisedMoves(s: Store, mac: string, kind: NodeType, name: string,
                                             listing: seq<Hostname>, leased: set<int>, o: int)
    requires Mirror(s) && AllAssigned(s) && !Ignored(Unrecognised(name))
    requires mac in s.byMac ==> s.byMac[mac].rec.hostname.Dynamic?
    requires NextDynamic(Octets(s) + leased, DYNAMIC_START) == Some(o)
    ensures var rec := DynamicRecord(o, kind, mac);
      DhcpCall(s, mac, kind, Some(Unrecognised(name)), listing, leased)
      == (Reallocate(s, rec, Get(s.byMac, mac)), Finished(rec))
  {
    DhcpAlone(s, mac, kind, Some(Unrecognised(name)), listing, leased);
    OwnOctetTaken(s, mac, leased);
  }

  /** A client that calls itself "laptop" is moved on its second call. */
  lemma LaptopMoves(listing: seq<Hostname>, listing': seq<Hostname>)
    ensures var (t, q) := DhcpCall(Store(map[], map[], 0), "m", Compute, Some(Unrecognised("laptop")), listing, {});
      var (u, r) := DhcpCall(t, "m", Compute, Some(Unrecognised("laptop")), listing', {});
      q == Finished(DynamicRecord(200, Compute, "m")) && r == Finished(DynamicRecord(201, Compute, "m"))
  {
    var s, rec := Store(map[], map[], 0), DynamicRecord(200, Compute, "m");
    UnrecognisedMoves(s, "m", Compute, "laptop", listing, {}, 200);
    var t := Reallocate(s, rec, None);
    ReallocateKeeps(s, rec);
    assert Octets(t) == {200};
    assert NextDynamic({200}, 201) == Some(201);
    UnrecognisedMoves(t, "m", Compute, "laptop", listing', {}, 201);
  }

  /** An attempt in progress has a try left. */
  predicate InTries(p: Proc) {
    p.CreatorCommits? || p.DhcpNames? || p.DhcpPicks? || p.DhcpCommits? ==> 1 <= p.tries
  }

  /** Bound on the calls left before an allocator has returned or failed. */
  function Rank(p: Proc): (r: nat)
    requires InTries(p)
    ensures r == 0 ==> p.Finished? || p.Failed?
  {
    match p
    case CreatorLooks(_, _, _) => 3 * CREATOR_TRIES + 2
    case CreatorPicks(_, _, _, tries) => 3 * tries + 1
    case CreatorCommits(_, tries) => 3 * tries
    case CreatorRechecks(_, _, _, tries) => 3 * tries + 2
    case DhcpLooks(_, _, _, tries) => 4 * tries + 1
    case DhcpNames(_, _, _, tries, _, _) => 4 * tries
    case DhcpPicks(_, _, _, tries, _) => 4 * tries - 1
    case DhcpCommits(_, _, _, tries, _, _) => 4 * tries - 2
    case Finished(_) => 0
    case Failed => 0
  }

  /** Calls of `pid` that the run lets through. */
  function CallsOf(x: System, actions: seq<Action>, pid: nat): nat {
    if actions == [] then 0
    else
      var a := actions[|actions| - 1];
      var y := Run(x, actions[..|actions| - 1]);
      CallsOf(x, actions[..|actions| - 1], pid)
      + if a.Advance? && a.pid == pid && pid in y.procs && Lists(a.listing, y.store) then 1 else 0
  }

  lemma StepRanks(s: Store, p: Proc, listing: seq<Hostname>, leased: set<int>)
    requires InTries(p)
    ensures var q := Step(s, p, listing, leased).1;
      InTries(q) && (q.Finished? || q.Failed? || Rank(q) < Rank(p))
  {
  }

  /** However the others interfere, an allocator returns or fails within the
      calls its retry budget allows. */
  lemma {:induction false} EveryAllocatorReturns(x: System, actions: seq<Action>, pid: nat)
    requires pid in x.procs && InTries(x.procs[pid])
    ensures var y := Run(x, actions);
      && pid in y.procs && InTries(y.procs[pid])
      && (y.procs[pid].Finished? || y.procs[pid].Failed?
          || CallsOf(x, actions, pid) + Rank(y.procs[pid]) <= Rank(x.procs[pid]))
  {
    if actions != [] {
      EveryAllocatorReturns(x, actions[..|actions| - 1], pid);
      var y, a := Run(x, actions[..|actions| - 1]), actions[|actions| - 1];
      if a.Advance? && a.pid == pid {
        StepRanks(y.store, y.procs[pid], a.listing, a.leased);
        if y.procs[pid].Finished? || y.procs[pid].Failed? {
          assert Next(y, a).procs[pid] == y.procs[pid];
        }
      } else {
        assert Next(y, a).procs[pid] == y.procs[pid];
      }
    }
  }
}
