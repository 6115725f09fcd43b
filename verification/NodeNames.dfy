/** Node hostnames and the deterministic addresses derived from them. */
module NodeNames {
  import opened Basics

  datatype Prefix = S | C | M | Nv | Nas | D | X

  /** A hostname. `spelling` is 0 for the plain decimal numeral and tells apart
      the other texts that read as the same number, such as "01"; `amt` is the
      trailing 'a' of a management interface. `Dynamic` is "dhcp-<octet>". */
  datatype Hostname =
    | Node(prefix: Prefix, num: int, spelling: nat, amt: bool)
    | Dynamic(octet: int)
    | Unrecognised(text: string)

  datatype Subnet = Lan | Wg | Management

  datatype Ip = Ip(subnet: Subnet, octet: int)

  datatype Range = Range(base: nat, max: nat)

  const DYNAMIC_START: int := 200
  const DYNAMIC_END: int := 249

  /** The admin API's table; it has no 'x'. */
  function ApiRange(p: Prefix): Option<Range> {
    match p
    case S => Some(Range(10, 20))
    case C => Some(Range(50, 20))
    case M => Some(Range(90, 20))
    case Nv => Some(Range(110, 20))
    case Nas => Some(Range(130, 10))
    case D => Some(Range(200, 30))
    case X => None
  }

  /** The DHCP server's table; it has no 'd'. */
  function DhcpRange(p: Prefix): Option<Range> {
    match p
    case S => Some(Range(10, 20))
    case C => Some(Range(50, 20))
    case M => Some(Range(90, 20))
    case Nv => Some(Range(110, 20))
    case Nas => Some(Range(130, 10))
    case D => None
    case X => Some(Range(150, 49))
  }

  /** `determine_ip_from_hostname` of the admin API: no address for a name it
      does not recognise, an error for a number out of range. */
  datatype ApiIp = NoIp | OutOfRange | Address(ip: Ip)

  function ApiAddress(h: Hostname, viaWg: bool): ApiIp {
    if !h.Node? || ApiRange(h.prefix).None? then NoIp
    else
      var r := ApiRange(h.prefix).value;
      if h.num < 1 || h.num > r.max then OutOfRange
      else Address(Ip(if h.amt then Management else if viaWg then Wg else Lan, r.base + h.num))
  }

  function DhcpAddress(h: Hostname): Option<Ip> {
    if !h.Node? || DhcpRange(h.prefix).None? then None
    else
      var r := DhcpRange(h.prefix).value;
      if h.num < 1 || h.num > r.max then None
      else Some(Ip(if h.amt then Management else Lan, r.base + h.num))
  }

  /** The address plan, range by range. A management name has the same octet on the
      management net, a node over WireGuard on that one. */
  lemma AddressPlan(n: int, spelling: nat, amt: bool, viaWg: bool)
    ensures var net := if amt then Management else if viaWg then Wg else Lan;
      && ApiAddress(Node(S, n, spelling, amt), viaWg) == InPlan(net, n, 20, 10)
      && ApiAddress(Node(C, n, spelling, amt), viaWg) == InPlan(net, n, 20, 50)
      && ApiAddress(Node(M, n, spelling, amt), viaWg) == InPlan(net, n, 20, 90)
      && ApiAddress(Node(Nv, n, spelling, amt), viaWg) == InPlan(net, n, 20, 110)
      && ApiAddress(Node(Nas, n, spelling, amt), viaWg) == InPlan(net, n, 10, 130)
      && ApiAddress(Node(D, n, spelling, amt), viaWg) == InPlan(net, n, 30, 200)
      && ApiAddress(Node(X, n, spelling, amt), viaWg) == NoIp
  {
  }

  /** Numbers 1 to `last` sit at the octets after `base`, any other is an error. */
  function InPlan(net: Subnet, n: int, last: int, base: int): ApiIp {
    if 1 <= n <= last then Address(Ip(net, base + n)) else OutOfRange
  }

  /** The DHCP server agrees with it where both know the prefix, has ad hoc machines
      at 151-199 instead of development nodes, and refuses what is out of range. */
  lemma DhcpPlan(p: Prefix, n: int, spelling: nat, amt: bool)
    ensures var h, net := Node(p, n, spelling, amt), if amt then Management else Lan;
      && (p in {S, C, M, Nv, Nas} ==>
            DhcpAddress(h) == (var a := ApiAddress(h, false); if a.Address? then Some(a.ip) else None))
      && DhcpAddress(Node(X, n, spelling, amt)) == (if 1 <= n <= 49 then Some(Ip(net, 150 + n)) else None)
      && DhcpAddress(Node(D, n, spelling, amt)) == None
  {
  }

  lemma UnnamedHaveNoAddress(h: Hostname, viaWg: bool)
    requires !h.Node?
    ensures ApiAddress(h, viaWg) == NoIp && DhcpAddress(h) == None
  {
  }

  /** The addresses the code can store under a name: a static one from either
      table, or the dynamic one the name itself spells. */
  predicate Assigned(h: Hostname, viaWg: bool, ip: Ip) {
    match h
    case Node(_, _, _, amt) =>
      !amt && (ApiAddress(h, viaWg) == Address(ip) || (!viaWg && DhcpAddress(h) == Some(ip)))
    case Dynamic(octet) => !viaWg && ip == Ip(Lan, octet) && DYNAMIC_START <= octet <= DYNAMIC_END
    case Unrecognised(_) => false
  }

  /** A development node outside WireGuard, whose address lies in the dynamic range. */
  predicate DevOn(h: Hostname, viaWg: bool, dynamic: Hostname) {
    h.Node? && h.prefix == D && !viaWg && dynamic.Dynamic? && dynamic.octet == 200 + h.num
  }

  /** Two spellings of one number on one subnet. */
  predicate SpellingTwins(h1: Hostname, wg1: bool, h2: Hostname, wg2: bool) {
    h1.Node? && h2.Node? && wg1 == wg2 && h1 == h2.(spelling := h1.spelling)
  }

  /** Exactly when two different names share an address: two spellings of one
      number on one subnet, or a development node on a dynamic address. */
  lemma SharedAddressIff(h1: Hostname, wg1: bool, ip1: Ip, h2: Hostname, wg2: bool, ip2: Ip)
    requires Assigned(h1, wg1, ip1) && Assigned(h2, wg2, ip2) && h1 != h2
    ensures ip1 == ip2 <==> SpellingTwins(h1, wg1, h2, wg2) || DevOn(h1, wg1, h2) || DevOn(h2, wg2, h1)
  {
  }

  /** The address of the storage front, which no table keeps free. */
  const STORAGE_VIP: Ip := Ip(Lan, 100)

  /** Exactly which names collide with it: the tenth macOS machine on the LAN. */
  lemma StorageVipIff(h: Hostname, viaWg: bool)
    ensures Assigned(h, viaWg, STORAGE_VIP) <==> h.Node? && h.prefix == M && h.num == 10 && !h.amt && !viaWg
  {
  }

  /** What keeps names apart: plain numerals, and development names only over WireGuard. */
  predicate Addressed(h: Hostname, viaWg: bool, ip: Ip) {
    Assigned(h, viaWg, ip) && (h.Node? ==> h.spelling == 0 && (h.prefix == D ==> viaWg))
  }

  // ---------------------------------------------------------------------
  // Picking the next name of a type
  // ---------------------------------------------------------------------

  datatype NodeType = Storage | Compute | Macos | Nvidia | NasBox | Dev | Adhoc

  /** The admin API's prefix for a type; unknown types fall back to compute. */
  function PrefixOf(t: NodeType): Prefix {
    match t
    case Storage => S
    case Compute => C
    case Macos => M
    case Nvidia => Nv
    case NasBox => Nas
    case Dev => D
    case Adhoc => C
  }

  /** The prefixes of the seven types. */
  lemma PrefixPlan(listing: seq<Hostname>)
    ensures NextName(listing, Storage).prefix == S && NextName(listing, Compute).prefix == C
    ensures NextName(listing, Macos).prefix == M && NextName(listing, Nvidia).prefix == Nv
    ensures NextName(listing, NasBox).prefix == Nas && NextName(listing, Dev).prefix == D
    ensures NextName(listing, Adhoc).prefix == C
  {
  }

  /** The numbers in use under a prefix, in listing order. */
  function Numbers(listing: seq<Hostname>, p: Prefix): seq<int> {
    if listing == [] then []
    else
      var h := listing[|listing| - 1];
      Numbers(listing[..|listing| - 1], p) + if h.Node? && h.prefix == p && !h.amt then [h.num] else []
  }

  function Itself(n: int): int { n }

  function SortInts(s: seq<int>): seq<int> { SortBy(s, Itself) }

  /** The first position `i >= k` at which `s[i] != i + 1`, counted from one. */
  function FirstGap(s: seq<int>, k: nat): (n: nat)
    requires k <= |s|
    ensures k < n <= |s| + 1
    ensures forall i | k <= i < n - 1 :: s[i] == i + 1
    ensures n <= |s| ==> s[n - 1] != n
    decreases |s| - k
  {
    if k == |s| || s[k] != k + 1 then k + 1 else FirstGap(s, k + 1)
  }

  function NextName(listing: seq<Hostname>, t: NodeType): Hostname {
    Node(PrefixOf(t), FirstGap(SortInts(Numbers(listing, PrefixOf(t))), 0), 0, false)
  }

  method GetNextHostname(listing: seq<Hostname>, t: NodeType) returns (h: Hostname)
    ensures h == NextName(listing, t)
  {
    var p := PrefixOf(t);
    var numbers := [];
    for k := 0 to |listing|
      invariant numbers == Numbers(listing[..k], p)
    {
      assert listing[..k + 1][..k] == listing[..k];
      var name := listing[k];
      if name.Node? && name.prefix == p && !name.amt { numbers := numbers + [name.num]; }
    }
    assert listing[..|listing|] == listing;
    var existing := SortInts(numbers);
    var i := 0;
    while i < |existing| && existing[i] == i + 1
      invariant 0 <= i <= |existing|
      invariant FirstGap(existing, i) == FirstGap(existing, 0)
    {
      i := i + 1;
    }
    return Node(p, i + 1, 0, false);
  }

  /** Under `p` every name is the plain numeral of a positive number. */
  predicate PlainUnder(listing: seq<Hostname>, p: Prefix) {
    forall i | 0 <= i < |listing| && listing[i].Node? && listing[i].prefix == p ::
      listing[i].spelling == 0 && !listing[i].amt && 1 <= listing[i].num
  }

  lemma {:induction false} NumbersMean(listing: seq<Hostname>, p: Prefix)
    requires PlainUnder(listing, p) && NoDuplicates(listing)
    ensures forall n :: n in Numbers(listing, p) <==> Node(p, n, 0, false) in listing
    ensures NoDuplicates(Numbers(listing, p)) && forall n | n in Numbers(listing, p) :: 1 <= n
  {
    if listing != [] {
      var init, h := listing[..|listing| - 1], listing[|listing| - 1];
      assert listing == init + [h];
      NumbersMean(init, p);
      if h.Node? && h.prefix == p {
        assert h == Node(p, h.num, 0, false) && h !in init;
      }
    }
  }

  lemma {:induction false} AtLeastRank(s: seq<int>, i: nat)
    requires Ascending(s, Itself) && NoDuplicates(s) && i < |s| && forall n | n in s :: 1 <= n
    ensures i + 1 <= s[i]
  {
    assert s[i] in s;
    if i > 0 {
      AtLeastRank(s, i - 1);
      assert Itself(s[i - 1]) <= Itself(s[i]);
    }
  }

  /** The sorted list of distinct positive numbers runs 1, 2, ... up to the gap. */
  lemma GapIsFree(s: seq<int>)
    requires Ascending(s, Itself) && NoDuplicates(s) && forall n | n in s :: 1 <= n
    ensures FirstGap(s, 0) !in s
    ensures forall n | 1 <= n < FirstGap(s, 0) :: n in s
  {
    var g := FirstGap(s, 0);
    forall n | 1 <= n < g ensures n in s { assert s[n - 1] == n; }
    forall i | 0 <= i < |s| ensures s[i] != g {
      if i >= g - 1 {
        AtLeastRank(s, g - 1);
        assert g - 1 < i ==> Itself(s[g - 1]) <= Itself(s[i]);
      }
    }
  }

  /** The picked name is free and is the lowest free number of its type, as
      long as the names in use are plain numerals. */
  lemma NextNameIsLowestFree(listing: seq<Hostname>, t: NodeType)
    requires PlainUnder(listing, PrefixOf(t)) && NoDuplicates(listing)
    ensures NextName(listing, t) !in listing
    ensures forall n | 1 <= n < NextName(listing, t).num :: Node(PrefixOf(t), n, 0, false) in listing
  {
    var numbers := Numbers(listing, PrefixOf(t));
    NumbersMean(listing, PrefixOf(t));
    SortPermutes(numbers, Itself);
    SameElements(numbers, SortInts(numbers));
    GapIsFree(SortInts(numbers));
  }

  lemma NumbersOfThree(a: Hostname, b: Hostname, c: Hostname, p: Prefix)
    requires a.Node? && b.Node? && c.Node? && a.prefix == b.prefix == c.prefix == p && !a.amt && !b.amt && !c.amt
    ensures Numbers([a, b, c], p) == [a.num, b.num, c.num]
  {
    NumbersOfTwo(a, b, p);
    assert [a, b, c][..2] == [a, b];
  }

  lemma NumbersOfTwo(a: Hostname, b: Hostname, p: Prefix)
    requires a.Node? && b.Node? && a.prefix == b.prefix == p && !a.amt && !b.amt
    ensures Numbers([a, b], p) == [a.num, b.num]
  {
    assert [a, b][..1] == [a];
    assert [a][..0] == [];
    assert Numbers([a], p) == [a.num];
  }

  /** The sorted numbers run 1, 2, ... up to position `n`, where a number below `n`
      stands: one listed a second time, or at the front one below 1. */
  predicate Crowded(s: seq<int>, n: int) {
    1 <= n <= |s| && s[n - 1] < n && forall i | 0 <= i < n - 1 :: s[i] == i + 1
  }

  lemma {:induction false} NumberListed(listing: seq<Hostname>, p: Prefix, n: int)
    requires Node(p, n, 0, false) in listing
    ensures n in Numbers(listing, p)
  {
    var init, h := listing[..|listing| - 1], listing[|listing| - 1];
    assert listing == init + [h];
    if h != Node(p, n, 0, false) { NumberListed(init, p, n); }
  }

  lemma CrowdedIsGap(s: seq<int>, n: int)
    requires Crowded(s, n)
    ensures FirstGap(s, 0) == n
  {
    assert forall i | 0 <= i < n - 1 :: s[i] == i + 1;
  }

  /** The gap itself is a listed number only where the numbers are crowded. */
  lemma ListedGapIsCrowded(s: seq<int>)
    requires Ascending(s, Itself) && FirstGap(s, 0) in s
    ensures Crowded(s, FirstGap(s, 0))
  {
    var g := FirstGap(s, 0);
    var i :| 0 <= i < |s| && s[i] == g;
    assert i >= g - 1;
    assert g - 1 < i ==> Itself(s[g - 1]) <= Itself(s[i]);
  }

  /** Exactly when the picked name is already taken: the sorted numbers are
      crowded at some `n` and the plain name of `n` is listed. */
  lemma NextNameTakenIff(listing: seq<Hostname>, t: NodeType)
    ensures NextName(listing, t) in listing <==>
      exists n :: Crowded(SortInts(Numbers(listing, PrefixOf(t))), n) && Node(PrefixOf(t), n, 0, false) in listing
  {
    var p := PrefixOf(t);
    var numbers := Numbers(listing, p);
    var s := SortInts(numbers);
    if NextName(listing, t) in listing {
      NumberListed(listing, p, FirstGap(s, 0));
      SortPermutes(numbers, Itself);
      SameElements(numbers, s);
      ListedGapIsCrowded(s);
    }
    if n :| Crowded(s, n) && Node(p, n, 0, false) in listing { CrowdedIsGap(s, n); }
  }

  /** With a second spelling of s1 in use, the pick is a name already taken. */
  lemma NextNameCanBeTaken()
    ensures var listing := [Node(S, 1, 0, false), Node(S, 1, 1, false), Node(S, 2, 0, false)];
      NextName(listing, Storage) in listing
  {
    NumbersOfThree(Node(S, 1, 0, false), Node(S, 1, 1, false), Node(S, 2, 0, false), S);
    SortOfAscending([1, 1, 2], Itself);
    assert FirstGap([1, 1, 2], 1) == 2;
  }

  /** So it is with a number below 1 in use. */
  lemma NumberBelowOneTaken()
    ensures var listing := [Node(S, 0, 0, false), Node(S, 1, 0, false)];
      NextName(listing, Storage) in listing
  {
    NumbersOfTwo(Node(S, 0, 0, false), Node(S, 1, 0, false), S);
    SortOfAscending([0, 1], Itself);
  }

  /** The second spelling alone does no harm. */
  lemma SecondSpellingHarmless()
    ensures var listing := [Node(S, 1, 0, false), Node(S, 1, 1, false)];
      NextName(listing, Storage) == Node(S, 2, 0, false)
  {
    NumbersOfTwo(Node(S, 1, 0, false), Node(S, 1, 1, false), S);
    SortOfAscending([1, 1], Itself);
    assert FirstGap([1, 1], 1) == 2;
  }
}
