/** The jump host's access list: one line per key material, permitting exactly
    the VMs its registered holders own. */
module Bastion {
  import opened Basics
  import Names

  /** A registered key: too short to have a type and a material, or both (joined
      in `material`) with the full line as registered. */
  datatype Key = Short | Key(material: string, line: string)

  /** One user with the keys they list, and one VM with its owner. */
  datatype User = User(name: string, keys: seq<Key>)
  datatype Vm = Vm(name: string, owner: string)

  datatype Line = Line(material: string, key: string, vms: set<string>)

  function VmsOf(vms: seq<Vm>, owner: string): set<string> {
    set i | 0 <= i < |vms| && vms[i].owner == owner :: vms[i].name
  }

  /** The VMs of an owner are the names registered with that owner. */
  lemma OwnedVms(vms: seq<Vm>, owner: string, v: string)
    ensures v in VmsOf(vms, owner) <==> Vm(v, owner) in vms
  {
    if v in VmsOf(vms, owner) {
      var i :| 0 <= i < |vms| && vms[i].owner == owner && vms[i].name == v;
      assert vms[i] == Vm(v, owner);
    }
  }

  predicate Lists(u: User, material: string) {
    exists k | 0 <= k < |u.keys| :: u.keys[k].Key? && u.keys[k].material == material
  }

  /** Among the first `n` users, some holder of `material` owns `vm`. */
  predicate Permits(users: seq<User>, n: nat, vms: seq<Vm>, material: string, vm: string)
    requires n <= |users|
  {
    exists i | 0 <= i < n :: Lists(users[i], material) && vm in VmsOf(vms, users[i].name)
  }

  type Access = map<string, Line>

  /** The list grants each material exactly what the first `n` users give it, and
      the first `j` keys of the next one. */
  ghost predicate Grants(access: Access, users: seq<User>, n: nat, j: nat, vms: seq<Vm>)
    requires n <= |users| && (j > 0 ==> n < |users| && j <= |users[n].keys|)
  {
    && (forall m | m in access :: access[m].material == m && access[m].vms != {})
    && (forall m :: KeyText(users, n, j, vms, m) == if m in access then Some(access[m].key) else None)
    && (forall m, v :: Allows(access, m, v) <==> Given(users, n, j, vms, m, v))
  }

  predicate Allows(access: Access, m: string, v: string) { m in access && v in access[m].vms }

  predicate Given(users: seq<User>, n: nat, j: nat, vms: seq<Vm>, m: string, v: string)
    requires n <= |users| && (j > 0 ==> n < |users| && j <= |users[n].keys|)
  {
    Permits(users, n, vms, m, v) || (j > 0 && ListsWithin(users[n], j, m) && v in VmsOf(vms, users[n].name))
  }

  /** Key `k` of user `i` has the material, and the user owns a VM. */
  predicate Reaches(users: seq<User>, vms: seq<Vm>, m: string, i: nat, k: nat)
    requires i < |users| && k < |users[i].keys|
  {
    users[i].keys[k].Key? && users[i].keys[k].material == m && VmsOf(vms, users[i].name) != {}
  }

  /** The line of the first key of a material among the first `n` users and the first
      `j` keys of the next. */
  function KeyText(users: seq<User>, n: nat, j: nat, vms: seq<Vm>, m: string): Option<string>
    requires n <= |users| && (j > 0 ==> n < |users| && j <= |users[n].keys|)
    decreases n, j
  {
    if j > 0 then
      var before := KeyText(users, n, j - 1, vms, m);
      if before.Some? then before
      else if Reaches(users, vms, m, n, j - 1) then Some(users[n].keys[j - 1].line) else None
    else if n > 0 then KeyText(users, n - 1, |users[n - 1].keys|, vms, m)
    else None
  }

  /** Position (`i`, `k`) comes before (`n`, `j`). */
  predicate Earlier(i: nat, k: nat, n: nat, j: nat) { i < n || (i == n && k < j) }

  predicate Inside(users: seq<User>, i: nat, k: nat) { i < |users| && k < |users[i].keys| }

  /** No key before position (`n`, `j`) has the material and reaches a VM. */
  ghost predicate NoneBefore(users: seq<User>, vms: seq<Vm>, m: string, n: nat, j: nat) {
    forall i: nat, k: nat | Inside(users, i, k) && Earlier(i, k, n, j) :: !Reaches(users, vms, m, i, k)
  }

  /** It is the line of a key that reaches a VM, and no key before that one does. */
  lemma {:induction false} KeyTextIsFirst(users: seq<User>, n: nat, j: nat, vms: seq<Vm>, m: string)
    requires n <= |users| && (j > 0 ==> n < |users| && j <= |users[n].keys|)
    ensures var t := KeyText(users, n, j, vms, m);
      && (t.Some? ==> exists i: nat, k: nat ::
            && Inside(users, i, k) && Earlier(i, k, n, j) && Reaches(users, vms, m, i, k)
            && users[i].keys[k].line == t.value && NoneBefore(users, vms, m, i, k))
      && (t.None? ==> NoneBefore(users, vms, m, n, j))
    decreases n, j
  {
    if j > 0 {
      KeyTextIsFirst(users, n, j - 1, vms, m);
      var before := KeyText(users, n, j - 1, vms, m);
      if before.Some? {
        var i: nat, k: nat :| Inside(users, i, k) && Earlier(i, k, n, j - 1) && Reaches(users, vms, m, i, k)
          && users[i].keys[k].line == before.value && NoneBefore(users, vms, m, i, k);
        assert Earlier(i, k, n, j);
      } else {
        assert Inside(users, n, j - 1) && Earlier(n, j - 1, n, j);
      }
    } else if n > 0 {
      KeyTextIsFirst(users, n - 1, |users[n - 1].keys|, vms, m);
      var before := KeyText(users, n - 1, |users[n - 1].keys|, vms, m);
      if before.Some? {
        var i: nat, k: nat :| Inside(users, i, k) && Earlier(i, k, n - 1, |users[n - 1].keys|)
          && Reaches(users, vms, m, i, k)
          && users[i].keys[k].line == before.value && NoneBefore(users, vms, m, i, k);
        assert Earlier(i, k, n, 0);
      } else {
        forall i: nat, k: nat | Inside(users, i, k) && Earlier(i, k, n, 0) ensures !Reaches(users, vms, m, i, k) {
          assert Earlier(i, k, n - 1, |users[n - 1].keys|);
        }
      }
    }
  }

  /** A user without VMs gives no line to any material. */
  lemma {:induction false} NoVmsNoText(users: seq<User>, n: nat, j: nat, vms: seq<Vm>, m: string)
    requires n < |users| && j <= |users[n].keys| && VmsOf(vms, users[n].name) == {}
    ensures KeyText(users, n, j, vms, m) == KeyText(users, n, 0, vms, m)
    decreases j
  {
    if j > 0 { NoVmsNoText(users, n, j - 1, vms, m); }
  }

  predicate ListsWithin(u: User, j: nat, material: string)
    requires j <= |u.keys|
  {
    exists k | 0 <= k < j :: u.keys[k].Key? && u.keys[k].material == material
  }

  /** One user's keys. */
  method AddUser(access: Access, users: seq<User>, n: nat, vms: seq<Vm>) returns (out: Access)
    requires n < |users| && Grants(access, users, n, 0, vms)
    ensures Grants(out, users, n + 1, 0, vms)
  {
    out := access;
    var u := users[n];
    var owned := VmsOf(vms, u.name);
    if owned != {} {
      for j := 0 to |u.keys|
        invariant Grants(out, users, n, j, vms)
      {
        var key := u.keys[j];
        ghost var before := out;
        if key.Key? {
          var old' := if key.material in out then out[key.material] else Line(key.material, key.line, {});
          out := out[key.material := old'.(vms := old'.vms + owned)];
        }
        KeyStep(before, out, users, n, j, vms);
      }
    }
    UserStep(out, users, n, vms);
  }

  lemma KeyStep(before: Access, out: Access, users: seq<User>, n: nat, j: nat, vms: seq<Vm>)
    requires n < |users| && j < |users[n].keys| && Grants(before, users, n, j, vms)
    requires VmsOf(vms, users[n].name) != {}
    requires var key, owned := users[n].keys[j], VmsOf(vms, users[n].name);
      if key.Key? then
        var l := if key.material in before then before[key.material] else Line(key.material, key.line, {});
        out == before[key.material := l.(vms := l.vms + owned)]
      else out == before
    ensures Grants(out, users, n, j + 1, vms)
  {
    var u, key, owned := users[n], users[n].keys[j], VmsOf(vms, users[n].name);
    forall m ensures ListsWithin(u, j + 1, m) <==> ListsWithin(u, j, m) || (key.Key? && key.material == m) {
      if key.Key? && key.material == m { assert u.keys[j].material == m; }
    }
    forall m, v ensures Allows(out, m, v) <==> Given(users, n, j + 1, vms, m, v) {
      assert Allows(before, m, v) <==> Given(users, n, j, vms, m, v);
    }
  }

  lemma UserStep(out: Access, users: seq<User>, n: nat, vms: seq<Vm>)
    requires n < |users|
    requires if VmsOf(vms, users[n].name) == {} then Grants(out, users, n, 0, vms)
             else Grants(out, users, n, |users[n].keys|, vms)
    ensures Grants(out, users, n + 1, 0, vms)
  {
    var owned := VmsOf(vms, users[n].name);
    forall m ensures KeyText(users, n + 1, 0, vms, m) == if m in out then Some(out[m].key) else None {
      if owned == {} { NoVmsNoText(users, n, |users[n].keys|, vms, m); }
    }
    forall m, v ensures Allows(out, m, v) <==> Given(users, n + 1, 0, vms, m, v) {
      assert Allows(out, m, v) <==> Given(users, n, if owned == {} then 0 else |users[n].keys|, vms, m, v);
      assert Permits(users, n + 1, vms, m, v) <==>
        Permits(users, n, vms, m, v) || (Lists(users[n], m) && v in owned);
      assert Lists(users[n], m) <==> ListsWithin(users[n], |users[n].keys|, m);
    }
  }

  /** `_bastion_authorized_keys`: exactly one line per material that reaches some
      VM, in text order of the materials; that line permits a VM iff some registered
      user lists a key of that material and owns it, and carries the first such key
      as it was registered. `users` are in name order. */
  method AuthorizedKeys(users: seq<User>, vms: seq<Vm>) returns (lines: seq<Line>)
    ensures forall i, j | 0 <= i < j < |lines| ::
      lines[i].material != lines[j].material && Names.Before(lines[i].material, lines[j].material)
    ensures forall m, v ::
      Permits(users, |users|, vms, m, v) <==> exists i | 0 <= i < |lines| :: lines[i].material == m && v in lines[i].vms
    ensures forall i | 0 <= i < |lines| ::
      lines[i].vms != {} && Some(lines[i].key) == KeyText(users, |users|, 0, vms, lines[i].material)
  {
    var access: Access := map[];
    for n := 0 to |users|
      invariant Grants(access, users, n, 0, vms)
    {
      access := AddUser(access, users, n, vms);
    }
    var order := Names.Sorted(access.Keys);
    Names.SortedInOrder(access.Keys);
    lines := seq(|order|, i requires 0 <= i < |order| => access[order[i]]);
    forall m, v
      ensures Permits(users, |users|, vms, m, v) <==>
        exists i | 0 <= i < |lines| :: lines[i].material == m && v in lines[i].vms
    {
      if Permits(users, |users|, vms, m, v) {
        assert Given(users, |users|, 0, vms, m, v) && Allows(access, m, v);
        assert m in order;
        var i :| 0 <= i < |order| && order[i] == m;
        assert lines[i] == access[m];
      }
      if i :| 0 <= i < |lines| && lines[i].material == m && v in lines[i].vms {
        assert order[i] in access && Allows(access, m, v);
      }
    }
  }
}
