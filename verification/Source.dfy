/** The proxy's etcd view: a full load at start, then watch batches applied on
    top. Compared here with a fresh load of the resulting store. */
module Source {
  import opened Basics
  import opened Acl

  datatype Backend = MissingBase | NotAUrl | Url(url: string)

  /** A stored value, already decoded as far as it can be. */
  datatype Value = NotJson | Json(backends: seq<Backend>, acl: Option<Rule>)

  datatype Parsed = Parsed(urls: seq<string>, acl: Option<Rule>)

  function GoodUrls(backends: seq<Backend>): seq<string> {
    if backends == [] then []
    else
      var b := backends[|backends| - 1];
      GoodUrls(backends[..|backends| - 1]) + if b.Url? then [b.url] else []
  }

  /** `parseKV`: a value counts only if at least one backend is usable. */
  function ParseKv(v: Value): Option<Parsed> {
    if v.NotJson? || GoodUrls(v.backends) == [] then None else Some(Parsed(GoodUrls(v.backends), v.acl))
  }

  /** The usable backends of a list, in its order. */
  lemma {:induction false} UsableInOrder(a: seq<Backend>, b: seq<Backend>, u: string)
    ensures GoodUrls(a + b) == GoodUrls(a) + GoodUrls(b)
    ensures GoodUrls([Url(u)]) == [u] && GoodUrls([MissingBase]) == [] && GoodUrls([NotAUrl]) == []
  {
    assert [Url(u)][..0] == [] && [MissingBase][..0] == [] && [NotAUrl][..0] == [];
    if b == [] {
      assert a + b == a;
    } else {
      assert (a + b)[..|a + b| - 1] == a + b[..|b| - 1];
      UsableInOrder(a, b[..|b| - 1], u);
    }
  }

  lemma {:induction false} UsableSome(backends: seq<Backend>)
    ensures GoodUrls(backends) != [] <==> exists i | 0 <= i < |backends| :: backends[i].Url?
  {
    if backends != [] { UsableSome(backends[..|backends| - 1]); }
  }

  /** `parseKV` in place: a value counts iff it is JSON with a usable backend; what it
      yields are its usable URLs in order and its rules as they are. */
  method ParseValue(v: Value) returns (r: Option<Parsed>)
    ensures r == ParseKv(v)
    ensures r.Some? <==> v.Json? && exists i | 0 <= i < |v.backends| :: v.backends[i].Url?
    ensures r.Some? ==> r.value.acl == v.acl && r.value.urls == GoodUrls(v.backends)
  {
    if v.Json? { UsableSome(v.backends); }
    if v.NotJson? || |v.backends| == 0 { return None; }
    var urls := [];
    for k := 0 to |v.backends|
      invariant urls == GoodUrls(v.backends[..k])
    {
      assert v.backends[..k + 1][..k] == v.backends[..k];
      if v.backends[k].Url? { urls := urls + [v.backends[k].url]; }
    }
    assert v.backends[..|v.backends|] == v.backends;
    if urls == [] { return None; }
    return Some(Parsed(urls, v.acl));
  }

  type Store = map<string, Value>

  /** Backends and inline rules per model. */
  datatype View = View(backends: map<string, seq<string>>, rules: map<string, Rule>)

  /** What a fresh start would load. */
  function Load(store: Store): View {
    View(map m | m in store && ParseKv(store[m]).Some? :: ParseKv(store[m]).value.urls,
         map m | m in store && ParseKv(store[m]).Some? && ParseKv(store[m]).value.acl.Some? ::
           ParseKv(store[m]).value.acl.value)
  }

  datatype Event = Put(model: string, value: Value) | Delete(model: string)

  function Stored(store: Store, e: Event): Store {
    if e.Put? then store[e.model := e.value] else store - {e.model}
  }

  function StoredAll(store: Store, events: seq<Event>): Store {
    if events == [] then store else Stored(StoredAll(store, events[..|events| - 1]), events[|events| - 1])
  }

  /** One watch event on the view. A put that does not parse keeps the backends
      but drops the rules. */
  function Applied(v: View, e: Event): View {
    match e
    case Put(m, value) =>
      var p := ParseKv(value);
      View(if p.Some? then v.backends[m := p.value.urls] else v.backends,
           if p.Some? && p.value.acl.Some? then v.rules[m := p.value.acl.value] else v.rules - {m})
    case Delete(m) => View(v.backends - {m}, v.rules - {m})
  }

  function AppliedAll(v: View, events: seq<Event>): View {
    if events == [] then v else Applied(AppliedAll(v, events[..|events| - 1]), events[|events| - 1])
  }

  function Flatten(batches: seq<seq<Event>>): seq<Event> {
    if batches == [] then [] else Flatten(batches[..|batches| - 1]) + batches[|batches| - 1]
  }

  function AppliedBatches(v: View, batches: seq<seq<Event>>): View {
    if batches == [] then v else AppliedAll(AppliedBatches(v, batches[..|batches| - 1]), batches[|batches| - 1])
  }

  class EtcdSource {
    var snapshot: map<string, seq<string>>
    var aclModels: map<string, Rule>

    constructor ()
      ensures Current() == View(map[], map[])
    {
      snapshot, aclModels := map[], map[];
    }

    ghost function Current(): View
      reads this
    {
      View(snapshot, aclModels)
    }

    /** `Start`: `listing` is every model the prefix holds, each once. */
    method Start(store: Store, listing: seq<string>)
      requires (forall m :: m in listing <==> m in store)
      modifies this
      ensures Current() == Load(store)
    {
      var m, a := map[], map[];
      for k := 0 to |listing|
        invariant forall n :: n in m <==> n in listing[..k] && ParseKv(store[n]).Some?
        invariant forall n | n in m :: m[n] == ParseKv(store[n]).value.urls
        invariant forall n :: n in a <==> n in m && ParseKv(store[n]).value.acl.Some?
        invariant forall n | n in a :: a[n] == ParseKv(store[n]).value.acl.value
      {
        var name := listing[k];
        assert listing[..k + 1] == listing[..k] + [name];
        var p := ParseValue(store[name]);
        if p.Some? {
          m := m[name := p.value.urls];
          if p.value.acl.Some? { a := a[name := p.value.acl.value]; }
        }
      }
      assert listing[..|listing|] == listing;
      assert m == Load(store).backends && a == Load(store).rules;
      snapshot, aclModels := m, a;
    }

    /** One watch response. */
    method WatchBatch(events: seq<Event>)
      modifies this
      ensures Current() == AppliedAll(old(Current()), events)
    {
      var m, a := snapshot, aclModels;
      for k := 0 to |events|
        invariant View(m, a) == AppliedAll(old(Current()), events[..k])
      {
        assert events[..k + 1][..k] == events[..k];
        match events[k] {
          case Put(name, value) =>
            var p := ParseValue(value);
            if p.Some? { m := m[name := p.value.urls]; }
            if p.Some? && p.value.acl.Some? { a := a[name := p.value.acl.value]; } else { a := a - {name}; }
          case Delete(name) =>
            m, a := m - {name}, a - {name};
        }
      }
      assert events[..|events|] == events;
      snapshot, aclModels := m, a;
    }
  }

  // ---------------------------------------------------------------------
  // Incremental against fresh
  // ---------------------------------------------------------------------

  lemma {:induction false} AppliedConcat(v: View, a: seq<Event>, b: seq<Event>)
    ensures AppliedAll(v, a + b) == AppliedAll(AppliedAll(v, a), b)
  {
    if b == [] {
      assert a + b == a;
    } else {
      assert (a + b)[..|a + b| - 1] == a + b[..|b| - 1];
      AppliedConcat(v, a, b[..|b| - 1]);
    }
  }

  /** How the events are batched makes no difference. */
  lemma {:induction false} BatchingIrrelevant(v: View, batches: seq<seq<Event>>)
    ensures AppliedBatches(v, batches) == AppliedAll(v, Flatten(batches))
  {
    if batches != [] {
      BatchingIrrelevant(v, batches[..|batches| - 1]);
      AppliedConcat(v, Flatten(batches[..|batches| - 1]), batches[|batches| - 1]);
    }
  }

  /** The view agrees with the store: the rules are exactly those of a fresh load,
      and the backends are those of a fresh load wherever the stored value parses. */
  ghost predicate Follows(v: View, store: Store) {
    && v.rules == Load(store).rules
    && (forall m | m in Load(store).backends :: m in v.backends && v.backends[m] == Load(store).backends[m])
    && (forall m | m in v.backends :: m in store)
  }

  lemma AppliedFollows(v: View, store: Store, e: Event)
    requires Follows(v, store)
    ensures Follows(Applied(v, e), Stored(store, e))
  {
    var w, after := Applied(v, e), Stored(store, e);
    forall m ensures m in w.rules <==> m in Load(after).rules {
      if m != e.model { assert m in v.rules <==> m in Load(store).rules; }
    }
    forall m | m in w.rules ensures w.rules[m] == Load(after).rules[m] {
      if m != e.model { assert v.rules[m] == Load(store).rules[m]; }
    }
  }

  lemma {:induction false} AlwaysFollows(store: Store, events: seq<Event>)
    ensures Follows(AppliedAll(Load(store), events), StoredAll(store, events))
  {
    if events != [] {
      var init := events[..|events| - 1];
      AlwaysFollows(store, init);
      AppliedFollows(AppliedAll(Load(store), init), StoredAll(store, init), events[|events| - 1]);
    }
  }

  /** For every stream and every batching, parseable or not: the rules equal those
      of a fresh load, and every model with rules has backends. */
  lemma RulesAlwaysFresh(store: Store, batches: seq<seq<Event>>)
    ensures var v, after := AppliedBatches(Load(store), batches), StoredAll(store, Flatten(batches));
      && v.rules == Load(after).rules
      && (forall m | m in v.rules :: m in v.backends && v.backends[m] == Load(after).backends[m])
  {
    BatchingIrrelevant(Load(store), batches);
    AlwaysFollows(store, Flatten(batches));
  }

  // When the backends are fresh as well

  predicate ParsesAt(store: Store, m: string) { m in store && ParseKv(store[m]).Some? }

  /** At position `i` (0 is the initial load) the model had a value that parses. */
  predicate GoodAt(store: Store, events: seq<Event>, m: string, i: nat)
    requires i <= |events|
  {
    if i == 0 then ParsesAt(store, m)
    else events[i - 1].Put? && events[i - 1].model == m && ParseKv(events[i - 1].value).Some?
  }

  /** It once had a value that parses and has not been deleted since. */
  predicate OnceGood(store: Store, events: seq<Event>, m: string) {
    exists i | 0 <= i <= |events| ::
      GoodAt(store, events, m, i) && forall j | i <= j < |events| :: events[j] != Delete(m)
  }

  lemma {:induction false} KeptIffOnceGood(store: Store, events: seq<Event>, m: string)
    ensures m in AppliedAll(Load(store), events).backends <==> OnceGood(store, events, m)
  {
    if events == [] {
      assert GoodAt(store, events, m, 0) == ParsesAt(store, m);
    } else {
      var init, e := events[..|events| - 1], events[|events| - 1];
      KeptIffOnceGood(store, init, m);
      if OnceGood(store, init, m) && e != Delete(m) {
        var i :| 0 <= i <= |init| && GoodAt(store, init, m, i) && forall j | i <= j < |init| :: init[j] != Delete(m);
        assert GoodAt(store, events, m, i);
        assert forall j | i <= j < |events| :: events[j] != Delete(m);
      }
      if GoodAt(store, events, m, |events|) {
        assert OnceGood(store, events, m);
      } else if OnceGood(store, events, m) {
        var i :| 0 <= i <= |events| && GoodAt(store, events, m, i)
          && forall j | i <= j < |events| :: events[j] != Delete(m);
        assert GoodAt(store, init, m, i);
        assert forall j | i <= j < |init| :: init[j] == events[j];
        assert events[|events| - 1] != Delete(m);
      }
    }
  }

  /** A view that follows the store has the fresh backends iff every model in it parses. */
  lemma FreshKeys(v: View, store: Store)
    requires Follows(v, store)
    ensures v.backends == Load(store).backends <==> forall m | m in v.backends :: ParsesAt(store, m)
  {
    assert forall m :: m in Load(store).backends <==> ParsesAt(store, m);
    if forall m | m in v.backends :: ParsesAt(store, m) {
      assert v.backends.Keys == Load(store).backends.Keys;
    }
  }

  /** The backends equal a fresh load iff no model is left with a value that does
      not parse after one that did; in particular whenever every value parses. */
  lemma BackendsFreshIff(store: Store, batches: seq<seq<Event>>)
    ensures var v, after := AppliedBatches(Load(store), batches), StoredAll(store, Flatten(batches));
      v.backends == Load(after).backends
      <==> forall m | OnceGood(store, Flatten(batches), m) :: ParsesAt(after, m)
  {
    var events := Flatten(batches);
    var v, after := AppliedBatches(Load(store), batches), StoredAll(store, events);
    BatchingIrrelevant(Load(store), batches);
    AlwaysFollows(store, events);
    forall m ensures m in v.backends <==> OnceGood(store, events, m) { KeptIffOnceGood(store, events, m); }
    FreshKeys(v, after);
  }

  /** A put that stops parsing leaves the old backend in place, where a fresh load
      has none. */
  lemma UnparseablePutKeepsBackend()
    ensures var store := map["m" := Json([Url("u")], None)];
      var v := AppliedBatches(Load(store), [[Put("m", NotJson)]]);
      "m" in v.backends && "m" !in Load(StoredAll(store, [Put("m", NotJson)])).backends
  {
    var store: Store := map["m" := Json([Url("u")], None)];
    var e := Put("m", NotJson);
    assert [Url("u")][..0] == [] && GoodUrls([Url("u")]) == ["u"];
    assert [[e]][..0] == [] && [e][..0] == [];
    assert AppliedAll(Load(store), [e]) == Applied(AppliedAll(Load(store), []), e);
    assert AppliedBatches(Load(store), [[e]]) == AppliedAll(AppliedBatches(Load(store), []), [e]);
    assert StoredAll(store, [e]) == Stored(store, e);
  }

  predicate AllParse(events: seq<Event>) {
    forall i | 0 <= i < |events| && events[i].Put? :: ParseKv(events[i].value).Some?
  }

  lemma {:induction false} ParsingStreamParses(store: Store, events: seq<Event>, m: string)
    requires AllParse(events) && OnceGood(store, events, m)
    ensures ParsesAt(StoredAll(store, events), m)
  {
    var i :| 0 <= i <= |events| && GoodAt(store, events, m, i)
      && forall j | i <= j < |events| :: events[j] != Delete(m);
    if events != [] {
      var init, e := events[..|events| - 1], events[|events| - 1];
      if !(e.Put? && e.model == m) {
        assert i < |events| && GoodAt(store, init, m, i) && forall j | i <= j < |init| :: init[j] == events[j];
        assert OnceGood(store, init, m);
        ParsingStreamParses(store, init, m);
      }
    }
  }

  /** With every put value parseable, incremental and fresh views are equal,
      however the events were batched. */
  lemma ParsingStreamsAreFresh(store: Store, batches: seq<seq<Event>>)
    requires AllParse(Flatten(batches))
    ensures AppliedBatches(Load(store), batches) == Load(StoredAll(store, Flatten(batches)))
  {
    RulesAlwaysFresh(store, batches);
    BackendsFreshIff(store, batches);
    forall m | OnceGood(store, Flatten(batches), m) ensures ParsesAt(StoredAll(store, Flatten(batches)), m) {
      ParsingStreamParses(store, Flatten(batches), m);
    }
  }
}
