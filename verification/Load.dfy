/** Load-aware backend picking under concurrency: the in-flight counters, the
    sampled pick, and any number of requests interleaving. */
module Load {
  import opened Basics

  function CountIn(counts: map<string, int>, url: string): int { if url in counts then counts[url] else 0 }

  /** `LoadCounter`: looking a counter up creates it at zero. */
  class LoadCounter {
    var counts: map<string, int>

    constructor ()
      ensures counts == map[]
    {
      counts := map[];
    }

    method Count(url: string) returns (n: int)
      modifies this
      ensures n == CountIn(old(counts), url) && counts == old(counts)[url := n]
    {
      if url !in counts { counts := counts[url := 0]; }
      n := counts[url];
      assert counts == counts[url := n];
    }

    method Inc(url: string)
      modifies this
      ensures counts == old(counts)[url := CountIn(old(counts), url) + 1]
    {
      counts := counts[url := (if url in counts then counts[url] else 0) + 1];
    }

    method Dec(url: string)
      modifies this
      ensures counts == old(counts)[url := CountIn(old(counts), url) - 1]
    {
      counts := counts[url := (if url in counts then counts[url] else 0) - 1];
    }
  }

  // ---------------------------------------------------------------------
  // Picking
  // ---------------------------------------------------------------------

  /** The minimum the sampling loop computes, with -1 for "none yet". */
  function SampledMin(samples: seq<int>): int {
    if samples == [] then -1
    else
      var m, last := SampledMin(samples[..|samples| - 1]), samples[|samples| - 1];
      if m < 0 || last < m then last else m
  }

  /** The candidates whose sample equals the minimum, in order. */
  function Tied(candidates: seq<string>, samples: seq<int>, m: int): seq<string>
    requires |candidates| == |samples|
  {
    if candidates == [] then []
    else
      var k := |candidates| - 1;
      Tied(candidates[..k], samples[..k], m) + if samples[k] == m then [candidates[k]] else []
  }

  /** `PickBackend`: `samples` are the counts read up front, one per candidate, or
      nothing without a load tracker; `draw` is the random choice. */
  method PickBackend(candidates: seq<string>, samples: Option<seq<int>>, draw: nat) returns (url: string)
    requires candidates != [] && (samples.Some? ==> |samples.value| == |candidates|)
    ensures url in candidates
    ensures samples.None? ==> url == candidates[draw % |candidates|]
    ensures samples.Some? && 1 < |candidates| ==>
      var tied := Tied(candidates, samples.value, SampledMin(samples.value)); tied != [] && url == tied[draw % |tied|]
  {
    if |candidates| == 1 { return candidates[0]; }
    if samples.None? { return candidates[draw % |candidates|]; }
    url := PickTied(candidates, samples.value, draw);
  }

  /** The sampling and the tie break. */
  method PickTied(candidates: seq<string>, samples: seq<int>, draw: nat) returns (url: string)
    requires candidates != [] && |samples| == |candidates|
    ensures url in candidates
    ensures var tied := Tied(candidates, samples, SampledMin(samples)); tied != [] && url == tied[draw % |tied|]
  {
    var minCount := -1;
    for i := 0 to |samples|
      invariant minCount == SampledMin(samples[..i])
    {
      assert samples[..i + 1][..i] == samples[..i];
      if minCount < 0 || samples[i] < minCount { minCount := samples[i]; }
    }
    assert samples[..|samples|] == samples;
    var tied := [];
    for i := 0 to |candidates|
      invariant tied == Tied(candidates[..i], samples[..i], minCount)
    {
      assert candidates[..i + 1][..i] == candidates[..i] && samples[..i + 1][..i] == samples[..i];
      if samples[i] == minCount { tied := tied + [candidates[i]]; }
    }
    assert candidates[..|candidates|] == candidates;
    MinIsSampled(samples);
    var j :| 0 <= j < |samples| && samples[j] == minCount;
    TiedHas(candidates, samples, minCount, j);
    url := tied[draw % |tied|];
    TiedAre(candidates, samples, minCount, draw % |tied|);
  }

  /** The tie set is never empty, whatever the counters showed. */
  lemma {:induction false} MinIsSampled(samples: seq<int>)
    requires samples != []
    ensures exists j | 0 <= j < |samples| :: samples[j] == SampledMin(samples)
  {
    var init := samples[..|samples| - 1];
    assert init == [] ==> SampledMin(init) == -1;
    if init == [] || SampledMin(samples) == samples[|samples| - 1] {
      assert samples[|samples| - 1] == SampledMin(samples);
    } else {
      MinIsSampled(init);
      var j :| 0 <= j < |init| && init[j] == SampledMin(init);
      assert samples[j] == SampledMin(samples);
    }
  }

  lemma {:induction false} TiedHas(candidates: seq<string>, samples: seq<int>, m: int, j: nat)
    requires |candidates| == |samples| && j < |samples| && samples[j] == m
    ensures candidates[j] in Tied(candidates, samples, m)
  {
    var k := |candidates| - 1;
    if j < k { TiedHas(candidates[..k], samples[..k], m, j); }
  }

  lemma {:induction false} TiedAre(candidates: seq<string>, samples: seq<int>, m: int, i: nat)
    requires |candidates| == |samples| && i < |Tied(candidates, samples, m)|
    ensures exists j | 0 <= j < |candidates| :: candidates[j] == Tied(candidates, samples, m)[i] && samples[j] == m
  {
    var k := |candidates| - 1;
    var init := Tied(candidates[..k], samples[..k], m);
    if i < |init| {
      TiedAre(candidates[..k], samples[..k], m, i);
      var j :| 0 <= j < k && candidates[..k][j] == init[i] && samples[..k][j] == m;
      assert candidates[j] == init[i] && samples[j] == m;
    } else {
      assert candidates[k] == Tied(candidates, samples, m)[i] && samples[k] == m;
    }
  }

  /** With no negative sample the sentinel is sound: it is a true minimum. */
  lemma {:induction false} SampledMinIsLeast(samples: seq<int>)
    requires forall i | 0 <= i < |samples| :: 0 <= samples[i]
    ensures forall i | 0 <= i < |samples| :: SampledMin(samples) <= samples[i]
    ensures samples != [] ==> 0 <= SampledMin(samples)
  {
    if samples != [] { SampledMinIsLeast(samples[..|samples| - 1]); }
  }

  /** A negative counter would break it: the sentinel forgets the true minimum. */
  lemma NegativeSampleMisleads()
    ensures SampledMin([-1, 5]) == 5
  {
    assert [-1, 5][..1] == [-1] && [-1][..0] == [];
    assert SampledMin([-1]) == -1;
  }

  // ---------------------------------------------------------------------
  // Requests interleaving
  // ---------------------------------------------------------------------

  /** A request between two shared-memory steps: reading the counters of its
      remaining candidates one by one, or waiting on an upstream attempt. */
  datatype Request =
    | Sampling(remaining: seq<string>, samples: seq<int>)
    | Attempting(url: string, rest: seq<string>)
    | Answered

  datatype Proxy = Proxy(counts: map<string, int>, requests: map<nat, Request>)

  /** `Settle` ends an attempt, either answering or going on to the rest; it runs
      the deferred decrement however the attempt ended. */
  datatype Action =
    | Arrive(pid: nat, candidates: seq<string>)
    | Sample(pid: nat)
    | Pick(pid: nat, draw: nat)
    | Settle(pid: nat, retry: bool)
    | GiveUp(pid: nat)

  function RemoveFirst(s: seq<string>, url: string): seq<string> {
    if s == [] then [] else if s[0] == url then s[1..] else [s[0]] + RemoveFirst(s[1..], url)
  }

  predicate ReadyToPick(r: Request) {
    r.Sampling? && r.remaining != [] && (|r.remaining| == 1 || |r.samples| == |r.remaining|)
  }

  /** The backend a ready request picks. */
  function Picked(r: Request, draw: nat): string
    requires ReadyToPick(r)
  {
    if |r.remaining| == 1 then r.remaining[0]
    else
      var tied := Tied(r.remaining, r.samples, SampledMin(r.samples));
      if tied == [] then r.remaining[0] else tied[draw % |tied|]
  }

  function Next(x: Proxy, a: Action): Proxy {
    if a.Arrive? then
      if a.pid in x.requests then x else x.(requests := x.requests[a.pid := Sampling(a.candidates, [])])
    else if a.pid !in x.requests then x
    else
      var r := x.requests[a.pid];
      match a
      case Sample(pid) =>
        if r.Sampling? && 1 < |r.remaining| && |r.samples| < |r.remaining| then
          var url := r.remaining[|r.samples|];
          var n := CountIn(x.counts, url);
          Proxy(x.counts[url := n], x.requests[pid := r.(samples := r.samples + [n])])
        else x
      case Pick(pid, draw) =>
        if ReadyToPick(r) then
          var url := Picked(r, draw);
          Proxy(x.counts[url := CountIn(x.counts, url) + 1],
                x.requests[pid := Attempting(url, RemoveFirst(r.remaining, url))])
        else x
      case Settle(pid, retry) =>
        if r.Attempting? then
          Proxy(x.counts[r.url := CountIn(x.counts, r.url) - 1],
                x.requests[pid := if retry && r.rest != [] then Sampling(r.rest, []) else Answered])
        else x
      case GiveUp(pid) => if r.Sampling? then x.(requests := x.requests[pid := Answered]) else x
  }

  /** The handler's part of it in place: the shared counters, and the steps that
      read and write them. */
  class Handler {
    const load: LoadCounter
    var requests: map<nat, Request>

    constructor ()
      ensures State() == Proxy(map[], map[]) && fresh(load)
    {
      load := new LoadCounter();
      requests := map[];
    }

    ghost function State(): Proxy
      reads this, load
    {
      Proxy(load.counts, requests)
    }

    /** One counter read of the sampling loop. */
    method SampleNext(pid: nat)
      modifies this, load
      ensures State() == Next(old(State()), Sample(pid))
    {
      if pid !in requests { return; }
      var r := requests[pid];
      if !r.Sampling? || |r.remaining| <= 1 || |r.remaining| <= |r.samples| { return; }
      var n := load.Count(r.remaining[|r.samples|]);
      requests := requests[pid := r.(samples := r.samples + [n])];
    }

    /** The pick, and the increment that opens the attempt. */
    method Begin(pid: nat, draw: nat)
      modifies this, load
      ensures State() == Next(old(State()), Pick(pid, draw))
    {
      if pid !in requests || !ReadyToPick(requests[pid]) { return; }
      var r := requests[pid];
      var samples := if |r.remaining| == 1 then None else Some(r.samples);
      var url := PickBackend(r.remaining, samples, draw);
      load.Inc(url);
      requests := requests[pid := Attempting(url, RemoveFirst(r.remaining, url))];
    }

    /** The end of the attempt with its deferred decrement. */
    method End(pid: nat, retry: bool)
      modifies this, load
      ensures State() == Next(old(State()), Settle(pid, retry))
    {
      if pid !in requests || !requests[pid].Attempting? { return; }
      var r := requests[pid];
      load.Dec(r.url);
      requests := requests[pid := if retry && r.rest != [] then Sampling(r.rest, []) else Answered];
    }
  }

  function Run(x: Proxy, actions: seq<Action>): Proxy {
    if actions == [] then x else Next(Run(x, actions[..|actions| - 1]), actions[|actions| - 1])
  }

  /** The requests with an attempt in flight to `url`. */
  function InFlight(requests: map<nat, Request>, url: string): set<nat> {
    set pid | pid in requests && requests[pid].Attempting? && requests[pid].url == url
  }

  ghost predicate CountsMatch(counts: map<string, int>, requests: map<nat, Request>) {
    forall url :: CountIn(counts, url) == |InFlight(requests, url)|
  }

  predicate SamplesSound(r: Request) {
    r.Sampling? ==> |r.samples| <= |r.remaining| && forall i | 0 <= i < |r.samples| :: 0 <= r.samples[i]
  }

  ghost predicate Exact(x: Proxy) {
    CountsMatch(x.counts, x.requests) && forall pid | pid in x.requests :: SamplesSound(x.requests[pid])
  }

  /** 1 if the request has an attempt in flight to `url`. */
  function To(r: Option<Request>, url: string): int {
    if r.Some? && r.value.Attempting? && r.value.url == url then 1 else 0
  }

  /** Replacing one request moves at most that request in or out of flight. */
  lemma InFlightUpdate(requests: map<nat, Request>, pid: nat, r: Request, url: string)
    ensures |InFlight(requests[pid := r], url)|
      == |InFlight(requests, url)| - To(Get(requests, pid), url) + To(Some(r), url)
  {
    var before, after := InFlight(requests, url), InFlight(requests[pid := r], url);
    assert after == if To(Some(r), url) == 1 then before + {pid} else before - {pid};
    assert pid in before <==> To(Get(requests, pid), url) == 1;
  }

  /** Counters that move with the request keep matching. */
  lemma MatchUpdate(counts: map<string, int>, after: map<string, int>, requests: map<nat, Request>, pid: nat,
                    r: Request)
    requires CountsMatch(counts, requests)
    requires forall url ::
      CountIn(after, url) == CountIn(counts, url) - To(Get(requests, pid), url) + To(Some(r), url)
    ensures CountsMatch(after, requests[pid := r])
  {
    forall url ensures CountIn(after, url) == |InFlight(requests[pid := r], url)| {
      InFlightUpdate(requests, pid, r, url);
    }
  }

  lemma NextExact(x: Proxy, a: Action)
    requires Exact(x)
    ensures Exact(Next(x, a))
  {
    var y := Next(x, a);
    if y != x {
      MatchUpdate(x.counts, y.counts, x.requests, a.pid, y.requests[a.pid]);
      assert y.requests == x.requests[a.pid := y.requests[a.pid]];
      if a.Sample? {
        var r := x.requests[a.pid];
        assert SamplesSound(r) && 0 <= CountIn(x.counts, r.remaining[|r.samples|]);
      }
      assert SamplesSound(y.requests[a.pid]);
    }
  }

  /** Under every interleaving the counter of a backend equals the attempts in
      flight to it: never negative, and zero when idle. */
  lemma {:induction false} CountersExact(x: Proxy, actions: seq<Action>)
    requires Exact(x)
    ensures var y := Run(x, actions);
      && Exact(y)
      && (forall url :: 0 <= CountIn(y.counts, url))
      && ((forall pid | pid in y.requests :: !y.requests[pid].Attempting?) ==>
          forall url :: CountIn(y.counts, url) == 0)
  {
    if actions != [] {
      CountersExact(x, actions[..|actions| - 1]);
      NextExact(Run(x, actions[..|actions| - 1]), actions[|actions| - 1]);
    }
    var y := Run(x, actions);
    if forall pid | pid in y.requests :: !y.requests[pid].Attempting? {
      forall url ensures CountIn(y.counts, url) == 0 { assert InFlight(y.requests, url) == {}; }
    }
  }

  /** A proxy starts without counters and requests, with every counter reading zero. */
  lemma StartsIdle(url: string)
    ensures Exact(Proxy(map[], map[])) && CountIn(Proxy(map[], map[]).counts, url) == 0
  {
  }

  /** A request with one candidate picks it at once, without reading a counter; one
      with more picks when it has read the counter of each. */
  lemma ReadyWhen(x: Proxy, pid: nat)
    requires pid in x.requests && x.requests[pid].Sampling? && x.requests[pid].remaining != []
    ensures var r := x.requests[pid];
      && (ReadyToPick(r) <==> |r.remaining| == 1 || |r.samples| == |r.remaining|)
      && (|r.remaining| == 1 ==> Next(x, Sample(pid)) == x && Picked(r, 0) == r.remaining[0])
  {
  }

  /** What a sampling step reads is the number of attempts then in flight to the next
      candidate, and nothing else of the request changes. */
  lemma SamplesInFlight(x: Proxy, actions: seq<Action>, pid: nat)
    requires Exact(x)
    requires var y := Run(x, actions);
      pid in y.requests && y.requests[pid].Sampling? && |y.requests[pid].samples| < |y.requests[pid].remaining|
      && 1 < |y.requests[pid].remaining|
    ensures var y := Run(x, actions);
      var r := y.requests[pid];
      Next(y, Sample(pid)).requests
      == y.requests[pid := r.(samples := r.samples + [|InFlight(y.requests, r.remaining[|r.samples|])|])]
  {
    CountersExact(x, actions);
  }

  /** The life of a request: it starts with all its candidates; a pick takes one of them
      out, once, and opens one attempt; an attempt that is to be retried goes back to
      the others with no samples, any other ends the request. */
  lemma RequestLife(x: Proxy, pid: nat, candidates: seq<string>, draw: nat, retry: bool)
    ensures pid !in x.requests ==>
      Next(x, Arrive(pid, candidates)) == x.(requests := x.requests[pid := Sampling(candidates, [])])
    ensures pid in x.requests && ReadyToPick(x.requests[pid]) && SamplesSound(x.requests[pid]) ==>
      var r, y := x.requests[pid], Next(x, Pick(pid, draw));
      && y.requests == x.requests[pid := y.requests[pid]] && y.requests[pid].Attempting?
      && multiset(r.remaining) == multiset(y.requests[pid].rest) + multiset{y.requests[pid].url}
    ensures pid in x.requests && x.requests[pid].Attempting? ==>
      var r := x.requests[pid];
      Next(x, Settle(pid, retry)).requests
      == x.requests[pid := if retry && r.rest != [] then Sampling(r.rest, []) else Answered]
  {
    if pid in x.requests && ReadyToPick(x.requests[pid]) && SamplesSound(x.requests[pid]) {
      PickedIsCandidate(x.requests[pid], draw);
      RemoveOnce(x.requests[pid].remaining, Picked(x.requests[pid], draw));
    }
  }

  lemma PickedIsCandidate(r: Request, draw: nat)
    requires ReadyToPick(r)
    ensures Picked(r, draw) in r.remaining
  {
    if |r.remaining| > 1 {
      var tied := Tied(r.remaining, r.samples, SampledMin(r.samples));
      if tied != [] { TiedAre(r.remaining, r.samples, SampledMin(r.samples), draw % |tied|); }
    }
  }

  lemma {:induction false} RemoveOnce(s: seq<string>, url: string)
    requires url in s
    ensures |RemoveFirst(s, url)| == |s| - 1
    ensures multiset(s) == multiset(RemoveFirst(s, url)) + multiset{url}
  {
    assert s == [s[0]] + s[1..];
    if s[0] != url { RemoveOnce(s[1..], url); }
  }

  /** So in every reachable state a ready request picks one of its candidates with
      the least sampled count. */
  lemma PicksLeastLoaded(x: Proxy, actions: seq<Action>, pid: nat, draw: nat)
    requires Exact(x)
    requires var y := Run(x, actions);
      pid in y.requests && ReadyToPick(y.requests[pid]) && 1 < |y.requests[pid].remaining|
    ensures var r := Run(x, actions).requests[pid];
      exists j | 0 <= j < |r.remaining| ::
        r.remaining[j] == Picked(r, draw) && forall i | 0 <= i < |r.samples| :: r.samples[j] <= r.samples[i]
  {
    CountersExact(x, actions);
    var r := Run(x, actions).requests[pid];
    var m := SampledMin(r.samples);
    SampledMinIsLeast(r.samples);
    MinIsSampled(r.samples);
    var k :| 0 <= k < |r.samples| && r.samples[k] == m;
    TiedHas(r.remaining, r.samples, m, k);
    var tied := Tied(r.remaining, r.samples, m);
    TiedAre(r.remaining, r.samples, m, draw % |tied|);
    var j :| 0 <= j < |r.remaining| && r.remaining[j] == tied[draw % |tied|] && r.samples[j] == m;
    assert r.remaining[j] == Picked(r, draw);
  }
}
