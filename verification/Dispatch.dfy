/** Retry dispatch: candidates are tried in load-aware order until one answer is
    terminal, and the candidate slice shared with other requests stays intact. */
module Dispatch {
  import opened Basics
  import opened Load

  // ---------------------------------------------------------------------
  // Go slices
  // ---------------------------------------------------------------------

  /** A window on a shared array: `len` elements from `off`, room for `cap`. */
  datatype Slice = Slice(data: array<string>, off: nat, len: nat, cap: nat)

  predicate WellFormed(s: Slice) { s.off + s.cap <= s.data.Length && s.len <= s.cap }

  function Elements(s: Slice): seq<string>
    requires WellFormed(s)
    reads s.data
  {
    s.data[s.off..s.off + s.len]
  }

  /** The built-in append: with room to spare it writes into the shared array. */
  method Append(s: Slice, xs: seq<string>) returns (r: Slice)
    requires WellFormed(s)
    modifies if xs != [] && s.len + |xs| <= s.cap then {s.data} else {}
    ensures WellFormed(r) && Elements(r) == old(Elements(s)) + xs
    ensures xs == [] ==> r == s
    ensures s.len + |xs| > s.cap ==> fresh(r.data)
  {
    if xs == [] { return s; }
    if s.len + |xs| <= s.cap {
      for k := 0 to |xs|
        invariant s.data[s.off..s.off + s.len] == old(Elements(s))
        invariant s.data[s.off + s.len..s.off + s.len + k] == xs[..k]
      {
        s.data[s.off + s.len + k] := xs[k];
      }
      return s.(len := s.len + |xs|);
    }
    var all := Elements(s) + xs;
    var data := new string[|all|](i requires 0 <= i < |all| => all[i]);
    r := Slice(data, 0, |all|, |all|);
    assert data[..] == all;
  }

  method FindUrl(s: Slice, url: string) returns (i: nat)
    requires WellFormed(s)
    ensures i <= s.len && url !in Elements(s)[..i] && (i < s.len ==> Elements(s)[i] == url)
  {
    i := 0;
    while i < s.len && s.data[s.off + i] != url
      invariant i <= s.len && url !in Elements(s)[..i]
    {
      assert Elements(s)[..i + 1] == Elements(s)[..i] + [Elements(s)[i]];
      i := i + 1;
    }
  }

  /** `removeURL`: the capacity of the front part is cut to its length, so the
      append cannot reach the shared array. The method has no modifies clause:
      nothing that existed before the call changes. */
  method RemoveUrl(s: Slice, url: string) returns (r: Slice)
    requires WellFormed(s)
    ensures WellFormed(r) && Elements(r) == RemoveFirst(Elements(s), url)
  {
    var i := FindUrl(s, url);
    if i == s.len {
      assert Elements(s)[..i] == Elements(s);
      RemoveAbsent(Elements(s), url);
      return s;
    }
    RemoveAt(Elements(s), url, i);
    var back := s.data[s.off + i + 1..s.off + s.len];
    assert back == Elements(s)[i + 1..];
    var front := Slice(s.data, s.off, i, i);
    assert Elements(front) == Elements(s)[..i];
    r := Append(front, back);
  }

  lemma {:induction false} RemoveAt(s: seq<string>, url: string, i: nat)
    requires i < |s| && s[i] == url && url !in s[..i]
    ensures RemoveFirst(s, url) == s[..i] + s[i + 1..]
  {
    if i > 0 {
      assert s[0] in s[..i];
      assert forall x | x in s[1..][..i - 1] :: x in s[..i] by {
        assert s[1..][..i - 1] == s[1..i];
      }
      RemoveAt(s[1..], url, i - 1);
      assert [s[0]] + (s[1..][..i - 1] + s[1..][i..]) == s[..i] + s[i + 1..];
    }
  }

  lemma {:induction false} RemoveAbsent(s: seq<string>, url: string)
    requires url !in s
    ensures RemoveFirst(s, url) == s
  {
    if s != [] { RemoveAbsent(s[1..], url); }
  }

  // ---------------------------------------------------------------------
  // One attempt
  // ---------------------------------------------------------------------

  /** How an upstream attempt ends: the request could not be built, the client
      went away meanwhile, the backend could not be reached, or it answered. */
  datatype Outcome = BuildFailed | ClientGone | Unreachable | Status(code: int)

  const BAD_GATEWAY: int := 502
  const INTERNAL_ERROR: int := 500

  predicate RetryableStatus(code: int) { code >= 500 || code == 429 || code == 404 }

  /** An outcome worth another candidate. */
  predicate Retryable(o: Outcome) { o.Unreachable? || (o.Status? && RetryableStatus(o.code)) }

  /** The status written for an attempt that ends the request. */
  function Answer(o: Outcome): int
    requires !o.ClientGone?
  {
    match o
    case BuildFailed => INTERNAL_ERROR
    case Unreachable => BAD_GATEWAY
    case Status(code) => code
  }

  /** `tryOnce`: what it writes, and whether the request is over. */
  method TryOnce(o: Outcome, lastTry: bool) returns (written: seq<int>, done: bool)
    ensures done <==> lastTry || !Retryable(o)
    ensures written == if done && !o.ClientGone? then [Answer(o)] else []
    // a backend that cannot be reached and the statuses 404, 429 and 500 up are retried
    ensures !done <==>
      !lastTry && (o.Unreachable? || (o.Status? && (o.code == 404 || o.code == 429 || 500 <= o.code)))
    // the client sees the backend's own status, 502 for one not reached, 500 for a
    // request that could not be built, and nothing once it has gone
    ensures done ==>
      && (o.BuildFailed? ==> written == [500]) && (o.ClientGone? ==> written == [])
      && (o.Unreachable? ==> written == [502]) && (o.Status? ==> written == [o.code])
  {
    match o
    case BuildFailed => return [INTERNAL_ERROR], true;
    case ClientGone => return [], true;
    case Unreachable =>
      if lastTry { return [BAD_GATEWAY], true; }
      return [], false;
    case Status(code) =>
      if RetryableStatus(code) && !lastTry { return [], false; }
      return [code], true;
  }

  // ---------------------------------------------------------------------
  // The loop
  // ---------------------------------------------------------------------

  datatype Attempt = Attempt(url: string, outcome: Outcome)

  function Urls(trace: seq<Attempt>): seq<string> {
    if trace == [] then [] else Urls(trace[..|trace| - 1]) + [trace[|trace| - 1].url]
  }

  /** What has been tried and what is left make up the candidates. */
  predicate Spent(all: multiset<string>, trace: seq<Attempt>, left: multiset<string>) {
    multiset(Urls(trace)) + left == all
  }

  lemma SpentStep(all: multiset<string>, trace: seq<Attempt>, a: Attempt, before: multiset<string>,
                  after: multiset<string>)
    requires Spent(all, trace, before) && before == after + multiset{a.url}
    ensures Spent(all, trace + [a], after)
  {
    assert (trace + [a])[..|trace|] == trace;
    assert Urls(trace + [a]) == Urls(trace) + [a.url];
  }

  /** Everything that varies from one attempt to the next: counter readings for
      the candidates in play (if load is tracked at all), the tie-break, the outcome, and whether the client
      has left before it. */
  datatype World = World(
    tracked: bool, samples: (nat, nat) -> int, draw: nat -> nat, outcome: nat -> Outcome, left: nat -> bool)

  function Samples(w: World, k: nat, remaining: seq<string>): seq<int> {
    seq(|remaining|, i requires 0 <= i < |remaining| => w.samples(k, i))
  }

  /** Pick the next candidate and narrow the retry set. */
  method TakeOne(remaining: Slice, w: World, k: nat) returns (url: string, rest: Slice)
    requires WellFormed(remaining) && remaining.len > 0
    ensures WellFormed(rest) && rest.len == remaining.len - 1
    ensures multiset(Elements(remaining)) == multiset(Elements(rest)) + multiset{url}
    ensures w.tracked && remaining.len > 1 ==>
      var samples := Samples(w, k, Elements(remaining));
      url in Tied(Elements(remaining), samples, SampledMin(samples))
  {
    var left := Elements(remaining);
    url := PickBackend(left, if w.tracked then Some(Samples(w, k, left)) else None, w.draw(k));
    RemoveOnce(left, url);
    rest := RemoveUrl(remaining, url);
  }

  /** The attempts happened in the given world, and each but the last was retryable. */
  predicate Retried(w: World, trace: seq<Attempt>) {
    && (forall k | 0 <= k < |trace| :: trace[k].outcome == w.outcome(k))
    && (forall k | 0 <= k < |trace| - 1 :: Retryable(trace[k].outcome))
  }

  lemma RetriedAppend(w: World, trace: seq<Attempt>, a: Attempt)
    requires Retried(w, trace) && (trace != [] ==> Retryable(trace[|trace| - 1].outcome))
    requires a.outcome == w.outcome(|trace|)
    ensures Retried(w, trace + [a])
  {
  }

  /** `dispatch`. It has no modifies clause, so the shared candidates stay as they
      were. `gone` says that the client was found to have left. */
  method Dispatch(candidates: Slice, replayable: bool, w: World)
    returns (trace: seq<Attempt>, written: seq<int>, ghost gone: bool)
    requires WellFormed(candidates)
    // every candidate is tried at most as often as it is listed
    ensures multiset(Urls(trace)) <= multiset(old(Elements(candidates))) && |trace| <= candidates.len
    ensures Retried(w, trace) && (!replayable ==> |trace| <= 1)
    ensures gone ==> w.left(|trace|) || (trace != [] && trace[|trace| - 1].outcome.ClientGone?)
    // a client that has left gets nothing, any other exactly one response: that of
    // the first terminal attempt, or else of the last candidate
    ensures gone ==> written == []
    ensures !gone && candidates.len > 0 ==>
      && trace != [] && !trace[|trace| - 1].outcome.ClientGone?
      && written == [Answer(trace[|trace| - 1].outcome)]
      && (!Retryable(trace[|trace| - 1].outcome) || |trace| == candidates.len || !replayable)
  {
    trace, written, gone := [], [], false;
    var remaining := candidates;
    ghost var all := Elements(candidates);
    while remaining.len > 0
      invariant WellFormed(remaining) && written == [] && !gone && |trace| + remaining.len == candidates.len
      invariant Spent(multiset(all), trace, multiset(Elements(remaining)))
      invariant Retried(w, trace) && (trace != [] ==> Retryable(trace[|trace| - 1].outcome))
      invariant trace == [] || (replayable && remaining.len > 0)
      decreases remaining.len
    {
      var o := w.outcome(|trace|);
      if w.left(|trace|) {
        gone := true;
        return;
      }
      var url, done, rest;
      url, rest := TakeOne(remaining, w, |trace|);
      written, done := TryOnce(o, rest.len == 0 || !replayable);
      SpentStep(multiset(all), trace, Attempt(url, o), multiset(Elements(remaining)), multiset(Elements(rest)));
      RetriedAppend(w, trace, Attempt(url, o));
      trace, remaining := trace + [Attempt(url, o)], rest;
      if done {
        gone := o.ClientGone?;
        return;
      }
    }
  }
}
