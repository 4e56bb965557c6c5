/**
 The issuance cooldown in front of Let's Encrypt: a map that is pruned on every production
 request, related to the full history of accepted requests.
 */
module CertCooldown {
  import opened Prelude

  const ISSUE_COOLDOWN_MS: nat := 600_000
  const MINUTE_MS: nat := 60_000

  /** An accepted production request. */
  datatype Attempt = Attempt(host: string, at: nat)

  /** The latest accepted request for `host`. */
  function LastAttempt(h: seq<Attempt>, host: string): Option<nat> {
    if h == [] then None
    else if h[|h| - 1].host == host then Some(h[|h| - 1].at)
    else LastAttempt(h[..|h| - 1], host)
  }

  /** What the guard has to decide, said of the whole history; time 0 counts as "never", as in the source. */
  predicate Cooling(h: seq<Attempt>, host: string, now: nat) {
    var last := LastAttempt(h, host);
    last.Some? && last.value != 0 && now < last.value + ISSUE_COOLDOWN_MS
  }

  ghost predicate Sorted(h: seq<Attempt>, clock: nat) {
    && (forall i, j :: 0 <= i < j < |h| ==> h[i].at <= h[j].at)
    && (forall i :: 0 <= i < |h| ==> h[i].at <= clock)
  }

  /** Accepted requests for one hostname are a cooldown apart, unless the earlier one was at time 0. */
  ghost predicate Spaced(h: seq<Attempt>) {
    forall i, j :: 0 <= i < j < |h| && h[i].host == h[j].host && h[i].at != 0 ==>
                     h[i].at + ISSUE_COOLDOWN_MS <= h[j].at
  }

  /** The map forgets only what no longer matters. */
  ghost predicate Summarises(m: map<string, nat>, h: seq<Attempt>, clock: nat) {
    forall host ::
      if host in m then LastAttempt(h, host) == Some(m[host])
      else LastAttempt(h, host).None? || LastAttempt(h, host).value + ISSUE_COOLDOWN_MS <= clock
  }

  lemma {:induction false} LastAttemptIsLatest(h: seq<Attempt>, host: string, clock: nat)
    requires Sorted(h, clock)
    ensures forall i :: 0 <= i < |h| && h[i].host == host ==>
                          LastAttempt(h, host).Some? && h[i].at <= LastAttempt(h, host).value
    ensures LastAttempt(h, host).Some? ==> LastAttempt(h, host).value <= clock
  {
    if h != [] && h[|h| - 1].host != host {
      LastAttemptIsLatest(h[..|h| - 1], host, clock);
    }
  }

  lemma AcceptKeepsSpaced(h: seq<Attempt>, host: string, clock: nat, now: nat)
    requires Sorted(h, clock) && clock <= now && Spaced(h) && !Cooling(h, host, now)
    ensures Sorted(h + [Attempt(host, now)], now) && Spaced(h + [Attempt(host, now)])
  {
    LastAttemptIsLatest(h, host, clock);
  }

  /** The entries still inside the cooldown. */
  function Fresh(m: map<string, nat>, now: nat): map<string, nat> {
    map host | host in m && now - m[host] < ISSUE_COOLDOWN_MS :: m[host]
  }

  /** Pruning keeps the map a summary of the history. */
  lemma FreshSummarises(m: map<string, nat>, h: seq<Attempt>, clock: nat, now: nat)
    requires Summarises(m, h, clock) && clock <= now
    ensures Summarises(Fresh(m, now), h, now)
  {
  }

  class IssueGuard {
    var lastIssueAttempt: map<string, nat>
    ghost var clock: nat
    ghost var history: seq<Attempt>

    ghost predicate Valid()
      reads this
    {
      Sorted(history, clock) && Spaced(history) && Summarises(lastIssueAttempt, history, clock)
    }

    constructor ()
      ensures Valid() && history == []
    {
      lastIssueAttempt, clock, history := map[], 0, [];
    }

    method Prune(now: nat)
      modifies `lastIssueAttempt
      ensures lastIssueAttempt == Fresh(old(lastIssueAttempt), now)
    {
      var rest := lastIssueAttempt.Keys;
      while rest != {}
        invariant rest <= lastIssueAttempt.Keys <= old(lastIssueAttempt).Keys
        invariant forall host <- lastIssueAttempt :: lastIssueAttempt[host] == old(lastIssueAttempt)[host]
        invariant forall host <- old(lastIssueAttempt) ::
                    host in lastIssueAttempt <==>
                    host in rest || now - old(lastIssueAttempt)[host] < ISSUE_COOLDOWN_MS
      {
        var host :| host in rest;
        if now - lastIssueAttempt[host] >= ISSUE_COOLDOWN_MS {
          lastIssueAttempt := lastIssueAttempt - {host};
        }
        rest := rest - {host};
      }
    }

    /**
     The guard at the top of `acquireCert`. A refusal names a number of whole minutes: after
     that long the cooldown is over, and a minute earlier it is not. An acceptance is recorded
     whatever becomes of the order.
     */
    method Request(host: string, staging: bool, now: nat) returns (refusedFor: Option<nat>)
      requires Valid() && clock <= now
      modifies this
      ensures Valid()
      ensures refusedFor.Some? <==> !staging && Cooling(old(history), host, now)
      ensures refusedFor.Some? ==>
                && !Cooling(old(history), host, now + refusedFor.value * MINUTE_MS)
                && refusedFor.value > 0
                && Cooling(old(history), host, now + (refusedFor.value - 1) * MINUTE_MS)
      ensures history ==
              if refusedFor.None? && !staging then old(history) + [Attempt(host, now)] else old(history)
      ensures staging ==> lastIssueAttempt == old(lastIssueAttempt)
    {
      refusedFor := None;
      if !staging {
        FreshSummarises(lastIssueAttempt, history, clock, now);
        Prune(now);
        clock := now;
        var waitMs := 0;
        if host in lastIssueAttempt && lastIssueAttempt[host] != 0 {
          waitMs := ISSUE_COOLDOWN_MS - (now - lastIssueAttempt[host]);
        }
        LastAttemptIsLatest(history, host, clock);
        if waitMs > 0 {
          return Some((waitMs + MINUTE_MS - 1) / MINUTE_MS);
        }
        AcceptKeepsSpaced(history, host, clock, now);
        AcceptedIsLast(history, host, now);
        lastIssueAttempt := lastIssueAttempt[host := now];
        history := history + [Attempt(host, now)];
      }
    }
  }

  lemma AcceptedIsLast(h: seq<Attempt>, host: string, now: nat)
    ensures LastAttempt(h + [Attempt(host, now)], host) == Some(now)
    ensures forall other :: other != host ==>
                              LastAttempt(h + [Attempt(host, now)], other) == LastAttempt(h, other)
  {
    var r := h + [Attempt(host, now)];
    assert r[..|r| - 1] == h;
  }

  /** Over any sequence of production requests: each is accepted exactly when the history is not cooling. */
  function Accepted(h: seq<Attempt>, requests: seq<Attempt>): seq<Attempt>
    decreases |requests|
  {
    if requests == [] then h
    else
      var r := requests[0];
      Accepted(if Cooling(h, r.host, r.at) then h else h + [r], requests[1..])
  }

  lemma {:induction false} AcceptedIsSorted(h: seq<Attempt>, requests: seq<Attempt>, clock: nat, end: nat)
    requires Sorted(h, clock) && clock <= end
    requires Sorted(requests, end) && forall i :: 0 <= i < |requests| ==> clock <= requests[i].at
    ensures Sorted(Accepted(h, requests), end)
    decreases |requests|
  {
    if requests == [] {
    } else {
      var r := requests[0];
      AcceptedIsSorted(if Cooling(h, r.host, r.at) then h else h + [r], requests[1..], r.at, end);
    }
  }

  /** A production request is refused exactly for ten minutes after an accepted one for its hostname. */
  lemma CoolingExactly(h: seq<Attempt>, host: string, clock: nat, now: nat)
    requires Sorted(h, clock)
    ensures Cooling(h, host, now) <==>
            exists i :: 0 <= i < |h| && h[i].host == host && h[i].at != 0 && now < h[i].at + 600_000
  {
    LastAttemptIsLatest(h, host, clock);
    LastAttemptIsThere(h, host);
  }

  lemma {:induction false} OneMoreRequest(h: seq<Attempt>, requests: seq<Attempt>, r: Attempt)
    ensures var accepted := Accepted(h, requests);
            Accepted(h, requests + [r]) == if Cooling(accepted, r.host, r.at) then accepted else accepted + [r]
    decreases |requests|
  {
    if requests == [] {
      assert requests + [r] == [r] && [r][1..] == [];
    } else {
      var q := requests[0];
      OneMoreRequest(if Cooling(h, q.host, q.at) then h else h + [q], requests[1..], r);
      assert (requests + [r])[1..] == requests[1..] + [r];
    }
  }

  /** Over any sequence of requests, each is accepted exactly unless one accepted before it still cools. */
  lemma NextRequestExactly(requests: seq<Attempt>, r: Attempt, end: nat)
    requires Sorted(requests, end)
    ensures var accepted := Accepted([], requests);
            Accepted([], requests + [r]) ==
            if exists i :: && 0 <= i < |accepted| && accepted[i].host == r.host
                           && accepted[i].at != 0 && r.at < accepted[i].at + 600_000
            then accepted else accepted + [r]
  {
    OneMoreRequest([], requests, r);
    AcceptedIsSorted([], requests, 0, end);
    CoolingExactly(Accepted([], requests), r.host, end, r.at);
  }

  lemma {:induction false} AcceptedAreSpaced(h: seq<Attempt>, requests: seq<Attempt>, clock: nat, end: nat)
    requires Sorted(h, clock) && Spaced(h) && clock <= end
    requires Sorted(requests, end) && forall r <- requests :: clock <= r.at
    ensures Spaced(Accepted(h, requests))
    decreases |requests|
  {
    if requests == [] {
    } else {
      var r := requests[0];
      if !Cooling(h, r.host, r.at) {
        AcceptKeepsSpaced(h, r.host, clock, r.at);
      }
      AcceptedAreSpaced(if Cooling(h, r.host, r.at) then h else h + [r], requests[1..], r.at, end);
    }
  }

  // ------------------------------------------------------------------------
  // Without the exception for time 0
  // ------------------------------------------------------------------------

  ghost predicate FullySpaced(h: seq<Attempt>) {
    forall i, j :: 0 <= i < j < |h| && h[i].host == h[j].host ==> h[i].at + ISSUE_COOLDOWN_MS <= h[j].at
  }

  ghost predicate AtEpoch(h: seq<Attempt>, host: string) {
    exists i :: 0 <= i < |h| && h[i] == Attempt(host, 0)
  }

  /** This request comes too soon after one for the same hostname at time 0. */
  ghost predicate Slips(h: seq<Attempt>, r: Attempt) {
    r.at < ISSUE_COOLDOWN_MS && AtEpoch(h, r.host)
  }

  /** One more request keeps the full spacing exactly unless it slips. */
  lemma AcceptKeepsFullySpaced(h: seq<Attempt>, r: Attempt, clock: nat)
    requires Sorted(h, clock) && clock <= r.at && FullySpaced(h)
    ensures Cooling(h, r.host, r.at) ==> !Slips(h, r)
    ensures !Cooling(h, r.host, r.at) ==> (FullySpaced(h + [r]) <==> !Slips(h, r))
  {
    LastAttemptIsLatest(h, r.host, clock);
    LastAttemptIsThere(h, r.host);
    if i :| 0 <= i < |h| && h[i] == Attempt(r.host, 0) {
      assert (h + [r])[i] == h[i] && (h + [r])[|h|] == r;
    }
  }

  lemma {:induction false} LastAttemptIsThere(h: seq<Attempt>, host: string)
    ensures LastAttempt(h, host).Some? ==>
              exists i :: 0 <= i < |h| && h[i] == Attempt(host, LastAttempt(h, host).value)
  {
    if h == [] {
    } else {
      if h[|h| - 1].host == host {
        assert h[|h| - 1] == Attempt(host, LastAttempt(h, host).value);
      } else {
        LastAttemptIsThere(h[..|h| - 1], host);
      }
    }
  }

  lemma {:induction false} AcceptedExtends(h: seq<Attempt>, requests: seq<Attempt>)
    ensures h <= Accepted(h, requests)
    decreases |requests|
  {
    if requests == [] {
    } else {
      var r := requests[0];
      AcceptedExtends(if Cooling(h, r.host, r.at) then h else h + [r], requests[1..]);
    }
  }

  /** Some request in the sequence comes within ten minutes of one for its hostname at time 0. */
  ghost predicate SomeSlips(h: seq<Attempt>, requests: seq<Attempt>) {
    exists j :: 0 <= j < |requests| && Slips(h + requests[..j], requests[j])
  }

  lemma SomeSlipsUnfolds(h: seq<Attempt>, r: Attempt, rest: seq<Attempt>)
    ensures SomeSlips(h, [r] + rest) <==> Slips(h, r) || SomeSlips(h + [r], rest)
  {
    var requests := [r] + rest;
    assert h + requests[..0] == h;
    forall j | 0 <= j < |rest| ensures h + requests[..j + 1] == h + [r] + rest[..j] && requests[j + 1] == rest[j] {
    }
    if j :| 0 <= j < |requests| && Slips(h + requests[..j], requests[j]) {
      if j > 0 {
        assert Slips(h + [r] + rest[..j - 1], rest[j - 1]);
      }
    }
    if j :| 0 <= j < |rest| && Slips(h + [r] + rest[..j], rest[j]) {
      assert Slips(h + requests[..j + 1], requests[j + 1]);
    }
  }

  /** Only what happened at time 0 matters to later slips. */
  lemma SlipsAlike(h: seq<Attempt>, g: seq<Attempt>, requests: seq<Attempt>)
    requires forall host :: AtEpoch(h, host) <==> AtEpoch(g, host)
    ensures SomeSlips(h, requests) <==> SomeSlips(g, requests)
  {
    forall j | 0 <= j < |requests|
      ensures Slips(h + requests[..j], requests[j]) <==> Slips(g + requests[..j], requests[j])
    {
      AtEpochAppend(h, requests[..j], requests[j].host);
      AtEpochAppend(g, requests[..j], requests[j].host);
    }
  }

  lemma AtEpochAppend(h: seq<Attempt>, g: seq<Attempt>, host: string)
    ensures AtEpoch(h + g, host) <==> AtEpoch(h, host) || AtEpoch(g, host)
  {
    if i :| 0 <= i < |h| && h[i] == Attempt(host, 0) {
      assert (h + g)[i] == h[i];
    }
    if i :| 0 <= i < |g| && g[i] == Attempt(host, 0) {
      assert (h + g)[|h| + i] == g[i];
    }
  }

  lemma {:induction false} FullySpacedExactly(h: seq<Attempt>, requests: seq<Attempt>, clock: nat, end: nat)
    requires Sorted(h, clock) && FullySpaced(h) && clock <= end
    requires Sorted(requests, end) && forall i :: 0 <= i < |requests| ==> clock <= requests[i].at
    ensures FullySpaced(Accepted(h, requests)) <==> !SomeSlips(h, requests)
    decreases |requests|
  {
    if requests == [] {
    } else {
      var r, rest := requests[0], requests[1..];
      assert requests == [r] + rest;
      SomeSlipsUnfolds(h, r, rest);
      AcceptKeepsFullySpaced(h, r, clock);
      var g := if Cooling(h, r.host, r.at) then h else h + [r];
      AcceptedExtends(g, rest);
      if FullySpaced(g) {
        FullySpacedExactly(g, rest, r.at, end);
        CoolingIsNotAtEpoch(h, r, clock);
        SlipsAlike(g, h + [r], rest);
      }
    }
  }

  /** A request that is refused is not at time 0. */
  lemma CoolingIsNotAtEpoch(h: seq<Attempt>, r: Attempt, clock: nat)
    requires Sorted(h, clock) && clock <= r.at
    ensures Cooling(h, r.host, r.at) ==> forall host :: AtEpoch(h, host) <==> AtEpoch(h + [r], host)
  {
    LastAttemptIsLatest(h, r.host, clock);
    forall host ensures AtEpoch(h + [r], host) <==> AtEpoch(h, host) || AtEpoch([r], host) {
      AtEpochAppend(h, [r], host);
    }
  }

  /** The i-th request is at time 0, and the j-th, for the same hostname, within ten minutes of it. */
  predicate SoonAfterEpoch(requests: seq<Attempt>, i: nat, j: nat) {
    && i < j < |requests|
    && requests[i] == Attempt(requests[j].host, 0) && requests[j].at < ISSUE_COOLDOWN_MS
  }

  lemma SlipIsPair(requests: seq<Attempt>, j: nat)
    requires j < |requests|
    ensures Slips([] + requests[..j], requests[j]) <==> exists i: nat :: SoonAfterEpoch(requests, i, j)
  {
    var before := requests[..j];
    assert [] + before == before;
    if i :| 0 <= i < |before| && before[i] == Attempt(requests[j].host, 0)
            && requests[j].at < ISSUE_COOLDOWN_MS {
      assert SoonAfterEpoch(requests, i, j);
    }
    if i: nat :| SoonAfterEpoch(requests, i, j) {
      assert before[i] == Attempt(requests[j].host, 0);
    }
  }

  /**
   Accepted requests for one hostname are ten minutes apart, time 0 included, exactly unless some
   request in the first ten minutes follows one for its hostname at time 0.
   */
  lemma EpochIsNotCooled(requests: seq<Attempt>, end: nat)
    requires Sorted(requests, end)
    ensures FullySpaced(Accepted([], requests)) <==> !exists i: nat, j: nat :: SoonAfterEpoch(requests, i, j)
  {
    FullySpacedExactly([], requests, 0, end);
    hide FullySpaced, Accepted, Sorted, Slips, SoonAfterEpoch;
    forall j: nat | j < |requests|
      ensures Slips([] + requests[..j], requests[j]) <==> exists i: nat :: SoonAfterEpoch(requests, i, j)
    {
      SlipIsPair(requests, j);
    }
    if i: nat, j: nat :| SoonAfterEpoch(requests, i, j) {
      SoonIsWithin(requests, i, j);
    }
  }

  lemma SoonIsWithin(requests: seq<Attempt>, i: nat, j: nat)
    requires SoonAfterEpoch(requests, i, j)
    ensures j < |requests|
  {
  }

  /** Such a pair is accepted, at any distance. */
  lemma PairAtEpochIsAccepted(host: string, t: nat)
    requires t < ISSUE_COOLDOWN_MS
    ensures Accepted([], [Attempt(host, 0), Attempt(host, t)]) == [Attempt(host, 0), Attempt(host, t)]
  {
    var first, second := Attempt(host, 0), Attempt(host, t);
    assert [first, second][1..] == [second] && [second][1..] == [];
    assert [] + [first] == [first] && [first] + [second] == [first, second];
    assert Accepted([first], [second]) == Accepted([first, second], []);
  }
}
