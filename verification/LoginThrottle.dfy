/**
 Login throttling in the auth gateway: a bounded, swept map that keeps one fixed window per key,
 related to the full history of failures it summarises.
 */
module LoginThrottle {
  import opened Prelude

  const WINDOW_MS: nat := 900_000
  const MAX_TRACKED: nat := 10_000
  const PER_IP_LIMIT: nat := 10
  const PER_HOST_LIMIT: nat := 60

  /** The two keys a login attempt counts against. */
  datatype Key = PerIp(host: nat, ip: string) | PerHost(host: nat)

  datatype Entry = Entry(count: nat, resetAt: nat)

  /** A JavaScript `Map`: the entries, and their keys in insertion order. */
  datatype Table = Table(order: seq<Key>, entries: map<Key, Entry>)

  datatype Failure = Failure(key: Key, at: nat)

  function Limit(key: Key): nat {
    if key.PerIp? then PER_IP_LIMIT else PER_HOST_LIMIT
  }

  ghost predicate Wf(t: Table) {
    && (forall k :: k in t.order <==> k in t.entries)
    && (forall i, j :: 0 <= i < j < |t.order| ==> t.order[i] != t.order[j])
    && |t.order| <= MAX_TRACKED
  }

  // ------------------------------------------------------------------------
  // The operations on the map
  // ------------------------------------------------------------------------

  predicate Blocks(e: Option<Entry>, limit: nat, now: nat) {
    e.Some? && e.value.resetAt > now && e.value.count >= limit
  }

  function Lookup(t: Table, key: Key): Option<Entry> {
    if key in t.entries then Some(t.entries[key]) else None
  }

  predicate Throttled(t: Table, key: Key, limit: nat, now: nat) {
    Blocks(Lookup(t, key), limit, now)
  }

  /** Drops the oldest entries until there is room for one more. */
  function Evict(t: Table): Table
    decreases |t.order|
  {
    if |t.order| < MAX_TRACKED then t
    else Evict(Table(t.order[1..], t.entries - {t.order[0]}))
  }

  /** The next window of a key that failed at `now`. */
  function Bump(e: Option<Entry>, now: nat): Entry {
    if e.None? || e.value.resetAt <= now then Entry(1, now + WINDOW_MS)
    else e.value.(count := e.value.count + 1)
  }

  function NoteFailure(t: Table, key: Key, now: nat): Table {
    var e := Lookup(t, key);
    var room := if e.None? || e.value.resetAt <= now then Evict(t) else t;
    Table(if key in room.entries then room.order else room.order + [key],
          room.entries[key := Bump(e, now)])
  }

  function Unexpired(order: seq<Key>, entries: map<Key, Entry>, now: nat): seq<Key> {
    if order == [] then []
    else
      (if order[0] in entries && entries[order[0]].resetAt > now then [order[0]] else []) +
      Unexpired(order[1..], entries, now)
  }

  function Sweep(t: Table, now: nat): Table {
    Table(Unexpired(t.order, t.entries, now),
          map k | k in t.entries && t.entries[k].resetAt > now :: t.entries[k])
  }

  /** The keys that `NoteFailure` pushes out before their window ends, to keep the map bounded. */
  function Pushed(t: Table, key: Key, now: nat): set<Key> {
    set k | k in t.entries && t.entries[k].resetAt > now && k !in NoteFailure(t, key, now).entries
  }

  // ------------------------------------------------------------------------
  // The reference: windows computed from the whole history of one key
  // ------------------------------------------------------------------------

  ghost function WindowOf(h: seq<Failure>, key: Key): Option<Entry> {
    if h == [] then None
    else
      var before := WindowOf(h[..|h| - 1], key);
      var last := h[|h| - 1];
      if last.key == key then Some(Bump(before, last.at)) else before
  }

  /** The map answers as the full history does, except for keys the bound pushed out. */
  ghost predicate Agrees(t: Table, h: seq<Failure>, evicted: set<Key>, now: nat) {
    forall k :: k !in evicted ==>
      if k in t.entries then WindowOf(h, k) == Some(t.entries[k])
      else WindowOf(h, k).None? || WindowOf(h, k).value.resetAt <= now
  }

  lemma {:induction false} EvictWf(t: Table)
    requires Wf(t)
    ensures Wf(Evict(t)) && |Evict(t).order| < MAX_TRACKED
    ensures Evict(t).entries.Keys <= t.entries.Keys
    ensures forall k <- Evict(t).entries :: Evict(t).entries[k] == t.entries[k]
    decreases |t.order|
  {
    if |t.order| >= MAX_TRACKED {
      var u := Table(t.order[1..], t.entries - {t.order[0]});
      forall k ensures k in u.order <==> k in u.entries {
        if k in u.entries {
          var i :| 0 <= i < |t.order| && t.order[i] == k;
          assert u.order[i - 1] == k;
        }
      }
      EvictWf(u);
    }
  }

  lemma NoteFailureWf(t: Table, key: Key, now: nat)
    requires Wf(t)
    ensures Wf(NoteFailure(t, key, now))
  {
    EvictWf(t);
  }

  lemma {:induction false} UnexpiredMembers(order: seq<Key>, entries: map<Key, Entry>, now: nat)
    ensures forall k :: k in Unexpired(order, entries, now) <==>
                        k in order && k in entries && entries[k].resetAt > now
    ensures |Unexpired(order, entries, now)| <= |order|
    ensures (forall i, j :: 0 <= i < j < |order| ==> order[i] != order[j]) ==>
              var r := Unexpired(order, entries, now);
              forall i, j :: 0 <= i < j < |r| ==> r[i] != r[j]
  {
    if order == [] {
    } else {
      UnexpiredMembers(order[1..], entries, now);
    }
  }

  lemma SweepWf(t: Table, now: nat)
    requires Wf(t)
    ensures Wf(Sweep(t, now))
  {
    UnexpiredMembers(t.order, t.entries, now);
  }

  /** The sweeper never changes an answer, for any key, limit and later time. */
  lemma SweepIsInvisible(t: Table, swept: nat, key: Key, limit: nat, now: nat)
    requires swept <= now
    ensures Throttled(Sweep(t, swept), key, limit, now) == Throttled(t, key, limit, now)
  {
  }

  lemma NoteFailureAgrees(t: Table, h: seq<Failure>, evicted: set<Key>, key: Key, now: nat)
    requires Wf(t) && Agrees(t, h, evicted, now)
    ensures Agrees(NoteFailure(t, key, now), h + [Failure(key, now)], evicted + Pushed(t, key, now), now)
  {
    EvictWf(t);
    var h2 := h + [Failure(key, now)];
    assert h2[..|h2| - 1] == h;
  }

  // ------------------------------------------------------------------------
  // The gateway: attempts whose check and whose failure are separate events
  // ------------------------------------------------------------------------

  /** `inFlight` counts, per key, the attempts that passed the check and are not settled yet. */
  datatype Gate = Gate(
    table: Table,
    clock: nat,
    inFlight: multiset<Key>,
    history: seq<Failure>,
    evicted: set<Key>)

  datatype Event =
    | Submit(host: nat, ip: string)
    | Settle(host: nat, ip: string, ok: bool)
    | SweepTick

  datatype Timed = At(now: nat, event: Event)

  const OPEN: Gate := Gate(Table([], map[]), 0, multiset{}, [], {})

  function Record(g: Gate, key: Key): Gate {
    g.(table := NoteFailure(g.table, key, g.clock),
       history := g.history + [Failure(key, g.clock)],
       evicted := g.evicted + Pushed(g.table, key, g.clock))
  }

  predicate Refused(g: Gate, host: nat, ip: string) {
    || Throttled(g.table, PerIp(host, ip), PER_IP_LIMIT, g.clock)
    || Throttled(g.table, PerHost(host), PER_HOST_LIMIT, g.clock)
  }

  predicate Enabled(g: Gate, e: Timed) {
    && g.clock <= e.now
    && (e.event.Settle? ==>
          PerIp(e.event.host, e.event.ip) in g.inFlight && PerHost(e.event.host) in g.inFlight)
  }

  function Step(g0: Gate, e: Timed): Gate
    requires Enabled(g0, e)
  {
    var g := g0.(clock := e.now);
    match e.event
    case Submit(host, ip) =>
      if Refused(g, host, ip) then g
      else g.(inFlight := g.inFlight + multiset{PerIp(host, ip), PerHost(host)})
    case Settle(host, ip, ok) =>
      var done := g.(inFlight := g.inFlight - multiset{PerIp(host, ip), PerHost(host)});
      if ok then done else Record(Record(done, PerIp(host, ip)), PerHost(host))
    case SweepTick => g.(table := Sweep(g.table, e.now))
  }

  predicate Feasible(g: Gate, run: seq<Timed>)
    decreases |run|
  {
    run == [] || (Enabled(g, run[0]) && Feasible(Step(g, run[0]), run[1..]))
  }

  function Exec(g: Gate, run: seq<Timed>): Gate
    requires Feasible(g, run)
    decreases |run|
  {
    if run == [] then g else Exec(Step(g, run[0]), run[1..])
  }

  /** Along the run, at most `c` attempts on `key` overlap and the bound never pushes `key` out. */
  predicate Overlap(g: Gate, run: seq<Timed>, key: Key, c: nat)
    requires Feasible(g, run)
    decreases |run|
  {
    && g.inFlight[key] <= c
    && key !in g.evicted
    && (run != [] ==> Overlap(Step(g, run[0]), run[1..], key, c))
  }

  ghost predicate Sorted(h: seq<Failure>, now: nat) {
    && (forall i, j :: 0 <= i < j < |h| ==> h[i].at <= h[j].at)
    && (forall i :: 0 <= i < |h| ==> h[i].at <= now)
  }

  ghost predicate Inv(g: Gate) {
    && Wf(g.table)
    && Agrees(g.table, g.history, g.evicted, g.clock)
    && Sorted(g.history, g.clock)
  }

  lemma RecordKeepsInv(g: Gate, key: Key)
    requires Inv(g)
    ensures Inv(Record(g, key))
  {
    NoteFailureWf(g.table, key, g.clock);
    NoteFailureAgrees(g.table, g.history, g.evicted, key, g.clock);
  }

  lemma StepKeepsInv(g: Gate, e: Timed)
    requires Inv(g) && Enabled(g, e)
    ensures Inv(Step(g, e))
  {
    var v := g.(clock := e.now);
    match e.event
    case Submit(_, _) =>
    case Settle(host, ip, ok) =>
      var done := v.(inFlight := v.inFlight - multiset{PerIp(host, ip), PerHost(host)});
      assert Inv(done);
      if !ok {
        RecordKeepsInv(done, PerIp(host, ip));
        RecordKeepsInv(Record(done, PerIp(host, ip)), PerHost(host));
      }
    case SweepTick => SweepWf(v.table, e.now);
  }

  lemma {:induction false} RunKeepsInv(g: Gate, run: seq<Timed>)
    requires Inv(g) && Feasible(g, run)
    ensures Inv(Exec(g, run))
    decreases |run|
  {
    if run == [] {
    } else {
      StepKeepsInv(g, run[0]);
      RunKeepsInv(Step(g, run[0]), run[1..]);
    }
  }

  // ------------------------------------------------------------------------
  // The failures of a run, read off its events
  // ------------------------------------------------------------------------

  /** Each attempt that settles without success fails once for its address and once for its host. */
  function FailuresOf(run: seq<Timed>): seq<Failure> {
    if run == [] then []
    else
      var e := run[0];
      (if e.event.Settle? && !e.event.ok
       then [Failure(PerIp(e.event.host, e.event.ip), e.now), Failure(PerHost(e.event.host), e.now)]
       else []) +
      FailuresOf(run[1..])
  }

  lemma StepRecords(g: Gate, e: Timed)
    requires Enabled(g, e)
    ensures Step(g, e).history == g.history + FailuresOf([e])
  {
    hide NoteFailure, Pushed, Sweep;
    assert [e][1..] == [];
  }

  /** What the gateway records is what failed, in order. */
  lemma {:induction false} HistoryIsTheFailures(g: Gate, run: seq<Timed>)
    requires Feasible(g, run)
    ensures Exec(g, run).history == g.history + FailuresOf(run)
    decreases |run|
  {
    hide Step;
    if run == [] {
    } else {
      var e, rest := run[0], run[1..];
      StepRecords(g, e);
      HistoryIsTheFailures(Step(g, e), rest);
      assert [e][1..] == [];
      assert FailuresOf(run) == FailuresOf([e]) + FailuresOf(rest);
      assert Exec(g, run).history == g.history + FailuresOf([e]) + FailuresOf(rest);
    }
  }

  /** How many failures of `key` the history holds in [from, until). */
  function Failures(h: seq<Failure>, key: Key, from: int, until: int): nat {
    if h == [] then 0
    else
      var last := h[|h| - 1];
      Failures(h[..|h| - 1], key, from, until) + (if last.key == key && from <= last.at < until then 1 else 0)
  }

  /** The i-th failure of the history opens a window: no earlier window of the key holds it. */
  predicate Opens(h: seq<Failure>, key: Key, i: nat)
    requires i < |h|
    decreases i
  {
    && h[i].key == key
    && forall j :: 0 <= j < i ==> !(Opens(h, key, j) && h[i].at < h[j].at + 900_000)
  }

  /** A window of the key that is still running at `now` holds at least `limit` failures. */
  ghost predicate WindowIsFull(h: seq<Failure>, key: Key, limit: nat, now: nat) {
    exists i :: 0 <= i < |h| && Opens(h, key, i) && now < h[i].at + 900_000 &&
                Failures(h, key, h[i].at, h[i].at + 900_000) >= limit
  }

  lemma {:induction false} OpensInPrefix(h: seq<Failure>, n: nat, key: Key, i: nat)
    requires i < n <= |h|
    ensures Opens(h[..n], key, i) == Opens(h, key, i)
    decreases i
  {
    forall j | 0 <= j < i ensures Opens(h[..n], key, j) == Opens(h, key, j) {
      OpensInPrefix(h, n, key, j);
    }
  }

  /** The i-th failure opened the window `e` and was the last one to open any. */
  ghost predicate OpenedLast(h: seq<Failure>, key: Key, i: nat, e: Entry) {
    && i < |h| && Opens(h, key, i) && e.resetAt == h[i].at + 900_000
    && e.count == Failures(h, key, h[i].at, h[i].at + 900_000)
    && (forall j :: 0 <= j < |h| && Opens(h, key, j) ==> j <= i)
    && (forall j :: 0 <= j < |h| && h[j].key == key ==> h[j].at < e.resetAt)
  }

  ghost predicate NeverFailed(h: seq<Failure>, key: Key) {
    forall f <- h :: f.key != key
  }

  /** What the reference window is: none without a failure, otherwise the one opened last. */
  lemma {:induction false} WindowMeaning(h: seq<Failure>, key: Key, now: nat) returns (i: nat)
    requires Sorted(h, now)
    ensures WindowOf(h, key).None? <==> NeverFailed(h, key)
    ensures WindowOf(h, key).Some? ==> OpenedLast(h, key, i, WindowOf(h, key).value)
  {
    hide Opens, OpenedLast, Failures;
    i := 0;
    if h == [] {
    } else {
      var n := |h| - 1;
      i := WindowMeaning(h[..n], key, now);
      forall j | 0 <= j < n ensures Opens(h[..n], key, j) == Opens(h, key, j) {
        OpensInPrefix(h, n, key, j);
      }
      i := WindowGrows(h, key, i, WindowOf(h[..n], key));
    }
  }

  /** One more failure opens a window, joins the running one, or is one of another key. */
  lemma WindowGrows(h: seq<Failure>, key: Key, i: nat, e: Option<Entry>) returns (i': nat)
    requires h != [] && Sorted(h, h[|h| - 1].at)
    requires if e.None? then NeverFailed(h[..|h| - 1], key) else OpenedLast(h[..|h| - 1], key, i, e.value)
    requires forall j :: 0 <= j < |h| - 1 ==> Opens(h[..|h| - 1], key, j) == Opens(h, key, j)
    ensures if h[|h| - 1].key == key then OpenedLast(h, key, i', Bump(e, h[|h| - 1].at))
            else if e.Some? then OpenedLast(h, key, i', e.value) else NeverFailed(h, key)
  {
    hide Opens, OpenedLast, Failures;
    i' := i;
    var n := |h| - 1;
    if h[n].key != key {
      OtherKeyFailed(h, key, i, e);
    } else if e.Some? && h[n].at < e.value.resetAt {
      StillOpen(h, key, i, e.value);
    } else {
      NewlyOpened(h, key, i, e);
      i' := n;
    }
  }

  lemma OtherKeyFailed(h: seq<Failure>, key: Key, i: nat, e: Option<Entry>)
    requires h != [] && h[|h| - 1].key != key
    requires if e.None? then NeverFailed(h[..|h| - 1], key) else OpenedLast(h[..|h| - 1], key, i, e.value)
    requires forall j :: 0 <= j < |h| - 1 ==> Opens(h[..|h| - 1], key, j) == Opens(h, key, j)
    ensures if e.Some? then OpenedLast(h, key, i, e.value) else NeverFailed(h, key)
  {
    assert h == h[..|h| - 1] + [h[|h| - 1]];
  }

  lemma StillOpen(h: seq<Failure>, key: Key, i: nat, e: Entry)
    requires h != [] && Sorted(h, h[|h| - 1].at)
    requires OpenedLast(h[..|h| - 1], key, i, e) && h[|h| - 1].key == key && h[|h| - 1].at < e.resetAt
    requires forall j :: 0 <= j < |h| - 1 ==> Opens(h[..|h| - 1], key, j) == Opens(h, key, j)
    ensures OpenedLast(h, key, i, e.(count := e.count + 1))
  {
    assert Opens(h, key, i);
    assert !Opens(h, key, |h| - 1);
  }

  lemma NewlyOpened(h: seq<Failure>, key: Key, i: nat, e: Option<Entry>)
    requires h != [] && Sorted(h, h[|h| - 1].at) && h[|h| - 1].key == key
    requires if e.None? then NeverFailed(h[..|h| - 1], key)
             else OpenedLast(h[..|h| - 1], key, i, e.value) && e.value.resetAt <= h[|h| - 1].at
    requires forall j :: 0 <= j < |h| - 1 ==> Opens(h[..|h| - 1], key, j) == Opens(h, key, j)
    ensures OpenedLast(h, key, |h| - 1, Entry(1, h[|h| - 1].at + 900_000))
  {
    var n := |h| - 1;
    var h0, last := h[..n], h[n];
    forall j | 0 <= j < n ensures !(Opens(h, key, j) && last.at < h[j].at + 900_000) {
      if Opens(h, key, j) {
        assert h0[j] == h[j] && h0[j] in h0;
        assert h[j].at <= h[i].at;
      }
    }
    assert Opens(h, key, n);
    forall f <- h0 ensures f.key == key ==> f.at < last.at {
      var j :| 0 <= j < n && h0[j] == f;
    }
    NoneOfKeyBefore(h0, key, last.at, last.at + 900_000);
  }

  lemma {:induction false} NoneOfKeyBefore(h: seq<Failure>, key: Key, from: int, until: int)
    requires forall f <- h :: f.key == key ==> f.at < from
    ensures Failures(h, key, from, until) == 0
  {
    if h == [] {
    } else {
      NoneOfKeyBefore(h[..|h| - 1], key, from, until);
    }
  }

  /** A reference window blocks exactly when a running window of the key is full. */
  lemma BlocksExactly(h: seq<Failure>, key: Key, limit: nat, now: nat)
    requires Sorted(h, now)
    ensures Blocks(WindowOf(h, key), limit, now) <==> WindowIsFull(h, key, limit, now)
  {
    var i := WindowMeaning(h, key, now);
    var e := WindowOf(h, key);
    if e.Some? {
      forall j | 0 <= j < |h| && Opens(h, key, j) ensures now < h[j].at + 900_000 ==> j == i {
        assert j < i ==> h[j].at + 900_000 <= h[i].at;
      }
    } else {
      forall j | 0 <= j < |h| ensures !Opens(h, key, j) {
        assert h[j] in h;
      }
    }
  }

  /** Pruning is invisible: the bounded map answers as all the failures of the run would. */
  lemma PruningIsInvisible(run: seq<Timed>, key: Key, limit: nat, now: nat)
    requires Feasible(OPEN, run)
    requires var g := Exec(OPEN, run); key !in g.evicted && g.clock <= now
    ensures var g := Exec(OPEN, run);
            && (Throttled(g.table, key, limit, now) <==> WindowIsFull(FailuresOf(run), key, limit, now))
            && |g.table.order| <= 10_000 && g.table.entries.Keys == (set k | k in g.table.order)
  {
    hide Step, WindowIsFull, FailuresOf;
    RunKeepsInv(OPEN, run);
    HistoryIsTheFailures(OPEN, run);
    assert [] + FailuresOf(run) == FailuresOf(run);
    BlocksExactly(FailuresOf(run), key, limit, now);
  }

  // ------------------------------------------------------------------------
  // What it takes to push a key out
  // ------------------------------------------------------------------------

  ghost predicate FailedAfter(h: seq<Failure>, i: nat, key: Key) {
    exists j :: i < j < |h| && h[j].key == key
  }

  /** The i-th failure is one of `key`, and all of `later` failed after it. */
  ghost predicate Since(h: seq<Failure>, i: nat, key: Key, later: seq<Key>) {
    i < |h| && h[i].key == key && forall n :: 0 <= n < |later| ==> FailedAfter(h, i, later[n])
  }

  /** Keys stand in the order in which they came into the map. */
  ghost predicate Births(order: seq<Key>, h: seq<Failure>) {
    order == [] || ((exists i: nat :: Since(h, i, order[0], order[1..])) && Births(order[1..], h))
  }

  lemma FailedAfterGrows(h: seq<Failure>, i: nat, key: Key, f: Failure)
    ensures FailedAfter(h, i, key) ==> FailedAfter(h + [f], i, key)
    ensures i < |h| ==> FailedAfter(h + [f], i, f.key)
  {
    assert (h + [f])[|h|] == f;
    if j :| i < j < |h| && h[j].key == key {
      assert (h + [f])[j] == h[j];
    }
  }

  lemma SinceGrows(h: seq<Failure>, i: nat, key: Key, later: seq<Key>, f: Failure)
    requires Since(h, i, key, later)
    ensures Since(h + [f], i, key, later) && Since(h + [f], i, key, later + [f.key])
  {
    forall n | 0 <= n < |later| ensures FailedAfter(h + [f], i, later[n]) {
      FailedAfterGrows(h, i, later[n], f);
    }
    FailedAfterGrows(h, i, key, f);
    hide FailedAfter;
  }

  lemma BirthsCons(h: seq<Failure>, i: nat, key: Key, later: seq<Key>)
    requires Since(h, i, key, later) && Births(later, h)
    ensures Births([key] + later, h)
  {
    var order := [key] + later;
    assert order[1..] == later;
    assert Since(h, i, order[0], order[1..]);
  }

  /** One more failure keeps the order, with or without its key at the end. */
  lemma {:induction false} BirthsGrow(order: seq<Key>, h: seq<Failure>, f: Failure)
    requires Births(order, h)
    ensures Births(order, h + [f]) && Births(order + [f.key], h + [f])
  {
    hide Since;
    if order == [] {
      LatestBirth(h, f);
      BirthsCons(h + [f], |h|, f.key, []);
      assert [f.key] + [] == [] + [f.key];
    } else {
      var key, later := order[0], order[1..];
      var i: nat :| Since(h, i, key, later);
      SinceGrows(h, i, key, later, f);
      BirthsGrow(later, h, f);
      BirthsCons(h + [f], i, key, later);
      BirthsCons(h + [f], i, key, later + [f.key]);
      assert [key] + later == order && [key] + (later + [f.key]) == order + [f.key];
    }
  }

  lemma LatestBirth(h: seq<Failure>, f: Failure)
    ensures Since(h + [f], |h|, f.key, [])
  {
  }

  lemma SinceFewer(h: seq<Failure>, i: nat, key: Key, later: seq<Key>, fewer: seq<Key>)
    requires Since(h, i, key, later) && forall k <- fewer :: k in later
    ensures Since(h, i, key, fewer)
  {
    forall n | 0 <= n < |fewer| ensures FailedAfter(h, i, fewer[n]) {
      assert fewer[n] in later;
    }
  }

  lemma {:induction false} BirthsUnexpired(order: seq<Key>, entries: map<Key, Entry>, now: nat, h: seq<Failure>)
    requires Births(order, h)
    ensures Births(Unexpired(order, entries, now), h)
  {
    hide Since;
    if order == [] {
    } else {
      BirthsUnexpired(order[1..], entries, now, h);
      UnexpiredMembers(order[1..], entries, now);
      var i: nat :| Since(h, i, order[0], order[1..]);
      SinceFewer(h, i, order[0], order[1..], Unexpired(order[1..], entries, now));
      BirthsCons(h, i, order[0], Unexpired(order[1..], entries, now));
      assert [] + Unexpired(order[1..], entries, now) == Unexpired(order[1..], entries, now);
    }
  }

  /** The other keys that failed after the i-th failure. */
  ghost function OthersAfter(h: seq<Failure>, i: nat): set<Key>
    requires i < |h|
  {
    set j | i < j < |h| && h[j].key != h[i].key :: h[j].key
  }

  /** After some failure of `key` all but one of the places in the map were needed for other keys. */
  ghost predicate Crowded(h: seq<Failure>, key: Key) {
    exists i: nat :: i < |h| && h[i].key == key && |OthersAfter(h, i)| >= MAX_TRACKED - 1
  }

  lemma SubsetSize(a: set<Key>, b: set<Key>)
    requires a <= b
    ensures |a| <= |b|
  {
    assert b == a + (b - a);
  }

  lemma {:induction false} DistinctSize(keys: seq<Key>)
    requires forall i, j :: 0 <= i < j < |keys| ==> keys[i] != keys[j]
    ensures |set k | k in keys| == |keys|
  {
    if keys != [] {
      var rest := keys[..|keys| - 1];
      DistinctSize(rest);
      assert keys == rest + [keys[|keys| - 1]];
      assert (set k | k in keys) == (set k | k in rest) + {keys[|keys| - 1]};
    } else {
      assert (set k | k in keys) == {};
    }
  }

  lemma CrowdedGrows(h: seq<Failure>, key: Key, f: Failure)
    requires Crowded(h, key)
    ensures Crowded(h + [f], key)
  {
    var i: nat :| i < |h| && h[i].key == key && |OthersAfter(h, i)| >= MAX_TRACKED - 1;
    assert (h + [f])[i] == h[i];
    assert OthersAfter(h, i) <= OthersAfter(h + [f], i) by {
      forall k <- OthersAfter(h, i) ensures k in OthersAfter(h + [f], i) {
        var j :| i < j < |h| && h[j].key != h[i].key && h[j].key == k;
        assert (h + [f])[j] == h[j];
      }
    }
    SubsetSize(OthersAfter(h, i), OthersAfter(h + [f], i));
  }

  /** Making room in a well-formed map drops at most its oldest key, and only when it is full. */
  lemma EvictDropsOldest(t: Table)
    requires Wf(t)
    ensures if |t.order| < MAX_TRACKED then Evict(t) == t
            else Evict(t) == Table(t.order[1..], t.entries - {t.order[0]})
  {
  }

  lemma OldestIsCrowded(order: seq<Key>, h: seq<Failure>)
    requires |order| == MAX_TRACKED && Births(order, h)
    requires forall i, j :: 0 <= i < j < |order| ==> order[i] != order[j]
    ensures Crowded(h, order[0])
  {
    var rest := order[1..];
    var i: nat :| Since(h, i, order[0], rest);
    DistinctSize(rest);
    var keys := set k | k in rest;
    forall k <- keys ensures k in OthersAfter(h, i) {
      var n :| 0 <= n < |rest| && rest[n] == k;
      assert FailedAfter(h, i, rest[n]) && rest[n] == order[n + 1];
    }
    SubsetSize(keys, OthersAfter(h, i));
  }

  /** Only the oldest key of a full map can be pushed out. */
  lemma PushedIsOldest(t: Table, key: Key, now: nat, k: Key)
    requires Wf(t) && k in Pushed(t, key, now)
    ensures |t.order| == MAX_TRACKED && k == t.order[0]
  {
    EvictDropsOldest(t);
    hide Evict;
  }

  /**
   What one failure does: a running window counts one more and nothing else changes; otherwise a
   window of fifteen minutes starts, and a map of ten thousand entries loses its oldest first.
   */
  lemma NotedExactly(t: Table, key: Key, now: nat)
    requires Wf(t)
    ensures var r := NoteFailure(t, key, now);
            if key in t.entries && now < t.entries[key].resetAt then
              var e := t.entries[key];
              r == Table(t.order, t.entries[key := Entry(e.count + 1, e.resetAt)])
            else
              var full := |t.order| == 10_000;
              && r.entries == (if full then t.entries - {t.order[0]} else t.entries)[key := Entry(1, now + 900_000)]
              && r.order == (if full then t.order[1..] else t.order) +
                            (if key in t.entries && !(full && key == t.order[0]) then [] else [key])
  {
    EvictDropsOldest(t);
    hide Evict;
  }

  lemma NotedOrder(t: Table, key: Key, now: nat)
    requires Wf(t)
    ensures var order := NoteFailure(t, key, now).order;
            || order == t.order || order == t.order + [key]
            || (t.order != [] && (order == t.order[1..] || order == t.order[1..] + [key]))
  {
    EvictDropsOldest(t);
    hide Evict;
  }

  lemma NotedBirths(t: Table, h: seq<Failure>, key: Key, now: nat)
    requires Wf(t) && Births(t.order, h)
    ensures Births(NoteFailure(t, key, now).order, h + [Failure(key, now)])
  {
    NotedOrder(t, key, now);
    hide NoteFailure, Wf;
    BirthsGrow(t.order, h, Failure(key, now));
    if t.order != [] {
      BirthsGrow(t.order[1..], h, Failure(key, now));
    }
    hide Births;
  }

  /** Whatever was pushed out was crowded out. */
  ghost predicate CrowdedOut(g: Gate) {
    Births(g.table.order, g.history) && forall k <- g.evicted :: Crowded(g.history, k)
  }

  lemma RecordKeepsCrowdedOut(g: Gate, key: Key)
    requires Inv(g) && CrowdedOut(g)
    ensures CrowdedOut(Record(g, key))
  {
    NotedBirths(g.table, g.history, key, g.clock);
    forall k <- Pushed(g.table, key, g.clock) ensures Crowded(g.history, k) {
      PushedIsOldest(g.table, key, g.clock, k);
      OldestIsCrowded(g.table.order, g.history);
    }
    forall k | Crowded(g.history, k) ensures Crowded(Record(g, key).history, k) {
      CrowdedGrows(g.history, k, Failure(key, g.clock));
    }
    hide Births, Crowded, NoteFailure, Pushed;
  }

  lemma StepKeepsCrowdedOut(g: Gate, e: Timed)
    requires Inv(g) && Enabled(g, e) && CrowdedOut(g)
    ensures CrowdedOut(Step(g, e))
  {
    hide Births, Crowded, NoteFailure, Pushed, WindowOf;
    var v := g.(clock := e.now);
    match e.event
    case Submit(_, _) =>
    case Settle(host, ip, ok) =>
      var done := v.(inFlight := v.inFlight - multiset{PerIp(host, ip), PerHost(host)});
      assert Inv(done);
      if !ok {
        RecordKeepsInv(done, PerIp(host, ip));
        RecordKeepsCrowdedOut(done, PerIp(host, ip));
        RecordKeepsCrowdedOut(Record(done, PerIp(host, ip)), PerHost(host));
      }
    case SweepTick => BirthsUnexpired(v.table.order, v.table.entries, e.now, v.history);
  }

  lemma {:induction false} RunKeepsCrowdedOut(g: Gate, run: seq<Timed>)
    requires Inv(g) && Feasible(g, run) && CrowdedOut(g)
    ensures CrowdedOut(Exec(g, run))
    decreases |run|
  {
    if run == [] {
    } else {
      StepKeepsInv(g, run[0]);
      StepKeepsCrowdedOut(g, run[0]);
      RunKeepsCrowdedOut(Step(g, run[0]), run[1..]);
    }
  }

  /**
   The map answers as all the failures of the run would for every key after none of whose failures
   as many other keys failed as the map has places left.
   */
  lemma UncrowdedKeysAreExact(run: seq<Timed>, key: Key, limit: nat, now: nat)
    requires Feasible(OPEN, run)
    requires !Crowded(FailuresOf(run), key) && Exec(OPEN, run).clock <= now
    ensures Throttled(Exec(OPEN, run).table, key, limit, now) <==> WindowIsFull(FailuresOf(run), key, limit, now)
    ensures key !in Exec(OPEN, run).evicted
  {
    hide WindowIsFull, Crowded, Throttled;
    HistoryIsTheFailures(OPEN, run);
    assert [] + FailuresOf(run) == FailuresOf(run);
    RunKeepsCrowdedOut(OPEN, run);
    PruningIsInvisible(run, key, limit, now);
  }

  /**
   The answer to an attempt, in terms of the attempts that failed before it: it is turned away when
   the address has ten failures in a running window or the host sixty, and is in flight otherwise.
   */
  lemma SubmitExactly(run: seq<Timed>, host: nat, ip: string, now: nat)
    requires Feasible(OPEN, run) && Exec(OPEN, run).clock <= now
    requires !Crowded(FailuresOf(run), PerIp(host, ip)) && !Crowded(FailuresOf(run), PerHost(host))
    ensures var g := Exec(OPEN, run);
            var full := || WindowIsFull(FailuresOf(run), PerIp(host, ip), 10, now)
                        || WindowIsFull(FailuresOf(run), PerHost(host), 60, now);
            Step(g, At(now, Submit(host, ip))) ==
            Gate(g.table, now,
                 g.inFlight + if full then multiset{} else multiset{PerIp(host, ip), PerHost(host)},
                 g.history, g.evicted)
  {
    hide WindowIsFull, Crowded, Throttled;
    UncrowdedKeysAreExact(run, PerIp(host, ip), 10, now);
    UncrowdedKeysAreExact(run, PerHost(host), 60, now);
  }

  // ------------------------------------------------------------------------
  // From fixed windows to a sliding one
  // ------------------------------------------------------------------------

  /** No window of `key` in any prefix of the history counts more than `cap` failures. */
  ghost predicate WindowsAtMost(h: seq<Failure>, key: Key, cap: nat) {
    Counted(WindowOf(h, key)) <= cap && (h != [] ==> WindowsAtMost(h[..|h| - 1], key, cap))
  }

  function Counted(e: Option<Entry>): nat {
    if e.Some? then e.value.count else 0
  }

  /** What the current window says about the failures seen since `from`. */
  lemma {:induction false} WindowCounts(h: seq<Failure>, key: Key, cap: nat, from: int, now: nat)
    requires Sorted(h, now) && WindowsAtMost(h, key, cap) && cap >= 1
    requires forall f <- h :: f.at < from + WINDOW_MS
    ensures var e := WindowOf(h, key);
            var n := Failures(h, key, from, from + WINDOW_MS);
            if e.None? then n == 0
            else if e.value.resetAt - WINDOW_MS < from then n <= e.value.count - 1
            else n <= e.value.count + cap - 1
    ensures WindowOf(h, key).Some? ==> WindowOf(h, key).value.count >= 1
  {
    if h == [] {
    } else {
      var h0, last := h[..|h| - 1], h[|h| - 1];
      WindowCounts(h0, key, cap, from, now);
      if last.at < from {
        NoneOfKeyBefore(h, key, from, from + WINDOW_MS);
        NoneOfKeyBefore(h0, key, from, from + WINDOW_MS);
      }
    }
  }

  /** One fixed window per key bounds every interval of the window's length. */
  lemma {:induction false} SlidingBound(h: seq<Failure>, key: Key, cap: nat, from: int, now: nat)
    requires Sorted(h, now) && WindowsAtMost(h, key, cap) && cap >= 1
    ensures Failures(h, key, from, from + WINDOW_MS) <= 2 * cap - 1
  {
    if h == [] {
    } else {
      var h0, last := h[..|h| - 1], h[|h| - 1];
      if last.at >= from + WINDOW_MS {
        SlidingBound(h0, key, cap, from, now);
      } else {
        WindowCounts(h, key, cap, from, now);
      }
    }
  }

  /** Failures in the current window plus attempts in flight stay below the limit plus the overlap. */
  ghost predicate Capped(g: Gate, key: Key, c: nat) {
    var e := WindowOf(g.history, key);
    var live := if e.Some? && e.value.resetAt > g.clock then e.value.count else 0;
    && live + g.inFlight[key] <= Limit(key) - 1 + c
    && WindowsAtMost(g.history, key, Limit(key) - 1 + c)
  }

  lemma RecordKeepsCap(g: Gate, key: Key, k: Key, c: nat)
    requires WindowsAtMost(g.history, key, Limit(key) - 1 + c) && c >= 1
    requires k == key ==>
               var e := WindowOf(g.history, key);
               e.Some? && e.value.resetAt > g.clock ==> e.value.count < Limit(key) - 1 + c
    ensures WindowsAtMost(Record(g, k).history, key, Limit(key) - 1 + c)
    ensures k != key ==> WindowOf(Record(g, k).history, key) == WindowOf(g.history, key)
    ensures k == key ==> WindowOf(Record(g, k).history, key) == Some(Bump(WindowOf(g.history, key), g.clock))
  {
    var h2 := Record(g, k).history;
    assert h2[..|h2| - 1] == g.history;
  }

  lemma FailureKeepsCap(g: Gate, host: nat, ip: string, key: Key, c: nat)
    requires Capped(g, key, c) && c >= 1
    requires PerIp(host, ip) in g.inFlight && PerHost(host) in g.inFlight
    requires g.inFlight[key] <= c
    ensures var done := g.(inFlight := g.inFlight - multiset{PerIp(host, ip), PerHost(host)});
            Capped(Record(Record(done, PerIp(host, ip)), PerHost(host)), key, c)
  {
    hide WindowOf, WindowsAtMost, NoteFailure, Pushed;
    var done := g.(inFlight := g.inFlight - multiset{PerIp(host, ip), PerHost(host)});
    RecordKeepsCap(done, key, PerIp(host, ip), c);
    RecordKeepsCap(Record(done, PerIp(host, ip)), key, PerHost(host), c);
  }

  lemma StepKeepsCap(g: Gate, e: Timed, key: Key, c: nat)
    requires Inv(g) && Enabled(g, e) && c >= 1
    requires key !in g.evicted && g.inFlight[key] <= c && Capped(g, key, c)
    requires Step(g, e).inFlight[key] <= c
    ensures Capped(Step(g, e), key, c)
  {
    hide WindowOf, WindowsAtMost;
    var v := g.(clock := e.now);
    assert Capped(v, key, c);
    if e.event.Settle? && !e.event.ok {
      FailureKeepsCap(v, e.event.host, e.event.ip, key, c);
    }
  }

  lemma {:induction false} RunKeepsCap(g: Gate, run: seq<Timed>, key: Key, c: nat)
    requires Inv(g) && c >= 1 && Feasible(g, run) && Overlap(g, run, key, c)
    requires Capped(g, key, c)
    ensures Capped(Exec(g, run), key, c)
    decreases |run|
  {
    if run == [] {
    } else {
      StepKeepsInv(g, run[0]);
      assert Overlap(Step(g, run[0]), run[1..], key, c);
      StepKeepsCap(g, run[0], key, c);
      RunKeepsCap(Step(g, run[0]), run[1..], key, c);
    }
  }

  lemma RecordedPerWindow(run: seq<Timed>, key: Key, c: nat, from: int)
    requires Feasible(OPEN, run) && c >= 1 && Overlap(OPEN, run, key, c)
    ensures Failures(Exec(OPEN, run).history, key, from, from + WINDOW_MS) <= 2 * (Limit(key) + c - 1) - 1
  {
    RunKeepsInv(OPEN, run);
    assert Capped(OPEN, key, c);
    RunKeepsCap(OPEN, run, key, c);
    var g := Exec(OPEN, run);
    SlidingBound(g.history, key, Limit(key) - 1 + c, from, g.clock);
  }

  /**
   With at most `c` overlapping attempts on a key that the bound never pushes out, any half-open
   interval of 15 minutes holds at most 2 * (limit + c - 1) - 1 failures of the run; without
   overlap that is 2 * limit - 1.
   */
  lemma FailuresPerWindow(run: seq<Timed>, key: Key, c: nat, from: int)
    requires Feasible(OPEN, run) && c >= 1 && Overlap(OPEN, run, key, c)
    ensures var limit := if key.PerIp? then 10 else 60;
            Failures(FailuresOf(run), key, from, from + 900_000) <= 2 * (limit + c - 1) - 1
  {
    hide Feasible, Exec, FailuresOf, Failures, Overlap;
    HistoryIsTheFailures(OPEN, run);
    assert [] + FailuresOf(run) == FailuresOf(run);
    RecordedPerWindow(run, key, c, from);
  }

  // ------------------------------------------------------------------------
  // The bound is the best one
  // ------------------------------------------------------------------------

  /** The history `h` followed by `n` failures of `key` at `at`. */
  function Burst(h: seq<Failure>, key: Key, at: nat, n: nat): seq<Failure> {
    if n == 0 then h else Burst(h, key, at, n - 1) + [Failure(key, at)]
  }

  /** A history within the cap, with its current window and how many of its failures lie in the interval. */
  ghost predicate Filled(h: seq<Failure>, key: Key, cap: nat, from: int, until: int,
                         now: nat, e: Option<Entry>, seen: nat) {
    && Sorted(h, now) && WindowsAtMost(h, key, cap)
    && WindowOf(h, key) == e && Failures(h, key, from, until) == seen
  }

  lemma NothingFilled(key: Key, cap: nat, from: int, until: int)
    ensures Filled([], key, cap, from, until, 0, None, 0)
  {
  }

  lemma StillFilled(h: seq<Failure>, key: Key, cap: nat, from: int, until: int,
                    before: nat, now: nat, e: Option<Entry>, seen: nat)
    requires Filled(h, key, cap, from, until, before, e, seen) && before <= now
    ensures Filled(h, key, cap, from, until, now, e, seen)
  {
  }

  lemma FailureFills(h: seq<Failure>, key: Key, cap: nat, from: int, until: int,
                     before: nat, at: nat, e: Option<Entry>, seen: nat)
    requires Filled(h, key, cap, from, until, before, e, seen) && before <= at
    requires Bump(e, at).count <= cap
    ensures Filled(h + [Failure(key, at)], key, cap, from, until, at, Some(Bump(e, at)),
                   seen + if from <= at < until then 1 else 0)
  {
    var r := h + [Failure(key, at)];
    assert r[..|r| - 1] == h;
  }

  lemma {:induction false} BurstFills(h: seq<Failure>, key: Key, cap: nat, from: int, until: int,
                                      at: nat, e: Entry, seen: nat, n: nat)
    requires from <= at < until && e.resetAt > at && e.count + n <= cap
    requires Filled(h, key, cap, from, until, at, Some(e), seen)
    ensures Filled(Burst(h, key, at, n), key, cap, from, until, at, Some(e.(count := e.count + n)), seen + n)
    decreases n
  {
    hide Filled;
    if n == 0 {
    } else {
      BurstFills(h, key, cap, from, until, at, e, seen, n - 1);
      FailureFills(Burst(h, key, at, n - 1), key, cap, from, until, at, at,
                   Some(e.(count := e.count + (n - 1))), seen + (n - 1));
    }
  }

  /** For every cap there is a history whose windows respect it and that reaches 2 * cap - 1. */
  lemma SlidingBoundIsReached(key: Key, cap: nat) returns (h: seq<Failure>)
    requires cap >= 1
    ensures Sorted(h, WINDOW_MS) && WindowsAtMost(h, key, cap)
    ensures Failures(h, key, WINDOW_MS - 1, 2 * WINDOW_MS - 1) == 2 * cap - 1
  {
    h := SlidingBoundFilled(key, cap);
  }

  /** The first window: one failure at 0, the others just before it ends. */
  lemma FirstWindow(key: Key, cap: nat) returns (h: seq<Failure>)
    requires cap >= 1
    ensures Filled(h, key, cap, WINDOW_MS - 1, 2 * WINDOW_MS - 1, WINDOW_MS - 1,
                   Some(Entry(cap, WINDOW_MS)), cap - 1)
  {
    hide Filled;
    var from, until := WINDOW_MS - 1, 2 * WINDOW_MS - 1;
    NothingFilled(key, cap, from, until);
    FailureFills([], key, cap, from, until, 0, 0, None, 0);
    h := [] + [Failure(key, 0)];
    StillFilled(h, key, cap, from, until, 0, from, Some(Entry(1, WINDOW_MS)), 0);
    BurstFills(h, key, cap, from, until, from, Entry(1, WINDOW_MS), 0, cap - 1);
    h := Burst(h, key, from, cap - 1);
  }

  lemma SlidingBoundFilled(key: Key, cap: nat) returns (h: seq<Failure>)
    requires cap >= 1
    ensures Filled(h, key, cap, WINDOW_MS - 1, 2 * WINDOW_MS - 1, WINDOW_MS,
                   Some(Entry(cap, 2 * WINDOW_MS)), 2 * cap - 1)
  {
    hide Filled;
    var from, until := WINDOW_MS - 1, 2 * WINDOW_MS - 1;
    h := FirstWindow(key, cap);
    FailureFills(h, key, cap, from, until, from, WINDOW_MS, Some(Entry(cap, WINDOW_MS)), cap - 1);
    h := h + [Failure(key, WINDOW_MS)];
    BurstFills(h, key, cap, from, until, WINDOW_MS, Entry(1, 2 * WINDOW_MS), cap, cap - 1);
    h := Burst(h, key, WINDOW_MS, cap - 1);
  }

  // ------------------------------------------------------------------------
  // The map as the gateway updates it
  // ------------------------------------------------------------------------

  class FailureMap {
    var order: seq<Key>
    var entries: map<Key, Entry>

    ghost function View(): Table
      reads this
    {
      Table(order, entries)
    }

    constructor ()
      ensures View() == OPEN.table && Wf(View())
    {
      order, entries := [], map[];
    }

    method IsThrottled(key: Key, limit: nat, now: nat) returns (r: bool)
      ensures r == Throttled(View(), key, limit, now)
      ensures r <==> key in entries && now < entries[key].resetAt && limit <= entries[key].count
    {
      if key !in entries {
        return false;
      }
      var e := entries[key];
      r := e.resetAt > now && e.count >= limit;
    }

    method Note(key: Key, now: nat)
      requires Wf(View())
      modifies this
      ensures Wf(View()) && View() == NoteFailure(old(View()), key, now)
    {
      NoteFailureWf(View(), key, now);
      if key !in entries || entries[key].resetAt <= now {
        while |order| >= MAX_TRACKED
          invariant Evict(View()) == Evict(old(View()))
        {
          entries := entries - {order[0]};
          order := order[1..];
        }
        order := if key in entries then order else order + [key];
        entries := entries[key := Entry(1, now + WINDOW_MS)];
      } else {
        entries := entries[key := entries[key].(count := entries[key].count + 1)];
      }
    }

    method SweepExpired(now: nat)
      requires Wf(View())
      modifies this
      ensures Wf(View()) && View() == Sweep(old(View()), now)
      ensures forall k :: k in entries <==> k in old(entries) && now < old(entries)[k].resetAt
      ensures forall k <- entries :: entries[k] == old(entries)[k]
    {
      SweepWf(View(), now);
      SweepKeys(now);
    }

    method SweepKeys(now: nat)
      requires forall k <- order :: k in entries
      modifies this
      ensures order == Unexpired(old(order), old(entries), now)
      ensures entries == Without(old(entries), old(order), now)
    {
      hide Unexpired, Without;
      WithoutNothing(entries, now);
      var snapshot, keys := entries, order;
      order := [];
      assert keys[..0] == [] && keys[0..] == keys;
      for i := 0 to |keys|
        invariant order + Unexpired(keys[i..], snapshot, now) == Unexpired(keys, snapshot, now)
        invariant entries == Without(snapshot, keys[..i], now)
      {
        var k := keys[i];
        SweepOne(keys, i, snapshot, now);
        if snapshot[k].resetAt <= now {
          entries := entries - {k};
        } else {
          order := order + [k];
        }
      }
      assert keys[..|keys|] == keys && keys[|keys|..] == [];
    }
  }

  lemma WithoutNothing(entries: map<Key, Entry>, now: nat)
    ensures Without(entries, [], now) == entries
    ensures Unexpired([], entries, now) == []
  {
  }

  lemma SweepOne(keys: seq<Key>, i: nat, entries: map<Key, Entry>, now: nat)
    requires i < |keys| && keys[i] in entries
    ensures Unexpired(keys[i..], entries, now) ==
            (if entries[keys[i]].resetAt > now then [keys[i]] else []) + Unexpired(keys[i + 1..], entries, now)
    ensures Without(entries, keys[..i + 1], now) ==
            if entries[keys[i]].resetAt > now then Without(entries, keys[..i], now)
            else Without(entries, keys[..i], now) - {keys[i]}
  {
    assert keys[i..][1..] == keys[i + 1..];
    assert keys[..i + 1] == keys[..i] + [keys[i]];
  }

  /** The entries that are left once the keys seen so far have been swept. */
  ghost function Without(entries: map<Key, Entry>, seen: seq<Key>, now: nat): map<Key, Entry> {
    map k | k in entries && !(k in seen && entries[k].resetAt <= now) :: entries[k]
  }
}
