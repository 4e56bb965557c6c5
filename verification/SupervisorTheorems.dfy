/** What holds of every run of the supervisor, whatever order the event loop delivers events in. */
module SupervisorTheorems {
  import opened Prelude
  import opened SupervisorModel

  /** The state a run that starts from a fresh object ends in. */
  ghost predicate Reachable(run: seq<Timed>, w: World) {
    Feasible(INITIAL, run) && w == Exec(INITIAL, run)
  }

  lemma ReachableInv(run: seq<Timed>, w: World)
    requires Reachable(run, w)
    ensures Inv(w)
  {
    BackoffBounds(0);
    RunKeepsInv(INITIAL, run);
  }

  lemma {:induction false} ExecAppend(w: World, run: seq<Timed>, e: Timed)
    requires Feasible(w, run) && Enabled(Exec(w, run), e)
    ensures Feasible(w, run + [e]) && Exec(w, run + [e]) == Step(Exec(w, run), e)
    decreases |run|
  {
    if run == [] {
      assert [e][1..] == [];
    } else {
      assert (run + [e])[1..] == run[1..] + [e];
      ExecAppend(Step(w, run[0]), run[1..], e);
    }
  }

  lemma Extend(run: seq<Timed>, w: World, e: Timed)
    requires Reachable(run, w) && Enabled(w, e)
    ensures Reachable(run + [e], Step(w, e))
  {
    ExecAppend(INITIAL, run, e);
  }

  // ------------------------------------------------------------------------
  // One process at a time
  // ------------------------------------------------------------------------

  lemma AtMostOneProcessLives(run: seq<Timed>, w: World)
    requires Reachable(run, w)
    ensures forall p: nat, q: nat ::
              p < w.env.spawned && q < w.env.spawned && p !in w.env.exited && q !in w.env.exited ==> p == q
    ensures w.proc.child.None? || w.proc.respawnTimer.None?
    ensures |w.env.armed| <= 1
    ensures forall s <- w.env.signals :: !s.OrphanKill?
  {
    ReachableInv(run, w);
    assert |w.env.armed| == |w.env.armed.Keys|;
  }

  /** SIGKILL only ever goes to the current child, and only once a stop was asked for. */
  lemma OnlyStoppedProcessesAreKilled(run: seq<Timed>, w: World, e: Timed, p: nat)
    requires Reachable(run, w) && Enabled(w, e)
    requires |Step(w, e).env.signals| > |w.env.signals|
    requires Step(w, e).env.signals[|w.env.signals|] == Kill(p)
    ensures w.proc.child == Some(p) && w.proc.intentionallyStopped && p !in w.env.exited
  {
    ReachableInv(run, w);
  }

  // ------------------------------------------------------------------------
  // Supervision is not lost, and stop is final
  // ------------------------------------------------------------------------

  predicate NoStop(run: seq<Timed>) {
    forall e <- run :: !e.event.StopCall?
  }

  /** No `start()` in the run takes effect: each finds a child in place and returns. */
  predicate NoEffectiveStart(w: World, run: seq<Timed>)
    requires Feasible(w, run)
    decreases |run|
  {
    run != [] ==>
      && (run[0].event.StartCall? ==> w.proc.child.Some?)
      && NoEffectiveStart(Step(w, run[0]), run[1..])
  }

  lemma {:induction false} StaysStarted(w: World, run: seq<Timed>)
    requires Feasible(w, run) && NoStop(run)
    requires w.hist.started && !w.proc.intentionallyStopped
    ensures Exec(w, run).hist.started && !Exec(w, run).proc.intentionallyStopped
    decreases |run|
  {
    if run == [] {
    } else {
      assert run[0] in run;
      StaysStarted(Step(w, run[0]), run[1..]);
    }
  }

  /** No spawn in the run throws. */
  predicate SpawnsSucceed(run: seq<Timed>) {
    forall e <- run :: (e.event.StartCall? || e.event.RespawnTimer?) ==> e.event.spawns
  }

  lemma {:induction false} NothingThrows(w: World, run: seq<Timed>)
    requires Feasible(w, run) && SpawnsSucceed(run) && !w.hist.threw
    ensures !Exec(w, run).hist.threw
    decreases |run|
  {
    if run == [] {
    } else {
      assert run[0] in run;
      NothingThrows(Step(w, run[0]), run[1..]);
    }
  }

  /**
   From a start that takes effect until the next stop there is a child or a pending respawn, and
   never both, exactly unless the latest spawn threw, which leaves neither.
   */
  lemma SupervisionIsNeverLost(before: seq<Timed>, w: World, start: Timed, after: seq<Timed>)
    requires Reachable(before, w) && w.proc.child.None?
    requires start.event.StartCall? && Enabled(w, start)
    requires Feasible(Step(w, start), after) && NoStop(after)
    ensures var v := Exec(Step(w, start), after);
            && ((v.proc.child.Some? <==> v.proc.respawnTimer.None?) <==> !v.hist.threw)
            && (v.hist.threw ==> v.proc.child.None? && v.env.armed == map[])
            && (start.event.spawns && SpawnsSucceed(after) ==> !v.hist.threw)
  {
    ReachableInv(before, w);
    StepKeepsInv(w, start);
    RunKeepsInv(Step(w, start), after);
    StaysStarted(Step(w, start), after);
    if start.event.spawns && SpawnsSucceed(after) {
      NothingThrows(Step(w, start), after);
    }
  }

  predicate NoExitOf(run: seq<Timed>, p: nat) {
    forall e <- run :: e.event != ProcessExit(p)
  }

  lemma ChildStaysStep(w: World, e: Timed, p: nat)
    requires Inv(w) && Enabled(w, e) && w.proc.child == Some(p) && e.event != ProcessExit(p)
    ensures Step(w, e).proc.child == Some(p) && Step(w, e).env.spawned == w.env.spawned
    ensures Step(w, e).hist.stopsResolved == w.hist.stopsResolved
  {
    assert OnlyChildLives(w) && NoLeakedTimer(w) && Supervised(w);
    hide BackoffTracked, StopsAccounted;
  }

  lemma {:induction false} ChildStays(w: World, run: seq<Timed>, p: nat)
    requires Inv(w) && Feasible(w, run) && w.proc.child == Some(p) && NoExitOf(run, p)
    ensures Exec(w, run).proc.child == Some(p) && Exec(w, run).env.spawned == w.env.spawned
    ensures Exec(w, run).hist.stopsResolved == w.hist.stopsResolved
    decreases |run|
  {
    hide Inv, Step, Enabled;
    if run == [] {
    } else {
      assert run[0] in run && forall e <- run[1..] :: e in run;
      StepKeepsInv(w, run[0]);
      ChildStaysStep(w, run[0], p);
      ChildStays(Step(w, run[0]), run[1..], p);
    }
  }

  /**
   A process that never exits, as one whose spawn failed may not, is never replaced: whatever is
   called, nothing else is spawned, and no stop resolves.
   */
  lemma NoExitNoReplacement(before: seq<Timed>, w: World, run: seq<Timed>, p: nat)
    requires Reachable(before, w) && w.proc.child == Some(p)
    requires Feasible(w, run) && NoExitOf(run, p)
    ensures Exec(w, run).proc.child == Some(p) && Exec(w, run).env.spawned == w.env.spawned
    ensures Exec(w, run).hist.stopsResolved == w.hist.stopsResolved
  {
    ReachableInv(before, w);
    ChildStays(w, run, p);
  }

  lemma {:induction false} NothingSpawns(w: World, run: seq<Timed>)
    requires Inv(w) && w.proc.intentionallyStopped
    requires Feasible(w, run) && NoEffectiveStart(w, run)
    ensures Exec(w, run).env.spawned == w.env.spawned
    ensures Exec(w, run).proc.intentionallyStopped && Exec(w, run).env.armed == map[]
    decreases |run|
  {
    if run == [] {
    } else {
      StepKeepsInv(w, run[0]);
      NothingSpawns(Step(w, run[0]), run[1..]);
    }
  }

  /** After `stop()` nothing is spawned until a later `start()` takes effect. */
  lemma StopIsFinal(before: seq<Timed>, w: World, stop: Timed, after: seq<Timed>)
    requires Reachable(before, w) && stop.event.StopCall? && Enabled(w, stop)
    requires Feasible(Step(w, stop), after) && NoEffectiveStart(Step(w, stop), after)
    ensures Exec(Step(w, stop), after).env.spawned == w.env.spawned
    ensures Exec(Step(w, stop), after).env.armed == map[]
  {
    ReachableInv(before, w);
    StepKeepsInv(w, stop);
    NothingSpawns(Step(w, stop), after);
  }

  /** Only a stop without a child and the exit of a stopped process resolve stops. */
  lemma ResolvedOnlyBy(w: World, e: Timed)
    requires Enabled(w, e) && Step(w, e).hist.stopsResolved != w.hist.stopsResolved
    ensures (e.event.StopCall? && w.proc.child.None?)
            || (e.event.ProcessExit? && e.event.pid in w.env.stopWaiters)
  {
  }

  /** A stop resolves at once without a child, or on the exit of the child that it stopped. */
  lemma ResolvedBy(w: World, e: Timed)
    requires Inv(w) && Enabled(w, e) && Step(w, e).hist.stopsResolved != w.hist.stopsResolved
    ensures Step(w, e).proc.child.None? && Step(w, e).proc.status == Stopped
    ensures Step(w, e).proc.intentionallyStopped
  {
    ResolvedOnlyBy(w, e);
    assert StopsAccounted(w);
    hide OnlyChildLives, NoLeakedTimer, Supervised, BackoffTracked, Enabled, Reload, Start, RespawnFires,
      ForceKill, HealthSettles, Crashed;
  }

  lemma NothingLives(v: World)
    requires Inv(v) && v.proc.child.None? && v.proc.intentionallyStopped
    ensures v.proc.respawnTimer.None? && v.env.armed == map[]
    ensures forall p: nat :: p < v.env.spawned ==> p in v.env.exited
  {
    hide BackoffTracked, StopsAccounted;
  }

  /** `stop()` resolves only with no child, nothing scheduled, and status stopped. */
  lemma StopResolvesAtRest(run: seq<Timed>, w: World, e: Timed)
    requires Reachable(run, w) && Enabled(w, e)
    requires Step(w, e).hist.stopsResolved != w.hist.stopsResolved
    ensures var v := Step(w, e);
            && v.proc.child.None? && v.proc.respawnTimer.None? && v.env.armed == map[]
            && v.proc.status == Stopped && v.proc.intentionallyStopped
            && forall p: nat :: p < v.env.spawned ==> p in v.env.exited
  {
    hide Step, Inv;
    ReachableInv(run, w);
    StepKeepsInv(w, e);
    ResolvedBy(w, e);
    NothingLives(Step(w, e));
  }

  /** A stop stays unresolved only as long as its child has not exited; that exit resolves them all. */
  lemma StopResolvesOnExit(run: seq<Timed>, w: World)
    requires Reachable(run, w)
    ensures w.hist.stopsResolved <= w.hist.stopsCalled
    ensures w.hist.stopsResolved < w.hist.stopsCalled ==> w.proc.child.Some?
    ensures forall e: Timed ::
              Enabled(w, e) && w.proc.child.Some? && e.event == ProcessExit(w.proc.child.value)
              ==> Step(w, e).hist.stopsResolved == w.hist.stopsCalled
  {
    ReachableInv(run, w);
    if |w.env.stopWaiters| > 0 {
      var p :| p in w.env.stopWaiters;
    }
    forall e: Timed | Enabled(w, e) && w.proc.child.Some? && e.event == ProcessExit(w.proc.child.value)
      ensures Step(w, e).hist.stopsResolved == w.hist.stopsCalled
    {
      var p := w.proc.child.value;
      assert w.env.stopWaiters == multiset{}[p := w.env.stopWaiters[p]];
      assert |w.env.stopWaiters| == w.env.stopWaiters[p];
    }
  }

  // ------------------------------------------------------------------------
  // A stop asks the process to end
  // ------------------------------------------------------------------------

  /** Whoever is being stopped was sent SIGTERM, and was sent SIGKILL or has a timer armed for it. */
  ghost predicate Asked(w: World) {
    forall p <- w.env.stopWaiters ::
      Term(p) in w.env.signals && (Kill(p) in w.env.signals || p in w.env.killTimers)
  }

  /** A stop sends the child, if there is one, one SIGTERM and arms one timer for it; else it is over at once. */
  lemma StopAsks(w: World, now: nat)
    requires w.env.clock <= now
    ensures var v := Step(w, At(now, StopCall));
            && v.proc.intentionallyStopped && !v.proc.healthTimer && v.proc.respawnTimer.None?
            && v.proc.child == w.proc.child && v.hist.stopsCalled == w.hist.stopsCalled + 1
            && match w.proc.child
               case Some(p) =>
                 && v.env.signals == w.env.signals + [Term(p)]
                 && v.env.killTimers == w.env.killTimers + multiset{p}
                 && v.env.stopWaiters == w.env.stopWaiters + multiset{p}
                 && v.proc.status == w.proc.status && v.hist.stopsResolved == w.hist.stopsResolved
               case None =>
                 && v.env.signals == w.env.signals && v.env.killTimers == w.env.killTimers
                 && v.proc.status == Stopped && v.hist.stopsResolved == w.hist.stopsResolved + 1
  {
  }

  /** The timer sends SIGKILL exactly if its process is still the child. */
  lemma KillTimerFires(w: World, now: nat, p: nat)
    requires Enabled(w, At(now, ForceKillTimer(p)))
    ensures var v := Step(w, At(now, ForceKillTimer(p)));
            && v.env.signals == w.env.signals + (if w.proc.child == Some(p) then [Kill(p)] else [])
            && v.env.killTimers == w.env.killTimers - multiset{p}
            && v.proc == w.proc
  {
  }

  /** A reload sends SIGHUP exactly if there is a running child. */
  lemma ReloadSignals(w: World, now: nat)
    requires w.env.clock <= now
    ensures var v := Step(w, At(now, ReloadCall));
            && v.proc == w.proc
            && v.env.signals == w.env.signals +
               (if w.proc.child.Some? && w.proc.status == Running then [Hup(w.proc.child.value)] else [])
  {
  }

  /** Signals are never taken back. */
  lemma SignalsGrow(w: World, e: Timed)
    requires Enabled(w, e)
    ensures w.env.signals <= Step(w, e).env.signals
  {
  }

  /** Only a stop adds a kill timer, and only the timer itself removes one. */
  lemma KillTimersAfter(w: World, e: Timed)
    requires Enabled(w, e) && !e.event.StopCall? && !e.event.ForceKillTimer?
    ensures Step(w, e).env.killTimers == w.env.killTimers
  {
  }

  /** Nobody but a stop starts to wait, and whoever waits waits for the child. */
  lemma WaitersAfter(w: World, e: Timed)
    requires Inv(w) && Enabled(w, e) && !e.event.StopCall?
    ensures forall p <- Step(w, e).env.stopWaiters :: p in w.env.stopWaiters && w.proc.child == Some(p)
  {
    assert StopsAccounted(w);
    hide OnlyChildLives, NoLeakedTimer, Supervised, BackoffTracked;
  }

  lemma StepKeepsAsked(w: World, e: Timed)
    requires Inv(w) && Asked(w) && Enabled(w, e)
    ensures Asked(Step(w, e))
  {
    var v := Step(w, e);
    SignalsGrow(w, e);
    assert forall x <- w.env.signals :: x in v.env.signals;
    match e.event
    case StopCall => StopAsks(w, e.now);
    case ForceKillTimer(p) =>
      WaitersAfter(w, e);
      KillTimerFires(w, e.now, p);
    case _ =>
      WaitersAfter(w, e);
      KillTimersAfter(w, e);
    hide Inv, Step, Enabled;
  }

  lemma {:induction false} RunKeepsAsked(w: World, run: seq<Timed>)
    requires Inv(w) && Asked(w) && Feasible(w, run)
    ensures Asked(Exec(w, run))
    decreases |run|
  {
    hide Inv, Asked, Step, Enabled;
    if run == [] {
    } else {
      StepKeepsInv(w, run[0]);
      StepKeepsAsked(w, run[0]);
      RunKeepsAsked(Step(w, run[0]), run[1..]);
    }
  }

  /**
   While a stop is unresolved its process has been sent SIGTERM, and has been sent SIGKILL or the timer
   that will send it can fire.
   */
  lemma StoppedProcessesAreAsked(run: seq<Timed>, w: World)
    requires Reachable(run, w) && w.hist.stopsResolved < w.hist.stopsCalled
    ensures w.proc.child.Some?
    ensures var p := w.proc.child.value;
            && Term(p) in w.env.signals
            && (Kill(p) in w.env.signals || Enabled(w, At(w.env.clock, ForceKillTimer(p))))
  {
    ReachableInv(run, w);
    BackoffBounds(0);
    RunKeepsAsked(INITIAL, run);
    assert |w.env.stopWaiters| > 0;
    var p :| p in w.env.stopWaiters;
    assert w.proc.child == Some(p);
  }

  // ------------------------------------------------------------------------
  // What a start, an exit and a health answer do
  // ------------------------------------------------------------------------

  /** A start without a child spawns at once, in place of any pending respawn. */
  lemma StartSpawns(w: World, now: nat, spawns: bool)
    requires w.env.clock <= now
    ensures var v := Step(w, At(now, StartCall(spawns)));
            if w.proc.child.Some? then v == w.(env := w.env.(clock := now))
            else
              && v.proc.child == (if spawns then Some(w.env.spawned) else None)
              && v.env.spawned == w.env.spawned + (if spawns then 1 else 0)
              && v.proc.status == Starting && v.proc.lastStartMs == now
              && !v.proc.intentionallyStopped && v.proc.respawnTimer.None?
              && v.env.signals == w.env.signals
              && v.env.graceTimers == w.env.graceTimers + (if spawns then 1 else 0)
  {
  }

  /** A backoff timer that is still armed spawns when it fires, or fails to. */
  lemma RespawnTimerSpawns(run: seq<Timed>, w: World, now: nat, id: nat, spawns: bool)
    requires Reachable(run, w) && Enabled(w, At(now, RespawnTimer(id, spawns)))
    ensures var v := Step(w, At(now, RespawnTimer(id, spawns)));
            && v.proc.child == (if spawns then Some(w.env.spawned) else None)
            && v.proc.status == Starting && v.proc.lastStartMs == now && v.env.armed == map[]
            && |v.hist.respawns| == |w.hist.respawns| + 1
  {
    ReachableInv(run, w);
    hide StopsAccounted, BackoffTracked, OnlyChildLives;
  }

  /** The status after an exit, and no health timer goes on. */
  lemma ExitSetsStatus(run: seq<Timed>, w: World, now: nat, p: nat)
    requires Reachable(run, w) && Enabled(w, At(now, ProcessExit(p)))
    ensures var v := Step(w, At(now, ProcessExit(p)));
            && v.proc.child.None? && !v.proc.healthTimer
            && v.proc.status == (if w.proc.intentionallyStopped then Stopped else Error)
            && (v.proc.respawnTimer.Some? <==> !w.proc.intentionallyStopped)
  {
    ReachableInv(run, w);
    hide BackoffTracked;
  }

  /** Every answer of a health check, whatever the status when it comes. */
  lemma HealthAnswerSetsStatus(status: Status, health: Health, sinceSpawn: int)
    ensures var r := PolledStatus(status, health, sinceSpawn);
            && (r == Running <==>
                  || health == Reported(Running)
                  || (status == Running && health.Reported? && !health.status.Error?))
            && (r == Error <==>
                  || (status != Starting && (health.Threw? || health == Reported(Error)))
                  || (status == Starting && health.Reported? && health.status != Running && sinceSpawn > 120_000)
                  || (status == Error && health != Reported(Running)))
            && (r != Running && r != Error ==> r == status)
  {
  }

  /** A spawn error is reported as such, the grace period starts the health timer, and its ticks ask. */
  lemma CallbacksExactly(w: World, now: nat, p: nat)
    requires w.env.clock <= now
    ensures Enabled(w, At(now, SpawnFailed(p))) ==> Step(w, At(now, SpawnFailed(p))).proc == w.proc.(status := Error)
    ensures Enabled(w, At(now, GraceTimer)) ==> Step(w, At(now, GraceTimer)).proc == w.proc.(healthTimer := true)
    ensures Enabled(w, At(now, HealthTick)) ==>
              Step(w, At(now, HealthTick)).env.polls == w.env.polls + if w.proc.child.Some? then 1 else 0
  {
  }

  // ------------------------------------------------------------------------
  // Backoff and the respawn rate
  // ------------------------------------------------------------------------

  /** The j-th crash since the last reset schedules a respawn in exactly min(1000 * 2^j, 60000) ms. */
  lemma CrashWaitsExactly(run: seq<Timed>, w: World, e: Timed, p: nat)
    requires Reachable(run, w) && Enabled(w, e) && e.event == ProcessExit(p)
    requires !w.proc.intentionallyStopped
    ensures var v := Step(w, e);
            var reset := e.now - w.proc.lastStartMs > BACKOFF_RESET_AFTER_MS;
            var j: nat := if reset then 0 else w.hist.crashes;
            && v.proc.respawnTimer.Some?
            && v.env.armed == map[v.proc.respawnTimer.value := Timer(e.now + BackoffAfter(j), BackoffAfter(j))]
            && v.hist.crashes == j + 1
  {
    ReachableInv(run, w);
    StepKeepsInv(w, e);
    BackoffBounds(w.hist.crashes);
    BackoffBounds(0);
  }

  lemma SpacedIsSorted(rs: seq<Respawn>, i: nat, j: nat)
    requires Spaced(rs) && i <= j < |rs|
    ensures rs[i].at <= rs[j].at
    decreases j - i
  {
    if i < j { SpacedIsSorted(rs, i, j - 1); }
  }

  /** Six respawns in a row take at least a minute, resets or not. */
  lemma SixTakeAMinute(rs: seq<Respawn>, i: nat)
    requires Spaced(rs) && i + 5 < |rs|
    ensures rs[i].at + 60_000 <= rs[i + 5].at
  {
    assert Follows(rs[i], rs[i + 1].at, rs[i + 1].wait);
    assert Follows(rs[i + 1], rs[i + 2].at, rs[i + 2].wait);
    assert Follows(rs[i + 2], rs[i + 3].at, rs[i + 3].wait);
    assert Follows(rs[i + 3], rs[i + 4].at, rs[i + 4].wait);
    assert Follows(rs[i + 4], rs[i + 5].at, rs[i + 5].wait);
  }

  lemma {:induction false} FivePerMinute(rs: seq<Respawn>, i: nat, k: nat)
    requires Spaced(rs) && i + 5 * k < |rs|
    ensures rs[i].at + 60_000 * k <= rs[i + 5 * k].at
    decreases k
  {
    if k == 0 {
    } else {
      SixTakeAMinute(rs, i);
      FivePerMinute(rs, i + 5, k - 1);
    }
  }

  /** The respawns with index below `n` that happened in [from, until). */
  ghost function Within(rs: seq<Respawn>, n: nat, from: int, until: int): set<nat>
    requires n <= |rs|
  {
    set i: nat | i < n && from <= rs[i].at < until
  }

  /** A set of naturals has no more elements than the interval it lies in. */
  lemma {:induction false} RangeSize(s: set<nat>, lo: nat, hi: nat)
    requires forall i <- s :: lo <= i < hi
    requires lo <= hi
    ensures |s| <= hi - lo
    decreases hi - lo
  {
    if lo == hi {
      assert s == {};
    } else {
      RangeSize(s - {hi - 1}, lo, hi - 1);
      assert |s| <= |s - {hi - 1}| + 1;
    }
  }

  /** Minutes, rounded up. */
  function Minutes(span: nat): nat {
    (span + 59_999) / 60_000
  }

  lemma {:induction false} WindowBound(rs: seq<Respawn>, n: nat, from: int, span: nat)
    requires Spaced(rs) && n <= |rs|
    ensures |Within(rs, n, from, from + span)| <= 5 * Minutes(span)
    decreases n
  {
    if n == 0 {
    } else {
      var s := Within(rs, n, from, from + span);
      if n - 1 !in s {
        assert s == Within(rs, n - 1, from, from + span);
        WindowBound(rs, n - 1, from, span);
      } else {
        var k := Minutes(span);
        forall i <- s ensures n - 5 * k <= i < n {
          if i < n - 5 * k {
            SpacedIsSorted(rs, i, n - 1 - 5 * k);
            FivePerMinute(rs, n - 1 - 5 * k, k);
          }
        }
        RangeSize(s, if n < 5 * k then 0 else n - 5 * k, n);
      }
    }
  }

  /**
   However starts, stops, crashes and timers interleave, any half-open interval contains at most
   five automatic respawns for each minute that it lasts or begins.
   */
  lemma RespawnRateIsBounded(run: seq<Timed>, w: World, from: int, span: nat)
    requires Reachable(run, w)
    ensures |set i: nat | i < |w.hist.respawns| && from <= w.hist.respawns[i].at < from + span|
            <= 5 * Minutes(span)
  {
    ReachableInv(run, w);
    var rs := w.hist.respawns;
    WindowBound(rs, |rs|, from, span);
    assert (set i: nat | i < |rs| && from <= rs[i].at < from + span) == Within(rs, |rs|, from, from + span);
  }

  /** A supervised child that was spawned at the present moment, after `j` crashes since the last reset. */
  ghost predicate JustSpawned(run: seq<Timed>, w: World, j: nat) {
    && Reachable(run, w) && w.proc.child.Some? && !w.proc.intentionallyStopped
    && w.proc.lastStartMs == w.env.clock && w.hist.crashes == j
  }

  /** The child crashes at once, and is respawned when its backoff is over. */
  lemma CrashAndRespawn(run: seq<Timed>, w: World, j: nat) returns (later: seq<Timed>, v: World)
    requires JustSpawned(run, w, j)
    ensures JustSpawned(later, v, j + 1) && v.env.clock == w.env.clock + BackoffAfter(j)
    ensures v.hist.respawns == w.hist.respawns + [Respawn(w.env.clock + BackoffAfter(j), BackoffAfter(j))]
  {
    ReachableInv(run, w);
    var p := w.proc.child.value;
    var crash := At(w.env.clock, ProcessExit(p));
    assert OnlyChildLives(w);
    assert Enabled(w, crash);
    CrashWaitsExactly(run, w, crash, p);
    Extend(run, w, crash);
    var u := Step(w, crash);
    assert u.proc.child.None? && !u.proc.intentionallyStopped && u.hist.respawns == w.hist.respawns;
    assert u.env.clock == w.env.clock;
    hide Inv, OnlyChildLives;
    var id := u.proc.respawnTimer.value;
    var respawn := At(w.env.clock + BackoffAfter(j), RespawnTimer(id, true));
    assert Enabled(u, respawn);
    Extend(run + [crash], u, respawn);
    later := run + [crash] + [respawn];
    v := Step(u, respawn);
  }

  /** The bound is reached: five respawns in one minute, at 1, 3, 7, 15 and 31 s. */
  lemma RespawnBoundIsReached() returns (run: seq<Timed>, w: World)
    ensures Reachable(run, w)
    ensures w.hist.respawns == [Respawn(1_000, 1_000), Respawn(3_000, 2_000), Respawn(7_000, 4_000),
                                Respawn(15_000, 8_000), Respawn(31_000, 16_000)]
    ensures 5 * Minutes(60_000) == 5
  {
    Extend([], INITIAL, At(0, StartCall(true)));
    run := [] + [At(0, StartCall(true))];
    w := Step(INITIAL, At(0, StartCall(true)));
    BackoffBounds(0);
    BackoffBounds(1);
    BackoffBounds(2);
    BackoffBounds(3);
    hide Reachable, Step, BackoffAfter;
    run, w := CrashAndRespawn(run, w, 0);
    run, w := CrashAndRespawn(run, w, 1);
    run, w := CrashAndRespawn(run, w, 2);
    run, w := CrashAndRespawn(run, w, 3);
    run, w := CrashAndRespawn(run, w, 4);
  }

  // ------------------------------------------------------------------------
  // Is the reported status truthful?
  // ------------------------------------------------------------------------

  /** "running" is only reported while there is a child. */
  predicate Truthful(w: World) {
    w.proc.status == Running ==> w.proc.child.Some?
  }

  predicate AlwaysTruthful(w: World, run: seq<Timed>)
    requires Feasible(w, run)
    decreases |run|
  {
    Truthful(w) && (run != [] ==> AlwaysTruthful(Step(w, run[0]), run[1..]))
  }

  /** No poll that settles to "running" settles when the child it asked about is gone. */
  predicate NoLateHealth(w: World, run: seq<Timed>)
    requires Feasible(w, run)
    decreases |run|
  {
    run != [] ==>
      && !(run[0].event == HealthResult(Reported(Running)) && w.proc.child.None?)
      && NoLateHealth(Step(w, run[0]), run[1..])
  }

  /** One step keeps the status truthful unless it is a late health result. */
  lemma TruthfulStep(w: World, e: Timed)
    requires Inv(w) && Truthful(w) && Enabled(w, e)
    ensures Truthful(Step(w, e)) <==> !(e.event == HealthResult(Reported(Running)) && w.proc.child.None?)
  {
  }

  lemma {:induction false} TruthfulExactly(w: World, run: seq<Timed>)
    requires Inv(w) && Truthful(w) && Feasible(w, run)
    ensures AlwaysTruthful(w, run) <==> NoLateHealth(w, run)
    decreases |run|
  {
    if run == [] {
    } else {
      StepKeepsInv(w, run[0]);
      TruthfulStep(w, run[0]);
      if Truthful(Step(w, run[0])) {
        TruthfulExactly(Step(w, run[0]), run[1..]);
      }
    }
  }

  /** The status is truthful throughout a run exactly when no health result arrives late. */
  lemma StatusIsTruthfulExactly(run: seq<Timed>)
    requires Feasible(INITIAL, run)
    ensures AlwaysTruthful(INITIAL, run) <==> NoLateHealth(INITIAL, run)
  {
    BackoffBounds(0);
    TruthfulExactly(INITIAL, run);
  }

  /** The late events: a stop, the exit it asked for, and then the answer to an older poll. */
  function LateHealth(now: nat, p: nat): seq<Timed> {
    [At(now, StopCall), At(now, ProcessExit(p)), At(now, HealthResult(Reported(Running)))]
  }

  /** The stop, while a poll is in flight. */
  lemma LateStop(w: World, p: nat)
    requires Inv(w) && w.proc.child == Some(p) && w.env.polls > 0
    ensures var v := Step(w, At(w.env.clock, StopCall));
            && Inv(v) && v.proc.child == Some(p) && v.env.polls > 0 && v.env.clock == w.env.clock
            && v.proc.intentionallyStopped
  {
    StepKeepsInv(w, At(w.env.clock, StopCall));
    hide Inv;
  }

  /** The exit that the stop asked for resolves it, and the poll is still in flight. */
  lemma LateExit(v: World, p: nat)
    requires Inv(v) && v.proc.child == Some(p) && v.env.polls > 0 && v.proc.intentionallyStopped
    ensures var e := At(v.env.clock, ProcessExit(p));
            && Enabled(v, e)
            && var u := Step(v, e);
               && u.proc.child.None? && u.env.polls > 0 && u.env.clock == v.env.clock
               && u.hist.stopsResolved == u.hist.stopsCalled
  {
    var e := At(v.env.clock, ProcessExit(p));
    assert OnlyChildLives(v);
    assert Enabled(v, e);
    StepKeepsInv(v, e);
    var u := Step(v, e);
    assert StopsAccounted(u);
    assert u.env.stopWaiters == multiset{};
    hide Inv, OnlyChildLives, BackoffTracked;
  }

  /** The answer to the older poll. */
  lemma LateAnswer(u: World)
    requires u.proc.child.None? && u.env.polls > 0
    ensures var e := At(u.env.clock, HealthResult(Reported(Running)));
            && Enabled(u, e)
            && Step(u, e).proc.status == Running && Step(u, e).proc.child.None? && Step(u, e).hist == u.hist
  {
  }

  /** Whenever a poll is in flight, a stop can leave the status at "running" with nothing running. */
  lemma LateHealthMisreports(run: seq<Timed>, w: World, p: nat)
    requires Reachable(run, w) && w.proc.child == Some(p) && w.env.polls > 0
    ensures var late := LateHealth(w.env.clock, p);
            && Feasible(w, late)
            && Exec(w, late).proc.status == Running
            && Exec(w, late).proc.child.None?
            && Exec(w, late).hist.stopsResolved == Exec(w, late).hist.stopsCalled
  {
    ReachableInv(run, w);
    var late := LateHealth(w.env.clock, p);
    LateStop(w, p);
    var v := Step(w, late[0]);
    LateExit(v, p);
    var u := Step(v, late[1]);
    LateAnswer(u);
    hide Inv, Step, Feasible, Exec;
    Peel(Step(u, late[2]), late[3..]);
    Peel(u, late[2..]);
    Peel(v, late[1..]);
    Peel(w, late);
  }

  /** Unfolds a run by one event. */
  lemma Peel(w: World, run: seq<Timed>)
    ensures run == [] ==> Feasible(w, run) && Exec(w, run) == w
    ensures run != [] && Enabled(w, run[0]) && Feasible(Step(w, run[0]), run[1..]) ==>
              Feasible(w, run) && Exec(w, run) == Exec(Step(w, run[0]), run[1..])
  {
  }

  /** Such states are reachable: a start, its grace period, and one tick of the health timer. */
  lemma PollCanBeInFlight() returns (run: seq<Timed>, w: World)
    ensures Reachable(run, w) && w.proc.child == Some(0) && w.env.polls == 1
  {
    Extend([], INITIAL, At(0, StartCall(true)));
    w := Step(INITIAL, At(0, StartCall(true)));
    Extend([] + [At(0, StartCall(true))], w, At(5_000, GraceTimer));
    w := Step(w, At(5_000, GraceTimer));
    run := [] + [At(0, StartCall(true))] + [At(5_000, GraceTimer)];
    Extend(run, w, At(15_000, HealthTick));
    w := Step(w, At(15_000, HealthTick));
    run := run + [At(15_000, HealthTick)];
  }
}
