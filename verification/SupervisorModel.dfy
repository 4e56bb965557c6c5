/**
 The process supervisor as a transition system.

 A `World` is the state of one supervisor (`Proc`), of the Node event loop and the operating
 system around it (`Env`), and of what has happened so far (`History`). Every callback the
 event loop can run is one `Event`; callbacks are atomic, and the environment picks which
 enabled one runs next and at what time. `pollHealth` is two events, split at its await.
 */
module SupervisorModel {
  import opened Prelude

  const BASE_BACKOFF_MS: nat := 1_000
  const MAX_BACKOFF_MS: nat := 60_000
  const BACKOFF_RESET_AFTER_MS: nat := 60_000
  const STARTUP_TIMEOUT_MS: nat := 120_000

  datatype Status = Starting | Running | Stopped | Error

  /** What `checkHealth` settles to. */
  datatype Health = Reported(status: Status) | Threw

  datatype Signal = Term(pid: nat) | Kill(pid: nat) | Hup(pid: nat) | OrphanKill(pid: nat)

  /** An armed backoff timer: when it is due and how long it was armed for. */
  datatype Timer = Timer(due: nat, wait: nat)

  /** The fields of the supervisor object. */
  datatype Proc = Proc(
    child: Option<nat>,
    status: Status,
    intentionallyStopped: bool,
    healthTimer: bool,
    respawnTimer: Option<nat>,
    backoffMs: nat,
    lastStartMs: nat)

  /**
   Node and the operating system. Processes and timers are numbered as they are created.
   `stopWaiters` counts, per process, the unresolved `stop()` promises that wait for its exit.
   */
  datatype Env = Env(
    clock: nat,
    armed: map<nat, Timer>,
    timersMade: nat,
    spawned: nat,
    exited: set<nat>,
    signals: seq<Signal>,
    stopWaiters: multiset<nat>,
    killTimers: multiset<nat>,
    graceTimers: nat,
    polls: nat)

  /** An automatic respawn: when it happened and the backoff that preceded it. */
  datatype Respawn = Respawn(at: nat, wait: nat)

  datatype History = History(
    started: bool,
    threw: bool, // did the latest spawn throw?
    crashes: nat, // crash exits since the last backoff reset
    respawns: seq<Respawn>,
    stopsCalled: nat,
    stopsResolved: nat)

  datatype World = World(proc: Proc, env: Env, hist: History)

  datatype Event =
    | StartCall(spawns: bool) // false: building the arguments or spawning throws
    | StopCall
    | ReloadCall
    | ProcessExit(pid: nat)
    | SpawnFailed(pid: nat)
    | RespawnTimer(id: nat, spawns: bool)
    | ForceKillTimer(pid: nat)
    | GraceTimer
    | HealthTick
    | HealthResult(health: Health)

  datatype Timed = At(now: nat, event: Event)

  const INITIAL: World := World(
    Proc(None, Stopped, false, false, None, BASE_BACKOFF_MS, 0),
    Env(0, map[], 0, 0, {}, [], multiset{}, multiset{}, 0, 0),
    History(false, false, 0, [], 0, 0))

  // ------------------------------------------------------------------------
  // The callbacks
  // ------------------------------------------------------------------------

  function CancelRespawn(w: World): World {
    match w.proc.respawnTimer
    case None => w
    case Some(id) =>
      w.(proc := w.proc.(respawnTimer := None), env := w.env.(armed := w.env.armed - {id}))
  }

  function KillOrphan(w: World): World {
    match w.proc.child
    case None => w
    case Some(p) =>
      w.(proc := w.proc.(child := None), env := w.env.(signals := w.env.signals + [OrphanKill(p)]))
  }

  /** A spawn that throws has already set the status and the start time. */
  function SpawnOnce(w0: World, spawns: bool): World {
    var w := KillOrphan(w0);
    var v := w.(proc := w.proc.(lastStartMs := w.env.clock, status := Starting), hist := w.hist.(threw := !spawns));
    if !spawns then v
    else
      v.(proc := v.proc.(child := Some(v.env.spawned)),
         env := v.env.(spawned := v.env.spawned + 1, graceTimers := v.env.graceTimers + 1))
  }

  function Start(w: World, spawns: bool): World {
    if w.proc.child.Some? then w
    else
      SpawnOnce(CancelRespawn(w.(proc := w.proc.(intentionallyStopped := false),
                                 hist := w.hist.(started := true))), spawns)
  }

  /** The part of `stop()` that runs whether or not there is a child. */
  function Halt(w: World): World {
    CancelRespawn(w.(proc := w.proc.(intentionallyStopped := true, healthTimer := false)))
  }

  function Stop(w0: World): World {
    var w := Halt(w0);
    match w.proc.child
    case None =>
      w.(proc := w.proc.(status := Stopped),
         hist := w.hist.(stopsCalled := w.hist.stopsCalled + 1, stopsResolved := w.hist.stopsResolved + 1))
    case Some(p) =>
      w.(env := w.env.(signals := w.env.signals + [Term(p)],
                       stopWaiters := w.env.stopWaiters + multiset{p},
                       killTimers := w.env.killTimers + multiset{p}),
         hist := w.hist.(stopsCalled := w.hist.stopsCalled + 1))
  }

  function Reload(w: World): World {
    if w.proc.child.None? || w.proc.status != Running then w
    else w.(env := w.env.(signals := w.env.signals + [Hup(w.proc.child.value)]))
  }

  /** Replaces whatever respawn is pending by one in `wait` ms. */
  function ArmRespawn(w: World, wait: nat): World {
    var v := CancelRespawn(w);
    var id := v.env.timersMade;
    v.(proc := v.proc.(respawnTimer := Some(id)),
       env := v.env.(armed := v.env.armed[id := Timer(w.env.clock + wait, wait)], timersMade := id + 1))
  }

  /** An exit nobody asked for: back off, then respawn. */
  function Crashed(w: World): World {
    var reset := w.env.clock - w.proc.lastStartMs > BACKOFF_RESET_AFTER_MS;
    var backoff := if reset then BASE_BACKOFF_MS else w.proc.backoffMs;
    ArmRespawn(w.(proc := w.proc.(status := Error, backoffMs := Min(backoff * 2, MAX_BACKOFF_MS)),
                  hist := w.hist.(crashes := if reset then 1 else w.hist.crashes + 1)),
               Min(backoff, MAX_BACKOFF_MS))
  }

  /** The supervisor's own exit listener, registered when the process was spawned. */
  function ExitListener(w0: World, p: nat): World {
    var w := w0.(proc := w0.proc.(child := if w0.proc.child == Some(p) then None else w0.proc.child,
                                  healthTimer := false));
    if w.proc.intentionallyStopped then w.(proc := w.proc.(status := Stopped)) else Crashed(w)
  }

  /** The exit listeners that `stop()` calls added to process `p`. */
  function StopListeners(w: World, p: nat): World {
    if p !in w.env.stopWaiters then w
    else
      w.(proc := w.proc.(status := Stopped),
         env := w.env.(stopWaiters := w.env.stopWaiters[p := 0]),
         hist := w.hist.(stopsResolved := w.hist.stopsResolved + w.env.stopWaiters[p]))
  }

  function Exit(w: World, p: nat): World {
    StopListeners(ExitListener(w.(env := w.env.(exited := w.env.exited + {p})), p), p)
  }

  function RespawnFires(w0: World, id: nat, spawns: bool): World
    requires id in w0.env.armed
  {
    var w := w0.(proc := w0.proc.(respawnTimer := None), env := w0.env.(armed := w0.env.armed - {id}));
    if w.proc.intentionallyStopped then w
    else
      SpawnOnce(w.(hist := w.hist.(respawns := w.hist.respawns + [Respawn(w.env.clock, w0.env.armed[id].wait)])),
                spawns)
  }

  function ForceKill(w0: World, p: nat): World {
    var w := w0.(env := w0.env.(killTimers := w0.env.killTimers - multiset{p}));
    if w.proc.child == Some(p) then w.(env := w.env.(signals := w.env.signals + [Kill(p)])) else w
  }

  /** `startHealthTimer`, which runs when the grace period after a spawn ends. */
  function StartHealthTimer(w: World): World
    requires w.env.graceTimers > 0
  {
    w.(proc := w.proc.(healthTimer := true), env := w.env.(graceTimers := w.env.graceTimers - 1))
  }

  /** `pollHealth` up to its await. */
  function PollHealth(w: World): World {
    if w.proc.child.None? then w else w.(env := w.env.(polls := w.env.polls + 1))
  }

  /** The status after a health poll settles `sinceSpawn` ms after the latest spawn. */
  function PolledStatus(status: Status, health: Health, sinceSpawn: int): Status {
    match health
    case Threw => if status == Starting then status else Error
    case Reported(s) =>
      if s == Running then Running
      else if status == Starting then (if sinceSpawn > STARTUP_TIMEOUT_MS then Error else status)
      else if s == Error then Error
      else status
  }

  function HealthSettles(w: World, health: Health): World
    requires w.env.polls > 0
  {
    w.(proc := w.proc.(status := PolledStatus(w.proc.status, health, w.env.clock - w.proc.lastStartMs)),
       env := w.env.(polls := w.env.polls - 1))
  }

  /** Can the event loop deliver this event now? Any process that has not exited may exit. */
  predicate Enabled(w: World, e: Timed) {
    && w.env.clock <= e.now
    && match e.event
       case StartCall(_) => true
       case StopCall => true
       case ReloadCall => true
       case ProcessExit(p) => p < w.env.spawned && p !in w.env.exited
       case SpawnFailed(p) => p < w.env.spawned
       case RespawnTimer(id, _) => id in w.env.armed && w.env.armed[id].due <= e.now
       case ForceKillTimer(p) => p in w.env.killTimers
       case GraceTimer => w.env.graceTimers > 0
       case HealthTick => w.proc.healthTimer
       case HealthResult(_) => w.env.polls > 0
  }

  function Step(w0: World, e: Timed): World
    requires Enabled(w0, e)
  {
    var w := w0.(env := w0.env.(clock := e.now));
    match e.event
    case StartCall(spawns) => Start(w, spawns)
    case StopCall => Stop(w)
    case ReloadCall => Reload(w)
    case ProcessExit(p) => Exit(w, p)
    case SpawnFailed(p) => w.(proc := w.proc.(status := Error))
    case RespawnTimer(id, spawns) => RespawnFires(w, id, spawns)
    case ForceKillTimer(p) => ForceKill(w, p)
    case GraceTimer => StartHealthTimer(w)
    case HealthTick => PollHealth(w)
    case HealthResult(h) => HealthSettles(w, h)
  }

  /** A run: every event is enabled when it is delivered. */
  predicate Feasible(w: World, run: seq<Timed>)
    decreases |run|
  {
    run == [] || (Enabled(w, run[0]) && Feasible(Step(w, run[0]), run[1..]))
  }

  function Exec(w: World, run: seq<Timed>): World
    requires Feasible(w, run)
    decreases |run|
  {
    if run == [] then w else Exec(Step(w, run[0]), run[1..])
  }

  // ------------------------------------------------------------------------
  // The invariant
  // ------------------------------------------------------------------------

  function Pow2(n: nat): nat {
    if n == 0 then 1 else 2 * Pow2(n - 1)
  }

  /** The backoff after `j` crash exits since the last reset. */
  function BackoffAfter(j: nat): nat {
    Min(BASE_BACKOFF_MS * Pow2(j), MAX_BACKOFF_MS)
  }

  /** Every spawned process but the current child has exited. */
  ghost predicate OnlyChildLives(w: World) {
    && (forall p: nat :: p < w.env.spawned ==> p in w.env.exited || w.proc.child == Some(p))
    && (forall p <- w.env.exited :: p < w.env.spawned)
    && (w.proc.child.Some? ==> w.proc.child.value < w.env.spawned && w.proc.child.value !in w.env.exited)
  }

  /** The event loop holds no backoff timer other than the one the supervisor can cancel. */
  ghost predicate NoLeakedTimer(w: World) {
    && w.env.armed.Keys == (if w.proc.respawnTimer.Some? then {w.proc.respawnTimer.value} else {})
    && (w.proc.respawnTimer.Some? ==> w.proc.respawnTimer.value < w.env.timersMade)
  }

  /**
   While supervised there is either a child or a pending respawn, never both, unless the latest
   spawn threw, which leaves neither; otherwise no respawn.
   */
  ghost predicate Supervised(w: World) {
    && (w.proc.respawnTimer.Some? ==>
          w.proc.child.None? && !w.proc.intentionallyStopped && w.hist.started)
    && (w.hist.threw ==> w.proc.child.None? && w.proc.respawnTimer.None?)
    && (w.hist.started && !w.proc.intentionallyStopped && !w.hist.threw ==>
          w.proc.child.Some? || w.proc.respawnTimer.Some?)
    && (!w.hist.started ==> w.env.spawned == 0 && !w.hist.threw)
  }

  /** Unresolved stops wait for the current child, and only a child being stopped is ever killed. */
  ghost predicate StopsAccounted(w: World) {
    && (forall p <- w.env.stopWaiters :: w.proc.child == Some(p) && w.proc.intentionallyStopped)
    && (forall p <- w.env.killTimers ::
          p < w.env.spawned && (w.proc.child == Some(p) ==> w.proc.intentionallyStopped))
    && w.hist.stopsCalled == |w.env.stopWaiters| + w.hist.stopsResolved
  }

  ghost predicate NoOrphanKilled(signals: seq<Signal>) {
    forall s <- signals :: !s.OrphanKill?
  }

  /**
   Successive respawns are at least the backoff apart, and the backoff doubles up to its cap
   unless more than the reset time passed in between.
   */
  ghost predicate Follows(prev: Respawn, at: nat, wait: nat) {
    && BASE_BACKOFF_MS <= wait
    && prev.at + wait <= at
    && (Min(2 * prev.wait, MAX_BACKOFF_MS) <= wait || prev.at + BACKOFF_RESET_AFTER_MS < at)
  }

  ghost predicate Spaced(rs: seq<Respawn>) {
    && (forall i :: 0 <= i < |rs| ==> BASE_BACKOFF_MS <= rs[i].wait)
    && (forall i :: 0 < i < |rs| ==> Follows(rs[i - 1], rs[i].at, rs[i].wait))
  }

  ghost predicate BackoffTracked(w: World) {
    var rs := w.hist.respawns;
    && w.proc.backoffMs == BackoffAfter(w.hist.crashes)
    && w.proc.lastStartMs <= w.env.clock
    && Spaced(rs)
    && (forall id <- w.env.armed ::
          var t := w.env.armed[id];
          && BASE_BACKOFF_MS <= t.wait
          && Min(2 * t.wait, MAX_BACKOFF_MS) <= w.proc.backoffMs
          && (rs != [] ==> Follows(rs[|rs| - 1], t.due, t.wait)))
    && (rs != [] ==>
          var last := rs[|rs| - 1];
          && last.at <= w.proc.lastStartMs
          && (Min(2 * last.wait, MAX_BACKOFF_MS) <= w.proc.backoffMs
              || last.at + BACKOFF_RESET_AFTER_MS < w.env.clock))
  }

  ghost predicate Inv(w: World) {
    && OnlyChildLives(w)
    && NoLeakedTimer(w)
    && Supervised(w)
    && StopsAccounted(w)
    && NoOrphanKilled(w.env.signals)
    && BackoffTracked(w)
  }

  lemma Pow2Positive(n: nat)
    ensures Pow2(n) >= 1
  {
  }

  lemma BackoffBounds(j: nat)
    ensures BASE_BACKOFF_MS <= BackoffAfter(j) <= MAX_BACKOFF_MS
    ensures BackoffAfter(j + 1) == Min(2 * BackoffAfter(j), MAX_BACKOFF_MS)
    ensures BackoffAfter(0) == BASE_BACKOFF_MS
    ensures BackoffAfter(1) == 2 * BASE_BACKOFF_MS
  {
    Pow2Positive(j);
    assert Pow2(1) == 2 * Pow2(0);
  }

  lemma ExitListenerKeepsBackoff(w: World, p: nat)
    requires Inv(w) && w.proc.child == Some(p)
    ensures BackoffTracked(ExitListener(w, p))
  {
    BackoffBounds(w.hist.crashes);
    BackoffBounds(0);
  }

  lemma ExitListenerKeepsProcess(w: World, p: nat)
    requires Inv(w) && w.proc.child == Some(p)
    ensures var v := ExitListener(w, p).(env := ExitListener(w, p).env.(exited := w.env.exited + {p}));
            OnlyChildLives(v) && NoLeakedTimer(v) && Supervised(v)
  {
  }

  lemma ExitSettlesStops(w: World, p: nat)
    requires Inv(w) && w.proc.child == Some(p)
    ensures StopsAccounted(Exit(w, p))
  {
    hide OnlyChildLives, NoLeakedTimer, Supervised, NoOrphanKilled, BackoffTracked;
    var waiting := w.env.stopWaiters;
    assert waiting == multiset{}[p := waiting[p]] && waiting[p := 0] == multiset{};
    assert |waiting| == waiting[p];
  }

  lemma ExitKeepsInv(w: World, p: nat)
    requires Inv(w) && p < w.env.spawned && p !in w.env.exited
    ensures Inv(Exit(w, p))
  {
    var v := ExitListener(w, p);
    ExitListenerKeepsBackoff(w, p);
    ExitListenerKeepsProcess(w, p);
    ExitSettlesStops(w, p);
    var u := v.(env := v.env.(exited := w.env.exited + {p}));
    assert Exit(w, p) == StopListeners(u, p);
    hide StopsAccounted, ExitListener, Exit;
  }

  lemma StartKeepsBackoff(w: World, spawns: bool)
    requires Inv(w)
    ensures BackoffTracked(Start(w, spawns))
  {
    hide OnlyChildLives, StopsAccounted, Supervised, NoOrphanKilled;
  }

  lemma StartKeepsInv(w: World, spawns: bool)
    requires Inv(w)
    ensures Inv(Start(w, spawns))
  {
    StartKeepsBackoff(w, spawns);
    hide BackoffTracked;
  }

  lemma HaltKeepsInv(w: World)
    requires Inv(w)
    ensures Inv(Halt(w))
  {
  }

  lemma StopWithoutChildKeepsInv(w: World)
    requires Inv(w) && w.proc.child.None?
    ensures Inv(Stop(w))
  {
    HaltKeepsInv(w);
    var v, u := Halt(w), Stop(w);
    assert u == v.(proc := u.proc, hist := u.hist);
    assert BackoffTracked(u) && Supervised(u) && StopsAccounted(u);
    hide BackoffTracked, Supervised, StopsAccounted;
  }

  lemma StopWithChildAccounts(w: World, p: nat)
    requires Inv(w) && w.proc.child == Some(p)
    ensures StopsAccounted(Stop(w)) && NoOrphanKilled(Stop(w).env.signals)
  {
    hide BackoffTracked;
    HaltKeepsInv(w);
    assert Halt(w).proc.intentionallyStopped;
  }

  lemma StopWithChildKeepsInv(w: World, p: nat)
    requires Inv(w) && w.proc.child == Some(p)
    ensures Inv(Stop(w))
  {
    HaltKeepsInv(w);
    StopWithChildAccounts(w, p);
    var v, u := Halt(w), Stop(w);
    assert u.proc == v.proc;
    assert BackoffTracked(u) && Supervised(u);
    hide BackoffTracked, Supervised, StopsAccounted, NoOrphanKilled;
  }

  lemma StopKeepsInv(w: World)
    requires Inv(w)
    ensures Inv(Stop(w))
  {
    hide Inv, Stop;
    match w.proc.child
    case None => StopWithoutChildKeepsInv(w);
    case Some(p) => StopWithChildKeepsInv(w, p);
  }

  /** `u` differs from `w` only in what the invariant does not look at, and in later time. */
  ghost predicate SameLifecycle(w: World, u: World) {
    && u.hist == w.hist
    && u.proc == w.proc.(status := u.proc.status, healthTimer := u.proc.healthTimer)
    && u.env == w.env.(clock := u.env.clock, signals := u.env.signals, killTimers := u.env.killTimers,
                       graceTimers := u.env.graceTimers, polls := u.env.polls)
    && w.env.clock <= u.env.clock
    && u.env.killTimers <= w.env.killTimers
    && NoOrphanKilled(u.env.signals)
  }

  lemma SameLifecycleKeepsBackoff(w: World, u: World)
    requires BackoffTracked(w) && SameLifecycle(w, u)
    ensures BackoffTracked(u)
  {
  }

  lemma SameLifecycleKeepsStops(w: World, u: World)
    requires StopsAccounted(w) && SameLifecycle(w, u)
    ensures StopsAccounted(u)
  {
    assert forall q <- u.env.killTimers :: q in w.env.killTimers;
  }

  lemma SameLifecycleKeepsInv(w: World, u: World)
    requires Inv(w) && SameLifecycle(w, u)
    ensures Inv(u)
  {
    SameLifecycleKeepsBackoff(w, u);
    SameLifecycleKeepsStops(w, u);
    hide BackoffTracked, StopsAccounted;
  }

  lemma ForceKillKeepsInv(w: World, p: nat)
    requires Inv(w) && p in w.env.killTimers
    ensures Inv(ForceKill(w, p))
  {
    assert SameLifecycle(w, ForceKill(w, p)) by {
      hide OnlyChildLives, StopsAccounted, BackoffTracked;
    }
    hide *;
    SameLifecycleKeepsInv(w, ForceKill(w, p));
  }

  lemma TimePassesKeepsInv(w: World, now: nat)
    requires Inv(w) && w.env.clock <= now
    ensures Inv(w.(env := w.env.(clock := now)))
  {
    hide OnlyChildLives, StopsAccounted, BackoffTracked;
    SameLifecycleKeepsInv(w, w.(env := w.env.(clock := now)));
  }

  lemma RespawnKeepsInv(w: World, id: nat, spawns: bool)
    requires Inv(w) && id in w.env.armed && w.env.armed[id].due <= w.env.clock
    ensures Inv(RespawnFires(w, id, spawns))
  {
  }

  predicate ChangesLifecycle(e: Event) {
    e.StartCall? || e.StopCall? || e.ProcessExit? || e.RespawnTimer? || e.ForceKillTimer?
  }

  lemma OtherStepKeepsInv(w: World, e: Timed)
    requires Inv(w) && Enabled(w, e) && !ChangesLifecycle(e.event)
    ensures Inv(Step(w, e))
  {
    hide OnlyChildLives, StopsAccounted, BackoffTracked;
    SameLifecycleKeepsInv(w, Step(w, e));
  }

  lemma StepKeepsInv(w: World, e: Timed)
    requires Inv(w) && Enabled(w, e)
    ensures Inv(Step(w, e))
  {
    var v := w.(env := w.env.(clock := e.now));
    if !ChangesLifecycle(e.event) {
      OtherStepKeepsInv(w, e);
      return;
    }
    TimePassesKeepsInv(w, e.now);
    match e.event
    case StartCall(spawns) => StartKeepsInv(v, spawns);
    case StopCall => StopKeepsInv(v);
    case ProcessExit(p) => ExitKeepsInv(v, p);
    case RespawnTimer(id, spawns) => RespawnKeepsInv(v, id, spawns);
    case ForceKillTimer(p) => ForceKillKeepsInv(v, p);
  }

  lemma {:induction false} RunKeepsInv(w: World, run: seq<Timed>)
    requires Inv(w) && Feasible(w, run)
    ensures Inv(Exec(w, run))
    decreases |run|
  {
    if run == [] {
    } else {
      StepKeepsInv(w, run[0]);
      RunKeepsInv(Step(w, run[0]), run[1..]);
    }
  }
}
