/**
 The supervisor object itself: one method per call or callback, each with the source's control
 flow, proved to take exactly the matching step of `SupervisorModel`. `Deliver` is the event loop, so
 a valid object is always in a state that the theorems about runs speak of.
 */
module Supervisor {
  import opened Prelude
  import opened SupervisorModel
  import opened SupervisorTheorems
  import opened Text

  const LOG_BUFFER_LINES: nat := 1000

  /** The last `n` elements. */
  function Last<T>(s: seq<T>, n: nat): seq<T> {
    if |s| <= n then s else s[|s| - n..]
  }

  function NonEmpty(lines: seq<string>): seq<string> {
    Filter(lines, (line: string) => line != "")
  }

  class ManagedProcess {
    var child: Option<nat>
    var status: Status
    var intentionallyStopped: bool
    var healthTimer: bool
    var pendingRespawnTimer: Option<nat>
    var backoffMs: nat
    var lastStartMs: nat
    var logBuffer: seq<string>
    var env: Env
    ghost var hist: History
    ghost var run: seq<Timed>
    ghost var logged: seq<string>

    ghost function View(): World
      reads this
    {
      World(Proc(child, status, intentionallyStopped, healthTimer, pendingRespawnTimer, backoffMs, lastStartMs),
            env, hist)
    }

    /** The object is where `run`, the events delivered to it so far, takes a fresh supervisor. */
    ghost predicate Valid()
      reads this
    {
      Reachable(run, View()) && logBuffer == Last(logged, LOG_BUFFER_LINES)
    }

    constructor ()
      ensures Valid() && View() == INITIAL && run == [] && logged == []
    {
      child := None;
      status := Stopped;
      intentionallyStopped := false;
      healthTimer := false;
      pendingRespawnTimer := None;
      backoffMs := BASE_BACKOFF_MS;
      lastStartMs := 0;
      logBuffer, logged := [], [];
      env := INITIAL.env;
      hist := INITIAL.hist;
      run := [];
    }

    method CancelPendingRespawn()
      modifies `pendingRespawnTimer, `env
      ensures View() == CancelRespawn(old(View()))
      ensures pendingRespawnTimer.None? && env == old(env).(armed := env.armed)
    {
      if pendingRespawnTimer.Some? {
        env := env.(armed := env.armed - {pendingRespawnTimer.value});
        pendingRespawnTimer := None;
      }
    }

    /** `spawns`: nothing throws while the arguments are built and the process is created. */
    method Spawn(now: nat, spawns: bool) returns (ok: bool)
      requires env.clock == now
      modifies `child, `status, `lastStartMs, `env, `hist
      ensures View() == SpawnOnce(old(View()), spawns) && ok == spawns
    {
      if child.Some? {
        env := env.(signals := env.signals + [OrphanKill(child.value)]);
        child := None;
      }
      lastStartMs := now;
      status := Starting;
      hist := hist.(threw := !spawns);
      if !spawns {
        return false;
      }
      child := Some(env.spawned);
      env := env.(spawned := env.spawned + 1, graceTimers := env.graceTimers + 1);
      return true;
    }

    /** `false` when the spawn throws. */
    method Start(now: nat, spawns: bool) returns (ok: bool)
      requires env.clock == now
      modifies this
      ensures View() == SupervisorModel.Start(old(View()), spawns)
      ensures ok <==> old(child).Some? || spawns
      ensures unchanged(`run, `logged, `logBuffer)
    {
      if child.Some? {
        return true;
      }
      intentionallyStopped := false;
      hist := hist.(started := true);
      CancelPendingRespawn();
      ok := Spawn(now, spawns);
    }

    /** What `stop` does whether or not there is a child. */
    method EndSupervision()
      modifies `intentionallyStopped, `healthTimer, `pendingRespawnTimer, `env
      ensures View() == Halt(old(View()))
      ensures intentionallyStopped && !healthTimer && pendingRespawnTimer.None?
      ensures env == old(env).(armed := env.armed)
    {
      intentionallyStopped := true;
      healthTimer := false;
      CancelPendingRespawn();
    }

    /** `resolved` says whether the promise settled at once. */
    method Stop() returns (resolved: bool)
      modifies this
      ensures View() == SupervisorModel.Stop(old(View()))
      ensures resolved <==> old(child).None?
      ensures intentionallyStopped && !healthTimer && pendingRespawnTimer.None? && child == old(child)
      ensures resolved ==> status == Stopped && env.signals == old(env.signals)
      ensures !resolved ==>
                && env.signals == old(env.signals) + [Term(child.value)]
                && env.killTimers == old(env.killTimers) + multiset{child.value}
      ensures unchanged(`run, `logged, `logBuffer)
    {
      hide SupervisorModel.Halt, CancelRespawn;
      EndSupervision();
      hist := hist.(stopsCalled := hist.stopsCalled + 1);
      if child.None? {
        status := Stopped;
        hist := hist.(stopsResolved := hist.stopsResolved + 1);
        return true;
      }
      AskToEnd(child.value);
      return false;
    }

    /** SIGTERM now, SIGKILL when the timer fires, and a listener for the exit. */
    method AskToEnd(p: nat)
      modifies `env
      ensures env == old(env).(signals := old(env.signals) + [Term(p)],
                               stopWaiters := old(env.stopWaiters) + multiset{p},
                               killTimers := old(env.killTimers) + multiset{p})
    {
      env := env.(stopWaiters := env.stopWaiters + multiset{p}, signals := env.signals + [Term(p)],
                  killTimers := env.killTimers + multiset{p});
    }

    method Reload()
      modifies `env
      ensures View() == SupervisorModel.Reload(old(View()))
    {
      if child.None? || status != Running {
        return;
      }
      env := env.(signals := env.signals + [Hup(child.value)]);
    }

    /** The supervisor's exit listener. */
    method ProcessExited(now: nat, p: nat)
      requires env.clock == now
      modifies this
      ensures View() == ExitListener(old(View()), p)
      ensures unchanged(`run, `logged, `logBuffer)
    {
      if child == Some(p) {
        child := None;
      }
      healthTimer := false;
      if intentionallyStopped {
        status := Stopped;
        return;
      }
      ScheduleRespawn(now);
    }

    method ScheduleRespawn(now: nat)
      requires env.clock == now
      modifies `status, `backoffMs, `pendingRespawnTimer, `env, `hist
      ensures View() == Crashed(old(View()))
    {
      var uptimeMs := now - lastStartMs;
      hist := hist.(crashes := if uptimeMs > BACKOFF_RESET_AFTER_MS then 1 else hist.crashes + 1);
      if uptimeMs > BACKOFF_RESET_AFTER_MS {
        backoffMs := BASE_BACKOFF_MS;
      }
      status := Error;
      var wait: nat := Min(backoffMs, MAX_BACKOFF_MS);
      backoffMs := Min(backoffMs * 2, MAX_BACKOFF_MS);
      SetRespawnTimer(now, wait);
    }

    method SetRespawnTimer(now: nat, wait: nat)
      requires env.clock == now
      modifies `pendingRespawnTimer, `env
      ensures View() == ArmRespawn(old(View()), wait)
    {
      CancelPendingRespawn();
      var id := env.timersMade;
      env := env.(armed := env.armed[id := Timer(now + wait, wait)], timersMade := id + 1);
      pendingRespawnTimer := Some(id);
    }

    /** Process `p` exits: the supervisor's listener runs first, then those of pending stops. */
    method OnExit(now: nat, p: nat)
      requires env.clock == now
      modifies this
      ensures View() == Exit(old(View()), p)
      ensures unchanged(`run, `logged, `logBuffer)
    {
      env := env.(exited := env.exited + {p});
      ProcessExited(now, p);
      if p in env.stopWaiters {
        status := Stopped;
        hist := hist.(stopsResolved := hist.stopsResolved + env.stopWaiters[p]);
        env := env.(stopWaiters := env.stopWaiters[p := 0]);
      }
    }

    method OnRespawnTimer(now: nat, id: nat, spawns: bool)
      requires env.clock == now && id in env.armed
      modifies this
      ensures View() == RespawnFires(old(View()), id, spawns)
      ensures unchanged(`run, `logged, `logBuffer)
    {
      var timer := env.armed[id];
      env := env.(armed := env.armed - {id});
      pendingRespawnTimer := None;
      if !intentionallyStopped {
        hist := hist.(respawns := hist.respawns + [Respawn(now, timer.wait)]);
        var _ := Spawn(now, spawns);
      }
    }

    method OnForceKillTimer(p: nat)
      modifies `env
      ensures View() == ForceKill(old(View()), p)
    {
      env := env.(killTimers := env.killTimers - multiset{p});
      if child == Some(p) {
        env := env.(signals := env.signals + [Kill(p)]);
      }
    }

    method OnGraceTimer()
      requires env.graceTimers > 0
      modifies `env, `healthTimer
      ensures View() == StartHealthTimer(old(View()))
    {
      env := env.(graceTimers := env.graceTimers - 1);
      if healthTimer {
        return;
      }
      healthTimer := true;
    }

    /** The part of `pollHealth` before its await; `asked` says whether `checkHealth` was called. */
    method Poll() returns (asked: bool)
      modifies `env
      ensures View() == PollHealth(old(View()))
      ensures asked <==> child.Some?
    {
      if child.None? {
        return false;
      }
      env := env.(polls := env.polls + 1);
      return true;
    }

    /** The part of `pollHealth` after its await. */
    method HealthSettled(now: nat, health: Health)
      requires env.clock == now && env.polls > 0
      modifies `env, `status
      ensures View() == HealthSettles(old(View()), health)
    {
      env := env.(polls := env.polls - 1);
      match health
      case Threw =>
        if status == Starting {
          return;
        }
        status := Error;
      case Reported(s) =>
        if s == Running && status != Running {
          status := Running;
          return;
        }
        if s != Running && status == Starting {
          if now - lastStartMs > STARTUP_TIMEOUT_MS {
            status := Error;
          }
          return;
        }
        if s == Error {
          status := Error;
        }
    }

    /** The event loop runs one callback to completion. */
    method Deliver(e: Timed)
      requires Valid() && Enabled(View(), e)
      modifies this
      ensures Valid() && run == old(run) + [e] && logged == old(logged)
      ensures View() == Step(old(View()), e)
    {
      Extend(run, View(), e);
      label before:
      Dispatch(e);
      run := run + [e];
      assert View() == Step(old(View()), e);
    }

    method Dispatch(e: Timed)
      requires Enabled(View(), e)
      modifies this
      ensures View() == Step(old(View()), e)
      ensures unchanged(`run, `logged, `logBuffer)
    {
      env := env.(clock := e.now);
      match e.event
      case StartCall(spawns) => var _ := Start(e.now, spawns);
      case StopCall => var _ := Stop();
      case ReloadCall => Reload();
      case ProcessExit(p) => OnExit(e.now, p);
      case SpawnFailed(p) => status := Error;
      case RespawnTimer(id, spawns) => OnRespawnTimer(e.now, id, spawns);
      case ForceKillTimer(p) => OnForceKillTimer(p);
      case GraceTimer => OnGraceTimer();
      case HealthTick => var _ := Poll();
      case HealthResult(h) => HealthSettled(e.now, h);
    }

    /** The buffer holds exactly the last 1000 non-empty lines ever logged, oldest first. */
    method HandleLog(text: string)
      requires Valid()
      modifies this`logBuffer, this`logged
      ensures Valid() && View() == old(View())
      ensures logged == old(logged) + NonEmpty(Lines(text))
      ensures |logBuffer| <= LOG_BUFFER_LINES
    {
      var lines := NonEmpty(Lines(text));
      assert lines[0..] == lines;
      for i := 0 to |lines|
        invariant logBuffer == Last(logged, LOG_BUFFER_LINES)
        invariant logged == old(logged) + lines[..i]
      {
        logBuffer := logBuffer + [lines[i]];
        logged := logged + [lines[i]];
        if |logBuffer| > LOG_BUFFER_LINES {
          logBuffer := logBuffer[1..];
        }
        assert lines[..i + 1] == lines[..i] + [lines[i]];
      }
      assert lines[..|lines|] == lines;
    }

    /** Asking for zero lines returns them all: JavaScript's `slice(-0)` starts at the front. */
    method GetLogs(maxLines: nat) returns (r: seq<string>)
      requires Valid()
      ensures r == Last(logged, if maxLines == 0 then LOG_BUFFER_LINES else Min(maxLines, LOG_BUFFER_LINES))
    {
      r := if maxLines == 0 || |logBuffer| <= maxLines then logBuffer else logBuffer[|logBuffer| - maxLines..];
    }
  }
}
