/**
 The update lock when installs overlap: an install split at its awaits.

 An install looks for the lock file, reads it if it is there, opens the file for writing, which
 empties it, and writes its stamp. Then it is inside, until it fails and deletes the lock file, or
 hands over to the applier, which deletes it too. Neither looks at whose lock it deletes.
 */
module UpdaterInterleaving {
  import opened Prelude
  import opened Updater

  type JobId = nat

  /** `stamp` is the time at which the check was passed; `file` tells re-created lock files apart. */
  datatype Job =
    | Arrived // there was a lock file, still to be read
    | Passed(stamp: nat)
    | Opened(stamp: nat, file: nat)
    | Inside(stamp: nat)
    | Releasing(stamp: nat) // failed, about to delete the lock
    | Handed(stamp: nat) // the applier runs

  datatype World = World(clock: nat, lock: LockFile, file: nat, jobs: map<JobId, Job>, next: JobId)

  const START: World := World(0, Absent, 0, map[], 0)

  datatype Event =
    | Arrive
    | Read(j: JobId)
    | Open(j: JobId)
    | Write(j: JobId)
    | Dispatch(j: JobId)
    | Fail(j: JobId)
    | Release(j: JobId, deletes: bool)
    | Finish(j: JobId) // the applier deletes the lock
    | Drop(j: JobId) // an exception outside the try block, or a restart

  datatype Timed = At(now: nat, event: Event)

  predicate Enabled(w: World, e: Timed) {
    && w.clock <= e.now
    && match e.event
       case Arrive => true
       case Read(j) => j in w.jobs && w.jobs[j].Arrived?
       case Open(j) => j in w.jobs && w.jobs[j].Passed?
       case Write(j) => j in w.jobs && w.jobs[j].Opened?
       case Dispatch(j) => j in w.jobs && w.jobs[j].Inside?
       case Fail(j) => j in w.jobs && w.jobs[j].Inside?
       case Release(j, _) => j in w.jobs && w.jobs[j].Releasing?
       case Finish(j) => j in w.jobs && w.jobs[j].Handed?
       case Drop(j) => j in w.jobs
  }

  function Put(w: World, j: JobId, job: Job): World {
    w.(jobs := w.jobs[j := job])
  }

  function End(w: World, j: JobId): World {
    w.(jobs := w.jobs - {j})
  }

  function Delete(w: World): World {
    w.(lock := Absent, file := w.file + 1)
  }

  function Step(w0: World, e: Timed): World
    requires Enabled(w0, e)
  {
    var w := w0.(clock := e.now);
    match e.event
    case Arrive =>
      Put(w, w.next, if w.lock.Absent? then Passed(w.clock) else Arrived).(next := w.next + 1)
    case Read(j) => if Held(w.lock, w.clock) then End(w, j) else Put(w, j, Passed(w.clock))
    case Open(j) => Put(w.(lock := Present(None)), j, Opened(w.jobs[j].stamp, w.file))
    case Write(j) =>
      var stamp := w.jobs[j].stamp;
      Put(if w.jobs[j].file == w.file then w.(lock := Present(Some(stamp))) else w, j, Inside(stamp))
    case Dispatch(j) => Put(w, j, Handed(w.jobs[j].stamp))
    case Fail(j) => Put(w, j, Releasing(w.jobs[j].stamp))
    case Release(j, deletes) => End(if deletes then Delete(w) else w, j)
    case Finish(j) => End(Delete(w), j)
    case Drop(j) => End(w, j)
  }

  // ------------------------------------------------------------------------
  // What the lock protects
  // ------------------------------------------------------------------------

  /** The install acquired the lock and is not over: it is inside, failing, or being applied. */
  predicate Claims(job: Job) {
    job.Inside? || job.Releasing? || job.Handed?
  }

  predicate Acquires(job: Job) {
    job.Passed? || job.Opened?
  }

  predicate HalfAnHour(first: nat, second: nat) {
    first + STALE_LOCK_MS <= second
  }

  predicate Fresh(w: World, stamp: nat) {
    !HalfAnHour(stamp, w.clock)
  }

  /** The lock turns newcomers away for as long as an install with this stamp is fresh. */
  predicate Covers(w: World, stamp: nat) {
    w.lock.Present? && w.lock.stamp.Some? && stamp <= w.lock.stamp.value
  }

  ghost predicate Sound(w: World) {
    forall j <- w.jobs ::
      && j < w.next
      && (!w.jobs[j].Arrived? ==> w.jobs[j].stamp <= w.clock)
      && (w.jobs[j].Opened? ==> w.jobs[j].file <= w.file && (w.jobs[j].file == w.file ==> w.lock.Present?))
  }

  /** Any two installs that hold a claim started half an hour apart. */
  ghost predicate Spaced(w: World) {
    forall i, j :: i in w.jobs && j in w.jobs && i != j && Claims(w.jobs[i]) && Claims(w.jobs[j]) ==>
                     HalfAnHour(w.jobs[i].stamp, w.jobs[j].stamp) || HalfAnHour(w.jobs[j].stamp, w.jobs[i].stamp)
  }

  ghost predicate Covered(w: World) {
    forall j <- w.jobs :: Claims(w.jobs[j]) && Fresh(w, w.jobs[j].stamp) ==> Covers(w, w.jobs[j].stamp)
  }

  ghost predicate NewcomersClear(w: World) {
    forall i, j :: i in w.jobs && j in w.jobs && Claims(w.jobs[i]) && Acquires(w.jobs[j]) ==>
                     HalfAnHour(w.jobs[i].stamp, w.jobs[j].stamp)
  }

  /** The lock does its work: claims are spaced, fresh ones covered, and nobody is about to spoil that. */
  ghost predicate Guarded(w: World) {
    Spaced(w) && Covered(w) && NewcomersClear(w)
  }

  predicate AnotherAcquires(w: World, own: JobId, stamp: nat) {
    exists k <- w.jobs :: k != own && Acquires(w.jobs[k]) && !HalfAnHour(stamp, w.jobs[k].stamp)
  }

  predicate AnotherIsFresh(w: World, own: JobId) {
    exists k <- w.jobs :: k != own && Claims(w.jobs[k]) && Fresh(w, w.jobs[k].stamp)
  }

  /**
   The steps after which the lock no longer does its work: a stamp is written while another install
   has passed the check less than half an hour later, or into a file that was deleted meanwhile;
   or the lock of another fresh install is deleted.
   */
  predicate Breaks(w0: World, e: Timed)
    requires Enabled(w0, e)
  {
    var w := w0.(clock := e.now);
    match e.event
    case Write(j) =>
      var stamp := w.jobs[j].stamp;
      || AnotherAcquires(w, j, stamp)
      || (w.jobs[j].file != w.file && Fresh(w, stamp) && !Covers(w, stamp))
    case Release(j, deletes) => deletes && AnotherIsFresh(w, j)
    case Finish(j) => AnotherIsFresh(w, j)
    case _ => false
  }

  lemma StepKeepsSound(w: World, e: Timed)
    requires Sound(w) && Enabled(w, e)
    ensures Sound(Step(w, e))
  {
  }

  lemma TimePasses(w: World, now: nat)
    requires Sound(w) && w.clock <= now
    ensures Sound(w.(clock := now))
    ensures Guarded(w) ==> Guarded(w.(clock := now))
  {
  }

  /** Whoever passes the check finds no fresh claim. */
  lemma PassersAreClear(w: World, j: JobId)
    requires Guarded(w) && !Held(w.lock, w.clock)
    requires j !in w.jobs || w.jobs[j].Arrived?
    ensures Guarded(Put(w, j, Passed(w.clock)))
  {
    var v := Put(w, j, Passed(w.clock));
    forall i | i in w.jobs && Claims(w.jobs[i]) ensures HalfAnHour(w.jobs[i].stamp, w.clock) {
      assert Fresh(w, w.jobs[i].stamp) ==> Covers(w, w.jobs[i].stamp);
    }
  }

  /** No claim is fresh when a stamp is written: the writer was clear of all of them. */
  lemma WriterIsClear(w: World, j: JobId)
    requires Sound(w) && Guarded(w) && j in w.jobs && w.jobs[j].Opened?
    ensures forall i <- w.jobs :: Claims(w.jobs[i]) ==>
                                    HalfAnHour(w.jobs[i].stamp, w.jobs[j].stamp) && !Fresh(w, w.jobs[i].stamp)
  {
    assert Acquires(w.jobs[j]);
  }

  lemma WriteNewcomersExactly(w: World, j: JobId, lock: LockFile)
    requires NewcomersClear(w) && j in w.jobs && w.jobs[j].Opened?
    ensures var stamp := w.jobs[j].stamp;
            NewcomersClear(Put(w.(lock := lock), j, Inside(stamp))) <==> !AnotherAcquires(w, j, stamp)
  {
    var stamp := w.jobs[j].stamp;
    var v := Put(w.(lock := lock), j, Inside(stamp));
    if AnotherAcquires(w, j, stamp) {
      var k :| k in w.jobs && k != j && Acquires(w.jobs[k]) && !HalfAnHour(stamp, w.jobs[k].stamp);
      assert Claims(v.jobs[j]) && Acquires(v.jobs[k]) && v.jobs[k] == w.jobs[k];
    }
  }

  lemma WriteCoveredExactly(w: World, j: JobId, lock: LockFile)
    requires Sound(w) && Guarded(w) && j in w.jobs && w.jobs[j].Opened?
    ensures var v := Put(w.(lock := lock), j, Inside(w.jobs[j].stamp));
            Spaced(v) && (Covered(v) <==> (Fresh(w, w.jobs[j].stamp) ==> Covers(v, w.jobs[j].stamp)))
  {
    WriterIsClear(w, j);
    var v := Put(w.(lock := lock), j, Inside(w.jobs[j].stamp));
    assert Claims(v.jobs[j]);
    hide NewcomersClear, Sound;
  }

  lemma WriteGuardedExactly(w: World, j: JobId)
    requires Sound(w) && Guarded(w) && j in w.jobs && w.jobs[j].Opened?
    ensures Guarded(Step(w, At(w.clock, Write(j)))) <==> !Breaks(w, At(w.clock, Write(j)))
  {
    var lock := if w.jobs[j].file == w.file then Present(Some(w.jobs[j].stamp)) else w.lock;
    assert Step(w, At(w.clock, Write(j))) == Put(w.(lock := lock), j, Inside(w.jobs[j].stamp));
    WriteNewcomersExactly(w, j, lock);
    WriteCoveredExactly(w, j, lock);
    hide Spaced, Covered, NewcomersClear, AnotherAcquires, Sound, Put;
  }

  /** Removing a job, and perhaps the lock. */
  lemma EndGuardedExactly(w: World, j: JobId, deletes: bool)
    requires Sound(w) && Guarded(w) && j in w.jobs
    ensures Guarded(End(if deletes then Delete(w) else w, j)) <==> !(deletes && AnotherIsFresh(w, j))
  {
    var v := End(if deletes then Delete(w) else w, j);
    if deletes && AnotherIsFresh(w, j) {
      var k :| k in w.jobs && k != j && Claims(w.jobs[k]) && Fresh(w, w.jobs[k].stamp);
      assert k in v.jobs && v.jobs[k] == w.jobs[k];
    }
  }

  /** Opening finds no fresh claim that the emptied file could fail to cover. */
  lemma OpenKeepsGuarded(w: World, j: JobId)
    requires Sound(w) && Guarded(w) && j in w.jobs && w.jobs[j].Passed?
    ensures Guarded(Put(w.(lock := Present(None)), j, Opened(w.jobs[j].stamp, w.file)))
  {
    assert Acquires(w.jobs[j]);
  }

  /** An install that is inside hands over, or starts to fail. */
  lemma ClaimGoesOn(w: World, j: JobId, job: Job)
    requires Guarded(w) && j in w.jobs && w.jobs[j].Inside? && Claims(job) && job.stamp == w.jobs[j].stamp
    ensures Guarded(Put(w, j, job))
  {
  }

  /** A newcomer that finds the lock file and has yet to read it. */
  lemma ArrivalKeepsGuarded(w: World)
    requires Sound(w) && Guarded(w)
    ensures Guarded(Put(w, w.next, Arrived))
  {
  }

  /** Only time, the lock and the jobs matter. */
  lemma NextDoesNotMatter(w: World, next: JobId)
    ensures Guarded(w.(next := next)) <==> Guarded(w)
  {
  }

  /** One step keeps the lock at its work exactly unless it breaks it. */
  lemma StepGuardedExactly(w0: World, e: Timed)
    requires Sound(w0) && Guarded(w0) && Enabled(w0, e)
    ensures Guarded(Step(w0, e)) <==> !Breaks(w0, e)
  {
    TimePasses(w0, e.now);
    var w := w0.(clock := e.now);
    assert w.next !in w.jobs;
    hide Guarded, Sound;
    match e.event
    case Arrive =>
      if w.lock.Absent? {
        PassersAreClear(w, w.next);
        NextDoesNotMatter(Put(w, w.next, Passed(w.clock)), w.next + 1);
      } else {
        ArrivalKeepsGuarded(w);
        NextDoesNotMatter(Put(w, w.next, Arrived), w.next + 1);
      }
    case Read(j) =>
      if Held(w.lock, w.clock) {
        EndGuardedExactly(w, j, false);
      } else {
        PassersAreClear(w, j);
      }
    case Open(j) => OpenKeepsGuarded(w, j);
    case Write(j) => WriteGuardedExactly(w, j);
    case Dispatch(j) => ClaimGoesOn(w, j, Handed(w.jobs[j].stamp));
    case Fail(j) => ClaimGoesOn(w, j, Releasing(w.jobs[j].stamp));
    case Release(j, deletes) => EndGuardedExactly(w, j, deletes);
    case Finish(j) => EndGuardedExactly(w, j, true);
    case Drop(j) => EndGuardedExactly(w, j, false);
  }

  // ------------------------------------------------------------------------
  // Whole runs
  // ------------------------------------------------------------------------

  predicate Feasible(w: World, run: seq<Timed>)
    decreases |run|
  {
    run == [] || (Enabled(w, run[0]) && Feasible(Step(w, run[0]), run[1..]))
  }

  function Exec(w: World, run: seq<Timed>): World
    requires Feasible(w, run)
    decreases |run|
  {
    if run == [] then w else Exec(Step(w, run[0]), run[1..])
  }

  ghost predicate AlwaysGuarded(w: World, run: seq<Timed>)
    requires Feasible(w, run)
    decreases |run|
  {
    Guarded(w) && (run != [] ==> AlwaysGuarded(Step(w, run[0]), run[1..]))
  }

  predicate NeverBreaks(w: World, run: seq<Timed>)
    requires Feasible(w, run)
    decreases |run|
  {
    run != [] ==> !Breaks(w, run[0]) && NeverBreaks(Step(w, run[0]), run[1..])
  }

  lemma {:induction false} AlwaysGuardedExactly(w: World, run: seq<Timed>)
    requires Sound(w) && Guarded(w) && Feasible(w, run)
    ensures AlwaysGuarded(w, run) <==> NeverBreaks(w, run)
    decreases |run|
  {
    hide Sound, Guarded, Breaks, Step, Enabled;
    if run == [] {
    } else {
      StepKeepsSound(w, run[0]);
      StepGuardedExactly(w, run[0]);
      if Guarded(Step(w, run[0])) {
        AlwaysGuardedExactly(Step(w, run[0]), run[1..]);
      }
    }
  }

  /**
   For any number of installs and any interleaving, installs that acquired the lock and have not
   failed are half an hour apart and protected by it at every moment, exactly if no step breaks it.
   */
  lemma LockWorksExactly(run: seq<Timed>)
    requires Feasible(START, run)
    ensures AlwaysGuarded(START, run) <==> NeverBreaks(START, run)
  {
    AlwaysGuardedExactly(START, run);
  }

  // ------------------------------------------------------------------------
  // At most one inside
  // ------------------------------------------------------------------------

  ghost predicate OneInside(w: World) {
    forall i, j :: i in w.jobs && j in w.jobs && w.jobs[i].Inside? && w.jobs[j].Inside? ==> i == j
  }

  /** The stamp is written while another install is inside. */
  predicate Joins(w: World, e: Timed) {
    e.event.Write? && exists k <- w.jobs :: w.jobs[k].Inside?
  }

  lemma StepOneInsideExactly(w: World, e: Timed)
    requires OneInside(w) && Enabled(w, e)
    ensures OneInside(Step(w, e)) <==> !(Joins(w, e))
  {
    var v := Step(w, e);
    if Joins(w, e) {
      var k :| k in w.jobs && w.jobs[k].Inside?;
      assert k != e.event.j && v.jobs[k].Inside? && v.jobs[e.event.j].Inside?;
    }
  }

  ghost predicate AlwaysOneInside(w: World, run: seq<Timed>)
    requires Feasible(w, run)
    decreases |run|
  {
    OneInside(w) && (run != [] ==> AlwaysOneInside(Step(w, run[0]), run[1..]))
  }

  predicate NobodyJoins(w: World, run: seq<Timed>)
    requires Feasible(w, run)
    decreases |run|
  {
    run != [] ==> !Joins(w, run[0]) && NobodyJoins(Step(w, run[0]), run[1..])
  }

  lemma {:induction false} OneInsideExactly(w: World, run: seq<Timed>)
    requires OneInside(w) && Feasible(w, run)
    ensures AlwaysOneInside(w, run) <==> NobodyJoins(w, run)
    decreases |run|
  {
    hide OneInside, Joins, Step, Enabled;
    if run == [] {
    } else {
      StepOneInsideExactly(w, run[0]);
      if OneInside(Step(w, run[0])) {
        OneInsideExactly(Step(w, run[0]), run[1..]);
      }
    }
  }

  // ------------------------------------------------------------------------
  // What callers can do
  // ------------------------------------------------------------------------

  predicate Acquiring(job: Job) {
    job.Arrived? || Acquires(job)
  }

  predicate NobodyAcquires(w: World) {
    forall j <- w.jobs :: !Acquiring(w.jobs[j])
  }

  /** No install is past its half hour. */
  predicate AllFresh(w: World, now: nat) {
    forall j <- w.jobs :: Claims(w.jobs[j]) ==> !HalfAnHour(w.jobs[j].stamp, now)
  }

  /** Acquires do not overlap, and none goes on while an install is past its half hour. */
  predicate Disciplined(w: World, e: Timed) {
    match e.event
    case Arrive => NobodyAcquires(w) && AllFresh(w, e.now)
    case Read(_) => AllFresh(w, e.now)
    case _ => true
  }

  ghost predicate OneClaim(w: World) {
    forall i, j :: i in w.jobs && j in w.jobs && Claims(w.jobs[i]) && Claims(w.jobs[j]) ==> i == j
  }

  ghost predicate OneAcquirer(w: World) {
    forall i, j :: i in w.jobs && j in w.jobs && Acquiring(w.jobs[i]) && Acquiring(w.jobs[j]) ==> i == j
  }

  ghost predicate Tidy(w: World) {
    && OneClaim(w)
    && OneAcquirer(w)
    && (forall j <- w.jobs :: Claims(w.jobs[j]) ==> w.lock == Present(Some(w.jobs[j].stamp)))
    && (forall i, j :: i in w.jobs && j in w.jobs && Acquires(w.jobs[i]) ==> !Claims(w.jobs[j]))
    && (forall j <- w.jobs :: w.jobs[j].Opened? ==> w.jobs[j].file == w.file)
  }

  lemma TidyDoesNotBreak(w: World, e: Timed)
    requires Tidy(w) && Enabled(w, e)
    ensures !Breaks(w, e)
  {
  }

  lemma TidyLater(w: World, now: nat)
    requires Tidy(w)
    ensures Tidy(w.(clock := now))
  {
  }

  lemma TidyEnd(w: World, j: JobId)
    requires Tidy(w)
    ensures Tidy(End(w, j))
  {
  }

  /** An install that deletes the lock is the only one there but for a newcomer that has yet to read it. */
  lemma TidyDelete(w: World, j: JobId)
    requires Tidy(w) && j in w.jobs && Claims(w.jobs[j])
    ensures Tidy(End(Delete(w), j))
  {
    var v := End(Delete(w), j);
    assert forall i <- v.jobs :: !Claims(v.jobs[i]) && !Acquires(v.jobs[i]);
    assert OneClaim(v) && OneAcquirer(v);
  }

  lemma TidyGoesOn(w: World, j: JobId, job: Job)
    requires Tidy(w) && j in w.jobs && w.jobs[j].Inside? && Claims(job) && job.stamp == w.jobs[j].stamp
    ensures Tidy(Put(w, j, job))
  {
    assert Claims(w.jobs[j]);
  }

  /** One newcomer, passed or not, where nobody else acquires; passed only where nobody claims. */
  lemma TidyNewcomer(w: World, j: JobId, job: Job)
    requires Tidy(w) && (job.Arrived? || job.Passed?)
    requires forall i <- w.jobs :: i != j ==> !Acquiring(w.jobs[i])
    requires j in w.jobs ==> w.jobs[j].Arrived?
    requires job.Passed? ==> forall i <- w.jobs :: !Claims(w.jobs[i])
    ensures Tidy(Put(w, j, job))
  {
    var v := Put(w, j, job);
    assert OneClaim(v) && OneAcquirer(v);
  }

  lemma TidyNext(w: World, next: JobId)
    requires Tidy(w)
    ensures Tidy(w.(next := next))
  {
  }

  /** With discipline nobody passes the check beside a claim. */
  lemma DisciplinedNewcomers(w0: World, e: Timed)
    requires Sound(w0) && Tidy(w0) && Enabled(w0, e) && Disciplined(w0, e) && (e.event.Arrive? || e.event.Read?)
    ensures Tidy(Step(w0, e))
  {
    var w := w0.(clock := e.now);
    TidyLater(w0, e.now);
    forall i | i in w.jobs && Claims(w.jobs[i]) ensures Held(w.lock, e.now) {
    }
    match e.event
    case Arrive =>
      var job := if w.lock.Absent? then Passed(w.clock) else Arrived;
      TidyNewcomer(w, w.next, job);
      TidyNext(Put(w, w.next, job), w.next + 1);
    case Read(j) =>
      assert Acquiring(w.jobs[j]);
      if Held(w.lock, e.now) {
        TidyEnd(w, j);
      } else {
        TidyNewcomer(w, j, Passed(w.clock));
      }
  }

  lemma DisciplinedAcquirers(w: World, e: Timed)
    requires Tidy(w) && Enabled(w, e) && (e.event.Open? || e.event.Write?)
    ensures Tidy(Step(w, e))
  {
    var v, j := Step(w, e), e.event.j;
    assert Acquires(w.jobs[j]) && Acquiring(w.jobs[j]);
    forall i | i in w.jobs ensures i == j {
      assert Claims(w.jobs[i]) || Acquiring(w.jobs[i]);
    }
    assert forall i <- v.jobs :: i == j;
  }

  lemma DisciplinedClaims(w0: World, e: Timed)
    requires Tidy(w0) && Enabled(w0, e)
    requires !e.event.Arrive? && !e.event.Read? && !e.event.Open? && !e.event.Write?
    ensures Tidy(Step(w0, e))
  {
    var w := w0.(clock := e.now);
    TidyLater(w0, e.now);
    hide Tidy;
    match e.event
    case Dispatch(j) => TidyGoesOn(w, j, Handed(w.jobs[j].stamp));
    case Fail(j) => TidyGoesOn(w, j, Releasing(w.jobs[j].stamp));
    case Release(j, deletes) =>
      if deletes {
        TidyDelete(w, j);
      } else {
        TidyEnd(w, j);
      }
    case Finish(j) => TidyDelete(w, j);
    case Drop(j) => TidyEnd(w, j);
  }

  lemma DisciplinedStep(w: World, e: Timed)
    requires Sound(w) && Tidy(w) && Enabled(w, e) && Disciplined(w, e)
    ensures Tidy(Step(w, e)) && !Breaks(w, e)
  {
    hide Sound, Tidy, Breaks, Step, Disciplined;
    TidyDoesNotBreak(w, e);
    match e.event
    case Arrive => DisciplinedNewcomers(w, e);
    case Read(_) => DisciplinedNewcomers(w, e);
    case Open(_) => DisciplinedAcquirers(w, e);
    case Write(_) => DisciplinedAcquirers(w, e);
    case _ => DisciplinedClaims(w, e);
  }

  predicate DisciplinedRun(w: World, run: seq<Timed>)
    requires Feasible(w, run)
    decreases |run|
  {
    run != [] ==> Disciplined(w, run[0]) && DisciplinedRun(Step(w, run[0]), run[1..])
  }

  lemma {:induction false} DisciplineKeepsTidy(w: World, run: seq<Timed>)
    requires Sound(w) && Tidy(w) && Feasible(w, run) && DisciplinedRun(w, run)
    ensures Tidy(Exec(w, run)) && NeverBreaks(w, run)
    decreases |run|
  {
    hide Sound, Tidy, Breaks, Step, Enabled, Disciplined;
    if run == [] {
    } else {
      StepKeepsSound(w, run[0]);
      DisciplinedStep(w, run[0]);
      DisciplineKeepsTidy(Step(w, run[0]), run[1..]);
    }
  }

  /**
   If acquires do not overlap and none goes on while an install is past its half hour, there is at
   every moment at most one install that is inside, failing or being applied, and the lock is its own.
   */
  lemma DisciplinedRunsExclude(run: seq<Timed>)
    requires Feasible(START, run) && DisciplinedRun(START, run)
    ensures var w := Exec(START, run);
            && (forall i, j :: i in w.jobs && j in w.jobs && Claims(w.jobs[i]) && Claims(w.jobs[j]) ==> i == j)
            && (forall j <- w.jobs :: Claims(w.jobs[j]) ==> w.lock == Present(Some(w.jobs[j].stamp)))
    ensures AlwaysGuarded(START, run)
  {
    DisciplineKeepsTidy(START, run);
    LockWorksExactly(run);
  }

  // ------------------------------------------------------------------------
  // When every install deletes its own lock
  // ------------------------------------------------------------------------

  predicate Deletes(e: Event) {
    (e.Release? && e.deletes) || e.Finish?
  }

  /** Deleting the lock that holds one's own stamp takes it from no other fresh install. */
  lemma OwnDeletionDoesNotBreak(w0: World, e: Timed)
    requires Sound(w0) && Guarded(w0) && Enabled(w0, e) && Deletes(e.event)
    requires w0.lock == Present(Some(w0.jobs[e.event.j].stamp))
    ensures !Breaks(w0, e)
  {
    TimePasses(w0, e.now);
    var w, j := w0.(clock := e.now), e.event.j;
    forall k | k in w.jobs && k != j && Claims(w.jobs[k]) ensures !Fresh(w, w.jobs[k].stamp) {
      assert Claims(w.jobs[j]);
      assert Fresh(w, w.jobs[k].stamp) ==> Covers(w, w.jobs[k].stamp);
    }
  }

  /** Acquires do not overlap, and a lock is deleted only by the install whose stamp it holds. */
  predicate Careful(w: World, e: Timed)
    requires Enabled(w, e)
  {
    && (e.event.Arrive? ==> NobodyAcquires(w))
    && (Deletes(e.event) ==> w.lock == Present(Some(w.jobs[e.event.j].stamp)))
  }

  ghost predicate OneAtTheFile(w: World) {
    && OneAcquirer(w)
    && (forall j <- w.jobs :: w.jobs[j].Opened? ==> w.jobs[j].file == w.file && w.lock == Present(None))
  }

  lemma CarefulStep(w: World, e: Timed)
    requires Sound(w) && OneAtTheFile(w) && Enabled(w, e) && Careful(w, e)
    ensures OneAtTheFile(Step(w, e))
  {
    var v := Step(w, e);
    if e.event.Open? || e.event.Write? || e.event.Read? {
      assert Acquiring(w.jobs[e.event.j]);
    }
  }

  lemma CarefulDoesNotBreak(w: World, e: Timed)
    requires Sound(w) && Guarded(w) && OneAtTheFile(w) && Enabled(w, e) && Careful(w, e)
    ensures !Breaks(w, e)
  {
    if Deletes(e.event) {
      OwnDeletionDoesNotBreak(w, e);
    }
    hide Guarded, Sound;
  }

  predicate CarefulRun(w: World, run: seq<Timed>)
    requires Feasible(w, run)
    decreases |run|
  {
    run != [] ==> Careful(w, run[0]) && CarefulRun(Step(w, run[0]), run[1..])
  }

  /**
   If acquires do not overlap and locks are deleted only by the installs they belong to, installs
   that are not over are half an hour apart, however long they take.
   */
  lemma {:induction false} CarefulRunsAreSpaced(w: World, run: seq<Timed>)
    requires Sound(w) && Guarded(w) && OneAtTheFile(w) && Feasible(w, run) && CarefulRun(w, run)
    ensures AlwaysGuarded(w, run) && Spaced(Exec(w, run))
    decreases |run|
  {
    if run == [] {
    } else {
      assert Careful(w, run[0]);
      hide Sound, OneAtTheFile, Breaks, Step, Enabled, Careful;
      CarefulDoesNotBreak(w, run[0]);
      StepGuardedExactly(w, run[0]);
      StepKeepsSound(w, run[0]);
      CarefulStep(w, run[0]);
      CarefulRunsAreSpaced(Step(w, run[0]), run[1..]);
    }
  }

  // ------------------------------------------------------------------------
  // Reaching a state
  // ------------------------------------------------------------------------

  ghost predicate Reaches(w: World, v: World) {
    exists run :: Feasible(w, run) && Exec(w, run) == v
  }

  /** Unfolds a run by one event. */
  lemma Peel(w: World, run: seq<Timed>)
    ensures run == [] ==> Feasible(w, run) && Exec(w, run) == w
    ensures run != [] && Enabled(w, run[0]) && Feasible(Step(w, run[0]), run[1..]) ==>
              Feasible(w, run) && Exec(w, run) == Exec(Step(w, run[0]), run[1..])
  {
  }

  lemma ReachesSelf(w: World)
    ensures Reaches(w, w)
  {
    Peel(w, []);
  }

  lemma ReachesStep(w: World, e: Timed, v: World)
    requires Enabled(w, e) && Reaches(Step(w, e), v)
    ensures Reaches(w, v)
  {
    var run :| Feasible(Step(w, e), run) && Exec(Step(w, e), run) == v;
    assert ([e] + run)[1..] == run;
    Peel(w, [e] + run);
  }

  lemma {:induction false} ReachesAlong(w: World, run: seq<Timed>, v: World)
    requires Feasible(w, run) && Reaches(Exec(w, run), v)
    ensures Reaches(w, v)
    decreases |run|
  {
    hide Reaches, Step, Enabled;
    if run == [] {
    } else {
      ReachesAlong(Step(w, run[0]), run[1..], v);
      ReachesStep(w, run[0], v);
    }
  }

  lemma ReachesJoin(w: World, u: World, v: World)
    requires Reaches(w, u) && Reaches(u, v)
    ensures Reaches(w, v)
  {
    var run :| Feasible(w, run) && Exec(w, run) == u;
    ReachesAlong(w, run, v);
  }

  lemma EventIsARun(w: World, e: Timed) returns (v: World)
    requires Enabled(w, e)
    ensures Reaches(w, v) && v == Step(w, e)
  {
    v := Step(w, e);
    ReachesSelf(v);
    ReachesStep(w, e, v);
  }

  /** An install that has passed the check goes in, if nobody interrupts it. */
  lemma PasserGoesIn(w: World, j: JobId, now: nat) returns (v: World)
    requires j in w.jobs && w.jobs[j].Passed? && w.clock <= now
    ensures Reaches(w, v)
    ensures var stamp := w.jobs[j].stamp;
            v == World(now, Present(Some(stamp)), w.file, w.jobs[j := Inside(stamp)], w.next)
  {
    hide Reaches;
    var u := EventIsARun(w, At(now, Open(j)));
    v := EventIsARun(u, At(now, Write(j)));
    assert v.jobs == w.jobs[j := Inside(w.jobs[j].stamp)];
    ReachesJoin(w, u, v);
  }

  /** A newcomer that finds no lock, or none that holds, passes the check. */
  lemma NewcomerPasses(w: World, now: nat) returns (v: World)
    requires w.clock <= now && !Held(w.lock, now)
    ensures Reaches(w, v)
    ensures v == World(now, w.lock, w.file, w.jobs[w.next := Passed(now)], w.next + 1)
  {
    hide Reaches;
    v := EventIsARun(w, At(now, Arrive));
    if !w.lock.Absent? {
      var u := v;
      v := EventIsARun(u, At(now, Read(w.next)));
      assert v.jobs == w.jobs[w.next := Passed(now)];
      ReachesJoin(w, u, v);
    }
  }

  lemma NewcomerGoesIn(w: World, now: nat) returns (v: World)
    requires w.clock <= now && !Held(w.lock, now)
    ensures Reaches(w, v)
    ensures v == World(now, Present(Some(now)), w.file, w.jobs[w.next := Inside(now)], w.next + 1)
  {
    hide Reaches;
    var u := NewcomerPasses(w, now);
    v := PasserGoesIn(u, w.next, now);
    assert v.jobs == w.jobs[w.next := Inside(now)];
    ReachesJoin(w, u, v);
  }

  // ------------------------------------------------------------------------
  // Two ways to dispatch twice
  // ------------------------------------------------------------------------

  /** Whenever the lock does not hold, two requests at the same moment can both dispatch. */
  lemma OverlappingAcquiresBothDispatch(w: World) returns (v: World)
    requires Sound(w) && !Held(w.lock, w.clock)
    ensures Reaches(w, v)
    ensures v.jobs == w.jobs[w.next := Handed(w.clock)][w.next + 1 := Handed(w.clock)] && v.clock == w.clock
  {
    hide Reaches;
    var a, b, now := w.next, w.next + 1, w.clock;
    var w1 := NewcomerPasses(w, now);
    var w2 := NewcomerPasses(w1, now);
    var w3 := PasserGoesIn(w2, a, now);
    var w4 := PasserGoesIn(w3, b, now);
    var w5 := EventIsARun(w4, At(now, Dispatch(a)));
    v := EventIsARun(w5, At(now, Dispatch(b)));
    assert v.jobs == w.jobs[a := Handed(now)][b := Handed(now)];
    ReachesJoin(w4, w5, v);
    ReachesJoin(w3, w4, v);
    ReachesJoin(w2, w3, v);
    ReachesJoin(w1, w2, v);
    ReachesJoin(w, w1, v);
  }

  /** The first install fails after the second has taken its stale lock: the second's lock is gone. */
  lemma LateFailureUnlocks(w: World, a: JobId, now: nat, failed: nat) returns (v: World)
    requires Sound(w) && a in w.jobs && w.jobs[a].Inside?
    requires !Held(w.lock, now) && w.clock <= now <= failed
    ensures Reaches(w, v)
    ensures v == World(failed, Absent, w.file + 1, (w.jobs - {a})[w.next := Inside(now)], w.next + 1)
  {
    hide Reaches;
    var w1 := NewcomerGoesIn(w, now);
    var w2 := EventIsARun(w1, At(failed, Fail(a)));
    v := EventIsARun(w2, At(failed, Release(a, true)));
    assert v.jobs == (w.jobs - {a})[w.next := Inside(now)];
    ReachesJoin(w1, w2, v);
    ReachesJoin(w, w1, v);
  }

  /**
   Even if no two acquires overlap: an install that goes on past its half hour and then fails deletes
   the lock of the one that took over, and a third dispatches beside it, at any distance.
   */
  lemma LateFailureLetsTwoDispatch(w: World, start: nat, second: nat, failed: nat, third: nat)
    returns (v: World)
    requires Sound(w) && w.clock <= start && !Held(w.lock, start)
    requires HalfAnHour(start, second) && second <= failed <= third
    ensures Reaches(w, v)
    ensures v.jobs == w.jobs[w.next + 1 := Handed(second)][w.next + 2 := Handed(third)]
  {
    hide Reaches;
    var w1 := NewcomerGoesIn(w, start);
    var w2 := LateFailureUnlocks(w1, w.next, second, failed);
    var w3 := NewcomerGoesIn(w2, third);
    var w4 := EventIsARun(w3, At(third, Dispatch(w.next + 1)));
    v := EventIsARun(w4, At(third, Dispatch(w.next + 2)));
    assert w.next !in w.jobs;
    assert v.jobs == w.jobs[w.next + 1 := Handed(second)][w.next + 2 := Handed(third)];
    ReachesJoin(w3, w4, v);
    ReachesJoin(w2, w3, v);
    ReachesJoin(w1, w2, v);
    ReachesJoin(w, w1, v);
  }

  // ------------------------------------------------------------------------
  // Installs that nothing interrupts are runs
  // ------------------------------------------------------------------------

  lemma RefusalIsARun(w: World, now: nat) returns (v: World)
    requires Sound(w) && w.clock <= now && Held(w.lock, now)
    ensures Reaches(w, v) && v == w.(clock := now, next := w.next + 1)
  {
    hide Reaches;
    var u := EventIsARun(w, At(now, Arrive));
    v := EventIsARun(u, At(now, Read(w.next)));
    assert v.jobs == w.jobs;
    ReachesJoin(w, u, v);
  }

  /** What follows once an install is inside: staging fails, the try block fails, or it dispatches. */
  lemma InsideIsARun(w: World, j: JobId, env: Env) returns (v: World)
    requires j in w.jobs && w.jobs[j].Inside?
    ensures Reaches(w, v)
    ensures v.lock == if env.stagingOk && !Verified(env) && env.unlinkOk then Absent else w.lock
    ensures v.jobs == if env.stagingOk && Verified(env) then w.jobs[j := Handed(w.jobs[j].stamp)] else w.jobs - {j}
  {
    hide Reaches, Verified;
    if !env.stagingOk {
      v := EventIsARun(w, At(w.clock, Drop(j)));
    } else if Verified(env) {
      v := EventIsARun(w, At(w.clock, Dispatch(j)));
    } else {
      var u := EventIsARun(w, At(w.clock, Fail(j)));
      v := EventIsARun(u, At(w.clock, Release(j, env.unlinkOk)));
      assert v.jobs == w.jobs - {j};
      ReachesJoin(w, u, v);
    }
  }

  /** The lock after an install that nothing interrupts is what one whole install leaves. */
  lemma InstallIsARun(w: World, env: Env) returns (v: World)
    requires Sound(w) && w.clock <= env.now
    ensures Reaches(w, v) && v.lock == LockAfter(w.lock, env)
    ensures v.jobs == if OutcomeOf(w.lock, env) == Dispatched then w.jobs[w.next := Handed(env.now)] else w.jobs
  {
    hide Reaches, Verified;
    assert w.next !in w.jobs;
    if !env.versionOk || env.disabled {
      ReachesSelf(w);
      return w;
    }
    if Held(w.lock, env.now) {
      v := RefusalIsARun(w, env.now);
      return;
    }
    var u := NewcomerGoesIn(w, env.now);
    v := InsideIsARun(u, w.next, env);
    assert u.jobs - {w.next} == w.jobs;
    ReachesJoin(w, u, v);
  }
}
