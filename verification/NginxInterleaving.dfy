/**
 The nginx writes split at their awaits: several calls may be under way, for one host or several.

 Each host's file is good or bad for itself: the template is self-contained and the names in it carry
 the host's id. `nginx -t` looks at all files that are there when it runs.
 */
module NginxInterleaving {
  import opened Prelude
  import NginxConfig

  type Confs = NginxConfig.Confs
  type JobId = nat

  /** The snapshot is taken; the new file is in place, untested; the test failed. */
  datatype Phase = Snapped | Placed | Rejected

  datatype Job = Job(id: nat, text: string, previous: Option<string>, phase: Phase)

  datatype World = World(confs: Confs, jobs: map<JobId, Job>, next: JobId)

  /** What becomes of the file when the old state is to be restored. */
  datatype Undo = Restored | Untouched | Garbled(text: string)

  datatype Event =
    | Snapshot(id: nat, text: string)
    | Place(j: JobId)
    | Test(j: JobId, runs: bool)
    | Rollback(j: JobId, undo: Undo)
    | Abandon(j: JobId) // an exception, or the process restarts
    | Remove(id: nat)

  type Judge = (nat, string) -> bool

  predicate AllGood(confs: Confs, good: Judge) {
    forall id <- confs :: good(id, confs[id])
  }

  predicate In(w: World, j: JobId, phase: Phase) {
    j in w.jobs && w.jobs[j].phase == phase
  }

  predicate Enabled(w: World, e: Event) {
    match e
    case Snapshot(_, _) => true
    case Place(j) => In(w, j, Snapped)
    case Test(j, _) => In(w, j, Placed)
    case Rollback(j, _) => In(w, j, Rejected)
    case Abandon(j) => j in w.jobs
    case Remove(_) => true
  }

  function Undone(confs: Confs, job: Job, undo: Undo): Confs {
    match undo
    case Restored => NginxConfig.Set(confs, job.id, job.previous)
    case Untouched => confs
    case Garbled(text) => confs[job.id := text]
  }

  function Step(w: World, e: Event, good: Judge): World
    requires Enabled(w, e)
  {
    match e
    case Snapshot(id, text) =>
      w.(jobs := w.jobs[w.next := Job(id, text, NginxConfig.Find(w.confs, id), Snapped)], next := w.next + 1)
    case Place(j) =>
      w.(confs := w.confs[w.jobs[j].id := w.jobs[j].text], jobs := w.jobs[j := w.jobs[j].(phase := Placed)])
    case Test(j, runs) =>
      if runs && AllGood(w.confs, good) then w.(jobs := w.jobs - {j})
      else w.(jobs := w.jobs[j := w.jobs[j].(phase := Rejected)])
    case Rollback(j, undo) => w.(confs := Undone(w.confs, w.jobs[j], undo), jobs := w.jobs - {j})
    case Abandon(j) => w.(jobs := w.jobs - {j})
    case Remove(id) => w.(confs := w.confs - {id})
  }

  // ------------------------------------------------------------------------
  // Bad files only while a write is unsettled
  // ------------------------------------------------------------------------

  predicate Touches(job: Job, id: nat) {
    job.id == id && !job.phase.Snapped?
  }

  /** A write of this host has replaced the file and does not yet know that it may stay. */
  predicate Unsettled(w: World, id: nat) {
    exists j <- w.jobs :: Touches(w.jobs[j], id)
  }

  predicate UnsettledBeside(w: World, id: nat, own: JobId) {
    exists j <- w.jobs :: j != own && Touches(w.jobs[j], id)
  }

  predicate Bad(confs: Confs, id: nat, good: Judge) {
    id in confs && !good(id, confs[id])
  }

  ghost predicate Excused(w: World, good: Judge) {
    forall id :: Bad(w.confs, id, good) ==> Unsettled(w, id)
  }

  /**
   The last unsettled write of a host ends and leaves a bad file: it restores a bad snapshot, fails
   to restore, or is given up.
   */
  predicate Breaks(w: World, e: Event, good: Judge)
    requires Enabled(w, e)
  {
    match e
    case Rollback(j, undo) =>
      var job := w.jobs[j];
      !UnsettledBeside(w, job.id, j) && Bad(Undone(w.confs, job, undo), job.id, good)
    case Abandon(j) =>
      var job := w.jobs[j];
      !UnsettledBeside(w, job.id, j) && Bad(w.confs, job.id, good) && !job.phase.Snapped?
    case _ => false
  }

  lemma UnsettledAfterRemoval(w: World, v: World, j: JobId, id: nat)
    requires j in w.jobs && v.jobs == w.jobs - {j}
    ensures Unsettled(v, id) <==> UnsettledBeside(w, id, j)
    ensures Unsettled(w, id) <==> UnsettledBeside(w, id, j) || Touches(w.jobs[j], id)
  {
    if k :| k in w.jobs && k != j && Touches(w.jobs[k], id) {
      assert k in v.jobs && Touches(v.jobs[k], id);
    }
  }

  lemma UnsettledAfterChange(w: World, v: World, j: JobId, job: Job, id: nat)
    requires v.jobs == w.jobs[j := job]
    requires j in w.jobs && Touches(w.jobs[j], id) ==> Touches(job, id)
    ensures Unsettled(v, id) <==> Unsettled(w, id) || Touches(job, id)
  {
    if k :| k in w.jobs && Touches(w.jobs[k], id) {
      assert k in v.jobs && Touches(v.jobs[k], id);
    }
    assert j in v.jobs;
  }

  predicate Fresh(w: World) {
    forall j <- w.jobs :: j < w.next
  }

  lemma StepUnsettles(w: World, e: Event, good: Judge, id: nat)
    requires Fresh(w) && Enabled(w, e) && !e.Rollback? && !e.Abandon?
    requires Bad(w.confs, id, good) ==> Unsettled(w, id)
    ensures Fresh(Step(w, e, good))
    ensures Bad(Step(w, e, good).confs, id, good) ==> Unsettled(Step(w, e, good), id)
  {
    var v := Step(w, e, good);
    if e.Remove? {
      assert v.jobs == w.jobs && (Unsettled(v, id) <==> Unsettled(w, id));
    } else if e.Test? && e.runs && AllGood(w.confs, good) {
      assert v.confs == w.confs;
    } else {
      var j := if e.Snapshot? then w.next else e.j;
      UnsettledAfterChange(w, v, j, v.jobs[j], id);
    }
  }

  lemma EndingExcusedExactly(w: World, e: Event, good: Judge)
    requires Fresh(w) && Enabled(w, e) && (e.Rollback? || e.Abandon?) && Excused(w, good)
    ensures Fresh(Step(w, e, good))
    ensures Excused(Step(w, e, good), good) <==> !Breaks(w, e, good)
  {
    var v, job := Step(w, e, good), w.jobs[e.j];
    forall id ensures
        && (Unsettled(v, id) <==> UnsettledBeside(w, id, e.j))
        && (Unsettled(w, id) <==> UnsettledBeside(w, id, e.j) || Touches(job, id))
    {
      UnsettledAfterRemoval(w, v, e.j, id);
    }
    hide Unsettled, UnsettledBeside;
    forall id | id != job.id ensures Bad(v.confs, id, good) <==> Bad(w.confs, id, good) {}
    assert Bad(v.confs, job.id, good) || !Bad(v.confs, job.id, good);
  }

  /** Each step keeps bad files excused exactly unless it is the breaking end of a write. */
  lemma StepExcusedExactly(w: World, e: Event, good: Judge)
    requires Fresh(w) && Enabled(w, e) && Excused(w, good)
    ensures Fresh(Step(w, e, good))
    ensures Excused(Step(w, e, good), good) <==> !Breaks(w, e, good)
  {
    if e.Rollback? || e.Abandon? {
      EndingExcusedExactly(w, e, good);
    } else {
      var v := Step(w, e, good);
      forall id ensures Fresh(v) && (Bad(v.confs, id, good) ==> Unsettled(v, id)) {
        StepUnsettles(w, e, good, id);
      }
      hide Bad, Unsettled, Step;
    }
  }

  // ------------------------------------------------------------------------
  // Whole runs
  // ------------------------------------------------------------------------

  predicate Feasible(w: World, run: seq<Event>, good: Judge)
    decreases |run|
  {
    run == [] || (Enabled(w, run[0]) && Feasible(Step(w, run[0], good), run[1..], good))
  }

  function Exec(w: World, run: seq<Event>, good: Judge): World
    requires Feasible(w, run, good)
    decreases |run|
  {
    if run == [] then w else Exec(Step(w, run[0], good), run[1..], good)
  }

  ghost predicate AlwaysExcused(w: World, run: seq<Event>, good: Judge)
    requires Feasible(w, run, good)
    decreases |run|
  {
    Excused(w, good) && (run != [] ==> AlwaysExcused(Step(w, run[0], good), run[1..], good))
  }

  predicate NeverBreaks(w: World, run: seq<Event>, good: Judge)
    requires Feasible(w, run, good)
    decreases |run|
  {
    run != [] ==> !Breaks(w, run[0], good) && NeverBreaks(Step(w, run[0], good), run[1..], good)
  }

  /** However calls overlap, a file is bad only while a write of it is unsettled, exactly unless a step breaks. */
  lemma {:induction false} ExcusedExactly(w: World, run: seq<Event>, good: Judge)
    requires Fresh(w) && Excused(w, good) && Feasible(w, run, good)
    ensures AlwaysExcused(w, run, good) <==> NeverBreaks(w, run, good)
    decreases |run|
  {
    hide Excused, Breaks, Step, Enabled, Fresh;
    if run == [] {
    } else {
      StepExcusedExactly(w, run[0], good);
      if Excused(Step(w, run[0], good), good) {
        ExcusedExactly(Step(w, run[0], good), run[1..], good);
      }
    }
  }

  /** With nothing unsettled, excused means valid: nginx can be restarted. */
  lemma SettledIsValid(w: World, good: Judge)
    requires Excused(w, good) && forall j <- w.jobs :: w.jobs[j].phase.Snapped?
    ensures AllGood(w.confs, good)
  {
    forall id <- w.confs ensures good(id, w.confs[id]) {
      assert Bad(w.confs, id, good) ==> Unsettled(w, id);
    }
  }

  // ------------------------------------------------------------------------
  // Writes of one host that do not overlap
  // ------------------------------------------------------------------------

  /** No file is read for rollback while another write of it is unsettled, and rollbacks work. */
  predicate Orderly(w: World, e: Event)
    requires Enabled(w, e)
  {
    match e
    case Snapshot(id, _) => !Unsettled(w, id)
    case Rollback(_, undo) => undo.Restored?
    case Abandon(j) => w.jobs[j].phase.Snapped?
    case _ => true
  }

  predicate OrderlyRun(w: World, run: seq<Event>, good: Judge)
    requires Feasible(w, run, good)
    decreases |run|
  {
    run != [] ==> Orderly(w, run[0]) && OrderlyRun(Step(w, run[0], good), run[1..], good)
  }

  ghost predicate SnapshotsGood(w: World, good: Judge) {
    forall j <- w.jobs :: w.jobs[j].previous.Some? ==> good(w.jobs[j].id, w.jobs[j].previous.value)
  }

  lemma OrderlyStep(w: World, e: Event, good: Judge)
    requires Fresh(w) && Enabled(w, e) && Excused(w, good) && SnapshotsGood(w, good) && Orderly(w, e)
    ensures !Breaks(w, e, good) && SnapshotsGood(Step(w, e, good), good)
  {
    if e.Snapshot? {
      assert !Bad(w.confs, e.id, good);
    }
    hide Unsettled, UnsettledBeside;
  }

  /** If no host's file is read while another write of that host is unsettled, no step breaks. */
  lemma {:induction false} OrderlyRunsStayValid(w: World, run: seq<Event>, good: Judge)
    requires Fresh(w) && Feasible(w, run, good) && OrderlyRun(w, run, good)
    requires Excused(w, good) && SnapshotsGood(w, good)
    ensures NeverBreaks(w, run, good) && Excused(Exec(w, run, good), good)
    decreases |run|
  {
    hide Excused, Breaks, Step, Enabled, Fresh, SnapshotsGood, Orderly;
    if run == [] {
    } else {
      OrderlyStep(w, run[0], good);
      StepExcusedExactly(w, run[0], good);
      OrderlyRunsStayValid(Step(w, run[0], good), run[1..], good);
    }
  }

  // ------------------------------------------------------------------------
  // Reported changes
  // ------------------------------------------------------------------------

  /** The files as the callers were told: a write is reported when its test passes, a removal at once. */
  function Reported(w: World, told: Confs, e: Event, good: Judge): Confs
    requires Enabled(w, e)
  {
    match e
    case Test(j, runs) => if runs && AllGood(w.confs, good) then told[w.jobs[j].id := w.jobs[j].text] else told
    case Remove(id) => told - {id}
    case _ => told
  }

  /** The host's file is what was last reported of it, unless a write of it is unsettled. */
  ghost predicate AsReportedOf(w: World, told: Confs, id: nat) {
    Unsettled(w, id) || NginxConfig.Find(w.confs, id) == NginxConfig.Find(told, id)
  }

  ghost predicate AsReported(w: World, told: Confs) {
    forall id :: AsReportedOf(w, told, id)
  }

  /**
   The last unsettled write of a host ends, and the file is not what was last reported: another text
   passed the test in its name, or a rollback restores, or giving up leaves, something else.
   */
  predicate Misleads(w: World, told: Confs, e: Event, good: Judge)
    requires Enabled(w, e)
  {
    match e
    case Test(j, runs) =>
      var job := w.jobs[j];
      runs && AllGood(w.confs, good) && !UnsettledBeside(w, job.id, j)
      && NginxConfig.Find(w.confs, job.id) != Some(job.text)
    case Rollback(j, undo) =>
      var job := w.jobs[j];
      !UnsettledBeside(w, job.id, j)
      && NginxConfig.Find(Undone(w.confs, job, undo), job.id) != NginxConfig.Find(told, job.id)
    case Abandon(j) =>
      var job := w.jobs[j];
      !job.phase.Snapped? && !UnsettledBeside(w, job.id, j)
      && NginxConfig.Find(w.confs, job.id) != NginxConfig.Find(told, job.id)
    case _ => false
  }

  /** The host a step is about; only what is said of it can change. */
  function HostOf(w: World, e: Event): nat
    requires Enabled(w, e)
  {
    match e
    case Snapshot(id, _) => id
    case Remove(id) => id
    case Place(j) => w.jobs[j].id
    case Test(j, _) => w.jobs[j].id
    case Rollback(j, _) => w.jobs[j].id
    case Abandon(j) => w.jobs[j].id
  }

  lemma UnsettledAfterStep(w: World, e: Event, good: Judge, id: nat)
    requires Fresh(w) && Enabled(w, e)
    ensures var v := Step(w, e, good);
            Unsettled(v, id) <==>
            match e
            case Snapshot(_, _) => Unsettled(w, id)
            case Remove(_) => Unsettled(w, id)
            case Place(j) => Unsettled(w, id) || id == w.jobs[j].id
            case Test(j, runs) =>
              if runs && AllGood(w.confs, good) then UnsettledBeside(w, id, j) else Unsettled(w, id)
            case Rollback(j, _) => UnsettledBeside(w, id, j)
            case Abandon(j) => UnsettledBeside(w, id, j)
    ensures !e.Snapshot? && !e.Remove? ==>
              (Unsettled(w, id) <==> UnsettledBeside(w, id, e.j) || Touches(w.jobs[e.j], id))
  {
    var v := Step(w, e, good);
    match e
    case Snapshot(_, _) => UnsettledAfterChange(w, v, w.next, v.jobs[w.next], id);
    case Remove(_) => assert v.jobs == w.jobs;
    case Place(j) => UnsettledAfterChange(w, v, j, v.jobs[j], id);
    case Test(j, runs) =>
      if runs && AllGood(w.confs, good) {
        UnsettledAfterRemoval(w, v, j, id);
      } else {
        UnsettledAfterChange(w, v, j, v.jobs[j], id);
      }
    case Rollback(j, _) => UnsettledAfterRemoval(w, v, j, id);
    case Abandon(j) => UnsettledAfterRemoval(w, v, j, id);
    if !e.Snapshot? && !e.Remove? {
      UnsettledAfterRemoval(w, w.(jobs := w.jobs - {e.j}), e.j, id);
    }
  }

  lemma StepReportsOf(w: World, told: Confs, e: Event, good: Judge, id: nat)
    requires Fresh(w) && Enabled(w, e) && AsReportedOf(w, told, id)
    ensures AsReportedOf(Step(w, e, good), Reported(w, told, e, good), id) <==>
            !(id == HostOf(w, e) && Misleads(w, told, e, good))
  {
    UnsettledAfterStep(w, e, good, id);
    hide Unsettled, UnsettledBeside, AllGood;
  }

  /** Each step keeps the files as reported exactly unless it misleads. */
  lemma StepReportsExactly(w: World, told: Confs, e: Event, good: Judge)
    requires Fresh(w) && Enabled(w, e) && AsReported(w, told)
    ensures AsReported(Step(w, e, good), Reported(w, told, e, good)) <==> !Misleads(w, told, e, good)
  {
    hide AsReportedOf, Misleads, Reported, Step, HostOf;
    forall id ensures AsReportedOf(Step(w, e, good), Reported(w, told, e, good), id) <==>
                      !(id == HostOf(w, e) && Misleads(w, told, e, good))
    {
      StepReportsOf(w, told, e, good, id);
    }
    var host := HostOf(w, e);
    assert AsReportedOf(Step(w, e, good), Reported(w, told, e, good), host) <==> !Misleads(w, told, e, good);
  }

  lemma StepKeepsFresh(w: World, e: Event, good: Judge)
    requires Fresh(w) && Enabled(w, e)
    ensures Fresh(Step(w, e, good))
  {
  }

  function ToldAfter(w: World, told: Confs, run: seq<Event>, good: Judge): Confs
    requires Feasible(w, run, good)
    decreases |run|
  {
    if run == [] then told
    else ToldAfter(Step(w, run[0], good), Reported(w, told, run[0], good), run[1..], good)
  }

  ghost predicate AlwaysAsReported(w: World, told: Confs, run: seq<Event>, good: Judge)
    requires Feasible(w, run, good)
    decreases |run|
  {
    && AsReported(w, told)
    && (run != [] ==> AlwaysAsReported(Step(w, run[0], good), Reported(w, told, run[0], good), run[1..], good))
  }

  predicate NeverMisleads(w: World, told: Confs, run: seq<Event>, good: Judge)
    requires Feasible(w, run, good)
    decreases |run|
  {
    run != [] ==>
      && !Misleads(w, told, run[0], good)
      && NeverMisleads(Step(w, run[0], good), Reported(w, told, run[0], good), run[1..], good)
  }

  /**
   However calls overlap, each host's file is the last reported change to it whenever no write of it
   is unsettled, exactly unless a step misleads.
   */
  lemma {:induction false} FilesAreLastReportsExactly(w: World, told: Confs, run: seq<Event>, good: Judge)
    requires Fresh(w) && AsReported(w, told) && Feasible(w, run, good)
    ensures AlwaysAsReported(w, told, run, good) <==> NeverMisleads(w, told, run, good)
    decreases |run|
  {
    hide AsReported, Misleads, Step, Reported, Enabled, Fresh;
    if run == [] {
    } else {
      StepKeepsFresh(w, run[0], good);
      StepReportsExactly(w, told, run[0], good);
      var v, u := Step(w, run[0], good), Reported(w, told, run[0], good);
      if AsReported(v, u) {
        FilesAreLastReportsExactly(v, u, run[1..], good);
      }
    }
  }

  /** Calls for one host do not overlap at all, and rollbacks work. */
  predicate OneAtATime(w: World, e: Event)
    requires Enabled(w, e)
  {
    match e
    case Snapshot(id, _) => forall j <- w.jobs :: w.jobs[j].id != id
    case Remove(id) => forall j <- w.jobs :: w.jobs[j].id != id
    case Rollback(_, undo) => undo.Restored?
    case Abandon(j) => w.jobs[j].phase.Snapped?
    case _ => true
  }

  predicate OneAtATimeRun(w: World, run: seq<Event>, good: Judge)
    requires Feasible(w, run, good)
    decreases |run|
  {
    run != [] ==> OneAtATime(w, run[0]) && OneAtATimeRun(Step(w, run[0], good), run[1..], good)
  }

  /** Each write remembers what was last reported, and its own text is in place once it was put there. */
  ghost predicate JobAsReported(w: World, told: Confs, job: Job) {
    && job.previous == NginxConfig.Find(told, job.id)
    && NginxConfig.Find(w.confs, job.id) == if job.phase.Snapped? then job.previous else Some(job.text)
  }

  ghost predicate OneJobEach(w: World) {
    forall i, j :: i in w.jobs && j in w.jobs && w.jobs[i].id == w.jobs[j].id ==> i == j
  }

  ghost predicate Alone(w: World, told: Confs) {
    && OneJobEach(w)
    && (forall j <- w.jobs :: JobAsReported(w, told, w.jobs[j]))
  }

  lemma OneAtATimeDoesNotMislead(w: World, told: Confs, e: Event, good: Judge)
    requires Fresh(w) && Enabled(w, e) && Alone(w, told) && OneAtATime(w, e)
    ensures !Misleads(w, told, e, good)
  {
    if e.Test? || e.Rollback? {
      assert JobAsReported(w, told, w.jobs[e.j]);
    }
    hide UnsettledBeside, AllGood;
  }

  /** What a step leaves of another job: no step of one host touches a job of another. */
  lemma OtherJobsStay(w: World, told: Confs, e: Event, good: Judge, j: JobId)
    requires Fresh(w) && Enabled(w, e) && Alone(w, told) && OneAtATime(w, e)
    requires j in w.jobs && ((e.Snapshot? || e.Remove?) || j != e.j)
    ensures j in Step(w, e, good).jobs && Step(w, e, good).jobs[j] == w.jobs[j]
    ensures JobAsReported(Step(w, e, good), Reported(w, told, e, good), w.jobs[j])
  {
    assert JobAsReported(w, told, w.jobs[j]);
    assert w.jobs[j].id != HostOf(w, e);
    hide AllGood, Alone;
  }

  /** What a step leaves of its own job. */
  lemma OwnJobStays(w: World, told: Confs, e: Event, good: Judge)
    requires Enabled(w, e) && Alone(w, told) && OneAtATime(w, e) && !e.Snapshot? && !e.Remove?
    ensures var v := Step(w, e, good);
            e.j in v.jobs ==> v.jobs[e.j].id == w.jobs[e.j].id
                              && JobAsReported(v, Reported(w, told, e, good), v.jobs[e.j])
  {
    assert JobAsReported(w, told, w.jobs[e.j]);
    hide AllGood, Alone;
  }

  lemma OneAtATimeStep(w: World, told: Confs, e: Event, good: Judge)
    requires Fresh(w) && Enabled(w, e) && Alone(w, told) && AsReported(w, told) && OneAtATime(w, e)
    ensures Alone(Step(w, e, good), Reported(w, told, e, good))
  {
    var v, u := Step(w, e, good), Reported(w, told, e, good);
    forall j | j in w.jobs && ((e.Snapshot? || e.Remove?) || j != e.j)
      ensures j in v.jobs && v.jobs[j] == w.jobs[j] && JobAsReported(v, u, w.jobs[j])
    {
      OtherJobsStay(w, told, e, good, j);
    }
    if e.Snapshot? {
      assert AsReportedOf(w, told, e.id) && !Unsettled(w, e.id);
      assert JobAsReported(v, u, v.jobs[w.next]);
    } else if !e.Remove? {
      OwnJobStays(w, told, e, good);
    }
    OneJobEachStays(w, e, good);
    hide AllGood, JobAsReported, Unsettled, OneJobEach, AsReported;
    assert forall j <- v.jobs :: j in w.jobs || (e.Snapshot? && j == w.next);
  }

  lemma OneJobEachStays(w: World, e: Event, good: Judge)
    requires Fresh(w) && Enabled(w, e) && OneJobEach(w) && OneAtATime(w, e)
    ensures OneJobEach(Step(w, e, good))
  {
    hide AllGood;
  }

  /** If calls for one host do not overlap and rollbacks work, files are as reported. */
  lemma {:induction false} OneAtATimeFilesAreReports(w: World, told: Confs, run: seq<Event>, good: Judge)
    requires Fresh(w) && Feasible(w, run, good) && OneAtATimeRun(w, run, good)
    requires Alone(w, told) && AsReported(w, told)
    ensures NeverMisleads(w, told, run, good)
    ensures AsReported(Exec(w, run, good), ToldAfter(w, told, run, good))
    decreases |run|
  {
    hide AsReported, Misleads, Step, Reported, Enabled, Fresh, Alone, OneAtATime;
    if run == [] {
    } else {
      var v, u := Step(w, run[0], good), Reported(w, told, run[0], good);
      StepKeepsFresh(w, run[0], good);
      OneAtATimeDoesNotMislead(w, told, run[0], good);
      StepReportsExactly(w, told, run[0], good);
      OneAtATimeStep(w, told, run[0], good);
      OneAtATimeFilesAreReports(v, u, run[1..], good);
    }
  }

  // ------------------------------------------------------------------------
  // Two writes of one host that do
  // ------------------------------------------------------------------------

  ghost predicate Reaches(w: World, v: World, good: Judge) {
    exists run :: Feasible(w, run, good) && Exec(w, run, good) == v
  }

  lemma ReachesSelf(w: World, good: Judge)
    ensures Reaches(w, w, good)
  {
    Peel(w, [], good);
  }

  lemma ReachesStep(w: World, e: Event, v: World, good: Judge)
    requires Enabled(w, e) && Reaches(Step(w, e, good), v, good)
    ensures Reaches(w, v, good)
  {
    var run :| Feasible(Step(w, e, good), run, good) && Exec(Step(w, e, good), run, good) == v;
    assert ([e] + run)[1..] == run;
    Peel(w, [e] + run, good);
  }

  lemma {:induction false} ReachesAlong(w: World, run: seq<Event>, v: World, good: Judge)
    requires Feasible(w, run, good) && Reaches(Exec(w, run, good), v, good)
    ensures Reaches(w, v, good)
    decreases |run|
  {
    hide Reaches, Step, Enabled;
    if run == [] {
    } else {
      ReachesAlong(Step(w, run[0], good), run[1..], v, good);
      ReachesStep(w, run[0], v, good);
    }
  }

  lemma ReachesJoin(w: World, u: World, v: World, good: Judge)
    requires Reaches(w, u, good) && Reaches(u, v, good)
    ensures Reaches(w, v, good)
  {
    var run :| Feasible(w, run, good) && Exec(w, run, good) == u;
    ReachesAlong(w, run, v, good);
  }

  /** Unfolds a run by one event. */
  lemma Peel(w: World, run: seq<Event>, good: Judge)
    ensures run == [] ==> Feasible(w, run, good) && Exec(w, run, good) == w
    ensures run != [] && Enabled(w, run[0]) && Feasible(Step(w, run[0], good), run[1..], good) ==>
              Feasible(w, run, good) && Exec(w, run, good) == Exec(Step(w, run[0], good), run[1..], good)
  {
  }

  lemma EventIsARun(w: World, e: Event, good: Judge) returns (v: World)
    requires Enabled(w, e)
    ensures Reaches(w, v, good) && v == Step(w, e, good)
  {
    v := Step(w, e, good);
    ReachesSelf(v, good);
    ReachesStep(w, e, v, good);
  }

  /** A write gets to the point where its file is in place. */
  lemma WritePlaces(w: World, id: nat, text: string, good: Judge) returns (v: World)
    ensures Reaches(w, v, good)
    ensures v == World(w.confs[id := text],
                       w.jobs[w.next := Job(id, text, NginxConfig.Find(w.confs, id), Placed)], w.next + 1)
  {
    hide Reaches;
    var u := EventIsARun(w, Snapshot(id, text), good);
    v := EventIsARun(u, Place(w.next), good);
    assert v.jobs == w.jobs[w.next := Job(id, text, NginxConfig.Find(w.confs, id), Placed)];
    ReachesJoin(w, u, v, good);
  }

  /** A placed file that fails the test is rolled back to the snapshot. */
  lemma RejectedIsUndone(w: World, j: JobId, runs: bool, undo: Undo, good: Judge) returns (v: World)
    requires In(w, j, Placed) && !(runs && AllGood(w.confs, good))
    ensures Reaches(w, v, good)
    ensures v == World(Undone(w.confs, w.jobs[j], undo), w.jobs - {j}, w.next)
  {
    hide Reaches, AllGood;
    var u := EventIsARun(w, Test(j, runs), good);
    v := EventIsARun(u, Rollback(j, undo), good);
    assert v.jobs == w.jobs - {j};
    ReachesJoin(w, u, v, good);
  }

  /**
   From every state two overlapping writes of one host with texts that fail, and rollbacks that
   work, leave the first of the texts in place: the second snapshot was taken of it.
   */
  lemma SameHostOverlapBreaks(w: World, id: nat, first: string, second: string, good: Judge) returns (v: World)
    requires Fresh(w) && !good(id, first) && !good(id, second)
    ensures Reaches(w, v, good) && v.jobs == w.jobs && v.confs == w.confs[id := first]
  {
    hide Reaches;
    var a, b := w.next, w.next + 1;
    var w1 := WritePlaces(w, id, first, good);
    var w2 := WritePlaces(w1, id, second, good);
    assert !AllGood(w2.confs, good) by {
      assert id in w2.confs && !good(id, w2.confs[id]);
    }
    var w3 := EventIsARun(w2, Test(b, true), good);
    assert !AllGood(w3.confs, good);
    var w4 := RejectedIsUndone(w3, a, true, Restored, good);
    v := EventIsARun(w4, Rollback(b, Restored), good);
    assert v.jobs == w.jobs;
    assert v.confs == w.confs[id := first];
    ReachesJoin(w, w1, w2, good);
    ReachesJoin(w, w2, w3, good);
    ReachesJoin(w, w3, w4, good);
    ReachesJoin(w, w4, v, good);
  }

  /** An orderly run leads from `w` and what callers were told to `v` and what they are told then. */
  ghost predicate Leads(w: World, told: Confs, v: World, after: Confs, good: Judge) {
    exists run :: && Feasible(w, run, good) && OrderlyRun(w, run, good)
                  && Exec(w, run, good) == v && ToldAfter(w, told, run, good) == after
  }

  lemma LeadsSelf(w: World, told: Confs, good: Judge)
    ensures Leads(w, told, w, told, good)
  {
    Unfold(w, told, [], good);
  }

  lemma LeadsStep(w: World, told: Confs, e: Event, v: World, after: Confs, good: Judge)
    requires Enabled(w, e) && Orderly(w, e)
    requires Leads(Step(w, e, good), Reported(w, told, e, good), v, after, good)
    ensures Leads(w, told, v, after, good)
  {
    var u, heard := Step(w, e, good), Reported(w, told, e, good);
    var run :| && Feasible(u, run, good) && OrderlyRun(u, run, good)
               && Exec(u, run, good) == v && ToldAfter(u, heard, run, good) == after;
    assert ([e] + run)[1..] == run;
    Unfold(w, told, [e] + run, good);
  }

  /** Unfolds a run, its discipline and its reports by one event. */
  lemma Unfold(w: World, told: Confs, run: seq<Event>, good: Judge)
    ensures run == [] ==> Feasible(w, run, good) && Exec(w, run, good) == w && OrderlyRun(w, run, good)
                          && ToldAfter(w, told, run, good) == told
    ensures run != [] && Enabled(w, run[0]) && Feasible(Step(w, run[0], good), run[1..], good) ==>
              && Feasible(w, run, good)
              && Exec(w, run, good) == Exec(Step(w, run[0], good), run[1..], good)
              && (OrderlyRun(w, run, good) <==>
                  Orderly(w, run[0]) && OrderlyRun(Step(w, run[0], good), run[1..], good))
              && ToldAfter(w, told, run, good) ==
                 ToldAfter(Step(w, run[0], good), Reported(w, told, run[0], good), run[1..], good)
  {
  }

  /** A write with a bad text is undone: its snapshot is back. */
  lemma BadWriteIsUndone(w: World, told: Confs, j: JobId, good: Judge) returns (v: World)
    requires In(w, j, Snapped) && !good(w.jobs[j].id, w.jobs[j].text)
    ensures Leads(w, told, v, told, good)
    ensures v == World(NginxConfig.Set(w.confs, w.jobs[j].id, w.jobs[j].previous), w.jobs - {j}, w.next)
  {
    hide Leads;
    var job := w.jobs[j];
    var w1 := Step(w, Place(j), good);
    assert !AllGood(w1.confs, good) by {
      assert job.id in w1.confs && !good(job.id, w1.confs[job.id]);
    }
    hide AllGood;
    var w2 := Step(w1, Test(j, true), good);
    v := Step(w2, Rollback(j, Restored), good);
    assert v.jobs == w.jobs - {j};
    assert v.confs == NginxConfig.Set(w.confs, job.id, job.previous);
    LeadsSelf(v, told, good);
    LeadsStep(w2, told, Rollback(j, Restored), v, told, good);
    LeadsStep(w1, told, Test(j, true), v, told, good);
    LeadsStep(w, told, Place(j), v, told, good);
  }

  /** A write with a good text in a valid directory is reported. */
  lemma GoodWriteIsReported(w: World, told: Confs, j: JobId, v: World, good: Judge)
    requires In(w, j, Snapped) && AllGood(w.confs, good) && good(w.jobs[j].id, w.jobs[j].text)
    requires var job := w.jobs[j];
             Leads(World(w.confs[job.id := job.text], w.jobs - {j}, w.next), told[job.id := job.text],
                   v, told[job.id := job.text], good)
    ensures Leads(w, told, v, told[w.jobs[j].id := w.jobs[j].text], good)
  {
    hide Leads;
    var job := w.jobs[j];
    var after := told[job.id := job.text];
    var w1 := Step(w, Place(j), good);
    assert AllGood(w1.confs, good);
    var w2 := Step(w1, Test(j, true), good);
    assert w2 == World(w.confs[job.id := job.text], w.jobs - {j}, w.next);
    LeadsStep(w1, told, Test(j, true), v, after, good);
    LeadsStep(w, told, Place(j), v, after, good);
  }

  /**
   From every valid directory: a write is tested and reported as deployed, and an overlapping write of
   the same host whose snapshot is older fails and restores that. Every rollback works, every snapshot
   is taken with nothing unsettled, and the deployed text is gone.
   */
  lemma DeployedTextIsUndone(w: World, told: Confs, id: nat, text: string, bad: string, good: Judge)
    returns (v: World)
    requires Fresh(w) && AllGood(w.confs, good) && good(id, text) && !good(id, bad) && !Unsettled(w, id)
    ensures Leads(w, told, v, told[id := text], good)
    ensures v.confs == w.confs && v.jobs == w.jobs
  {
    hide Leads, AllGood;
    var a, b, after := w.next, w.next + 1, told[id := text];
    assert a !in w.jobs && b !in w.jobs;
    var w1 := Step(w, Snapshot(id, text), good);
    UnsettledAfterStep(w, Snapshot(id, text), good, id);
    var w2 := Step(w1, Snapshot(id, bad), good);
    var w4 := World(w2.confs[id := text], w2.jobs - {a}, w2.next);
    v := BadWriteIsUndone(w4, after, b, good);
    assert v.jobs == w.jobs;
    assert v.confs == w.confs;
    hide Unsettled;
    GoodWriteIsReported(w2, told, a, v, good);
    LeadsStep(w1, told, Snapshot(id, bad), v, after, good);
    LeadsStep(w, told, Snapshot(id, text), v, after, good);
  }

  // ------------------------------------------------------------------------
  // Calls that nothing interrupts are runs
  // ------------------------------------------------------------------------

  function UndoOf(confs: Confs, call: NginxConfig.Call): Undo
    requires call.WriteHost?
  {
    if call.id in confs then
      match call.io.restore
      case Done => Restored
      case Failed(Some(text)) => Garbled(text)
      case Failed(None) => Untouched
    else if call.io.unlink then Restored
    else Untouched
  }

  lemma CallIsARun(w: World, call: NginxConfig.Call, good: Judge) returns (v: World)
    requires Fresh(w)
    ensures Reaches(w, v, good) && v.jobs == w.jobs
    ensures v.confs == NginxConfig.Step(w.confs, call, confs => AllGood(confs, good)).1
  {
    hide Reaches;
    ReachesSelf(w, good);
    match call
    case RemoveHost(id, io) =>
      if id !in w.confs || !io.unlink {
        return w;
      }
      v := EventIsARun(w, Remove(id), good);
    case WriteHost(id, text, _, io) =>
      if !NginxConfig.Written(io) {
        return w;
      }
      var u := WritePlaces(w, id, text, good);
      if io.nginxRuns && AllGood(u.confs, good) {
        v := EventIsARun(u, Test(w.next, true), good);
      } else {
        v := RejectedIsUndone(u, w.next, io.nginxRuns, UndoOf(w.confs, call), good);
      }
      assert v.jobs == w.jobs;
      ReachesJoin(w, u, v, good);
  }
}
