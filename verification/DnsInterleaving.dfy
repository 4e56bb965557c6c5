/**
 The same stores with handlers and background deploys split at their awaits.

 A deploy reads its row, calls Cloudflare once or twice, and writes the row; an undeploy reads its
 row and calls Cloudflare. Between two of these steps anything else can happen: other deploys of the
 same host, edits, deletion of the row, a sync that prunes the zone, a restart of the process.
 */
module DnsInterleaving {
  import opened Prelude
  import opened DnsOwnership

  type JobId = nat

  /** Before the update call, after it answered 404, or after a call returned an id. */
  datatype Phase = Ready | Missing | Wrote(id: RecordId)

  datatype Job =
    | Deploying(host: HostId, record: DnsRecord, existing: Option<RecordId>, phase: Phase)
    | Undeploying(zone: ZoneId, id: RecordId)

  /** `maker` says for which host each record that CloudGate made was created. */
  datatype World = World(s: Stores, maker: map<RecordId, HostId>, jobs: map<JobId, Job>, next: JobId)

  const START: World := World(EMPTY, map[], map[], 0)

  datatype Event =
    | Insert(row: Row)
    | Alter(h: HostId, row: Row) // an edit or a toggle: the record id is kept or reset
    | Remove(h: HostId)
    | BeginDeploy(h: HostId, edge: Edge)
    | UpdateRemote(j: JobId)
    | CreateRemote(j: JobId)
    | PersistId(j: JobId)
    | BeginUndeploy(h: HostId)
    | DeleteRemote(j: JobId)
    | Abandon(j: JobId) // an exception, or the process restarts
    | Elsewhere(q: Request) // zones and the dashboard

  predicate Deploys(w: World, j: JobId) {
    j in w.jobs && w.jobs[j].Deploying?
  }

  predicate Enabled(w: World, e: Event) {
    match e
    case Insert(row) => row.record.None?
    case Alter(h, row) => h in w.s.rows && (row.record == w.s.rows[h].record || row.record.None?)
    case Remove(_) => true
    case BeginDeploy(h, edge) => h in w.s.rows && w.s.rows[h].zone.Some? && !edge.HostPort?
    case UpdateRemote(j) => Deploys(w, j) && w.jobs[j].phase.Ready?
    case CreateRemote(j) => Deploys(w, j) && w.jobs[j].phase.Missing?
    case PersistId(j) => Deploys(w, j) && w.jobs[j].phase.Wrote?
    case BeginUndeploy(h) => h in w.s.rows && w.s.rows[h].record.Some? && w.s.rows[h].zone.Some?
    case DeleteRemote(j) => j in w.jobs && w.jobs[j].Undeploying?
    case Abandon(j) => j in w.jobs
    case Elsewhere(q) => q.AddZone? || q.PruneZone? || IsDashboard(q)
  }

  function Begin(w: World, job: Job): World {
    w.(jobs := w.jobs[w.next := job], next := w.next + 1)
  }

  function Enter(w: World, j: JobId, phase: Phase): World
    requires Deploys(w, j)
  {
    w.(jobs := w.jobs[j := w.jobs[j].(phase := phase)])
  }

  const WORKING: Api := Api(true, false, false, false)

  function Step(w: World, e: Event): World
    requires Enabled(w, e)
  {
    var s := w.s;
    match e
    case Insert(row) => w.(s := s.(rows := s.rows[s.nextHost := row], nextHost := s.nextHost + 1))
    case Alter(h, row) => w.(s := s.(rows := s.rows[h := row]))
    case Remove(h) => w.(s := s.(rows := s.rows - {h}))
    case BeginDeploy(h, edge) =>
      var row := s.rows[h];
      Begin(w, Deploying(h, DnsRecord(row.zone.value, row.hostname, edge), row.record, Ready))
    case UpdateRemote(j) =>
      var job := w.jobs[j];
      if job.existing.Some? && Found(s, job.record.zone, job.existing.value) then
        Enter(w.(s := s.(remote := s.remote[job.existing.value := job.record])), j, Wrote(job.existing.value))
      else Enter(w, j, Missing)
    case CreateRemote(j) =>
      Enter(w.(s := CreateRecord(s, w.jobs[j].record), maker := w.maker[s.nextRecord := w.jobs[j].host]),
            j, Wrote(s.nextRecord))
    case PersistId(j) =>
      w.(s := Persist(s, w.jobs[j].host, w.jobs[j].phase.id), jobs := w.jobs - {j})
    case BeginUndeploy(h) => Begin(w, Undeploying(s.rows[h].zone.value, s.rows[h].record.value))
    case DeleteRemote(j) =>
      w.(s := DeleteRecord(s, w.jobs[j].zone, w.jobs[j].id, WORKING), jobs := w.jobs - {j})
    case Abandon(j) => w.(jobs := w.jobs - {j})
    case Elsewhere(q) => w.(s := Handle(s, q))
  }

  // ------------------------------------------------------------------------
  // Which step loses a record
  // ------------------------------------------------------------------------

  predicate Writes(job: Job, id: RecordId) {
    job.Deploying? && job.phase == Wrote(id)
  }

  /** Some deploy has written the record and will put its id into the row. */
  predicate InFlight(w: World, id: RecordId) {
    exists j <- w.jobs :: Writes(w.jobs[j], id)
  }

  predicate InFlightBeside(w: World, id: RecordId, own: JobId) {
    exists j <- w.jobs :: j != own && Writes(w.jobs[j], id)
  }

  /** The row leads to the record, or a deploy is about to make it. */
  ghost predicate Kept(w: World, id: RecordId)
    requires id in w.s.remote && id in w.maker
  {
    Holds(w.s, w.maker[id], id) || InFlight(w, id)
  }

  ghost predicate AllKept(w: World) {
    forall id :: id in w.s.remote && id in w.maker ==> Kept(w, id)
  }

  /**
   Does this step lose record `id`? Steps that lose one drop or re-zone the row that alone leads to
   it, give up the deploy that alone leads to it, or write an id where it no longer belongs, that is
   to a row that is gone, has moved to another zone, or has got another live record in the meantime.
   */
  predicate Loses(w: World, e: Event, id: RecordId) {
    match e
    case Alter(h, row) => RowLeads(w, h, id) && (row.record.None? || row.zone != w.s.rows[h].zone)
    case Remove(h) => RowLeads(w, h, id)
    case PersistId(j) => Deploys(w, j) && w.jobs[j].phase.Wrote? && PersistLoses(w, j, id)
    case Abandon(j) => JobLeads(w, j, id) && !RowHas(w, w.jobs[j].host, id)
    case Elsewhere(q) =>
      q.PruneZone? && exists h <- w.s.rows :: w.s.rows[h].zone == Some(q.zone) && RowLeads(w, h, id)
    case _ => false
  }

  predicate RowHas(w: World, h: HostId, id: RecordId) {
    HasLiveRecord(w.s, h) && w.s.rows[h].record == Some(id)
  }

  /** The row of `h` is all that leads to the live record. */
  predicate RowLeads(w: World, h: HostId, id: RecordId) {
    RowHas(w, h, id) && !InFlight(w, id)
  }

  /** Of all deploys only `j` leads to the live record. */
  predicate JobLeads(w: World, j: JobId, id: RecordId) {
    j in w.jobs && Writes(w.jobs[j], id) && id in w.s.remote && !InFlightBeside(w, id, j)
  }

  predicate PersistLoses(w: World, j: JobId, id: RecordId)
    requires Deploys(w, j) && w.jobs[j].phase.Wrote?
  {
    var job := w.jobs[j];
    if id == job.phase.id then
      JobLeads(w, j, id) && !(job.host in w.s.rows && w.s.rows[job.host].zone == Some(job.record.zone))
    else RowLeads(w, job.host, id)
  }

  ghost predicate JobWf(w: World, job: Job) {
    && (job.Undeploying? ==> job.id in w.maker)
    && (job.Deploying? ==>
          && (job.existing.Some? ==> job.existing.value in w.maker && w.maker[job.existing.value] == job.host)
          && (job.phase.Wrote? ==>
                && job.phase.id in w.maker && w.maker[job.phase.id] == job.host
                && (job.phase.id in w.s.remote ==> w.s.remote[job.phase.id].zone == job.record.zone))
          && (job.existing.Some? && !job.phase.Ready? && job.phase != Wrote(job.existing.value) ==>
                !Found(w.s, job.record.zone, job.existing.value)))
  }

  ghost predicate RowsSound(w: World) {
    && (forall h <- w.s.rows :: h < w.s.nextHost)
    && (forall h <- w.s.rows :: w.s.rows[h].record.Some? ==>
          w.s.rows[h].record.value in w.maker && w.maker[w.s.rows[h].record.value] == h)
  }

  /** What every state satisfies: a record id is known only to the host it was made for and its deploys. */
  ghost predicate Sound(w: World) {
    && w.s.created == w.maker.Keys
    && (forall id <- w.maker :: id < w.s.nextRecord)
    && (forall id <- w.s.remote :: id < w.s.nextRecord)
    && RowsSound(w)
    && (forall j <- w.jobs :: j < w.next && JobWf(w, w.jobs[j]))
  }

  lemma JobWfStays(w: World, v: World, job: Job)
    requires Sound(w) && JobWf(w, job)
    requires forall id <- w.maker :: id in v.maker && v.maker[id] == w.maker[id]
    requires forall id <- w.maker | id in v.s.remote :: id in w.s.remote && v.s.remote[id].zone == w.s.remote[id].zone
    ensures JobWf(v, job)
  {
  }

  /** The event leaves records in their zones and ids with their hosts. */
  lemma StepKeepsRecords(w: World, e: Event)
    requires Sound(w) && Enabled(w, e)
    ensures var v := Step(w, e);
            && (forall id <- w.maker :: id in v.maker && v.maker[id] == w.maker[id])
            && (forall id <- w.maker | id in v.s.remote ::
                  id in w.s.remote && v.s.remote[id].zone == w.s.remote[id].zone)
  {
    hide JobWf, InFlight;
  }

  lemma StepKeepsJobs(w: World, e: Event)
    requires Sound(w) && Enabled(w, e)
    ensures var v := Step(w, e); forall j <- v.jobs :: j < v.next && JobWf(v, v.jobs[j])
  {
    StepKeepsRecords(w, e);
    var v := Step(w, e);
    forall j <- v.jobs ensures j < v.next && JobWf(v, v.jobs[j]) {
      if j in w.jobs {
        JobWfStays(w, v, w.jobs[j]);
      }
    }
  }

  lemma PersistKeepsRows(w: World, j: JobId)
    requires Sound(w) && Enabled(w, PersistId(j))
    ensures RowsSound(Step(w, PersistId(j)))
  {
    assert JobWf(w, w.jobs[j]);
    hide JobWf;
  }

  /** A step that changes no record id in any row, and no id's host. */
  lemma SameIdsKeepRows(w: World, v: World)
    requires RowsSound(w)
    requires forall id <- w.maker :: id in v.maker && v.maker[id] == w.maker[id]
    requires w.s.nextHost <= v.s.nextHost
    requires forall h <- v.s.rows :: h < v.s.nextHost
    requires forall h <- v.s.rows | v.s.rows[h].record.Some? ::
               h in w.s.rows && v.s.rows[h].record == w.s.rows[h].record
    ensures RowsSound(v)
  {
  }

  lemma StepKeepsRows(w: World, e: Event)
    requires Sound(w) && Enabled(w, e)
    ensures RowsSound(Step(w, e))
  {
    if e.PersistId? {
      PersistKeepsRows(w, e.j);
    } else {
      StepKeepsRecords(w, e);
      assert RowsSound(w);
      hide JobWf, InFlight, DeleteRecord, CreateRecord, Found, Sound;
      SameIdsKeepRows(w, Step(w, e));
    }
  }

  lemma StepKeepsSound(w: World, e: Event)
    requires Sound(w) && Enabled(w, e)
    ensures Sound(Step(w, e))
  {
    StepKeepsJobs(w, e);
    StepKeepsRows(w, e);
    hide JobWf, RowsSound;
  }

  // ------------------------------------------------------------------------
  // One step
  // ------------------------------------------------------------------------

  lemma InFlightAfterRemoval(w: World, v: World, j: JobId, id: RecordId)
    requires j in w.jobs && v.jobs == w.jobs - {j}
    ensures InFlight(v, id) <==> InFlightBeside(w, id, j)
    ensures InFlight(w, id) <==> InFlightBeside(w, id, j) || Writes(w.jobs[j], id)
  {
    if k :| k in w.jobs && k != j && Writes(w.jobs[k], id) {
      assert k in v.jobs && Writes(v.jobs[k], id);
    }
  }

  lemma InFlightAfterChange(w: World, v: World, j: JobId, job: Job, id: RecordId)
    requires v.jobs == w.jobs[j := job]
    requires j in w.jobs && Writes(w.jobs[j], id) ==> Writes(job, id)
    ensures InFlight(v, id) <==> InFlight(w, id) || Writes(job, id)
  {
    if k :| k in w.jobs && Writes(w.jobs[k], id) {
      assert k in v.jobs && Writes(v.jobs[k], id);
    }
    assert j in v.jobs;
  }

  /** Steps of a job that has not yet finished. */
  predicate IsProgress(e: Event) {
    e.BeginDeploy? || e.BeginUndeploy? || e.UpdateRemote? || e.CreateRemote?
  }

  lemma ProgressKeeps(w: World, e: Event, id: RecordId)
    requires Sound(w) && Enabled(w, e) && IsProgress(e)
    requires id in Step(w, e).s.remote && id in Step(w, e).maker
    requires id in w.s.remote && id in w.maker ==> Kept(w, id)
    ensures Kept(Step(w, e), id)
  {
    var v := Step(w, e);
    var j := if e.BeginDeploy? || e.BeginUndeploy? then w.next else e.j;
    assert v.jobs == w.jobs[j := v.jobs[j]];
    InFlightAfterChange(w, v, j, v.jobs[j], id);
    StepKeepsRecords(w, e);
    hide InFlight, JobWf;
  }

  predicate EndsJob(e: Event) {
    e.PersistId? || e.DeleteRemote? || e.Abandon?
  }

  lemma EndingKeeps(w: World, e: Event, id: RecordId)
    requires Sound(w) && Enabled(w, e) && EndsJob(e)
    requires id in Step(w, e).s.remote && id in w.maker && Kept(w, id)
    ensures Kept(Step(w, e), id) <==> !Loses(w, e, id)
  {
    var v := Step(w, e);
    InFlightAfterRemoval(w, v, e.j, id);
    assert JobWf(w, w.jobs[e.j]);
    hide InFlight, InFlightBeside;
  }

  lemma RowEventKeeps(w: World, e: Event, id: RecordId)
    requires Sound(w) && Enabled(w, e) && !IsProgress(e) && !EndsJob(e)
    requires id in Step(w, e).s.remote && id in w.maker && Kept(w, id)
    ensures Kept(Step(w, e), id) <==> !Loses(w, e, id)
  {
    var v := Step(w, e);
    assert v.jobs == w.jobs;
    assert InFlight(v, id) <==> InFlight(w, id);
    hide InFlight, JobWf;
  }

  /** After one step a record that was kept still is, exactly unless the step loses it. */
  lemma StepKeepsExactly(w: World, e: Event, id: RecordId)
    requires Sound(w) && Enabled(w, e)
    requires id in Step(w, e).s.remote && id in Step(w, e).maker
    requires id in w.s.remote && id in w.maker ==> Kept(w, id)
    ensures Kept(Step(w, e), id) <==> !Loses(w, e, id)
  {
    hide Kept, Sound;
    if IsProgress(e) {
      ProgressKeeps(w, e, id);
    } else {
      StepKeepsRecords(w, e);
      if EndsJob(e) {
        EndingKeeps(w, e, id);
      } else {
        RowEventKeeps(w, e, id);
      }
    }
  }

  // ------------------------------------------------------------------------
  // Whole runs
  // ------------------------------------------------------------------------

  predicate Feasible(w: World, run: seq<Event>)
    decreases |run|
  {
    run == [] || (Enabled(w, run[0]) && Feasible(Step(w, run[0]), run[1..]))
  }

  function Exec(w: World, run: seq<Event>): World
    requires Feasible(w, run)
    decreases |run|
  {
    if run == [] then w else Exec(Step(w, run[0]), run[1..])
  }

  ghost predicate AlwaysKept(w: World, run: seq<Event>)
    requires Feasible(w, run)
    decreases |run|
  {
    AllKept(w) && (run != [] ==> AlwaysKept(Step(w, run[0]), run[1..]))
  }

  /** The step loses a record that is still there afterwards. */
  ghost predicate LosesSome(w: World, e: Event)
    requires Enabled(w, e)
  {
    exists id :: id in Step(w, e).s.remote && id in w.maker && Loses(w, e, id)
  }

  ghost predicate NeverLosesSome(w: World, run: seq<Event>)
    requires Feasible(w, run)
    decreases |run|
  {
    run != [] ==> !LosesSome(w, run[0]) && NeverLosesSome(Step(w, run[0]), run[1..])
  }

  lemma StepKeepsAllExactly(w: World, e: Event)
    requires Sound(w) && Enabled(w, e) && AllKept(w)
    ensures AllKept(Step(w, e)) <==> !LosesSome(w, e)
  {
    var v := Step(w, e);
    forall id | id in v.s.remote && id in v.maker ensures Kept(v, id) <==> !Loses(w, e, id) {
      StepKeepsExactly(w, e, id);
    }
    StepKeepsRecords(w, e);
    forall id | id in v.s.remote && id in v.maker && id !in w.maker ensures !Loses(w, e, id) {
      NewRecordIsNotLost(w, e, id);
    }
    hide Sound, Kept, Loses, Step;
  }

  lemma NewRecordIsNotLost(w: World, e: Event, id: RecordId)
    requires Sound(w) && Enabled(w, e) && id !in w.maker
    ensures !Loses(w, e, id)
  {
    assert forall h <- w.s.rows :: w.s.rows[h].record != Some(id);
    assert forall j <- w.jobs :: JobWf(w, w.jobs[j]) && !Writes(w.jobs[j], id);
  }

  lemma {:induction false} KeptExactly(w: World, run: seq<Event>)
    requires Sound(w) && AllKept(w) && Feasible(w, run)
    ensures AlwaysKept(w, run) <==> NeverLosesSome(w, run)
    decreases |run|
  {
    hide Sound, AllKept, LosesSome, Step, Enabled;
    if run == [] {
    } else {
      StepKeepsSound(w, run[0]);
      StepKeepsAllExactly(w, run[0]);
      if AllKept(Step(w, run[0])) {
        KeptExactly(Step(w, run[0]), run[1..]);
      }
    }
  }

  /**
   However handlers, background deploys, syncs, the dashboard and restarts interleave, every record
   CloudGate made is at every moment in the row of its host or on the way there, exactly when no
   step is one of those that lose a record.
   */
  lemma EveryRecordIsKept(run: seq<Event>)
    requires Feasible(START, run)
    ensures AlwaysKept(START, run) <==> NeverLosesSome(START, run)
  {
    KeptExactly(START, run);
  }

  /** No step but those of the dashboard edits, deletes or adopts a record that CloudGate did not create. */
  lemma StepLeavesForeign(w: World, e: Event, id: RecordId)
    requires Sound(w) && Enabled(w, e) && !(e.Elsewhere? && IsDashboard(e.q))
    requires id in w.s.remote && id !in w.maker
    ensures var v := Step(w, e);
            id in v.s.remote && v.s.remote[id] == w.s.remote[id] && id !in v.maker
  {
    if e.UpdateRemote? || e.DeleteRemote? {
      assert JobWf(w, w.jobs[e.j]);
    }
    hide JobWf, RowsSound;
  }

  /** So it is after any run, at every moment. */
  lemma ForeignRecordsAreUntouched(run: seq<Event>, e: Event, id: RecordId)
    requires Feasible(START, run) && Enabled(Exec(START, run), e) && !(e.Elsewhere? && IsDashboard(e.q))
    requires var w := Exec(START, run); id in w.s.remote && id !in w.maker
    ensures var w := Exec(START, run);
            var v := Step(w, e);
            id in v.s.remote && v.s.remote[id] == w.s.remote[id] && id !in v.maker
  {
    RunKeepsSound(START, run);
    StepLeavesForeign(Exec(START, run), e, id);
  }

  // ------------------------------------------------------------------------
  // When deploys are safe
  // ------------------------------------------------------------------------

  /** A deploy whose row is as it was when the deploy read it loses nothing. */
  lemma UnchangedRowLosesNothing(w: World, j: JobId, id: RecordId)
    requires Sound(w) && Enabled(w, PersistId(j))
    requires var job := w.jobs[j];
             && job.host in w.s.rows && w.s.rows[job.host].record == job.existing
             && w.s.rows[job.host].zone == Some(job.record.zone)
    ensures !Loses(w, PersistId(j), id)
  {
    assert JobWf(w, w.jobs[j]);
  }

  /** A deploy that ends after its row was deleted loses the record, unless it is gone or written by another. */
  lemma DeletedRowLosesExactly(w: World, j: JobId)
    requires Sound(w) && Enabled(w, PersistId(j)) && w.jobs[j].host !in w.s.rows
    ensures var id := w.jobs[j].phase.id;
            Loses(w, PersistId(j), id) <==> id in w.s.remote && !InFlightBeside(w, id, j)
  {
  }

  /** Unfolds a run by one event. */
  lemma Peel(w: World, run: seq<Event>)
    ensures run == [] ==> Feasible(w, run) && Exec(w, run) == w
    ensures run != [] && Enabled(w, run[0]) && Feasible(Step(w, run[0]), run[1..]) ==>
              Feasible(w, run) && Exec(w, run) == Exec(Step(w, run[0]), run[1..])
  {
  }

  // ------------------------------------------------------------------------
  // Handlers that nothing interrupts are runs
  // ------------------------------------------------------------------------

  ghost predicate Reaches(w: World, v: World) {
    exists run :: Feasible(w, run) && Exec(w, run) == v
  }

  lemma ReachesSelf(w: World)
    ensures Reaches(w, w)
  {
    Peel(w, []);
  }

  lemma ReachesStep(w: World, e: Event, v: World)
    requires Enabled(w, e) && Reaches(Step(w, e), v)
    ensures Reaches(w, v)
  {
    var run :| Feasible(Step(w, e), run) && Exec(Step(w, e), run) == v;
    assert ([e] + run)[1..] == run;
    Peel(w, [e] + run);
  }

  lemma {:induction false} ReachesAlong(w: World, run: seq<Event>, v: World)
    requires Feasible(w, run) && Reaches(Exec(w, run), v)
    ensures Reaches(w, v)
    decreases |run|
  {
    hide Reaches, Step, Enabled;
    if run == [] {
    } else {
      ReachesAlong(Step(w, run[0]), run[1..], v);
      ReachesStep(w, run[0], v);
    }
  }

  lemma ReachesJoin(w: World, u: World, v: World)
    requires Reaches(w, u) && Reaches(u, v)
    ensures Reaches(w, v)
  {
    var run :| Feasible(w, run) && Exec(w, run) == u;
    ReachesAlong(w, run, v);
  }

  /** Both worlds have the same deploys under way. */
  predicate SameJobs(w: World, v: World) {
    v.jobs == w.jobs
  }

  /** The deploy of a host, as it was read, that has written record `id`. */
  function Written(w: World, h: HostId, edge: Edge, id: RecordId): Job
    requires h in w.s.rows && w.s.rows[h].zone.Some?
  {
    var row := w.s.rows[h];
    Deploying(h, DnsRecord(row.zone.value, row.hostname, edge), row.record, Wrote(id))
  }

  /** Without a live record a deploy gets to the point where it has created one. */
  lemma DeployCreates(w: World, h: HostId, edge: Edge) returns (v: World)
    requires Sound(w) && h in w.s.rows && w.s.rows[h].zone.Some? && !edge.HostPort? && !HasLiveRecord(w.s, h)
    ensures Reaches(w, v)
    ensures v == World(CreateRecord(w.s, Written(w, h, edge, 0).record), w.maker[w.s.nextRecord := h],
                       w.jobs[w.next := Written(w, h, edge, w.s.nextRecord)], w.next + 1)
  {
    hide Sound;
    var j := w.next;
    var w1 := Step(w, BeginDeploy(h, edge));
    var w2 := Step(w1, UpdateRemote(j));
    v := Step(w2, CreateRemote(j));
    assert v.jobs == w.jobs[w.next := Written(w, h, edge, w.s.nextRecord)];
    hide Reaches;
    ReachesSelf(v);
    ReachesStep(w2, CreateRemote(j), v);
    ReachesStep(w1, UpdateRemote(j), v);
    ReachesStep(w, BeginDeploy(h, edge), v);
  }

  /** With a live record a deploy gets to the point where it has updated it. */
  lemma DeployUpdates(w: World, h: HostId, edge: Edge) returns (v: World)
    requires Sound(w) && !edge.HostPort? && HasLiveRecord(w.s, h)
    ensures Reaches(w, v)
    ensures var id := w.s.rows[h].record.value;
            v == World(w.s.(remote := w.s.remote[id := Written(w, h, edge, id).record]), w.maker,
                       w.jobs[w.next := Written(w, h, edge, id)], w.next + 1)
  {
    hide Sound;
    var j, id := w.next, w.s.rows[h].record.value;
    var w1 := Step(w, BeginDeploy(h, edge));
    v := Step(w1, UpdateRemote(j));
    assert v.jobs == w.jobs[w.next := Written(w, h, edge, id)];
    hide Reaches;
    ReachesSelf(v);
    ReachesStep(w1, UpdateRemote(j), v);
    ReachesStep(w, BeginDeploy(h, edge), v);
  }

  lemma DeployIsARun(w: World, h: HostId, provider: Provider, api: Api) returns (v: World)
    requires Sound(w)
    ensures Reaches(w, v) && SameJobs(w, v) && v.s == Deploy(w.s, h, provider, api).0
  {
    hide Reaches;
    if Deploy(w.s, h, provider, api).0 == w.s {
      ReachesSelf(w);
      return w;
    }
    assert w.next !in w.jobs;
    hide Sound;
    var u;
    if HasLiveRecord(w.s, h) {
      u := DeployUpdates(w, h, provider.edge.value);
    } else {
      u := DeployCreates(w, h, provider.edge.value);
    }
    v := Step(u, PersistId(w.next));
    assert v.jobs == w.jobs;
    ReachesSelf(v);
    ReachesStep(u, PersistId(w.next), v);
    ReachesJoin(w, u, v);
  }

  lemma UndeployIsARun(w: World, h: HostId, api: Api) returns (v: World)
    requires Sound(w)
    ensures Reaches(w, v) && SameJobs(w, v) && v.s == Undeploy(w.s, h, api)
  {
    if Undeploy(w.s, h, api) == w.s {
      ReachesSelf(w);
      return w;
    }
    var j := w.next;
    var w1 := Step(w, BeginUndeploy(h));
    v := Step(w1, DeleteRemote(j));
    assert v.jobs == w.jobs;
    ReachesSelf(v);
    ReachesStep(w1, DeleteRemote(j), v);
    ReachesStep(w, BeginUndeploy(h), v);
  }

  lemma {:induction false} RunKeepsSound(w: World, run: seq<Event>)
    requires Sound(w) && Feasible(w, run)
    ensures Sound(Exec(w, run))
    decreases |run|
  {
    hide Sound, Step, Enabled;
    if run == [] {
    } else {
      StepKeepsSound(w, run[0]);
      RunKeepsSound(Step(w, run[0]), run[1..]);
    }
  }

  lemma ReachesSound(w: World, v: World)
    requires Sound(w) && Reaches(w, v)
    ensures Sound(v)
  {
    var run :| Feasible(w, run) && Exec(w, run) == v;
    RunKeepsSound(w, run);
  }

  lemma EventIsARun(w: World, e: Event) returns (v: World)
    requires Enabled(w, e)
    ensures Reaches(w, v) && v == Step(w, e)
  {
    v := Step(w, e);
    ReachesSelf(v);
    ReachesStep(w, e, v);
  }

  lemma PutIsARun(w: World, h: HostId, e: Edit, teardown: Api, provider: Provider, api: Api) returns (v: World)
    requires Sound(w)
    ensures Reaches(w, v) && SameJobs(w, v) && v.s == PutHost(w.s, h, e, teardown, provider, api)
  {
    hide Reaches, Sound, Undeploy, Deploy;
    ReachesSelf(w);
    if h !in w.s.rows || !Accepted(w.s, w.s.rows[h], e) {
      return w;
    }
    var row, u := w.s.rows[h], w;
    if TunnelChanging(row, e) || ZoneChanging(row, e) {
      u := UndeployIsARun(w, h, teardown);
      UndeployLeavesRows(w.s, h, teardown);
    }
    ReachesSound(w, u);
    var t := EventIsARun(u, Alter(h, Edited(row, e)));
    ReachesSound(u, t);
    v := DeployIsARun(t, h, provider, api);
    ReachesJoin(u, t, v);
    ReachesJoin(w, u, v);
  }

  lemma UndeployLeavesRows(s: Stores, h: HostId, api: Api)
    ensures Undeploy(s, h, api).rows == s.rows
  {
  }

  lemma CreateIsARun(w: World, row: Row, placementOk: bool, provider: Provider, api: Api) returns (v: World)
    requires Sound(w)
    ensures Reaches(w, v) && SameJobs(w, v) && v.s == CreateHost(w.s, row, placementOk, provider, api)
  {
    hide Reaches, Sound, Deploy;
    ReachesSelf(w);
    if CreateRefused(w.s, row, placementOk) {
      return w;
    }
    var u := EventIsARun(w, Insert(row.(enabled := true, record := None)));
    ReachesSound(w, u);
    v := DeployIsARun(u, w.s.nextHost, provider, api);
    ReachesJoin(w, u, v);
  }

  lemma DeleteIsARun(w: World, h: HostId, api: Api) returns (v: World)
    requires Sound(w)
    ensures Reaches(w, v) && SameJobs(w, v) && v.s == DeleteHost(w.s, h, api)
  {
    hide Reaches, Sound, Undeploy;
    var u := UndeployIsARun(w, h, api);
    v := EventIsARun(u, Remove(h));
    ReachesJoin(w, u, v);
  }

  lemma ToggleIsARun(w: World, h: HostId, provider: Provider, api: Api) returns (v: World)
    requires Sound(w)
    ensures Reaches(w, v) && SameJobs(w, v) && v.s == ToggleHost(w.s, h, provider, api)
  {
    hide Reaches, Sound, Undeploy, Deploy;
    ReachesSelf(w);
    if h !in w.s.rows {
      return w;
    }
    var row := w.s.rows[h];
    var u := EventIsARun(w, Alter(h, row.(enabled := !row.enabled)));
    ReachesSound(w, u);
    if !row.enabled {
      v := DeployIsARun(u, h, provider, api);
    } else if row.tunnel.Some? {
      v := UndeployIsARun(u, h, api);
    } else {
      v := u;
      ReachesSelf(u);
    }
    ReachesJoin(w, u, v);
  }

  /** A request that nothing interrupts, its deploy included, is one of the runs. */
  lemma RequestIsARun(w: World, q: Request) returns (v: World)
    requires Sound(w)
    ensures Reaches(w, v) && SameJobs(w, v) && v.s == Handle(w.s, q)
  {
    hide Reaches, Sound, Undeploy, Deploy;
    match q
    case Create(row, placementOk, provider, api) => v := CreateIsARun(w, row, placementOk, provider, api);
    case Redeploy(h, provider, api) => v := DeployIsARun(w, h, provider, api);
    case Put(h, e, teardown, provider, api) => v := PutIsARun(w, h, e, teardown, provider, api);
    case Delete(h, api) => v := DeleteIsARun(w, h, api);
    case Toggle(h, provider, api) => v := ToggleIsARun(w, h, provider, api);
    case _ => v := EventIsARun(w, Elsewhere(q));
  }

  /**
   Every host without a live record can lose one: deploy it, delete it while the deploy is about to
   write the id of the record it created, and let it write.
   */
  lemma DeployOverDelete(w: World, h: HostId, edge: Edge) returns (v: World)
    requires Sound(w) && h in w.s.rows && w.s.rows[h].zone.Some?
    requires !HasLiveRecord(w.s, h) && !edge.HostPort?
    ensures Reaches(w, v) && SameJobs(w, v) && h !in v.s.rows && !AllKept(v)
  {
    var id := w.s.nextRecord;
    assert w.next !in w.jobs && id !in w.maker;
    assert forall j <- w.jobs :: JobWf(w, w.jobs[j]) && !Writes(w.jobs[j], id);
    hide Reaches, Sound, JobWf;
    var u := DeployCreates(w, h, edge);
    v := LateWriteAfterDelete(u, w.next);
    assert v.jobs == w.jobs;
    assert id in v.s.remote && id in v.maker && !Kept(v, id);
    ReachesJoin(w, u, v);
  }

  /** The row is deleted and then the deploy writes: no row changes. */
  lemma LateWriteAfterDelete(u: World, j: JobId) returns (v: World)
    requires Deploys(u, j) && u.jobs[j].phase.Wrote?
    ensures Reaches(u, v)
    ensures v == u.(s := u.s.(rows := u.s.rows - {u.jobs[j].host}), jobs := u.jobs - {j})
  {
    hide Reaches;
    var t := EventIsARun(u, Remove(u.jobs[j].host));
    v := EventIsARun(t, PersistId(j));
    ReachesJoin(u, t, v);
  }
}
