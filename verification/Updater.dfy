/**
 The self-update pipeline: lock, download, verify, hand off. What the file system, GitHub and
 gpg answer is an argument; calls do not overlap.
 */
module Updater {
  import opened Prelude
  import opened Text

  const STALE_LOCK_MS: nat := 1_800_000
  const EMIT_EVERY_MS: nat := 200

  // ------------------------------------------------------------------------
  // Progress
  // ------------------------------------------------------------------------

  datatype Step =
    | AcquireLock
    | DownloadArchive
    | DownloadSha
    | DownloadSig
    | VerifySha
    | VerifyGpg
    | SpawnApply
    | ApplyRunning
    | Failed

  function StartOf(step: Step): int {
    match step
    case AcquireLock => 0
    case DownloadArchive => 2
    case DownloadSha => 50
    case DownloadSig => 52
    case VerifySha => 54
    case VerifyGpg => 58
    case SpawnApply => 62
    case ApplyRunning => 65
    case Failed => 0
  }

  function EndOf(step: Step): int {
    match step
    case AcquireLock => 2
    case DownloadArchive => 50
    case DownloadSha => 52
    case DownloadSig => 54
    case VerifySha => 58
    case VerifyGpg => 62
    case SpawnApply => 65
    case ApplyRunning => 95
    case Failed => 0
  }

  /** JavaScript's `Math.round`. */
  function Round(x: real): int {
    (x + 0.5).Floor
  }

  function Clamp(f: real): real {
    if f < 0.0 then 0.0 else if f > 1.0 then 1.0 else f
  }

  function Overall(step: Step, fraction: real): int {
    Round(StartOf(step) as real + (EndOf(step) - StartOf(step)) as real * Clamp(fraction))
  }

  /** The rounded interpolation stays within the step and never runs backwards. */
  lemma OverallIsMonotone(step: Step, f: real, g: real)
    requires Clamp(f) <= Clamp(g)
    ensures StartOf(step) <= Overall(step, f) <= Overall(step, g) <= EndOf(step)
    ensures f <= 0.0 ==> Overall(step, f) == StartOf(step)
    ensures f >= 1.0 ==> Overall(step, f) == EndOf(step)
  {
    var d := (EndOf(step) - StartOf(step)) as real;
    assert d * Clamp(f) <= d * Clamp(g) <= d * 1.0;
    assert 0.0 <= d * Clamp(f);
    assert d * 0.0 == 0.0;
  }

  /** A progress bar: values in 0..100 that never decrease. */
  predicate Climbs(bar: seq<int>) {
    && (forall i :: 0 <= i < |bar| ==> 0 <= bar[i] <= 100)
    && (forall i, j :: 0 <= i < j < |bar| ==> bar[i] <= bar[j])
  }

  /** The bar climbs and has not passed `top`. */
  predicate ClimbsTo(bar: seq<int>, top: int) {
    Climbs(bar) && (bar != [] ==> bar[|bar| - 1] <= top)
  }

  lemma ClimbsHigher(bar: seq<int>, top: int)
    requires ClimbsTo(bar, top)
    ensures forall higher :: top <= higher ==> ClimbsTo(bar, higher)
  {
  }

  // ------------------------------------------------------------------------
  // The environment
  // ------------------------------------------------------------------------

  /** The lock file; its content may not parse as a number. */
  datatype LockFile = Absent | Present(stamp: Option<int>)

  /** A chunk of the archive and when it arrived. */
  datatype Chunk = Chunk(size: nat, at: nat)

  /** `total` is the announced length, if there is one and it is a number. */
  datatype Download = Download(chunks: seq<Chunk>, total: Option<int>, completes: bool)

  datatype Env = Env(
    now: nat,
    versionOk: bool,
    disabled: bool,
    stagingOk: bool, // creating the staging directory succeeds
    archive: Option<Download>, // None: the request fails
    archiveHash: string,
    sidecar: Option<string>, // None: the checksum file could not be downloaded
    signed: bool, // a signature file is in place once its download was tried
    gpgOk: bool,
    applierPresent: bool,
    unlinkOk: bool) // the lock file can be deleted

  /** The first word of the checksum file. */
  function FirstWord(s: string): string {
    TakeWord(Trim(s))
  }

  function TakeWord(s: string): string {
    if s == [] || IsSpace(s[0]) then [] else [s[0]] + TakeWord(s[1..])
  }

  lemma {:induction false} TakeWordSplits(s: string) returns (rest: string)
    ensures s == TakeWord(s) + rest && (forall c <- TakeWord(s) :: !IsSpace(c))
    ensures rest != [] ==> IsSpace(rest[0])
  {
    rest := s;
    if s != [] && !IsSpace(s[0]) {
      rest := TakeWordSplits(s[1..]);
    }
  }

  /** The checksum is the first stretch without white space; it is empty only if there is none. */
  lemma FirstWordExactly(s: string) returns (before: string, rest: string)
    ensures s == before + FirstWord(s) + rest
    ensures (forall c <- before :: IsSpace(c)) && (forall c <- FirstWord(s) :: !IsSpace(c))
    ensures rest != [] ==> IsSpace(rest[0])
    ensures FirstWord(s) == "" ==> forall c <- s :: IsSpace(c)
  {
    var after;
    before, after := TrimTakesSpace(s);
    TrimTrims(s);
    rest := TakeWordSplits(Trim(s));
    hide Trim, TakeWord;
    assert s == before + FirstWord(s) + (rest + after);
    if FirstWord(s) == "" {
      assert Trim(s) == rest;
    }
    rest := rest + after;
  }

  predicate Held(lock: LockFile, now: nat) {
    lock.Present? && lock.stamp.Some? && now - lock.stamp.value < STALE_LOCK_MS
  }

  /** Everything the try block needs in order to reach the hand-off. */
  predicate Verified(env: Env) {
    && env.archive.Some? && env.archive.value.completes
    && env.sidecar.Some?
    && env.archiveHash == FirstWord(env.sidecar.value) != ""
    && (env.signed ==> env.gpgOk)
    && env.applierPresent
  }

  datatype Outcome = Rejected | LockHeld | NoStaging | Aborted | Dispatched

  function OutcomeOf(lock: LockFile, env: Env): Outcome {
    if !env.versionOk || env.disabled then Rejected
    else if Held(lock, env.now) then LockHeld
    else if !env.stagingOk then NoStaging
    else if !Verified(env) then Aborted
    else Dispatched
  }

  function LockAfter(lock: LockFile, env: Env): LockFile {
    match OutcomeOf(lock, env)
    case Rejected => lock
    case LockHeld => lock
    case NoStaging => Present(Some(env.now))
    case Aborted => if env.unlinkOk then Absent else Present(Some(env.now))
    case Dispatched => Present(Some(env.now))
  }

  /** What an install comes to: each reason not to dispatch, in the order in which it is noticed. */
  lemma OutcomeExactly(lock: LockFile, env: Env)
    ensures var r := OutcomeOf(lock, env);
            var held := lock.Present? && lock.stamp.Some? && env.now - lock.stamp.value < 1_800_000;
            && (r == Rejected <==> !env.versionOk || env.disabled)
            && (r == LockHeld <==> env.versionOk && !env.disabled && held)
            && (r == NoStaging <==> env.versionOk && !env.disabled && !held && !env.stagingOk)
            && (r == Dispatched <==>
                && env.versionOk && !env.disabled && !held && env.stagingOk
                && env.archive.Some? && env.archive.value.completes
                && env.sidecar.Some? && env.archiveHash == FirstWord(env.sidecar.value) && env.archiveHash != ""
                && (!env.signed || env.gpgOk) && env.applierPresent)
    ensures var r := OutcomeOf(lock, env);
            LockAfter(lock, env) ==
            if r == Rejected || r == LockHeld then lock
            else if r == Aborted && env.unlinkOk then Absent else Present(Some(env.now))
  {
  }

  // ------------------------------------------------------------------------
  // The service
  // ------------------------------------------------------------------------

  class UpdateService {
    var lock: LockFile
    var bar: seq<int> // overall_progress of every event of the current install
    var dispatched: nat // how often apply-update.sh was started

    method SetStep(step: Step, fraction: real)
      modifies `bar
      ensures bar == old(bar) + [Overall(step, fraction)]
    {
      bar := bar + [Overall(step, fraction)];
    }

    method AcquireUpdateLock(now: nat) returns (ok: bool)
      modifies `lock
      ensures ok <==> !Held(old(lock), now)
      ensures lock == if ok then Present(Some(now)) else old(lock)
    {
      if lock.Present? {
        var ts := lock.stamp;
        // An unparsable stamp is NaN, and every comparison with NaN is false.
        if ts.Some? && now - ts.value < STALE_LOCK_MS {
          return false;
        }
      }
      lock := Present(Some(now));
      return true;
    }

    /** Streams the archive, reporting progress at most every 200 ms; `false` when it breaks off. */
    method DownloadArchiveFile(download: Download) returns (ok: bool)
      requires ClimbsTo(bar, 2)
      modifies `bar
      ensures ok == download.completes
      ensures ClimbsTo(bar, 50) && old(bar) <= bar
    {
      var received, lastEmit: int := 0, 0;
      OverallIsMonotone(DownloadArchive, 0.0, 0.0);
      for n := 0 to |download.chunks|
        invariant received >= 0
        invariant old(bar) <= bar
        invariant ClimbsTo(bar, Overall(DownloadArchive, FractionOf(received, download.total)))
        invariant 2 <= Overall(DownloadArchive, FractionOf(received, download.total)) <= 50
      {
        var before := received;
        received := received + download.chunks[n].size;
        FractionGrows(before, received, download.total);
        OverallIsMonotone(DownloadArchive, FractionOf(before, download.total), FractionOf(received, download.total));
        if download.chunks[n].at - lastEmit > EMIT_EVERY_MS {
          lastEmit := download.chunks[n].at;
          SetStep(DownloadArchive, FractionOf(received, download.total));
        }
      }
      return download.completes;
    }

    /** The start and the end of a step that does not interpolate. */
    method Begin(step: Step)
      requires ClimbsTo(bar, StartOf(step))
      modifies `bar
      ensures ClimbsTo(bar, StartOf(step)) && bar == old(bar) + [StartOf(step)]
    {
      OverallIsMonotone(step, 0.0, 0.0);
      SetStep(step, 0.0);
    }

    method Complete(step: Step)
      requires ClimbsTo(bar, EndOf(step))
      modifies `bar
      ensures ClimbsTo(bar, EndOf(step)) && bar == old(bar) + [EndOf(step)]
    {
      OverallIsMonotone(step, 1.0, 1.0);
      SetStep(step, 1.0);
    }

    /** The try block; `false` when it throws. */
    method RunPipeline(env: Env) returns (ok: bool)
      requires ClimbsTo(bar, 2)
      modifies `bar, `dispatched
      ensures ok <==> Verified(env)
      ensures dispatched == old(dispatched) + if ok then 1 else 0
      ensures ClimbsTo(bar, 65) && old(bar) <= bar
      ensures ok ==> bar != [] && bar[|bar| - 1] == 65
    {
      hide ClimbsTo, FirstWord;
      ok := Fetch(env);
      if ok {
        ok := Verify(env);
      }
      if ok {
        ok := HandOff(env);
      }
    }

    method Fetch(env: Env) returns (ok: bool)
      requires ClimbsTo(bar, 2)
      modifies `bar
      ensures ok <==> env.archive.Some? && env.archive.value.completes && env.sidecar.Some?
      ensures ClimbsTo(bar, 54) && ClimbsTo(bar, 65) && old(bar) <= bar
    {
      hide ClimbsTo;
      Begin(DownloadArchive);
      ClimbsHigher(bar, 2);
      if env.archive.None? {
        return false;
      }
      var complete := DownloadArchiveFile(env.archive.value);
      ClimbsHigher(bar, 50);
      if !complete {
        return false;
      }
      Complete(DownloadArchive);
      Begin(DownloadSha);
      ClimbsHigher(bar, 50);
      if env.sidecar.None? {
        return false;
      }
      Complete(DownloadSha);
      Begin(DownloadSig);
      // A missing signature is tolerated.
      Complete(DownloadSig);
      ClimbsHigher(bar, 54);
      return true;
    }

    method Verify(env: Env) returns (ok: bool)
      requires ClimbsTo(bar, 54) && env.sidecar.Some?
      modifies `bar
      ensures ok <==> env.archiveHash == FirstWord(env.sidecar.value) != "" && (env.signed ==> env.gpgOk)
      ensures ClimbsTo(bar, 62) && ClimbsTo(bar, 65) && old(bar) <= bar
    {
      hide ClimbsTo, FirstWord;
      Begin(VerifySha);
      ClimbsHigher(bar, 54);
      var expected := FirstWord(env.sidecar.value);
      if expected == "" || env.archiveHash != expected {
        return false;
      }
      Complete(VerifySha);
      Begin(VerifyGpg);
      ClimbsHigher(bar, 58);
      if env.signed && !env.gpgOk {
        return false;
      }
      Complete(VerifyGpg);
      ClimbsHigher(bar, 62);
      return true;
    }

    method HandOff(env: Env) returns (ok: bool)
      requires ClimbsTo(bar, 62)
      modifies `bar, `dispatched
      ensures ok == env.applierPresent
      ensures dispatched == old(dispatched) + if ok then 1 else 0
      ensures ClimbsTo(bar, 65) && old(bar) <= bar
      ensures ok ==> bar != [] && bar[|bar| - 1] == 65
    {
      Begin(SpawnApply);
      if !env.applierPresent {
        return false;
      }
      dispatched := dispatched + 1;
      Complete(SpawnApply);
      Begin(ApplyRunning);
      return true;
    }

    /**
     The applier is started exactly when the lock was free and everything verified. A failure
     inside the try block leaves no lock unless the file cannot be deleted, which is swallowed; a
     failure after locking but before the try block leaves it held. The bar climbs within 0..100
     until a failure resets it to zero.
     */
    method TriggerInstall(env: Env) returns (r: Outcome)
      modifies this
      ensures r == OutcomeOf(old(lock), env)
      ensures lock == LockAfter(old(lock), env)
      ensures dispatched == old(dispatched) + if r == Dispatched then 1 else 0
      ensures r == Dispatched ==> Climbs(bar) && lock == Present(Some(env.now))
      ensures r == Dispatched ==> bar != [] && bar[0] == 2 && bar[|bar| - 1] == 65
      ensures r == Aborted || r == LockHeld ==> bar != [] && bar[|bar| - 1] == 0 && Climbs(bar[..|bar| - 1])
      ensures r == Rejected ==> bar == old(bar)
    {
      if !env.versionOk || env.disabled {
        return Rejected;
      }
      bar := [];
      OverallIsMonotone(AcquireLock, 1.0, 1.0);
      OverallIsMonotone(Failed, 0.0, 0.0);
      SetStep(AcquireLock, 1.0);
      var acquired := AcquireUpdateLock(env.now);
      if !acquired {
        SetStep(Failed, 0.0);
        assert bar[..|bar| - 1] == [2];
        return LockHeld;
      }
      if !env.stagingOk {
        return NoStaging;
      }
      var ok := RunPipeline(env);
      if !ok {
        ghost var climbed := bar;
        SetStep(Failed, 0.0);
        assert bar[..|bar| - 1] == climbed;
        ReleaseLock(env.unlinkOk);
        return Aborted;
      }
      return Dispatched;
    }

    method ReleaseLock(unlinkOk: bool)
      modifies `lock
      ensures lock == if unlinkOk then Absent else old(lock)
    {
      if unlinkOk {
        lock := Absent;
      }
    }
  }

  /** The download's fraction; an absent or zero total counts as no progress. */
  function FractionOf(received: int, total: Option<int>): real {
    if total.None? || total.value == 0 then 0.0 else received as real / total.value as real
  }

  lemma FractionGrows(before: int, after: int, total: Option<int>)
    requires 0 <= before <= after
    ensures Clamp(FractionOf(before, total)) <= Clamp(FractionOf(after, total))
  {
    if total.Some? && total.value != 0 {
      QuotientGrows(before as real, after as real, total.value as real);
    }
  }

  lemma QuotientGrows(x: real, y: real, t: real)
    requires 0.0 <= x <= y && t != 0.0
    ensures t > 0.0 ==> x / t <= y / t
    ensures t < 0.0 ==> x / t <= 0.0 && y / t <= 0.0
  {
    var q, r := x / t, y / t;
    assert q * t == x && r * t == y;
    assert t > 0.0 && q > r ==> q * t > r * t;
    assert t < 0.0 && q > 0.0 ==> q * t < 0.0;
    assert t < 0.0 && r > 0.0 ==> r * t < 0.0;
  }

  // ------------------------------------------------------------------------
  // Sequences of installs
  // ------------------------------------------------------------------------

  /**
   The lock is held after an install that was not dispatched and did not find it held exactly if
   the staging directory could not be created, or the try block failed and the file stayed.
   */
  lemma LockLeaksExactly(lock: LockFile, env: Env)
    requires OutcomeOf(lock, env) != Dispatched && !Held(lock, env.now)
    ensures Held(LockAfter(lock, env), env.now) <==>
            && env.versionOk && !env.disabled
            && (!env.stagingOk || (!Verified(env) && !env.unlinkOk))
  {
  }

  function LockAfterAll(lock: LockFile, installs: seq<Env>): LockFile {
    if installs == [] then lock
    else LockAfter(LockAfterAll(lock, installs[..|installs| - 1]), installs[|installs| - 1])
  }

  ghost predicate InTimeOrder(installs: seq<Env>) {
    forall i, j :: 0 <= i < j < |installs| ==> installs[i].now <= installs[j].now
  }

  /** After a dispatch at `since`, either its lock or a later one is in place, or it has gone stale. */
  lemma {:induction false} LockGuards(lock: LockFile, installs: seq<Env>, since: nat)
    requires lock == Present(Some(since)) && InTimeOrder(installs)
    requires forall e <- installs :: since <= e.now
    ensures var l := LockAfterAll(lock, installs);
            || (l.Present? && l.stamp.Some? && since <= l.stamp.value)
            || (installs != [] && since + STALE_LOCK_MS <= installs[|installs| - 1].now)
  {
    if installs == [] {
    } else {
      assert installs[|installs| - 1] in installs;
      assert forall e <- installs[..|installs| - 1] :: e in installs;
      LockGuards(lock, installs[..|installs| - 1], since);
    }
  }

  /**
   Unless the applier removes the lock in between, two installs that dispatch started at least
   half an hour apart, whatever other installs were tried between them.
   */
  lemma DispatchesAreSpaced(lock: LockFile, first: Env, between: seq<Env>, second: Env)
    requires OutcomeOf(lock, first) == Dispatched
    requires InTimeOrder([first] + between + [second])
    requires OutcomeOf(LockAfterAll(LockAfter(lock, first), between), second) == Dispatched
    ensures first.now + STALE_LOCK_MS <= second.now
  {
    var all := [first] + between + [second];
    forall i, j | 0 <= i < j < |between| ensures between[i].now <= between[j].now {
      assert all[i + 1] == between[i] && all[j + 1] == between[j];
    }
    forall e <- between ensures first.now <= e.now <= second.now {
      var i :| 0 <= i < |between| && between[i] == e;
      assert all[0] == first && all[i + 1] == e && all[|all| - 1] == second;
    }
    assert all[0] == first && all[|all| - 1] == second;
    LockGuards(LockAfter(lock, first), between, first.now);
  }
}
