/** Session tokens against password changes, and one-time codes against replay. */
module Sessions {
  import opened Prelude
  import opened Text

  const STEP_MS: nat := 30_000

  // ------------------------------------------------------------------------
  // Tokens
  // ------------------------------------------------------------------------

  /** The `tokens_valid_after` column: null, a date that does not parse, or a time in ms. */
  datatype Stamp = Never | Unparsable | Since(ms: nat)

  /** The second that a time in ms lies in. */
  function Second(ms: nat): nat {
    ms / 1000
  }

  /** Issue times have one-second resolution; a token may lack one. */
  datatype Claims = Claims(iat: Option<nat>)

  predicate IsTokenRevoked(claims: Claims, validAfter: Stamp) {
    match validAfter
    case Never => false
    case Unparsable => false
    case Since(ms) => claims.iat.None? || claims.iat.value < Second(ms)
  }

  /**
   What happens to one account, each with the time at which it happens. A login reads the row and
   checks the password, and issues its token later, after a hash and perhaps a second factor.
   */
  datatype Event =
    | CheckPassword(now: nat)
    | Login(now: nat, check: nat) // issues the token of the check-th check
    | Change(now: nat) // a password change writes the row
    | Reissue(now: nat, change: nat) // the token that the change-th change hands back

  /** A check that succeeded, and how many changes had been written when the row was read. */
  datatype Check = Check(at: nat, basis: nat)

  /** `basis`: the token was obtained with the password that the first so many changes had set. */
  datatype Token = Token(claims: Claims, at: nat, change: Option<nat>, checkedAt: nat, basis: nat)

  datatype Account = Account(clock: nat, validAfter: Stamp, changes: seq<nat>, checks: seq<Check>, tokens: seq<Token>)

  const FRESH: Account := Account(0, Never, [], [], [])

  predicate Enabled(a: Account, e: Event) {
    && a.clock <= e.now
    && (e.Login? ==> e.check < |a.checks|)
    && (e.Reissue? ==> e.change < |a.changes|)
  }

  function Issue(a: Account, now: nat, change: Option<nat>, checkedAt: nat, basis: nat): Account {
    a.(tokens := a.tokens + [Token(Claims(Some(Second(now))), now, change, checkedAt, basis)])
  }

  function Step(a0: Account, e: Event): Account
    requires Enabled(a0, e)
  {
    var a := a0.(clock := e.now);
    match e
    case CheckPassword(now) => a.(checks := a.checks + [Check(now, |a.changes|)])
    case Login(now, c) => Issue(a, now, None, a.checks[c].at, a.checks[c].basis)
    case Change(now) => a.(validAfter := Since(now), changes := a.changes + [now])
    case Reissue(now, k) => Issue(a, now, Some(k), a.changes[k], k + 1)
  }

  predicate Feasible(a: Account, run: seq<Event>)
    decreases |run|
  {
    run == [] || (Enabled(a, run[0]) && Feasible(Step(a, run[0]), run[1..]))
  }

  function Exec(a: Account, run: seq<Event>): Account
    requires Feasible(a, run)
    decreases |run|
  {
    if run == [] then a else Exec(Step(a, run[0]), run[1..])
  }

  /** Changes happen in the order of the clock. */
  ghost predicate Ordered(changes: seq<nat>, clock: nat) {
    && (forall i, j :: 0 <= i < j < |changes| ==> changes[i] <= changes[j])
    && (forall i :: 0 <= i < |changes| ==> changes[i] <= clock)
  }

  /** The first `basis` changes came before `at`, the others after it. */
  ghost predicate Splits(changes: seq<nat>, basis: nat, at: nat) {
    && basis <= |changes|
    && (forall k :: 0 <= k < basis ==> changes[k] <= at)
    && (forall k :: basis <= k < |changes| ==> at <= changes[k])
  }

  ghost predicate TokenOk(t: Token, changes: seq<nat>) {
    && t.claims.iat == Some(Second(t.at))
    && (t.change.Some? ==> t.change.value < |changes| && changes[t.change.value] <= t.at)
    && Splits(changes, t.basis, t.checkedAt)
  }

  /** The column holds the time of the last change. */
  ghost predicate Inv(a: Account) {
    && a.validAfter == (if a.changes == [] then Never else Since(a.changes[|a.changes| - 1]))
    && Ordered(a.changes, a.clock)
    && (forall i :: 0 <= i < |a.checks| ==>
          a.checks[i].at <= a.clock && Splits(a.changes, a.checks[i].basis, a.checks[i].at))
    && (forall i :: 0 <= i < |a.tokens| ==> a.tokens[i].checkedAt <= a.clock && TokenOk(a.tokens[i], a.changes))
  }

  /** One more change, at or after everything else. */
  lemma SplitsGrow(changes: seq<nat>, basis: nat, at: nat, now: nat)
    requires Splits(changes, basis, at) && at <= now
    ensures Splits(changes + [now], basis, at)
  {
  }

  lemma ChangeKeepsInv(a: Account, now: nat)
    requires Inv(a) && a.clock <= now
    ensures Inv(Step(a, Change(now)))
  {
    var b := Step(a, Change(now));
    forall i | 0 <= i < |a.checks| ensures Splits(b.changes, a.checks[i].basis, a.checks[i].at) {
      SplitsGrow(a.changes, a.checks[i].basis, a.checks[i].at, now);
    }
    forall i | 0 <= i < |a.tokens| ensures TokenOk(a.tokens[i], b.changes) {
      assert TokenOk(a.tokens[i], a.changes);
      SplitsGrow(a.changes, a.tokens[i].basis, a.tokens[i].checkedAt, now);
    }
    hide Splits;
  }

  lemma IssueKeepsInv(a: Account, e: Event)
    requires Inv(a) && Enabled(a, e) && !e.Change?
    ensures Inv(Step(a, e))
  {
    var b := Step(a, e);
    if e.CheckPassword? {
      assert Splits(a.changes, |a.changes|, e.now);
    } else {
      var t := b.tokens[|a.tokens|];
      assert Splits(a.changes, t.basis, t.checkedAt);
      assert TokenOk(t, a.changes);
    }
    hide Splits, TokenOk;
  }

  lemma StepKeepsInv(a: Account, e: Event)
    requires Inv(a) && Enabled(a, e)
    ensures Inv(Step(a, e))
  {
    if e.Change? {
      ChangeKeepsInv(a, e.now);
    } else {
      IssueKeepsInv(a, e);
    }
  }

  lemma {:induction false} RunKeepsInv(a: Account, run: seq<Event>)
    requires Inv(a) && Feasible(a, run)
    ensures Inv(Exec(a, run))
    decreases |run|
  {
    if run == [] {
    } else {
      StepKeepsInv(a, run[0]);
      RunKeepsInv(Step(a, run[0]), run[1..]);
    }
  }

  /** The times of the password changes in a run. */
  function Changes(run: seq<Event>): seq<nat> {
    if run == [] then [] else (if run[0].Change? then [run[0].now] else []) + Changes(run[1..])
  }

  /** The times at which a run hands out tokens, at logins and after changes. */
  function Issues(run: seq<Event>): seq<nat> {
    if run == [] then []
    else (if run[0].Login? || run[0].Reissue? then [run[0].now] else []) + Issues(run[1..])
  }

  function IssueTimes(tokens: seq<Token>): seq<nat> {
    seq(|tokens|, i requires 0 <= i < |tokens| => tokens[i].at)
  }

  lemma StepRecords(a: Account, e: Event)
    requires Enabled(a, e)
    ensures Step(a, e).changes == a.changes + Changes([e])
    ensures IssueTimes(Step(a, e).tokens) == IssueTimes(a.tokens) + Issues([e])
  {
    assert [e][1..] == [];
  }

  lemma OneByOne(run: seq<Event>)
    requires run != []
    ensures Changes(run) == Changes([run[0]]) + Changes(run[1..])
    ensures Issues(run) == Issues([run[0]]) + Issues(run[1..])
  {
    var e, rest := run[0], run[1..];
    ChangesCons(e, rest);
    IssuesCons(e, rest);
    assert run == [e] + rest;
  }

  lemma ChangesCons(e: Event, rest: seq<Event>)
    ensures Changes([e] + rest) == Changes([e]) + Changes(rest)
  {
    assert ([e] + rest)[1..] == rest && [e][1..] == [];
  }

  lemma IssuesCons(e: Event, rest: seq<Event>)
    ensures Issues([e] + rest) == Issues([e]) + Issues(rest)
  {
    assert ([e] + rest)[1..] == rest && [e][1..] == [];
  }

  lemma {:induction false} AccountRecordsTheRun(a: Account, run: seq<Event>)
    requires Feasible(a, run)
    ensures Exec(a, run).changes == a.changes + Changes(run)
    ensures IssueTimes(Exec(a, run).tokens) == IssueTimes(a.tokens) + Issues(run)
    decreases |run|
  {
    if run == [] {
      assert Changes(run) == [] && Issues(run) == [];
    } else {
      StepRecords(a, run[0]);
      OneByOne(run);
      AccountRecordsTheRun(Step(a, run[0]), run[1..]);
      hide Step, Changes, Issues, IssueTimes;
    }
  }

  lemma SecondsAreOrdered(s: nat, t: nat)
    requires s <= t
    ensures Second(s) <= Second(t)
  {
  }

  /** Some of the password changes came in a later second than the token, or the token has no time. */
  ghost predicate Outdated(claims: Claims, changes: seq<nat>) {
    exists k :: 0 <= k < |changes| && (claims.iat.None? || claims.iat.value < Second(changes[k]))
  }

  /**
   What the stored time revokes, by the password changes of the run alone: every token that is
   older, in seconds, than one of them, and every token without an issue time once there is one.
   */
  lemma RevokedExactly(run: seq<Event>, claims: Claims)
    requires Feasible(FRESH, run)
    ensures IsTokenRevoked(claims, Exec(FRESH, run).validAfter) <==> Outdated(claims, Changes(run))
  {
    hide Feasible, Exec, Changes, Step, Outdated, IsTokenRevoked;
    RunKeepsInv(FRESH, run);
    AccountRecordsTheRun(FRESH, run);
    assert [] + Changes(run) == Changes(run);
    LatestRevokes(Changes(run), Exec(FRESH, run).clock, claims);
  }

  /** The time of the last change revokes what any of them does. */
  lemma LatestRevokes(changes: seq<nat>, clock: nat, claims: Claims)
    requires Ordered(changes, clock)
    ensures IsTokenRevoked(claims, if changes == [] then Never else Since(changes[|changes| - 1])) <==>
            Outdated(claims, changes)
  {
    hide Second;
    if changes != [] {
      var last := |changes| - 1;
      forall k | 0 <= k < |changes| ensures Second(changes[k]) <= Second(changes[last]) {
        SecondsAreOrdered(changes[k], changes[last]);
      }
    }
  }

  /**
   A token is accepted exactly when no password change happened in a later second than the one
   it was issued in, whoever issued it and whatever happened in between.
   */
  lemma RevocationIsExact(run: seq<Event>, i: nat)
    requires Feasible(FRESH, run) && i < |Issues(run)|
    ensures i < |Exec(FRESH, run).tokens|
    ensures var a := Exec(FRESH, run);
            && a.tokens[i].claims == Claims(Some(Second(Issues(run)[i]))) && a.tokens[i].at == Issues(run)[i]
            && (IsTokenRevoked(a.tokens[i].claims, a.validAfter) <==>
                exists k :: 0 <= k < |Changes(run)| && Second(Issues(run)[i]) < Second(Changes(run)[k]))
  {
    RunKeepsInv(FRESH, run);
    AccountRecordsTheRun(FRESH, run);
    var a := Exec(FRESH, run);
    assert IssueTimes(a.tokens) == Issues(run);
    hide Feasible, Exec, Changes, Issues, Second;
    assert IssueTimes(a.tokens)[i] == a.tokens[i].at;
    assert TokenOk(a.tokens[i], a.changes);
    RevokedExactly(run, a.tokens[i].claims);
  }

  /** The token a change hands back is revoked exactly by a later change in a later second. */
  lemma OwnTokenSurvives(run: seq<Event>, i: nat)
    requires Feasible(FRESH, run) && i < |Exec(FRESH, run).tokens|
    requires Exec(FRESH, run).tokens[i].change.Some?
    ensures var a := Exec(FRESH, run);
            IsTokenRevoked(a.tokens[i].claims, a.validAfter) <==>
            exists k :: a.tokens[i].change.value < k < |a.changes|
                        && Second(a.tokens[i].at) < Second(a.changes[k])
  {
    RunKeepsInv(FRESH, run);
    var a := Exec(FRESH, run);
    hide Feasible, Exec, Second;
    assert TokenOk(a.tokens[i], a.changes);
    LaterChanges(a.changes, a.clock, a.tokens[i].change.value, a.tokens[i].at);
  }

  /** Only changes after the own-th one can be later than a time at or after it. */
  lemma LaterChanges(changes: seq<nat>, clock: nat, own: nat, at: nat)
    requires Ordered(changes, clock) && own < |changes| && changes[own] <= at
    ensures Second(at) < Second(changes[|changes| - 1]) <==>
            exists k :: own < k < |changes| && Second(at) < Second(changes[k])
  {
    hide Second;
    var last := |changes| - 1;
    SecondsAreOrdered(changes[own], at);
    forall k | own < k < |changes| ensures Second(changes[k]) <= Second(changes[last]) {
      SecondsAreOrdered(changes[k], changes[last]);
    }
  }

  /**
   A token is accepted although the password it was obtained with has been replaced, exactly when the
   latest change came after the check of that password, in the order of events if at the same time,
   and no later than the second of the issue.
   */
  lemma OldPasswordExactly(run: seq<Event>, i: nat)
    requires Feasible(FRESH, run) && i < |Exec(FRESH, run).tokens|
    ensures var a := Exec(FRESH, run);
            var t := a.tokens[i];
            (t.basis < |a.changes| && !IsTokenRevoked(t.claims, a.validAfter)) <==>
            (a.changes != []
             && var latest := a.changes[|a.changes| - 1];
                && Second(latest) <= Second(t.at)
                && (t.checkedAt < latest || (t.checkedAt == latest && t.basis < |a.changes|)))
  {
    RunKeepsInv(FRESH, run);
    var a := Exec(FRESH, run);
    assert TokenOk(a.tokens[i], a.changes);
  }

  /** Such a login is possible whenever a change comes between its check and its issue. */
  lemma LoginOverChange(a: Account, checked: nat, changed: nat, issued: nat) returns (run: seq<Event>)
    requires a.clock <= checked <= changed <= issued
    ensures Feasible(a, run)
    ensures var b := Exec(a, run);
            && |b.tokens| == |a.tokens| + 1 && |b.changes| == |a.changes| + 1
            && b.tokens[|a.tokens|].basis < |b.changes|
            && !IsTokenRevoked(b.tokens[|a.tokens|].claims, b.validAfter)
  {
    run := [CheckPassword(checked), Change(changed), Login(issued, |a.checks|)];
    var a1 := Step(a, run[0]);
    var a2 := Step(a1, run[1]);
    var a3 := Step(a2, run[2]);
    SecondsAreOrdered(changed, issued);
    Peel(a3, run[3..]);
    Peel(a2, run[2..]);
    Peel(a1, run[1..]);
    Peel(a, run);
  }

  /** Unfolds a run by one event. */
  lemma Peel(a: Account, run: seq<Event>)
    ensures run == [] ==> Feasible(a, run) && Exec(a, run) == a
    ensures run != [] && Enabled(a, run[0]) && Feasible(Step(a, run[0]), run[1..]) ==>
              Feasible(a, run) && Exec(a, run) == Exec(Step(a, run[0]), run[1..])
  {
  }

  /** Revocation is for ever: no later event brings a token back. */
  lemma {:induction false} RevokedForever(a: Account, run: seq<Event>, claims: Claims)
    requires Inv(a) && Feasible(a, run) && IsTokenRevoked(claims, a.validAfter)
    ensures IsTokenRevoked(claims, Exec(a, run).validAfter)
    decreases |run|
  {
    if run == [] {
    } else {
      StepKeepsInv(a, run[0]);
      assert a.changes != [];
      SecondsAreOrdered(a.changes[|a.changes| - 1], run[0].now);
      RevokedForever(Step(a, run[0]), run[1..], claims);
    }
  }

  // ------------------------------------------------------------------------
  // One-time codes
  // ------------------------------------------------------------------------

  /** A code stands for the secret and the time step it was generated from. */
  datatype Code = Code(secret: string, step: nat)

  /**
   A request at login, enable or disable: the code is verified against `secret` at one moment,
   and the step of a later moment is claimed.
   */
  datatype Attempt = Attempt(code: Code, secret: string, verifiedAt: nat, claimedAt: nat)

  function TotpStepFor(ms: nat): nat {
    ms / STEP_MS
  }

  predicate Verifies(a: Attempt) {
    a.code == Code(a.secret, TotpStepFor(a.verifiedAt))
  }

  /** The conditional UPDATE of `claimTotpStep`. */
  predicate CanClaim(last: Option<nat>, step: nat) {
    last.None? || last.value < step
  }

  predicate Accepts(last: Option<nat>, a: Attempt) {
    Verifies(a) && CanClaim(last, TotpStepFor(a.claimedAt))
  }

  /** The column after a run of attempts in the order of their claims, whatever they were for. */
  function LastStep(last: Option<nat>, run: seq<Attempt>): Option<nat> {
    if run == [] then last
    else
      var before := LastStep(last, run[..|run| - 1]);
      var a := run[|run| - 1];
      if Accepts(before, a) then Some(TotpStepFor(a.claimedAt)) else before
  }

  /** The attempts of the run that were accepted. */
  function Accepted(last: Option<nat>, run: seq<Attempt>): seq<Attempt> {
    if run == [] then []
    else
      Accepted(last, run[..|run| - 1]) +
      if Accepts(LastStep(last, run[..|run| - 1]), run[|run| - 1]) then [run[|run| - 1]] else []
  }

  function StepOf(a: Attempt): nat {
    TotpStepFor(a.claimedAt)
  }

  ghost predicate Climbing(last: Option<nat>, r: seq<Attempt>) {
    && (forall i, j :: 0 <= i < j < |r| ==> StepOf(r[i]) < StepOf(r[j]))
    && (forall i :: 0 <= i < |r| ==> Verifies(r[i]) && CanClaim(last, StepOf(r[i])))
  }

  lemma ClimbsOn(last: Option<nat>, r: seq<Attempt>, a: Attempt)
    requires Climbing(last, r)
    requires Accepts(if r == [] then last else Some(StepOf(r[|r| - 1])), a)
    ensures Climbing(last, r + [a])
  {
    hide TotpStepFor, Verifies;
    if r != [] {
      assert StepOf(r[|r| - 1]) < StepOf(a) && CanClaim(last, StepOf(r[|r| - 1]));
      forall i | 0 <= i < |r| ensures StepOf(r[i]) < StepOf(a) {
        assert i < |r| - 1 ==> StepOf(r[i]) < StepOf(r[|r| - 1]);
      }
    }
  }

  lemma {:induction false} AcceptedClimb(last: Option<nat>, run: seq<Attempt>)
    ensures Climbing(last, Accepted(last, run))
    ensures var r := Accepted(last, run); LastStep(last, run) == if r == [] then last else Some(StepOf(r[|r| - 1]))
  {
    hide Climbing, Accepts, TotpStepFor;
    if run == [] {
      NothingClimbs(last);
    } else {
      var init, a := run[..|run| - 1], run[|run| - 1];
      AcceptedClimb(last, init);
      if Accepts(LastStep(last, init), a) {
        ClimbsOn(last, Accepted(last, init), a);
      } else {
        assert Accepted(last, run) == Accepted(last, init);
      }
    }
  }

  lemma NothingClimbs(last: Option<nat>)
    ensures Climbing(last, [])
  {
  }

  /** Each step is claimed at most once, and steps only go up. */
  lemma ClaimedStepsIncrease(last: Option<nat>, run: seq<Attempt>)
    ensures var r := Accepted(last, run);
            && (forall i, j :: 0 <= i < j < |r| ==> StepOf(r[i]) < StepOf(r[j]))
            && (forall i :: 0 <= i < |r| ==> Verifies(r[i]) && CanClaim(last, StepOf(r[i])))
            && LastStep(last, run) == if r == [] then last else Some(StepOf(r[|r| - 1]))
  {
    AcceptedClimb(last, run);
    hide Accepted, LastStep, StepOf, Verifies, CanClaim;
  }

  /** The clock enters a new step between verifying the code and claiming. */
  predicate Straddles(a: Attempt) {
    TotpStepFor(a.verifiedAt) != TotpStepFor(a.claimedAt)
  }

  predicate InClockOrder(a: Attempt) {
    a.verifiedAt <= a.claimedAt
  }

  lemma StepsAreOrdered(s: nat, t: nat)
    requires s <= t
    ensures TotpStepFor(s) <= TotpStepFor(t)
  {
  }

  /** An accepted attempt that stays within one step has a newer code than every one accepted before it. */
  lemma CodesAreUsedOnce(last: Option<nat>, run: seq<Attempt>, i: nat, j: nat)
    requires i < j < |Accepted(last, run)|
    requires InClockOrder(Accepted(last, run)[i]) && !Straddles(Accepted(last, run)[j])
    ensures Accepted(last, run)[i].code.step < Accepted(last, run)[j].code.step
  {
    ClaimedStepsIncrease(last, run);
    var r := Accepted(last, run);
    assert Verifies(r[i]) && Verifies(r[j]);
    StepsAreOrdered(r[i].verifiedAt, r[i].claimedAt);
  }

  ghost predicate Used(last: Option<nat>, run: seq<Attempt>, code: Code) {
    exists i :: 0 <= i < |Accepted(last, run)| && Accepted(last, run)[i].code == code
  }

  /** The step of the latest accepted attempt. */
  function LatestStep(last: Option<nat>, run: seq<Attempt>): nat
    requires Accepted(last, run) != []
  {
    StepOf(Accepted(last, run)[|Accepted(last, run)| - 1])
  }

  lemma AcceptedAt(last: Option<nat>, run: seq<Attempt>, i: nat)
    requires i < |Accepted(last, run)|
    ensures Verifies(Accepted(last, run)[i]) && StepOf(Accepted(last, run)[i]) <= LatestStep(last, run)
    ensures LastStep(last, run) == Some(LatestStep(last, run))
  {
    ClaimedStepsIncrease(last, run);
    hide Accepted, LastStep, TotpStepFor;
  }

  lemma ReplayOf(last: Option<nat>, run: seq<Attempt>, i: nat, a: Attempt)
    requires i < |Accepted(last, run)| && Accepted(last, run)[i].code == a.code && Verifies(a)
    ensures Accepts(LastStep(last, run), a) <==> LatestStep(last, run) < StepOf(a)
    ensures InClockOrder(Accepted(last, run)[i]) && LatestStep(last, run) < StepOf(a) ==> Straddles(a)
    ensures InClockOrder(a) && LatestStep(last, run) == a.code.step ==>
              (LatestStep(last, run) < StepOf(a) <==> Straddles(a))
  {
    hide Accepted, LastStep, TotpStepFor;
    AcceptedAt(last, run, i);
    var b := Accepted(last, run)[i];
    if InClockOrder(a) {
      StepsAreOrdered(a.verifiedAt, a.claimedAt);
    }
    if InClockOrder(b) {
      StepsAreOrdered(b.verifiedAt, b.claimedAt);
    }
  }

  /**
   A code that was accepted before goes through again exactly when the new attempt claims a later
   step than any accepted so far; it then straddles the end of the code's step, and while no step
   after the code's own was claimed, straddling is all it takes.
   */
  lemma ReplayExactly(last: Option<nat>, run: seq<Attempt>, a: Attempt)
    requires Used(last, run, a.code) && Verifies(a)
    ensures Accepted(last, run) != []
    ensures Accepts(LastStep(last, run), a) <==> LatestStep(last, run) < StepOf(a)
    ensures (forall b <- run :: InClockOrder(b)) && Accepts(LastStep(last, run), a) ==> Straddles(a)
    ensures InClockOrder(a) && LatestStep(last, run) == a.code.step ==>
              (Accepts(LastStep(last, run), a) <==> Straddles(a))
  {
    AcceptedAreAttempts(last, run);
    var i: nat :| i < |Accepted(last, run)| && Accepted(last, run)[i].code == a.code;
    hide Accepted, LastStep, TotpStepFor;
    assert Accepted(last, run)[i] in Accepted(last, run);
    ReplayOf(last, run, i, a);
  }

  lemma {:induction false} AcceptedAreAttempts(last: Option<nat>, run: seq<Attempt>)
    ensures forall a <- Accepted(last, run) :: a in run
  {
    if run == [] {
    } else {
      AcceptedAreAttempts(last, run[..|run| - 1]);
    }
  }

  ghost predicate NoCodeTwice(last: Option<nat>, run: seq<Attempt>) {
    var r := Accepted(last, run);
    forall i, j :: 0 <= i < j < |r| ==> r[i].code != r[j].code
  }

  /**
   The attempt reuses a code, late: it is verified within the code's step and claimed after it,
   in a step that nobody has claimed or passed yet.
   */
  ghost predicate LateReuse(last: Option<nat>, before: seq<Attempt>, a: Attempt) {
    && Verifies(a) && Straddles(a) && Used(last, before, a.code)
    && LatestStep(last, before) < StepOf(a)
  }

  ghost predicate SomeLateReuse(last: Option<nat>, run: seq<Attempt>) {
    run != [] && (SomeLateReuse(last, run[..|run| - 1])
                  || LateReuse(last, run[..|run| - 1], run[|run| - 1]))
  }

  /** Over any run no code is accepted twice, exactly unless some attempt reuses one late. */
  lemma {:induction false} NoCodeTwiceExactly(last: Option<nat>, run: seq<Attempt>)
    requires forall a <- run :: InClockOrder(a)
    ensures NoCodeTwice(last, run) <==> !SomeLateReuse(last, run)
  {
    if run == [] {
    } else {
      var init, a := run[..|run| - 1], run[|run| - 1];
      NoCodeTwiceExactly(last, init);
      var r := Accepted(last, init);
      if Used(last, init, a.code) && Verifies(a) {
        ReplayExactly(last, init, a);
      }
      NoCodeTwiceStep(last, run);
    }
  }

  lemma NoCodeTwiceStep(last: Option<nat>, run: seq<Attempt>)
    requires run != []
    ensures var init, a := run[..|run| - 1], run[|run| - 1];
            NoCodeTwice(last, run) <==>
            NoCodeTwice(last, init) && !(Accepts(LastStep(last, init), a) && Used(last, init, a.code))
  {
    var init, a := run[..|run| - 1], run[|run| - 1];
    var r, all := Accepted(last, init), Accepted(last, run);
    assert all == if Accepts(LastStep(last, init), a) then r + [a] else r;
    assert r <= all;
    if Accepts(LastStep(last, init), a) {
      if i :| 0 <= i < |r| && r[i].code == a.code {
        assert all[i].code == all[|r|].code;
      }
    }
  }

  // ------------------------------------------------------------------------
  // The users table
  // ------------------------------------------------------------------------

  datatype UserRow = UserRow(
    email: string,
    name: string,
    passwordHash: string,
    mustChange: bool,
    validAfter: Stamp,
    lastStep: Option<nat>,
    totpEnabled: bool,
    totpSecret: Option<string>)

  /** A body of POST /password; the two verdicts are on the current password. */
  datatype PasswordForm = PasswordForm(
    currentOk: bool,
    sameAsCurrent: bool,
    newHash: string,
    email: Option<string>,
    name: Option<string>)

  datatype PasswordReply = WrongPassword | SamePassword | EmailInUse | Reissued(claims: Claims)

  predicate EmailTaken(rows: map<nat, UserRow>, id: nat, email: string) {
    exists other <- rows :: other != id && rows[other].email == email
  }

  /** A row whose password was changed: its new hash, no need to change it, and the time of the change. */
  function Changed(row: UserRow, hash: string, now: nat): (r: UserRow)
    ensures r.passwordHash == hash && !r.mustChange && r == row.(
      passwordHash := r.passwordHash, mustChange := r.mustChange, validAfter := r.validAfter)
    ensures forall claims :: IsTokenRevoked(claims, r.validAfter) <==>
                             claims.iat.None? || claims.iat.value < now / 1000
  {
    row.(passwordHash := hash, mustChange := false, validAfter := Since(now))
  }

  /** A row after the first-login flow, which may also set an email, in lower case, and a name. */
  function WithProfile(row: UserRow, user: UserRow, form: PasswordForm): (r: UserRow)
    ensures r.email == if user.mustChange && form.email.Some? && form.email.value != user.email
                       then Lower(form.email.value) else row.email
    ensures r.name == if user.mustChange && form.name.Some? then form.name.value else row.name
    ensures r == row.(email := r.email, name := r.name)
  {
    var email := NewEmail(user, form);
    row.(email := if email.Some? then email.value else row.email,
         name := if user.mustChange && form.name.Some? then form.name.value else row.name)
  }

  lemma LastUpdateWins(rows: map<nat, UserRow>, id: nat, first: UserRow, second: UserRow)
    ensures rows[id := first][id := second] == rows[id := second]
  {
  }

  lemma OwnRowDoesNotMatter(rows: map<nat, UserRow>, id: nat, row: UserRow, email: string)
    ensures EmailTaken(rows[id := row], id, email) == EmailTaken(rows, id, email)
  {
    forall other | other in rows && other != id ensures rows[id := row][other] == rows[other] {}
  }

  /** The new email that the first-login flow asks for, if it is one. */
  function NewEmail(user: UserRow, form: PasswordForm): Option<string> {
    if user.mustChange && form.email.Some? && form.email.value != user.email then Some(Lower(form.email.value))
    else None
  }

  lemma {:induction false} OneMoreEvent(a: Account, run: seq<Event>, e: Event)
    requires Feasible(a, run) && Enabled(Exec(a, run), e)
    ensures Feasible(a, run + [e]) && Exec(a, run + [e]) == Step(Exec(a, run), e)
    ensures Changes(run + [e]) == Changes(run) + if e.Change? then [e.now] else []
    decreases |run|
  {
    if run == [] {
      assert run + [e] == [e] && [e][1..] == [];
      Peel(Step(a, e), []);
      Peel(a, [e]);
    } else {
      assert (run + [e])[1..] == run[1..] + [e];
      OneMoreEvent(Step(a, run[0]), run[1..], e);
    }
  }

  lemma OneMoreAttempt(run: seq<Attempt>, a: Attempt)
    ensures LastStep(None, run + [a]) ==
            if Accepts(LastStep(None, run), a) then Some(StepOf(a)) else LastStep(None, run)
  {
    assert (run + [a])[..|run|] == run;
  }

  datatype SecondFactor = NotNeeded | CodeRequired | Misconfigured | CodeInvalid | Replayed | Passed

  /** The revocation time and the last step of a row are what the history of its account makes them. */
  ghost predicate Fits(validAfter: Stamp, lastStep: Option<nat>, run: seq<Event>, attempts: seq<Attempt>, clock: nat) {
    && Feasible(FRESH, run) && Exec(FRESH, run).clock <= clock
    && Exec(FRESH, run).validAfter == validAfter
    && LastStep(None, attempts) == lastStep
  }

  ghost predicate AllFit(rows: map<nat, UserRow>, runs: map<nat, seq<Event>>, attempts: map<nat, seq<Attempt>>,
                         clock: nat): (all: bool)
    ensures all ==> runs.Keys == rows.Keys && attempts.Keys == rows.Keys
  {
    && runs.Keys == rows.Keys && attempts.Keys == rows.Keys
    && forall id <- rows :: Fits(rows[id].validAfter, rows[id].lastStep, runs[id], attempts[id], clock)
  }

  lemma NewAccountFits(rows: map<nat, UserRow>, runs: map<nat, seq<Event>>, attempts: map<nat, seq<Attempt>>,
                       clock: nat, id: nat, row: UserRow)
    requires AllFit(rows, runs, attempts, clock) && id !in rows
    requires row.validAfter.Never? && row.lastStep.None?
    ensures AllFit(rows[id := row], runs[id := []], attempts[id := []], clock)
  {
  }

  lemma FitsLater(rows: map<nat, UserRow>, runs: map<nat, seq<Event>>, attempts: map<nat, seq<Attempt>>,
                  clock: nat, now: nat)
    requires AllFit(rows, runs, attempts, clock) && clock <= now
    ensures AllFit(rows, runs, attempts, now)
  {
    hide Feasible, LastStep;
  }

  /** The other columns do not matter. */
  lemma ProfileFits(rows: map<nat, UserRow>, runs: map<nat, seq<Event>>, attempts: map<nat, seq<Attempt>>,
                    clock: nat, id: nat, row: UserRow)
    requires AllFit(rows, runs, attempts, clock) && id in rows
    requires row.validAfter == rows[id].validAfter && row.lastStep == rows[id].lastStep
    ensures AllFit(rows[id := row], runs, attempts, clock)
  {
    hide Fits;
  }

  /** One more event; only a password change moves the revocation time. */
  lemma EventFits(row: UserRow, run: seq<Event>, attempts: seq<Attempt>, clock: nat, e: Event)
    requires Fits(row.validAfter, row.lastStep, run, attempts, clock) && clock <= e.now
    requires e.Login? ==> e.check < |Exec(FRESH, run).checks|
    requires e.Reissue? ==> e.change < |Changes(run)|
    ensures Fits(if e.Change? then Since(e.now) else row.validAfter, row.lastStep, run + [e], attempts, e.now)
    ensures Changes(run + [e]) == Changes(run) + if e.Change? then [e.now] else []
  {
    AccountRecordsTheRun(FRESH, run);
    assert Exec(FRESH, run).changes == Changes(run);
    OneMoreEvent(FRESH, run, e);
    hide Feasible, Exec, Changes, LastStep;
  }

  lemma HappenedFits(rows: map<nat, UserRow>, runs: map<nat, seq<Event>>, attempts: map<nat, seq<Attempt>>,
                     clock: nat, id: nat, e: Event, row: UserRow)
    requires AllFit(rows, runs, attempts, clock) && id in rows && clock <= e.now
    requires e.Login? ==> e.check < |Exec(FRESH, runs[id]).checks|
    requires e.Reissue? ==> e.change < |Changes(runs[id])|
    requires row.validAfter == (if e.Change? then Since(e.now) else rows[id].validAfter)
    requires row.lastStep == rows[id].lastStep
    ensures AllFit(rows[id := row], runs[id := runs[id] + [e]], attempts, e.now)
    ensures Changes(runs[id] + [e]) == Changes(runs[id]) + if e.Change? then [e.now] else []
  {
    hide Fits, Feasible, Exec, Changes;
    EventFits(rows[id], runs[id], attempts[id], clock, e);
    FitsLater(rows, runs, attempts, clock, e.now);
  }

  lemma AttemptFits(rows: map<nat, UserRow>, runs: map<nat, seq<Event>>, attempts: map<nat, seq<Attempt>>,
                    clock: nat, id: nat, a: Attempt, row: UserRow)
    requires AllFit(rows, runs, attempts, clock) && id in rows
    requires row.validAfter == rows[id].validAfter
    requires row.lastStep == if Accepts(rows[id].lastStep, a) then Some(StepOf(a)) else rows[id].lastStep
    ensures AllFit(rows[id := row], runs, attempts[id := attempts[id] + [a]], clock)
  {
    OneMoreAttempt(attempts[id], a);
    hide Feasible, Exec, LastStep, Accepts;
  }

  lemma FitsRevokes(validAfter: Stamp, lastStep: Option<nat>, run: seq<Event>, attempts: seq<Attempt>,
                    clock: nat, claims: Claims)
    requires Fits(validAfter, lastStep, run, attempts, clock)
    ensures IsTokenRevoked(claims, validAfter) <==> Outdated(claims, Changes(run))
  {
    RevokedExactly(run, claims);
  }

  /**
   The rows, and beside each row what happened to the account so far: the events its revocation
   time stems from, and the attempts its last step stems from.
   */
  class UsersTable {
    var rows: map<nat, UserRow>
    ghost var clock: nat
    ghost var runs: map<nat, seq<Event>>
    ghost var attempts: map<nat, seq<Attempt>>

    /** Every column is what the history of its account makes it. */
    ghost predicate Valid()
      reads this
    {
      AllFit(rows, runs, attempts, clock)
    }

    constructor ()
      ensures Valid() && rows == map[] && clock == 0
    {
      rows, clock, runs, attempts := map[], 0, map[], map[];
    }

    /** A new account has no revocation time and no last step. */
    method AddUser(id: nat, email: string, name: string, hash: string, mustChange: bool)
      requires Valid() && id !in rows
      modifies this
      ensures Valid() && clock == old(clock)
      ensures rows == old(rows)[id := UserRow(email, name, hash, mustChange, Never, None, false, None)]
      ensures runs == old(runs)[id := []] && attempts == old(attempts)[id := []]
    {
      hide AllFit;
      var row := UserRow(email, name, hash, mustChange, Never, None, false, None);
      NewAccountFits(rows, runs, attempts, clock, id, row);
      rows := rows[id := row];
      runs, attempts := runs[id := []], attempts[id := []];
    }

    /** The first half of a login; `verify` is the check of the sent password against a stored hash. */
    method CheckLogin(email: string, verify: string -> bool, now: nat) returns (found: Option<nat>)
      requires Valid() && clock <= now
      modifies `runs, `clock
      ensures Valid() && clock == now
      ensures found.Some? ==>
                && found.value in rows && rows[found.value].email == Lower(email)
                && verify(rows[found.value].passwordHash)
                && runs == old(runs)[found.value := old(runs)[found.value] + [Event.CheckPassword(now)]]
      ensures found.None? ==>
                && runs == old(runs)
                && ((forall id <- rows :: rows[id].email != Lower(email))
                    || exists id <- rows :: rows[id].email == Lower(email) && !verify(rows[id].passwordHash))
    {
      hide AllFit;
      found := None;
      FitsLater(rows, runs, attempts, clock, now);
      if id :| id in rows && rows[id].email == Lower(email) {
        if verify(rows[id].passwordHash) {
          HappenedFits(rows, runs, attempts, clock, id, Event.CheckPassword(now), rows[id]);
          assert rows[id := rows[id]] == rows;
          runs := runs[id := runs[id] + [Event.CheckPassword(now)]];
          found := Some(id);
        }
      }
      clock := now;
    }

    /** The second half: the token for the check-th check. */
    method IssueToken(id: nat, ghost check: nat, now: nat) returns (claims: Claims)
      requires Valid() && clock <= now
      requires id in rows && check < |Exec(FRESH, runs[id]).checks|
      modifies `runs, `clock
      ensures Valid() && clock == now
      ensures claims == Claims(Some(now / 1000))
      ensures runs == old(runs)[id := old(runs)[id] + [Login(now, check)]]
    {
      hide AllFit;
      HappenedFits(rows, runs, attempts, clock, id, Login(now, check), rows[id]);
      assert rows[id := rows[id]] == rows;
      runs := runs[id := runs[id] + [Login(now, check)]];
      clock := now;
      return Claims(Some(now / 1000));
    }

    /**
     The check of a request's token: the account exists, and none of the password changes it went
     through came in a later second than the token.
     */
    method Authenticate(id: nat, claims: Claims) returns (ok: bool)
      requires Valid()
      ensures ok <==> id in rows && !Outdated(claims, Changes(runs[id]))
    {
      if id !in rows {
        return false;
      }
      hide Fits, Outdated, IsTokenRevoked;
      FitsRevokes(rows[id].validAfter, rows[id].lastStep, runs[id], attempts[id], clock, claims);
      return !IsTokenRevoked(claims, rows[id].validAfter);
    }

    /** Stores the new hash and revokes every token of an earlier second. */
    method ChangePassword(id: nat, hash: string, now: nat)
      requires Valid() && clock <= now
      modifies `rows, `runs, `clock
      ensures Valid() && clock == now
      ensures id !in old(rows) ==> rows == old(rows) && runs == old(runs)
      ensures id in old(rows) ==>
                && rows == old(rows)[id := Changed(old(rows)[id], hash, now)]
                && rows[id].passwordHash == hash && !rows[id].mustChange
                && runs == old(runs)[id := old(runs)[id] + [Change(now)]]
                && Changes(runs[id]) == Changes(old(runs)[id]) + [now]
                && (forall claims :: IsTokenRevoked(claims, rows[id].validAfter) <==>
                                     claims.iat.None? || claims.iat.value < now / 1000)
    {
      hide AllFit;
      FitsLater(rows, runs, attempts, clock, now);
      if id in rows {
        var row := Changed(rows[id], hash, now);
        HappenedFits(rows, runs, attempts, clock, id, Change(now), row);
        rows := rows[id := row];
        runs := runs[id := runs[id] + [Change(now)]];
      }
      clock := now;
    }

    /** The account gets a token for its latest password change. */
    ghost method TokenHandedBack(id: nat, now: nat)
      requires Valid() && clock <= now && id in rows && Changes(runs[id]) != []
      modifies `runs, `clock
      ensures Valid() && clock == now
      ensures runs == old(runs)[id := old(runs)[id] + [Reissue(now, |Changes(old(runs)[id])| - 1)]]
    {
      hide AllFit;
      var e := Reissue(now, |Changes(runs[id])| - 1);
      HappenedFits(rows, runs, attempts, clock, id, e, rows[id]);
      assert rows[id := rows[id]] == rows;
      runs, clock := runs[id := runs[id] + [e]], now;
    }

    /** The first-login flow: a new email that nobody else has, and a new name. */
    method UpdateProfile(id: nat, user: UserRow, form: PasswordForm) returns (taken: bool)
      requires Valid() && id in rows
      modifies `rows
      ensures Valid()
      ensures taken <==> NewEmail(user, form).Some? && EmailTaken(old(rows), id, NewEmail(user, form).value)
      ensures taken ==> rows == old(rows)
      ensures !taken ==>
                rows == old(rows)[id := WithProfile(old(rows)[id], user, form)]
    {
      hide AllFit;
      taken := false;
      if user.mustChange && (form.email.Some? || form.name.Some?) {
        var updated := rows[id];
        if form.email.Some? && form.email.value != user.email {
          if EmailTaken(rows, id, Lower(form.email.value)) {
            return true;
          }
          updated := updated.(email := Lower(form.email.value));
        }
        if form.name.Some? {
          updated := updated.(name := form.name.value);
        }
        ProfileFits(rows, runs, attempts, clock, id, updated);
        rows := rows[id := updated];
      }
    }

    /** The accepted form: the password is changed first, and an email in use is noticed after that. */
    method SetPassword(id: nat, user: UserRow, form: PasswordForm, changedAt: nat, issuedAt: nat)
      returns (taken: bool)
      requires Valid() && id in rows && clock <= changedAt <= issuedAt
      modifies `rows, `runs, `clock
      ensures Valid()
      ensures taken <==> NewEmail(user, form).Some? && EmailTaken(old(rows), id, NewEmail(user, form).value)
      ensures var changed := Changed(old(rows)[id], form.newHash, changedAt);
              rows == old(rows)[id := if taken then changed else WithProfile(changed, user, form)]
      ensures var run := old(runs)[id] + [Change(changedAt)];
              var reissue := Reissue(issuedAt, |Changes(old(runs)[id])|);
              runs == old(runs)[id := if taken then run else run + [reissue]]
    {
      hide AllFit, EmailTaken, Changes, WithProfile;
      ChangePassword(id, form.newHash, changedAt);
      assert |Changes(runs[id])| == |Changes(old(runs)[id])| + 1;
      OwnRowDoesNotMatter(old(rows), id, rows[id], if form.email.Some? then Lower(form.email.value) else "");
      ghost var changed := rows[id];
      taken := UpdateProfile(id, user, form);
      if !taken {
        LastUpdateWins(old(rows), id, changed, rows[id]);
        TokenHandedBack(id, issuedAt);
      }
    }

    /**
     POST /password, on the row as loaded. A refusal of the current or the new password changes
     nothing; an email that is in use is refused after the password has been changed and hands no
     token back; otherwise the token handed back is accepted and every older one is not.
     */
    method PostPassword(id: nat, user: UserRow, form: PasswordForm, changedAt: nat, issuedAt: nat)
      returns (reply: PasswordReply)
      requires Valid() && id in rows && clock <= changedAt <= issuedAt
      modifies `rows, `runs, `clock
      ensures Valid()
      ensures reply.WrongPassword? <==> !form.currentOk
      ensures reply.SamePassword? <==> form.currentOk && form.sameAsCurrent
      ensures reply.EmailInUse? <==>
                form.currentOk && !form.sameAsCurrent
                && NewEmail(user, form).Some? && EmailTaken(old(rows), id, NewEmail(user, form).value)
      ensures reply.WrongPassword? || reply.SamePassword? ==> rows == old(rows) && runs == old(runs)
      ensures reply.EmailInUse? ==>
                && rows == old(rows)[id := Changed(old(rows)[id], form.newHash, changedAt)]
                && runs == old(runs)[id := old(runs)[id] + [Change(changedAt)]]
      ensures reply.Reissued? ==>
                && rows == old(rows)[id := WithProfile(Changed(old(rows)[id], form.newHash, changedAt), user, form)]
                && runs == old(runs)[id := old(runs)[id] + [Change(changedAt)]
                                           + [Reissue(issuedAt, |Changes(old(runs)[id])|)]]
                && reply.claims == Claims(Some(issuedAt / 1000)) && !IsTokenRevoked(reply.claims, rows[id].validAfter)
    {
      hide AllFit, EmailTaken, Changes, Feasible, Exec;
      if !form.currentOk {
        return WrongPassword;
      }
      if form.sameAsCurrent {
        return SamePassword;
      }
      var taken := SetPassword(id, user, form, changedAt, issuedAt);
      if taken {
        return EmailInUse;
      }
      SecondsAreOrdered(changedAt, issuedAt);
      return Reissued(Claims(Some(issuedAt / 1000)));
    }

    /** One conditional update: the row takes the step if it has none or an earlier one. */
    method ClaimTotpStep(id: nat, step: nat) returns (won: bool)
      modifies `rows
      ensures won <==> id in old(rows) && (old(rows)[id].lastStep.None? || old(rows)[id].lastStep.value < step)
      ensures rows == if won then old(rows)[id := old(rows)[id].(lastStep := Some(step))] else old(rows)
    {
      won := false;
      if id in rows {
        var last := rows[id].lastStep;
        if last.None? || last.value < step {
          rows := rows[id := rows[id].(lastStep := Some(step))];
          won := true;
        }
      }
    }

    /** The second factor of a login, on the row as loaded; the request may lack a code. */
    method LoginSecondFactor(id: nat, user: UserRow, sent: Option<Attempt>) returns (r: SecondFactor)
      requires Valid()
      requires user.totpSecret.Some? && sent.Some? ==> sent.value.secret == user.totpSecret.value
      modifies `rows, `attempts
      ensures Valid()
      ensures r.NotNeeded? <==> !user.totpEnabled
      ensures r.CodeRequired? <==> user.totpEnabled && sent.None?
      ensures r.Misconfigured? <==> user.totpEnabled && sent.Some? && user.totpSecret.None?
      ensures r.CodeInvalid? <==>
                && user.totpEnabled && sent.Some? && user.totpSecret.Some?
                && sent.value.code != Code(user.totpSecret.value, sent.value.verifiedAt / 30_000)
      ensures r.Passed? <==>
                && user.totpEnabled && sent.Some? && user.totpSecret.Some?
                && sent.value.code == Code(user.totpSecret.value, sent.value.verifiedAt / 30_000)
                && id in old(rows)
                && (old(rows)[id].lastStep.None? || old(rows)[id].lastStep.value < sent.value.claimedAt / 30_000)
      ensures rows == if r.Passed?
                      then old(rows)[id := old(rows)[id].(lastStep := Some(sent.value.claimedAt / 30_000))]
                      else old(rows)
      ensures attempts == if id in rows && (r.CodeInvalid? || r.Replayed? || r.Passed?)
                          then old(attempts)[id := old(attempts)[id] + [sent.value]] else old(attempts)
    {
      hide AllFit;
      if !user.totpEnabled {
        return NotNeeded;
      }
      if sent.None? {
        return CodeRequired;
      }
      if user.totpSecret.None? {
        return Misconfigured;
      }
      var passed := TryCode(id, sent.value);
      return if passed then Passed else if Verifies(sent.value) then Replayed else CodeInvalid;
    }

    /** A code sent to enable or disable the second factor: verified first, then its step is claimed. */
    method TryCode(id: nat, a: Attempt) returns (ok: bool)
      requires Valid()
      modifies `rows, `attempts
      ensures Valid()
      ensures ok <==>
              && a.code == Code(a.secret, a.verifiedAt / 30_000)
              && id in old(rows)
              && (old(rows)[id].lastStep.None? || old(rows)[id].lastStep.value < a.claimedAt / 30_000)
      ensures rows == if ok then old(rows)[id := old(rows)[id].(lastStep := Some(a.claimedAt / 30_000))] else old(rows)
      ensures attempts == if id in rows then old(attempts)[id := old(attempts)[id] + [a]] else old(attempts)
    {
      hide AllFit;
      ok := false;
      if Verifies(a) {
        ok := ClaimTotpStep(id, TotpStepFor(a.claimedAt));
      }
      if id in rows {
        AttemptFits(old(rows), runs, attempts, clock, id, a, rows[id]);
        assert old(rows)[id := rows[id]] == rows;
        attempts := attempts[id := attempts[id] + [a]];
      }
    }

    /** Enabling burns the step too, and leaves it burnt. */
    method EnableTotp(id: nat, a: Attempt) returns (ok: bool)
      requires Valid()
      modifies `rows, `attempts
      ensures Valid()
      ensures ok <==>
              && a.code == Code(a.secret, a.verifiedAt / 30_000)
              && id in old(rows)
              && (old(rows)[id].lastStep.None? || old(rows)[id].lastStep.value < a.claimedAt / 30_000)
      ensures rows == if ok then old(rows)[id := old(rows)[id].(
        lastStep := Some(a.claimedAt / 30_000), totpEnabled := true, totpSecret := Some(a.secret))]
                      else old(rows)
      ensures attempts == if id in rows then old(attempts)[id := old(attempts)[id] + [a]] else old(attempts)
    {
      hide AllFit;
      ok := TryCode(id, a);
      if ok {
        var enabled := rows[id].(totpEnabled := true, totpSecret := Some(a.secret));
        ProfileFits(rows, runs, attempts, clock, id, enabled);
        LastUpdateWins(old(rows), id, rows[id], enabled);
        rows := rows[id := enabled];
      }
    }

    /** Disabling needs the password and a code, and does not reset the last step. */
    method DisableTotp(id: nat, user: UserRow, passwordOk: bool, a: Attempt) returns (ok: bool)
      requires Valid()
      requires user.totpSecret.Some? ==> a.secret == user.totpSecret.value
      modifies `rows, `attempts
      ensures Valid()
      ensures ok <==>
              && passwordOk && user.totpSecret.Some?
              && a.code == Code(user.totpSecret.value, a.verifiedAt / 30_000)
              && id in old(rows)
              && (old(rows)[id].lastStep.None? || old(rows)[id].lastStep.value < a.claimedAt / 30_000)
      ensures rows == if ok then old(rows)[id := old(rows)[id].(
        lastStep := Some(a.claimedAt / 30_000), totpEnabled := false, totpSecret := None)]
                      else old(rows)
      ensures attempts == if id in rows && passwordOk && user.totpSecret.Some?
                          then old(attempts)[id := old(attempts)[id] + [a]] else old(attempts)
    {
      hide AllFit;
      if !passwordOk || user.totpSecret.None? {
        return false;
      }
      ok := TryCode(id, a);
      if ok {
        var disabled := rows[id].(totpEnabled := false, totpSecret := None);
        ProfileFits(rows, runs, attempts, clock, id, disabled);
        LastUpdateWins(old(rows), id, rows[id], disabled);
        rows := rows[id := disabled];
      }
    }
  }
}
