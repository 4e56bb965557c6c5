/**
 First-admin creation: any number of concurrent callers, serialised by a chain of promises.

 A caller takes the module's current promise as the one to wait for and leaves a new one behind.
 The code between two awaits is atomic; which caller runs next is up to the event loop.
 */
module SetupMutex {
  import opened Prelude
  import opened Text

  type Promise = nat

  datatype Input = Input(email: string, name: string, password: string)

  /** A row of the users table; `password` stands for its hash. */
  datatype User = User(id: nat, email: string, name: string, password: string, isAdmin: bool, mustChange: bool)

  datatype Outcome = Created(row: User) | AlreadyDone | Failed

  /** Where a caller is: before its await, before the count, in the slow hash, or finished. */
  datatype Phase = Queued | Entered | Hashing | Settled(outcome: Outcome)

  datatype Caller = Caller(input: Input, previous: Promise, own: Promise, phase: Phase)

  datatype State = State(
    mutex: Promise,
    promises: nat, // promises made so far; promise 0 is resolved from the start
    resolved: set<Promise>,
    callers: seq<Caller>,
    users: seq<User>,
    entries: seq<nat>) // callers in the order they entered the critical section

  datatype Event =
    | Call(input: Input)
    | Enter(i: nat)
    | Count(i: nat)
    | Insert(i: nat)
    | Fail(i: nat) // the database or the hash throws

  /** The row of the first administrator; addresses are stored in lower case. */
  function AdminRow(id: nat, input: Input): User {
    User(id, Lower(input.email), input.name, input.password, true, false)
  }

  function Initial(users: seq<User>): State {
    State(0, 1, {0}, [], users, [])
  }

  function Settle(s: State, i: nat, outcome: Outcome): State
    requires i < |s.callers|
  {
    s.(callers := s.callers[i := s.callers[i].(phase := Settled(outcome))],
       resolved := s.resolved + {s.callers[i].own})
  }

  predicate Enabled(s: State, e: Event) {
    match e
    case Call(_) => true
    case Enter(i) => i < |s.callers| && s.callers[i].phase.Queued? && s.callers[i].previous in s.resolved
    case Count(i) => i < |s.callers| && s.callers[i].phase.Entered?
    case Insert(i) => i < |s.callers| && s.callers[i].phase.Hashing?
    case Fail(i) => i < |s.callers| && (s.callers[i].phase.Entered? || s.callers[i].phase.Hashing?)
  }

  function Step(s: State, e: Event): State
    requires Enabled(s, e)
  {
    match e
    case Call(input) =>
      s.(mutex := s.promises, promises := s.promises + 1,
         callers := s.callers + [Caller(input, s.mutex, s.promises, Queued)])
    case Enter(i) =>
      s.(callers := s.callers[i := s.callers[i].(phase := Entered)], entries := s.entries + [i])
    case Count(i) =>
      if |s.users| > 0 then Settle(s, i, AlreadyDone)
      else s.(callers := s.callers[i := s.callers[i].(phase := Hashing)])
    case Insert(i) =>
      var row := AdminRow(|s.users|, s.callers[i].input);
      Settle(s.(users := s.users + [row]), i, Created(row))
    case Fail(i) => Settle(s, i, Failed)
  }

  predicate Feasible(s: State, run: seq<Event>)
    decreases |run|
  {
    run == [] || (Enabled(s, run[0]) && Feasible(Step(s, run[0]), run[1..]))
  }

  function Exec(s: State, run: seq<Event>): State
    requires Feasible(s, run)
    decreases |run|
  {
    if run == [] then s else Exec(Step(s, run[0]), run[1..])
  }

  // ------------------------------------------------------------------------
  // Safety
  // ------------------------------------------------------------------------

  predicate InSection(c: Caller) {
    c.phase.Entered? || c.phase.Hashing?
  }

  /** The promises form one chain, and a promise is resolved exactly when its caller is done. */
  ghost predicate Chained(s: State) {
    && s.promises == |s.callers| + 1 && s.mutex == |s.callers|
    && (forall i :: 0 <= i < |s.callers| ==> s.callers[i].previous == i && s.callers[i].own == i + 1)
    && (forall p: Promise :: p in s.resolved <==>
                             p == 0 || (p <= |s.callers| && s.callers[p - 1].phase.Settled?))
  }

  ghost predicate InOrder(s: State) {
    forall i, j :: 0 <= i < j < |s.callers| && !s.callers[j].phase.Queued? ==> s.callers[i].phase.Settled?
  }

  ghost predicate EnteredInOrder(s: State) {
    && (forall k :: 0 <= k < |s.entries| ==> s.entries[k] == k)
    && |s.entries| <= |s.callers|
    && (forall i :: 0 <= i < |s.callers| ==> (i < |s.entries| <==> !s.callers[i].phase.Queued?))
  }

  /** The table is the original one plus the row of the caller that created it. */
  ghost predicate RowsAccounted(s: State, before: seq<User>) {
    && before <= s.users && |s.users| <= |before| + 1
    && (|s.users| > |before| ==> before == [])
    && (forall i :: 0 <= i < |s.callers| && s.callers[i].phase.Hashing? ==> s.users == [])
    && (forall i :: 0 <= i < |s.callers| && s.callers[i].phase.Settled? && s.callers[i].phase.outcome.Created? ==>
                      s.users == [AdminRow(0, s.callers[i].input)] && before == []
                      && s.callers[i].phase.outcome.row == s.users[0])
    && (|s.users| > |before| ==> exists i :: CreatedBy(s, i))
    && (forall i, j :: CreatedBy(s, i) && CreatedBy(s, j) ==> i == j)
    && (forall i :: 0 <= i < |s.callers| && s.callers[i].phase == Settled(AlreadyDone) ==> s.users != [])
  }

  predicate CreatedBy(s: State, i: int) {
    0 <= i < |s.callers| && s.callers[i].phase.Settled? && s.callers[i].phase.outcome.Created?
  }

  ghost predicate Inv(s: State, before: seq<User>) {
    Chained(s) && InOrder(s) && EnteredInOrder(s) && RowsAccounted(s, before)
  }

  lemma StepKeepsChain(s: State, e: Event)
    requires Chained(s) && Enabled(s, e)
    ensures Chained(Step(s, e))
  {
  }

  lemma StepKeepsQueue(s: State, e: Event)
    requires Chained(s) && InOrder(s) && EnteredInOrder(s) && Enabled(s, e)
    ensures var t := Step(s, e); Chained(t) && InOrder(t) && EnteredInOrder(t)
  {
    StepKeepsChain(s, e);
    if e.Enter? {
      assert e.i > 0 ==> s.callers[e.i - 1].phase.Settled?;
      assert forall j :: 0 <= j < e.i ==> s.callers[j].phase.Settled?;
      assert e.i == |s.entries|;
    }
    hide Chained;
  }

  lemma StepKeepsRows(s: State, e: Event, before: seq<User>)
    requires Inv(s, before) && Enabled(s, e)
    ensures RowsAccounted(Step(s, e), before)
  {
    var t := Step(s, e);
    if i :| CreatedBy(s, i) {
      assert e.Call? || e.i != i;
      assert CreatedBy(t, i);
    }
    if e.Insert? {
      assert CreatedBy(t, e.i);
      assert forall j :: CreatedBy(s, j) ==> s.users != [];
    }
    assert forall j :: CreatedBy(t, j) ==> CreatedBy(s, j) || (e.Insert? && j == e.i);
  }

  lemma {:induction false} RunKeepsInv(s: State, run: seq<Event>, before: seq<User>)
    requires Inv(s, before) && Feasible(s, run)
    ensures Inv(Exec(s, run), before)
    decreases |run|
  {
    if run == [] {
    } else {
      StepKeepsQueue(s, run[0]);
      StepKeepsRows(s, run[0], before);
      RunKeepsInv(Step(s, run[0]), run[1..], before);
    }
  }

  /** However the callers interleave, the users table gains at most one row, and only if it was empty. */
  lemma AtMostOneAdmin(users: seq<User>, run: seq<Event>)
    requires Feasible(Initial(users), run)
    ensures var s := Exec(Initial(users), run);
            && users <= s.users && |s.users| <= |users| + 1
            && (users != [] ==> s.users == users)
  {
    RunKeepsInv(Initial(users), run, users);
  }

  /** Nobody is told that setup is done unless there is an account. */
  lemma RefusalsAreHonest(users: seq<User>, run: seq<Event>, i: nat)
    requires Feasible(Initial(users), run)
    requires var s := Exec(Initial(users), run);
             i < |s.callers| && s.callers[i].phase == Settled(AlreadyDone)
    ensures Exec(Initial(users), run).users != []
  {
    RunKeepsInv(Initial(users), run, users);
  }

  /** Critical sections exclude each other and are entered in call order. */
  lemma SectionsAreExclusiveAndFair(users: seq<User>, run: seq<Event>)
    requires Feasible(Initial(users), run)
    ensures var s := Exec(Initial(users), run);
            && (forall i, j | 0 <= i < |s.callers| && 0 <= j < |s.callers| ::
                  InSection(s.callers[i]) && InSection(s.callers[j]) ==> i == j)
            && (forall k :: 0 <= k < |s.entries| ==> s.entries[k] == k)
  {
    RunKeepsInv(Initial(users), run, users);
  }

  // ------------------------------------------------------------------------
  // Who gets the account
  // ------------------------------------------------------------------------

  /** The inputs of the calls in a run, in call order. */
  function InputsOf(run: seq<Event>): seq<Input> {
    if run == [] then [] else (if run[0].Call? then [run[0].input] else []) + InputsOf(run[1..])
  }

  function CallerInputs(callers: seq<Caller>): seq<Input> {
    seq(|callers|, i requires 0 <= i < |callers| => callers[i].input)
  }

  lemma StepKeepsInputs(s: State, e: Event)
    requires Enabled(s, e)
    ensures CallerInputs(Step(s, e).callers) == CallerInputs(s.callers) + InputsOf([e])
  {
    assert [e][1..] == [];
  }

  lemma {:induction false} CallersAreTheCalls(s: State, run: seq<Event>)
    requires Feasible(s, run)
    ensures CallerInputs(Exec(s, run).callers) == CallerInputs(s.callers) + InputsOf(run)
    decreases |run|
  {
    hide Step, CallerInputs, InputsOf;
    if run == [] {
      NoInputs();
    } else {
      StepKeepsInputs(s, run[0]);
      CallersAreTheCalls(Step(s, run[0]), run[1..]);
      InputsCons(run);
    }
  }

  lemma NoInputs()
    ensures InputsOf([]) == []
  {
  }

  lemma InputsCons(run: seq<Event>)
    requires run != []
    ensures InputsOf(run) == InputsOf([run[0]]) + InputsOf(run[1..])
  {
    assert [run[0]][1..] == [];
  }

  predicate HasFailed(s: State, i: int) {
    0 <= i < |s.callers| && s.callers[i].phase == Settled(Failed)
  }

  /** Only throwing makes a caller fail, and what is settled stays. */
  lemma StepFailsExactly(s: State, e: Event, i: nat)
    requires Enabled(s, e)
    ensures HasFailed(Step(s, e), i) <==> HasFailed(s, i) || e == Fail(i)
  {
  }

  lemma {:induction false} FailsExactly(s: State, run: seq<Event>, i: nat)
    requires Feasible(s, run)
    ensures HasFailed(Exec(s, run), i) <==> HasFailed(s, i) || Fail(i) in run
    decreases |run|
  {
    hide Step, HasFailed;
    if run == [] {
    } else {
      StepFailsExactly(s, run[0], i);
      FailsExactly(Step(s, run[0]), run[1..], i);
      assert run == [run[0]] + run[1..];
    }
  }

  /** The account goes to the first caller that does not fail, if there was none before. */
  ghost predicate Decided(s: State, before: seq<User>) {
    forall i :: 0 <= i < |s.callers| ==> DecidedFor(s, before, i)
  }

  ghost predicate DecidedFor(s: State, before: seq<User>, i: nat)
    requires i < |s.callers|
  {
    && (s.callers[i].phase.Hashing? || CreatedBy(s, i) ==> before == [] && forall j :: 0 <= j < i ==> HasFailed(s, j))
    && (s.callers[i].phase == Settled(AlreadyDone) ==> before != [] || exists j :: 0 <= j < i && CreatedBy(s, j))
  }

  lemma StepKeepsDecided(s: State, e: Event, before: seq<User>, i: nat)
    requires Inv(s, before) && Decided(s, before) && Enabled(s, e) && i < |Step(s, e).callers|
    ensures DecidedFor(Step(s, e), before, i)
  {
    var t := Step(s, e);
    if i < |s.callers| {
      assert DecidedFor(s, before, i);
      forall j | 0 <= j < i ensures HasFailed(s, j) ==> HasFailed(t, j) {
        StepFailsExactly(s, e, j);
      }
      forall j | 0 <= j < i ensures CreatedBy(s, j) ==> CreatedBy(t, j) {
      }
      if e == Count(i) {
        CountDecides(s, before, i);
      }
    }
  }

  lemma CountDecides(s: State, before: seq<User>, i: nat)
    requires Inv(s, before) && Enabled(s, Count(i))
    ensures s.users == [] ==> before == [] && forall j :: 0 <= j < i ==> HasFailed(s, j)
    ensures s.users != [] ==> before != [] || exists j :: 0 <= j < i && CreatedBy(s, j)
  {
    if s.users != [] && before == [] {
      var j :| CreatedBy(s, j);
      assert j < i;
    }
  }

  lemma {:induction false} RunKeepsDecided(s: State, run: seq<Event>, before: seq<User>)
    requires Inv(s, before) && Decided(s, before) && Feasible(s, run)
    ensures Decided(Exec(s, run), before)
    decreases |run|
  {
    hide Inv, DecidedFor, Step;
    if run == [] {
    } else {
      forall i: nat | i < |Step(s, run[0]).callers| ensures DecidedFor(Step(s, run[0]), before, i) {
        StepKeepsDecided(s, run[0], before, i);
      }
      StepKeepsInv(s, run[0], before);
      RunKeepsDecided(Step(s, run[0]), run[1..], before);
    }
  }

  lemma StepKeepsInv(s: State, e: Event, before: seq<User>)
    requires Inv(s, before) && Enabled(s, e)
    ensures Inv(Step(s, e), before)
  {
    StepKeepsQueue(s, e);
    StepKeepsRows(s, e, before);
  }

  /**
   What each finished caller is told, by the calls and throws of the run alone: it fails exactly if
   its own section threw; otherwise it creates the account exactly if there was none and every
   earlier caller threw; otherwise it learns that setup is done.
   */
  lemma OutcomeExactly(users: seq<User>, run: seq<Event>, i: nat)
    requires Feasible(Initial(users), run)
    requires var s := Exec(Initial(users), run); i < |s.callers| && s.callers[i].phase.Settled?
    ensures i < |InputsOf(run)|
    ensures Exec(Initial(users), run).callers[i].phase.outcome ==
            if Fail(i) in run then Failed
            else if users == [] && (forall j :: 0 <= j < i ==> Fail(j) in run) then
              Created(User(0, Lower(InputsOf(run)[i].email), InputsOf(run)[i].name, InputsOf(run)[i].password,
                           true, false))
            else AlreadyDone
  {
    hide Step, Feasible, Exec, InputsOf;
    var s0 := Initial(users);
    var s := Exec(s0, run);
    RunKeepsInv(s0, run, users);
    RunKeepsDecided(s0, run, users);
    assert DecidedFor(s, users, i);
    CallersAreTheCalls(s0, run);
    assert CallerInputs(s.callers)[i] == InputsOf(run)[i] by {
      assert CallerInputs(s0.callers) == [];
    }
    forall j: nat ensures HasFailed(s, j) <==> Fail(j) in run {
      FailsExactly(s0, run, j);
    }
    if s.callers[i].phase == Settled(AlreadyDone) && users == [] {
      var j :| 0 <= j < i && CreatedBy(s, j);
      assert !HasFailed(s, j);
    }
  }

  /** A caller that gets a row back inserted its own input, and no other caller got one. */
  lemma CreatorInsertedItsOwnInput(users: seq<User>, run: seq<Event>, i: nat)
    requires Feasible(Initial(users), run)
    requires CreatedBy(Exec(Initial(users), run), i)
    ensures i < |InputsOf(run)|
    ensures var (s, input) := (Exec(Initial(users), run), InputsOf(run)[i]);
            && s.users == [User(0, Lower(input.email), input.name, input.password, true, false)]
            && s.callers[i].phase.outcome.row == s.users[0]
            && forall j :: CreatedBy(s, j) ==> j == i
  {
    RunKeepsInv(Initial(users), run, users);
    OutcomeExactly(users, run, i);
  }

  /** When nothing throws, the first of any number of callers becomes the administrator. */
  lemma FirstCallerBecomesAdmin(run: seq<Event>)
    requires Feasible(Initial([]), run) && AllSettled(Exec(Initial([]), run))
    requires InputsOf(run) != [] && forall e <- run :: !e.Fail?
    ensures var (s, input) := (Exec(Initial([]), run), InputsOf(run)[0]);
            && s.users == [User(0, Lower(input.email), input.name, input.password, true, false)]
            && |s.callers| == |InputsOf(run)| && s.callers[0].phase == Settled(Created(s.users[0]))
            && forall i :: 0 < i < |s.callers| ==> s.callers[i].phase == Settled(AlreadyDone)
  {
    hide Step, Feasible, Exec, InputsOf;
    var s := Exec(Initial([]), run);
    CallersAreTheCalls(Initial([]), run);
    assert |CallerInputs(s.callers)| == |InputsOf(run)|;
    OutcomeExactly([], run, 0);
    CreatorInsertedItsOwnInput([], run, 0);
    forall i: nat | 0 < i < |s.callers| ensures s.callers[i].phase == Settled(AlreadyDone) {
      OutcomeExactly([], run, i);
      assert Fail(0) !in run;
    }
  }

  // ------------------------------------------------------------------------
  // Liveness
  // ------------------------------------------------------------------------

  predicate AllSettled(s: State) {
    forall c <- s.callers :: c.phase.Settled?
  }

  /** Some caller can always move: the first unfinished one is not waiting for anybody. */
  lemma NoDeadlock(users: seq<User>, run: seq<Event>) returns (e: Event)
    requires Feasible(Initial(users), run) && !AllSettled(Exec(Initial(users), run))
    ensures Enabled(Exec(Initial(users), run), e) && !e.Call?
  {
    RunKeepsInv(Initial(users), run, users);
    var s := Exec(Initial(users), run);
    var i := FirstUnsettled(s.callers);
    match s.callers[i].phase
    case Queued =>
      assert i > 0 ==> s.callers[i - 1].phase.Settled?;
      e := Enter(i);
    case Entered => e := Count(i);
    case Hashing => e := Insert(i);
  }

  lemma FirstUnsettled(callers: seq<Caller>) returns (i: nat)
    requires exists c <- callers :: !c.phase.Settled?
    ensures i < |callers| && !callers[i].phase.Settled?
    ensures forall j :: 0 <= j < i ==> callers[j].phase.Settled?
  {
    i := 0;
    while callers[i].phase.Settled?
      invariant i < |callers| && forall j :: 0 <= j < i ==> callers[j].phase.Settled?
      decreases |callers| - i
    {
      if i + 1 == |callers| {
        assert false;
      }
      i := i + 1;
    }
  }

  function Rank(p: Phase): nat {
    match p
    case Queued => 3
    case Entered => 2
    case Hashing => 1
    case Settled(_) => 0
  }

  function Remaining(callers: seq<Caller>): nat {
    if callers == [] then 0 else Remaining(callers[..|callers| - 1]) + Rank(callers[|callers| - 1].phase)
  }

  lemma {:induction false} RemainingUpdate(callers: seq<Caller>, i: nat, c: Caller)
    requires i < |callers|
    ensures Remaining(callers[i := c]) == Remaining(callers) - Rank(callers[i].phase) + Rank(c.phase)
    ensures Remaining(callers) <= 3 * |callers|
  {
    var u := callers[i := c];
    if i == |callers| - 1 {
      assert u[..|u| - 1] == callers[..|callers| - 1];
      if i > 0 {
        RemainingUpdate(callers[..|callers| - 1], i - 1, callers[i - 1]);
      }
    } else {
      assert u[..|u| - 1] == callers[..|callers| - 1][i := c];
      RemainingUpdate(callers[..|callers| - 1], i, c);
    }
  }

  lemma StepProgresses(s: State, e: Event)
    requires Enabled(s, e) && !e.Call?
    ensures Remaining(Step(s, e).callers) < Remaining(s.callers)
    ensures |Step(s, e).callers| == |s.callers|
  {
    RemainingUpdate(s.callers, e.i, Step(s, e).callers[e.i]);
    assert Step(s, e).callers == s.callers[e.i := Step(s, e).callers[e.i]];
  }

  lemma {:induction false} RunsAreShort(s: State, run: seq<Event>)
    requires Feasible(s, run) && forall e <- run :: !e.Call?
    ensures |run| + Remaining(Exec(s, run).callers) <= Remaining(s.callers)
    decreases |run|
  {
    if run == [] {
    } else {
      StepProgresses(s, run[0]);
      RunsAreShort(Step(s, run[0]), run[1..]);
    }
  }

  /**
   Once calls stop coming, at most three steps per caller remain, and a run that cannot be
   extended has settled every caller: everybody finishes if each critical section does.
   */
  lemma EverybodyFinishes(users: seq<User>, before: seq<Event>, rest: seq<Event>)
    requires Feasible(Initial(users), before) && Feasible(Exec(Initial(users), before), rest)
    requires forall e <- rest :: !e.Call?
    ensures var s := Exec(Initial(users), before);
            && |rest| <= 3 * |s.callers|
            && ((forall e :: Enabled(Exec(s, rest), e) ==> e.Call?) ==> AllSettled(Exec(s, rest)))
  {
    var s := Exec(Initial(users), before);
    RunsAreShort(s, rest);
    if s.callers != [] {
      RemainingUpdate(s.callers, 0, s.callers[0]);
    }
    Joined(Initial(users), before, rest);
    if !AllSettled(Exec(s, rest)) {
      var e := NoDeadlock(users, before + rest);
    }
  }

  lemma {:induction false} Joined(s: State, first: seq<Event>, second: seq<Event>)
    requires Feasible(s, first) && Feasible(Exec(s, first), second)
    ensures Feasible(s, first + second) && Exec(s, first + second) == Exec(Exec(s, first), second)
    decreases |first|
  {
    if first == [] {
      assert first + second == second;
    } else {
      assert (first + second)[1..] == first[1..] + second;
      Joined(Step(s, first[0]), first[1..], second);
    }
  }

  // ------------------------------------------------------------------------
  // The service
  // ------------------------------------------------------------------------

  class SetupService {
    var mutex: Promise
    var promises: nat
    var resolved: set<Promise>
    var callers: seq<Caller>
    var users: seq<User>
    ghost var entries: seq<nat>

    ghost function View(): State
      reads this
    {
      State(mutex, promises, resolved, callers, users, entries)
    }

    constructor (users: seq<User>)
      ensures View() == Initial(users)
    {
      mutex, promises, resolved, callers, entries := 0, 1, {0}, [], [];
      this.users := users;
    }

    /** `createInitialAdmin` up to its first await. */
    method CreateInitialAdmin(input: Input) returns (i: nat)
      modifies this
      ensures View() == Step(old(View()), Call(input)) && i == |old(callers)|
    {
      var previous := mutex;
      mutex := promises;
      promises := promises + 1;
      i := |callers|;
      callers := callers + [Caller(input, previous, mutex, Queued)];
    }

    method Resume(i: nat)
      requires Enabled(View(), Enter(i))
      modifies this
      ensures View() == Step(old(View()), Enter(i))
    {
      callers := callers[i := callers[i].(phase := Entered)];
      entries := entries + [i];
    }

    /** The count inside the transaction: a non-empty table throws, and `finally` releases. */
    method CheckCount(i: nat)
      requires Enabled(View(), Count(i))
      modifies this
      ensures View() == Step(old(View()), Count(i))
    {
      if |users| > 0 {
        Finish(i, AlreadyDone);
        return;
      }
      callers := callers[i := callers[i].(phase := Hashing)];
    }

    method InsertRow(i: nat)
      requires Enabled(View(), Insert(i))
      modifies this
      ensures View() == Step(old(View()), Insert(i))
    {
      var row := AdminRow(|users|, callers[i].input);
      users := users + [row];
      Finish(i, Created(row));
    }

    method Throw(i: nat)
      requires Enabled(View(), Fail(i))
      modifies this
      ensures View() == Step(old(View()), Fail(i))
    {
      Finish(i, Failed);
    }

    method Finish(i: nat, outcome: Outcome)
      requires i < |callers|
      modifies `callers, `resolved
      ensures View() == Settle(old(View()), i, outcome)
    {
      resolved := resolved + {callers[i].own};
      callers := callers[i := callers[i].(phase := Settled(outcome))];
    }
  }
}
