/** What holds of every schedule: how far the error count can overshoot, and that a stopped run stops. */
module StopTheorems {
  import opened StopProtocol

  /** The critical error for the limit is recorded at most once, and only when as many errors have been counted. */
  lemma LimitErrorOnce(c: Config, threads: nat, schedule: seq<Event>)
    ensures var s := Run(c, Init(threads), schedule);
            s.limitErrors <= 1 && (s.limitErrors == 1 ==> LimitPassed(c, s))
  {
    RunInv(c, threads, schedule);
  }

  /** The flag is never up without a critical error on record, so a run it stops is reported as failed. */
  lemma FlagMeansRecorded(c: Config, threads: nat, schedule: seq<Event>)
    ensures var s := Run(c, Init(threads), schedule);
            s.flag ==> s.rowErrors + s.limitErrors >= 1
  {
    RunInv(c, threads, schedule);
  }

  /** How many operations a worker begins with the flag up. */
  ghost function BegunUnderFlag(c: Config, threads: nat, schedule: seq<Event>, w: nat): nat {
    if schedule == [] then 0
    else
      var before, e := schedule[..|schedule| - 1], schedule[|schedule| - 1];
      var s := Run(c, Init(threads), before);
      BegunUnderFlag(c, threads, before, w)
      + if s.flag && e.worker == w < |s.workers| && s.workers[w].pc == AtCheck && !e.workOver then 1 else 0
  }

  lemma StepBegins(c: Config, s: State, e: Event, w: nat)
    requires w < |s.workers|
    ensures w < |Step(c, s, e).workers|
    ensures Step(c, s, e).workers[w].opsAfterFlag
            == s.workers[w].opsAfterFlag
               + if s.flag && e.worker == w && s.workers[w].pc == AtCheck && !e.workOver then 1 else 0
  {}

  lemma {:induction false} BegunRemembered(c: Config, threads: nat, schedule: seq<Event>, w: nat)
    requires w < threads
    ensures w < |Run(c, Init(threads), schedule).workers|
    ensures Run(c, Init(threads), schedule).workers[w].opsAfterFlag == BegunUnderFlag(c, threads, schedule, w)
  {
    if schedule != [] {
      var n := |schedule| - 1;
      BegunRemembered(c, threads, schedule[..n], w);
      StepBegins(c, Run(c, Init(threads), schedule[..n]), schedule[n], w);
    }
  }

  /** A worker begins at most one operation after the flag has gone up. */
  lemma OneMoreOperation(c: Config, threads: nat, schedule: seq<Event>, w: nat)
    requires w < threads
    ensures BegunUnderFlag(c, threads, schedule, w) <= 1
  {
    RunInv(c, threads, schedule);
    BegunRemembered(c, threads, schedule, w);
    assert WorkerInv(c, Run(c, Init(threads), schedule), w);
  }

  /** No worker ever has more errors in a row than their limit, and one that has as many leaves the loop. */
  lemma ErrorsAtRowBounded(c: Config, threads: nat, schedule: seq<Event>, w: nat)
    requires w < threads && c.maxErrorsAtRow > 0
    ensures var s := Run(c, Init(threads), schedule);
            && w < |s.workers| && s.workers[w].errorsAtRow <= c.maxErrorsAtRow
            && (s.workers[w].errorsAtRow == c.maxErrorsAtRow
                ==> s.workers[w].pc != AtCheck && s.workers[w].pc != InTest)
  {
    RunInv(c, threads, schedule);
    assert WorkerInv(c, Run(c, Init(threads), schedule), w);
  }

  // ---- what the counters count ----

  /** The event ends an operation of worker `w`. */
  predicate Ends(s: State, e: Event, w: nat) {
    e.worker == w && Enabled(s, w) && s.workers[w].pc == InTest
  }

  /** How the operations of a worker have ended, in order. */
  ghost function Outcomes(c: Config, threads: nat, schedule: seq<Event>, w: nat): seq<Outcome> {
    if schedule == [] then []
    else
      var before, e := schedule[..|schedule| - 1], schedule[|schedule| - 1];
      Outcomes(c, threads, before, w) + if Ends(Run(c, Init(threads), before), e, w) then [e.outcome] else []
  }

  function Fails(outcomes: seq<Outcome>): nat {
    if outcomes == [] then 0
    else Fails(outcomes[..|outcomes| - 1]) + if outcomes[|outcomes| - 1] == Fail then 1 else 0
  }

  /** Where the operations after the last success begin. */
  function AfterLastOk(outcomes: seq<Outcome>): (i: nat)
    ensures i <= |outcomes|
    ensures forall j | i <= j < |outcomes| :: outcomes[j] != Ok
    ensures i > 0 ==> outcomes[i - 1] == Ok
  {
    if outcomes == [] then 0
    else if outcomes[|outcomes| - 1] == Ok then |outcomes|
    else AfterLastOk(outcomes[..|outcomes| - 1])
  }

  lemma FailsAfterOneMore(outcomes: seq<Outcome>, o: Outcome)
    ensures var all := outcomes + [o];
            Fails(all[AfterLastOk(all)..])
            == if o == Ok then 0 else Fails(outcomes[AfterLastOk(outcomes)..]) + if o == Fail then 1 else 0
  {
    var all, i := outcomes + [o], AfterLastOk(outcomes);
    assert all[..|outcomes|] == outcomes;
    if o == Ok {
      assert all[|all|..] == [];
    } else {
      assert all[i..][..|all| - i - 1] == outcomes[i..];
    }
  }

  lemma StepErrorsAtRow(c: Config, s: State, e: Event, w: nat)
    requires w < |s.workers|
    ensures w < |Step(c, s, e).workers|
    ensures Step(c, s, e).workers[w].errorsAtRow
            == if !Ends(s, e, w) || e.outcome == DoNotRegister then s.workers[w].errorsAtRow
               else if e.outcome == Ok then 0 else s.workers[w].errorsAtRow + 1
  {}

  /** The errors in a row of a worker are its failed operations since the last that succeeded. */
  lemma {:induction false} ErrorsAtRowCounted(c: Config, threads: nat, schedule: seq<Event>, w: nat)
    requires w < threads
    ensures var s, outcomes := Run(c, Init(threads), schedule), Outcomes(c, threads, schedule, w);
            w < |s.workers| && s.workers[w].errorsAtRow == Fails(outcomes[AfterLastOk(outcomes)..])
  {
    if schedule != [] {
      var before, e := schedule[..|schedule| - 1], schedule[|schedule| - 1];
      ErrorsAtRowCounted(c, threads, before, w);
      var s, outcomes := Run(c, Init(threads), before), Outcomes(c, threads, before, w);
      StepErrorsAtRow(c, s, e, w);
      if Ends(s, e, w) {
        FailsAfterOneMore(outcomes, e.outcome);
      } else {
        assert outcomes + [] == outcomes;
      }
    }
  }

  /** One for a worker whose operation has failed but is not counted yet. */
  function Uncounted(v: Worker): nat { if v.pc == CountError then 1 else 0 }

  ghost function Total(f: nat -> nat, bound: nat): nat {
    if bound == 0 then 0 else Total(f, bound - 1) + f(bound - 1)
  }

  lemma {:induction false} TotalOneMore(f: nat -> nat, g: nat -> nat, bound: nat, w: nat, more: nat)
    requires forall u: nat :: g(u) == f(u) + if u == w then more else 0
    ensures Total(g, bound) == Total(f, bound) + if w < bound then more else 0
  {
    if bound != 0 {
      TotalOneMore(f, g, bound - 1, w, more);
    }
  }

  lemma {:induction false} TotalZero(f: nat -> nat, bound: nat)
    requires forall u: nat :: f(u) == 0
    ensures Total(f, bound) == 0
  {
    if bound != 0 {
      TotalZero(f, bound - 1);
    }
  }

  /** The failed operations of each worker. */
  ghost function FailsOf(c: Config, threads: nat, schedule: seq<Event>): nat -> nat {
    w => Fails(Outcomes(c, threads, schedule, w))
  }

  /** One when the event ends an operation in failure. */
  function EndsInFailure(s: State, e: Event): nat {
    if Ends(s, e, e.worker) && e.outcome == Fail then 1 else 0
  }

  lemma FailsStep(c: Config, threads: nat, before: seq<Event>, e: Event, w: nat)
    ensures Fails(Outcomes(c, threads, before + [e], w))
            == Fails(Outcomes(c, threads, before, w))
               + if w == e.worker then EndsInFailure(Run(c, Init(threads), before), e) else 0
  {
    var outcomes := Outcomes(c, threads, before, w);
    assert (before + [e])[..|before|] == before;
    assert (outcomes + [e.outcome])[..|outcomes|] == outcomes && outcomes + [] == outcomes;
  }

  lemma AllFailsStep(c: Config, threads: nat, before: seq<Event>, e: Event, more: nat)
    requires more == EndsInFailure(Run(c, Init(threads), before), e)
    ensures Total(FailsOf(c, threads, before + [e]), threads)
            == Total(FailsOf(c, threads, before), threads) + if e.worker < threads then more else 0
  {
    forall u: nat
      ensures FailsOf(c, threads, before + [e])(u)
              == FailsOf(c, threads, before)(u) + if u == e.worker then more else 0
    {
      FailsStep(c, threads, before, e, u);
    }
    TotalOneMore(FailsOf(c, threads, before), FailsOf(c, threads, before + [e]), threads, e.worker, more);
  }

  lemma StepUncounted(c: Config, s: State, e: Event)
    requires Enabled(s, e.worker)
    ensures |Step(c, s, e).workers| == |s.workers|
    ensures Step(c, s, e).failures + Uncounted(Step(c, s, e).workers[e.worker])
            == s.failures + Uncounted(s.workers[e.worker]) + EndsInFailure(s, e)
  {}

  /** Counted and uncounted failures grow together by one when an operation fails. */
  lemma StepTotal(c: Config, s: State, e: Event)
    ensures Step(c, s, e).failures + Sum(Uncounted, Step(c, s, e).workers)
            == s.failures + Sum(Uncounted, s.workers) + EndsInFailure(s, e)
  {
    if Enabled(s, e.worker) {
      StepGrows(c, s, e);
      StepUncounted(c, s, e);
      SumUpdate(Uncounted, s.workers, e.worker, Step(c, s, e).workers[e.worker]);
    }
  }

  lemma {:induction false} FailuresAddUp(c: Config, threads: nat, schedule: seq<Event>)
    ensures var s := Run(c, Init(threads), schedule);
            s.failures + Sum(Uncounted, s.workers) == Total(FailsOf(c, threads, schedule), threads)
  {
    if schedule == [] {
      SumZero(Uncounted, Init(threads).workers);
      TotalZero(FailsOf(c, threads, schedule), threads);
    } else {
      var before, e := schedule[..|schedule| - 1], schedule[|schedule| - 1];
      var s := Run(c, Init(threads), before);
      RunInv(c, threads, before);
      FailuresAddUp(c, threads, before);
      AllFailsStep(c, threads, before, e, EndsInFailure(s, e));
      StepTotal(c, s, e);
      assert schedule == before + [e];
    }
  }

  lemma CounterWraps(c: Config, threads: nat, schedule: seq<Event>)
    ensures var s := Run(c, Init(threads), schedule);
            s.totalErrors == (s.failures + 2_147_483_648) % 4_294_967_296 - 2_147_483_648
  {
    RunInv(c, threads, schedule);
  }

  /** Every failed operation is counted once: all that have failed are counted, or are about to be. */
  lemma FailuresCounted(c: Config, threads: nat, schedule: seq<Event>)
    ensures var s := Run(c, Init(threads), schedule);
            s.totalErrors == (s.failures + 2_147_483_648) % 4_294_967_296 - 2_147_483_648
            && s.failures + Sum(Uncounted, s.workers) == Total(FailsOf(c, threads, schedule), threads)
  {
    CounterWraps(c, threads, schedule);
    FailuresAddUp(c, threads, schedule);
  }

  // ---- a run cannot get stuck, and with the flag up it ends ----

  predicate AllExited(s: State) { forall w | 0 <= w < |s.workers| :: s.workers[w].pc == Exited }

  /** Unless all workers have left, some worker can move: waiting for the once never blocks everybody. */
  lemma NeverStuck(c: Config, threads: nat, schedule: seq<Event>)
    ensures var s := Run(c, Init(threads), schedule);
            AllExited(s) || exists w: nat :: Enabled(s, w)
  {
    RunInv(c, threads, schedule);
    var s := Run(c, Init(threads), schedule);
    if !AllExited(s) {
      var w :| 0 <= w < |s.workers| && s.workers[w].pc != Exited;
      if !Enabled(s, w) {
        var inside := s.once.worker;
        assert WorkerInv(c, s, inside);
        assert Enabled(s, inside);
      } else {
        assert Enabled(s, w);
      }
    }
  }

  /** How many steps a worker has left when the flag is up. */
  function StepsLeft(v: Worker): (n: nat)
    ensures n <= 12
  {
    match v.pc
    case AtCheck => 12
    case InTest => 11
    case CountError => 10
    case CheckRow => 9
    case AppendRow => 8
    case FlagRow => 7
    case CheckLimit => 6
    case AwaitOnce => 5
    case AppendLimit => 4
    case FlagLimit => 3
    case LeaveOnce => 2
    case CheckFlag => 1
    case Exited => 0
  }

  lemma StepDescends(c: Config, s: State, e: Event)
    requires s.flag && Enabled(s, e.worker)
    ensures |Step(c, s, e).workers| == |s.workers|
    ensures StepsLeft(Step(c, s, e).workers[e.worker]) < StepsLeft(s.workers[e.worker])
  {}

  lemma StepAdvances(c: Config, s: State, e: Event)
    requires s.flag && Enabled(s, e.worker)
    ensures Step(c, s, e).flag && |Step(c, s, e).workers| == |s.workers|
    ensures Sum(StepsLeft, Step(c, s, e).workers) < Sum(StepsLeft, s.workers)
  {
    StepGrows(c, s, e);
    StepDescends(c, s, e);
    SumUpdate(StepsLeft, s.workers, e.worker, Step(c, s, e).workers[e.worker]);
  }

  /** Every event of the schedule finds its worker able to move. */
  ghost predicate Effective(c: Config, s: State, schedule: seq<Event>) {
    schedule == []
    || (Effective(c, s, schedule[..|schedule| - 1])
        && Enabled(Run(c, s, schedule[..|schedule| - 1]), schedule[|schedule| - 1].worker))
  }

  /** Once the flag is up, no schedule of real steps is longer than twelve for each worker. */
  lemma {:induction false} StopsSoon(c: Config, s: State, schedule: seq<Event>)
    requires s.flag && Effective(c, s, schedule)
    ensures Run(c, s, schedule).flag
    ensures |schedule| + Sum(StepsLeft, Run(c, s, schedule).workers) <= Sum(StepsLeft, s.workers) <= 12 * |s.workers|
  {
    if schedule == [] {
      SumAtMost(StepsLeft, s.workers, 12);
    } else {
      var n := |schedule| - 1;
      StopsSoon(c, s, schedule[..n]);
      StepAdvances(c, Run(c, s, schedule[..n]), schedule[n]);
    }
  }

  // ---- what schedules can bring about ----

  lemma {:induction false} RunAppend(c: Config, s: State, a: seq<Event>, b: seq<Event>)
    ensures Run(c, s, a + b) == Run(c, Run(c, s, a), b)
  {
    if b == [] {
      assert a + b == a;
    } else {
      var n := |b| - 1;
      RunAppend(c, s, a, b[..n]);
      assert (a + b)[..|a + b| - 1] == a + b[..n];
    }
  }

  ghost predicate Reaches(c: Config, s: State, t: State) {
    exists schedule :: Run(c, s, schedule) == t
  }

  lemma ReachesSame(c: Config, s: State)
    ensures Reaches(c, s, s)
  {
    assert Run(c, s, []) == s;
  }

  lemma ReachesThrough(c: Config, s: State, t: State, u: State)
    requires Reaches(c, s, t) && Reaches(c, t, u)
    ensures Reaches(c, s, u)
  {
    var a :| Run(c, s, a) == t;
    var b :| Run(c, t, b) == u;
    RunAppend(c, s, a, b);
  }

  lemma ReachesStep(c: Config, s: State, t: State, e: Event)
    requires Reaches(c, s, t)
    ensures Reaches(c, s, Step(c, t, e))
  {
    assert [e][..0] == [];
    assert Run(c, t, [e]) == Step(c, t, e);
    ReachesThrough(c, s, t, Step(c, t, e));
  }

  /** No limit has been noticed so far. */
  predicate Calm(s: State) { !s.flag && s.once == Fresh && s.limitErrors == 0 && s.rowErrors == 0 }

  /** The worker that differs is `w`; the errors it may have added are counted. */
  ghost predicate OnlyMoves(s: State, t: State, w: nat)
    requires w < |s.workers|
  {
    && |t.workers| == |s.workers| && t.workers == s.workers[w := t.workers[w]]
    && Calm(t) && t.totalErrors == Wrap32(t.failures)
  }

  lemma BeginAndFail(c: Config, s: State, w: nat) returns (t: State)
    requires Calm(s) && s.totalErrors == Wrap32(s.failures)
    requires w < |s.workers| && s.workers[w].pc == AtCheck && s.workers[w].errorsAtRow == 0
    ensures Reaches(c, s, t) && OnlyMoves(s, t, w)
    ensures t.failures == s.failures
    ensures t.workers[w].pc == CountError && t.workers[w].errorsAtRow == 1
  {
    var e := Event(w, false, Fail);
    var s1 := Step(c, s, e);
    t := Step(c, s1, e);
    ReachesSame(c, s);
    ReachesStep(c, s, s, e);
    ReachesStep(c, s, s1, e);
  }

  lemma Count(c: Config, s: State, w: nat) returns (t: State)
    requires Calm(s) && s.totalErrors == Wrap32(s.failures)
    requires w < |s.workers| && s.workers[w].pc == CountError
    ensures Reaches(c, s, t) && OnlyMoves(s, t, w)
    ensures t.failures == s.failures + 1
    ensures t.workers[w].pc == CheckRow && t.workers[w].errorsAtRow == s.workers[w].errorsAtRow
  {
    t := Step(c, s, Event(w, false, Fail));
    ReachesSame(c, s);
    ReachesStep(c, s, s, Event(w, false, Fail));
    WrapNext(s.failures);
  }

  /** A worker begins an operation, fails and counts the error. */
  lemma FailAndCount(c: Config, s: State, w: nat) returns (t: State)
    requires Calm(s) && s.totalErrors == Wrap32(s.failures)
    requires w < |s.workers| && s.workers[w].pc == AtCheck && s.workers[w].errorsAtRow == 0
    ensures Reaches(c, s, t) && OnlyMoves(s, t, w)
    ensures t.failures == s.failures + 1
    ensures t.workers[w].pc == CheckRow && t.workers[w].errorsAtRow == 1
  {
    var s1 := BeginAndFail(c, s, w);
    t := Count(c, s1, w);
    ReachesThrough(c, s, s1, t);
  }

  /** Below both limits a worker finishes its round and is back at the check. */
  lemma FinishRound(c: Config, s: State, w: nat) returns (t: State)
    requires Calm(s) && s.totalErrors == Wrap32(s.failures) && !LimitReached(c, s.totalErrors)
    requires w < |s.workers| && s.workers[w].pc == CheckRow
    requires c.maxErrorsAtRow <= 0 || s.workers[w].errorsAtRow < c.maxErrorsAtRow
    ensures Reaches(c, s, t) && OnlyMoves(s, t, w)
    ensures t.failures == s.failures
    ensures t.workers[w] == s.workers[w].(pc := AtCheck)
  {
    var e := Event(w, false, Ok);
    var s1 := Step(c, s, e);
    var s2 := Step(c, s1, e);
    t := Step(c, s2, e);
    ReachesSame(c, s);
    ReachesStep(c, s, s, e);
    ReachesStep(c, s, s1, e);
    ReachesStep(c, s, s2, e);
  }

  lemma SucceedAndReport(c: Config, s: State, w: nat) returns (t: State)
    requires Calm(s) && s.totalErrors == Wrap32(s.failures)
    requires w < |s.workers| && s.workers[w].pc == AtCheck
    ensures Reaches(c, s, t) && OnlyMoves(s, t, w)
    ensures t.failures == s.failures
    ensures t.workers[w].pc == CheckRow && t.workers[w].errorsAtRow == 0
  {
    var e := Event(w, false, Ok);
    var s1 := Step(c, s, e);
    t := Step(c, s1, e);
    ReachesSame(c, s);
    ReachesStep(c, s, s, e);
    ReachesStep(c, s, s1, e);
  }

  /** Unless one error in a row is too many, a worker that failed can succeed next and begin anew. */
  lemma Recover(c: Config, s: State, w: nat) returns (t: State)
    requires Calm(s) && s.totalErrors == Wrap32(s.failures) && !LimitReached(c, s.totalErrors)
    requires w < |s.workers| && s.workers[w].pc == CheckRow && s.workers[w].errorsAtRow == 1
    requires c.maxErrorsAtRow != 1
    ensures Reaches(c, s, t) && OnlyMoves(s, t, w)
    ensures t.failures == s.failures
    ensures t.workers[w].pc == AtCheck && t.workers[w].errorsAtRow == 0
  {
    var s1 := FinishRound(c, s, w);
    var s2 := SucceedAndReport(c, s1, w);
    t := FinishRound(c, s2, w);
    ReachesThrough(c, s, s1, s2);
    ReachesThrough(c, s, s2, t);
  }

  predicate Resting(v: Worker) { v.pc == AtCheck && v.errorsAtRow == 0 }

  predicate Struck(v: Worker) { v.pc == CheckRow && v.errorsAtRow == 1 }

  /** The first `j` workers have just failed or, with `j == 0`, all are about to begin an operation. */
  predicate Stands(s: State, j: nat) {
    && Calm(s) && s.totalErrors == Wrap32(s.failures) && j <= |s.workers|
    && (forall w | 0 <= w < j :: Struck(s.workers[w]))
    && forall w | j <= w < |s.workers| :: Resting(s.workers[w])
  }

  /** Before any of them looks at the counter, the first `j` workers fail. */
  lemma {:induction false} FailTogether(c: Config, s: State, j: nat) returns (t: State)
    requires Stands(s, 0) && j <= |s.workers|
    ensures Reaches(c, s, t) && Stands(t, j) && |t.workers| == |s.workers|
    ensures t.failures == s.failures + j
  {
    if j == 0 {
      t := s;
      ReachesSame(c, s);
    } else {
      var s1 := FailTogether(c, s, j - 1);
      assert Resting(s1.workers[j - 1]);
      t := FailAndCount(c, s1, j - 1);
      ReachesThrough(c, s, s1, t);
    }
  }

  /** If the counter is then below the limit, all can go on as if nothing had happened. */
  lemma {:induction false} RecoverTogether(c: Config, s: State, j: nat) returns (t: State)
    requires Stands(s, j) && !LimitReached(c, s.totalErrors) && c.maxErrorsAtRow != 1
    ensures Reaches(c, s, t) && Stands(t, 0) && |t.workers| == |s.workers|
    ensures t.failures == s.failures
    decreases j
  {
    if j == 0 {
      t := s;
      ReachesSame(c, s);
    } else {
      assert Struck(s.workers[j - 1]);
      var s1 := Recover(c, s, j - 1);
      t := RecoverTogether(c, s1, j - 1);
      ReachesThrough(c, s, s1, t);
    }
  }

  /** Together `j` workers take the number of failures past a point where the counter would show the limit reached. */
  lemma Volley(c: Config, s: State, j: nat) returns (t: State)
    requires Stands(s, 0) && j <= |s.workers|
    requires !LimitReached(c, Wrap32(s.failures + j)) && c.maxErrorsAtRow != 1
    ensures Reaches(c, s, t) && Stands(t, 0) && |t.workers| == |s.workers|
    ensures t.failures == s.failures + j
  {
    var s1 := FailTogether(c, s, j);
    t := RecoverTogether(c, s1, j);
    ReachesThrough(c, s, s1, t);
  }

  lemma InitStands(threads: nat)
    ensures Stands(Init(threads), 0)
  {}

  // ---- the limit on all errors ----

  /** While the counter has room, it counts every failure and passes its limit by less than the number of workers. */
  lemma ErrorsBounded(c: Config, threads: nat, schedule: seq<Event>)
    requires c.maxErrors > 0 && CounterFits(c, threads)
    ensures var s := Run(c, Init(threads), schedule);
            s.totalErrors == s.failures < c.maxErrors + threads
  {
    RunInv(c, threads, schedule);
    RunFits(c, threads, schedule);
    CountAtMost(c, Run(c, Init(threads), schedule));
    WrapBelow(Run(c, Init(threads), schedule).failures);
  }

  /** One worker alone takes the number of failures to any number below the limit. */
  lemma {:induction false} FailAlone(c: Config, threads: nat, n: nat) returns (t: State)
    requires threads >= 1 && n < c.maxErrors && n < TWO_31 && c.maxErrorsAtRow != 1
    ensures Reaches(c, Init(threads), t) && Stands(t, 0) && |t.workers| == threads && t.failures == n
  {
    InitStands(threads);
    if n == 0 {
      t := Init(threads);
      ReachesSame(c, t);
    } else {
      var s := FailAlone(c, threads, n - 1);
      WrapBelow(n);
      t := Volley(c, s, 1);
      ReachesThrough(c, Init(threads), s, t);
    }
  }

  /** Some schedule overshoots the limit by exactly the number of workers less one: the bound cannot be improved. */
  lemma BoundAttained(c: Config, threads: nat)
    requires threads >= 1 && c.maxErrors > 0 && c.maxErrorsAtRow != 1 && CounterFits(c, threads)
    ensures exists schedule :: Run(c, Init(threads), schedule).failures == c.maxErrors + threads - 1
  {
    var s := FailAlone(c, threads, c.maxErrors - 1);
    var t := FailTogether(c, s, threads);
    ReachesThrough(c, Init(threads), s, t);
  }

  /** When the counter is too small some number of workers can carry it past the limit unseen. */
  lemma StepOver(c: Config, threads: nat, f: nat) returns (j: nat)
    requires threads >= 1 && c.maxErrors > 0 && !CounterFits(c, threads)
    requires !LimitReached(c, Wrap32(f))
    ensures 1 <= j <= threads && !LimitReached(c, Wrap32(f + j))
  {
    WrapNext(f);
    if !LimitReached(c, Wrap32(f + 1)) {
      j := 1;
    } else {
      j := TWO_31 - (c.maxErrors - 1);
      WrapOver(f, c.maxErrors - 1);
    }
  }

  lemma WrapOver(f: nat, below: int)
    requires Wrap32(f) == below
    ensures Wrap32(f + (TWO_31 - below)) == -TWO_31
  {}

  /** Then the number of failures has no bound: they go on unnoticed. */
  lemma {:induction false} FailUnnoticed(c: Config, threads: nat, n: nat) returns (t: State)
    requires threads >= 1 && c.maxErrors > 0 && c.maxErrorsAtRow != 1 && !CounterFits(c, threads)
    ensures Reaches(c, Init(threads), t) && Stands(t, 0) && |t.workers| == threads
    ensures n <= t.failures && !LimitReached(c, t.totalErrors)
  {
    InitStands(threads);
    if n == 0 {
      t := Init(threads);
      ReachesSame(c, t);
    } else {
      var s := FailUnnoticed(c, threads, n - 1);
      var j := StepOver(c, threads, s.failures);
      t := Volley(c, s, j);
      ReachesThrough(c, Init(threads), s, t);
    }
  }

  /** With one error in a row too many there are no more errors than workers. */
  lemma NoMoreThanWorkers(c: Config, threads: nat, schedule: seq<Event>)
    requires c.maxErrorsAtRow == 1
    ensures Run(c, Init(threads), schedule).failures <= threads
  {
    RunInv(c, threads, schedule);
    RunFailed(c, threads, schedule);
    SumAtMost(Failed, Run(c, Init(threads), schedule).workers, 1);
  }

  /** For every number there is a schedule with as many errors and no limit noticed. */
  lemma LimitMissed(c: Config, threads: nat, n: nat)
    requires threads >= 1 && c.maxErrors > 0 && c.maxErrorsAtRow != 1 && !CounterFits(c, threads)
    ensures exists schedule :: n <= Run(c, Init(threads), schedule).failures && Calm(Run(c, Init(threads), schedule))
  {
    var t := FailUnnoticed(c, threads, n);
    var schedule :| Run(c, Init(threads), schedule) == t;
    assert Calm(Run(c, Init(threads), schedule));
  }

  /** Whether no schedule lets as many failures as the limit and the workers together go by. */
  ghost predicate LimitEnforced(c: Config, threads: nat) {
    forall schedule :: Run(c, Init(threads), schedule).failures < c.maxErrors + threads
  }

  /**
   A limit on all errors is enforced if and only if the 32-bit counter has room for the limit and one error of every
   worker, or a limit of one error in a row stops each worker at its first.
   */
  lemma EnforcedIffFits(c: Config, threads: nat)
    requires threads >= 1 && c.maxErrors > 0
    ensures LimitEnforced(c, threads) <==> c.maxErrors + threads <= 2_147_483_648 || c.maxErrorsAtRow == 1
  {
    if CounterFits(c, threads) {
      forall schedule
        ensures Run(c, Init(threads), schedule).failures < c.maxErrors + threads
      {
        ErrorsBounded(c, threads, schedule);
      }
    } else if c.maxErrorsAtRow == 1 {
      forall schedule
        ensures Run(c, Init(threads), schedule).failures < c.maxErrors + threads
      {
        NoMoreThanWorkers(c, threads, schedule);
      }
    } else {
      LimitMissed(c, threads, c.maxErrors + threads);
    }
  }

  /** The largest limit the counter can show is missed by two workers that fail together. */
  lemma LargestLimitMissed()
    ensures !LimitEnforced(Config(2_147_483_647, 0), 2)
  {
    EnforcedIffFits(Config(2_147_483_647, 0), 2);
  }

  // ---- the errors for the limit on errors in a row ----

  /** One for a worker whose errors in a row have reached their limit. */
  function AtRowLimit(c: Config): Worker -> nat {
    (v: Worker) => if 0 < c.maxErrorsAtRow <= v.errorsAtRow then 1 else 0
  }

  lemma {:induction false} SumAgrees(f: Worker -> nat, g: Worker -> nat, workers: seq<Worker>)
    requires forall w | 0 <= w < |workers| :: f(workers[w]) == g(workers[w])
    ensures Sum(f, workers) == Sum(g, workers)
  {
    if workers != [] {
      SumAgrees(f, g, workers[..|workers| - 1]);
    }
  }

  /** When all have left, each worker that reached its limit on errors in a row has recorded it once, and no other. */
  lemma RowErrorsRecorded(c: Config, threads: nat, schedule: seq<Event>)
    requires AllExited(Run(c, Init(threads), schedule))
    ensures var s := Run(c, Init(threads), schedule);
            s.rowErrors == Sum(AtRowLimit(c), s.workers)
  {
    RunRowErrors(c, threads, schedule);
    SumAgrees(RowRecorded(c), AtRowLimit(c), Run(c, Init(threads), schedule).workers);
  }

  // ---- the error for that limit ----

  /** When every worker has gone, a limit that was reached has been recorded exactly once and the flag is up. */
  lemma LimitErrorRecorded(c: Config, threads: nat, schedule: seq<Event>)
    requires Run(c, Init(threads), schedule).failures < TWO_31
    requires AllExited(Run(c, Init(threads), schedule)) && LimitPassed(c, Run(c, Init(threads), schedule))
    ensures var s := Run(c, Init(threads), schedule);
            s.limitErrors == 1 && s.flag
  {
    RunInv(c, threads, schedule);
    RunCountInv(c, threads, schedule);
    var s := Run(c, Init(threads), schedule);
    LateExists(s.workers);
    var w :| 0 <= w < threads && s.workers[w].late;
    assert LatePart(c, s, w);
  }

  /** No worker has entered the once, and the counter does not show the limit reached. */
  predicate Unseen(c: Config, s: State) {
    s.once == Fresh && s.limitErrors == 0 && !LimitReached(c, s.totalErrors)
  }

  predicate MayLeave(c: Config, v: Worker) { Resting(v) || (Struck(v) && c.maxErrorsAtRow == 1) }

  /** A worker leaves because its work is over or, with one error in a row too many, through the limit on those. */
  lemma Leave(c: Config, s: State, w: nat) returns (t: State)
    requires Unseen(c, s) && w < |s.workers| && MayLeave(c, s.workers[w])
    ensures Reaches(c, s, t) && Unseen(c, t) && t.failures == s.failures
    ensures t.workers == s.workers[w := s.workers[w].(pc := Exited)]
  {
    var e := Event(w, true, Ok);
    var s1 := Step(c, s, e);
    ReachesSame(c, s);
    ReachesStep(c, s, s, e);
    if Resting(s.workers[w]) {
      t := s1;
    } else {
      t := LeaveStruck(c, s1, w);
      ReachesThrough(c, s, s1, t);
    }
  }

  lemma LeaveStruck(c: Config, s: State, w: nat) returns (t: State)
    requires Unseen(c, s) && w < |s.workers| && s.workers[w].pc == AppendRow
    ensures Reaches(c, s, t) && Unseen(c, t) && t.failures == s.failures
    ensures t.workers == s.workers[w := s.workers[w].(pc := Exited)]
  {
    var e := Event(w, true, Ok);
    var s1 := Step(c, s, e);
    var s2 := Step(c, s1, e);
    ReachesSame(c, s);
    ReachesStep(c, s, s, e);
    ReachesStep(c, s, s1, e);
    t := PassUnseen(c, s2, w);
    ReachesThrough(c, s, s2, t);
  }

  lemma PassUnseen(c: Config, s: State, w: nat) returns (t: State)
    requires Unseen(c, s) && s.flag && w < |s.workers| && s.workers[w].pc == CheckLimit
    ensures Reaches(c, s, t) && Unseen(c, t) && t.failures == s.failures
    ensures t.workers == s.workers[w := s.workers[w].(pc := Exited)]
  {
    var e := Event(w, true, Ok);
    var s1 := Step(c, s, e);
    t := Step(c, s1, e);
    ReachesSame(c, s);
    ReachesStep(c, s, s, e);
    ReachesStep(c, s, s1, e);
  }

  lemma {:induction false} LeaveTogether(c: Config, s: State, j: nat) returns (t: State)
    requires Unseen(c, s) && j <= |s.workers|
    requires forall w | 0 <= w < j :: MayLeave(c, s.workers[w])
    ensures Reaches(c, s, t) && Unseen(c, t) && t.failures == s.failures && |t.workers| == |s.workers|
    ensures forall w | 0 <= w < j :: t.workers[w].pc == Exited
    ensures forall w | j <= w < |s.workers| :: t.workers[w] == s.workers[w]
  {
    if j == 0 {
      t := s;
      ReachesSame(c, s);
    } else {
      var s1 := LeaveTogether(c, s, j - 1);
      assert MayLeave(c, s.workers[j - 1]);
      t := Leave(c, s1, j - 1);
      ReachesThrough(c, s, s1, t);
    }
  }

  /** Whether every run that ends after the limit was reached ends with its error recorded. */
  ghost predicate LimitReported(c: Config, threads: nat) {
    forall schedule | AllExited(Run(c, Init(threads), schedule)) && LimitPassed(c, Run(c, Init(threads), schedule)) ::
      Run(c, Init(threads), schedule).limitErrors == 1
  }

  /** Enough failures that the counter does not show. */
  lemma Unreported(c: Config, threads: nat) returns (t: State)
    requires threads >= 1 && c.maxErrors > 0
    requires if c.maxErrorsAtRow == 1 then TWO_31 <= threads && c.maxErrors <= threads else !CounterFits(c, threads)
    ensures Reaches(c, Init(threads), t) && Unseen(c, t) && LimitPassed(c, t) && |t.workers| == threads
    ensures forall w | 0 <= w < threads :: MayLeave(c, t.workers[w])
  {
    if c.maxErrorsAtRow == 1 {
      var j := if c.maxErrors < TWO_31 then TWO_31 else c.maxErrors;
      InitStands(threads);
      WrapOver(0, 0);
      t := FailTogether(c, Init(threads), j);
      assert forall w | 0 <= w < threads :: if w < j then Struck(t.workers[w]) else Resting(t.workers[w]);
    } else {
      t := FailUnnoticed(c, threads, c.maxErrors);
      assert forall w | 0 <= w < threads :: Resting(t.workers[w]);
    }
  }

  /**
   A limit that was reached is reported in every run if and only if the counter has room or, where a worker's first
   error is its last, the workers are fewer than the limit or than the counter can count.
   */
  lemma ReportedIffFits(c: Config, threads: nat)
    requires threads >= 1 && c.maxErrors > 0
    ensures LimitReported(c, threads)
            <==> if c.maxErrorsAtRow == 1 then threads < TWO_31 || threads < c.maxErrors else CounterFits(c, threads)
  {
    if if c.maxErrorsAtRow == 1 then threads < TWO_31 || threads < c.maxErrors else CounterFits(c, threads) {
      forall schedule | AllExited(Run(c, Init(threads), schedule)) && LimitPassed(c, Run(c, Init(threads), schedule))
        ensures Run(c, Init(threads), schedule).limitErrors == 1
      {
        if c.maxErrorsAtRow == 1 {
          NoMoreThanWorkers(c, threads, schedule);
        } else {
          RunFits(c, threads, schedule);
        }
        LimitErrorRecorded(c, threads, schedule);
      }
    } else {
      var s := Unreported(c, threads);
      var t := LeaveTogether(c, s, threads);
      ReachesThrough(c, Init(threads), s, t);
      var schedule :| Run(c, Init(threads), schedule) == t;
      assert AllExited(t) && LimitPassed(c, t);
    }
  }
}
