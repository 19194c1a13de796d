/**
 How a run with too many errors stops. Several workers run the test loop side by side; they share an error counter, a
 `sync.Once` around the limit error, and the global error flag. Every shared access is one atomic step, and a schedule
 may interleave the steps of the workers in any way.
 */
module StopProtocol {

  /** The limits of a run; zero switches a limit off. */
  datatype Config = Config(maxErrors: int, maxErrorsAtRow: int)

  /** Where a worker stands in the loop. */
  datatype Pc =
    | AtCheck      // about to ask the iterator whether to go on
    | InTest       // running the operation
    | CountError   // about to add to the shared counter
    | CheckRow     // about to compare its own errors in a row with their limit
    | AppendRow    // about to record the error for that limit
    | FlagRow      // about to raise the flag for it
    | CheckLimit   // about to compare the shared counter with its limit
    | AwaitOnce    // about to enter the once, or waiting for the worker inside
    | AppendLimit  // inside the once, about to record the error for the shared limit
    | FlagLimit    // inside the once, about to raise the flag
    | LeaveOnce    // inside the once, about to leave
    | CheckFlag    // about to read the flag
    | Exited

  /**
   One worker. `late` and `opsAfterFlag` only remember the past: whether the worker added an error when the limit was or
   thereby became reached, and how many operations it has begun with the flag already up.
   */
  datatype Worker = Worker(pc: Pc, errorsAtRow: int, late: bool, opsAfterFlag: nat)

  datatype Once = Fresh | Busy(worker: nat) | Finished

  /** `failures` remembers how many errors have been counted; the counter itself is `totalErrors`. */
  datatype State = State(
    workers: seq<Worker>,
    totalErrors: int,
    failures: nat,
    flag: bool,
    once: Once,
    limitErrors: nat,
    rowErrors: nat)

  datatype Outcome = Ok | DoNotRegister | Fail

  /** What the environment decides when a worker takes a step: whether its work is over, how its operation ends. */
  datatype Event = Event(worker: nat, workOver: bool, outcome: Outcome)

  function Init(threads: nat): State {
    State(seq(threads, i => Worker(AtCheck, 0, false, 0)), 0, 0, false, Fresh, 0, 0)
  }

  const TWO_31 := 0x8000_0000

  /** The counter is an `atomic.Int32`. */
  function Wrap32(x: int): int {
    (x + TWO_31) % 0x1_0000_0000 - TWO_31
  }

  function LimitReached(c: Config, total: int): bool { c.maxErrors > 0 && total >= c.maxErrors }

  predicate Enabled(s: State, w: nat) {
    w < |s.workers| && s.workers[w].pc != Exited && !(s.workers[w].pc == AwaitOnce && s.once.Busy?)
  }

  function SetWorker(s: State, w: nat, v: Worker): State
    requires w < |s.workers|
  {
    s.(workers := s.workers[w := v])
  }

  /** One step; a worker that cannot move leaves everything as it is. */
  function Step(c: Config, s: State, e: Event): State {
    if !Enabled(s, e.worker) then s
    else
      var w := e.worker;
      var v := s.workers[w];
      match v.pc
      case AtCheck =>
        if e.workOver then SetWorker(s, w, v.(pc := Exited))
        else SetWorker(s, w, v.(pc := InTest, opsAfterFlag := v.opsAfterFlag + if s.flag then 1 else 0))
      case InTest =>
        (match e.outcome
         case Ok => SetWorker(s, w, v.(pc := CheckRow, errorsAtRow := 0))
         case DoNotRegister => SetWorker(s, w, v.(pc := CheckRow))
         case Fail => SetWorker(s, w, v.(pc := CountError, errorsAtRow := v.errorsAtRow + 1)))
      case CountError =>
        var total := Wrap32(s.totalErrors + 1);
        SetWorker(s, w, v.(pc := CheckRow, late := v.late || LimitReached(c, total)))
          .(totalErrors := total, failures := s.failures + 1)
      case CheckRow =>
        if c.maxErrorsAtRow > 0 && v.errorsAtRow >= c.maxErrorsAtRow then SetWorker(s, w, v.(pc := AppendRow))
        else SetWorker(s, w, v.(pc := CheckLimit))
      case AppendRow => SetWorker(s, w, v.(pc := FlagRow)).(rowErrors := s.rowErrors + 1)
      case FlagRow => SetWorker(s, w, v.(pc := CheckLimit)).(flag := true)
      case CheckLimit =>
        if LimitReached(c, s.totalErrors) then SetWorker(s, w, v.(pc := AwaitOnce))
        else SetWorker(s, w, v.(pc := CheckFlag))
      case AwaitOnce =>
        if s.once.Fresh? then SetWorker(s, w, v.(pc := AppendLimit)).(once := Busy(w))
        else SetWorker(s, w, v.(pc := CheckFlag))
      case AppendLimit => SetWorker(s, w, v.(pc := FlagLimit)).(limitErrors := s.limitErrors + 1)
      case FlagLimit => SetWorker(s, w, v.(pc := LeaveOnce)).(flag := true)
      case LeaveOnce => SetWorker(s, w, v.(pc := CheckFlag)).(once := Finished)
      case CheckFlag =>
        if s.flag then SetWorker(s, w, v.(pc := Exited)) else SetWorker(s, w, v.(pc := AtCheck))
      case Exited => s
  }

  /** The state after a schedule. */
  function Run(c: Config, s: State, schedule: seq<Event>): State {
    if schedule == [] then s else Step(c, Run(c, s, schedule[..|schedule| - 1]), schedule[|schedule| - 1])
  }

  // ---- sums over the workers ----

  function Sum(f: Worker -> nat, workers: seq<Worker>): nat {
    if workers == [] then 0 else Sum(f, workers[..|workers| - 1]) + f(workers[|workers| - 1])
  }

  lemma {:induction false} SumUpdate(f: Worker -> nat, workers: seq<Worker>, w: nat, v: Worker)
    requires w < |workers|
    ensures Sum(f, workers[w := v]) == Sum(f, workers) - f(workers[w]) + f(v)
  {
    var n := |workers| - 1;
    if w == n {
      assert workers[w := v][..n] == workers[..n];
    } else {
      SumUpdate(f, workers[..n], w, v);
      assert workers[w := v][..n] == workers[..n][w := v];
    }
  }

  lemma {:induction false} SumAtMost(f: Worker -> nat, workers: seq<Worker>, most: nat)
    requires forall v :: f(v) <= most
    ensures Sum(f, workers) <= most * |workers|
  {
    if workers != [] {
      SumAtMost(f, workers[..|workers| - 1], most);
    }
  }

  lemma {:induction false} SumZero(f: Worker -> nat, workers: seq<Worker>)
    requires forall w | 0 <= w < |workers| :: f(workers[w]) == 0
    ensures Sum(f, workers) == 0
  {
    if workers != [] {
      SumZero(f, workers[..|workers| - 1]);
    }
  }

  /** One for a worker that added an error when the limit was reached. */
  function Late(v: Worker): nat { if v.late then 1 else 0 }

  /** One for a worker whose last operations failed, once the failure is counted. */
  function Failed(v: Worker): nat { if v.errorsAtRow == 1 && v.pc != CountError then 1 else 0 }

  lemma LateExists(workers: seq<Worker>)
    requires Sum(Late, workers) > 0
    ensures exists w | 0 <= w < |workers| :: workers[w].late
  {
    if forall w | 0 <= w < |workers| :: !workers[w].late {
      SumZero(Late, workers);
    }
  }

  lemma NotAllLate(workers: seq<Worker>, w: nat)
    requires w < |workers| && !workers[w].late
    ensures Sum(Late, workers) < |workers|
  {
    var all := workers[w := workers[w].(late := true)];
    SumUpdate(Late, workers, w, workers[w].(late := true));
    SumAtMost(Late, all, 1);
  }

  // ---- what every run keeps, whatever its limits ----

  predicate InsideOnce(pc: Pc) { pc == AppendLimit || pc == FlagLimit || pc == LeaveOnce }

  /** Not yet at an operation of the next round. */
  predicate AfterCount(pc: Pc) { pc != AtCheck && pc != InTest && pc != CountError }

  /** Past the comparison of its own errors in a row. */
  predicate AfterRowCheck(pc: Pc) {
    pc != AtCheck && pc != InTest && pc != CountError && pc != CheckRow && pc != AppendRow && pc != FlagRow
  }

  /** As many errors as the limit allows have been counted. */
  predicate LimitPassed(c: Config, s: State) { 0 < c.maxErrors <= s.failures }

  /** The worker inside the once is the one it is busy with. */
  ghost predicate OncePart(c: Config, s: State, w: nat)
    requires w < |s.workers|
  {
    var v := s.workers[w];
    && (InsideOnce(v.pc) <==> s.once == Busy(w))
    && (v.pc == AwaitOnce ==> LimitPassed(c, s))
  }

  /** A worker that has begun an operation with the flag up does not begin another. */
  ghost predicate FlagPart(s: State, w: nat)
    requires w < |s.workers|
  {
    var v := s.workers[w];
    v.opsAfterFlag <= 1 && (v.opsAfterFlag == 1 ==> s.flag && v.pc != AtCheck)
  }

  /** A worker whose errors in a row have reached their limit raises the flag before it can leave the round. */
  ghost predicate RowPart(c: Config, s: State, w: nat)
    requires w < |s.workers|
  {
    var v := s.workers[w];
    && 0 <= v.errorsAtRow && (v.pc == CountError ==> 1 <= v.errorsAtRow)
    && (v.pc == AppendRow || v.pc == FlagRow ==> 0 < c.maxErrorsAtRow <= v.errorsAtRow)
    && (c.maxErrorsAtRow > 0 ==>
          && v.errorsAtRow <= c.maxErrorsAtRow
          && (v.errorsAtRow == c.maxErrorsAtRow ==>
                v.pc != AtCheck && v.pc != InTest && (AfterRowCheck(v.pc) ==> s.flag)))
  }

  ghost predicate WorkerInv(c: Config, s: State, w: nat)
    requires w < |s.workers|
  {
    OncePart(c, s, w) && FlagPart(s, w) && RowPart(c, s, w)
  }

  ghost predicate OnceInv(c: Config, s: State) {
    && (s.once != Fresh ==> LimitPassed(c, s))
    && match s.once
       case Fresh => s.limitErrors == 0
       case Busy(w) =>
         && w < |s.workers|
         && s.limitErrors == (if s.workers[w].pc == AppendLimit then 0 else 1)
         && (s.workers[w].pc == LeaveOnce ==> s.flag)
       case Finished => s.limitErrors == 1 && s.flag
  }

  /** Errors are recorded before the flag goes up. */
  ghost predicate RecordInv(s: State) {
    && (s.flag ==> s.rowErrors + s.limitErrors >= 1)
    && forall w | 0 <= w < |s.workers| && s.workers[w].pc == FlagRow :: s.rowErrors >= 1
  }

  ghost predicate Inv(c: Config, s: State) {
    && s.totalErrors == Wrap32(s.failures)
    && OnceInv(c, s)
    && RecordInv(s)
    && forall w | 0 <= w < |s.workers| :: WorkerInv(c, s, w)
  }

  /** What a step by worker `w` leaves alone, and what it only lets grow. */
  ghost predicate Grows(s: State, t: State, w: nat)
    requires w < |s.workers|
  {
    && |t.workers| == |s.workers| && t.workers == s.workers[w := t.workers[w]]
    && (s.flag ==> t.flag)
    && s.failures <= t.failures
    && (s.once == Finished ==> t.once == Finished)
  }

  lemma StepGrows(c: Config, s: State, e: Event)
    requires Enabled(s, e.worker)
    ensures Grows(s, Step(c, s, e), e.worker)
  {}

  lemma StepCounts(c: Config, s: State, e: Event)
    requires s.totalErrors == Wrap32(s.failures)
    ensures Step(c, s, e).totalErrors == Wrap32(Step(c, s, e).failures)
  {
    WrapNext(s.failures);
  }

  lemma WrapNext(n: int)
    ensures Wrap32(Wrap32(n) + 1) == Wrap32(n + 1)
  {}

  lemma WrapBelow(n: nat)
    ensures Wrap32(n) <= n
    ensures n < TWO_31 ==> Wrap32(n) == n
  {}

  /** The counter never shows the limit reached before it is. */
  lemma ReachedOnlyPassed(c: Config, s: State)
    requires s.totalErrors == Wrap32(s.failures)
    ensures LimitReached(c, s.totalErrors) ==> LimitPassed(c, s)
  {
    WrapBelow(s.failures);
  }

  lemma StepOnceInv(c: Config, s: State, e: Event)
    requires Enabled(s, e.worker) && OnceInv(c, s) && OncePart(c, s, e.worker)
    ensures OnceInv(c, Step(c, s, e))
  {}

  lemma StepOncePart(c: Config, s: State, e: Event)
    requires Enabled(s, e.worker) && OncePart(c, s, e.worker)
    requires LimitReached(c, s.totalErrors) ==> LimitPassed(c, s)
    ensures OncePart(c, Step(c, s, e), e.worker)
  {}

  lemma StepOnceOthers(c: Config, s: State, e: Event, u: nat)
    requires Enabled(s, e.worker) && OncePart(c, s, e.worker) && u != e.worker
    ensures s.once == Busy(u) <==> Step(c, s, e).once == Busy(u)
  {}

  lemma StepRecord(c: Config, s: State, e: Event)
    requires Enabled(s, e.worker)
    requires OnceInv(c, s) && RecordInv(s) && OncePart(c, s, e.worker)
    ensures RecordInv(Step(c, s, e))
  {}

  lemma StepFlagPart(c: Config, s: State, e: Event)
    requires Enabled(s, e.worker)
    requires FlagPart(s, e.worker)
    ensures FlagPart(Step(c, s, e), e.worker)
  {}

  lemma StepRowPart(c: Config, s: State, e: Event)
    requires Enabled(s, e.worker) && RowPart(c, s, e.worker)
    requires s.workers[e.worker].pc == LeaveOnce ==> s.flag
    ensures RowPart(c, Step(c, s, e), e.worker)
  {}

  /** Every step of every worker keeps the invariant. */
  lemma StepInv(c: Config, s: State, e: Event)
    requires Inv(c, s)
    ensures Inv(c, Step(c, s, e)) && |Step(c, s, e).workers| == |s.workers|
  {
    if Enabled(s, e.worker) {
      var t := Step(c, s, e);
      assert WorkerInv(c, s, e.worker);
      StepGrows(c, s, e);
      StepCounts(c, s, e);
      ReachedOnlyPassed(c, s);
      StepOnceInv(c, s, e);
      StepOncePart(c, s, e);
      StepRecord(c, s, e);
      StepFlagPart(c, s, e);
      StepRowPart(c, s, e);
      forall u | 0 <= u < |t.workers|
        ensures WorkerInv(c, t, u)
      {
        if u != e.worker {
          assert WorkerInv(c, s, u);
          StepOnceOthers(c, s, e, u);
        }
      }
    }
  }

  lemma {:induction false} RunInv(c: Config, threads: nat, schedule: seq<Event>)
    ensures Inv(c, Run(c, Init(threads), schedule))
    ensures |Run(c, Init(threads), schedule).workers| == threads
  {
    if schedule != [] {
      var n := |schedule| - 1;
      RunInv(c, threads, schedule[..n]);
      StepInv(c, Run(c, Init(threads), schedule[..n]), schedule[n]);
    }
  }

  // ---- what a run keeps as long as the counter has not wrapped ----

  /** A worker that saw the limit reached goes through the once before it can leave the round. */
  ghost predicate LatePart(c: Config, s: State, w: nat)
    requires w < |s.workers|
  {
    var v := s.workers[w];
    && (v.late ==> AfterCount(v.pc) && LimitPassed(c, s))
    && (v.late && (v.pc == CheckFlag || v.pc == Exited) ==> s.once == Finished)
  }

  /** Past the limit, each further error has been added by another worker. */
  ghost predicate CountInv(c: Config, s: State) {
    && (c.maxErrors > 0 ==> s.failures < c.maxErrors + Sum(Late, s.workers))
    && forall w | 0 <= w < |s.workers| :: LatePart(c, s, w)
  }

  lemma InitCountInv(c: Config, threads: nat)
    ensures CountInv(c, Init(threads))
  {
    SumZero(Late, Init(threads).workers);
  }

  lemma CountAtMost(c: Config, s: State)
    requires CountInv(c, s) && c.maxErrors > 0
    ensures s.failures < c.maxErrors + |s.workers|
  {
    SumAtMost(Late, s.workers, 1);
  }

  /** The counter has not wrapped, and will not when the step of worker `w` adds to it. */
  ghost predicate RoomToCount(s: State, w: nat)
    requires w < |s.workers|
  {
    && s.totalErrors == s.failures
    && (s.workers[w].pc == CountError ==> !s.workers[w].late && Wrap32(s.totalErrors + 1) == s.failures + 1)
  }

  lemma HasRoom(c: Config, s: State, e: Event)
    requires s.totalErrors == Wrap32(s.failures) && CountInv(c, s)
    requires Enabled(s, e.worker) && Step(c, s, e).failures < TWO_31
    ensures RoomToCount(s, e.worker)
  {
    assert LatePart(c, s, e.worker);
    WrapBelow(s.failures);
    WrapBelow(s.failures + 1);
  }

  lemma StepLatePart(c: Config, s: State, e: Event)
    requires Enabled(s, e.worker) && LatePart(c, s, e.worker) && OncePart(c, s, e.worker)
    requires s.once == Finished ==> s.flag
    requires RoomToCount(s, e.worker)
    ensures LatePart(c, Step(c, s, e), e.worker)
  {}

  /** A step that takes the number of failures to the limit or past it makes its worker late. */
  lemma StepMakesLate(c: Config, s: State, e: Event)
    requires c.maxErrors > 0 && Enabled(s, e.worker) && RoomToCount(s, e.worker)
    ensures |Step(c, s, e).workers| == |s.workers|
    ensures var rise := Late(Step(c, s, e).workers[e.worker]) - Late(s.workers[e.worker]);
            rise >= 0 && (Step(c, s, e).failures < c.maxErrors || Step(c, s, e).failures <= s.failures + rise)
  {}

  lemma StepCount(c: Config, s: State, e: Event)
    requires c.maxErrors > 0 && Enabled(s, e.worker) && RoomToCount(s, e.worker)
    requires s.failures < c.maxErrors + Sum(Late, s.workers)
    ensures Step(c, s, e).failures < c.maxErrors + Sum(Late, Step(c, s, e).workers)
  {
    StepMakesLate(c, s, e);
    StepGrows(c, s, e);
    SumUpdate(Late, s.workers, e.worker, Step(c, s, e).workers[e.worker]);
  }

  lemma StepCountInv(c: Config, s: State, e: Event)
    requires Inv(c, s) && CountInv(c, s) && Step(c, s, e).failures < TWO_31
    ensures CountInv(c, Step(c, s, e))
  {
    if Enabled(s, e.worker) {
      var t := Step(c, s, e);
      assert WorkerInv(c, s, e.worker);
      HasRoom(c, s, e);
      if c.maxErrors > 0 {
        StepCount(c, s, e);
      }
      StepGrows(c, s, e);
      StepLatePart(c, s, e);
      forall u | 0 <= u < |t.workers|
        ensures LatePart(c, t, u)
      {
        if u != e.worker {
          assert LatePart(c, s, u);
        }
      }
    }
  }

  lemma {:induction false} RunCountInv(c: Config, threads: nat, schedule: seq<Event>)
    requires Run(c, Init(threads), schedule).failures < TWO_31
    ensures CountInv(c, Run(c, Init(threads), schedule))
  {
    if schedule == [] {
      InitCountInv(c, threads);
    } else {
      var n := |schedule| - 1;
      var s := Run(c, Init(threads), schedule[..n]);
      if Enabled(s, schedule[n].worker) {
        StepGrows(c, s, schedule[n]);
      }
      RunInv(c, threads, schedule[..n]);
      RunCountInv(c, threads, schedule[..n]);
      StepCountInv(c, s, schedule[n]);
    }
  }

  /** The counter has room for the limit and one error of every worker. */
  predicate CounterFits(c: Config, threads: nat) { c.maxErrors + threads <= TWO_31 }

  /** A worker about to count is not late, so there is room for its error. */
  lemma StepFits(c: Config, s: State, e: Event)
    requires c.maxErrors > 0 && CountInv(c, s) && CounterFits(c, |s.workers|)
    ensures Step(c, s, e).failures < TWO_31
  {
    CountAtMost(c, s);
    if Enabled(s, e.worker) && s.workers[e.worker].pc == CountError {
      assert LatePart(c, s, e.worker);
      NotAllLate(s.workers, e.worker);
    }
  }

  /** Then the counter never wraps. */
  lemma {:induction false} RunFits(c: Config, threads: nat, schedule: seq<Event>)
    requires c.maxErrors > 0 && CounterFits(c, threads)
    ensures Run(c, Init(threads), schedule).failures < TWO_31
    ensures CountInv(c, Run(c, Init(threads), schedule))
  {
    if schedule == [] {
      InitCountInv(c, threads);
    } else {
      var n := |schedule| - 1;
      var s := Run(c, Init(threads), schedule[..n]);
      RunInv(c, threads, schedule[..n]);
      RunFits(c, threads, schedule[..n]);
      StepFits(c, s, schedule[n]);
      StepCountInv(c, s, schedule[n]);
    }
  }

  // ---- what a run keeps when one error of a worker is its last ----

  /** A step adds an error only by marking its worker. */
  lemma StepMarks(c: Config, s: State, e: Event)
    requires c.maxErrorsAtRow == 1 && Enabled(s, e.worker) && RowPart(c, s, e.worker)
    ensures |Step(c, s, e).workers| == |s.workers|
    ensures Step(c, s, e).failures - s.failures
            <= Failed(Step(c, s, e).workers[e.worker]) - Failed(s.workers[e.worker])
  {}

  lemma StepFailed(c: Config, s: State, e: Event)
    requires c.maxErrorsAtRow == 1 && Inv(c, s) && s.failures <= Sum(Failed, s.workers)
    ensures Step(c, s, e).failures <= Sum(Failed, Step(c, s, e).workers)
  {
    if Enabled(s, e.worker) {
      assert WorkerInv(c, s, e.worker);
      StepMarks(c, s, e);
      StepGrows(c, s, e);
      SumUpdate(Failed, s.workers, e.worker, Step(c, s, e).workers[e.worker]);
    }
  }

  /** With a limit of one error in a row no worker adds two errors. */
  lemma {:induction false} RunFailed(c: Config, threads: nat, schedule: seq<Event>)
    requires c.maxErrorsAtRow == 1
    ensures Run(c, Init(threads), schedule).failures <= Sum(Failed, Run(c, Init(threads), schedule).workers)
  {
    if schedule != [] {
      var n := |schedule| - 1;
      RunInv(c, threads, schedule[..n]);
      RunFailed(c, threads, schedule[..n]);
      StepFailed(c, Run(c, Init(threads), schedule[..n]), schedule[n]);
    }
  }

  // ---- the errors recorded for the limit on errors in a row ----

  /** One for a worker that has recorded that its errors in a row reached their limit. */
  function Recorded(c: Config, v: Worker): nat {
    if 0 < c.maxErrorsAtRow <= v.errorsAtRow && (v.pc == FlagRow || AfterRowCheck(v.pc)) then 1 else 0
  }

  function RowRecorded(c: Config): Worker -> nat { (v: Worker) => Recorded(c, v) }

  lemma StepRecords(c: Config, s: State, e: Event)
    requires Enabled(s, e.worker) && RowPart(c, s, e.worker)
    ensures |Step(c, s, e).workers| == |s.workers|
    ensures Step(c, s, e).rowErrors - s.rowErrors
            == Recorded(c, Step(c, s, e).workers[e.worker]) - Recorded(c, s.workers[e.worker])
  {}

  lemma StepRowErrors(c: Config, s: State, e: Event)
    requires Inv(c, s)
    ensures Step(c, s, e).rowErrors - s.rowErrors
            == Sum(RowRecorded(c), Step(c, s, e).workers) - Sum(RowRecorded(c), s.workers)
  {
    if Enabled(s, e.worker) {
      assert WorkerInv(c, s, e.worker);
      StepRecords(c, s, e);
      StepGrows(c, s, e);
      SumUpdate(RowRecorded(c), s.workers, e.worker, Step(c, s, e).workers[e.worker]);
    }
  }

  /** Each worker records that error once. */
  lemma {:induction false} RunRowErrors(c: Config, threads: nat, schedule: seq<Event>)
    ensures var s := Run(c, Init(threads), schedule);
            s.rowErrors == Sum(RowRecorded(c), s.workers) <= threads
  {
    RunInv(c, threads, schedule);
    SumAtMost(RowRecorded(c), Run(c, Init(threads), schedule).workers, 1);
    if schedule == [] {
      SumZero(RowRecorded(c), Init(threads).workers);
    } else {
      var n := |schedule| - 1;
      RunInv(c, threads, schedule[..n]);
      RunRowErrors(c, threads, schedule[..n]);
      StepRowErrors(c, Run(c, Init(threads), schedule[..n]), schedule[n]);
    }
  }
}
