/** The engine protocol as atomic steps of two threads: one controller calling the interface and one
    engine thread (native/engine_control.hpp, native/beam_native.cpp). */
module ControlState {
  import opened Arithmetic

  datatype Phase = Created | Preparing | Ready | Running | Stopped | Error

  datatype Outcome = Fine | Invalid | Busy | Failed | Cancelled | Timeout

  datatype Job = Job(sequence: nat, state: seq<nat>, directory: string)

  /** Where the engine thread is. `Leaving`: `next` returned false or `complete` threw. */
  datatype Engine = NotStarted | Idle | InNext | Working(job: Job) | Leaving | Ended

  /** The fields under the mutex, then what the proofs remember. */
  datatype State = State(phase: Phase, result: Outcome, completed: nat, error: string,
                         pending: Job, hasPending: bool, stop: bool,
                         engine: Engine, accepted: seq<Job>, delivered: seq<Job>, done: nat)

  /** How copying the arguments went. */
  datatype Arguments = Copied | Malformed | OutOfMemory

  /** How checking and copying a submitted job went. */
  datatype Submission = Submission(wellFormed: bool, usableDirectory: bool, copied: bool)

  datatype Step =
    | Prepare(arguments: Arguments, threadStarts: bool)
    | Submit(job: Job, submission: Submission)
    | Cancel
    | Look
    | EnterNext
    | LeaveNext
    | Complete
    | Finish(code: Outcome, message: string)

  function Fresh(): State {
    State(Created, Fine, 0, "", Job(0, [], ""), false, false, NotStarted, [], [], 0)
  }

  function Finished(s: State, code: Outcome, message: string): State {
    var outcome := if s.stop then Cancelled else code;
    s.(result := outcome, phase := if outcome == Failed then Error else Stopped, error := message)
  }

  const CANNOT_START := "cannot start native worker"

  /** A failure that `prepare` reports, whatever the engine thread is doing. */
  predicate ReportsFailure(s: State, step: Step) {
    step.Prepare? && (step.arguments == OutOfMemory
                        || (step.arguments == Copied && s.phase == Created && !step.threadStarts))
  }

  function AfterPrepare(s: State, step: Step): State
    requires step.Prepare?
  {
    if ReportsFailure(s, step) then Finished(s, Failed, CANNOT_START)
    else if step.arguments == Copied && s.phase == Created then s.(phase := Preparing, engine := Idle)
    else s
  }

  function SubmitAnswer(s: State, job: Job, submission: Submission): Outcome {
    if !submission.wellFormed then Invalid
    else if s.phase != Ready || s.stop then Busy
    else if job.sequence != s.completed then Invalid
    else if !submission.usableDirectory then Invalid
    else if !submission.copied then Failed
    else Fine
  }

  function AfterSubmit(s: State, job: Job, submission: Submission): State {
    if SubmitAnswer(s, job, submission) != Fine then s
    else s.(pending := job, hasPending := true, phase := Running, accepted := s.accepted + [job])
  }

  /** Whether `complete` accepts the job's sequence number; otherwise it throws. */
  predicate Completes(s: State, sequence: nat) {
    sequence == s.completed && s.phase == Running
  }

  function AfterComplete(s: State): State
    requires s.engine.Working?
  {
    if Completes(s, s.engine.job.sequence)
    then s.(completed := (s.completed + 1) % WORD, phase := Ready, engine := Idle, done := s.done + 1)
    else s.(engine := Leaving)
  }

  function AfterLeaveNext(s: State): State {
    if s.stop then s.(engine := Leaving)
    else s.(hasPending := false, engine := Working(s.pending), delivered := s.delivered + [s.pending])
  }

  /** The controller may call at any time; the engine alternates `next` and `complete` and ends by
      `finish`. It reports a cancellation only after it saw one. */
  predicate Enabled(s: State, step: Step) {
    match step
    case EnterNext => s.engine.Idle?
    case LeaveNext => s.engine.InNext? && (s.hasPending || s.stop)
    case Complete => s.engine.Working?
    case Finish(code, _) => (s.engine.Idle? || s.engine.Working? || s.engine.Leaving?)
          && (code == Fine || code == Failed || (code == Cancelled && s.stop))
    case _ => true
  }

  function Next(s: State, step: Step): State
    requires Enabled(s, step)
  {
    match step
    case Prepare(_, _) => AfterPrepare(s, step)
    case Submit(job, submission) => AfterSubmit(s, job, submission)
    case Cancel => s.(stop := true)
    case Look => s
    case EnterNext => s.(phase := if s.phase == Preparing then Ready else s.phase, engine := InNext)
    case LeaveNext => AfterLeaveNext(s)
    case Complete => AfterComplete(s)
    case Finish(code, message) => Finished(s, code, message).(engine := Ended)
  }

  /** Jobs are numbered by acceptance, and delivered in that order. */
  ghost predicate JobsInOrder(s: State) {
    && s.delivered <= s.accepted
    && |s.accepted| == |s.delivered| + (if s.hasPending then 1 else 0)
    && (s.hasPending ==> s.pending == s.accepted[|s.accepted| - 1])
    && s.completed == s.done % WORD
    && s.done <= |s.delivered| && |s.accepted| <= s.done + 1
    && forall k :: 0 <= k < |s.accepted| ==> s.accepted[k].sequence == k % WORD
  }

  ghost predicate EngineFits(s: State) {
    match s.engine
    case NotStarted => s.accepted == [] && (s.phase == Created || Over(s))
    case Idle => |s.delivered| == s.done && s.phase != Created
    case InNext => |s.delivered| == s.done && s.phase != Created && s.phase != Preparing
    case Working(job) => |s.delivered| == s.done + 1 && job == s.delivered[s.done] && s.phase != Created
    case Leaving => s.phase != Created && s.phase != Preparing
    case Ended => Over(s)
  }

  predicate Over(s: State) {
    s.phase == Stopped || s.phase == Error
  }

  ghost predicate PhaseFits(s: State) {
    && (s.phase == Created || s.phase == Preparing ==> s.accepted == [] && s.done == 0)
    && (s.phase == Ready ==> |s.accepted| == s.done)
    && (s.phase == Running ==> |s.accepted| == s.done + 1)
    && (s.phase == Error <==> s.result == Failed)
    && (!Over(s) ==> s.result == Fine)
    && (s.result == Fine || s.result == Failed || (s.result == Cancelled && s.stop))
  }

  /** `reported`: some `prepare` has reported a failure. */
  ghost predicate Inv(s: State, reported: bool) {
    JobsInOrder(s) && EngineFits(s) && PhaseFits(s) && (Over(s) <==> reported || s.engine.Ended?)
  }

  lemma StepKeepsInv(s: State, reported: bool, step: Step)
    requires Inv(s, reported) && Enabled(s, step)
    ensures Inv(Next(s, step), reported || ReportsFailure(s, step))
  {
    match step
    case Submit(job, submission) => SubmitKeepsInv(s, reported, job, submission);
    case Complete => CompleteKeepsInv(s, reported);
    case LeaveNext => LeaveNextKeepsInv(s, reported);
    case Prepare(_, _) => PrepareKeepsInv(s, reported, step);
    case Finish(code, message) => FinishKeepsInv(s, reported, code, message);
    case _ =>
  }

  lemma PrepareKeepsInv(s: State, reported: bool, step: Step)
    requires Inv(s, reported) && step.Prepare?
    ensures Inv(AfterPrepare(s, step), reported || ReportsFailure(s, step))
  {
  }

  lemma FinishKeepsInv(s: State, reported: bool, code: Outcome, message: string)
    requires Inv(s, reported) && Enabled(s, Finish(code, message))
    ensures Inv(Next(s, Finish(code, message)), reported)
  {
  }

  lemma SubmitKeepsInv(s: State, reported: bool, job: Job, submission: Submission)
    requires Inv(s, reported)
    ensures Inv(AfterSubmit(s, job, submission), reported)
  {
  }

  lemma LeaveNextKeepsInv(s: State, reported: bool)
    requires Inv(s, reported) && s.engine.InNext? && (s.hasPending || s.stop)
    ensures Inv(AfterLeaveNext(s), reported)
  {
    if !s.stop {
      assert s.accepted == s.delivered + [s.pending];
    }
  }

  lemma CompleteKeepsInv(s: State, reported: bool)
    requires Inv(s, reported) && s.engine.Working?
    ensures Inv(AfterComplete(s), reported)
  {
    SuccessorWraps(s.done);
  }

  lemma SuccessorWraps(n: nat)
    ensures (n % WORD + 1) % WORD == (n + 1) % WORD
  {
  }

  ghost predicate Legal(run: seq<Step>)
    decreases |run|, 0
  {
    run == [] || (Legal(run[..|run| - 1]) && Enabled(Final(run[..|run| - 1]), run[|run| - 1]))
  }

  ghost function Final(run: seq<Step>): State
    requires Legal(run)
    decreases |run|, 1
  {
    if run == [] then Fresh() else Next(Final(run[..|run| - 1]), run[|run| - 1])
  }

  /** Some `prepare` call of the run answered that it failed. */
  ghost predicate Reported(run: seq<Step>)
    requires Legal(run)
  {
    run != [] && (Reported(run[..|run| - 1]) || ReportsFailure(Final(run[..|run| - 1]), run[|run| - 1]))
  }

  lemma {:induction false} RunKeepsInv(run: seq<Step>)
    requires Legal(run)
    ensures Inv(Final(run), Reported(run))
  {
    if run != [] {
      RunKeepsInv(run[..|run| - 1]);
      StepKeepsInv(Final(run[..|run| - 1]), Reported(run[..|run| - 1]), run[|run| - 1]);
    }
  }

  /** Over every interleaving: jobs are delivered at most once, in the order 0, 1, 2, …; a ready context
      has completed all it accepted and holds nothing; a running one is exactly one job ahead. */
  lemma ProtocolIsOrdered(run: seq<Step>)
    requires Legal(run)
    ensures var s := Final(run);
            && s.delivered <= s.accepted
            && (forall k :: 0 <= k < |s.accepted| ==> s.accepted[k].sequence == k % WORD)
            && s.completed == s.done % WORD && s.done <= |s.delivered|
            && (s.phase == Ready ==> |s.accepted| == s.done && !s.hasPending)
            && (s.phase == Running ==> |s.accepted| == s.done + 1)
  {
    RunKeepsInv(run);
  }

  /** `complete` throws exactly when a `prepare` call has reported a failure before it. */
  lemma CompleteThrowsExactlyAfterReport(run: seq<Step>)
    requires Legal(run) && Final(run).engine.Working?
    ensures Completes(Final(run), Final(run).engine.job.sequence) <==> !Reported(run)
  {
    RunKeepsInv(run);
  }

  function Prepares(run: seq<Step>): nat {
    if run == [] then 0 else Prepares(run[..|run| - 1]) + if run[|run| - 1].Prepare? then 1 else 0
  }

  lemma {:induction false} OnePrepareStartsOrReports(run: seq<Step>)
    requires Legal(run) && Prepares(run) <= 1
    ensures Prepares(run) == 0 ==> Final(run).phase == Created && Final(run).engine.NotStarted?
    ensures Final(run).engine.NotStarted? || !Reported(run)
    ensures Prepares(run) == 0 ==> !Reported(run)
  {
    if run != [] {
      OnePrepareStartsOrReports(run[..|run| - 1]);
    }
  }

  /** For a controller that prepares once, `complete` never throws. */
  lemma CompleteNeverThrowsAfterOnePrepare(run: seq<Step>)
    requires Legal(run) && Prepares(run) <= 1 && Final(run).engine.Working?
    ensures Completes(Final(run), Final(run).engine.job.sequence)
  {
    OnePrepareStartsOrReports(run);
    CompleteThrowsExactlyAfterReport(run);
  }

  /** A second `prepare` that runs out of memory makes the running job's completion throw. */
  lemma SecondPrepareCanBreakCompletion() returns (run: seq<Step>)
    ensures Legal(run) && Final(run).engine.Working? && Final(run).done == 0 && !Final(run).stop
    ensures !Completes(Final(run), Final(run).engine.job.sequence)
  {
    var job := Job(0, [1], "/out");
    var r1 := [Prepare(Copied, true)];
    var r2 := r1 + [EnterNext];
    var r3 := r2 + [Submit(job, Submission(true, true, true))];
    var r4 := r3 + [LeaveNext];
    run := r4 + [Prepare(OutOfMemory, true)];
    assert r1[..0] == [];
    assert r2[..1] == r1 && r3[..2] == r2 && r4[..3] == r3 && run[..4] == r4;
    assert Legal(r1) && Final(r1).engine.Idle?;
    assert Legal(r2) && Final(r2).phase == Ready;
    assert Legal(r3) && Final(r3).hasPending;
    assert Legal(r4) && Final(r4).engine == Working(job);
  }

  /** Cancellation is terminal: from then on no job is accepted or delivered. */
  lemma {:induction false} NothingAfterCancel(run: seq<Step>, more: seq<Step>)
    requires Legal(run + more) && Legal(run) && Final(run).stop
    ensures Final(run + more).stop
    ensures Final(run + more).accepted == Final(run).accepted && Final(run + more).delivered == Final(run).delivered
    decreases |more|
  {
    if more == [] {
      assert run + more == run;
    } else {
      var front := more[..|more| - 1];
      assert (run + more)[..|run + more| - 1] == run + front;
      NothingAfterCancel(run, front);
    }
  }

  predicate EngineStep(step: Step) {
    step.EnterNext? || step.LeaveNext? || step.Complete? || step.Finish?
  }

  /** How many calls the engine thread can still make once it is cancelled. */
  function CallsLeft(engine: Engine): nat {
    match engine
    case Working(_) => 4
    case Idle => 3
    case InNext => 2
    case Leaving => 1
    case _ => 0
  }

  /** After a cancel the engine is never stuck in `next`, each of its calls brings it nearer to its end,
      and no controller call sends it back; so joining its thread ends. */
  lemma CancelledEngineEnds(run: seq<Step>, step: Step)
    requires Legal(run) && Final(run).stop
    ensures CallsLeft(Final(run).engine) > 0 ==> exists call :: EngineStep(call) && Enabled(Final(run), call)
    ensures EngineStep(step) && Enabled(Final(run), step) ==>
              CallsLeft(Next(Final(run), step).engine) < CallsLeft(Final(run).engine)
    ensures !EngineStep(step) && !step.Prepare? ==> Next(Final(run), step).engine == Final(run).engine
  {
    var s := Final(run);
    if CallsLeft(s.engine) > 0 {
      var call := match s.engine
        case Idle => EnterNext case InNext => LeaveNext case Working(_) => Complete case _ => Finish(Fine, "");
      assert EngineStep(call) && Enabled(s, call);
    }
  }

  /** `wait` answers once the context is ready or over. */
  predicate Settled(s: State) {
    s.phase == Ready || Over(s)
  }

  function WaitAnswer(s: State): Outcome {
    if s.stop then Cancelled else s.result
  }

  /** An answer of success from a context that is not over means that every accepted job is complete; an
      answer of failure means that the engine or a `prepare` call failed. */
  lemma WaitTells(run: seq<Step>)
    requires Legal(run) && Settled(Final(run))
    ensures WaitAnswer(Final(run)) == Cancelled <==> Final(run).stop
    ensures WaitAnswer(Final(run)) == Fine && !Over(Final(run)) ==> |Final(run).accepted| == Final(run).done
    ensures WaitAnswer(Final(run)) == Failed <==> !Final(run).stop && Final(run).phase == Error
    ensures Over(Final(run)) <==> Reported(run) || Final(run).engine.Ended?
  {
    RunKeepsInv(run);
  }

  // ---- what must happen ----

  const GOOD: Submission := Submission(true, true, true)

  lemma StepOfRun(run: seq<Step>, step: Step)
    requires Legal(run) && Enabled(Final(run), step)
    ensures Legal(run + [step]) && Final(run + [step]) == Next(Final(run), step)
  {
    assert (run + [step])[..|run|] == run;
  }

  /** A prepared engine becomes ready, with nothing accepted and success as its result. */
  lemma PrepareGetsReady()
    ensures var run := [Prepare(Copied, true), EnterNext];
            && Legal(run) && Final(run).phase == Ready && Final(run).engine == InNext && Final(run).result == Fine
            && Final(run).accepted == [] && Final(run).completed == 0 && !Final(run).stop
  {
    assert Legal([]);
    StepOfRun([], Prepare(Copied, true));
    StepOfRun([] + [Prepare(Copied, true)], EnterNext);
    assert [] + [Prepare(Copied, true)] + [EnterNext] == [Prepare(Copied, true), EnterNext];
  }

  /** A ready, uncancelled context accepts the job with the next number and no other, delivers it, and is ready
      again one job further: job after job, with success as every answer. */
  lemma NextJobRunsThrough(run: seq<Step>, job: Job)
    requires Legal(run) && Final(run).phase == Ready && !Final(run).stop && Final(run).engine == InNext
    requires job.sequence == |Final(run).accepted| % 18446744073709551616
    ensures var s := Final(run);
            && Legal(run + [Submit(job, GOOD)])
            && var t := Final(run + [Submit(job, GOOD)]);
            && t.phase == Running && t.pending == job && t.hasPending && t.accepted == s.accepted + [job]
    ensures var s, more := Final(run), [Submit(job, GOOD), LeaveNext, Complete, EnterNext];
            && Legal(run + more)
            && var t := Final(run + more);
            && t.phase == Ready && t.engine == InNext && t.result == Fine && !t.stop && !t.hasPending
            && t.delivered == s.delivered + [job] && t.accepted == s.accepted + [job]
            && t.completed == |t.accepted| % 18446744073709551616
  {
    RunKeepsInv(run);
    var r1 := run + [Submit(job, GOOD)];
    StepOfRun(run, Submit(job, GOOD));
    var r2 := r1 + [LeaveNext];
    StepOfRun(r1, LeaveNext);
    var r3 := r2 + [Complete];
    StepOfRun(r2, Complete);
    StepOfRun(r3, EnterNext);
    assert run + [Submit(job, GOOD), LeaveNext, Complete, EnterNext] == r3 + [EnterNext];
    RunKeepsInv(r3 + [EnterNext]);
  }

  /** Any other submission changes nothing. */
  lemma OtherSubmissionsAreRefused(run: seq<Step>, job: Job, submission: Submission)
    requires Legal(run)
    requires || Final(run).phase != Ready || Final(run).stop || submission != GOOD
             || job.sequence != |Final(run).accepted| % 18446744073709551616
    ensures Enabled(Final(run), Submit(job, submission)) && Next(Final(run), Submit(job, submission)) == Final(run)
  {
    RunKeepsInv(run);
  }

  /** `wait` on a ready, uncancelled context answers success; a cancel is seen by every later answer. */
  lemma WaitAnswers(run: seq<Step>)
    requires Legal(run)
    ensures Final(run).phase == Ready && !Final(run).stop ==> Settled(Final(run)) && WaitAnswer(Final(run)) == Fine
    ensures Final(run).stop ==> WaitAnswer(Final(run)) == Cancelled
    ensures Final(run).phase == Running || Final(run).phase == Preparing ==> !Settled(Final(run))
    ensures Legal(run + [Cancel]) && Final(run + [Cancel]) == Final(run).(stop := true)
  {
    RunKeepsInv(run);
    StepOfRun(run, Cancel);
  }
}
