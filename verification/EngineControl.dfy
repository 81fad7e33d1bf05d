/** The context shared by the controller and the engine thread. Every method is one critical section of
    its mutex (native/engine_control.hpp, native/beam_native.cpp). */
module EngineControl {
  import opened Arithmetic
  import opened ControlState
  import opened Wrappers

  class Context {
    var phase: Phase
    var result: Outcome
    var completed: nat
    var error: string
    var pending: Job
    var hasPending: bool
    var stop: bool
    /** What the proofs remember: the engine thread's place and the jobs that passed. */
    ghost var memory: (Engine, seq<Job>, seq<Job>, nat)

    ghost function Snapshot(): State
      reads this
    {
      State(phase, result, completed, error, pending, hasPending, stop, memory.0, memory.1, memory.2, memory.3)
    }

    ghost method Remember(s: State)
      modifies this`memory
      ensures memory == (s.engine, s.accepted, s.delivered, s.done)
    {
      memory := (s.engine, s.accepted, s.delivered, s.done);
    }

    constructor ()
      ensures Snapshot() == Fresh()
    {
      phase, result, completed, error := Created, Fine, 0, "";
      pending, hasPending, stop := Job(0, [], ""), false, false;
      memory := (NotStarted, [], [], 0);
    }

    method Finish(code: Outcome, message: string)
      modifies this
      ensures Snapshot() == Finished(old(Snapshot()), code, message)
      ensures result == (if stop then Cancelled else code) && error == message
      ensures phase == if result == Failed then Error else Stopped
    {
      result := if stop then Cancelled else code;
      phase := if result == Failed then Error else Stopped;
      error := message;
    }

    /** The engine thread's last call. */
    method EngineFinish(code: Outcome, message: string)
      requires Enabled(Snapshot(), Step.Finish(code, message))
      modifies this
      ensures Snapshot() == Next(old(Snapshot()), Step.Finish(code, message))
    {
      Finish(code, message);
      Remember(Snapshot().(engine := Ended));
    }

    /** `next` up to the moment it waits. */
    method EnterNext()
      requires Enabled(Snapshot(), Step.EnterNext)
      modifies this
      ensures Snapshot() == Next(old(Snapshot()), Step.EnterNext)
      ensures phase == if old(phase) == Preparing then Ready else old(phase)
    {
      if phase == Preparing {
        phase := Ready;
      }
      Remember(Snapshot().(engine := InNext));
    }

    /** `next` once a job is pending or the search is cancelled. */
    method LeaveNext() returns (job: Option<Job>)
      requires Enabled(Snapshot(), Step.LeaveNext)
      modifies this
      ensures Snapshot() == Next(old(Snapshot()), Step.LeaveNext)
      ensures job == if old(stop) then None else Some(old(pending))
    {
      ghost var next := Next(Snapshot(), Step.LeaveNext);
      Remember(next);
      if stop {
        return None;
      }
      job := Some(pending);
      hasPending := false;
    }

    /** Completes the job delivered last; an error stands for the exception of a mismatch. */
    method Complete(sequence: nat) returns (r: Result<(), ()>)
      requires Snapshot().engine.Working? && Snapshot().engine.job.sequence == sequence
      modifies this
      ensures Snapshot() == Next(old(Snapshot()), Step.Complete)
      ensures r.Ok? <==> Completes(old(Snapshot()), sequence)
      ensures r.Ok? <==> sequence == old(completed) && old(phase) == Running
      ensures r.Ok? ==> phase == Ready && completed == (old(completed) + 1) % 18446744073709551616
    {
      ghost var next := Next(Snapshot(), Step.Complete);
      Remember(next);
      if sequence != completed || phase != Running {
        return Err(());
      }
      completed := (completed + 1) % WORD;
      phase := Ready;
      return Ok(());
    }

    method Prepare(arguments: Arguments, threadStarts: bool) returns (r: Outcome)
      modifies this
      ensures Snapshot() == Next(old(Snapshot()), Step.Prepare(arguments, threadStarts))
      ensures r == Failed <==> ReportsFailure(old(Snapshot()), Step.Prepare(arguments, threadStarts))
      ensures r == Fine <==> old(phase) == Created && phase == Preparing
      ensures r == Invalid <==> arguments == Malformed
      ensures r == Busy <==> arguments == Copied && old(phase) != Created
    {
      if arguments == Malformed {
        return Invalid;
      }
      if arguments == OutOfMemory {
        Finish(Failed, CANNOT_START);
        return Failed;
      }
      if phase != Created {
        return Busy;
      }
      phase := Preparing;
      if !threadStarts {
        Finish(Failed, CANNOT_START);
        return Failed;
      }
      Remember(Snapshot().(engine := Idle));
      return Fine;
    }

    method Submit(job: Job, submission: Submission) returns (r: Outcome)
      modifies this
      ensures Snapshot() == Next(old(Snapshot()), Step.Submit(job, submission))
      ensures r == SubmitAnswer(old(Snapshot()), job, submission)
      ensures r == Fine <==>
                && old(phase) == Ready && !old(stop) && job.sequence == old(completed)
                && submission.wellFormed && submission.usableDirectory && submission.copied
      ensures r == Fine ==> phase == Running && hasPending && pending == job
      ensures r == Busy <==> submission.wellFormed && (old(phase) != Ready || old(stop))
    {
      if !submission.wellFormed {
        return Invalid;
      }
      if phase != Ready || stop {
        return Busy;
      }
      if job.sequence != completed || !submission.usableDirectory {
        return Invalid;
      }
      if !submission.copied {
        return Failed;
      }
      ghost var next := Next(Snapshot(), Step.Submit(job, submission));
      pending := job;
      hasPending := true;
      phase := Running;
      Remember(next);
      return Fine;
    }

    method Cancel()
      modifies this
      ensures Snapshot() == Next(old(Snapshot()), Step.Cancel) && stop
    {
      stop := true;
    }

    /** The answer of a wait that sees `Snapshot()` when its time is up or its condition holds. */
    method Wait() returns (r: Outcome)
      ensures phase == Created ==> r == Invalid
      ensures phase == Preparing || phase == Running ==> r == Timeout
      ensures Settled(Snapshot()) ==> r == WaitAnswer(Snapshot())
      ensures phase == Ready || phase == Stopped || phase == Error ==> r == if stop then Cancelled else result
    {
      if phase == Created {
        return Invalid;
      }
      if phase != Ready && phase != Stopped && phase != Error {
        return Timeout;
      }
      return if stop then Cancelled else result;
    }
  }
}
