/**
 The end of the worker thread.  The destructor of `CommonProcessor` sets the exit flag,
 notifies and joins the thread (common/src/commonprocessor.cpp); the notification may come
 before the worker waits, and then it is lost.  From the moment the flag is set nothing
 more is delivered, the worker always has a step to take, and it ends after a number of its
 own steps that is known beforehand, up to the messages of one last extraction.
 */
module PipelineExit {
  import opened BufferProcessors
  import opened Envelopes
  import opened ReceivePipeline

  /** A step that the worker takes. */
  predicate IsWorkerStep(step: Step) {
    || step.CheckExit? || step.LookAtQueue? || step.Wake? || step.TimeOut?
    || step.AppendAndExtract? || step.Visit? || step.EndDelivery?
  }

  function WorkerSteps(steps: seq<Step>): nat {
    if steps == [] then 0 else (if IsWorkerStep(steps[0]) then 1 else 0) + WorkerSteps(steps[1..])
  }

  /** The messages that the extractions of a run find. */
  function Found(steps: seq<Step>): nat {
    if steps == [] then 0
    else (if steps[0].AppendAndExtract? then |steps[0].found.messages| else 0) + Found(steps[1..])
  }

  function Extractions(steps: seq<Step>): nat {
    if steps == [] then 0 else (if steps[0].AppendAndExtract? then 1 else 0) + Extractions(steps[1..])
  }

  /** How many steps of its own the worker still needs, not counting messages still to be found. */
  function StepsLeft(worker: Worker): nat {
    match worker
    case Locked => 5
    case Waiting => 4
    case Holding(_) => 3
    case Delivering(pending) => |pending| + 2
    case AtLoop => 1
    case Exited => 0
  }

  /** Whether the worker gets to another extraction before it looks at the exit flag. */
  function ExtractionsLeft(worker: Worker): nat {
    if worker == Locked || worker == Waiting || worker.Holding? then 1 else 0
  }

  lemma ExitStep(s: State, step: Step)
    requires Enabled(s, step) && s.needExit
    ensures var u := Apply(s, step);
            && u.needExit && u.delivered == s.delivered
            && (if IsWorkerStep(step) then 1 else 0) + StepsLeft(u.worker)
                 <= StepsLeft(s.worker) + (if step.AppendAndExtract? then |step.found.messages| else 0)
            && (if step.AppendAndExtract? then 1 else 0) + ExtractionsLeft(u.worker) <= ExtractionsLeft(s.worker)
  {
    hide Parse, Unwrap, Supported, Extracted, Concat;
  }

  lemma {:induction false} ExitRun(s: State, more: seq<Step>)
    requires CanRun(s, more) && s.needExit
    ensures var u := After(s, more);
            && u.needExit && u.delivered == s.delivered
            && WorkerSteps(more) + StepsLeft(u.worker) <= StepsLeft(s.worker) + Found(more)
            && Extractions(more) + ExtractionsLeft(u.worker) <= ExtractionsLeft(s.worker)
    decreases |more|
  {
    hide Enabled, Apply, StepsLeft, ExtractionsLeft, IsWorkerStep;
    if more != [] {
      ExitStep(s, more[0]);
      ExitRun(Apply(s, more[0]), more[1..]);
    }
  }

  lemma {:induction false} RequestSetsFlag(s: State, steps: seq<Step>)
    requires CanRun(s, steps) && (s.needExit || RequestExit in steps)
    ensures After(s, steps).needExit
    decreases |steps|
  {
    hide Enabled, Apply;
    if steps != [] {
      FlagStays(s, steps[0]);
      RequestSetsFlag(Apply(s, steps[0]), steps[1..]);
    }
  }

  lemma FlagStays(s: State, step: Step)
    requires Enabled(s, step)
    ensures Apply(s, step).needExit == (s.needExit || step == RequestExit)
  {
    hide Parse, Unwrap, Supported, Extracted, Concat;
  }

  /** The step the worker can take without anybody's help; in the wait it is the time-out. */
  function LonelyStep(s: State): Step
    requires s.worker != Exited
  {
    if s.worker == Waiting then TimeOut else WorkerStep(s)
  }

  lemma LonelyStepIsEnabled(s: State)
    requires s.worker != Exited
    ensures IsWorkerStep(LonelyStep(s)) && Enabled(s, LonelyStep(s))
  {
    hide Parse, Unwrap, Supported, Extracted, Concat;
  }

  /**
   After an exit request, in every interleaving: nothing more is delivered; there is at most
   one more extraction; the worker takes at most five steps of its own besides one for each
   message then pending or found, and while it has not ended it can take the next one by
   itself, a lost notification included.
   */
  lemma ExitRequestEndsWorker(registered: bool, steps: seq<Step>, more: seq<Step>)
    requires CanRun(Start(registered), steps) && RequestExit in steps
    requires CanRun(After(Start(registered), steps), more)
    ensures var s := After(Start(registered), steps);
            var u := After(s, more);
            && u.delivered == s.delivered
            && Extractions(more) <= 1
            && WorkerSteps(more) <= 5 + |Pending(s)| + Found(more)
            && (WorkerSteps(more) >= StepsLeft(s.worker) + Found(more) ==> u.worker == Exited)
            && (u.worker != Exited ==> IsWorkerStep(LonelyStep(u)) && Enabled(u, LonelyStep(u)))
  {
    hide CanRun, After, Enabled, Apply, LonelyStep, IsWorkerStep, Parse, Found, WorkerSteps, Extractions;
    RequestSetsFlag(Start(registered), steps);
    var s := After(Start(registered), steps);
    ExitRun(s, more);
    var u := After(s, more);
    if u.worker != Exited {
      LonelyStepIsEnabled(u);
    }
  }

  /** From every state with an exit request the worker alone gets to its end, so that the destructor's join returns. */
  lemma {:induction false} WorkerCanEnd(s: State) returns (more: seq<Step>)
    requires s.needExit
    ensures CanRun(s, more) && After(s, more).worker == Exited && After(s, more).delivered == s.delivered
    ensures forall i :: 0 <= i < |more| ==> IsWorkerStep(more[i])
    decreases ExtractionsLeft(s.worker), StepsLeft(s.worker)
  {
    hide Enabled, Apply, LonelyStep, IsWorkerStep, Parse, StepsLeft, ExtractionsLeft;
    if s.worker == Exited {
      return [];
    }
    var step := LonelyStep(s);
    LonelyStepIsEnabled(s);
    ExitStep(s, step);
    ExtractionUsesUp(s, step);
    var rest := WorkerCanEnd(Apply(s, step));
    more := [step] + rest;
    assert more[1..] == rest;
  }

  lemma ExtractionUsesUp(s: State, step: Step)
    requires Enabled(s, step)
    ensures step.AppendAndExtract? ==> ExtractionsLeft(s.worker) == 1 && ExtractionsLeft(Apply(s, step).worker) == 0
  {
    hide Parse, Unwrap, Supported, Extracted, Concat;
  }
}
