/** Why things happen to a command (core/rtw_cmd.c): every fate, and every return of a submitter, is
    traced back to the step of the run that decided it and to what the state was then. */
module CommandFates {
  import opened CommandThread
  import opened Options

  // ----- what a step does to one job and to the thread -----

  /** A job after a step. */
  function JobAfter(s: State, step: Step, id: nat): (j: Job)
    requires id in s.jobs
  {
    var j := s.jobs[id];
    match step
    case SubmitterMoves(x) => if x == id then Advance(j, FilterPasses(s, j.req)) else j
    case TimesOut(x) => if x == id then j.(pc := LockMutex) else j
    case ThreadMoves(_, ret) =>
      if Hand(s.thread) == [id] then Handle(j, s.thread, FilterPasses(s, j.req), ret) else j
    case _ => j
  }

  lemma JobStep(s: State, step: Step, id: nat)
    requires Apply(s, step).Some? && id in s.jobs
    ensures id in Apply(s, step).value.jobs && Apply(s, step).value.jobs[id] == JobAfter(s, step, id)
  {
    hide Handle, HandlePc, HandleFaults, Advance, AdvanceFaults, FilterPasses;
    match step
    case SubmitterMoves(x) => SubmitterFields(s, x);
    case ThreadMoves(registered, ret) =>
      if Hand(s.thread) == [] {
        EmptyHandedShape(s);
      } else {
        HandThread(s, registered, ret);
      }
    case _ =>
  }

  lemma NewJobStep(s: State, step: Step, id: nat)
    requires Apply(s, step).Some? && id !in s.jobs && id in Apply(s, step).value.jobs
    ensures step.Submit? && Apply(s, step).value.jobs[id] == NewJob(step.req)
    ensures Apply(s, step).value.thread == s.thread && Apply(s, step).value.enqueued == s.enqueued
  {
    hide SubmitterNext, ThreadNext;
    NewJobsAreSubmitted(s, step, id);
  }

  lemma HandThread(s: State, registered: bool, ret: Result)
    requires ThreadNext(s, registered, ret).Some? && Hand(s.thread) != []
    ensures var s', c := ThreadNext(s, registered, ret).value, Hand(s.thread)[0];
            && c in s.jobs
            && s'.jobs == s.jobs[c := Handle(s.jobs[c], s.thread, FilterPasses(s, s.jobs[c].req), ret)]
            && s'.thread == HandlePc(s.jobs[c], s.thread, FilterPasses(s, s.jobs[c].req), registered)
  {
    hide Handle, HandlePc, HandleFaults, FilterPasses;
  }

  /** The thread after a step of its own with a command in hand, or none. */
  lemma ThreadStep(s: State, step: Step)
    requires Apply(s, step).Some?
    ensures var t, t' := s.thread, Apply(s, step).value.thread;
            match step
            case ThreadMoves(registered, ret) =>
              if Hand(t) == [] then EmptyHandedNext(s).Some? && t' == EmptyHandedNext(s).value.thread
              else Hand(t)[0] in s.jobs &&
                   var j := s.jobs[Hand(t)[0]]; t' == HandlePc(j, t, FilterPasses(s, j.req), registered)
            case DownFails => t == Down && t' == Exit
            case Restart => t == Stopped && t' == Start
            case _ => t' == t
  {
    hide Handle, HandlePc, HandleFaults, Advance, AdvanceFaults, FilterPasses, EmptyHandedNext;
    match step
    case SubmitterMoves(x) => SubmitterFields(s, x);
    case ThreadMoves(registered, ret) =>
      if Hand(s.thread) != [] {
        HandThread(s, registered, ret);
      }
    case _ =>
  }

  // ----- tracing a fact back to a step -----

  /** Step `k` was taken in a state and by a step of the kind `w`, and `q` has held ever since. */
  ghost predicate Since(steps: seq<Step>, k: nat, q: State -> bool, w: (State, Step) -> bool) {
    && k < |steps| && Run(steps[..k]).Some? && w(Run(steps[..k]).value, steps[k])
    && forall j :: k < j <= |steps| ==> Run(steps[..j]).Some? && q(Run(steps[..j]).value)
  }

  /** If only steps of the kind `w` bring `q` about, then `q` holds since such a step. */
  lemma {:induction false} Traced(steps: seq<Step>, q: State -> bool, w: (State, Step) -> bool)
    requires Run(steps).Some? && q(Run(steps).value) && !q(Init)
    requires forall s, step :: Inv(s) && Apply(s, step).Some? && q(Apply(s, step).value) ==> q(s) || w(s, step)
    ensures exists k: nat :: Since(steps, k, q, w)
  {
    hide Apply, Inv;
    var n := |steps| - 1;
    var s := Run(steps[..n]).value;
    RunKeepsInv(steps[..n]);
    assert steps[..n + 1] == steps;
    if q(s) {
      Traced(steps[..n], q, w);
      var k: nat :| Since(steps[..n], k, q, w);
      SinceLonger(steps, k, q, w);
    } else {
      assert Since(steps, n, q, w);
    }
  }

  lemma SinceLonger(steps: seq<Step>, k: nat, q: State -> bool, w: (State, Step) -> bool)
    requires steps != [] && Run(steps).Some? && q(Run(steps).value)
    requires Since(steps[..|steps| - 1], k, q, w)
    ensures Since(steps, k, q, w)
  {
    hide Run;
    var n := |steps| - 1;
    assert steps[..n + 1] == steps;
    forall j | 0 <= j <= n
      ensures steps[..n][..j] == steps[..j]
    {
    }
  }

  lemma HandIsJob(s: State)
    requires Inv(s) && Hand(s.thread) != []
    ensures Hand(s.thread)[0] in s.jobs && JobOk(s.jobs[Hand(s.thread)[0]], InHand(s.thread))
  {
    var c := Hand(s.thread)[0];
    PlacesExclude(s);
    assert c in s.enqueued by {
      assert s.enqueued[|s.finished|] == c;
    }
    assert PlaceOf(s, c) == InHand(s.thread);
  }

  // ----- the inspection of a command -----

  /** In step `k` the thread inspected the command, for the last time so far. */
  ghost predicate Inspected(steps: seq<Step>, id: nat, k: nat) {
    && k < |steps| && Run(steps[..k]).Some? && id in Run(steps[..k]).value.jobs
    && Run(steps[..k]).value.thread == Inspect(id) && steps[k].ThreadMoves?
    && forall j :: k < j <= |steps| ==> Run(steps[..j]).Some? && Run(steps[..j]).value.thread != Inspect(id)
  }

  ghost predicate Executing(s: State, id: nat) {
    id in s.jobs &&
    (s.thread == RegisterAlive(id) || s.thread == PutBack(id) || s.thread == Execute(id) || s.jobs[id].fate == Executed)
  }

  lemma ExecutingStep(s: State, step: Step, id: nat)
    requires Inv(s) && Apply(s, step).Some? && Executing(Apply(s, step).value, id)
    ensures Executing(s, id) ||
            (id in s.jobs && s.thread == Inspect(id) && step.ThreadMoves?
             && s.running && (s.hwInit || s.jobs[id].req.noIo || s.jobs[id].req.chanPlan)
             && (s.jobs[id].req.kind.Plain? ==> s.jobs[id].req.kind.hasHandler))
  {
    hide Apply, Inv;
    ThreadStep(s, step);
    if Hand(s.thread) != [] {
      HandIsJob(s);
    }
    if id in s.jobs {
      JobStep(s, step, id);
    } else {
      NewJobStep(s, step, id);
    }
  }

  /** A command was executed only if, when it was last inspected, the thread was running, the hardware
      was initialised or the command may do without, and the command had a handler. */
  lemma ExecutedWasAllowed(steps: seq<Step>, id: nat)
    requires Run(steps).Some? && id in Run(steps).value.jobs && Run(steps).value.jobs[id].fate == Executed
    ensures exists k: nat :: Inspected(steps, id, k) &&
              var s := Run(steps[..k]).value;
              && s.running && (s.hwInit || s.jobs[id].req.noIo || s.jobs[id].req.chanPlan)
              && (s.jobs[id].req.kind.Plain? ==> s.jobs[id].req.kind.hasHandler)
  {
    hide Run, Apply, Inv;
    var q := (s: State) => Executing(s, id);
    var w := (s: State, step: Step) =>
      id in s.jobs && s.thread == Inspect(id) && step.ThreadMoves?
      && s.running && (s.hwInit || s.jobs[id].req.noIo || s.jobs[id].req.chanPlan)
      && (s.jobs[id].req.kind.Plain? ==> s.jobs[id].req.kind.hasHandler);
    forall s, step | Inv(s) && Apply(s, step).Some? && q(Apply(s, step).value)
      ensures q(s) || w(s, step)
    {
      ExecutingStep(s, step, id);
    }
    forall s | Inv(s) && q(s)
      ensures s.thread != Inspect(id)
    {
      InspectedIsPending(s, id);
    }
    Traced(steps, q, w);
    var k: nat :| Since(steps, k, q, w);
    NotInspecting(steps, id, k, q, w);
  }

  lemma InspectedIsPending(s: State, id: nat)
    requires Inv(s)
    ensures s.thread == Inspect(id) ==> id in s.jobs && s.jobs[id].fate == Pending
  {
    hide Inv;
    if s.thread == Inspect(id) {
      HandIsJob(s);
    }
  }

  lemma NotInspecting(steps: seq<Step>, id: nat, k: nat, q: State -> bool, w: (State, Step) -> bool)
    requires Since(steps, k, q, w)
    requires forall s, step :: w(s, step) ==> id in s.jobs && s.thread == Inspect(id) && step.ThreadMoves?
    requires forall s :: Inv(s) && q(s) ==> s.thread != Inspect(id)
    ensures Inspected(steps, id, k)
  {
    forall j | k < j <= |steps|
      ensures Run(steps[..j]).value.thread != Inspect(id)
    {
      RunKeepsInv(steps[..j]);
    }
  }

  ghost predicate Dropping(s: State, id: nat) {
    id in s.jobs && (s.thread == DropBuffer(id) || s.jobs[id].fate == DroppedByFilter)
  }

  lemma DroppingStep(s: State, step: Step, id: nat)
    requires Inv(s) && Apply(s, step).Some? && Dropping(Apply(s, step).value, id)
    ensures Dropping(s, id) ||
            (id in s.jobs && s.thread == Inspect(id) && step.ThreadMoves?
             && !(s.running && (s.hwInit || s.jobs[id].req.noIo || s.jobs[id].req.chanPlan)))
  {
    hide Apply, Inv;
    ThreadStep(s, step);
    if Hand(s.thread) != [] {
      HandIsJob(s);
    }
    if id in s.jobs {
      JobStep(s, step, id);
    } else {
      NewJobStep(s, step, id);
    }
  }

  /** A command was dropped by the thread only if, when it was last inspected, the thread was not
      running, or the hardware was not initialised and the command may not do without. */
  lemma DroppedWasRefused(steps: seq<Step>, id: nat)
    requires Run(steps).Some? && id in Run(steps).value.jobs && Run(steps).value.jobs[id].fate == DroppedByFilter
    ensures exists k: nat :: Inspected(steps, id, k) &&
              var s := Run(steps[..k]).value;
              !s.running || !(s.hwInit || s.jobs[id].req.noIo || s.jobs[id].req.chanPlan)
  {
    hide Run, Apply, Inv;
    var q := (s: State) => Dropping(s, id);
    var w := (s: State, step: Step) =>
      id in s.jobs && s.thread == Inspect(id) && step.ThreadMoves?
      && !(s.running && (s.hwInit || s.jobs[id].req.noIo || s.jobs[id].req.chanPlan));
    forall s, step | Inv(s) && Apply(s, step).Some? && q(Apply(s, step).value)
      ensures q(s) || w(s, step)
    {
      DroppingStep(s, step, id);
    }
    forall s | Inv(s) && q(s)
      ensures s.thread != Inspect(id)
    {
      InspectedIsPending(s, id);
    }
    Traced(steps, q, w);
    var k: nat :| Since(steps, k, q, w);
    NotInspecting(steps, id, k, q, w);
  }

  ghost predicate IsMalformedNow(s: State, id: nat) {
    id in s.jobs && s.jobs[id].fate == Malformed
  }

  lemma MalformedStep(s: State, step: Step, id: nat)
    requires Inv(s) && Apply(s, step).Some? && IsMalformedNow(Apply(s, step).value, id)
    ensures IsMalformedNow(s, id) ||
            (id in s.jobs && s.thread == Inspect(id) && step.ThreadMoves?
             && s.jobs[id].req.kind.Plain? && !s.jobs[id].req.kind.hasHandler)
  {
    hide Apply, Inv;
    ThreadStep(s, step);
    if Hand(s.thread) != [] {
      HandIsJob(s);
    }
    if id in s.jobs {
      JobStep(s, step, id);
    } else {
      NewJobStep(s, step, id);
    }
  }

  /** A queued command was found malformed only if it had no handler. */
  lemma MalformedHadNoHandler(steps: seq<Step>, id: nat)
    requires Run(steps).Some? && id in Run(steps).value.jobs && Run(steps).value.jobs[id].fate == Malformed
    ensures exists k: nat :: Inspected(steps, id, k) &&
              var req := Run(steps[..k]).value.jobs[id].req; req.kind.Plain? && !req.kind.hasHandler
  {
    hide Run, Apply, Inv;
    var q := (s: State) => IsMalformedNow(s, id);
    var w := (s: State, step: Step) =>
      id in s.jobs && s.thread == Inspect(id) && step.ThreadMoves?
      && s.jobs[id].req.kind.Plain? && !s.jobs[id].req.kind.hasHandler;
    forall s, step | Inv(s) && Apply(s, step).Some? && q(Apply(s, step).value)
      ensures q(s) || w(s, step)
    {
      MalformedStep(s, step, id);
    }
    forall s | Inv(s) && q(s)
      ensures s.thread != Inspect(id)
    {
      InspectedIsPending(s, id);
    }
    Traced(steps, q, w);
    var k: nat :| Since(steps, k, q, w);
    NotInspecting(steps, id, k, q, w);
  }

  // ----- power management and the handler -----

  /** The thread has put the command back only if, since it was last inspected, power management refused
      to keep the device awake for it, and the command needs the device. */
  lemma PutBackWasRefused(steps: seq<Step>, id: nat)
    requires Run(steps).Some? && Run(steps).value.thread == PutBack(id)
    ensures exists k: nat ::
              && k < |steps| && Run(steps[..k]).Some? && Run(steps[..k]).value.thread == RegisterAlive(id)
              && id in Run(steps[..k]).value.jobs && !Run(steps[..k]).value.jobs[id].req.noIo
              && steps[k].ThreadMoves? && !steps[k].registered
  {
    hide Run, Apply, Inv;
    var q := (s: State) => s.thread == PutBack(id);
    var w := (s: State, step: Step) =>
      id in s.jobs && s.thread == RegisterAlive(id) && !s.jobs[id].req.noIo && step.ThreadMoves? && !step.registered;
    forall s, step | Inv(s) && Apply(s, step).Some? && q(Apply(s, step).value)
      ensures q(s) || w(s, step)
    {
      PutBackStep(s, step, id);
    }
    Traced(steps, q, w);
    var k: nat :| Since(steps, k, q, w);
  }

  lemma PutBackStep(s: State, step: Step, id: nat)
    requires Apply(s, step).Some? && Apply(s, step).value.thread == PutBack(id)
    ensures s.thread == PutBack(id) ||
            (id in s.jobs && s.thread == RegisterAlive(id) && !s.jobs[id].req.noIo
             && step.ThreadMoves? && !step.registered)
  {
    hide Apply, FilterPasses;
    ThreadStep(s, step);
  }

  ghost predicate Registered(s: State, id: nat) {
    id in s.jobs && (s.thread == Execute(id) || s.jobs[id].fate == Executed)
  }

  lemma RegisteredStep(s: State, step: Step, id: nat)
    requires Inv(s) && Apply(s, step).Some? && Registered(Apply(s, step).value, id)
    ensures Registered(s, id) ||
            (id in s.jobs && s.thread == RegisterAlive(id) && step.ThreadMoves?
             && (s.jobs[id].req.noIo || step.registered))
  {
    hide Apply, Inv;
    ThreadStep(s, step);
    if Hand(s.thread) != [] {
      HandIsJob(s);
    }
    if id in s.jobs {
      JobStep(s, step, id);
    } else {
      NewJobStep(s, step, id);
    }
  }

  /** A command was executed only if it does without the device or power management keeps it awake. */
  lemma ExecutedWasRegistered(steps: seq<Step>, id: nat)
    requires Run(steps).Some? && id in Run(steps).value.jobs && Run(steps).value.jobs[id].fate == Executed
    ensures exists k: nat ::
              && k < |steps| && Run(steps[..k]).Some? && Run(steps[..k]).value.thread == RegisterAlive(id)
              && id in Run(steps[..k]).value.jobs && steps[k].ThreadMoves?
              && (Run(steps[..k]).value.jobs[id].req.noIo || steps[k].registered)
  {
    hide Run, Apply, Inv;
    var q := (s: State) => Registered(s, id);
    var w := (s: State, step: Step) =>
      id in s.jobs && s.thread == RegisterAlive(id) && step.ThreadMoves? && (s.jobs[id].req.noIo || step.registered);
    forall s, step | Inv(s) && Apply(s, step).Some? && q(Apply(s, step).value)
      ensures q(s) || w(s, step)
    {
      RegisteredStep(s, step, id);
    }
    Traced(steps, q, w);
    var k: nat :| Since(steps, k, q, w);
  }

  ghost predicate HasResult(s: State, id: nat, r: Result) {
    id in s.jobs && s.jobs[id].fate == Executed && s.jobs[id].res == r
  }

  lemma ResultStep(s: State, step: Step, id: nat, r: Result)
    requires Inv(s) && Apply(s, step).Some? && HasResult(Apply(s, step).value, id, r)
    ensures HasResult(s, id, r) ||
            (id in s.jobs && s.thread == Execute(id) && step.ThreadMoves? && step.ret == r)
  {
    hide Apply, Inv;
    if Hand(s.thread) != [] {
      HandIsJob(s);
    }
    if id in s.jobs {
      JobStep(s, step, id);
    } else {
      NewJobStep(s, step, id);
    }
  }

  /** The result of an executed command is what its handler returned. */
  lemma ResultIsReturned(steps: seq<Step>, id: nat)
    requires Run(steps).Some? && id in Run(steps).value.jobs && Run(steps).value.jobs[id].fate == Executed
    ensures exists k: nat ::
              && k < |steps| && Run(steps[..k]).Some? && Run(steps[..k]).value.thread == Execute(id)
              && steps[k].ThreadMoves? && steps[k].ret == Run(steps).value.jobs[id].res
  {
    hide Run, Apply, Inv;
    var r := Run(steps).value.jobs[id].res;
    var q := (s: State) => HasResult(s, id, r);
    var w := (s: State, step: Step) => s.thread == Execute(id) && step.ThreadMoves? && step.ret == r;
    forall s, step | Inv(s) && Apply(s, step).Some? && q(Apply(s, step).value)
      ensures q(s) || w(s, step)
    {
      ResultStep(s, step, id, r);
    }
    Traced(steps, q, w);
    var k: nat :| Since(steps, k, q, w);
  }

  // ----- stopping -----

  /** The thread is on its way out. */
  predicate Leaving(t: ThreadPc) {
    t.Exit? || t.Drain? || t.DrainBuffer? || (t.Post? && t.draining)
  }

  ghost predicate Draining(s: State, id: nat) {
    id in s.jobs && s.jobs[id].fate == Drained
  }

  /** A step that ends the main loop. */
  predicate Stops(s: State, step: Step) {
    step.DownFails? || (step.ThreadMoves? && (s.thread == StopCheck || s.thread == Next) && s.cannotRun)
  }

  lemma LeavingStep(s: State, step: Step)
    requires Apply(s, step).Some? && Leaving(Apply(s, step).value.thread)
    ensures Leaving(s.thread) || Stops(s, step)
  {
    hide Apply;
    ThreadStep(s, step);
  }

  lemma DrainingStep(s: State, step: Step, id: nat)
    requires Apply(s, step).Some? && Draining(Apply(s, step).value, id)
    ensures Draining(s, id) || Leaving(s.thread)
  {
    hide Apply, FilterPasses;
    if id in s.jobs {
      JobStep(s, step, id);
    } else {
      NewJobStep(s, step, id);
    }
  }

  /** The thread drains a command only if it left its main loop before, since it could not run when it
      looked, or since waiting for the semaphore failed. */
  lemma DrainedAfterStop(steps: seq<Step>, id: nat)
    requires Run(steps).Some? && id in Run(steps).value.jobs && Run(steps).value.jobs[id].fate == Drained
    ensures exists k: nat ::
              && k < |steps| && Run(steps[..k]).Some?
              && var s := Run(steps[..k]).value;
                 || steps[k].DownFails?
                 || (steps[k].ThreadMoves? && (s.thread == StopCheck || s.thread == Next) && s.cannotRun)
  {
    hide Run, Apply, Inv;
    var q := (s: State) => Leaving(s.thread) || Draining(s, id);
    forall s, step | Inv(s) && Apply(s, step).Some? && q(Apply(s, step).value)
      ensures q(s) || Stops(s, step)
    {
      if Leaving(Apply(s, step).value.thread) {
        LeavingStep(s, step);
      } else {
        DrainingStep(s, step, id);
      }
    }
    Traced(steps, q, Stops);
    var k: nat :| Since(steps, k, q, Stops);
  }

  /** The thread is not in its main loop. */
  predicate Outside(t: ThreadPc) {
    t.Start? || t.Stopped? || t.Drain? || t.DrainBuffer? || (t.Post? && t.draining)
  }

  /** The filter's flag is set exactly while the thread is in its main loop. */
  lemma {:induction false} RunningInMainLoop(steps: seq<Step>)
    requires Run(steps).Some?
    ensures Run(steps).value.running <==> !Outside(Run(steps).value.thread)
  {
    hide Apply;
    if steps != [] {
      var n := |steps| - 1;
      RunningInMainLoop(steps[..n]);
      RunningStep(Run(steps[..n]).value, steps[n]);
      OutsideStep(Run(steps[..n]).value, steps[n]);
    }
  }

  lemma OutsideStep(s: State, step: Step)
    requires Apply(s, step).Some?
    ensures Outside(Apply(s, step).value.thread) <==>
            if step.ThreadMoves? && s.thread == Start then false
            else if step.ThreadMoves? && s.thread == Exit then true else Outside(s.thread)
  {
    hide Apply;
    ThreadStep(s, step);
  }

  lemma RunningStep(s: State, step: Step)
    requires Apply(s, step).Some?
    ensures Apply(s, step).value.running ==
            if step.ThreadMoves? && s.thread == Start then true
            else if step.ThreadMoves? && s.thread == Exit then false else s.running
  {
    hide SubmitterNext, HandNext, EmptyHandedNext;
    match step
    case SubmitterMoves(x) => SubmitterRest(s, x);
    case ThreadMoves(registered, ret) =>
      if Hand(s.thread) == [] {
        EmptyHandedRest(s);
      } else {
        HandRest(s, registered, ret);
      }
    case _ =>
  }

  lemma SubmitterRest(s: State, id: nat)
    requires SubmitterNext(s, id).Some?
    ensures id in s.jobs && SubmitterNext(s, id).value.running == s.running
    ensures SubmitterNext(s, id).value.sema == s.sema + if s.jobs[id].pc == Up then 1 else 0
  {
    hide Advance, AdvanceFaults, FilterPasses;
  }

  lemma EmptyHandedRest(s: State)
    requires Hand(s.thread) == [] && EmptyHandedNext(s).Some?
    ensures EmptyHandedNext(s).value.running ==
            if s.thread == Start then true else if s.thread == Exit then false else s.running
    ensures s.thread == Down ==> s.sema > 0
    ensures EmptyHandedNext(s).value.sema == s.sema - if s.thread == Down then 1 else 0
  {
  }

  lemma HandRest(s: State, registered: bool, ret: Result)
    requires ThreadNext(s, registered, ret).Some? && Hand(s.thread) != []
    ensures ThreadNext(s, registered, ret).value.running == s.running
    ensures ThreadNext(s, registered, ret).value.sema == s.sema
  {
    hide Handle, HandlePc, HandleFaults, FilterPasses;
  }

  // ----- the semaphore -----

  /** Raises of the semaphore in a run. */
  ghost function Raises(steps: seq<Step>): (n: nat)
    requires Run(steps).Some?
  {
    if steps == [] then 0 else
    var n := |steps| - 1;
    var s := Run(steps[..n]).value;
    Raises(steps[..n]) +
    if steps[n].OthersUp? || (steps[n].SubmitterMoves? && steps[n].id in s.jobs && s.jobs[steps[n].id].pc == Up)
    then 1 else 0
  }

  /** Waits of the thread for it that were granted. */
  ghost function Grants(steps: seq<Step>): (n: nat)
    requires Run(steps).Some?
  {
    if steps == [] then 0 else
    var n := |steps| - 1;
    Grants(steps[..n]) + if steps[n].ThreadMoves? && Run(steps[..n]).value.thread == Down then 1 else 0
  }

  /** Over every run the semaphore is what was raised and not yet granted. */
  lemma {:induction false} SemaphoreCounts(steps: seq<Step>)
    requires Run(steps).Some?
    ensures Raises(steps) == Grants(steps) + Run(steps).value.sema
  {
    hide Apply;
    if steps != [] {
      var n := |steps| - 1;
      SemaphoreCounts(steps[..n]);
      SemaStep(Run(steps[..n]).value, steps[n]);
    }
  }

  lemma SemaStep(s: State, step: Step)
    requires Apply(s, step).Some?
    ensures var up := step.OthersUp? || (step.SubmitterMoves? && step.id in s.jobs && s.jobs[step.id].pc == Up);
            Apply(s, step).value.sema ==
            s.sema + (if up then 1 else 0) - if step.ThreadMoves? && s.thread == Down then 1 else 0
  {
    hide SubmitterNext, HandNext, EmptyHandedNext;
    match step
    case SubmitterMoves(x) => SubmitterRest(s, x);
    case ThreadMoves(registered, ret) =>
      if Hand(s.thread) == [] {
        EmptyHandedRest(s);
      } else {
        HandRest(s, registered, ret);
      }
    case _ =>
  }

  // ----- the submitter -----

  ghost predicate Refused(s: State, id: nat) {
    id in s.jobs && (s.jobs[id].pc.RejectBuffer? || s.jobs[id].pc.RejectObject? || s.jobs[id].fate == Rejected)
  }

  ghost predicate Admitted(s: State, id: nat) {
    id in s.jobs && (s.jobs[id].pc == Link || id in s.enqueued)
  }

  lemma RefusedStep(s: State, step: Step, id: nat)
    requires Inv(s) && Apply(s, step).Some? && Refused(Apply(s, step).value, id)
    ensures Refused(s, id) ||
            (id in s.jobs && s.jobs[id].pc == Filter && step == SubmitterMoves(id)
             && (s.jobs[id].req.size > 1536
                 || !(s.running && (s.hwInit || s.jobs[id].req.noIo || s.jobs[id].req.chanPlan))))
  {
    hide Apply, Inv;
    if Hand(s.thread) != [] {
      HandIsJob(s);
    }
    if id in s.jobs {
      JobStep(s, step, id);
    } else {
      NewJobStep(s, step, id);
    }
  }

  lemma AdmittedStep(s: State, step: Step, id: nat)
    requires Inv(s) && Apply(s, step).Some? && Admitted(Apply(s, step).value, id)
    ensures Admitted(s, id) ||
            (id in s.jobs && s.jobs[id].pc == Filter && step == SubmitterMoves(id) && s.jobs[id].req.size <= 1536
             && s.running && (s.hwInit || s.jobs[id].req.noIo || s.jobs[id].req.chanPlan))
  {
    hide Apply;
    if id in s.jobs {
      JobStep(s, step, id);
      EnqueuedStep(s, step, id);
    } else {
      NewJobStep(s, step, id);
    }
  }

  lemma EnqueuedStep(s: State, step: Step, id: nat)
    requires Apply(s, step).Some? && id in s.jobs
    ensures id in Apply(s, step).value.enqueued ==> id in s.enqueued || s.jobs[id].pc == Link
  {
    hide SubmitterNext, HandNext, EmptyHandedNext;
    match step
    case SubmitterMoves(x) => SubmitterFields(s, x);
    case ThreadMoves(registered, ret) =>
      if Hand(s.thread) == [] {
        EmptyHandedShape(s);
      } else {
        HandThread(s, registered, ret);
        HandNextIsHandStep(s, Hand(s.thread)[0], registered, ret);
      }
    case _ =>
  }

  /** A command was rejected only if, when its submitter asked the filter, it was oversized or the filter
      refused it. */
  lemma RejectedWasRefused(steps: seq<Step>, id: nat)
    requires Run(steps).Some? && id in Run(steps).value.jobs && Run(steps).value.jobs[id].fate == Rejected
    ensures exists k: nat ::
              && k < |steps| && Run(steps[..k]).Some? && id in Run(steps[..k]).value.jobs
              && steps[k] == SubmitterMoves(id)
              && var s, req := Run(steps[..k]).value, Run(steps[..k]).value.jobs[id].req;
                 s.jobs[id].pc == Filter && (req.size > 1536 || !(s.running && (s.hwInit || req.noIo || req.chanPlan)))
  {
    hide Run, Apply, Inv;
    var q := (s: State) => Refused(s, id);
    var w := (s: State, step: Step) =>
      id in s.jobs && s.jobs[id].pc == Filter && step == SubmitterMoves(id)
      && (s.jobs[id].req.size > 1536 || !(s.running && (s.hwInit || s.jobs[id].req.noIo || s.jobs[id].req.chanPlan)));
    forall s, step | Inv(s) && Apply(s, step).Some? && q(Apply(s, step).value)
      ensures q(s) || w(s, step)
    {
      RefusedStep(s, step, id);
    }
    Traced(steps, q, w);
    var k: nat :| Since(steps, k, q, w);
  }

  /** A command was enqueued only if, when its submitter asked the filter, it fitted the command buffer
      and the filter let it pass. */
  lemma EnqueuedWasAdmitted(steps: seq<Step>, id: nat)
    requires Run(steps).Some? && id in Run(steps).value.enqueued
    ensures exists k: nat ::
              && k < |steps| && Run(steps[..k]).Some? && id in Run(steps[..k]).value.jobs
              && steps[k] == SubmitterMoves(id)
              && var s, req := Run(steps[..k]).value, Run(steps[..k]).value.jobs[id].req;
                 s.jobs[id].pc == Filter && req.size <= 1536 && s.running && (s.hwInit || req.noIo || req.chanPlan)
  {
    RunKeepsInv(steps);
    hide Run, Apply, Inv;
    var q := (s: State) => Admitted(s, id);
    var w := (s: State, step: Step) =>
      id in s.jobs && s.jobs[id].pc == Filter && step == SubmitterMoves(id) && s.jobs[id].req.size <= 1536
      && s.running && (s.hwInit || s.jobs[id].req.noIo || s.jobs[id].req.chanPlan);
    forall s, step | Inv(s) && Apply(s, step).Some? && q(Apply(s, step).value)
      ensures q(s) || w(s, step)
    {
      AdmittedStep(s, step, id);
    }
    Traced(steps, q, w);
    var k: nat :| Since(steps, k, q, w);
  }

  ghost predicate StoppedWaiting(s: State, id: nat) {
    id in s.jobs && s.jobs[id].req.waits &&
    (s.jobs[id].pc == LockMutex || Critical(s.jobs[id].pc) || s.jobs[id].pc == Returned)
  }

  /** A step that ends a wait: the context was completed, the time is up, or there was nothing to wait
      for, since the submission failed. */
  predicate EndsWait(s: State, step: Step, id: nat) {
    && id in s.jobs
    && (|| (s.jobs[id].pc == Wait && step == TimesOut(id))
        || (s.jobs[id].pc == Wait && step == SubmitterMoves(id) && s.jobs[id].done)
        || (s.jobs[id].pc == RejectObject(false) && step == SubmitterMoves(id)))
  }

  lemma WaitingStep(s: State, step: Step, id: nat)
    requires Inv(s) && Apply(s, step).Some? && StoppedWaiting(Apply(s, step).value, id)
    ensures StoppedWaiting(s, id) || EndsWait(s, step, id)
  {
    hide Inv, Apply, FilterPasses;
    if id in s.jobs {
      JobStep(s, step, id);
      WaitGuards(s, step, id);
      if step.ThreadMoves? {
        HandleKeepsSubmitter(s.jobs[id], s.thread, FilterPasses(s, s.jobs[id].req), step.ret);
      }
    } else {
      NewJobStep(s, step, id);
    }
  }

  lemma WaitGuards(s: State, step: Step, id: nat)
    requires Apply(s, step).Some? && id in s.jobs
    ensures step == TimesOut(id) ==> s.jobs[id].pc == Wait
    ensures step == SubmitterMoves(id) && s.jobs[id].pc == Wait ==> s.jobs[id].done
  {
    hide ThreadNext, FilterPasses;
  }

  /** A submitter that waits goes on only when its context was completed, its time is up, or its
      submission failed. */
  lemma WaitEndsForAReason(steps: seq<Step>, id: nat)
    requires Run(steps).Some? && id in Run(steps).value.jobs
    requires Run(steps).value.jobs[id].req.waits && Run(steps).value.jobs[id].pc == Returned
    ensures exists k: nat ::
              && k < |steps| && Run(steps[..k]).Some? && id in Run(steps[..k]).value.jobs
              && var j := Run(steps[..k]).value.jobs[id];
                 || (steps[k] == TimesOut(id) && j.pc == Wait)
                 || (steps[k] == SubmitterMoves(id) && j.pc == Wait && j.done)
                 || (steps[k] == SubmitterMoves(id) && j.pc == RejectObject(false))
  {
    hide Run, Apply, Inv;
    var q := (s: State) => StoppedWaiting(s, id);
    var w := (s: State, step: Step) => EndsWait(s, step, id);
    forall s, step | Inv(s) && Apply(s, step).Some? && q(Apply(s, step).value)
      ensures q(s) || w(s, step)
    {
      WaitingStep(s, step, id);
    }
    Traced(steps, q, w);
    var k: nat :| Since(steps, k, q, w);
  }

  // ----- nobody waits for somebody who is stuck -----

  /** Whoever holds a mutex is in the part of its code that the mutex protects. */
  ghost predicate HoldersOk(s: State) {
    forall a :: a in s.mutex ==>
      match s.mutex[a]
      case Free => true
      case BySubmitter(i) => i in s.jobs && Critical(s.jobs[i].pc) && s.jobs[i].req.adapter == a
      case ByThread => ThreadCritical(s.thread) && s.thread.cmd in s.jobs && s.jobs[s.thread.cmd].req.adapter == a
  }

  lemma HoldersStep(s: State, step: Step)
    requires Inv(s) && HoldersOk(s) && Apply(s, step).Some?
    ensures HoldersOk(Apply(s, step).value)
  {
    hide Inv, SubmitterNext, HandNext, EmptyHandedNext, Advance;
    match step
    case SubmitterMoves(x) => HoldersSubmitter(s, x);
    case TimesOut(x) =>
    case ThreadMoves(registered, ret) =>
      if Hand(s.thread) == [] {
        EmptyHandedShape(s);
      } else {
        HandIsJob(s);
        HandNextIsHandStep(s, Hand(s.thread)[0], registered, ret);
        HoldersHand(s, HandNext(s, Hand(s.thread)[0], registered, ret).value, Hand(s.thread)[0]);
      }
    case _ =>
  }

  lemma HoldersSubmitter(s: State, id: nat)
    requires Inv(s) && HoldersOk(s) && SubmitterNext(s, id).Some?
    ensures HoldersOk(SubmitterNext(s, id).value)
  {
    hide SubmitterNext, Advance, JobsOk, FaultsOk;
    SubmitterHolds(s, id);
    SubmitterFields(s, id);
    AdvanceCritical(s.jobs[id], FilterPasses(s, s.jobs[id].req));
  }

  lemma HoldersHand(s: State, s': State, c: nat)
    requires Inv(s) && HoldersOk(s) && Hand(s.thread) == [c] && c in s.jobs && HandStep(s, s', c)
    ensures HoldersOk(s')
  {
    hide JobsOk, FaultsOk, Ordered;
  }

  lemma {:induction false} RunKeepsHolders(steps: seq<Step>)
    requires Run(steps).Some?
    ensures HoldersOk(Run(steps).value)
  {
    hide Apply, Inv;
    if steps != [] {
      var n := |steps| - 1;
      RunKeepsHolders(steps[..n]);
      RunKeepsInv(steps[..n]);
      HoldersStep(Run(steps[..n]).value, steps[n]);
    }
  }

  /** A submitter inside its protected part can always move. */
  lemma CriticalMoves(s: State, id: nat)
    requires id in s.jobs && Critical(s.jobs[id].pc)
    ensures Apply(s, SubmitterMoves(id)).Some?
  {
  }

  lemma ThreadCriticalMoves(s: State, registered: bool, ret: Result)
    requires ThreadCritical(s.thread) && s.thread.cmd in s.jobs
    ensures Apply(s, ThreadMoves(registered, ret)).Some?
  {
  }

  /** In every reachable state the thread can move unless it has stopped, waits for a semaphore that is
      not raised, or waits for a mutex whose holder, a submitter, can move. */
  lemma ThreadNeverStuck(steps: seq<Step>, registered: bool, ret: Result)
    requires Run(steps).Some?
    ensures var s := Run(steps).value;
            || Apply(s, ThreadMoves(registered, ret)).Some?
            || s.thread == Stopped
            || (s.thread == Down && s.sema == 0)
            || exists i :: i in s.jobs && Critical(s.jobs[i].pc) && Apply(s, SubmitterMoves(i)).Some?
  {
    hide Run, Inv;
    var s := Run(steps).value;
    RunKeepsInv(steps);
    RunKeepsHolders(steps);
    if Hand(s.thread) != [] {
      HandIsJob(s);
      var a := s.jobs[Hand(s.thread)[0]].req.adapter;
      if At(s.thread, PLock) && HolderOf(s, a) != Free {
        assert s.mutex[a].BySubmitter?;
        CriticalMoves(s, s.mutex[a].id);
      }
    }
  }

  /** In every reachable state a submitter can move unless it has returned, waits for a context that is
      not completed, when its time may be up, or waits for a mutex whose holder can move. */
  lemma SubmitterNeverStuck(steps: seq<Step>, id: nat, registered: bool, ret: Result)
    requires Run(steps).Some? && id in Run(steps).value.jobs
    ensures var s := Run(steps).value;
            || Apply(s, SubmitterMoves(id)).Some?
            || s.jobs[id].pc == Returned
            || (s.jobs[id].pc == Wait && !s.jobs[id].done && Apply(s, TimesOut(id)).Some?)
            || Apply(s, ThreadMoves(registered, ret)).Some?
            || exists i :: i in s.jobs && i != id && Critical(s.jobs[i].pc) && Apply(s, SubmitterMoves(i)).Some?
  {
    hide Run, Inv, ThreadNext;
    var s := Run(steps).value;
    RunKeepsInv(steps);
    RunKeepsHolders(steps);
    var a := s.jobs[id].req.adapter;
    if s.jobs[id].pc == LockMutex && HolderOf(s, a) != Free {
      if s.mutex[a].BySubmitter? {
        CriticalMoves(s, s.mutex[a].id);
      } else {
        ThreadCriticalMoves(s, registered, ret);
      }
    }
  }
}
