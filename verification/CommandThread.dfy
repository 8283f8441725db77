/** The command queue protocol of core/rtw_cmd.c.

    Any number of submitters build a heap-allocated `cmd_obj`, optionally let it point at a
    `submit_ctx` on their own stack, and hand it to one command thread. Every submitter and
    the thread advance in small steps that interleave arbitrarily. A job is one call of a
    submitting function together with the command object it built, so the `sctx` pointer of
    a command is either null or the context of its own submitter. */
module CommandThread {
  import opened Options

  const MAX_CMDSZ: nat := 1536

  /** What the thread's command table says about a command code. `CMD_SET_DRV_EXTRA` has a
      handler, no callback, and may own an extra buffer. `keepsOnFailure` is the callback of
      `CMD_DISCONNECT`, which returns without freeing the object unless it succeeded. */
  datatype Kind =
    | DrvExtra(hasBuf: bool)
    | Plain(hasHandler: bool, keepsOnFailure: bool)

  /** `cmd_obj.res` */
  datatype Result = Unset | Success | ParametersError | Dropped | EnqHead | CmdFail

  /** `submit_ctx.status` */
  datatype Status = Submitted | DoneSuccess | DoneCmdError | DoneCmdDrop

  /** What finally happened to a command (history). */
  datatype Fate = Pending | Rejected | Malformed | DroppedByFilter | Executed | Drained

  /** Program counter of a submitter: `rtw_createbss_cmd` with `rtw_enqueue_cmd` inlined.
      `accepted` is the value `rtw_enqueue_cmd` is going to return. */
  datatype SubmitterPc =
    | Filter
    | RejectBuffer(accepted: bool)
    | RejectObject(accepted: bool)
    | Link
    | Up
    | Wait
    | LockMutex
    | CheckStatus
    | Detach
    | UnlockMutex
    | Returned

  datatype Request =
    Request(adapter: nat, kind: Kind, size: nat, noIo: bool, chanPlan: bool, waits: bool)

  datatype Job = Job(
    req: Request,
    // the submitter and its on-stack context
    pc: SubmitterPc, status: Status, done: bool,
    // the heap object
    sctx: bool, res: Result, frees: nat,
    // the extra buffer, and history
    bufFrees: nat, fate: Fate)

  /** Stages of the code from `post_process` to the release of the object. */
  datatype Stage = PLock | PTest | PStatus | PComplete | PClear | PUnlock | PRelease

  /** Program counter of `rtw_cmd_thread`. */
  datatype ThreadPc =
    | Start
    | Down
    | StopCheck
    | EmptyCheck
    | Next
    | Dequeue
    | Inspect(cmd: nat)
    | DropBuffer(cmd: nat)
    | RegisterAlive(cmd: nat)
    | PutBack(cmd: nat)
    | Execute(cmd: nat)
    | Post(cmd: nat, stage: Stage, draining: bool)
    | Exit
    | Drain
    | DrainBuffer(cmd: nat)
    | Stopped

  datatype Holder = Free | ByThread | BySubmitter(id: nat)

  /** Accesses that would be memory errors. */
  datatype Fault = SignalAfterReturn | UseAfterFree | DoubleFree | DoubleFreeBuffer

  datatype State = State(
    jobs: map<nat, Job>,
    queue: seq<nat>,
    sema: nat,
    running: bool,
    hwInit: bool,
    cannotRun: bool,
    mutex: map<nat, Holder>,
    thread: ThreadPc,
    // history
    enqueued: seq<nat>, finished: seq<nat>, executed: seq<nat>, faults: set<Fault>)

  const Init: State :=
    State(map[], [], 0, false, false, false, map[], Start, [], [], [], {})

  datatype Step =
    | Submit(id: nat, req: Request)
    | SubmitterMoves(id: nat)
    | TimesOut(id: nat)
    | ThreadMoves(registered: bool, ret: Result)
    | DownFails
    | OthersUp
    | Environment(hwInit: bool, cannotRun: bool)
    | Restart

  // ----- the transition function -----

  function HolderOf(s: State, adapter: nat): Holder {
    if adapter in s.mutex then s.mutex[adapter] else Free
  }

  /** `rtw_cmd_filter` */
  predicate FilterPasses(s: State, req: Request) {
    (s.hwInit || req.noIo || req.chanPlan) && s.running
  }

  predicate HasBuffer(j: Job) {
    j.req.kind.DrvExtra? && j.req.kind.hasBuf
  }

  function FreeBuffer(j: Job): Job {
    if HasBuffer(j) then j.(bufFrees := j.bufFrees + 1) else j
  }

  function BufferFaults(j: Job): set<Fault> {
    if HasBuffer(j) && j.bufFrees > 0 then {DoubleFreeBuffer} else {}
  }

  function FreeFaults(j: Job): set<Fault> {
    if j.frees > 0 then {DoubleFree} else {}
  }

  function TouchFaults(j: Job): set<Fault> {
    if j.frees > 0 then {UseAfterFree} else {}
  }

  function SignalFaults(j: Job): set<Fault> {
    if j.pc == Returned then {SignalAfterReturn} else {}
  }

  function SetJob(s: State, id: nat, j: Job, faults: set<Fault>): State {
    s.(jobs := s.jobs[id := j], faults := s.faults + faults)
  }

  function NewJob(req: Request): Job {
    Job(req, Filter, Submitted, false, req.waits, Unset, 0, 0, Pending)
  }

  /** What the next step of its submitter does to a job; `pass` is what `rtw_cmd_filter`
      answers now. */
  function Advance(j: Job, pass: bool): (j': Job) {
    match j.pc
    case Filter => j.(pc := if !pass || j.req.size > MAX_CMDSZ then RejectBuffer(pass) else Link)
    case RejectBuffer(accepted) => FreeBuffer(j).(pc := RejectObject(accepted), fate := Rejected)
    case RejectObject(accepted) =>
      j.(pc := if accepted && j.req.waits then Wait else Returned, frees := j.frees + 1)
    case Link => j.(pc := Up)
    case Up => j.(pc := if j.req.waits then Wait else Returned)
    case Wait => j.(pc := LockMutex)
    case LockMutex => j.(pc := CheckStatus)
    case CheckStatus => j.(pc := if j.status == Submitted then Detach else UnlockMutex)
    case Detach => j.(pc := UnlockMutex, sctx := false)
    case UnlockMutex => j.(pc := Returned)
    case Returned => j
  }

  /** The memory errors of that step. */
  function AdvanceFaults(j: Job): set<Fault> {
    match j.pc
    case RejectBuffer(_) => BufferFaults(j)
    case RejectObject(_) => FreeFaults(j)
    case Detach => TouchFaults(j)
    case _ => {}
  }

  /** One step of submitter `id`; None when it is blocked or has returned. */
  function SubmitterNext(s: State, id: nat): (r: Option<State>) {
    if id !in s.jobs then None else
    var j := s.jobs[id];
    var s' := SetJob(s, id, Advance(j, FilterPasses(s, j.req)), AdvanceFaults(j));
    match j.pc
    case Link => Some(s'.(queue := s.queue + [id], enqueued := s.enqueued + [id]))
    case Up => Some(s'.(sema := s.sema + 1))
    case Wait => if j.done then Some(s') else None
    case LockMutex =>
      if HolderOf(s, j.req.adapter) == Free
      then Some(s'.(mutex := s.mutex[j.req.adapter := BySubmitter(id)]))
      else None
    case UnlockMutex => Some(s'.(mutex := s.mutex[j.req.adapter := Free]))
    case Returned => None
    case _ => Some(s')
  }

  /** What the thread at `t` does to the command in its hand; `ret` is what the command
      handler returns. */
  function Handle(j: Job, t: ThreadPc, pass: bool, ret: Result): (j': Job) {
    match t
    case Inspect(_) =>
      if IsMalformed(j) then j.(res := ParametersError, fate := Malformed)
      else if !pass then j.(res := Dropped)
      else j
    case DropBuffer(_) => FreeBuffer(j).(fate := DroppedByFilter)
    case PutBack(_) => j.(res := EnqHead)
    case Execute(_) => FreeBuffer(j).(res := ret, fate := Executed)
    case DrainBuffer(_) => FreeBuffer(j).(fate := Drained)
    case Post(_, PStatus, draining) =>
      j.(status := if draining then DoneCmdDrop else if j.res == Success then DoneSuccess else DoneCmdError)
    case Post(_, PComplete, _) => j.(done := true)
    case Post(_, PClear, _) => j.(sctx := false)
    case Post(_, PRelease, draining) => if draining || !Leaks(j) then j.(frees := j.frees + 1) else j
    case _ => j
  }

  function HandleFaults(j: Job, t: ThreadPc): set<Fault> {
    TouchFaults(j) +
    match t
    case DropBuffer(_) => BufferFaults(j)
    case Execute(_) => BufferFaults(j)
    case DrainBuffer(_) => BufferFaults(j)
    case Post(_, PStatus, _) => SignalFaults(j)
    case Post(_, PComplete, _) => SignalFaults(j)
    case Post(_, PRelease, draining) => if draining || !Leaks(j) then FreeFaults(j) else {}
    case _ => {}
  }

  /** Where the thread goes next with that command. */
  function HandlePc(j: Job, t: ThreadPc, pass: bool, registered: bool): (t': ThreadPc) {
    match t
    case Inspect(c) =>
      if IsMalformed(j) then Post(c, PLock, false)
      else if !pass then DropBuffer(c)
      else RegisterAlive(c)
    case DropBuffer(c) => Post(c, PLock, false)
    case RegisterAlive(c) => if j.req.noIo || registered then Execute(c) else PutBack(c)
    case PutBack(c) => Down
    case Execute(c) => Post(c, PLock, false)
    case DrainBuffer(c) => Post(c, PLock, true)
    case Post(c, PLock, d) => Post(c, PTest, d)
    case Post(c, PTest, d) => Post(c, if j.sctx then PStatus else PUnlock, d)
    case Post(c, PStatus, d) => Post(c, PComplete, d)
    case Post(c, PComplete, d) => Post(c, PClear, d)
    case Post(c, PClear, d) => Post(c, PUnlock, d)
    case Post(c, PUnlock, d) => Post(c, PRelease, d)
    case Post(c, PRelease, d) => if d then Drain else Next
    case _ => t
  }

  /** One step of the thread while it works on the command `c`. */
  function HandNext(s: State, c: nat, registered: bool, ret: Result): (r: Option<State>)
    requires c in s.jobs
  {
    var j := s.jobs[c];
    var pass := FilterPasses(s, j.req);
    HandUpdate(s, c, Handle(j, s.thread, pass, ret), HandlePc(j, s.thread, pass, registered),
               HandleFaults(j, s.thread))
  }

  /** The same step, given its effect on the job, where the thread goes and the faults; None
      when the thread must wait for the mutex. */
  function HandUpdate(s: State, c: nat, j': Job, t': ThreadPc, faults: set<Fault>): (r: Option<State>)
    requires c in s.jobs
  {
    var adapter := s.jobs[c].req.adapter;
    var s' := SetJob(s, c, j', faults).(thread := t');
    match s.thread
    case PutBack(_) => Some(s'.(queue := [c] + s.queue))
    case Execute(_) => Some(s'.(executed := s.executed + [c]))
    case Post(_, PLock, _) =>
      if HolderOf(s, adapter) == Free then Some(s'.(mutex := s.mutex[adapter := ByThread])) else None
    case Post(_, PUnlock, _) => Some(s'.(mutex := s.mutex[adapter := Free]))
    case Post(_, PRelease, _) => Some(s'.(finished := s.finished + [c]))
    case _ => Some(s')
  }

  /** The command is oversized or its code has no handler. */
  predicate IsMalformed(j: Job) {
    j.req.size > MAX_CMDSZ || (j.req.kind.Plain? && !j.req.kind.hasHandler)
  }

  /** The callback of `CMD_DISCONNECT` does not free a command that failed. */
  predicate Leaks(j: Job) {
    j.req.kind.Plain? && j.req.kind.keepsOnFailure && j.res != Success
  }

  /** The command the thread has taken off the queue and not released yet. */
  function Hand(t: ThreadPc): seq<nat> {
    match t
    case Inspect(c) => [c]
    case DropBuffer(c) => [c]
    case RegisterAlive(c) => [c]
    case PutBack(c) => [c]
    case Execute(c) => [c]
    case DrainBuffer(c) => [c]
    case Post(c, _, _) => [c]
    case _ => []
  }

  /** One step of the thread with no command in its hand. */
  function EmptyHandedNext(s: State): (r: Option<State>)
    requires Hand(s.thread) == []
  {
    match s.thread
    case Start => Some(s.(running := true, thread := Down))
    case Down => if s.sema == 0 then None else Some(s.(sema := s.sema - 1, thread := StopCheck))
    case StopCheck => Some(s.(thread := if s.cannotRun then Exit else EmptyCheck))
    case EmptyCheck => Some(s.(thread := if s.queue == [] then Down else Next))
    case Next => Some(s.(thread := if s.cannotRun then Exit else Dequeue))
    case Dequeue =>
      Some(if s.queue == [] then s.(thread := Down)
           else s.(queue := s.queue[1..], thread := Inspect(s.queue[0])))
    case Exit => Some(s.(running := false, thread := Drain))
    case Drain =>
      Some(if s.queue == [] then s.(thread := Stopped)
           else s.(queue := s.queue[1..], thread := DrainBuffer(s.queue[0])))
    case Stopped => None
  }

  /** One step of `rtw_cmd_thread`; `registered` and `ret` are what power management and the
      command handler answer, should this step ask them. */
  function ThreadNext(s: State, registered: bool, ret: Result): (r: Option<State>) {
    if Hand(s.thread) == [] then EmptyHandedNext(s)
    else if Hand(s.thread)[0] in s.jobs then HandNext(s, Hand(s.thread)[0], registered, ret)
    else None
  }

  function Apply(s: State, step: Step): (r: Option<State>) {
    match step
    case Submit(id, req) =>
      if id in s.jobs then None else Some(SetJob(s, id, NewJob(req), {}))
    case SubmitterMoves(id) => SubmitterNext(s, id)
    case TimesOut(id) =>
      if id in s.jobs && s.jobs[id].pc == Wait then
        Some(SetJob(s, id, s.jobs[id].(pc := LockMutex), {}))
      else None
    case ThreadMoves(registered, ret) => ThreadNext(s, registered, ret)
    case DownFails => if s.thread == Down then Some(s.(thread := Exit)) else None
    case OthersUp => Some(s.(sema := s.sema + 1))
    case Environment(hwInit, cannotRun) => Some(s.(hwInit := hwInit, cannotRun := cannotRun))
    case Restart => if s.thread == Stopped then Some(s.(thread := Start)) else None
  }

  /** The state after a schedule, or None when some step of it was not enabled. */
  function Run(steps: seq<Step>): (r: Option<State>) {
    if steps == [] then Some(Init) else
    match Run(steps[..|steps| - 1])
    case None => None
    case Some(s) => Apply(s, steps[|steps| - 1])
  }

  // ----- what every state keeps -----

  predicate BeforeLink(pc: SubmitterPc) {
    pc.Filter? || pc.RejectBuffer? || pc.RejectObject? || pc.Link?
  }

  /** The submitter holds `sctx_mutex`. */
  predicate Critical(pc: SubmitterPc) {
    pc.CheckStatus? || pc.Detach? || pc.UnlockMutex?
  }

  /** The thread holds `sctx_mutex`. */
  predicate ThreadCritical(t: ThreadPc) {
    t.Post? && !t.stage.PLock? && !t.stage.PRelease?
  }

  datatype Place = Outside | Queued | InHand(at: ThreadPc) | Done

  function PlaceOf(s: State, i: nat): Place {
    if i in s.queue then Queued
    else if i in Hand(s.thread) then InHand(s.thread)
    else if i in s.finished then Done
    else Outside
  }

  ghost predicate Distinct(ids: seq<nat>) {
    forall i, j :: 0 <= i < j < |ids| ==> ids[i] != ids[j]
  }

  /** The released commands, the one in hand and the queue are, in this order, everything that
      was ever enqueued. */
  ghost predicate Ordered(s: State) {
    && s.finished + Hand(s.thread) + s.queue == s.enqueued
    && Distinct(s.enqueued)
    && forall i :: i in s.enqueued ==> i in s.jobs
  }

  ghost predicate MutexOk(s: State) {
    && (forall i :: i in s.jobs && Critical(s.jobs[i].pc) ==> HolderOf(s, s.jobs[i].req.adapter) == BySubmitter(i))
    && (ThreadCritical(s.thread) ==>
          s.thread.cmd in s.jobs && HolderOf(s, s.jobs[s.thread.cmd].req.adapter) == ByThread)
  }

  /** The submitter still expects a signal. */
  predicate Attached(j: Job) {
    j.req.waits && (j.pc.Up? || j.pc.Wait? || j.pc.LockMutex? || j.pc.CheckStatus? || j.pc.Detach?)
  }

  predicate BeforeSignal(p: Place) {
    p.Queued? || (p.InHand? && (p.at.Post? ==> p.at.stage.PLock? || p.at.stage.PTest? || p.at.stage.PStatus?))
  }

  /** A submitter that waits for a command too large for the command buffer. */
  predicate WaitsForOversized(req: Request) {
    req.waits && req.size > MAX_CMDSZ
  }

  predicate OutsideOk(j: Job) {
    && (BeforeLink(j.pc) || j.pc == Returned || (WaitsForOversized(j.req) && !j.pc.Up?))
    && j.frees == (if BeforeLink(j.pc) then 0 else 1)
    && j.fate == (if BeforeLink(j.pc) && !j.pc.RejectObject? then Pending else Rejected)
    && (j.pc == Link ==> j.req.size <= MAX_CMDSZ)
    && (j.pc.RejectBuffer? || j.pc.RejectObject? ==> (j.pc.accepted ==> j.req.size > MAX_CMDSZ))
    && (BeforeLink(j.pc) ==> j.sctx == j.req.waits)
    && j.status == Submitted && !j.done && j.res == Unset
  }

  /** What a context is told about a command whose fate is decided. */
  function Verdict(j: Job): (status: Status) {
    if j.fate == Drained then DoneCmdDrop
    else if j.fate == Executed && j.res == Success then DoneSuccess
    else DoneCmdError
  }

  /** The result of a command, and the status its context has, go with its fate. */
  predicate StatusOk(j: Job, p: Place) {
    && (j.res == Success ==> j.fate == Executed)
    && (p.InHand? && p.at.Post? ==> (p.at.draining <==> j.fate == Drained))
    && (j.status != Submitted ==> j.fate != Pending && j.status == Verdict(j))
    && (j.done ==> j.status != Submitted)
  }

  predicate SignalOk(j: Job, p: Place) {
    if BeforeSignal(p) then
      && j.status == Submitted && !j.done && j.sctx == Attached(j)
      && (p.InHand? && p.at.Post? && p.at.stage.PStatus? ==> j.sctx)
    else if p.InHand? && p.at.Post? && (p.at.stage.PComplete? || p.at.stage.PClear?) then
      j.status != Submitted && j.sctx && Attached(j) && (p.at.stage.PClear? ==> j.done)
    else
      !j.sctx && (Attached(j) ==> j.status != Submitted && j.done)
  }

  predicate EnqueuedOk(j: Job, p: Place) {
    && j.req.size <= MAX_CMDSZ
    && !BeforeLink(j.pc)
    && (p.Done? ==> j.frees == if j.fate != Drained && Leaks(j) then 0 else 1)
    && (!p.Done? ==> j.frees == 0)
    && j.fate != Rejected && (j.fate == Malformed ==> j.req.kind.Plain?)
    && (j.fate == Pending <==> p.Queued? || (p.InHand? && !p.at.Post?))
    && (p.InHand? && ThreadCritical(p.at) ==> !Critical(j.pc))
    && SignalOk(j, p) && StatusOk(j, p)
  }

  predicate JobOk(j: Job, p: Place) {
    && (j.pc.Wait? || j.pc.LockMutex? || Critical(j.pc) ==> j.req.waits)
    && j.bufFrees == (if HasBuffer(j) && j.fate != Pending then 1 else 0)
    && (j.pc == Detach ==> j.status == Submitted)
    && (if p.Outside? then OutsideOk(j) else EnqueuedOk(j, p))
  }

  ghost predicate JobsOk(s: State) {
    forall i :: i in s.jobs ==> JobOk(s.jobs[i], PlaceOf(s, i))
  }

  /** The one memory error there is, and whom to blame for it. */
  ghost predicate FaultsOk(s: State) {
    && s.faults <= {UseAfterFree}
    && (s.faults != {} ==> exists i :: i in s.jobs && WaitsForOversized(s.jobs[i].req))
  }

  ghost predicate Inv(s: State) {
    Ordered(s) && MutexOk(s) && JobsOk(s) && FaultsOk(s)
  }

  lemma DisjointParts(a: seq<nat>, b: seq<nat>)
    requires Distinct(a + b)
    ensures forall x :: x in a ==> x !in b
  {
    forall i, j | 0 <= i < |a| && 0 <= j < |b|
      ensures a[i] != b[j]
    {
      assert (a + b)[i] == a[i] && (a + b)[|a| + j] == b[j];
    }
  }

  lemma PlacesExclude(s: State)
    requires Ordered(s)
    ensures forall i :: i in s.queue ==> i !in Hand(s.thread) && i !in s.finished
    ensures forall i :: i in Hand(s.thread) ==> i !in s.finished
    ensures forall i :: i in s.enqueued <==> PlaceOf(s, i) != Outside
  {
    var a, b, c := s.finished, Hand(s.thread), s.queue;
    DisjointParts(a + b, c);
    assert s.enqueued == a + (b + c);
    DisjointParts(a, b + c);
  }

  // ----- steps of a submitter -----

  lemma AdvanceKeepsJob(j: Job, p: Place, pass: bool)
    requires JobOk(j, p) && j.pc != Link
    requires j.pc == LockMutex && p.InHand? ==> !ThreadCritical(p.at)
    ensures JobOk(Advance(j, pass), p)
    ensures AdvanceFaults(j) == {} || (AdvanceFaults(j) == {UseAfterFree} && WaitsForOversized(j.req))
  {
  }

  lemma AdvanceCritical(j: Job, pass: bool)
    ensures Advance(j, pass).req == j.req
    ensures Critical(Advance(j, pass).pc) <==> j.pc == LockMutex || (Critical(j.pc) && j.pc != UnlockMutex)
  {
  }

  lemma SubmitterHolds(s: State, id: nat)
    requires SubmitterNext(s, id).Some?
    ensures id in s.jobs && (s.jobs[id].pc == LockMutex ==> HolderOf(s, s.jobs[id].req.adapter) == Free)
    ensures var s', a := SubmitterNext(s, id).value, s.jobs[id].req.adapter;
            s'.mutex == if s.jobs[id].pc == LockMutex then s.mutex[a := BySubmitter(id)]
                        else if s.jobs[id].pc == UnlockMutex then s.mutex[a := Free]
                        else s.mutex
  {
  }

  lemma SubmitterMutex(s: State, id: nat)
    requires SubmitterNext(s, id).Some? && MutexOk(s)
    requires s.jobs[id].pc == Link ==> id !in Hand(s.thread)
    ensures MutexOk(SubmitterNext(s, id).value)
  {
    hide SubmitterNext, Advance;
    SubmitterHolds(s, id);
    SubmitterFields(s, id);
    AdvanceCritical(s.jobs[id], FilterPasses(s, s.jobs[id].req));
  }

  lemma FaultsFrame(s: State, s': State)
    requires FaultsOk(s) && s'.faults == s.faults
    requires forall i :: i in s.jobs ==> i in s'.jobs && s'.jobs[i].req == s.jobs[i].req
    ensures FaultsOk(s')
  {
    if s.faults != {} {
      var i :| i in s.jobs && WaitsForOversized(s.jobs[i].req);
      assert i in s'.jobs && WaitsForOversized(s'.jobs[i].req);
    }
  }

  /** Only the job `id` changes or moves, and it stays well. */
  lemma JobsFrame(s: State, s': State, id: nat)
    requires JobsOk(s) && id in s'.jobs && JobOk(s'.jobs[id], PlaceOf(s', id))
    requires forall i :: i in s'.jobs && i != id ==> i in s.jobs && s'.jobs[i] == s.jobs[i]
    requires forall i :: i in s'.jobs && i != id ==> PlaceOf(s', i) == PlaceOf(s, i)
    ensures JobsOk(s')
  {
    forall i | i in s'.jobs
      ensures JobOk(s'.jobs[i], PlaceOf(s', i))
    {
      if i != id {
        assert JobOk(s.jobs[i], PlaceOf(s, i));
      }
    }
  }

  /** Changing one job in place keeps the invariant when that job stays well. */
  lemma OneJobChanges(s: State, s': State, id: nat)
    requires Inv(s) && id in s.jobs && id in s'.jobs
    requires s'.jobs == s.jobs[id := s'.jobs[id]]
    requires s'.queue == s.queue && s'.thread == s.thread && s'.enqueued == s.enqueued && s'.finished == s.finished
    requires JobOk(s'.jobs[id], PlaceOf(s, id)) && s'.jobs[id].req == s.jobs[id].req && MutexOk(s')
    requires s'.faults == s.faults || (s'.faults == s.faults + {UseAfterFree} && WaitsForOversized(s.jobs[id].req))
    ensures Inv(s')
  {
    assert forall i :: PlaceOf(s', i) == PlaceOf(s, i);
    JobsFrame(s, s', id);
    if s'.faults == s.faults {
      FaultsFrame(s, s');
    } else {
      assert WaitsForOversized(s'.jobs[id].req);
    }
  }

  lemma SubmitterFields(s: State, id: nat)
    requires SubmitterNext(s, id).Some?
    ensures id in s.jobs
    ensures var s' := SubmitterNext(s, id).value;
            && s'.jobs == s.jobs[id := Advance(s.jobs[id], FilterPasses(s, s.jobs[id].req))]
            && s'.thread == s.thread && s'.finished == s.finished && s'.executed == s.executed
            && s'.queue == (if s.jobs[id].pc == Link then s.queue + [id] else s.queue)
            && s'.enqueued == (if s.jobs[id].pc == Link then s.enqueued + [id] else s.enqueued)
            && s'.faults == s.faults + AdvanceFaults(s.jobs[id])
  {
    match s.jobs[id].pc
    case Link =>
    case Up =>
    case Wait =>
    case LockMutex =>
    case UnlockMutex =>
    case _ =>
  }

  lemma AdvanceKeepsRequest(j: Job, pass: bool)
    ensures Advance(j, pass).req == j.req
  {
  }

  lemma SubmitterKeepsInv(s: State, id: nat)
    requires Inv(s) && SubmitterNext(s, id).Some? && s.jobs[id].pc != Link
    ensures Inv(SubmitterNext(s, id).value)
  {
    hide SubmitterNext, Advance, AdvanceFaults, Ordered, JobOk;
    SubmitterFields(s, id);
    SubmitterHolds(s, id);
    var j := s.jobs[id];
    var pass := FilterPasses(s, j.req);
    assert j.pc == LockMutex && PlaceOf(s, id).InHand? ==> !ThreadCritical(PlaceOf(s, id).at);
    AdvanceKeepsJob(j, PlaceOf(s, id), pass);
    AdvanceKeepsRequest(j, pass);
    SubmitterMutex(s, id);
    OneJobChanges(s, SubmitterNext(s, id).value, id);
  }

  lemma LinkKeepsJob(j: Job)
    requires JobOk(j, Outside) && j.pc == Link
    ensures JobOk(j.(pc := Up), Queued)
  {
  }

  lemma LinkKeepsInv(s: State, id: nat)
    requires Inv(s) && id in s.jobs && s.jobs[id].pc == Link
    ensures Inv(SubmitterNext(s, id).value)
  {
    PlacesExclude(s);
    assert JobOk(s.jobs[id], PlaceOf(s, id)) && PlaceOf(s, id) == Outside;
    LinkKeepsJob(s.jobs[id]);
    SubmitterMutex(s, id);
    LinkStepKeepsInv(s, SubmitterNext(s, id).value, id);
  }

  lemma LinkStepKeepsInv(s: State, s': State, id: nat)
    requires Inv(s) && id in s.jobs && PlaceOf(s, id) == Outside && MutexOk(s')
    requires s' == s.(jobs := s.jobs[id := s.jobs[id].(pc := Up)],
                      queue := s.queue + [id], enqueued := s.enqueued + [id])
    requires JobOk(s.jobs[id].(pc := Up), Queued)
    ensures Inv(s')
  {
    PlacesExclude(s);
    assert s'.finished + Hand(s'.thread) + s'.queue == s'.enqueued;
    JobsFrame(s, s', id);
    FaultsFrame(s, s');
  }

  lemma TimeOutKeepsInv(s: State, id: nat)
    requires Inv(s) && Apply(s, TimesOut(id)).Some?
    ensures Inv(Apply(s, TimesOut(id)).value)
  {
    AdvanceKeepsJob(s.jobs[id], PlaceOf(s, id), true);
    OneJobChanges(s, Apply(s, TimesOut(id)).value, id);
  }

  lemma SubmitKeepsInv(s: State, id: nat, req: Request)
    requires Inv(s) && id !in s.jobs
    ensures Inv(Apply(s, Submit(id, req)).value)
  {
    hide ThreadNext, SubmitterNext, Ordered, MutexOk, JobsOk, FaultsOk, JobOk;
    var s' := SetJob(s, id, NewJob(req), {});
    NewJobPlaces(s, id, NewJob(req));
    NewJobMutex(s, id, NewJob(req));
    NewJobOk(req);
    JobsFrame(s, s', id);
    FaultsFrame(s, s');
  }

  lemma NewJobOk(req: Request)
    ensures JobOk(NewJob(req), Outside)
  {
  }

  lemma NewJobPlaces(s: State, id: nat, j: Job)
    requires Ordered(s) && id !in s.jobs
    ensures Ordered(SetJob(s, id, j, {}))
    ensures PlaceOf(SetJob(s, id, j, {}), id) == Outside
    ensures forall i :: PlaceOf(SetJob(s, id, j, {}), i) == PlaceOf(s, i)
  {
    PlacesExclude(s);
  }

  lemma NewJobMutex(s: State, id: nat, j: Job)
    requires MutexOk(s) && id !in s.jobs && !Critical(j.pc)
    ensures MutexOk(SetJob(s, id, j, {}))
  {
  }

  // ----- steps of the thread -----

  /** Where the command in hand is after the thread's step. */
  function PlaceAfter(t: ThreadPc, t': ThreadPc): Place {
    if t.PutBack? then Queued
    else if t.Post? && t.stage.PRelease? then Done
    else InHand(t')
  }

  lemma HandleKeepsJob(j: Job, t: ThreadPc, pass: bool, registered: bool, ret: Result)
    requires |Hand(t)| == 1 && JobOk(j, InHand(t))
    requires t.Post? && t.stage.PLock? ==> !Critical(j.pc)
    ensures JobOk(Handle(j, t, pass, ret), PlaceAfter(t, HandlePc(j, t, pass, registered)))
    ensures HandleFaults(j, t) == {}
  {
  }

  predicate At(t: ThreadPc, stage: Stage) {
    t.Post? && t.stage == stage
  }

  /** The part of a step on the command `c` that the global invariants depend on. */
  ghost predicate HandStep(s: State, s': State, c: nat)
    requires c in s.jobs
  {
    var j := s.jobs[c];
    var leaves := s.thread.PutBack? || At(s.thread, PRelease);
    && c in s'.jobs && s'.jobs == s.jobs[c := s'.jobs[c]]
    && s'.jobs[c].req == j.req && s'.jobs[c].pc == j.pc
    && s'.enqueued == s.enqueued
    && Hand(s'.thread) == (if leaves then [] else [c])
    && s'.queue == (if s.thread.PutBack? then [c] + s.queue else s.queue)
    && s'.finished == (if At(s.thread, PRelease) then s.finished + [c] else s.finished)
    && (At(s.thread, PLock) ==> HolderOf(s, j.req.adapter) == Free)
    && s'.mutex == (if At(s.thread, PLock) then s.mutex[j.req.adapter := ByThread]
                    else if At(s.thread, PUnlock) then s.mutex[j.req.adapter := Free]
                    else s.mutex)
    && (ThreadCritical(s'.thread) <==>
          At(s.thread, PLock) || (ThreadCritical(s.thread) && !At(s.thread, PUnlock)))
  }

  lemma HandleKeepsSubmitter(j: Job, t: ThreadPc, pass: bool, ret: Result)
    ensures Handle(j, t, pass, ret).req == j.req && Handle(j, t, pass, ret).pc == j.pc
  {
  }

  lemma HandlePcShape(j: Job, t: ThreadPc, pass: bool, registered: bool, c: nat)
    requires Hand(t) == [c]
    ensures var t' := HandlePc(j, t, pass, registered);
            && Hand(t') == (if t.PutBack? || At(t, PRelease) then [] else [c])
            && (ThreadCritical(t') <==> At(t, PLock) || (ThreadCritical(t) && !At(t, PUnlock)))
  {
  }

  lemma HandUpdateIsHandStep(s: State, c: nat, j': Job, t': ThreadPc, faults: set<Fault>)
    requires Hand(s.thread) == [c] && c in s.jobs && HandUpdate(s, c, j', t', faults).Some?
    requires j'.req == s.jobs[c].req && j'.pc == s.jobs[c].pc
    requires Hand(t') == (if s.thread.PutBack? || At(s.thread, PRelease) then [] else [c])
    requires ThreadCritical(t') <==>
               At(s.thread, PLock) || (ThreadCritical(s.thread) && !At(s.thread, PUnlock))
    ensures HandStep(s, HandUpdate(s, c, j', t', faults).value, c)
  {
  }

  lemma HandNextIsHandStep(s: State, c: nat, registered: bool, ret: Result)
    requires Hand(s.thread) == [c] && c in s.jobs && HandNext(s, c, registered, ret).Some?
    ensures HandStep(s, HandNext(s, c, registered, ret).value, c)
  {
    var j := s.jobs[c];
    var pass := FilterPasses(s, j.req);
    HandleKeepsSubmitter(j, s.thread, pass, ret);
    HandlePcShape(j, s.thread, pass, registered, c);
    HandUpdateIsHandStep(s, c, Handle(j, s.thread, pass, ret), HandlePc(j, s.thread, pass, registered),
                         HandleFaults(j, s.thread));
  }

  lemma HandMutex(s: State, s': State, c: nat)
    requires MutexOk(s) && Hand(s.thread) == [c] && c in s.jobs && HandStep(s, s', c)
    ensures MutexOk(s')
  {
  }

  lemma HandOrdered(s: State, s': State, c: nat)
    requires Ordered(s) && Hand(s.thread) == [c] && c in s.jobs && HandStep(s, s', c)
    ensures Ordered(s')
  {
    assert s'.finished + Hand(s'.thread) + s'.queue == s.finished + Hand(s.thread) + s.queue;
  }

  lemma HandPlaces(s: State, s': State, c: nat, i: nat)
    requires Ordered(s) && Hand(s.thread) == [c] && c in s.jobs && HandStep(s, s', c)
    ensures PlaceOf(s', i) == if i == c then PlaceAfter(s.thread, s'.thread) else PlaceOf(s, i)
  {
    PlacesExclude(s);
  }

  lemma HandUpdateFields(s: State, c: nat, j': Job, t': ThreadPc, faults: set<Fault>)
    requires c in s.jobs && HandUpdate(s, c, j', t', faults).Some?
    ensures var s' := HandUpdate(s, c, j', t', faults).value;
            && c in s'.jobs && s'.jobs[c] == j' && s'.thread == t' && s'.faults == s.faults + faults
            && s'.executed == if s.thread.Execute? then s.executed + [c] else s.executed
  {
  }

  /** What a step does to the command itself. */
  lemma HandJob(s: State, c: nat, registered: bool, ret: Result)
    requires Hand(s.thread) == [c] && c in s.jobs && HandNext(s, c, registered, ret).Some?
    requires JobOk(s.jobs[c], InHand(s.thread))
    requires At(s.thread, PLock) ==> !Critical(s.jobs[c].pc)
    ensures var s' := HandNext(s, c, registered, ret).value;
            s'.faults == s.faults && JobOk(s'.jobs[c], PlaceAfter(s.thread, s'.thread))
  {
    var j := s.jobs[c];
    var pass := FilterPasses(s, j.req);
    HandleKeepsJob(j, s.thread, pass, registered, ret);
    HandUpdateFields(s, c, Handle(j, s.thread, pass, ret), HandlePc(j, s.thread, pass, registered),
                     HandleFaults(j, s.thread));
  }

  lemma HandKeepsInv(s: State, c: nat, registered: bool, ret: Result)
    requires Inv(s) && Hand(s.thread) == [c] && c in s.jobs
    requires HandNext(s, c, registered, ret).Some?
    ensures Inv(HandNext(s, c, registered, ret).value)
  {
    var s' := HandNext(s, c, registered, ret).value;
    assert PlaceOf(s, c) == InHand(s.thread) by { PlacesExclude(s); }
    HandNextIsHandStep(s, c, registered, ret);
    HandJob(s, c, registered, ret);
    HandStepKeepsInv(s, s', c);
  }

  lemma HandStepKeepsInv(s: State, s': State, c: nat)
    requires Inv(s) && Hand(s.thread) == [c] && c in s.jobs && HandStep(s, s', c)
    requires s'.faults == s.faults && JobOk(s'.jobs[c], PlaceAfter(s.thread, s'.thread))
    ensures Inv(s')
  {
    HandMutex(s, s', c);
    HandOrdered(s, s', c);
    forall i
      ensures PlaceOf(s', i) == if i == c then PlaceAfter(s.thread, s'.thread) else PlaceOf(s, i)
    {
      HandPlaces(s, s', c, i);
    }
    JobsFrame(s, s', c);
    FaultsFrame(s, s');
  }

  /** A queued command stays well when the thread takes it. */
  lemma TakingKeepsJob(j: Job, t: ThreadPc)
    requires JobOk(j, Queued) && (t.Inspect? || t.DrainBuffer?)
    ensures JobOk(j, InHand(t))
  {
  }

  /** The thread takes the head of the queue. */
  lemma TakeKeepsInv(s: State, t: ThreadPc)
    requires Inv(s) && Hand(s.thread) == [] && s.queue != []
    requires (t.Inspect? || t.DrainBuffer?) && t.cmd == s.queue[0]
    ensures Inv(s.(queue := s.queue[1..], thread := t))
  {
    var s' := s.(queue := s.queue[1..], thread := t);
    assert s'.finished + Hand(s'.thread) + s'.queue == s.finished + Hand(s.thread) + s.queue;
    PlacesExclude(s);
    PlacesExclude(s');
    var c := s.queue[0];
    assert c in s.jobs && JobOk(s.jobs[c], PlaceOf(s, c));
    TakingKeepsJob(s.jobs[c], t);
    JobsFrame(s, s', c);
  }

  /** Steps that move neither a job nor the queue. */
  lemma IdleKeepsInv(s: State, s': State)
    requires Inv(s) && Hand(s.thread) == Hand(s'.thread)
    requires s'.thread == s.thread || Hand(s.thread) == []
    requires s'.jobs == s.jobs && s'.queue == s.queue && s'.mutex == s.mutex
    requires s'.enqueued == s.enqueued && s'.finished == s.finished && s'.faults == s.faults
    ensures Inv(s')
  {
    FaultsFrame(s, s');
    forall i | i in s'.jobs
      ensures JobOk(s'.jobs[i], PlaceOf(s', i))
    {
      assert PlaceOf(s', i) == PlaceOf(s, i);
    }
  }

  /** The thread's steps with empty hands. */
  lemma EmptyHandedKeepsInv(s: State)
    requires Inv(s) && Hand(s.thread) == [] && EmptyHandedNext(s).Some?
    ensures Inv(EmptyHandedNext(s).value)
  {
    EmptyHandedShape(s);
    EmptyHandedStepKeepsInv(s, EmptyHandedNext(s).value);
  }

  ghost predicate EmptyHandedStep(s: State, s': State) {
    && s'.jobs == s.jobs && s'.mutex == s.mutex && s'.enqueued == s.enqueued
    && s'.finished == s.finished && s'.executed == s.executed && s'.faults == s.faults
    && (|| (s'.queue == s.queue && Hand(s'.thread) == [])
        || (s.queue != [] && s' == s.(queue := s.queue[1..], thread := s'.thread)
            && (s'.thread.Inspect? || s'.thread.DrainBuffer?) && s'.thread.cmd == s.queue[0]))
  }

  lemma EmptyHandedShape(s: State)
    requires Hand(s.thread) == [] && EmptyHandedNext(s).Some?
    ensures EmptyHandedStep(s, EmptyHandedNext(s).value)
  {
    match s.thread
    case Dequeue =>
    case Drain =>
    case _ =>
  }

  lemma EmptyHandedStepKeepsInv(s: State, s': State)
    requires Inv(s) && Hand(s.thread) == [] && EmptyHandedStep(s, s')
    ensures Inv(s')
  {
    if Hand(s'.thread) == [] {
      IdleKeepsInv(s, s');
    } else {
      TakeKeepsInv(s, s'.thread);
    }
  }

  lemma ThreadKeepsInv(s: State, registered: bool, ret: Result)
    requires Inv(s) && ThreadNext(s, registered, ret).Some?
    ensures Inv(ThreadNext(s, registered, ret).value)
  {
    if Hand(s.thread) == [] {
      EmptyHandedKeepsInv(s);
    } else {
      var c := Hand(s.thread)[0];
      HandKeepsInv(s, c, registered, ret);
    }
  }

  lemma StepKeepsInv(s: State, step: Step)
    requires Inv(s) && Apply(s, step).Some?
    ensures Inv(Apply(s, step).value)
  {
    match step
    case Submit(id, req) => SubmitKeepsInv(s, id, req);
    case SubmitterMoves(id) =>
      if s.jobs[id].pc == Link {
        LinkKeepsInv(s, id);
      } else {
        SubmitterKeepsInv(s, id);
      }
    case TimesOut(id) => TimeOutKeepsInv(s, id);
    case ThreadMoves(registered, ret) => ThreadKeepsInv(s, registered, ret);
    case _ => IdleKeepsInv(s, Apply(s, step).value);
  }

  lemma {:induction false} RunKeepsInv(steps: seq<Step>)
    requires Run(steps).Some?
    ensures Inv(Run(steps).value)
  {
    if steps == [] {
    } else {
      var n := |steps| - 1;
      RunKeepsInv(steps[..n]);
      StepKeepsInv(Run(steps[..n]).value, steps[n]);
    }
  }

  // ----- memory safety -----

  lemma {:induction false} RequestsWereSubmitted(steps: seq<Step>, id: nat)
    requires Run(steps).Some? && id in Run(steps).value.jobs
    ensures exists k :: 0 <= k < |steps| && steps[k].Submit? && steps[k].req == Run(steps).value.jobs[id].req
  {
    var n := |steps| - 1;
    var s := Run(steps[..n]).value;
    if id in s.jobs {
      RequestsWereSubmitted(steps[..n], id);
      RequestStays(s, steps[n], id);
      var k :| 0 <= k < n && steps[..n][k].Submit? && steps[..n][k].req == s.jobs[id].req;
      assert steps[k].Submit? && steps[k].req == s.jobs[id].req;
    } else {
      NewJobsAreSubmitted(s, steps[n], id);
    }
  }

  lemma RequestStays(s: State, step: Step, id: nat)
    requires Apply(s, step).Some? && id in s.jobs
    ensures id in Apply(s, step).value.jobs && Apply(s, step).value.jobs[id].req == s.jobs[id].req
  {
    hide HandNext, Advance;
    if step.ThreadMoves? && Hand(s.thread) != [] {
      HandNextIsHandStep(s, Hand(s.thread)[0], step.registered, step.ret);
    } else if step.SubmitterMoves? {
      AdvanceKeepsRequest(s.jobs[step.id], FilterPasses(s, s.jobs[step.id].req));
      SubmitterFields(s, step.id);
    }
  }

  lemma NewJobsAreSubmitted(s: State, step: Step, id: nat)
    requires Apply(s, step).Some? && id !in s.jobs && id in Apply(s, step).value.jobs
    ensures step.Submit? && step.req == Apply(s, step).value.jobs[id].req
  {
    hide HandNext, SubmitterNext, EmptyHandedNext, Advance;
    match step
    case SubmitterMoves(who) =>
      SubmitterFields(s, who);
    case ThreadMoves(registered, ret) =>
      if Hand(s.thread) != [] {
        HandNextIsHandStep(s, Hand(s.thread)[0], registered, ret);
      } else {
        EmptyHandedShape(s);
      }
    case _ =>
  }

  /** In every interleaving no context is signalled after its submitter returned, no object
      and no buffer is freed twice, and the only possible use after free needs a submitter
      that waits for an oversized command. */
  lemma OnlyOversizedWaitsFault(steps: seq<Step>)
    requires Run(steps).Some?
    ensures Run(steps).value.faults <= {UseAfterFree}
    ensures Run(steps).value.faults != {} ==>
              exists k :: 0 <= k < |steps| && steps[k].Submit? && WaitsForOversized(steps[k].req)
  {
    RunKeepsInv(steps);
    var s := Run(steps).value;
    if s.faults != {} {
      var id :| id in s.jobs && WaitsForOversized(s.jobs[id].req);
      RequestsWereSubmitted(steps, id);
    }
  }

  /** Every submitter of the schedule waits only for commands of at most `n` bytes. */
  ghost predicate WaitsUpTo(steps: seq<Step>, n: nat) {
    forall k :: 0 <= k < |steps| && steps[k].Submit? && steps[k].req.waits ==> steps[k].req.size <= n
  }

  ghost predicate SafeUpTo(n: nat) {
    forall steps :: Run(steps).Some? && WaitsUpTo(steps, n) ==> Run(steps).value.faults == {}
  }

  /** `rtw_enqueue_cmd` frees an oversized command and still reports success when the filter
      let it through, so the submitter waits, times out, and writes into the freed object. */
  function StraySchedule(n: nat): (steps: seq<Step>) {
    [ThreadMoves(true, Success), Environment(true, false),
     Submit(0, Request(0, Plain(true, false), n, false, false, true))]
    + [SubmitterMoves(0), SubmitterMoves(0), SubmitterMoves(0), TimesOut(0)]
    + [SubmitterMoves(0), SubmitterMoves(0), SubmitterMoves(0)]
  }

  /** Running further steps from a state. */
  function RunFrom(s: State, steps: seq<Step>): (r: Option<State>)
    decreases |steps|
  {
    if steps == [] then Some(s) else
    match Apply(s, steps[0])
    case None => None
    case Some(s') => RunFrom(s', steps[1..])
  }

  lemma {:induction false} RunThen(a: seq<Step>, b: seq<Step>)
    ensures Run(a + b) == match Run(a) case None => None case Some(s) => RunFrom(s, b)
    decreases |b|
  {
    if b == [] {
      assert a + b == a;
    } else {
      assert (a + [b[0]])[..|a|] == a;
      assert a + b == (a + [b[0]]) + b[1..];
      RunThen(a + [b[0]], b[1..]);
      match Run(a)
      case None => NoneStaysNone(a + [b[0]], b[1..]);
      case Some(s) =>
        if Apply(s, b[0]).None? {
          NoneStaysNone(a + [b[0]], b[1..]);
        }
    }
  }

  lemma {:induction false} NoneStaysNone(a: seq<Step>, b: seq<Step>)
    requires Run(a).None?
    ensures Run(a + b).None?
    decreases |b|
  {
    if b == [] {
      assert a + b == a;
    } else {
      var n := |b| - 1;
      assert (a + b)[..|a + b| - 1] == a + b[..n];
      NoneStaysNone(a, b[..n]);
    }
  }

  lemma StrayStart(n: nat)
    requires n > MAX_CMDSZ
    ensures var r := Run(StraySchedule(n)[..3]);
            && r.Some? && r.value.running && r.value.hwInit && r.value.mutex == map[] && 0 in r.value.jobs
            && r.value.jobs[0] == NewJob(Request(0, Plain(true, false), n, false, false, true))
  {
    var steps := StraySchedule(n)[..3];
    assert steps[..2][..1][..0] == [];
    assert Run(steps[..2][..1]).Some?;
    assert Run(steps[..2]).Some?;
  }

  lemma RunOne(s: State, a: Step, rest: seq<Step>)
    requires Apply(s, a).Some?
    ensures RunFrom(s, [a] + rest) == RunFrom(Apply(s, a).value, rest)
  {
    hide Apply;
    assert ([a] + rest)[1..] == rest;
  }

  lemma RunThree(s: State, a: Step, b: Step, c: Step, s1: State, s2: State, s3: State)
    requires Apply(s, a) == Some(s1) && Apply(s1, b) == Some(s2) && Apply(s2, c) == Some(s3)
    ensures RunFrom(s, [a, b, c]) == Some(s3)
  {
    hide Apply, RunFrom;
    RunOne(s, a, [b, c]);
    RunOne(s1, b, [c]);
    RunOne(s2, c, []);
    assert [a] + [b, c] == [a, b, c] && [b] + [c] == [b, c] && [c] + [] == [c];
    RunNothing(s3);
  }

  lemma RunNothing(s: State)
    ensures RunFrom(s, []) == Some(s)
  {
  }

  lemma StrayRejected(s: State)
    requires s.running && s.hwInit && 0 in s.jobs
    requires s.jobs[0].pc == Filter && WaitsForOversized(s.jobs[0].req)
    ensures var r := RunFrom(s, [SubmitterMoves(0), SubmitterMoves(0), SubmitterMoves(0)]);
            && r.Some? && r.value.mutex == s.mutex && 0 in r.value.jobs
            && r.value.jobs[0].pc == Wait && r.value.jobs[0].frees > 0
            && r.value.jobs[0].status == s.jobs[0].status && r.value.jobs[0].req == s.jobs[0].req
  {
    hide ThreadNext, RunFrom;
    var m := SubmitterMoves(0);
    var s1 := Apply(s, m).value;
    var s2 := Apply(s1, m).value;
    RunThree(s, m, m, m, s1, s2, Apply(s2, m).value);
  }

  lemma StrayTimesOut(s: State)
    requires 0 in s.jobs && s.jobs[0].pc == Wait
    ensures var r := RunFrom(s, [TimesOut(0)]);
            r.Some? && r.value == s.(jobs := s.jobs[0 := s.jobs[0].(pc := LockMutex)])
  {
    hide ThreadNext, RunFrom;
    assert [TimesOut(0)] + [] == [TimesOut(0)];
    RunOne(s, TimesOut(0), []);
    RunNothing(Apply(s, TimesOut(0)).value);
  }

  lemma StrayWrites(s: State)
    requires 0 in s.jobs && s.jobs[0].pc == LockMutex && s.jobs[0].frees > 0
    requires s.jobs[0].status == Submitted && HolderOf(s, s.jobs[0].req.adapter) == Free
    ensures var r := RunFrom(s, [SubmitterMoves(0), SubmitterMoves(0), SubmitterMoves(0)]);
            r.Some? && UseAfterFree in r.value.faults
  {
    hide ThreadNext, RunFrom;
    var m := SubmitterMoves(0);
    var s1 := Apply(s, m).value;
    var s2 := Apply(s1, m).value;
    RunThree(s, m, m, m, s1, s2, Apply(s2, m).value);
  }

  lemma OversizedWaitFaults(n: nat)
    requires n > MAX_CMDSZ
    ensures Run(StraySchedule(n)).Some? && UseAfterFree in Run(StraySchedule(n)).value.faults
  {
    var steps := StraySchedule(n);
    StrayStart(n);
    hide Run, RunFrom, Apply;
    RunThen(steps[..3], steps[3..6]);
    assert steps[3..6] == [SubmitterMoves(0), SubmitterMoves(0), SubmitterMoves(0)];
    StrayRejected(Run(steps[..3]).value);
    assert steps[..3] + steps[3..6] == steps[..6];
    RunThen(steps[..6], steps[6..7]);
    assert steps[6..7] == [TimesOut(0)];
    StrayTimesOut(Run(steps[..6]).value);
    assert steps[..6] + steps[6..7] == steps[..7];
    RunThen(steps[..7], steps[7..]);
    assert steps[..7] + steps[7..] == steps;
    assert steps[7..] == [SubmitterMoves(0), SubmitterMoves(0), SubmitterMoves(0)];
    StrayWrites(Run(steps[..7]).value);
  }

  /** Waiting is memory safe in every interleaving exactly when the commands waited for fit
      the command buffer. */
  lemma SafeExactlyWhenItFits(n: nat)
    ensures SafeUpTo(n) <==> n <= MAX_CMDSZ
  {
    if n <= MAX_CMDSZ {
      forall steps | Run(steps).Some? && WaitsUpTo(steps, n)
        ensures Run(steps).value.faults == {}
      {
        OnlyOversizedWaitsFault(steps);
      }
    } else {
      OversizedWaitFaults(n);
      assert WaitsUpTo(StraySchedule(n), n);
    }
  }

  /** In every reachable state an extra buffer has been freed exactly once if its command was
      rejected, dropped, executed or drained, and not at all otherwise; its command is never
      discarded without that; no command object is freed more than once. */
  lemma BufferFreedExactlyOnce(steps: seq<Step>, id: nat)
    requires Run(steps).Some? && id in Run(steps).value.jobs
    ensures var j := Run(steps).value.jobs[id];
            && j.frees <= 1
            && (id in Run(steps).value.finished ==>
                  (j.frees == 0 <==>
                   j.fate != Drained && j.req.kind.Plain? && j.req.kind.keepsOnFailure && j.res != Success))
            && (HasBuffer(j) ==> j.fate != Malformed && j.bufFrees == if j.fate == Pending then 0 else 1)
  {
    hide Run, JobOk, Leaks;
    RunKeepsInv(steps);
    var s := Run(steps).value;
    FinishedPlace(s, id);
    JobFrees(s.jobs[id], PlaceOf(s, id));
  }

  lemma FinishedPlace(s: State, id: nat)
    requires Ordered(s)
    ensures id in s.finished ==> PlaceOf(s, id) == Done
  {
    PlacesExclude(s);
  }

  lemma JobFrees(j: Job, p: Place)
    requires JobOk(j, p)
    ensures j.frees <= 1
    ensures p == Done ==>
              (j.frees == 0 <==>
               j.fate != Drained && j.req.kind.Plain? && j.req.kind.keepsOnFailure && j.res != Success)
    ensures HasBuffer(j) ==> j.fate != Malformed && j.bufFrees == if j.fate == Pending then 0 else 1
  {
  }

  /** In every reachable state the status in a context is the initial one or the right one: success
      says the command was executed and its result was success, a drop says it was drained, an
      error that it was malformed, filtered out or executed with another result. A context that
      was completed has such a status, and a submitter that found none has detached itself. */
  lemma StatusTellsFate(steps: seq<Step>, id: nat)
    requires Run(steps).Some? && id in Run(steps).value.jobs
    ensures var j := Run(steps).value.jobs[id];
            && (j.status == DoneSuccess ==> j.fate == Executed && j.res == Success)
            && (j.status == DoneCmdDrop ==> j.fate == Drained)
            && (j.status == DoneCmdError ==>
                  j.fate == Malformed || j.fate == DroppedByFilter || (j.fate == Executed && j.res != Success))
            && (j.done ==> j.status != Submitted)
            && (j.pc == Returned && j.status == Submitted && j.fate != Rejected ==> !j.sctx)
  {
    hide Run, JobOk, PlaceOf;
    RunKeepsInv(steps);
    var s := Run(steps).value;
    JobStatus(s.jobs[id], PlaceOf(s, id));
  }

  lemma JobStatus(j: Job, p: Place)
    requires JobOk(j, p)
    ensures j.status == Submitted || (j.fate != Pending && j.fate != Rejected && j.status == Verdict(j))
    ensures j.done ==> j.status != Submitted
    ensures j.pc == Returned && j.status == Submitted && j.fate != Rejected ==> !j.sctx
  {
  }

  /** Once the fate of a command is decided, no later step changes it. */
  lemma FateIsFinal(s: State, step: Step, id: nat)
    requires Inv(s) && Apply(s, step).Some? && id in s.jobs && s.jobs[id].fate != Pending
    ensures id in Apply(s, step).value.jobs && Apply(s, step).value.jobs[id].fate == s.jobs[id].fate
  {
    if step.ThreadMoves? {
      if Hand(s.thread) == [] {
        EmptyHandedShape(s);
      } else {
        HandKeepsFates(s, Hand(s.thread)[0], step.registered, step.ret);
      }
    } else if step.SubmitterMoves? {
      var j := s.jobs[step.id];
      assert JobOk(j, PlaceOf(s, step.id));
      AdvanceKeepsFate(j, PlaceOf(s, step.id), FilterPasses(s, j.req));
      SubmitterFields(s, step.id);
    }
  }

  lemma HandKeepsFates(s: State, c: nat, registered: bool, ret: Result)
    requires Inv(s) && Hand(s.thread) == [c] && c in s.jobs && HandNext(s, c, registered, ret).Some?
    ensures var s' := HandNext(s, c, registered, ret).value;
            && HandStep(s, s', c)
            && (s.jobs[c].fate != Pending ==> s'.jobs[c].fate == s.jobs[c].fate)
            && (s'.jobs[c].fate == Executed <==> s.jobs[c].fate == Executed || s.thread.Execute?)
            && s'.executed == if s.thread.Execute? then s.executed + [c] else s.executed
  {
    var j := s.jobs[c];
    var pass := FilterPasses(s, j.req);
    HandNextIsHandStep(s, c, registered, ret);
    assert PlaceOf(s, c) == InHand(s.thread) by { PlacesExclude(s); }
    HandleKeepsFate(j, s.thread, pass, ret);
    HandUpdateFields(s, c, Handle(j, s.thread, pass, ret), HandlePc(j, s.thread, pass, registered),
                     HandleFaults(j, s.thread));
  }

  lemma HandleKeepsFate(j: Job, t: ThreadPc, pass: bool, ret: Result)
    requires |Hand(t)| == 1 && JobOk(j, InHand(t))
    ensures j.fate != Pending ==> Handle(j, t, pass, ret).fate == j.fate
    ensures Handle(j, t, pass, ret).fate == Executed <==> j.fate == Executed || t.Execute?
  {
  }

  lemma AdvanceKeepsFate(j: Job, p: Place, pass: bool)
    requires JobOk(j, p)
    ensures j.fate != Pending ==> Advance(j, pass).fate == j.fate
    ensures Advance(j, pass).fate == Executed <==> j.fate == Executed
    ensures Advance(j, pass).res == j.res
  {
  }

  // ----- first in, first out -----

  /** The executed ones among `ids`, in the order of `ids`. */
  ghost function ExecutedOf(jobs: map<nat, Job>, ids: seq<nat>): (r: seq<nat>)
    requires forall i :: i in ids ==> i in jobs
  {
    if ids == [] then [] else
    var n := |ids| - 1;
    ExecutedOf(jobs, ids[..n]) + if jobs[ids[n]].fate == Executed then [ids[n]] else []
  }

  lemma {:induction false} ExecutedOfSame(jobs: map<nat, Job>, jobs': map<nat, Job>, ids: seq<nat>)
    requires forall i :: i in ids ==> i in jobs && i in jobs'
    requires forall i :: i in ids ==> (jobs'[i].fate == Executed <==> jobs[i].fate == Executed)
    ensures ExecutedOf(jobs', ids) == ExecutedOf(jobs, ids)
  {
    if ids != [] {
      ExecutedOfSame(jobs, jobs', ids[..|ids| - 1]);
    }
  }

  lemma {:induction false} ExecutedOfConcat(jobs: map<nat, Job>, a: seq<nat>, b: seq<nat>)
    requires forall i :: i in a + b ==> i in jobs
    ensures forall i :: (i in a || i in b) ==> i in jobs
    ensures ExecutedOf(jobs, a + b) == ExecutedOf(jobs, a) + ExecutedOf(jobs, b)
  {
    assert forall i :: i in a + b <==> i in a || i in b;
    if b == [] {
      assert a + b == a;
    } else {
      var n := |b| - 1;
      assert (a + b)[..|a + b| - 1] == a + b[..n];
      ExecutedOfConcat(jobs, a, b[..n]);
    }
  }

  lemma {:induction false} NoneExecuted(jobs: map<nat, Job>, ids: seq<nat>)
    requires forall i :: i in ids ==> i in jobs && jobs[i].fate != Executed
    ensures ExecutedOf(jobs, ids) == []
  {
    if ids != [] {
      NoneExecuted(jobs, ids[..|ids| - 1]);
    }
  }

  ghost predicate FifoOk(s: State) {
    (forall i :: i in s.enqueued ==> i in s.jobs) && s.executed == ExecutedOf(s.jobs, s.enqueued)
  }

  lemma UndecidedPlaces(s: State)
    requires Inv(s)
    ensures forall i :: i in s.queue ==> i in s.jobs && s.jobs[i].fate == Pending
    ensures s.thread.Execute? ==> s.thread.cmd in s.jobs && s.jobs[s.thread.cmd].fate == Pending
  {
    PlacesExclude(s);
    forall i | i in s.queue
      ensures i in s.jobs && s.jobs[i].fate == Pending
    {
      assert i in s.enqueued;
      assert JobOk(s.jobs[i], PlaceOf(s, i));
    }
    if s.thread.Execute? {
      assert s.thread.cmd in s.enqueued;
      assert JobOk(s.jobs[s.thread.cmd], PlaceOf(s, s.thread.cmd));
    }
  }

  /** Deciding that the command after `a` was executed appends it to the executed ones. */
  lemma ExecutedOfNext(jobs: map<nat, Job>, jobs': map<nat, Job>, a: seq<nat>, c: nat, b: seq<nat>)
    requires forall i :: i in a + [c] + b ==> i in jobs && i in jobs'
    requires c !in a && c !in b && jobs[c].fate != Executed && jobs'[c].fate == Executed
    requires forall i :: i in a || i in b ==> jobs'[i] == jobs[i]
    requires forall i :: i in b ==> jobs[i].fate != Executed
    ensures ExecutedOf(jobs', a + [c] + b) == ExecutedOf(jobs, a + [c] + b) + [c]
  {
    ExecutedOfConcat(jobs, a + [c], b);
    ExecutedOfConcat(jobs', a + [c], b);
    NoneExecuted(jobs, b);
    NoneExecuted(jobs', b);
    ExecutedOfConcat(jobs, a, [c]);
    ExecutedOfConcat(jobs', a, [c]);
    ExecutedOfSame(jobs, jobs', a);
  }

  lemma FifoFrame(s: State, s': State)
    requires FifoOk(s) && s'.enqueued == s.enqueued && s'.executed == s.executed
    requires forall i :: i in s.jobs ==> i in s'.jobs && (s'.jobs[i].fate == Executed <==> s.jobs[i].fate == Executed)
    ensures FifoOk(s')
  {
    ExecutedOfSame(s.jobs, s'.jobs, s.enqueued);
  }

  lemma HandKeepsFifo(s: State, c: nat, registered: bool, ret: Result)
    requires Inv(s) && FifoOk(s) && Hand(s.thread) == [c] && c in s.jobs
    requires HandNext(s, c, registered, ret).Some?
    ensures FifoOk(HandNext(s, c, registered, ret).value)
  {
    HandKeepsFates(s, c, registered, ret);
    HandStepKeepsFifo(s, HandNext(s, c, registered, ret).value, c);
  }

  lemma HandStepKeepsFifo(s: State, s': State, c: nat)
    requires Inv(s) && FifoOk(s) && Hand(s.thread) == [c] && c in s.jobs && HandStep(s, s', c)
    requires s'.jobs[c].fate == Executed <==> s.jobs[c].fate == Executed || s.thread.Execute?
    requires s'.executed == if s.thread.Execute? then s.executed + [c] else s.executed
    ensures FifoOk(s')
  {
    if s.thread.Execute? {
      PlacesExclude(s);
      UndecidedPlaces(s);
      ExecutedOfNext(s.jobs, s'.jobs, s.finished, c, s.queue);
    } else {
      FifoFrame(s, s');
    }
  }

  lemma SubmitterKeepsFifo(s: State, id: nat)
    requires Inv(s) && FifoOk(s) && SubmitterNext(s, id).Some?
    ensures FifoOk(SubmitterNext(s, id).value)
  {
    var j := s.jobs[id];
    assert JobOk(j, PlaceOf(s, id));
    AdvanceKeepsFate(j, PlaceOf(s, id), FilterPasses(s, j.req));
    SubmitterFields(s, id);
    SubmitterStepKeepsFifo(s, SubmitterNext(s, id).value, id);
  }

  lemma SubmitterStepKeepsFifo(s: State, s': State, id: nat)
    requires FifoOk(s) && id in s.jobs && id in s'.jobs && s'.jobs == s.jobs[id := s'.jobs[id]]
    requires s'.jobs[id].fate == Executed <==> s.jobs[id].fate == Executed
    requires s'.executed == s.executed
    requires s'.enqueued == s.enqueued || (s'.enqueued == s.enqueued + [id] && s'.jobs[id].fate != Executed)
    ensures FifoOk(s')
  {
    ExecutedOfSame(s.jobs, s'.jobs, s.enqueued);
    if s'.enqueued != s.enqueued {
      ExecutedOfConcat(s'.jobs, s.enqueued, [id]);
      NoneExecuted(s'.jobs, [id]);
    }
  }

  lemma StepKeepsFifo(s: State, step: Step)
    requires Inv(s) && FifoOk(s) && Apply(s, step).Some?
    ensures FifoOk(Apply(s, step).value)
  {
    if step.SubmitterMoves? {
      SubmitterKeepsFifo(s, step.id);
    } else if step.ThreadMoves? {
      if Hand(s.thread) == [] {
        EmptyHandedShape(s);
        FifoFrame(s, EmptyHandedNext(s).value);
      } else {
        HandKeepsFifo(s, Hand(s.thread)[0], step.registered, step.ret);
      }
    } else {
      FifoFrame(s, Apply(s, step).value);
    }
  }

  lemma {:induction false} RunKeepsFifo(steps: seq<Step>)
    requires Run(steps).Some?
    ensures FifoOk(Run(steps).value)
  {
    if steps != [] {
      var n := |steps| - 1;
      RunKeepsFifo(steps[..n]);
      RunKeepsInv(steps[..n]);
      StepKeepsFifo(Run(steps[..n]).value, steps[n]);
    }
  }

  /** Put-back or not, commands leave the queue in the order they entered it: the released
      ones, the one in hand and the queued ones spell out the enqueue order, and the executed
      commands are exactly that order restricted to the commands whose fate was execution. */
  lemma CommandsExecuteInOrder(steps: seq<Step>)
    requires Run(steps).Some?
    ensures var s := Run(steps).value;
            && s.finished + Hand(s.thread) + s.queue == s.enqueued
            && Distinct(s.enqueued)
            && (forall i :: i in s.enqueued ==> i in s.jobs)
            && s.executed == ExecutedOf(s.jobs, s.enqueued)
  {
    RunKeepsInv(steps);
    RunKeepsFifo(steps);
  }

  // ----- no lost wake-up -----

  ghost predicate Idle(t: ThreadPc) {
    t.Start? || t.Down? || t.Stopped?
  }

  /** Something will make the thread look at the queue. */
  ghost predicate Awaited(s: State) {
    || s.queue == []
    || s.sema > 0
    || (exists i :: i in s.jobs && s.jobs[i].pc == Up)
    || (s.queue[0] in s.jobs && s.jobs[s.queue[0]].res == EnqHead)
  }

  ghost predicate WakeOk(s: State) {
    Idle(s.thread) ==> Awaited(s)
  }

  lemma SubmitterSema(s: State, id: nat)
    requires SubmitterNext(s, id).Some?
    ensures SubmitterNext(s, id).value.sema == s.sema + if s.jobs[id].pc == Up then 1 else 0
  {
  }

  lemma SubmitterKeepsWake(s: State, id: nat)
    requires Inv(s) && WakeOk(s) && SubmitterNext(s, id).Some?
    ensures WakeOk(SubmitterNext(s, id).value)
  {
    hide Ordered, MutexOk, FaultsOk, JobOk, SubmitterNext;
    var s' := SubmitterNext(s, id).value;
    SubmitterFields(s, id);
    SubmitterSema(s, id);
    assert JobOk(s.jobs[id], PlaceOf(s, id));
    AdvanceKeepsFate(s.jobs[id], PlaceOf(s, id), FilterPasses(s, s.jobs[id].req));
    if s.jobs[id].pc == Link {
      assert s'.jobs[id].pc == Up;
    } else if Idle(s.thread) && s.jobs[id].pc != Up && exists i :: i in s.jobs && s.jobs[i].pc == Up {
      var i :| i in s.jobs && s.jobs[i].pc == Up;
      assert s'.jobs[i].pc == Up;
    }
  }

  lemma ThreadKeepsWake(s: State, registered: bool, ret: Result)
    requires Inv(s) && WakeOk(s) && ThreadNext(s, registered, ret).Some?
    ensures WakeOk(ThreadNext(s, registered, ret).value)
  {
    hide JobsOk, MutexOk, FaultsOk, EmptyHandedNext, HandNext;
    if Hand(s.thread) == [] {
      EmptyHandedKeepsWake(s);
    } else {
      HandKeepsWake(s, Hand(s.thread)[0], registered, ret);
    }
  }

  lemma EmptyHandedKeepsWake(s: State)
    requires WakeOk(s) && Hand(s.thread) == [] && EmptyHandedNext(s).Some?
    ensures WakeOk(EmptyHandedNext(s).value)
  {
    hide Awaited;
    AwaitedSame(s, EmptyHandedNext(s).value);
  }

  lemma AwaitedSame(s: State, s': State)
    ensures s'.queue == [] ==> Awaited(s')
    ensures s'.jobs == s.jobs && s'.queue == s.queue && s'.sema == s.sema && Awaited(s) ==> Awaited(s')
  {
  }

  lemma HandKeepsWake(s: State, c: nat, registered: bool, ret: Result)
    requires Hand(s.thread) == [c] && c in s.jobs && HandNext(s, c, registered, ret).Some?
    ensures WakeOk(HandNext(s, c, registered, ret).value)
  {
    var s' := HandNext(s, c, registered, ret).value;
    HandNextIsHandStep(s, c, registered, ret);
    if s.thread.PutBack? {
      assert s'.queue[0] == c && s'.jobs[c].res == EnqHead;
    }
  }

  lemma StepKeepsWake(s: State, step: Step)
    requires Inv(s) && WakeOk(s) && Apply(s, step).Some?
    ensures WakeOk(Apply(s, step).value)
  {
    match step
    case SubmitterMoves(id) => SubmitterKeepsWake(s, id);
    case ThreadMoves(registered, ret) => ThreadKeepsWake(s, registered, ret);
    case _ =>
      var s' := Apply(s, step).value;
      forall i | i in s.jobs && s.jobs[i].pc == Up
        ensures i in s'.jobs && s'.jobs[i].pc == Up
      {
      }
  }

  /** While the thread waits and commands are queued, the semaphore is positive, some producer
      is about to raise it, or the head of the queue is a command the thread put back. */
  lemma {:induction false} NoLostWakeUp(steps: seq<Step>)
    requires Run(steps).Some?
    ensures WakeOk(Run(steps).value)
  {
    if steps != [] {
      var n := |steps| - 1;
      NoLostWakeUp(steps[..n]);
      RunKeepsInv(steps[..n]);
      StepKeepsWake(Run(steps[..n]).value, steps[n]);
    }
  }
}