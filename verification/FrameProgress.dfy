/** Every call of the producer returns: where it waits for a lock or for a phase, the worker gets there. */
module FrameProgress {
  import opened FrameWorker

  // ---------- the producer's way through a call ----------

  function BeginLeft(at: BeginAt): nat {
    match at case BeginEnsure => 7 case BeginCheck => 6 case BeginJoin => 2 case BeginRead => 1
  }

  function SyncLeft(at: SyncAt): nat {
    match at case SyncStart => 3 case SyncHolding => 2 case SyncStore => 1
  }

  function EndLeft(at: EndAt): nat {
    match at
    case EndEnsure => 7
    case EndJoin => 6
    case EndDrainStart => 5
    case EndDraining => 4
    case EndClear => 3
    case EndClearReady => 2
    case EndNotify => 1
  }

  function DrainLeft(at: DrainAt): nat {
    match at case DrainJoin => 3 case DrainStart => 2 case DrainHolding => 1
  }

  function StopLeft(at: StopAt): nat {
    match at case StopSet => 4 case StopNotify => 3 case StopJoin => 2 case StopFinish => 1
  }

  /** A bound on the producer's steps to the end of its call. */
  function CallLeft(p: ProducerAt): nat {
    match p
    case Outside => 0
    case Beginning(at) => BeginLeft(at)
    case SyncPreparing(at) => SyncLeft(at)
    case Ending(at) => EndLeft(at)
    case JoiningDone => 1
    case Draining(at) => DrainLeft(at)
    case Stopping(at) => StopLeft(at)
  }

  lemma {:induction false} BeginGoesOn(s: State, at: BeginAt, choice: bool)
    requires BeginNext(s, at, choice).Enabled?
    ensures CallLeft(BeginNext(s, at, choice).value.producer) < BeginLeft(at)
  {
    match at
    case BeginEnsure => if s.started {} else {}
    case BeginCheck => if !s.ready {} else if s.framePrepared {} else {}
    case BeginJoin =>
    case BeginRead =>
  }

  lemma {:induction false} SyncGoesOn(s: State, at: SyncAt, choice: bool)
    requires SyncNext(s, at, choice).Enabled?
    ensures CallLeft(SyncNext(s, at, choice).value.producer) < SyncLeft(at)
  {
    match at
    case SyncStart =>
    case SyncHolding =>
    case SyncStore =>
  }

  lemma {:induction false} EndGoesOn(s: State, at: EndAt)
    requires EndNext(s, at).Enabled?
    ensures CallLeft(EndNext(s, at).value.producer) < EndLeft(at)
  {
    match at
    case EndEnsure => if s.started {} else {}
    case _ =>
  }

  lemma {:induction false} DrainGoesOn(s: State, at: DrainAt)
    requires DrainNext(s, at).Enabled?
    ensures CallLeft(DrainNext(s, at).value.producer) < DrainLeft(at)
  {
    match at
    case DrainJoin =>
    case DrainStart =>
    case DrainHolding =>
  }

  lemma {:induction false} StopGoesOn(s: State, at: StopAt)
    requires StopNext(s, at).Enabled?
    ensures CallLeft(StopNext(s, at).value.producer) < StopLeft(at)
  {
    match at
    case StopSet => StopSetGoesOn(s);
    case StopNotify =>
    case StopJoin =>
    case StopFinish =>
  }

  lemma {:induction false} StopSetGoesOn(s: State)
    requires StopNext(s, StopSet).Enabled?
    ensures CallLeft(StopNext(s, StopSet).value.producer) < 4
  {
    if s.started {} else {}
  }

  lemma {:induction false} ProducerGoesOn(s: State, choice: bool)
    requires ProducerNext(s, choice).Enabled?
    ensures CallLeft(ProducerNext(s, choice).value.producer) < CallLeft(s.producer)
  {
    match s.producer
    case Beginning(at) => BeginGoesOn(s, at, choice);
    case SyncPreparing(at) => SyncGoesOn(s, at, choice);
    case Ending(at) => EndGoesOn(s, at);
    case JoiningDone =>
    case Draining(at) => DrainGoesOn(s, at);
    case Stopping(at) => StopGoesOn(s, at);
  }

  // ---------- what it can be waiting for ----------

  predicate WaitsForExit(s: State) {
    s.producer == Stopping(StopJoin) && s.worker != Leaving(Exited)
  }

  predicate WaitsForLock(s: State) {
    s.mutex == Worker || s.gpu == Worker
  }

  /** Inside a call the producer is stopped only by a lock of the worker, a phase, or the worker's exit. */
  lemma {:induction false} WhyItWaits(s: State, choice: bool)
    requires Inv(s) && s.producer != Outside && ProducerNext(s, choice).Disabled?
    ensures WaitsForLock(s) || Blocked(s) || WaitsForExit(s)
  {
    match s.producer
    case Beginning(at) => BeginWaits(s, at, choice);
    case SyncPreparing(at) =>
    case Ending(at) =>
    case JoiningDone =>
    case Draining(at) =>
    case Stopping(at) => StopWaits(s, at);
  }

  lemma {:induction false} BeginWaits(s: State, at: BeginAt, choice: bool)
    requires Inv(s) && s.producer == Beginning(at) && BeginNext(s, at, choice).Disabled?
    ensures WaitsForLock(s) || Blocked(s)
  {
    match at
    case BeginEnsure => if s.started {} else {}
    case BeginCheck => if !s.ready {} else if s.framePrepared {} else {}
    case BeginJoin =>
    case BeginRead =>
  }

  lemma {:induction false} StopWaits(s: State, at: StopAt)
    requires Inv(s) && s.producer == Stopping(at) && StopNext(s, at).Disabled?
    ensures WaitsForLock(s) || WaitsForExit(s)
  {
    match at
    case StopSet => if s.started {} else {}
    case StopNotify =>
    case StopJoin =>
    case StopFinish =>
  }

  // ---------- the worker's way there ----------

  /** A bound on the worker's steps to the end of its cycle, one still to be taken included. */
  function WorkLeft(s: State): nat {
    (if s.jobPending then 17 else 0) + Rank(s.worker)
  }

  predicate Nearer(s: State, t: State) {
    t.producer == s.producer && WorkLeft(t) < WorkLeft(s)
  }

  lemma {:induction false} HolderGoesOn(s: State, choice: bool)
    requires Inv(s) && WaitsForLock(s)
    ensures WorkerNext(s, choice).Enabled? && Nearer(s, WorkerNext(s, choice).value)
  {
    match s.worker
    case Sealing(at) => HolderSeals(s, choice);
    case Preparing(at) => HolderPrepares(s, at, choice);
    case Presenting(at) =>
    case Leaving(at) =>
  }

  lemma {:induction false} HolderSeals(s: State, choice: bool)
    requires Inv(s) && s.worker == Sealing(SealHolding)
    ensures WorkerNext(s, choice).Enabled? && Nearer(s, WorkerNext(s, choice).value)
  {
    if s.overlap {} else {}
  }

  lemma {:induction false} HolderPrepares(s: State, at: PrepareAt, choice: bool)
    requires Inv(s) && s.worker == Preparing(at) && (at == PrepareHolding || at == PublishSealed)
    ensures WorkerNext(s, choice).Enabled? && Nearer(s, WorkerNext(s, choice).value)
  {
    if at == PrepareHolding {} else if s.overlap {} else {}
  }

  /** The worker goes to sleep, or goes on sleeping, where it is. */
  predicate Stays(s: State, t: State) {
    t.worker == s.worker && t.jobPending == s.jobPending && t.ready == s.ready
  }

  /** A step of the worker brings it nearer to rest, unless it stays where it is. */
  lemma {:induction false} StepIsNearer(s: State, choice: bool)
    requires WorkerNext(s, choice).Enabled?
    ensures var t := WorkerNext(s, choice).value; Nearer(s, t) || Stays(s, t)
  {
    match s.worker
    case JobWait => JobIsNearer(s);
    case Sealing(at) => SealIsNearer(s, at, choice);
    case Preparing(at) => PrepareIsNearer(s, at, choice);
    case Presenting(at) => PresentIsNearer(s, at, choice);
    case Telemetry =>
    case Leaving(at) => LeaveIsNearer(s, at);
  }

  lemma {:induction false} JobIsNearer(s: State)
    requires s.worker == JobWait && JobNext(s).Enabled?
    ensures var t := JobNext(s).value; Nearer(s, t) || Stays(s, t)
  {
    if s.stop {} else if s.jobPending {} else {}
  }

  lemma {:induction false} SealIsNearer(s: State, at: SealAt, choice: bool)
    requires s.worker == Sealing(at) && SealNext(s, at, choice).Enabled?
    ensures var t := SealNext(s, at, choice).value; Nearer(s, t) || Stays(s, t)
  {
    match at
    case SealStart =>
    case SealHolding => HoldingIsNearer(s, choice);
    case EarlyPresent =>
    case PrepareWait => WaitIsNearer(s, choice);
  }

  lemma {:induction false} HoldingIsNearer(s: State, choice: bool)
    requires s.worker == Sealing(SealHolding)
    ensures Nearer(s, SealNext(s, SealHolding, choice).value)
  {
    if s.overlap {} else {}
  }

  lemma {:induction false} WaitIsNearer(s: State, choice: bool)
    requires s.worker == Sealing(PrepareWait) && SealNext(s, PrepareWait, choice).Enabled?
    ensures var t := SealNext(s, PrepareWait, choice).value; Nearer(s, t) || Stays(s, t)
  {
    if s.stop {} else if s.prepareAllowed {} else {}
  }

  lemma {:induction false} PrepareIsNearer(s: State, at: PrepareAt, choice: bool)
    requires s.worker == Preparing(at) && PrepareNext(s, at, choice).Enabled?
    ensures Nearer(s, PrepareNext(s, at, choice).value)
  {
    match at
    case PrepareStart =>
    case PrepareHolding =>
    case PublishStart =>
    case PublishSealed => if s.overlap {} else {}
  }

  lemma {:induction false} PresentIsNearer(s: State, at: PresentAt, choice: bool)
    requires s.worker == Presenting(at) && PresentNext(s, at, choice).Enabled?
    ensures Nearer(s, PresentNext(s, at, choice).value)
  {
    match at
    case Encoding =>
    case Publishing =>
    case NewFrameStart =>
    case NewFrameHolding =>
    case ReadyStore =>
  }

  lemma {:induction false} LeaveIsNearer(s: State, at: LeaveAt)
    requires s.worker == Leaving(at) && LeaveNext(s, at).Enabled?
    ensures Nearer(s, LeaveNext(s, at).value)
  {
    if at == ReleaseStart {} else {}
  }

  lemma {:induction false} JoinIsBegun(s: State)
    requires Inv(s) && JoinsOnlyBegun(s) && Blocked(s)
    ensures s.begun
  {
  }

  lemma {:induction false} JoinedGoesOn(s: State, choice: bool)
    requires Inv(s) && JoinsOnlyBegun(s) && Blocked(s)
    ensures WorkerNext(s, choice).Enabled? && Nearer(s, WorkerNext(s, choice).value)
  {
    JoinIsBegun(s);
    EveryWorkerStepCounts(s, choice);
    StepIsNearer(s, choice);
  }

  lemma {:induction false} LeaverGoesOn(s: State, choice: bool)
    requires Inv(s) && WaitsForExit(s)
    ensures WorkerNext(s, choice).Enabled? && Nearer(s, WorkerNext(s, choice).value)
  {
    assert StopRequested(s) && !s.worker.NotRunning?;
    StopAdvances(s, choice);
    StepIsNearer(s, choice);
  }

  // ---------- every call returns ----------

  /** The producer steps where it can, and the worker where the producer waits, whatever the choices. */
  function Drive(s: State, choices: seq<bool>): Next
    decreases |choices|
  {
    if s.producer == Outside || choices == [] then Enabled(s)
    else match ProducerNext(s, choices[0])
         case Enabled(t) => Drive(t, choices[1..])
         case Disabled =>
           match WorkerNext(s, choices[0])
           case Disabled => Disabled
           case Enabled(t) => Drive(t, choices[1..])
  }

  /** What is left of a call, in steps of both threads. */
  function Effort(s: State): nat { 40 * CallLeft(s.producer) + WorkLeft(s) }

  lemma {:induction false} WorkIsBounded(s: State)
    requires Inv(s)
    ensures WorkLeft(s) <= 21
  {
  }

  lemma {:induction false} ProducerIsNearer(s: State, choice: bool)
    requires Inv(s) && ProducerNext(s, choice).Enabled?
    ensures Effort(ProducerNext(s, choice).value) < Effort(s)
  {
    ProducerKeepsInv(s, choice);
    ProducerGoesOn(s, choice);
    WorkIsBounded(ProducerNext(s, choice).value);
  }

  lemma {:induction false} WorkerHelps(s: State, choice: bool)
    requires Inv(s) && JoinsOnlyBegun(s) && s.producer != Outside && ProducerNext(s, choice).Disabled?
    ensures WorkerNext(s, choice).Enabled? && Effort(WorkerNext(s, choice).value) < Effort(s)
  {
    WhyItWaits(s, choice);
    if WaitsForLock(s) {
      HolderGoesOn(s, choice);
    } else if Blocked(s) {
      JoinedGoesOn(s, choice);
    } else {
      LeaverGoesOn(s, choice);
    }
  }

  lemma {:induction false} DriveReturns(s: State, choices: seq<bool>)
    requires Inv(s) && JoinsOnlyBegun(s) && Effort(s) <= |choices|
    ensures Drive(s, choices).Enabled? && Drive(s, choices).value.producer == Outside
    decreases |choices|
  {
    if s.producer == Outside {
    } else {
      assert 0 < Effort(s) by { StillInCall(s.producer); }
      if ProducerNext(s, choices[0]).Enabled? {
        ProducerIsNearer(s, choices[0]);
        ProducerKeepsInv(s, choices[0]);
        ProducerKeepsRule(s, choices[0]);
        DriveReturns(ProducerNext(s, choices[0]).value, choices[1..]);
      } else {
        WorkerHelps(s, choices[0]);
        WorkerKeepsInv(s, choices[0]);
        WorkerKeepsRule(s, choices[0]);
        DriveReturns(WorkerNext(s, choices[0]).value, choices[1..]);
      }
    }
  }

  lemma {:induction false} StillInCall(p: ProducerAt)
    requires p != Outside
    ensures 0 < CallLeft(p)
  {
  }

  /** After any run that keeps the usage rule, the call under way returns within 301 steps of both threads. */
  lemma {:induction false} CallReturns(actions: seq<Action>, choices: seq<bool>)
    requires RunObeysRule(INITIAL, actions) && Run(INITIAL, actions).Enabled? && |choices| == 301
    ensures var next := Drive(Run(INITIAL, actions).value, choices);
      next.Enabled? && next.value.producer == Outside
  {
    var s := Run(INITIAL, actions).value;
    RuleKept(INITIAL, actions);
    WorkIsBounded(s);
    DriveReturns(s, choices);
  }
}
