/**
  The frame worker and its producer (aurora.cpp) as one transition system. Every action is one step
  of one thread: a critical section of FrameWorkerState::mutex, one atomic flag, taking or dropping
  the renderer GPU mutex, or a notification. Any interleaving of the two threads is an action list.
 */
module FrameWorker {

  datatype Thread = Nobody | Producer | Worker

  // Where the worker thread is in frame_worker_main and run_frame_worker_cycle.
  datatype SealAt =
    | SealStart        // about to take the GPU mutex
    | SealHolding      // holds it: seals, and encodes too when not overlapped
    | EarlyPresent     // publish_presentations of a cycle that is not overlapped
    | PrepareWait      // waiting for stop or prepareAllowed

  datatype PrepareAt =
    | PrepareStart
    | PrepareHolding   // begin_frame_impl, under the GPU mutex
    | PublishStart
    | PublishSealed    // holds the mutex: sealed is stored, ready is next

  datatype PresentAt =
    | Encoding         // overlapped: encodes without the GPU mutex
    | Publishing       // publish_presentations of an overlapped cycle
    | NewFrameStart    // owes ImGui its next frame: about to take the GPU mutex
    | NewFrameHolding  // imgui::new_frame, under the GPU mutex
    | ReadyStore

  datatype LeaveAt =
    | ReleaseStart
    | ReleaseSealed    // holds the mutex: sealed is stored, ready is next
    | Exited

  datatype WorkerAt =
    | NotRunning
    | JobWait          // waiting for stop or jobPending
    | Sealing(seal: SealAt)
    | Preparing(prepare: PrepareAt)
    | Presenting(present: PresentAt)
    | Telemetry        // after DONE, on the way back to JobWait
    | Leaving(leave: LeaveAt)

  // Where the producer thread is in begin_frame, end_frame, the joins and stop_frame_worker.
  datatype BeginAt = BeginEnsure | BeginCheck | BeginJoin | BeginRead
  datatype SyncAt = SyncStart | SyncHolding | SyncStore
  datatype EndAt = EndEnsure | EndJoin | EndDrainStart | EndDraining | EndClear | EndClearReady | EndNotify
  datatype DrainAt = DrainJoin | DrainStart | DrainHolding
  datatype StopAt = StopSet | StopNotify | StopJoin | StopFinish

  datatype ProducerAt =
    | Outside          // between calls
    | Beginning(begin: BeginAt)
    | SyncPreparing(sync: SyncAt)
    | Ending(end: EndAt)
    | JoiningDone
    | Draining(drain: DrainAt)
    | Stopping(halt: StopAt)

  /** What the threads leave behind, by the number of the frame it belongs to: the frame whose commands were
      drained, the one sealed, the one encoded and not yet handed over, all that were handed over to be
      presented, the last whose preparation began an ImGui frame, and whether one is still owed. */
  datatype Film = Film(drained: nat, frame: nat, encoded: nat, presented: seq<nat>, imgui: nat, owed: bool)

  /** What the last preparation on the producer gave, and what the last begin_frame returned. */
  datatype Answers = Answers(made: bool, returned: bool)

  /** What framePrepared last recorded. */
  datatype Source = Cleared | FromCycle(cycle: nat) | FromProducer

  datatype State = State(
    started: bool, stop: bool, jobPending: bool, ready: bool, isSealed: bool,
    framePrepared: bool, prepareAllowed: bool,
    mutex: Thread, gpu: Thread,
    worker: WorkerAt, asleep: bool, overlap: bool, prepared: bool, preparedFor: nat,
    producer: ProducerAt, begun: bool,
    cycle: nat, source: Source, film: Film, answers: Answers)

  const INITIAL := State(
    false, false, false, true, true, false, false, Nobody, Nobody,
    NotRunning, false, false, false, 0, Outside, false, 0, Cleared,
    Film(0, 0, 0, [], 0, false), Answers(false, false))

  /** The state after a step, when the step is possible. */
  datatype Next = Disabled | Enabled(value: State)

  /** One step; `choice` settles what the code cannot know: interpolation, preparation, the surface. */
  datatype Action =
    | WorkerStep(choice: bool)
    | ProducerStep(choice: bool)
    | CallBegin | CallEnd | CallJoinDone | CallDrain | CallStop

  // ---------- the worker ----------

  /** publish_presentations: what was encoded goes to the presenter. */
  function HandedOver(film: Film): Film {
    film.(presented := film.presented + [film.encoded], encoded := 0)
  }

  function SealNext(s: State, at: SealAt, choice: bool): Next {
    match at
    case SealStart =>
      if s.gpu != Nobody then Disabled
      else Enabled(s.(worker := Sealing(SealHolding), gpu := Worker, overlap := choice))
    case SealHolding =>
      if s.overlap then
        Enabled(s.(worker := Sealing(PrepareWait), gpu := Nobody, film := s.film.(frame := s.cycle, encoded := 0)))
      else
        Enabled(s.(worker := Sealing(EarlyPresent), gpu := Nobody,
                   film := s.film.(frame := s.cycle, encoded := s.cycle)))
    case EarlyPresent => Enabled(s.(worker := Sealing(PrepareWait), film := HandedOver(s.film)))
    case PrepareWait =>
      if s.mutex != Nobody then Disabled
      else if s.stop then Enabled(s.(worker := Leaving(ReleaseStart)))
      else if s.prepareAllowed then Enabled(s.(worker := Preparing(PrepareStart), prepareAllowed := false))
      else Enabled(s.(asleep := true))
  }

  function PrepareNext(s: State, at: PrepareAt, choice: bool): Next {
    match at
    case PrepareStart =>
      if s.gpu != Nobody then Disabled
      else Enabled(s.(worker := Preparing(PrepareHolding), gpu := Worker))
    case PrepareHolding =>
      // A prepared frame begins its ImGui frame at once, or owes it when the encode is still to come.
      Enabled(s.(worker := Preparing(PublishStart), gpu := Nobody, prepared := choice, preparedFor := s.cycle,
                 film := s.film.(owed := choice && s.overlap,
                                 imgui := if choice && !s.overlap then s.cycle else s.film.imgui)))
    case PublishStart =>
      if s.mutex != Nobody then Disabled
      else Enabled(s.(worker := Preparing(PublishSealed), mutex := Worker, framePrepared := s.prepared,
                      source := FromCycle(s.preparedFor), isSealed := true))
    case PublishSealed =>
      if s.overlap then Enabled(s.(worker := Presenting(Encoding), mutex := Nobody))
      else Enabled(s.(worker := Telemetry, mutex := Nobody, ready := true))
  }

  /** A frame whose preparation failed may owe ImGui its next frame, too. */
  function PresentNext(s: State, at: PresentAt, choice: bool): Next {
    match at
    case Encoding =>
      Enabled(s.(worker := Presenting(Publishing), film := s.film.(encoded := s.film.frame)))
    case Publishing =>
      Enabled(s.(worker := Presenting(if s.film.owed || choice then NewFrameStart else ReadyStore),
                 film := HandedOver(s.film)))
    case NewFrameStart =>
      if s.gpu != Nobody then Disabled
      else Enabled(s.(worker := Presenting(NewFrameHolding), gpu := Worker))
    case NewFrameHolding =>
      Enabled(s.(worker := Presenting(ReadyStore), gpu := Nobody,
                 film := s.film.(imgui := s.cycle, owed := false)))
    case ReadyStore => if s.mutex != Nobody then Disabled else Enabled(s.(worker := Telemetry, ready := true))
  }

  function LeaveNext(s: State, at: LeaveAt): Next {
    match at
    case ReleaseStart =>
      if s.mutex != Nobody then Disabled
      else Enabled(s.(worker := Leaving(ReleaseSealed), mutex := Worker, isSealed := true))
    case ReleaseSealed => Enabled(s.(worker := Leaving(Exited), mutex := Nobody, ready := true))
    case Exited => Disabled
  }

  function JobNext(s: State): Next {
    if s.mutex != Nobody then Disabled
    else if s.stop then Enabled(s.(worker := Leaving(ReleaseStart)))
    else if s.jobPending then Enabled(s.(worker := Sealing(SealStart), jobPending := false))
    else Enabled(s.(asleep := true))
  }

  function WorkerNext(s: State, choice: bool): Next {
    if s.asleep then Disabled else
    match s.worker
    case NotRunning => Disabled
    case JobWait => JobNext(s)
    case Sealing(at) => SealNext(s, at, choice)
    case Preparing(at) => PrepareNext(s, at, choice)
    case Presenting(at) => PresentNext(s, at, choice)
    case Telemetry => Enabled(s.(worker := JobWait))
    case Leaving(at) => LeaveNext(s, at)
  }

  // ---------- the producer ----------

  /** ensure_frame_worker_started. */
  function Started(s: State): State {
    if s.started then s
    else s.(started := true, stop := false, jobPending := false, isSealed := true, ready := true,
            prepareAllowed := false, worker := JobWait, asleep := false)
  }

  function BeginNext(s: State, at: BeginAt, choice: bool): Next {
    match at
    case BeginEnsure => if s.mutex != Nobody then Disabled else Enabled(Started(s).(producer := Beginning(BeginCheck)))
    case BeginCheck =>
      if s.mutex != Nobody then Disabled
      else if !s.ready then
        // prepareAllowed is raised and the worker notified; a changing surface joins the real result
        if choice then Enabled(s.(prepareAllowed := true, asleep := false, begun := true,
                                  producer := Beginning(BeginJoin)))
        else Enabled(s.(prepareAllowed := true, asleep := false, begun := true, producer := Outside,
                        answers := s.answers.(returned := true)))
      else if s.framePrepared then
        Enabled(s.(begun := true, producer := Outside, answers := s.answers.(returned := true)))
      else Enabled(s.(begun := true, producer := SyncPreparing(SyncStart)))
    case BeginJoin => if s.ready then Enabled(s.(producer := Beginning(BeginRead))) else Disabled
    case BeginRead =>
      if s.mutex != Nobody then Disabled
      else Enabled(s.(producer := Outside, answers := s.answers.(returned := s.framePrepared)))
  }

  function SyncNext(s: State, at: SyncAt, choice: bool): Next {
    match at
    case SyncStart =>
      if s.gpu != Nobody then Disabled else Enabled(s.(producer := SyncPreparing(SyncHolding), gpu := Producer))
    case SyncHolding =>
      Enabled(s.(producer := SyncPreparing(SyncStore), gpu := Nobody, answers := s.answers.(made := choice)))
    case SyncStore =>
      if s.mutex != Nobody then Disabled
      else Enabled(s.(producer := Outside, framePrepared := s.answers.made, source := FromProducer,
                      answers := s.answers.(returned := s.answers.made)))
  }

  function EndNext(s: State, at: EndAt): Next {
    match at
    case EndEnsure => if s.mutex != Nobody then Disabled else Enabled(Started(s).(producer := Ending(EndJoin)))
    case EndJoin => if s.ready then Enabled(s.(producer := Ending(EndDrainStart))) else Disabled
    case EndDrainStart =>
      if s.gpu != Nobody then Disabled else Enabled(s.(producer := Ending(EndDraining), gpu := Producer))
    case EndDraining =>
      Enabled(s.(producer := Ending(EndClear), gpu := Nobody, film := s.film.(drained := s.cycle + 1)))
    case EndClear =>
      if s.mutex != Nobody then Disabled
      else Enabled(s.(producer := Ending(EndClearReady), mutex := Producer, framePrepared := false,
                      source := Cleared, isSealed := false))
    case EndClearReady =>
      Enabled(s.(producer := Ending(EndNotify), mutex := Nobody, ready := false, jobPending := true,
                 prepareAllowed := false, begun := false, cycle := s.cycle + 1))
    case EndNotify => Enabled(s.(producer := Outside, asleep := false))
  }

  function DrainNext(s: State, at: DrainAt): Next {
    match at
    case DrainJoin => if s.isSealed || !s.started then Enabled(s.(producer := Draining(DrainStart))) else Disabled
    case DrainStart =>
      if s.gpu != Nobody then Disabled else Enabled(s.(producer := Draining(DrainHolding), gpu := Producer))
    case DrainHolding => Enabled(s.(producer := Outside, gpu := Nobody))
  }

  function StopNext(s: State, at: StopAt): Next {
    match at
    case StopSet =>
      if s.mutex != Nobody then Disabled
      else if s.started then Enabled(s.(producer := Stopping(StopNotify), stop := true, prepareAllowed := true))
      else Enabled(s.(producer := Outside))
    case StopNotify => Enabled(s.(producer := Stopping(StopJoin), asleep := false))
    case StopJoin => if s.worker == Leaving(Exited) then Enabled(s.(producer := Stopping(StopFinish))) else Disabled
    case StopFinish =>
      if s.mutex != Nobody then Disabled
      else Enabled(s.(producer := Outside, started := false, framePrepared := false, source := Cleared,
                      worker := NotRunning, begun := false))
  }

  function ProducerNext(s: State, choice: bool): Next {
    match s.producer
    case Outside => Disabled
    case Beginning(at) => BeginNext(s, at, choice)
    case SyncPreparing(at) => SyncNext(s, at, choice)
    case Ending(at) => EndNext(s, at)
    case JoiningDone => if s.ready || !s.started then Enabled(s.(producer := Outside)) else Disabled
    case Draining(at) => DrainNext(s, at)
    case Stopping(at) => StopNext(s, at)
  }

  function Call(s: State, entry: ProducerAt): Next {
    if s.producer == Outside then Enabled(s.(producer := entry)) else Disabled
  }

  function Step(s: State, a: Action): Next {
    match a
    case WorkerStep(choice) => WorkerNext(s, choice)
    case ProducerStep(choice) => ProducerNext(s, choice)
    case CallBegin => Call(s, Beginning(BeginEnsure))
    case CallEnd => Call(s, Ending(EndEnsure))
    case CallJoinDone => Call(s, JoiningDone)
    case CallDrain => Call(s, Draining(DrainJoin))
    case CallStop => Call(s, Stopping(StopSet))
  }

  /** The state after a list of actions, if each of them was possible in turn. */
  function Run(s: State, actions: seq<Action>): Next
    decreases |actions|
  {
    if actions == [] then Enabled(s)
    else match Step(s, actions[0])
         case Disabled => Disabled
         case Enabled(t) => Run(t, actions[1..])
  }

  // ---------- the invariant ----------

  predicate Locks(s: State) {
    && (s.mutex == Worker <==> s.worker == Preparing(PublishSealed) || s.worker == Leaving(ReleaseSealed))
    && (s.mutex == Producer <==> s.producer == Ending(EndClearReady))
    && (s.gpu == Worker <==> s.worker == Sealing(SealHolding) || s.worker == Preparing(PrepareHolding)
                             || s.worker == Presenting(NewFrameHolding))
    && (s.gpu == Producer <==> s.producer == SyncPreparing(SyncHolding) || s.producer == Ending(EndDraining)
                               || s.producer == Draining(DrainHolding))
  }

  predicate Running(s: State) {
    s.started && !s.stop
  }

  /** A frame is sealed or to be sealed and its successor is not prepared yet. */
  predicate Unsealed(s: State) {
    s.started && !s.ready && !s.isSealed && s.source.Cleared?
  }

  /** Permission to prepare stands exactly from begin_frame on, until the worker has used it. */
  predicate Permission(s: State) {
    s.stop || (s.prepareAllowed <==> s.begun)
  }

  /** Between two cycles: DONE is up, or a posted frame waits to be taken. */
  predicate BetweenCycles(s: State) {
    if s.jobPending then Unsealed(s) && Permission(s)
    else s.started && s.ready && (s.isSealed <==> s.producer != Ending(EndClearReady))
  }

  /** What the shared flags are while the worker is where it is. */
  predicate WorkerFacts(s: State) {
    match s.worker
    case NotRunning => !s.started && s.ready && s.isSealed && !s.asleep
    case JobWait =>
      && BetweenCycles(s)
      && (s.asleep && s.jobPending ==> s.producer == Ending(EndNotify) || s.producer == Stopping(StopNotify))
      && (s.asleep && s.stop ==> s.producer == Stopping(StopNotify))
    case Sealing(at) =>
      && Unsealed(s) && !s.jobPending && Permission(s)
      && (s.asleep ==> at == PrepareWait && (s.prepareAllowed || s.stop ==> s.producer == Stopping(StopNotify)))
    case Preparing(at) =>
      && s.started && !s.ready && !s.jobPending && s.begun && !s.asleep
      && (if at == PublishSealed then s.isSealed && s.source == FromCycle(s.cycle)
          else Unsealed(s) && (at == PublishStart ==> s.preparedFor == s.cycle))
    case Presenting(_) =>
      && s.started && !s.ready && !s.jobPending && s.begun && !s.asleep
      && s.isSealed && s.source == FromCycle(s.cycle) && s.overlap
    case Telemetry => BetweenCycles(s) && !s.asleep
    case Leaving(at) =>
      && s.started && s.stop && !s.asleep && (s.ready ==> s.isSealed)
      && (at != ReleaseStart ==> s.isSealed) && (at == Exited ==> s.ready)
  }

  /** What the producer may rely on at each point of its calls. */
  predicate ProducerFacts(s: State) {
    match s.producer
    case Outside => s.started ==> !s.stop
    case Beginning(at) =>
      && (s.started ==> !s.stop)
      && (at != BeginEnsure ==> s.started)
      && (at == BeginJoin || at == BeginRead ==> s.begun && (s.ready ==> s.source == FromCycle(s.cycle)))
      && (at == BeginRead ==> s.ready)
    case SyncPreparing(_) => Running(s) && s.begun && s.ready
    case Ending(at) =>
      && (s.started ==> !s.stop)
      && (at != EndEnsure ==> s.started)
      && (at == EndDrainStart || at == EndDraining || at == EndClear || at == EndClearReady ==> s.ready)
      && (at == EndClearReady ==> !s.isSealed && s.source.Cleared?)
      && (at == EndNotify ==> !s.begun)
    case JoiningDone => s.started ==> !s.stop
    case Draining(at) => (s.started ==> !s.stop) && (at != DrainJoin ==> s.isSealed)
    case Stopping(at) =>
      && (at == StopSet ==> s.started ==> !s.stop)
      && (at != StopSet ==> s.started && s.stop)
      && (at == StopFinish ==> s.worker == Leaving(Exited))
  }

  /** framePrepared is what the current cycle's own preparation returned, once that has happened. */
  predicate Results(s: State) {
    match s.source
    case Cleared => !s.framePrepared
    case FromCycle(c) => c == s.cycle && s.preparedFor == s.cycle && s.framePrepared == s.prepared
    case FromProducer => s.framePrepared == s.answers.made || s.producer == SyncPreparing(SyncStore)
  }

  predicate Inv(s: State) {
    Locks(s) && WorkerFacts(s) && ProducerFacts(s) && Results(s)
  }

  lemma {:induction false} SealKeepsInv(s: State, at: SealAt, choice: bool)
    requires Inv(s) && s.worker == Sealing(at) && !s.asleep && SealNext(s, at, choice).Enabled?
    ensures Inv(SealNext(s, at, choice).value)
  {
    match at
    case SealStart =>
    case SealHolding => if s.overlap {} else {}
    case EarlyPresent =>
    case PrepareWait => if s.stop {} else if s.prepareAllowed {} else {}
  }

  lemma {:induction false} PrepareKeepsInv(s: State, at: PrepareAt, choice: bool)
    requires Inv(s) && s.worker == Preparing(at) && PrepareNext(s, at, choice).Enabled?
    ensures Inv(PrepareNext(s, at, choice).value)
  {
    match at
    case PrepareStart =>
    case PrepareHolding =>
    case PublishStart =>
    case PublishSealed => if s.overlap {} else {}
  }

  lemma {:induction false} PresentKeepsInv(s: State, at: PresentAt, choice: bool)
    requires Inv(s) && s.worker == Presenting(at) && PresentNext(s, at, choice).Enabled?
    ensures Inv(PresentNext(s, at, choice).value)
  {
    match at
    case Encoding =>
    case Publishing =>
    case NewFrameStart =>
    case NewFrameHolding =>
    case ReadyStore =>
  }

  lemma {:induction false} LeaveKeepsInv(s: State, at: LeaveAt)
    requires Inv(s) && s.worker == Leaving(at) && LeaveNext(s, at).Enabled?
    ensures Inv(LeaveNext(s, at).value)
  {
  }

  lemma {:induction false} JobKeepsInv(s: State)
    requires Inv(s) && s.worker == JobWait && !s.asleep && JobNext(s).Enabled?
    ensures Inv(JobNext(s).value)
  {
    if s.stop {} else if s.jobPending {} else {}
  }

  lemma {:induction false} WorkerKeepsInv(s: State, choice: bool)
    requires Inv(s) && WorkerNext(s, choice).Enabled?
    ensures Inv(WorkerNext(s, choice).value)
  {
    match s.worker
    case JobWait => JobKeepsInv(s);
    case Sealing(at) => SealKeepsInv(s, at, choice);
    case Preparing(at) => PrepareKeepsInv(s, at, choice);
    case Presenting(at) => PresentKeepsInv(s, at, choice);
    case Telemetry =>
    case Leaving(at) => LeaveKeepsInv(s, at);
  }

  lemma {:induction false} BeginKeepsInv(s: State, at: BeginAt, choice: bool)
    requires Inv(s) && s.producer == Beginning(at) && BeginNext(s, at, choice).Enabled?
    ensures Inv(BeginNext(s, at, choice).value)
  {
    match at
    case BeginEnsure => if s.started {} else {}
    case BeginCheck => if !s.ready {} else if s.framePrepared {} else {}
    case BeginJoin =>
    case BeginRead =>
  }

  lemma {:induction false} SyncKeepsInv(s: State, at: SyncAt, choice: bool)
    requires Inv(s) && s.producer == SyncPreparing(at) && SyncNext(s, at, choice).Enabled?
    ensures Inv(SyncNext(s, at, choice).value)
  {
  }

  lemma {:induction false} EndKeepsInv(s: State, at: EndAt)
    requires Inv(s) && s.producer == Ending(at) && EndNext(s, at).Enabled?
    ensures Inv(EndNext(s, at).value)
  {
    match at
    case EndEnsure => if s.started {} else {}
    case _ =>
  }

  lemma {:induction false} DrainKeepsInv(s: State, at: DrainAt)
    requires Inv(s) && s.producer == Draining(at) && DrainNext(s, at).Enabled?
    ensures Inv(DrainNext(s, at).value)
  {
  }

  lemma {:induction false} StopSetKeepsInv(s: State)
    requires Inv(s) && s.producer == Stopping(StopSet) && StopNext(s, StopSet).Enabled?
    ensures Inv(StopNext(s, StopSet).value)
  {
    if s.started {} else {}
  }

  lemma {:induction false} StopFinishKeepsInv(s: State)
    requires Inv(s) && s.producer == Stopping(StopFinish) && StopNext(s, StopFinish).Enabled?
    ensures Inv(StopNext(s, StopFinish).value)
  {
    assert s.worker == Leaving(Exited);
  }

  lemma {:induction false} StopKeepsInv(s: State, at: StopAt)
    requires Inv(s) && s.producer == Stopping(at) && StopNext(s, at).Enabled?
    ensures Inv(StopNext(s, at).value)
  {
    match at
    case StopSet => StopSetKeepsInv(s);
    case StopNotify =>
    case StopJoin =>
    case StopFinish => StopFinishKeepsInv(s);
  }

  lemma {:induction false} ProducerKeepsInv(s: State, choice: bool)
    requires Inv(s) && ProducerNext(s, choice).Enabled?
    ensures Inv(ProducerNext(s, choice).value)
  {
    match s.producer
    case Beginning(at) => BeginKeepsInv(s, at, choice);
    case SyncPreparing(at) => SyncKeepsInv(s, at, choice);
    case Ending(at) => EndKeepsInv(s, at);
    case JoiningDone =>
    case Draining(at) => DrainKeepsInv(s, at);
    case Stopping(at) => StopKeepsInv(s, at);
  }

  lemma {:induction false} StepKeepsInv(s: State, a: Action)
    requires Inv(s) && Step(s, a).Enabled?
    ensures Inv(Step(s, a).value)
  {
    match a
    case WorkerStep(choice) => WorkerKeepsInv(s, choice);
    case ProducerStep(choice) => ProducerKeepsInv(s, choice);
    case _ =>
  }

  lemma {:induction false} RunKeepsInv(s: State, actions: seq<Action>)
    requires Inv(s) && Run(s, actions).Enabled?
    ensures Inv(Run(s, actions).value)
    decreases |actions|
  {
    if actions == [] {
    } else {
      StepKeepsInv(s, actions[0]);
      RunKeepsInv(Step(s, actions[0]).value, actions[1..]);
    }
  }

  // ---------- safety ----------

  predicate InCycle(w: WorkerAt) {
    w.Sealing? || w.Preparing? || w.Presenting?
  }

  function FramesInFlight(s: State): nat {
    (if s.started && s.jobPending then 1 else 0) + (if InCycle(s.worker) then 1 else 0)
  }

  /** No cycle anywhere: the worker is at rest, DONE is up. */
  predicate AtRest(s: State) {
    (s.worker.JobWait? || s.worker.Telemetry?) && !s.jobPending && s.ready
  }

  predicate PastEndJoin(p: ProducerAt) {
    match p
    case Ending(at) => at.EndDrainStart? || at.EndDraining? || at.EndClear? || at.EndClearReady?
    case _ => false
  }

  /** In every interleaving: what the flags mean, who is where, and how much is in flight. */
  lemma {:induction false} Safety(actions: seq<Action>)
    requires Run(INITIAL, actions).Enabled?
    ensures var s := Run(INITIAL, actions).value;
      // DONE is never visible without SEALED, except inside the section that clears both.
      && (s.ready ==> s.isSealed || s.producer == Ending(EndClearReady))
      && FramesInFlight(s) <= 1
      // end_frame drains, clears and posts only with no cycle anywhere in flight.
      && (PastEndJoin(s.producer) ==> AtRest(s))
      // A drain during recording meets neither the seal nor the preparation, not even one about to start.
      && (s.producer == Draining(DrainHolding) && s.started ==>
            AtRest(s) || s.worker == Preparing(PublishSealed) || s.worker.Presenting?)
      // begin_frame prepares on the producer only with no cycle in flight.
      && (s.producer.SyncPreparing? ==> AtRest(s))
  {
    RunKeepsInv(INITIAL, actions);
  }

  /** When the worker brings a cycle to DONE, framePrepared is the result of that cycle's own preparation. */
  lemma {:induction false} DoneCarriesOwnResult(actions: seq<Action>, choice: bool)
    requires Run(INITIAL, actions).Enabled? && WorkerNext(Run(INITIAL, actions).value, choice).Enabled?
    ensures var s, t := Run(INITIAL, actions).value, WorkerNext(Run(INITIAL, actions).value, choice).value;
      !s.ready && t.ready && !t.stop ==>
        t.source == FromCycle(t.cycle) && t.preparedFor == t.cycle && t.framePrepared == t.prepared
  {
    var s := Run(INITIAL, actions).value;
    RunKeepsInv(INITIAL, actions);
    match s.worker
    case Sealing(at) => SealNeverRaisesReady(s, at, choice);
    case Preparing(at) => if PrepareNext(s, at, choice).value.ready { PrepareRaisesReady(s, at, choice); }
    case Presenting(at) => PresentKeepsResult(s, at, choice);
    case JobWait => if !s.ready { JobNeverRaisesReady(s); }
    case Telemetry =>
    case Leaving(at) => LeavingIsStopped(s, at);
  }

  lemma {:induction false} PresentKeepsResult(s: State, at: PresentAt, choice: bool)
    requires Inv(s) && s.worker == Presenting(at) && PresentNext(s, at, choice).Enabled?
    ensures var t := PresentNext(s, at, choice).value;
      t.source == FromCycle(t.cycle) && t.preparedFor == t.cycle && t.framePrepared == t.prepared
  {
    match at
    case Encoding =>
    case Publishing =>
    case NewFrameStart =>
    case NewFrameHolding =>
    case ReadyStore =>
  }

  lemma {:induction false} JobNeverRaisesReady(s: State)
    requires !s.ready && JobNext(s).Enabled?
    ensures !JobNext(s).value.ready
  {
    if s.stop {} else if s.jobPending {} else {}
  }

  lemma {:induction false} LeavingIsStopped(s: State, at: LeaveAt)
    requires Inv(s) && s.worker == Leaving(at) && LeaveNext(s, at).Enabled?
    ensures LeaveNext(s, at).value.stop
  {
    if at == ReleaseStart {} else {}
  }

  lemma {:induction false} SealNeverRaisesReady(s: State, at: SealAt, choice: bool)
    requires !s.ready && SealNext(s, at, choice).Enabled?
    ensures !SealNext(s, at, choice).value.ready
  {
    match at
    case SealStart =>
    case SealHolding => if s.overlap {} else {}
    case EarlyPresent =>
    case PrepareWait => if s.stop {} else if s.prepareAllowed {} else {}
  }

  lemma {:induction false} PrepareRaisesReady(s: State, at: PrepareAt, choice: bool)
    requires Inv(s) && s.worker == Preparing(at) && PrepareNext(s, at, choice).Enabled?
    requires PrepareNext(s, at, choice).value.ready
    ensures var t := PrepareNext(s, at, choice).value;
      t.source == FromCycle(t.cycle) && t.preparedFor == t.cycle && t.framePrepared == t.prepared
  {
    match at
    case PrepareStart =>
    case PrepareHolding =>
    case PublishStart =>
    case PublishSealed => if s.overlap {} else {}
  }

  /** A begin_frame that joined DONE returns the result of the cycle it joined. */
  lemma {:induction false} JoinedBeginReturnsOwnResult(actions: seq<Action>)
    requires Run(INITIAL, actions).Enabled? && Run(INITIAL, actions).value.producer == Beginning(BeginRead)
    ensures var s := Run(INITIAL, actions).value;
      s.source == FromCycle(s.cycle) && s.preparedFor == s.cycle && s.framePrepared == s.prepared
  {
    RunKeepsInv(INITIAL, actions);
  }

  /** What begin_frame returns: with DONE up, the recorded result, which on the producer's own path is its own;
      without waiting for DONE, that the worker has leave to prepare. */
  lemma {:induction false} BeginReturns(actions: seq<Action>, choice: bool)
    requires Run(INITIAL, actions).Enabled? && ProducerNext(Run(INITIAL, actions).value, choice).Enabled?
    requires Run(INITIAL, actions).value.producer.Beginning? || Run(INITIAL, actions).value.producer.SyncPreparing?
    requires ProducerNext(Run(INITIAL, actions).value, choice).value.producer == Outside
    ensures var s, t := Run(INITIAL, actions).value, ProducerNext(Run(INITIAL, actions).value, choice).value;
      && t.begun
      && (s.ready ==> t.answers.returned == t.framePrepared)
      && (!s.ready ==> t.answers.returned && t.prepareAllowed && !t.asleep)
      && (s.producer.SyncPreparing? ==> t.framePrepared == s.answers.made)
  {
    var s := Run(INITIAL, actions).value;
    RunKeepsInv(INITIAL, actions);
    match s.producer
    case Beginning(at) => BeginReturnsAt(s, at, choice);
    case SyncPreparing(at) => SyncReturnsAt(s, at, choice);
  }

  lemma {:induction false} SyncReturnsAt(s: State, at: SyncAt, choice: bool)
    requires s.begun && s.producer == SyncPreparing(at) && SyncNext(s, at, choice).Enabled?
    requires SyncNext(s, at, choice).value.producer == Outside
    ensures var t := SyncNext(s, at, choice).value;
      && t.begun && t.answers.returned == t.framePrepared && t.framePrepared == s.answers.made
  {
    match at
    case SyncStart =>
    case SyncHolding =>
    case SyncStore =>
  }

  lemma {:induction false} BeginReturnsAt(s: State, at: BeginAt, choice: bool)
    requires Inv(s) && s.producer == Beginning(at) && BeginNext(s, at, choice).Enabled?
    requires BeginNext(s, at, choice).value.producer == Outside
    ensures var t := BeginNext(s, at, choice).value;
      && t.begun
      && (s.ready ==> t.answers.returned == t.framePrepared)
      && (!s.ready ==> t.answers.returned && t.prepareAllowed && !t.asleep)
  {
    match at
    case BeginEnsure => if s.started {} else {}
    case BeginCheck => if !s.ready {} else if s.framePrepared {} else {}
    case BeginJoin =>
    case BeginRead =>
  }

  /** A preparation on the producer is recorded and returned with its own result. */
  lemma {:induction false} ProducerPrepares(s: State, choice: bool, later: bool)
    requires s.producer == SyncPreparing(SyncHolding) && s.mutex == Nobody
    ensures var t := ProducerNext(s, choice).value;
      && ProducerNext(s, choice).Enabled? && ProducerNext(t, later).Enabled?
      && var u := ProducerNext(t, later).value;
         u.producer == Outside && u.framePrepared == choice && u.answers.returned == choice
  {
  }

  // ---------- progress ----------

  /** The producer is inside a join whose flag is down. */
  predicate Blocked(s: State) {
    && s.started
    && match s.producer
       case Beginning(at) => at == BeginJoin && !s.ready
       case Ending(at) => at == EndJoin && !s.ready
       case JoiningDone => !s.ready
       case Draining(at) => at == DrainJoin && !s.isSealed
       case _ => false
  }

  function SealRank(at: SealAt): nat {
    match at case SealStart => 17 case SealHolding => 16 case EarlyPresent => 15 case PrepareWait => 14
  }

  function PrepareRank(at: PrepareAt): nat {
    match at case PrepareStart => 13 case PrepareHolding => 12 case PublishStart => 11 case PublishSealed => 10
  }

  function PresentRank(at: PresentAt): nat {
    match at
    case Encoding => 9
    case Publishing => 8
    case NewFrameStart => 7
    case NewFrameHolding => 6
    case ReadyStore => 5
  }

  function LeaveRank(at: LeaveAt): nat {
    match at case ReleaseStart => 2 case ReleaseSealed => 1 case Exited => 0
  }

  /** How far the worker is from the end of the longest cycle and of its thread. */
  function Rank(w: WorkerAt): nat {
    match w
    case Sealing(at) => SealRank(at)
    case Preparing(at) => PrepareRank(at)
    case Presenting(at) => PresentRank(at)
    case Telemetry => 4
    case JobWait => 3
    case Leaving(at) => LeaveRank(at)
    case NotRunning => 0
  }

  /** An upper bound on the worker steps that are left before DONE. */
  function StepsToDone(s: State): nat {
    if s.ready then 0 else if s.jobPending then 17 + Rank(s.worker) else Rank(s.worker)
  }

  /** The worker's steps alone, under any outcome of its choices, for as long as the producer is blocked. */
  function WorkWhileBlocked(s: State, choices: seq<bool>): Next
    decreases |choices|
  {
    if !Blocked(s) || choices == [] then Enabled(s)
    else match WorkerNext(s, choices[0])
         case Disabled => Disabled
         case Enabled(t) => WorkWhileBlocked(t, choices[1..])
  }

  lemma {:induction false} BlockedProducerHoldsNothing(s: State, choice: bool)
    requires Inv(s) && Blocked(s)
    ensures s.mutex != Producer && s.gpu != Producer && !s.stop
    ensures ProducerNext(s, choice).Disabled?
  {
  }

  /** Once begin_frame was called, a blocked producer leaves the worker able to step, and every step counts. */
  lemma {:induction false} EveryWorkerStepCounts(s: State, choice: bool)
    requires Inv(s) && Blocked(s) && s.begun
    ensures WorkerNext(s, choice).Enabled?
    ensures var t := WorkerNext(s, choice).value;
      t.begun && t.producer == s.producer && StepsToDone(t) < StepsToDone(s)
  {
    BlockedProducerHoldsNothing(s, choice);
    match s.worker
    case Sealing(at) => SealCounts(s, at, choice);
    case Preparing(at) => PrepareCounts(s, at, choice);
    case Presenting(at) => PresentCounts(s, at, choice);
    case JobWait =>
    case Telemetry =>
  }

  lemma {:induction false} SealCounts(s: State, at: SealAt, choice: bool)
    requires Inv(s) && Blocked(s) && s.begun && s.worker == Sealing(at)
    ensures !s.asleep && SealNext(s, at, choice).Enabled?
    ensures var t := SealNext(s, at, choice).value;
      t.begun && t.producer == s.producer && StepsToDone(t) < StepsToDone(s)
  {
    BlockedProducerHoldsNothing(s, choice);
    match at
    case SealStart =>
    case SealHolding => if s.overlap {} else {}
    case EarlyPresent =>
    case PrepareWait => assert s.prepareAllowed;
  }

  lemma {:induction false} PrepareCounts(s: State, at: PrepareAt, choice: bool)
    requires Inv(s) && Blocked(s) && s.begun && s.worker == Preparing(at)
    ensures PrepareNext(s, at, choice).Enabled?
    ensures var t := PrepareNext(s, at, choice).value;
      t.begun && t.producer == s.producer && StepsToDone(t) < StepsToDone(s)
  {
    BlockedProducerHoldsNothing(s, choice);
    match at
    case PrepareStart =>
    case PrepareHolding =>
    case PublishStart =>
    case PublishSealed => if s.overlap {} else {}
  }

  lemma {:induction false} PresentCounts(s: State, at: PresentAt, choice: bool)
    requires Inv(s) && Blocked(s) && s.begun && s.worker == Presenting(at)
    ensures PresentNext(s, at, choice).Enabled?
    ensures var t := PresentNext(s, at, choice).value;
      t.begun && t.producer == s.producer && StepsToDone(t) < StepsToDone(s)
  {
    BlockedProducerHoldsNothing(s, choice);
    match at
    case Encoding =>
    case Publishing =>
    case NewFrameStart =>
    case NewFrameHolding =>
    case ReadyStore =>
  }

  /** So every join between a begin_frame and the next end_frame returns, after at most 21 worker steps. */
  lemma {:induction false} BegunJoinReturns(s: State, choices: seq<bool>)
    requires Inv(s) && Blocked(s) && s.begun && StepsToDone(s) <= |choices|
    ensures StepsToDone(s) <= 21
    ensures WorkWhileBlocked(s, choices).Enabled? && !Blocked(WorkWhileBlocked(s, choices).value)
    decreases |choices|
  {
    EveryWorkerStepCounts(s, choices[0]);
    WorkerKeepsInv(s, choices[0]);
    var t := WorkerNext(s, choices[0]).value;
    if Blocked(t) {
      BegunJoinReturns(t, choices[1..]);
    }
  }

  lemma {:induction false} UnbegunStep(s: State, a: Action)
    requires Inv(s) && Blocked(s) && !s.begun && Step(s, a).Enabled?
    ensures Blocked(Step(s, a).value) && !Step(s, a).value.begun && Step(s, a).value.producer == s.producer
  {
    BlockedProducerHoldsNothing(s, true);
    BlockedProducerHoldsNothing(s, false);
    match a
    case WorkerStep(choice) =>
      match s.worker {
        case Sealing(at) => if s.overlap {} else {}
        case _ =>
      }
    case _ =>
  }

  /** And a join after an end_frame and before the next begin_frame never returns, whoever runs. */
  lemma {:induction false} UnbegunJoinNeverReturns(s: State, actions: seq<Action>)
    requires Inv(s) && Blocked(s) && !s.begun && Run(s, actions).Enabled?
    ensures var t := Run(s, actions).value;
      Blocked(t) && !t.begun && t.producer == s.producer
    decreases |actions|
  {
    if actions == [] {
    } else {
      UnbegunStep(s, actions[0]);
      StepKeepsInv(s, actions[0]);
      UnbegunJoinNeverReturns(Step(s, actions[0]).value, actions[1..]);
    }
  }

  // ---------- the circular wait ----------

  /** The producer waits for a flag while the worker waits for leave to prepare, and nobody will give it. */
  predicate CircularWait(s: State) {
    Blocked(s) && s.worker == Sealing(PrepareWait) && !s.prepareAllowed && !s.stop
  }

  /** The usage rule: join, drain or end a frame only when one was begun since the last end_frame. */
  predicate ObeysRule(s: State, a: Action) {
    a.CallEnd? || a.CallJoinDone? || a.CallDrain? ==> s.begun || !s.started
  }

  /** The rule asks no more than it must: a join that breaks it while its phase is down never returns. */
  lemma {:induction false} RuleIsNeeded(s: State, a: Action, actions: seq<Action>)
    requires Inv(s) && s.producer == Outside && !s.ready && !ObeysRule(s, a)
    requires a == CallJoinDone || (a == CallDrain && !s.isSealed)
    requires Run(Step(s, a).value, actions).Enabled?
    ensures Run(Step(s, a).value, actions).value.producer != Outside
  {
    StepKeepsInv(s, a);
    UnbegunJoinNeverReturns(Step(s, a).value, actions);
  }

  predicate RunObeysRule(s: State, actions: seq<Action>)
    decreases |actions|
  {
    actions == []
    || (ObeysRule(s, actions[0])
        && (Step(s, actions[0]).Enabled? ==> RunObeysRule(Step(s, actions[0]).value, actions[1..])))
  }

  predicate JoinEntered(p: ProducerAt) {
    match p
    case Ending(at) => at.EndEnsure? || at.EndJoin?
    case JoiningDone => true
    case Draining(at) => at.DrainJoin?
    case _ => false
  }

  /** What the rule adds to the invariant. */
  predicate JoinsOnlyBegun(s: State) {
    JoinEntered(s.producer) ==> s.begun || s.ready
  }

  lemma {:induction false} SealKeepsRule(s: State, at: SealAt, choice: bool)
    requires JoinsOnlyBegun(s) && SealNext(s, at, choice).Enabled?
    ensures JoinsOnlyBegun(SealNext(s, at, choice).value)
  {
    match at
    case SealStart =>
    case SealHolding => if s.overlap {} else {}
    case EarlyPresent =>
    case PrepareWait => if s.stop {} else if s.prepareAllowed {} else {}
  }

  lemma {:induction false} PrepareKeepsRule(s: State, at: PrepareAt, choice: bool)
    requires JoinsOnlyBegun(s) && PrepareNext(s, at, choice).Enabled?
    ensures JoinsOnlyBegun(PrepareNext(s, at, choice).value)
  {
    match at
    case PrepareStart =>
    case PrepareHolding =>
    case PublishStart =>
    case PublishSealed => if s.overlap {} else {}
  }

  lemma {:induction false} JobKeepsRule(s: State)
    requires JoinsOnlyBegun(s) && JobNext(s).Enabled?
    ensures JoinsOnlyBegun(JobNext(s).value)
  {
    if s.stop {} else if s.jobPending {} else {}
  }

  lemma {:induction false} PresentKeepsRule(s: State, at: PresentAt, choice: bool)
    requires JoinsOnlyBegun(s) && PresentNext(s, at, choice).Enabled?
    ensures JoinsOnlyBegun(PresentNext(s, at, choice).value)
  {
    PresentLeavesJoins(s, at, choice);
  }

  lemma {:induction false} PresentLeavesJoins(s: State, at: PresentAt, choice: bool)
    requires PresentNext(s, at, choice).Enabled?
    ensures var t := PresentNext(s, at, choice).value;
      t.producer == s.producer && t.begun == s.begun && (s.ready ==> t.ready)
  {
    match at
    case Encoding =>
    case Publishing =>
    case NewFrameStart =>
    case NewFrameHolding =>
    case ReadyStore =>
  }

  lemma {:induction false} LeaveKeepsRule(s: State, at: LeaveAt)
    requires JoinsOnlyBegun(s) && LeaveNext(s, at).Enabled?
    ensures JoinsOnlyBegun(LeaveNext(s, at).value)
  {
    if at == ReleaseStart {} else {}
  }

  lemma {:induction false} WorkerKeepsRule(s: State, choice: bool)
    requires JoinsOnlyBegun(s) && WorkerNext(s, choice).Enabled?
    ensures JoinsOnlyBegun(WorkerNext(s, choice).value)
  {
    match s.worker
    case JobWait => JobKeepsRule(s);
    case Sealing(at) => SealKeepsRule(s, at, choice);
    case Preparing(at) => PrepareKeepsRule(s, at, choice);
    case Presenting(at) => PresentKeepsRule(s, at, choice);
    case Telemetry =>
    case Leaving(at) => LeaveKeepsRule(s, at);
  }

  lemma {:induction false} SyncLeavesJoins(s: State, at: SyncAt, choice: bool)
    requires SyncNext(s, at, choice).Enabled?
    ensures !JoinEntered(SyncNext(s, at, choice).value.producer)
  {
    if at.SyncStart? {} else if at.SyncHolding? {} else {}
  }

  lemma {:induction false} DrainLeavesJoin(s: State, at: DrainAt)
    requires DrainNext(s, at).Enabled?
    ensures !JoinEntered(DrainNext(s, at).value.producer)
  {
    if at.DrainJoin? {} else if at.DrainStart? {} else {}
  }

  lemma {:induction false} ProducerKeepsRule(s: State, choice: bool)
    requires JoinsOnlyBegun(s) && ProducerNext(s, choice).Enabled?
    ensures JoinsOnlyBegun(ProducerNext(s, choice).value)
  {
    match s.producer
    case Beginning(at) => BeginLeavesJoins(s, at, choice);
    case SyncPreparing(at) => SyncLeavesJoins(s, at, choice);
    case Ending(at) => EndKeepsRule(s, at);
    case JoiningDone =>
    case Draining(at) => DrainLeavesJoin(s, at);
    case Stopping(at) => StopLeavesJoins(s, at);
  }

  lemma {:induction false} BeginLeavesJoins(s: State, at: BeginAt, choice: bool)
    requires BeginNext(s, at, choice).Enabled?
    ensures !JoinEntered(BeginNext(s, at, choice).value.producer)
  {
    match at
    case BeginEnsure => if s.started {} else {}
    case BeginCheck => if !s.ready {} else if s.framePrepared {} else {}
    case BeginJoin =>
    case BeginRead =>
  }

  lemma {:induction false} EndKeepsRule(s: State, at: EndAt)
    requires JoinsOnlyBegun(s) && s.producer == Ending(at) && EndNext(s, at).Enabled?
    ensures JoinsOnlyBegun(EndNext(s, at).value)
  {
    match at
    case EndEnsure => if s.started {} else {}
    case _ =>
  }

  lemma {:induction false} StopLeavesJoins(s: State, at: StopAt)
    requires StopNext(s, at).Enabled?
    ensures !JoinEntered(StopNext(s, at).value.producer)
  {
    match at
    case StopSet => if s.started {} else {}
    case StopNotify =>
    case StopJoin =>
    case StopFinish =>
  }

  lemma {:induction false} CallKeepsRule(s: State, a: Action)
    requires Inv(s) && JoinsOnlyBegun(s) && ObeysRule(s, a) && Step(s, a).Enabled?
    requires !a.WorkerStep? && !a.ProducerStep?
    ensures JoinsOnlyBegun(Step(s, a).value)
  {
  }

  lemma {:induction false} RuleKept(s: State, actions: seq<Action>)
    requires Inv(s) && JoinsOnlyBegun(s) && RunObeysRule(s, actions) && Run(s, actions).Enabled?
    ensures Inv(Run(s, actions).value) && JoinsOnlyBegun(Run(s, actions).value)
    decreases |actions|
  {
    if actions == [] {
    } else {
      match actions[0] {
        case WorkerStep(choice) => WorkerKeepsRule(s, choice);
        case ProducerStep(choice) => ProducerKeepsRule(s, choice);
        case _ => CallKeepsRule(s, actions[0]);
      }
      StepKeepsInv(s, actions[0]);
      RuleKept(Step(s, actions[0]).value, actions[1..]);
    }
  }

  /** A producer that keeps the rule never meets the circular wait. */
  lemma {:induction false} RuleAvoidsCircularWait(actions: seq<Action>)
    requires RunObeysRule(INITIAL, actions) && Run(INITIAL, actions).Enabled?
    ensures !CircularWait(Run(INITIAL, actions).value)
  {
    RuleKept(INITIAL, actions);
  }

  // One frame begun and ended, then a join before the next begin_frame, while the worker seals.
  const BEGUN := INITIAL.(started := true, worker := JobWait, begun := true, framePrepared := true,
                          source := FromProducer, answers := Answers(true, true))
  const ENDED := BEGUN.(begun := false, framePrepared := false, source := Cleared, jobPending := true,
                        ready := false, isSealed := false, cycle := 1, film := BEGUN.film.(drained := 1))

  ghost predicate Reaches(s: State, t: State) {
    exists actions :: Run(s, actions) == Enabled(t)
  }

  lemma {:induction false} ReachesItself(s: State)
    ensures Reaches(s, s)
  {
    assert Run(s, []) == Enabled(s);
  }

  lemma {:induction false} ReachesNext(s: State, a: Action, t: State, u: State)
    requires Step(s, a) == Enabled(t) && Reaches(t, u)
    ensures Reaches(s, u)
  {
    var rest :| Run(t, rest) == Enabled(u);
    assert ([a] + rest)[1..] == rest;
    assert Run(s, [a] + rest) == Enabled(u);
  }

  lemma {:induction false} HazardJoins() returns (u: State)
    ensures Reaches(ENDED, u) && CircularWait(u)
  {
    var s1 := ENDED.(producer := JoiningDone);
    var s2 := s1.(worker := Sealing(SealStart), jobPending := false);
    var s3 := s2.(worker := Sealing(SealHolding), gpu := Worker, overlap := true);
    u := s3.(worker := Sealing(PrepareWait), gpu := Nobody, film := s3.film.(frame := 1, encoded := 0));
    ReachesItself(u);
    ReachesNext(s3, WorkerStep(true), u, u);
    ReachesNext(s2, WorkerStep(true), s3, u);
    ReachesNext(s1, WorkerStep(true), s2, u);
    ReachesNext(ENDED, CallJoinDone, s1, u);
  }

  // The producer in end_frame, drained and about to clear the flags.
  const DRAINED := BEGUN.(producer := Ending(EndClear), film := BEGUN.film.(drained := 1))

  lemma {:induction false} HazardClears(u: State)
    requires Reaches(ENDED, u)
    ensures Reaches(DRAINED, u)
  {
    var s1 := DRAINED.(producer := Ending(EndClearReady), mutex := Producer, framePrepared := false,
                       source := Cleared, isSealed := false);
    var s2 := ENDED.(producer := Ending(EndNotify));
    ReachesNext(s2, ProducerStep(true), ENDED, u);
    ReachesNext(s1, ProducerStep(true), s2, u);
    ReachesNext(DRAINED, ProducerStep(true), s1, u);
  }

  lemma {:induction false} HazardEnds(u: State)
    requires Reaches(ENDED, u)
    ensures Reaches(BEGUN, u)
  {
    var s1 := BEGUN.(producer := Ending(EndEnsure));
    var s2 := BEGUN.(producer := Ending(EndJoin));
    var s3 := BEGUN.(producer := Ending(EndDrainStart));
    var s4 := BEGUN.(producer := Ending(EndDraining), gpu := Producer);
    HazardClears(u);
    ReachesNext(s4, ProducerStep(true), DRAINED, u);
    ReachesNext(s3, ProducerStep(true), s4, u);
    ReachesNext(s2, ProducerStep(true), s3, u);
    ReachesNext(s1, ProducerStep(true), s2, u);
    ReachesNext(BEGUN, CallEnd, s1, u);
  }

  lemma {:induction false} HazardBegins(u: State)
    requires Reaches(BEGUN, u)
    ensures Reaches(INITIAL, u)
  {
    var s1 := INITIAL.(producer := Beginning(BeginEnsure));
    var s2 := Started(s1).(producer := Beginning(BeginCheck));
    var s3 := s2.(begun := true, producer := SyncPreparing(SyncStart));
    var s4 := s3.(producer := SyncPreparing(SyncHolding), gpu := Producer);
    var s5 := s3.(producer := SyncPreparing(SyncStore), answers := Answers(true, false));
    ReachesNext(s5, ProducerStep(true), BEGUN, u);
    ReachesNext(s4, ProducerStep(true), s5, u);
    ReachesNext(s3, ProducerStep(true), s4, u);
    ReachesNext(s2, ProducerStep(true), s3, u);
    ReachesNext(s1, ProducerStep(true), s2, u);
    ReachesNext(INITIAL, CallBegin, s1, u);
  }

  /** Without the rule the circular wait is reached. */
  lemma {:induction false} HazardIsReal() returns (actions: seq<Action>)
    ensures Run(INITIAL, actions).Enabled? && CircularWait(Run(INITIAL, actions).value)
  {
    var u := HazardJoins();
    HazardEnds(u);
    HazardBegins(u);
    actions :| Run(INITIAL, actions) == Enabled(u);
  }

  // ---------- shutdown ----------

  /** Stop has been requested and only the worker may hold a lock, where it does. */
  predicate StopRequested(s: State) {
    && !s.asleep && s.stop && s.mutex != Producer && s.gpu != Producer
    && (s.mutex == Worker ==> s.worker == Preparing(PublishSealed) || s.worker == Leaving(ReleaseSealed))
    && (s.gpu == Worker ==> s.worker == Sealing(SealHolding) || s.worker == Preparing(PrepareHolding)
                            || s.worker == Presenting(NewFrameHolding))
  }

  lemma {:induction false} StopSeals(s: State, at: SealAt, choice: bool)
    requires StopRequested(s) && s.worker == Sealing(at)
    ensures SealNext(s, at, choice).Enabled? && SealNext(s, at, choice).value.producer == s.producer
    ensures Rank(SealNext(s, at, choice).value.worker) < Rank(s.worker)
  {
    match at
    case SealStart =>
    case SealHolding => if s.overlap {} else {}
    case EarlyPresent =>
    case PrepareWait => if s.stop {} else if s.prepareAllowed {} else {}
  }

  lemma {:induction false} StopPrepares(s: State, at: PrepareAt, choice: bool)
    requires StopRequested(s) && s.worker == Preparing(at)
    ensures PrepareNext(s, at, choice).Enabled? && PrepareNext(s, at, choice).value.producer == s.producer
    ensures Rank(PrepareNext(s, at, choice).value.worker) < Rank(s.worker)
  {
    match at
    case PrepareStart =>
    case PrepareHolding =>
    case PublishStart =>
    case PublishSealed => if s.overlap {} else {}
  }

  lemma {:induction false} StopLeaves(s: State, at: LeaveAt)
    requires StopRequested(s) && s.worker == Leaving(at) && at != Exited
    ensures LeaveNext(s, at).Enabled? && LeaveNext(s, at).value.producer == s.producer
    ensures Rank(LeaveNext(s, at).value.worker) < Rank(s.worker)
  {
    if at == ReleaseStart {} else {}
  }

  lemma {:induction false} StopPublishes(s: State, choice: bool)
    requires s.worker == Presenting(Publishing)
    ensures var next := PresentNext(s, Publishing, choice);
      next.Enabled? && next.value.producer == s.producer && Rank(next.value.worker) < Rank(s.worker)
  {
  }

  lemma {:induction false} StopPresents(s: State, at: PresentAt, choice: bool)
    requires StopRequested(s) && s.worker == Presenting(at)
    ensures var next := PresentNext(s, at, choice);
      next.Enabled? && next.value.producer == s.producer && Rank(next.value.worker) < Rank(s.worker)
  {
    match at
    case Encoding =>
    case Publishing => StopPublishes(s, choice);
    case NewFrameStart =>
    case NewFrameHolding =>
    case ReadyStore =>
  }

  /** After stop every worker step brings the exit closer, and the worker is never asleep for good. */
  lemma {:induction false} StopAdvances(s: State, choice: bool)
    requires StopRequested(s) && !s.worker.NotRunning? && s.worker != Leaving(Exited)
    ensures WorkerNext(s, choice).Enabled?
    ensures WorkerNext(s, choice).value.producer == s.producer
    ensures Rank(WorkerNext(s, choice).value.worker) < Rank(s.worker)
  {
    match s.worker
    case JobWait =>
    case Sealing(at) => StopSeals(s, at, choice);
    case Preparing(at) => StopPrepares(s, at, choice);
    case Presenting(at) => StopPresents(s, at, choice);
    case Telemetry =>
    case Leaving(at) => StopLeaves(s, at);
  }

  function WorkUntilExit(s: State, choices: seq<bool>): Next
    decreases |choices|
  {
    if s.worker == Leaving(Exited) || choices == [] then Enabled(s)
    else match WorkerNext(s, choices[0])
         case Disabled => Disabled
         case Enabled(t) => WorkUntilExit(t, choices[1..])
  }

  /** stop_frame_worker's join returns, from wherever the worker was, with both phases released. */
  lemma {:induction false} StopJoinReturns(s: State, choices: seq<bool>)
    requires Inv(s) && s.producer == Stopping(StopJoin) && Rank(s.worker) <= |choices|
    ensures WorkUntilExit(s, choices).Enabled?
    ensures var t := WorkUntilExit(s, choices).value;
      t.worker == Leaving(Exited) && t.isSealed && t.ready && ProducerNext(t, true).Enabled?
    decreases |choices|
  {
    if s.worker == Leaving(Exited) {
    } else {
      assert StopRequested(s);
      StopAdvances(s, choices[0]);
      WorkerKeepsInv(s, choices[0]);
      StopJoinReturns(WorkerNext(s, choices[0]).value, choices[1..]);
    }
  }
}
