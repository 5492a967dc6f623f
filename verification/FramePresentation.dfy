/**
  What becomes of a frame (aurora.cpp): over every run of the frame worker and its producer each posted
  frame was drained, is presented once and in order, and begins ImGui's next frame.
 */
module FramePresentation {
  import opened FrameWorker

  /** Each frame at most once, in order, and none before it was posted. */
  predicate InOrder(presented: seq<nat>, cycle: nat) {
    && (forall i :: 0 <= i < |presented| ==> 0 < presented[i] <= cycle)
    && (forall i, j :: 0 <= i < j < |presented| ==> presented[i] < presented[j])
  }

  /** The current frame has been handed over, as the last one so far. */
  predicate Shown(s: State) {
    s.film.presented != [] && s.film.presented[|s.film.presented| - 1] == s.cycle
  }

  /** The current frame has not been handed over. */
  predicate Unshown(s: State) {
    0 < s.cycle && InOrder(s.film.presented, s.cycle - 1)
  }

  predicate SealFilm(s: State, at: SealAt) {
    match at
    case SealStart => Unshown(s)
    case SealHolding => Unshown(s)
    case EarlyPresent => Unshown(s) && !s.overlap && s.film.encoded == s.cycle
    case PrepareWait => if s.overlap then Unshown(s) && s.film.frame == s.cycle else Shown(s)
  }

  predicate PrepareFilm(s: State, at: PrepareAt) {
    && (if s.overlap then Unshown(s) && s.film.frame == s.cycle else Shown(s))
    && (at == PublishStart || at == PublishSealed ==>
          s.prepared ==> if s.overlap then s.film.owed else s.film.imgui == s.cycle)
  }

  predicate PresentFilm(s: State, at: PresentAt) {
    match at
    case Encoding => Unshown(s) && s.film.frame == s.cycle && (s.prepared ==> s.film.owed)
    case Publishing => Unshown(s) && s.film.encoded == s.cycle && (s.prepared ==> s.film.owed)
    case NewFrameStart => Shown(s)
    case NewFrameHolding => Shown(s)
    case ReadyStore => Shown(s) && (s.prepared ==> s.film.imgui == s.cycle)
  }

  /** What is on film while the worker is where it is. */
  predicate WorkerFilm(s: State) {
    match s.worker
    case Sealing(at) => SealFilm(s, at) && s.film.drained == s.cycle
    case Preparing(at) => PrepareFilm(s, at) && s.film.drained == s.cycle
    case Presenting(at) => PresentFilm(s, at) && s.film.drained == s.cycle
    case _ => true
  }

  /** end_frame has drained and not posted yet. */
  predicate Posting(p: ProducerAt) { p == Ending(EndClear) || p == Ending(EndClearReady) }

  predicate ProducerFilm(s: State) {
    && (s.jobPending ==> Unshown(s) && s.film.drained == s.cycle)
    && (Posting(s.producer) ==> s.film.drained == s.cycle + 1)
  }

  predicate FilmOk(s: State) {
    InOrder(s.film.presented, s.cycle) && WorkerFilm(s) && ProducerFilm(s)
  }

  // ---------- what every step keeps ----------

  lemma ShowsNext(presented: seq<nat>, cycle: nat)
    requires 0 < cycle && InOrder(presented, cycle - 1)
    ensures InOrder(presented + [cycle], cycle) && (presented + [cycle])[|presented|] == cycle
  {
  }

  lemma {:induction false} SealKeepsFilm(s: State, at: SealAt, choice: bool)
    requires Inv(s) && FilmOk(s) && s.worker == Sealing(at) && SealNext(s, at, choice).Enabled?
    ensures FilmOk(SealNext(s, at, choice).value)
  {
    match at
    case SealStart =>
    case SealHolding => if s.overlap {} else {}
    case EarlyPresent => ShowsNext(s.film.presented, s.cycle);
    case PrepareWait => if s.stop {} else if s.prepareAllowed {} else {}
  }

  lemma {:induction false} PrepareKeepsFilm(s: State, at: PrepareAt, choice: bool)
    requires Inv(s) && FilmOk(s) && s.worker == Preparing(at) && PrepareNext(s, at, choice).Enabled?
    ensures FilmOk(PrepareNext(s, at, choice).value)
  {
    match at
    case PrepareStart =>
    case PrepareHolding =>
    case PublishStart =>
    case PublishSealed => if s.overlap {} else {}
  }

  lemma {:induction false} PresentKeepsFilm(s: State, at: PresentAt, choice: bool)
    requires Inv(s) && FilmOk(s) && s.worker == Presenting(at) && PresentNext(s, at, choice).Enabled?
    ensures FilmOk(PresentNext(s, at, choice).value)
  {
    match at
    case Encoding =>
    case Publishing => ShowsNext(s.film.presented, s.cycle);
    case NewFrameStart =>
    case NewFrameHolding =>
    case ReadyStore =>
  }

  /** The step is none of the film's business. */
  predicate Aside(s: State, t: State) {
    && t.film == s.film && t.cycle == s.cycle && (t.jobPending ==> s.jobPending)
    && (!InCycle(t.worker) || (t.worker == s.worker && t.overlap == s.overlap && t.prepared == s.prepared))
    && (Posting(t.producer) ==> Posting(s.producer))
  }

  lemma AsideKeepsFilm(s: State, t: State)
    requires FilmOk(s) && Aside(s, t)
    ensures FilmOk(t)
  {
  }

  /** A frame taken up was posted and drained, and not shown yet. */
  lemma JobTaken(s: State, t: State)
    requires FilmOk(s) && s.jobPending && t == s.(worker := Sealing(SealStart), jobPending := false)
    ensures FilmOk(t)
  {
  }

  lemma {:induction false} JobKeepsFilm(s: State)
    requires FilmOk(s) && s.worker == JobWait && JobNext(s).Enabled?
    ensures FilmOk(JobNext(s).value)
  {
    if !s.stop && s.jobPending {
      JobTaken(s, JobNext(s).value);
    } else {
      JobIsAside(s);
      AsideKeepsFilm(s, JobNext(s).value);
    }
  }

  lemma {:induction false} JobIsAside(s: State)
    requires FilmOk(s) && s.worker == JobWait && JobNext(s).Enabled? && (s.stop || !s.jobPending)
    ensures Aside(s, JobNext(s).value)
  {
    if s.stop {} else {}
  }

  lemma {:induction false} LeaveKeepsFilm(s: State, at: LeaveAt)
    requires FilmOk(s) && s.worker == Leaving(at) && LeaveNext(s, at).Enabled?
    ensures FilmOk(LeaveNext(s, at).value)
  {
    if at == ReleaseStart {} else {}
  }

  lemma {:induction false} WorkerKeepsFilm(s: State, choice: bool)
    requires Inv(s) && FilmOk(s) && WorkerNext(s, choice).Enabled?
    ensures FilmOk(WorkerNext(s, choice).value)
  {
    match s.worker
    case JobWait => JobKeepsFilm(s);
    case Sealing(at) => SealKeepsFilm(s, at, choice);
    case Preparing(at) => PrepareKeepsFilm(s, at, choice);
    case Presenting(at) => PresentKeepsFilm(s, at, choice);
    case Telemetry => assert !InCycle(WorkerNext(s, choice).value.worker);
    case Leaving(at) => LeaveKeepsFilm(s, at);
  }

  lemma {:induction false} BeginIsAside(s: State, at: BeginAt, choice: bool)
    requires s.producer == Beginning(at) && BeginNext(s, at, choice).Enabled?
    ensures Aside(s, BeginNext(s, at, choice).value)
  {
    match at
    case BeginEnsure => if s.started {} else {}
    case BeginCheck => if !s.ready {} else if s.framePrepared {} else {}
    case BeginJoin =>
    case BeginRead =>
  }

  lemma {:induction false} SyncIsAside(s: State, at: SyncAt, choice: bool)
    requires SyncNext(s, at, choice).Enabled?
    ensures Aside(s, SyncNext(s, at, choice).value)
  {
    match at
    case SyncStart =>
    case SyncHolding =>
    case SyncStore =>
  }

  lemma {:induction false} DrainIsAside(s: State, at: DrainAt)
    requires DrainNext(s, at).Enabled?
    ensures Aside(s, DrainNext(s, at).value)
  {
    match at
    case DrainJoin =>
    case DrainStart =>
    case DrainHolding =>
  }

  lemma {:induction false} StopIsAside(s: State, at: StopAt)
    requires s.producer == Stopping(at) && StopNext(s, at).Enabled?
    ensures Aside(s, StopNext(s, at).value)
  {
    match at
    case StopSet => StopSetIsAside(s);
    case StopNotify =>
    case StopJoin =>
    case StopFinish => StopFinishIsAside(s);
  }

  lemma {:induction false} StopSetIsAside(s: State)
    requires StopNext(s, StopSet).Enabled?
    ensures Aside(s, StopNext(s, StopSet).value)
  {
    if s.started {} else {}
  }

  lemma {:induction false} StopFinishIsAside(s: State)
    requires StopNext(s, StopFinish).Enabled?
    ensures Aside(s, StopNext(s, StopFinish).value)
  {
    assert StopNext(s, StopFinish).value.worker == NotRunning;
  }

  lemma {:induction false} EndIsAside(s: State, at: EndAt)
    requires s.producer == Ending(at) && EndNext(s, at).Enabled? && at != EndDraining && at != EndClearReady
    ensures Aside(s, EndNext(s, at).value)
  {
    match at
    case EndEnsure => if s.started {} else {}
    case EndJoin =>
    case EndDrainStart =>
    case EndClear =>
    case EndNotify =>
  }

  /** end_frame drains what it is about to post, and posts it, only when no frame is on its way. */
  lemma {:induction false} EndKeepsFilm(s: State, at: EndAt)
    requires Inv(s) && FilmOk(s) && s.producer == Ending(at) && EndNext(s, at).Enabled?
    ensures FilmOk(EndNext(s, at).value)
  {
    if at == EndDraining || at == EndClearReady {
      assert !InCycle(s.worker) && !s.jobPending;
    } else {
      EndIsAside(s, at);
      AsideKeepsFilm(s, EndNext(s, at).value);
    }
  }

  lemma {:induction false} ProducerKeepsFilm(s: State, choice: bool)
    requires Inv(s) && FilmOk(s) && ProducerNext(s, choice).Enabled?
    ensures FilmOk(ProducerNext(s, choice).value)
  {
    if s.producer.Ending? {
      EndKeepsFilm(s, s.producer.end);
    } else {
      ProducerIsAside(s, choice);
      AsideKeepsFilm(s, ProducerNext(s, choice).value);
    }
  }

  lemma {:induction false} ProducerIsAside(s: State, choice: bool)
    requires ProducerNext(s, choice).Enabled? && !s.producer.Ending?
    ensures Aside(s, ProducerNext(s, choice).value)
  {
    match s.producer
    case Beginning(at) => BeginIsAside(s, at, choice);
    case SyncPreparing(at) => SyncIsAside(s, at, choice);
    case JoiningDone =>
    case Draining(at) => DrainIsAside(s, at);
    case Stopping(at) => StopIsAside(s, at);
  }

  lemma {:induction false} CallIsAside(s: State, a: Action)
    requires Step(s, a).Enabled? && !a.WorkerStep? && !a.ProducerStep?
    ensures Aside(s, Step(s, a).value)
  {
  }

  lemma {:induction false} StepKeepsFilm(s: State, a: Action)
    requires Inv(s) && FilmOk(s) && Step(s, a).Enabled?
    ensures FilmOk(Step(s, a).value)
  {
    match a
    case WorkerStep(choice) => WorkerKeepsFilm(s, choice);
    case ProducerStep(choice) => ProducerKeepsFilm(s, choice);
    case _ =>
      CallIsAside(s, a);
      AsideKeepsFilm(s, Step(s, a).value);
  }

  lemma {:induction false} RunKeepsFilm(s: State, actions: seq<Action>)
    requires Inv(s) && FilmOk(s) && Run(s, actions).Enabled?
    ensures Inv(Run(s, actions).value) && FilmOk(Run(s, actions).value)
    decreases |actions|
  {
    if actions == [] {
    } else {
      StepKeepsInv(s, actions[0]);
      StepKeepsFilm(s, actions[0]);
      RunKeepsFilm(Step(s, actions[0]).value, actions[1..]);
    }
  }

  // ---------- over all runs ----------

  /** In every run, stopped or not, frames are presented in order and each at most once. */
  lemma {:induction false} PresentedInOrder(actions: seq<Action>, i: nat, j: nat)
    requires Run(INITIAL, actions).Enabled? && i < j < |Run(INITIAL, actions).value.film.presented|
    ensures var s := Run(INITIAL, actions).value;
      0 < s.film.presented[i] < s.film.presented[j] <= s.cycle
  {
    RunKeepsFilm(INITIAL, actions);
  }

  function Times(frames: seq<nat>, frame: nat): nat {
    if frames == [] then 0 else Times(frames[..|frames| - 1], frame) + (if frames[|frames| - 1] == frame then 1 else 0)
  }

  lemma {:induction false} NeverIn(frames: seq<nat>, frame: nat)
    requires forall i :: 0 <= i < |frames| ==> frames[i] < frame
    ensures Times(frames, frame) == 0
  {
    if frames == [] {
    } else {
      NeverIn(frames[..|frames| - 1], frame);
    }
  }

  lemma ShownOnce(s: State)
    requires InOrder(s.film.presented, s.cycle) && Shown(s)
    ensures Times(s.film.presented, s.cycle) == 1
  {
    var front := s.film.presented[..|s.film.presented| - 1];
    assert forall i :: 0 <= i < |front| ==> front[i] == s.film.presented[i] < s.cycle;
    NeverIn(front, s.cycle);
  }

  /** The step at which a cycle reaches DONE: the worker raises the flag, and not because it is told to stop. */
  predicate ReachesDone(s: State, t: State) { !s.ready && t.ready && !t.stop }

  /** When a cycle reaches DONE its frame has been presented exactly once, and a frame whose successor was
      prepared has begun ImGui's next frame. */
  lemma {:induction false} DoneMeansPresented(actions: seq<Action>, choice: bool)
    requires Run(INITIAL, actions).Enabled? && WorkerNext(Run(INITIAL, actions).value, choice).Enabled?
    requires ReachesDone(Run(INITIAL, actions).value, WorkerNext(Run(INITIAL, actions).value, choice).value)
    ensures var t := WorkerNext(Run(INITIAL, actions).value, choice).value;
      && Times(t.film.presented, t.cycle) == 1
      && t.film.presented[|t.film.presented| - 1] == t.cycle
      && (t.prepared ==> t.film.imgui == t.cycle)
  {
    var s := Run(INITIAL, actions).value;
    RunKeepsFilm(INITIAL, actions);
    DoneIsShown(s, choice);
    WorkerKeepsFilm(s, choice);
    ShownOnce(WorkerNext(s, choice).value);
  }

  lemma {:induction false} DoneIsShown(s: State, choice: bool)
    requires Inv(s) && FilmOk(s) && WorkerNext(s, choice).Enabled? && ReachesDone(s, WorkerNext(s, choice).value)
    ensures var t := WorkerNext(s, choice).value; Shown(t) && (t.prepared ==> t.film.imgui == t.cycle)
  {
    match s.worker
    case Sealing(at) => SealNeverRaisesReady(s, at, choice);
    case Preparing(at) => PreparedIsShown(s, at, choice);
    case Presenting(at) => PresentedIsShown(s, at, choice);
    case JobWait => JobNeverRaisesReady(s);
    case Telemetry =>
    case Leaving(at) => LeavingIsStopped(s, at);
  }

  lemma {:induction false} PreparedIsShown(s: State, at: PrepareAt, choice: bool)
    requires FilmOk(s) && s.worker == Preparing(at) && PrepareNext(s, at, choice).Enabled?
    requires !s.ready && PrepareNext(s, at, choice).value.ready
    ensures var t := PrepareNext(s, at, choice).value; Shown(t) && (t.prepared ==> t.film.imgui == t.cycle)
  {
    match at
    case PrepareStart =>
    case PrepareHolding =>
    case PublishStart =>
    case PublishSealed => if s.overlap {} else {}
  }

  lemma {:induction false} PresentedIsShown(s: State, at: PresentAt, choice: bool)
    requires FilmOk(s) && s.worker == Presenting(at) && PresentNext(s, at, choice).Enabled?
    requires !s.ready && PresentNext(s, at, choice).value.ready
    ensures var t := PresentNext(s, at, choice).value; Shown(t) && (t.prepared ==> t.film.imgui == t.cycle)
  {
    match at
    case Encoding =>
    case Publishing =>
    case NewFrameStart =>
    case NewFrameHolding =>
    case ReadyStore =>
  }

  /** A cycle without overlap has presented its frame before it waits for leave to prepare the next; an
      overlapped one has not presented it while SEALED is down. */
  lemma {:induction false} WhenPresented(actions: seq<Action>)
    requires Run(INITIAL, actions).Enabled? && InCycle(Run(INITIAL, actions).value.worker)
    ensures var s := Run(INITIAL, actions).value;
      && (!s.overlap && (s.worker == Sealing(PrepareWait) || !s.worker.Sealing?) ==>
            Times(s.film.presented, s.cycle) == 1)
      && (s.worker == Sealing(SealStart) || (s.overlap && !s.isSealed) ==> Times(s.film.presented, s.cycle) == 0)
      && s.film.drained == s.cycle
  {
    var s := Run(INITIAL, actions).value;
    RunKeepsFilm(INITIAL, actions);
    if Shown(s) {
      ShownOnce(s);
    }
    if Unshown(s) {
      NeverIn(s.film.presented, s.cycle);
    }
  }

  /** Whatever the worker presents is the current frame, in an overlapped cycle after SEALED. */
  lemma {:induction false} PresentsCurrent(actions: seq<Action>, choice: bool)
    requires Run(INITIAL, actions).Enabled? && WorkerNext(Run(INITIAL, actions).value, choice).Enabled?
    ensures var s, t := Run(INITIAL, actions).value, WorkerNext(Run(INITIAL, actions).value, choice).value;
      t.film.presented != s.film.presented ==>
        t.film.presented == s.film.presented + [s.cycle] && (s.overlap <==> s.isSealed) && !s.ready
  {
    var s := Run(INITIAL, actions).value;
    RunKeepsFilm(INITIAL, actions);
    match s.worker
    case Sealing(at) => SealPresents(s, at, choice);
    case Preparing(at) => PreparePresents(s, at, choice);
    case Presenting(at) =>
    case JobWait => JobPresents(s);
    case Telemetry =>
    case Leaving(at) => LeavePresents(s, at);
  }

  lemma {:induction false} SealPresents(s: State, at: SealAt, choice: bool)
    requires Inv(s) && FilmOk(s) && s.worker == Sealing(at) && SealNext(s, at, choice).Enabled?
    ensures var t := SealNext(s, at, choice).value;
      t.film.presented == s.film.presented
      || (t.film.presented == s.film.presented + [s.cycle] && !s.overlap && !s.isSealed && !s.ready)
  {
    match at
    case SealStart =>
    case SealHolding => if s.overlap {} else {}
    case EarlyPresent =>
    case PrepareWait => if s.stop {} else if s.prepareAllowed {} else {}
  }

  lemma {:induction false} PreparePresents(s: State, at: PrepareAt, choice: bool)
    requires PrepareNext(s, at, choice).Enabled?
    ensures PrepareNext(s, at, choice).value.film.presented == s.film.presented
  {
    match at
    case PrepareStart =>
    case PrepareHolding =>
    case PublishStart =>
    case PublishSealed => if s.overlap {} else {}
  }

  lemma {:induction false} JobPresents(s: State)
    requires JobNext(s).Enabled?
    ensures JobNext(s).value.film.presented == s.film.presented
  {
    if s.stop {} else if s.jobPending {} else {}
  }

  lemma {:induction false} LeavePresents(s: State, at: LeaveAt)
    requires LeaveNext(s, at).Enabled?
    ensures LeaveNext(s, at).value.film.presented == s.film.presented
  {
    if at == ReleaseStart {} else {}
  }
}
