/** Reconciliation: what a repair decides to rebuild or republish, what it publishes in one transaction,
    and what an inspection of the result then reports. */
module ProductRepair {
  import opened Wrappers
  import opened Installations

  datatype PayloadAction = NoAction | PublishCacheOnly | RebuildRetro

  /** The release's clean-disc hashes; blank when the caller supplies none. */
  datatype Request = Request(snapshot: Option<CompileInputs>, mode: PayloadMode,
                             expectedDol: Digest, expectedRel: Digest, root: nat)

  datatype Decision = Decision(rebuildBase: bool, rebuildRetro: bool, syncPayload: bool,
                               syncBaseAssets: bool, syncRetroAssets: bool, rootChanged: bool)
  {
    predicate Rebuilds() { rebuildBase || rebuildRetro }

    predicate Idle() {
      !rebuildBase && !rebuildRetro && !syncPayload && !syncBaseAssets && !syncRetroAssets && !rootChanged
    }
  }

  // ---- The build script, as a contract ----

  datatype Job = Job(base: bool, retro: bool, dol: nat, rel: nat, assets: Option<Digest>,
                     inputs: Option<CompileInputs>, mode: PayloadMode, payload: Option<Payload>, clean: bool)

  datatype Built = Built(executable: Option<Executable>, local: Option<Local>, assets: Option<Digest>)

  datatype BuildOutcome = ExitedWithError | Finished(base: Built, retro: Built)

  type Builder = Job -> BuildOutcome

  /** Provenance of one product as the build script writes it: its own profile, the translated inputs,
      and support files copied unchanged from the workspace. */
  predicate HonestProduct(built: Built, profile: Profile, job: Job) {
    && (built.local.Some? ==>
          && built.local.value.profile == profile
          && Same(built.local.value.dol, Lower(job.dol))
          && Same(built.local.value.rel, Lower(job.rel)))
    && built.assets == job.assets
  }

  ghost predicate Honest(build: Builder) {
    forall job ::
      build(job).Finished? ==>
        && (job.base ==> HonestProduct(build(job).base, BaseProfile, job))
        && (job.retro ==> HonestProduct(build(job).retro, RetroProfile, job))
  }

  // ---- Planning ----

  function PlanPayload(productMatches: bool, cacheMatches: bool): PayloadAction {
    if !productMatches then RebuildRetro else if cacheMatches then NoAction else PublishCacheOnly
  }

  predicate RequiresCompilation(status: ProductStatus) {
    match status
    case ToolkitChanged => true
    case CodePulChanged => true
    case CompileInputsChanged => true
    case InputsMissing => true
    case Blocked => true
    case Broken => true
    case _ => false
  }

  predicate RecordedRootMatches(s: Site, root: nat) {
    s.configuredRoot == Some(root) && s.installState.Some? && s.installState.value.retroRoot == Some(root)
  }

  predicate ExpectsInputs(request: Request) { !request.expectedDol.Blank? && !request.expectedRel.Blank? }

  predicate Drifted(product: Product, request: Request) {
    && ExpectsInputs(request)
    && product.executable.Some?
    && !ProductUsesGameInputs(product, request.expectedDol, request.expectedRel)
  }

  predicate CacheMatches(s: Site, payload: Payload) { s.cache == Some(payload) }

  function Observed(s: Site, payload: Option<Payload>): Option<bool> {
    if payload.None? then None else Some(CacheMatches(s, payload.value))
  }

  /** The retro product must be produced again. */
  predicate RetroOutdated(s: Site, request: Request, payload: Option<Payload>) {
    var status := CheckRetroRewindCore(s, ResolveToolkitFingerprint(s), request.snapshot, false, Observed(s, payload));
    var installed := ResolveRetroWfcPayloadMode(s);
    || Drifted(s.retro, request)
    || RequiresCompilation(status)
    || status == Absent
    || (payload.Some? && !MatchesRetroWfcPayloadSnapshot(s, payload.value))
    || (HasRetroProduct(s) && installed != NotApplicable && installed != request.mode)
  }

  /** Both the plan of the repair and its meaning: what is decided, flag by flag. */
  predicate Decides(s: Site, request: Request, payload: Option<Payload>, d: Decision) {
    var toolkit := ResolveToolkitFingerprint(s);
    && d.rebuildBase == (RequiresCompilation(CheckBaseCore(s, toolkit)) || Drifted(s.base, request))
    && d.rebuildRetro == (request.snapshot.Some? && RetroOutdated(s, request, payload))
    && d.syncPayload == (payload.Some? && (d.rebuildRetro || !CacheMatches(s, payload.value)))
    && d.syncBaseAssets ==
         (!d.rebuildBase && s.base.executable.Some? && !ValidateCopiedRuntimeAssets(s, s.base, toolkit))
    && d.syncRetroAssets == (!d.rebuildRetro && HasRetroProduct(s) && !ValidateCopiedRuntimeAssets(s, s.retro, toolkit))
    && d.rootChanged == (request.snapshot.Some? && !RecordedRootMatches(s, request.root))
  }

  /** A request as the two entry points make it: Retro Rewind inputs and a payload choice come together,
      and an online choice has a payload in hand. */
  predicate WellFormed(request: Request, payload: Option<Payload>) {
    && (request.snapshot.None? <==> request.mode == NotApplicable)
    && (payload.Some? <==> request.mode == Online)
    && (request.expectedDol.Blank? <==> request.expectedRel.Blank?)
  }

  /** The flags are set step by step; several later steps overrule earlier ones. */
  method Plan(s: Site, request: Request, payload: Option<Payload>) returns (refused: bool, d: Decision)
    requires WellFormed(request, payload)
    ensures !refused ==> Decides(s, request, payload, d)
    ensures refused <==>
              && request.snapshot.None?
              && (Drifted(s.retro, request) ||
                  CheckRetroRewindCore(s, ResolveToolkitFingerprint(s), None, false, None) !in {Current, Absent})
  {
    var toolkit := ResolveToolkitFingerprint(s);
    var productMatches := payload.Some? && MatchesRetroWfcPayloadSnapshot(s, payload.value);
    var observed := Observed(s, payload);
    var action := if payload.None? then NoAction else PlanPayload(productMatches, observed == Some(true));
    var rootChanged := request.snapshot.Some? && !RecordedRootMatches(s, request.root);
    var baseStatus := CheckBaseCore(s, toolkit);
    var retroStatus := CheckRetroRewindCore(s, toolkit, request.snapshot, false, observed);
    var rebuildBase := RequiresCompilation(baseStatus) || Drifted(s.base, request);
    var rebuildRetro, syncPayload := false, false;
    refused := false;
    if request.snapshot.None? {
      if Drifted(s.retro, request) {
        refused := true;
      } else if retroStatus != Current && retroStatus != Absent {
        refused := true;
      }
    } else {
      rebuildRetro := Drifted(s.retro, request) || RequiresCompilation(retroStatus) || retroStatus == Absent;
      syncPayload := retroStatus == PayloadChanged;
      if action == RebuildRetro {
        rebuildRetro, syncPayload := true, true;
      } else if action == PublishCacheOnly {
        syncPayload := true;
      }
      var installed := ResolveRetroWfcPayloadMode(s);
      if HasRetroProduct(s) && installed != NotApplicable && installed != request.mode {
        rebuildRetro := true;
        syncPayload := request.mode == Online;
      }
      if rebuildRetro && request.mode == Online {
        syncPayload := true;
      }
    }
    var syncBase := !rebuildBase && s.base.executable.Some? && !ValidateCopiedRuntimeAssets(s, s.base, toolkit);
    var syncRetro := !rebuildRetro && HasRetroProduct(s) && !ValidateCopiedRuntimeAssets(s, s.retro, toolkit);
    d := Decision(rebuildBase, rebuildRetro, syncPayload, syncBase, syncRetro, rootChanged);
  }

  // ---- Building and publishing ----

  /** Recorded asset identity the installed toolkit vouches for, and the workspace still has. */
  predicate AssetsAuthoritative(s: Site) {
    && s.toolkitState.Some?
    && !s.toolkitState.value.assets.Blank?
    && s.workspaceAssets == Some(s.toolkitState.value.assets)
  }

  function ModeTextOf(mode: PayloadMode): ModeText {
    match mode
    case Online => Downloaded
    case Skip => Skipped
    case NotApplicable => Empty
  }

  function PayloadDigest(payload: Option<Payload>): Digest {
    if payload.Some? then Lower(payload.value.hash) else Blank
  }

  function PayloadLengthOf(payload: Option<Payload>): int {
    if payload.Some? then payload.value.length else 0
  }

  /** The fingerprint written beside a freshly built product; a Retro Rewind build is refused unless its
      own provenance names exactly the inputs that were selected. */
  function WriteFingerprint(built: Built, profile: Profile, toolkit: Digest, job: Job): Option<Product>
    requires built.executable.Some?
    requires profile == RetroProfile ==> job.inputs.Some?
  {
    var dol, rel, exe := Lower(job.dol), Lower(job.rel), Lower(built.executable.value.hash);
    if profile == RetroProfile then
      var codePul := Lower(job.inputs.value.codePul);
      if built.local.None? || !Same(built.local.value.dol, dol) || !Same(built.local.value.rel, rel) ||
         !Same(built.local.value.codePul, codePul) ||
         built.local.value.mode != (if job.mode == Online then Downloaded else Skipped) ||
         !Same(built.local.value.payload, PayloadDigest(job.payload)) ||
         built.local.value.payloadLength != PayloadLengthOf(job.payload)
      then None
      else
        Some(Product(built.executable,
                     Some(Fingerprint(profile, toolkit, dol, rel, exe, codePul, Lower(job.inputs.value.inputs),
                                      ModeTextOf(job.mode), PayloadDigest(job.payload), PayloadLengthOf(job.payload))),
                     built.local, built.assets))
    else
      Some(Product(built.executable,
                   Some(Fingerprint(profile, toolkit, dol, rel, exe, Blank, Blank, Empty, Blank, 0)),
                   built.local, built.assets))
  }

  /** A product built in this operation from the installed game and the selected inputs. */
  predicate FreshlyBuilt(s: Site, request: Request, payload: Option<Payload>, profile: Profile, product: Product) {
    && IsUsable(product.executable)
    && product.assets == s.workspaceAssets
    && product.fingerprint.Some?
    && s.gameDol.Some? && s.gameRel.Some?
    && var f := product.fingerprint.value;
    && f.profile == profile
    && f.toolkit == ResolveToolkitFingerprint(s)
    && f.dol == Lower(s.gameDol.value)
    && f.rel == Lower(s.gameRel.value)
    && f.executable == Lower(product.executable.value.hash)
    && product.local.Some?
    && ValidatesLocal(product.local.value, profile, f)
    && (profile == RetroProfile ==>
          && request.snapshot.Some?
          && f.codePul == Lower(request.snapshot.value.codePul)
          && f.inputs == Lower(request.snapshot.value.inputs)
          && f.mode == ModeTextOf(request.mode)
          && f.payload == PayloadDigest(payload)
          && f.payloadLength == PayloadLengthOf(payload))
    && (profile == BaseProfile ==>
          f.codePul.Blank? && f.inputs.Blank? && f.mode == Empty && f.payload.Blank? && f.payloadLength == 0)
  }

  /** The inputs the translator is given are the installed game's, checked against the expected hashes or,
      without any, against the ones the install state records. */
  predicate TranslationInputs(s: Site, request: Request) {
    && s.gameDol.Some? && s.gameRel.Some?
    && if ExpectsInputs(request) then
         Same(Lower(s.gameDol.value), request.expectedDol) && Same(Lower(s.gameRel.value), request.expectedRel)
       else
         && s.installState.Some? && s.installState.value.schema == 1
         && Same(Lower(s.gameDol.value), s.installState.value.dol)
         && Same(Lower(s.gameRel.value), s.installState.value.rel)
  }

  /** The state a publication starts from: the recorded one, or a new one. */
  function PriorState(s: Site): InstallState {
    if s.installState.Some? then s.installState.value
    else InstallState(1, true, false, Blank, Blank, Blank, Blank, Empty, Blank, 0, None)
  }

  /** The product's own record says how its payload was chosen. */
  predicate NamesMode(product: Product) {
    product.fingerprint.Some? && product.fingerprint.value.mode !in {Null, Empty}
  }

  /** The install state written by a publication, field by field: where each comes from. */
  predicate UpdatedState(s: Site, request: Request, payload: Option<Payload>, d: Decision, state: InstallState) {
    var prior := PriorState(s);
    && state.schema == 1 && state.describesRoot
    && state.retroInstalled == (request.snapshot.Some? || HasRetroProduct(s))
    && (if ExpectsInputs(request) then state.dol == request.expectedDol && state.rel == request.expectedRel
        else state.dol == prior.dol && state.rel == prior.rel)
    && (if request.snapshot.Some? then
          && state.codePul == Lower(request.snapshot.value.codePul)
          && state.inputs == Lower(request.snapshot.value.inputs)
          && state.retroRoot == Some(request.root)
        else
          state.codePul == prior.codePul && state.inputs == prior.inputs && state.retroRoot == prior.retroRoot)
    && (if d.rebuildRetro then
          && state.mode == (if request.mode == Online then Downloaded else Skipped)
          && state.payload == PayloadDigest(payload)
          && state.payloadLength == PayloadLengthOf(payload)
        else if NamesMode(s.retro) then
          var f := s.retro.fingerprint.value;
          state.mode == f.mode && state.payload == f.payload && state.payloadLength == f.payloadLength
        else
          state.mode == prior.mode && state.payload == prior.payload && state.payloadLength == prior.payloadLength)
  }

  method BuildUpdatedInstallState(s: Site, request: Request, payload: Option<Payload>, d: Decision)
    returns (state: InstallState)
    requires WellFormed(request, payload)
    requires d.rebuildRetro ==> request.snapshot.Some?
    ensures UpdatedState(s, request, payload, d, state)
  {
    state := if s.installState.Some? then s.installState.value
             else InstallState(1, true, false, Blank, Blank, Blank, Blank, Empty, Blank, 0, None);
    state := state.(describesRoot := true, schema := 1);
    if !request.expectedDol.Blank? {
      state := state.(dol := request.expectedDol);
    }
    if !request.expectedRel.Blank? {
      state := state.(rel := request.expectedRel);
    }
    state := state.(retroInstalled := request.snapshot.Some? || HasRetroProduct(s));
    if request.snapshot.Some? {
      state := state.(codePul := Lower(request.snapshot.value.codePul),
                      inputs := Lower(request.snapshot.value.inputs));
      state := state.(retroRoot := Some(request.root));
    }
    if d.rebuildRetro {
      state := state.(mode := if request.mode == Online then Downloaded else Skipped);
      state := state.(payload := PayloadDigest(payload), payloadLength := PayloadLengthOf(payload));
    } else if s.retro.fingerprint.Some? && s.retro.fingerprint.value.mode != Null &&
              s.retro.fingerprint.value.mode != Empty {
      state := state.(mode := s.retro.fingerprint.value.mode,
                      payload := s.retro.fingerprint.value.payload,
                      payloadLength := s.retro.fingerprint.value.payloadLength);
    }
  }

  /** The installation one committed publication leaves behind. */
  predicate Repaired(s: Site, request: Request, payload: Option<Payload>, d: Decision, t: Site) {
    && t.hasToolkit == s.hasToolkit && t.toolkitState == s.toolkitState
    && t.compileIdentity == s.compileIdentity && t.workspaceAssets == s.workspaceAssets
    && t.gameDol == s.gameDol && t.gameRel == s.gameRel && t.hasFst == s.hasFst
    && (d.Rebuilds() ==> TranslationInputs(s, request))
    && (if d.rebuildBase then FreshlyBuilt(s, request, payload, BaseProfile, t.base)
        else if d.syncBaseAssets then
          AssetsAuthoritative(s) && t.base == s.base.(assets := Some(s.toolkitState.value.assets))
        else t.base == s.base)
    && (if d.rebuildRetro then FreshlyBuilt(s, request, payload, RetroProfile, t.retro)
        else if d.syncRetroAssets then
          AssetsAuthoritative(s) && t.retro == s.retro.(assets := Some(s.toolkitState.value.assets))
        else t.retro == s.retro)
    && (if d.syncPayload then t.cache == payload
        else if d.rebuildRetro then t.cache == None
        else t.cache == s.cache)
    && (if d.Rebuilds() || request.snapshot.Some? then
          t.installState.Some? && UpdatedState(s, request, payload, d, t.installState.value)
        else t.installState == s.installState)
    && t.configuredRoot == (if request.snapshot.Some? then Some(request.root) else s.configuredRoot)
  }

  // ---- Convergence ----

  predicate Operable(s: Site) { s.hasToolkit && !ResolveToolkitFingerprint(s).Blank? }

  function VerifiedOnlinePayloadCache(s: Site): Option<bool> {
    if HasRetroProduct(s) && ResolveRetroWfcPayloadMode(s) == Online then Some(true) else None
  }

  /** What the final inspection of a repair reports, with the observation the repair hands it. */
  predicate Clean(t: Site, request: Request) {
    var toolkit := ResolveToolkitFingerprint(t);
    && CheckBase(t, toolkit) == Current
    && CheckRetroRewind(t, toolkit, request.snapshot, false, VerifiedOnlinePayloadCache(t)) in {Current, Absent}
  }

  /** The two things a rebuild relies on without checking them: the extracted disc's file table, and
      support files in the workspace that are the ones the toolkit records. */
  predicate Repairable(s: Site, d: Decision) {
    d.Rebuilds() ==> s.hasFst && AssetsAuthoritative(s)
  }

  lemma BaseAfter(s: Site, request: Request, payload: Option<Payload>, d: Decision, t: Site)
    requires Operable(s) && WellFormed(request, payload) && Decides(s, request, payload, d)
    requires Repaired(s, request, payload, d, t)
    ensures CheckBase(t, ResolveToolkitFingerprint(t)) == Current <==>
              s.hasFst && (d.rebuildBase ==> AssetsAuthoritative(s))
  {
    var toolkit := ResolveToolkitFingerprint(s);
    BaseCurrentExactly(s, toolkit);
    BaseCurrentExactly(t, toolkit);
  }

  lemma RetroAfterRebuild(s: Site, request: Request, payload: Option<Payload>, d: Decision, t: Site)
    requires Operable(s) && WellFormed(request, payload) && Decides(s, request, payload, d)
    requires Repaired(s, request, payload, d, t) && d.rebuildRetro
    ensures (CheckRetroRewindCore(t, ResolveToolkitFingerprint(t), request.snapshot, false,
                                  VerifiedOnlinePayloadCache(t)) == Current) <==> s.hasFst
    ensures ValidateCopiedRuntimeAssets(t, t.retro, ResolveToolkitFingerprint(t)) <==> AssetsAuthoritative(s)
  {
    var toolkit, observed := ResolveToolkitFingerprint(t), VerifiedOnlinePayloadCache(t);
    RetroCurrentExactly(t, toolkit, request.snapshot, observed);
    assert Proven(t, t.retro, RetroProfile, toolkit) <==> s.hasFst;
    assert InputsProven(t, request.snapshot);
    assert PayloadProven(t, observed);
  }

  /** A Retro Rewind product that is left alone keeps its status, or gains it when only the payload
      cache was wrong. */
  lemma RetroAfterKeeping(s: Site, request: Request, payload: Option<Payload>, d: Decision, t: Site)
    requires Operable(s) && WellFormed(request, payload) && Decides(s, request, payload, d)
    requires request.snapshot.None? ==>
               !Drifted(s.retro, request) &&
               CheckRetroRewindCore(s, ResolveToolkitFingerprint(s), None, false, None) in {Current, Absent}
    requires Repaired(s, request, payload, d, t) && !d.rebuildRetro && HasRetroProduct(s)
    ensures CheckRetroRewind(t, ResolveToolkitFingerprint(t), request.snapshot, false, VerifiedOnlinePayloadCache(t))
              == Current
  {
    var toolkit, observed := ResolveToolkitFingerprint(s), VerifiedOnlinePayloadCache(t);
    RetroCurrentExactly(s, toolkit, request.snapshot, Observed(s, payload));
    RetroCurrentExactly(s, toolkit, request.snapshot, Some(true));
    RetroCurrentExactly(t, toolkit, request.snapshot, observed);
    assert Proven(s, s.retro, RetroProfile, toolkit);
    assert Proven(t, t.retro, RetroProfile, toolkit);
    assert InputsProven(t, request.snapshot);
    assert PayloadProven(t, observed);
  }

  lemma RetroAfter(s: Site, request: Request, payload: Option<Payload>, d: Decision, t: Site)
    requires Operable(s) && WellFormed(request, payload) && Decides(s, request, payload, d)
    requires request.snapshot.None? ==>
               !Drifted(s.retro, request) &&
               CheckRetroRewindCore(s, ResolveToolkitFingerprint(s), None, false, None) in {Current, Absent}
    requires Repaired(s, request, payload, d, t)
    ensures CheckRetroRewind(t, ResolveToolkitFingerprint(t), request.snapshot, false, VerifiedOnlinePayloadCache(t))
              in {Current, Absent} <==>
              (d.rebuildRetro ==> s.hasFst && AssetsAuthoritative(s))
  {
    if d.rebuildRetro {
      RetroAfterRebuild(s, request, payload, d, t);
      assert HasRetroProduct(t);
    } else if HasRetroProduct(s) {
      RetroAfterKeeping(s, request, payload, d, t);
    } else {
      assert request.snapshot.None?;
    }
  }

  predicate Refused(s: Site, request: Request) {
    && request.snapshot.None?
    && (Drifted(s.retro, request) ||
        CheckRetroRewindCore(s, ResolveToolkitFingerprint(s), None, false, None) !in {Current, Absent})
  }

  predicate Planned(s: Site, request: Request, payload: Option<Payload>, d: Decision) {
    Operable(s) && WellFormed(request, payload) && Decides(s, request, payload, d) && !Refused(s, request)
  }

  /** A committed repair makes the inspection clean exactly when nothing was rebuilt, or the disc's file
      table is present and the workspace's support files are the recorded ones. */
  lemma Converges(s: Site, request: Request, payload: Option<Payload>, d: Decision, t: Site)
    requires Planned(s, request, payload, d)
    requires Repaired(s, request, payload, d, t)
    ensures Clean(t, request) <==> Repairable(s, d)
  {
    BaseAfter(s, request, payload, d, t);
    RetroAfter(s, request, payload, d, t);
    BaseCurrentExactly(s, ResolveToolkitFingerprint(s));
  }

  /** Taking the already-current branch is only possible when the inspection is already clean. */
  lemma IdleIsClean(s: Site, request: Request, payload: Option<Payload>, d: Decision)
    requires Planned(s, request, payload, d)
    requires d.Idle()
    ensures Clean(s, request)
  {
    var toolkit := ResolveToolkitFingerprint(s);
    BaseCurrentExactly(s, toolkit);
    RetroCurrentExactly(s, toolkit, request.snapshot, Observed(s, payload));
    RetroCurrentExactly(s, toolkit, request.snapshot, VerifiedOnlinePayloadCache(s));
  }

  /** The same repair again finds nothing to do, exactly when the first one made the inspection clean. */
  lemma SecondRepairIsIdle(s: Site, request: Request, payload: Option<Payload>, d: Decision, t: Site, again: Decision)
    requires Planned(s, request, payload, d)
    requires Repaired(s, request, payload, d, t)
    requires Decides(t, request, payload, again)
    ensures Repairable(s, d) ==> !Refused(t, request) && again.Idle()
    ensures !Refused(t, request) && again.Idle() ==> Repairable(s, d)
  {
    Converges(s, request, payload, d, t);
    if Repairable(s, d) {
      CleanIsIdle(s, request, payload, d, t, again);
    } else if !Refused(t, request) && again.Idle() {
      IdleIsClean(t, request, payload, again);
    }
  }

  lemma NotRefusedAfter(s: Site, request: Request, payload: Option<Payload>, d: Decision, t: Site)
    requires Planned(s, request, payload, d) && Repaired(s, request, payload, d, t)
    ensures !Refused(t, request)
  {
    if request.snapshot.None? {
      var toolkit := ResolveToolkitFingerprint(s);
      RetroCurrentExactly(s, toolkit, None, None);
      RetroCurrentExactly(t, toolkit, None, None);
    }
  }

  lemma CleanIsIdle(s: Site, request: Request, payload: Option<Payload>, d: Decision, t: Site, again: Decision)
    requires Planned(s, request, payload, d)
    requires Repaired(s, request, payload, d, t) && Clean(t, request)
    requires Decides(t, request, payload, again)
    ensures !Refused(t, request) && again.Idle()
  {
    var toolkit := ResolveToolkitFingerprint(t);
    BaseCurrentExactly(s, toolkit);
    BaseCurrentExactly(t, toolkit);
    assert !again.rebuildBase && !again.syncBaseAssets && !again.syncRetroAssets && !again.rootChanged;
    PayloadInPlace(s, request, payload, d, t);
    NotRefusedAfter(s, request, payload, d, t);
    if request.snapshot.Some? {
      RetroStaysCurrent(s, request, payload, d, t);
    }
  }

  lemma PayloadInPlace(s: Site, request: Request, payload: Option<Payload>, d: Decision, t: Site)
    requires Planned(s, request, payload, d) && Repaired(s, request, payload, d, t)
    ensures payload.Some? ==> MatchesRetroWfcPayloadSnapshot(t, payload.value) && CacheMatches(t, payload.value)
  {
  }

  lemma RetroStaysCurrent(s: Site, request: Request, payload: Option<Payload>, d: Decision, t: Site)
    requires Planned(s, request, payload, d) && Repaired(s, request, payload, d, t) && Clean(t, request)
    requires request.snapshot.Some?
    ensures !RetroOutdated(t, request, payload)
  {
    var toolkit := ResolveToolkitFingerprint(t);
    RetroCurrentExactly(t, toolkit, request.snapshot, VerifiedOnlinePayloadCache(t));
    RetroCurrentExactly(t, toolkit, request.snapshot, Observed(t, payload));
    PayloadInPlace(s, request, payload, d, t);
    NoDriftAfter(s, request, payload, d, t);
    assert ResolveRetroWfcPayloadMode(t) in {NotApplicable, request.mode};
  }

  lemma NoDriftAfter(s: Site, request: Request, payload: Option<Payload>, d: Decision, t: Site)
    requires Planned(s, request, payload, d) && Repaired(s, request, payload, d, t)
    ensures !Drifted(t.retro, request)
  {
    if d.rebuildRetro {
      assert FreshlyBuilt(s, request, payload, RetroProfile, t.retro);
    }
  }

  /** When a repair claims the online payload cache was verified, the cache holds the payload the product
      names, provided the product's record has the payload's own length; a base repair needs the
      product's fingerprint, rather than the install state, to be what says "downloaded". */
  lemma VerifiedCacheHolds(s: Site, request: Request, payload: Option<Payload>, d: Decision, t: Site)
    requires Planned(s, request, payload, d)
    requires Repaired(s, request, payload, d, t) || (d.Idle() && t == s)
    requires VerifiedOnlinePayloadCache(t) == Some(true)
    ensures t.retro.fingerprint.Some?
    ensures request.snapshot.Some? ==>
              (CacheHolds(t, t.retro.fingerprint.value) <==>
               t.retro.fingerprint.value.payloadLength == payload.value.length)
    ensures request.snapshot.Some? && d.rebuildRetro ==> CacheHolds(t, t.retro.fingerprint.value)
    ensures request.snapshot.None? && t.retro.fingerprint.value.mode == Downloaded ==>
              CacheHolds(t, t.retro.fingerprint.value)
  {
    var toolkit := ResolveToolkitFingerprint(s);
    RetroCurrentExactly(s, toolkit, request.snapshot, Observed(s, payload));
  }

  function WithCache(s: Site, cache: Option<Payload>): Site { s.(cache := cache) }

  /** A base operation, committed or idle, that reports the payload cache as verified. */
  predicate ReportsVerified(s: Site, request: Request, d: Decision, t: Site) {
    && request.snapshot.None? && Planned(s, request, None, d)
    && (Repaired(s, request, None, d, t) || (d.Idle() && t == s))
    && VerifiedOnlinePayloadCache(t) == Some(true)
  }

  /** Whatever stands in the cache, or nothing, a base operation whose product does not itself say
      "downloaded" takes the same course and reports the cache as verified. */
  lemma CacheUnseen(s: Site, request: Request, d: Decision, t: Site, cache: Option<Payload>)
    requires ReportsVerified(s, request, d, t) && t.retro.fingerprint.Some?
    requires t.retro.fingerprint.value.mode != Downloaded
    ensures ReportsVerified(WithCache(s, cache), request, d, WithCache(t, cache))
  {
    var toolkit := ResolveToolkitFingerprint(s);
    RetroCurrentExactly(s, toolkit, None, None);
    RetroCurrentExactly(WithCache(s, cache), toolkit, None, None);
  }

  /** The report of a base operation can be relied upon exactly when the product's own fingerprint says
      "downloaded": then no cache but the named payload lets the operation get that far. */
  lemma ReportSoundExactly(s: Site, request: Request, d: Decision, t: Site)
    requires ReportsVerified(s, request, d, t)
    ensures t.retro.fingerprint.Some?
    ensures t.retro.fingerprint.value.mode == Downloaded <==>
            forall cache :: ReportsVerified(WithCache(s, cache), request, d, WithCache(t, cache)) ==>
                              CacheHolds(WithCache(t, cache), t.retro.fingerprint.value)
  {
    VerifiedCacheHolds(s, request, None, d, t);
    if t.retro.fingerprint.value.mode == Downloaded {
      forall cache | ReportsVerified(WithCache(s, cache), request, d, WithCache(t, cache))
        ensures CacheHolds(WithCache(t, cache), t.retro.fingerprint.value)
      {
        VerifiedCacheHolds(WithCache(s, cache), request, None, d, WithCache(t, cache));
      }
    } else {
      CacheUnseen(s, request, d, t, None);
      assert !CacheHolds(WithCache(t, None), t.retro.fingerprint.value);
    }
  }

  /** No product that a repair builds is of the doubtful kind: it names its own choice. */
  lemma FreshProductNamesMode(s: Site, request: Request, payload: Option<Payload>, product: Product)
    requires WellFormed(request, payload) && FreshlyBuilt(s, request, payload, RetroProfile, product)
    ensures NamesMode(product)
    ensures product.fingerprint.value.mode == Downloaded <==> payload.Some?
  {
  }

  // ---- Where the code does not converge ----

  function SampleProduct(profile: Profile, exe: nat, assets: Digest): Product {
    var sum, text := Lower(exe), if profile == BaseProfile then Empty else Skipped;
    var pul := if profile == BaseProfile then Blank else Lower(7);
    Product(Some(Executable(exe, MINIMUM_EXECUTABLE)),
            Some(Fingerprint(profile, Lower(1), Lower(2), Lower(3), sum, pul, pul, text, Blank, 0)),
            Some(Local(profile, Lower(2), Lower(3), pul, if profile == BaseProfile then Null else Skipped, Blank, 0)),
            Some(assets))
  }

  /** A complete installation of both products, apart from what the arguments choose. */
  function SampleSite(hasFst: bool, workspaceAssets: Digest, productAssets: Digest, toolkit: Digest): Site {
    var base, retro := SampleProduct(BaseProfile, 4, productAssets), SampleProduct(RetroProfile, 5, productAssets);
    Site(true, Some(ToolkitState(toolkit, Lower(6), Lower(8))), toolkit, Some(workspaceAssets),
         Some(InstallState(1, true, true, Lower(2), Lower(3), Lower(7), Lower(7), Skipped, Blank, 0, Some(0))),
         base, retro, Some(2), Some(3), hasFst, Some(2), Some(3), None, Some(0))
  }

  function SampleBuilt(profile: Profile, exe: nat, job: Job): Built {
    var codePul := if profile == BaseProfile || job.inputs.None? then Blank else Lower(job.inputs.value.codePul);
    Built(Some(Executable(exe, MINIMUM_EXECUTABLE)),
          Some(Local(profile, Lower(job.dol), Lower(job.rel), codePul,
                     if profile == BaseProfile then Null else Skipped, Blank, 0)),
          job.assets)
  }

  /** A build script that always succeeds. */
  function SampleBuilder(): Builder {
    job => Finished(SampleBuilt(BaseProfile, 4, job), SampleBuilt(RetroProfile, 5, job))
  }

  function CalmSurroundings(): Surroundings { Surroundings(true, false, true, false, true) }

  const SKIP_REQUEST := Request(Some(CompileInputs(7, 7)), Skip, Blank, Blank, 0)
  const REBUILD_BOTH := Decision(true, true, false, false, false, false)

  lemma SampleBuilderIsHonest()
    ensures Honest(SampleBuilder())
  {
  }

  /** The build script carries a rebuild of both sample products through. */
  lemma SampleIsFeasible(hasFst: bool, workspaceAssets: Digest, toolkit: Digest)
    requires !toolkit.Blank?
    ensures Feasible(SampleSite(hasFst, workspaceAssets, Lower(8), toolkit), SKIP_REQUEST, None, REBUILD_BOTH,
                     SampleBuilder(), CalmSurroundings())
  {
    var s := SampleSite(hasFst, workspaceAssets, Lower(8), toolkit);
    var job := JobFor(s, SKIP_REQUEST, None, REBUILD_BOTH, ForcesClean(s, SKIP_REQUEST, None, REBUILD_BOTH));
    assert SampleBuilder()(job) == Finished(SampleBuilt(BaseProfile, 4, job), SampleBuilt(RetroProfile, 5, job));
  }

  /** A missing fst.bin: with a build script that does all that is asked, everything is rebuilt and
      committed, the products are still blocked, and the next repair rebuilds everything again. */
  lemma MissingFileTableNeverConverges()
    ensures
      var s := SampleSite(false, Lower(8), Lower(8), Lower(1));
      && Honest(SampleBuilder()) && Feasible(s, SKIP_REQUEST, None, REBUILD_BOTH, SampleBuilder(), CalmSurroundings())
      && Planned(s, SKIP_REQUEST, None, REBUILD_BOTH) && Repaired(s, SKIP_REQUEST, None, REBUILD_BOTH, s)
      && CheckBase(s, Lower(1)) == Blocked
  {
    SampleBuilderIsHonest();
    SampleIsFeasible(false, Lower(8), Lower(1));
  }

  function MadeBy(product: Product, toolkit: Digest): Product
    requires product.fingerprint.Some?
  {
    product.(fingerprint := Some(product.fingerprint.value.(toolkit := toolkit)))
  }

  lemma NewToolkitRebuildsBoth(workspaceAssets: Digest, toolkit: Digest)
    requires !toolkit.Blank? && toolkit != Lower(1)
    ensures Planned(SampleSite(true, workspaceAssets, Lower(8), toolkit), SKIP_REQUEST, None, REBUILD_BOTH)
  {
    var s := SampleSite(true, workspaceAssets, Lower(8), toolkit);
    assert CheckBaseCore(s, toolkit) == ToolkitChanged;
    assert CheckRetroRewindCore(s, toolkit, SKIP_REQUEST.snapshot, false, None) == ToolkitChanged;
  }

  /** The sample site after both products were rebuilt with another toolkit. */
  function RebuiltSample(workspaceAssets: Digest, toolkit: Digest): Site {
    var s := SampleSite(true, workspaceAssets, workspaceAssets, toolkit);
    s.(base := MadeBy(s.base, toolkit), retro := MadeBy(s.retro, toolkit))
  }

  lemma SampleRebuilt(workspaceAssets: Digest, toolkit: Digest)
    requires !toolkit.Blank?
    ensures Repaired(SampleSite(true, workspaceAssets, Lower(8), toolkit), SKIP_REQUEST, None, REBUILD_BOTH,
                     RebuiltSample(workspaceAssets, toolkit))
  {
  }

  /** A changed support file in the workspace: a toolkit change rebuilds both products with it, and both
      are then reported broken. */
  lemma ChangedWorkspaceAssetsShipAsBroken()
    ensures
      var s, t := SampleSite(true, Lower(9), Lower(8), Lower(10)), RebuiltSample(Lower(9), Lower(10));
      && Honest(SampleBuilder()) && Feasible(s, SKIP_REQUEST, None, REBUILD_BOTH, SampleBuilder(), CalmSurroundings())
      && Planned(s, SKIP_REQUEST, None, REBUILD_BOTH) && Repaired(s, SKIP_REQUEST, None, REBUILD_BOTH, t)
      && CheckBase(t, Lower(10)) == Broken
  {
    SampleBuilderIsHonest();
    SampleIsFeasible(true, Lower(9), Lower(10));
    NewToolkitRebuildsBoth(Lower(9), Lower(10));
    SampleRebuilt(Lower(9), Lower(10));
  }

  /** A product that records no payload mode beside a state that says "downloaded": a base operation
      reports the cache as verified although there is none. The two records of such a product come from
      elsewhere: neither the build script nor a repair writes a blank mode for Retro Rewind
      (FreshProductNamesMode), but the inspector accepts one that both records agree on. */
  lemma BlankModeReportsAnUncheckedCache()
    ensures
      var sample := SampleSite(true, Lower(8), Lower(8), Lower(1));
      var retro := sample.retro.(fingerprint := Some(sample.retro.fingerprint.value.(mode := Empty)),
                                 local := Some(sample.retro.local.value.(mode := Empty)));
      var s := sample.(retro := retro, installState := Some(sample.installState.value.(mode := Downloaded)));
      var request := Request(None, NotApplicable, Blank, Blank, 0);
      && ReportsVerified(s, request, Decision(false, false, false, false, false, false), s) && s.cache == None
  {
  }

  // ---- The operation ----

  predicate SameExceptInputs(s: Site, t: Site) {
    t == s.(workspaceDol := t.workspaceDol, workspaceRel := t.workspaceRel)
  }

  lemma RepairedFromInputs(s: Site, ready: Site, request: Request, payload: Option<Payload>, d: Decision, t: Site)
    requires SameExceptInputs(s, ready) && Repaired(ready, request, payload, d, t)
    ensures Repaired(s, request, payload, d, t)
  {
    assert d.Rebuilds() || request.snapshot.Some? ==> UpdatedState(s, request, payload, d, t.installState.value);
    assert d.rebuildBase ==> FreshlyBuilt(s, request, payload, BaseProfile, t.base);
    assert d.rebuildRetro ==> FreshlyBuilt(s, request, payload, RetroProfile, t.retro);
  }

  /** After a finished first repair, committed or not, the second is idle exactly when the first one's
      installation was repairable. */
  lemma SecondIsIdle(s: Site, request: Request, payload: Option<Payload>, d: Decision, t: Site, again: Decision)
    requires Planned(s, request, payload, d)
    requires if d.Idle() then t == s else Repaired(s, request, payload, d, t)
    ensures Operable(t)
    ensures Repairable(s, d) ==> !Refused(t, request)
    ensures Decides(t, request, payload, again) ==> (!Refused(t, request) && again.Idle() <==> Repairable(s, d))
  {
    if !d.Idle() {
      if Decides(t, request, payload, again) {
        SecondRepairIsIdle(s, request, payload, d, t, again);
      }
      Converges(s, request, payload, d, t);
      RetroAfter(s, request, payload, d, t);
      if Repairable(s, d) {
        NotRefusedAfter(s, request, payload, d, t);
      }
    }
  }

  /** The job a plan gives the build script. */
  function JobFor(s: Site, request: Request, payload: Option<Payload>, d: Decision, clean: bool): Job
    requires s.gameDol.Some? && s.gameRel.Some?
  {
    Job(d.rebuildBase, d.rebuildRetro, s.gameDol.value, s.gameRel.value, s.workspaceAssets, request.snapshot,
        request.mode, payload, clean)
  }

  /** A damaged or unprovable product is rebuilt without any cache. */
  predicate ForcesClean(s: Site, request: Request, payload: Option<Payload>, d: Decision) {
    var toolkit := ResolveToolkitFingerprint(s);
    var retroStatus := CheckRetroRewindCore(s, toolkit, request.snapshot, false, Observed(s, payload));
    var baseStatus := CheckBaseCore(s, toolkit);
    || (d.rebuildBase && (baseStatus == Broken || baseStatus == Blocked))
    || (d.rebuildRetro && (retroStatus == Broken || retroStatus == Blocked))
  }

  /** The inputs the translator needs are installed and are the expected ones. */
  predicate InputsReady(s: Site, request: Request) {
    && TranslationInputs(s, request)
    && !(if ExpectsInputs(request) then request.expectedDol else s.installState.value.dol).Blank?
  }

  /** What the build script gives for a job, with the one clean retry. */
  function Attempted(build: Builder, job: Job): BuildOutcome {
    if build(job).ExitedWithError? && !job.clean then build(job.(clean := true)) else build(job)
  }

  predicate Usable(built: Built, profile: Profile, toolkit: Digest, job: Job)
    requires profile == RetroProfile ==> job.inputs.Some?
  {
    IsUsable(built.executable) && built.local.Some? && WriteFingerprint(built, profile, toolkit, job).Some?
  }

  /** A build that gives every product of the plan, usable and from the selected inputs. */
  predicate Delivers(build: Builder, toolkit: Digest, job: Job)
    requires job.retro ==> job.inputs.Some?
  {
    var outcome := Attempted(build, job);
    && outcome.Finished?
    && (job.base ==> Usable(outcome.base, BaseProfile, toolkit, job))
    && (job.retro ==> Usable(outcome.retro, RetroProfile, toolkit, job))
  }

  /** What a plan's builds need: nothing, if there are none. */
  predicate BuildFeasible(s: Site, request: Request, payload: Option<Payload>, d: Decision, build: Builder,
                          world: Surroundings)
    requires d.rebuildRetro ==> request.snapshot.Some?
  {
    d.Rebuilds() ==>
      && world.enoughSpace && s.compileIdentity == ResolveToolkitFingerprint(s) && InputsReady(s, request)
      && Delivers(build, ResolveToolkitFingerprint(s),
                  JobFor(s, request, payload, d, ForcesClean(s, request, payload, d)))
  }

  predicate PublicationFeasible(s: Site, d: Decision, world: Surroundings) {
    && (d.syncBaseAssets || d.syncRetroAssets ==> AssetsAuthoritative(s))
    && !world.runningAtPublication && world.publicationSucceeds
  }

  /** Everything outside the program's control that a plan needs in order to be carried out. */
  predicate Feasible(s: Site, request: Request, payload: Option<Payload>, d: Decision, build: Builder,
                     world: Surroundings)
    requires d.rebuildRetro ==> request.snapshot.Some?
  {
    BuildFeasible(s, request, payload, d, build, world) && PublicationFeasible(s, d, world)
  }

  datatype Outcome = Failed | Done(committed: bool, observed: Option<bool>)

  /** What the surroundings do during one operation. */
  datatype Surroundings = Surroundings(present: bool, running: bool, enoughSpace: bool,
                                       runningAtPublication: bool, publicationSucceeds: bool)

  class ProductRepairService {
    var site: Site

    constructor (s: Site)
      ensures site == s
    {
      site := s;
    }

    /** Copies the installed game's two translation inputs into the workspace, each checked first. */
    method RefreshTranslationAssets(request: Request) returns (ok: bool)
      requires request.expectedDol.Blank? <==> request.expectedRel.Blank?
      modifies this
      ensures SameExceptInputs(old(site), site)
      ensures ok <==> InputsReady(old(site), request)
      ensures ok ==> site.workspaceDol == old(site).gameDol && site.workspaceRel == old(site).gameRel
    {
      var dol, rel := request.expectedDol, request.expectedRel;
      if dol.Blank? && rel.Blank? {
        var known := site.installState.Some? && site.installState.value.schema == 1;
        dol := if known then site.installState.value.dol else Blank;
        rel := if known then site.installState.value.rel else Blank;
      }
      if dol.Blank? || rel.Blank? {
        return false;
      }
      if site.gameDol.None? || !Same(Lower(site.gameDol.value), dol) {
        return false;
      }
      if !(site.workspaceDol.Some? && Same(Lower(site.workspaceDol.value), dol)) {
        site := site.(workspaceDol := site.gameDol);
      }
      if site.gameRel.None? || !Same(Lower(site.gameRel.value), rel) {
        return false;
      }
      if !(site.workspaceRel.Some? && Same(Lower(site.workspaceRel.value), rel)) {
        site := site.(workspaceRel := site.gameRel);
      }
      return true;
    }

    /** One build, retried cleanly once when an incremental one exits with an error. */
    method BuildWithCleanRetry(build: Builder, job: Job) returns (outcome: BuildOutcome)
      requires Honest(build)
      ensures outcome == Attempted(build, job)
      ensures build(job).Finished? ==> outcome == build(job)
      ensures outcome.Finished? <==> build(job).Finished? || (!job.clean && build(job.(clean := true)).Finished?)
      ensures build(job).ExitedWithError? && !job.clean ==> outcome == build(job.(clean := true))
      ensures outcome.Finished? && job.base ==> HonestProduct(outcome.base, BaseProfile, job)
      ensures outcome.Finished? && job.retro ==> HonestProduct(outcome.retro, RetroProfile, job)
    {
      outcome := build(job);
      if outcome.ExitedWithError? && !job.clean {
        outcome := build(job.(clean := true));
      }
    }

    /** Builds one product out of a finished build, or nothing when the output is not usable. */
    method Finish(built: Built, profile: Profile, request: Request, payload: Option<Payload>, job: Job)
      returns (product: Option<Product>)
      requires HonestProduct(built, profile, job) && profile != UnknownProfile
      requires site.gameDol == Some(job.dol) && site.gameRel == Some(job.rel) && job.assets == site.workspaceAssets
      requires profile == RetroProfile ==>
                 job.inputs == request.snapshot && job.inputs.Some? && job.mode == request.mode &&
                 job.mode != NotApplicable && job.payload == payload
      ensures product.Some? ==> FreshlyBuilt(site, request, payload, profile, product.value)
      ensures product.Some? <==> Usable(built, profile, ResolveToolkitFingerprint(site), job)
    {
      if !IsUsable(built.executable) || built.local.None? {
        return None;
      }
      product := WriteFingerprint(built, profile, ResolveToolkitFingerprint(site), job);
    }

    /** Builds what the decision asks for, from checked inputs. */
    method BuildProducts(request: Request, payload: Option<Payload>, d: Decision, clean: bool, build: Builder)
      returns (ok: bool, base: Option<Product>, retro: Option<Product>)
      requires WellFormed(request, payload) && Honest(build)
      requires d.rebuildRetro ==> request.snapshot.Some?
      modifies this
      ensures SameExceptInputs(old(site), site)
      ensures ok <==> InputsReady(old(site), request) &&
                      Delivers(build, ResolveToolkitFingerprint(old(site)),
                               JobFor(old(site), request, payload, d, clean))
      ensures ok ==> TranslationInputs(site, request)
      ensures ok ==> base.Some? == d.rebuildBase && retro.Some? == d.rebuildRetro
      ensures ok && d.rebuildBase ==> FreshlyBuilt(site, request, payload, BaseProfile, base.value)
      ensures ok && d.rebuildRetro ==> FreshlyBuilt(site, request, payload, RetroProfile, retro.value)
    {
      base, retro := None, None;
      ok := RefreshTranslationAssets(request);
      if !ok {
        return;
      }
      var job := Job(d.rebuildBase, d.rebuildRetro, site.workspaceDol.value, site.workspaceRel.value,
                     site.workspaceAssets, request.snapshot, request.mode, payload, clean);
      assert job == JobFor(old(site), request, payload, d, clean);
      var outcome := BuildWithCleanRetry(build, job);
      if outcome.ExitedWithError? {
        return false, None, None;
      }
      if d.rebuildBase {
        base := Finish(outcome.base, BaseProfile, request, payload, job);
        ok := base.Some?;
      }
      if ok && d.rebuildRetro {
        retro := Finish(outcome.retro, RetroProfile, request, payload, job);
        ok := retro.Some?;
      }
    }

    /** Collects everything the repair decided into one publication and performs it. */
    method PublishProducts(request: Request, payload: Option<Payload>, d: Decision,
                           base: Option<Product>, retro: Option<Product>, world: Surroundings)
      returns (ok: bool)
      requires WellFormed(request, payload)
      requires d.rebuildRetro ==> request.snapshot.Some?
      requires d.syncPayload ==> payload.Some?
      requires d.rebuildRetro && request.mode == Online ==> d.syncPayload
      requires d.rebuildBase ==> !d.syncBaseAssets
      requires d.rebuildRetro ==> !d.syncRetroAssets
      requires d.Rebuilds() ==> TranslationInputs(site, request)
      requires base.Some? == d.rebuildBase && retro.Some? == d.rebuildRetro
      requires d.rebuildBase ==> FreshlyBuilt(site, request, payload, BaseProfile, base.value)
      requires d.rebuildRetro ==> FreshlyBuilt(site, request, payload, RetroProfile, retro.value)
      modifies this
      ensures ok ==> Repaired(old(site), request, payload, d, site)
      ensures site == old(site).(base := site.base, retro := site.retro, cache := site.cache,
                                 installState := site.installState, configuredRoot := site.configuredRoot)
      ensures !ok ==> site == old(site)
      ensures ok <==> PublicationFeasible(old(site), d, world)
    {
      var next := site;
      if base.Some? {
        next := next.(base := base.value);
      }
      if retro.Some? {
        next := next.(retro := retro.value);
      }
      if d.syncBaseAssets || d.syncRetroAssets {
        if !AssetsAuthoritative(site) {
          return false;
        }
        var assets := Some(site.toolkitState.value.assets);
        if d.syncBaseAssets {
          next := next.(base := next.base.(assets := assets));
        }
        if d.syncRetroAssets {
          next := next.(retro := next.retro.(assets := assets));
        }
      }
      if d.syncPayload {
        next := next.(cache := payload);
      }
      if retro.Some? && request.mode == Skip {
        next := next.(cache := None);
      }
      if base.Some? || retro.Some? || request.snapshot.Some? {
        var state := BuildUpdatedInstallState(site, request, payload, d);
        next := next.(installState := Some(state));
      }
      if request.snapshot.Some? {
        next := next.(configuredRoot := Some(request.root));
      }
      if world.runningAtPublication || !world.publicationSucceeds {
        return false;
      }
      site := next;
      return true;
    }

    /** The build half of a plan, if it has one. */
    method Prepare(request: Request, payload: Option<Payload>, d: Decision, build: Builder, world: Surroundings)
      returns (ok: bool, base: Option<Product>, retro: Option<Product>)
      requires WellFormed(request, payload) && Honest(build) && (d.rebuildRetro ==> request.snapshot.Some?)
      modifies this
      ensures SameExceptInputs(old(site), site)
      ensures ok <==> BuildFeasible(old(site), request, payload, d, build, world)
      ensures ok && d.Rebuilds() ==> TranslationInputs(site, request)
      ensures ok ==> base.Some? == d.rebuildBase && retro.Some? == d.rebuildRetro
      ensures ok && d.rebuildBase ==> FreshlyBuilt(site, request, payload, BaseProfile, base.value)
      ensures ok && d.rebuildRetro ==> FreshlyBuilt(site, request, payload, RetroProfile, retro.value)
    {
      base, retro := None, None;
      if !d.rebuildBase && !d.rebuildRetro {
        return true, None, None;
      }
      if !world.enoughSpace || site.compileIdentity != ResolveToolkitFingerprint(site) {
        return false, None, None;
      }
      ok, base, retro := BuildProducts(request, payload, d, ForcesClean(site, request, payload, d), build);
    }

    /** Carries out a plan that has something to do. */
    method Execute(request: Request, payload: Option<Payload>, d: Decision, build: Builder, world: Surroundings)
      returns (ok: bool)
      requires Planned(site, request, payload, d) && Honest(build)
      modifies this
      ensures ok <==> Feasible(old(site), request, payload, d, build, world)
      ensures !ok ==> SameExceptInputs(old(site), site)
      ensures ok ==> Repaired(old(site), request, payload, d, site)
    {
      var base, retro;
      ok, base, retro := Prepare(request, payload, d, build, world);
      if !ok {
        return;
      }
      ghost var ready := site;
      ok := PublishProducts(request, payload, d, base, retro, world);
      if ok {
        RepairedFromInputs(old(site), ready, request, payload, d, site);
      }
    }

    /** Reconciles the installation with the request. A failure leaves the installation as it was, up to
        the workspace's own copies of the game inputs. */
    method Reconcile(request: Request, payload: Option<Payload>, build: Builder, world: Surroundings)
      returns (r: Outcome, d: Decision)
      requires WellFormed(request, payload) && Honest(build)
      modifies this
      ensures r.Failed? ==> SameExceptInputs(old(site), site)
      ensures r.Done? ==> Planned(old(site), request, payload, d)
      ensures r.Done? ==>
                && r.observed == VerifiedOnlinePayloadCache(site)
                && (r.committed <==> !d.Idle())
                && (if r.committed then Repaired(old(site), request, payload, d, site) else site == old(site))
      ensures r.Done? ==> (Clean(site, request) <==> Repairable(old(site), d))
      ensures r.Done? ==> world.present && !world.running
      ensures r.Failed? && world.present && !world.running && Operable(old(site)) && !Refused(old(site), request) ==>
                && Planned(old(site), request, payload, d) && !d.Idle()
                && !Feasible(old(site), request, payload, d, build, world)
    {
      d := Decision(false, false, false, false, false, false);
      if !world.present || !site.hasToolkit || world.running || ResolveToolkitFingerprint(site).Blank? {
        return Failed, d;
      }
      var refused;
      refused, d := Plan(site, request, payload);
      if refused {
        return Failed, d;
      }
      if d.Idle() {
        IdleIsClean(site, request, payload, d);
        return Done(false, VerifiedOnlinePayloadCache(site)), d;
      }
      var ok := Execute(request, payload, d, build, world);
      if !ok {
        return Failed, d;
      }
      Converges(old(site), request, payload, d, site);
      return Done(true, VerifiedOnlinePayloadCache(site)), d;
    }

    /** The same repair twice in a row: the second finds nothing to do exactly when the first one could
        make the inspection clean. */
    method RepairTwice(request: Request, payload: Option<Payload>, build: Builder, world: Surroundings)
      returns (first: Outcome, second: Outcome, d: Decision)
      requires WellFormed(request, payload) && Honest(build)
      modifies this
      ensures first.Done? && Repairable(old(site), d) ==> second.Done? && !second.committed && Clean(site, request)
      ensures first.Done? && !Repairable(old(site), d) ==> second.Failed? || second.committed
    {
      first, d := Reconcile(request, payload, build, world);
      second := first;
      if first.Done? {
        ghost var t := site;
        var again;
        second, again := Reconcile(request, payload, build, world);
        SecondIsIdle(old(site), request, payload, d, t, again);
      }
    }
  }
}
