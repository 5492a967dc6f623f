/** The installer's product inspector: what is recorded on disk about an installation, and how the
    nine product statuses are read off it. Files are reduced to what the inspector reads of them. */
module Installations {
  import opened Wrappers

  /** A SHA-256 text as some record spells it. Hashes the program computes itself are lower case;
      records and release manifests may use capitals. */
  datatype Digest = Blank | Digest(hash: nat, upper: bool)

  function Lower(hash: nat): Digest { Digest(hash, false) }

  /** Comparison that ignores letter case; comparison with `==` is the ordinal one. */
  predicate Same(a: Digest, b: Digest) {
    match a
    case Blank => b.Blank?
    case Digest(hash, _) => b.Digest? && b.hash == hash
  }

  datatype ModeText = Null | Empty | Downloaded | Skipped | Other

  datatype PayloadMode = NotApplicable | Online | Skip

  datatype Profile = BaseProfile | RetroProfile | UnknownProfile

  /** A payload file that passed the size and signature check. */
  type PayloadLength = n: nat | 0x130 <= n <= 0x100_0000 witness 0x130
  datatype Payload = Payload(hash: nat, length: PayloadLength)

  datatype CompileInputs = CompileInputs(codePul: nat, inputs: nat)

  datatype Executable = Executable(hash: nat, length: nat)

  /** build-fingerprint.json of a product; only the supported schema is ever returned by the reader. */
  datatype Fingerprint = Fingerprint(
    profile: Profile, toolkit: Digest, dol: Digest, rel: Digest, executable: Digest,
    codePul: Digest, inputs: Digest,
    mode: ModeText, payload: Digest, payloadLength: int)

  /** local-build.json, written by the build script next to the executable. */
  datatype Local = Local(
    profile: Profile, dol: Digest, rel: Digest, codePul: Digest,
    mode: ModeText, payload: Digest, payloadLength: int)

  datatype Product = Product(
    executable: Option<Executable>, fingerprint: Option<Fingerprint>, local: Option<Local>,
    assets: Option<Digest>)

  datatype InstallState = InstallState(
    schema: int, describesRoot: bool, retroInstalled: bool, dol: Digest, rel: Digest,
    codePul: Digest, inputs: Digest,
    mode: ModeText, payload: Digest, payloadLength: int, retroRoot: Option<nat>)

  datatype ToolkitState = ToolkitState(toolkit: Digest, package: Digest, assets: Digest)

  datatype Site = Site(
    hasToolkit: bool, toolkitState: Option<ToolkitState>, compileIdentity: Digest,
    workspaceAssets: Option<Digest>,
    installState: Option<InstallState>,
    base: Product, retro: Product,
    gameDol: Option<nat>, gameRel: Option<nat>, hasFst: bool,
    workspaceDol: Option<nat>, workspaceRel: Option<nat>,
    cache: Option<Payload>, configuredRoot: Option<nat>)

  datatype ProductStatus =
    | Absent | Current | ToolkitChanged | CodePulChanged | CompileInputsChanged
    | PayloadChanged | InputsMissing | Blocked | Broken

  const MINIMUM_EXECUTABLE := 64 * 1024

  predicate IsUsable(executable: Option<Executable>) {
    executable.Some? && executable.value.length >= MINIMUM_EXECUTABLE
  }

  predicate HasRetroProduct(s: Site) { s.retro.executable.Some? }

  function ResolveToolkitFingerprint(s: Site): Digest {
    if s.toolkitState.Some? && !s.toolkitState.value.toolkit.Blank? && !s.toolkitState.value.package.Blank? &&
       s.hasToolkit
    then s.toolkitState.value.toolkit
    else Blank
  }

  predicate HasUsableToolkit(s: Site, toolkit: Digest) { s.hasToolkit && !toolkit.Blank? }

  /** The install state, unless its schema is unsupported or it describes another directory. */
  function ReadCurrentInstallState(s: Site): Option<InstallState> {
    if s.installState.Some? && s.installState.value.schema == 1 && s.installState.value.describesRoot
    then s.installState
    else None
  }

  predicate ValidatesLocal(local: Local, profile: Profile, f: Fingerprint) {
    && local.profile == profile
    && Same(local.dol, f.dol)
    && Same(local.rel, f.rel)
    && (profile == RetroProfile ==>
          local.mode == f.mode && Same(local.payload, f.payload) && local.payloadLength == f.payloadLength)
  }

  predicate ValidateProductProvenance(s: Site, product: Product, profile: Profile, f: Fingerprint,
                                      state: InstallState)
  {
    if f.profile != profile || f.dol.Blank? || f.rel.Blank? || f.executable.Blank? then false
    else if !IsUsable(product.executable) then false
    else if !Same(Lower(product.executable.value.hash), f.executable) then false
    else if s.gameDol.None? || s.gameRel.None? || !s.hasFst then false
    else
      var dol, rel := Lower(s.gameDol.value), Lower(s.gameRel.value);
      if !Same(dol, f.dol) || !Same(rel, f.rel) || !Same(dol, state.dol) || !Same(rel, state.rel) then false
      else product.local.Some? && ValidatesLocal(product.local.value, profile, f)
  }

  predicate ValidateCopiedRuntimeAssets(s: Site, product: Product, toolkit: Digest) {
    && s.toolkitState.Some?
    && s.toolkitState.value.toolkit == toolkit
    && !s.toolkitState.value.assets.Blank?
    && product.assets == Some(s.toolkitState.value.assets)
  }

  function CheckBaseCore(s: Site, toolkit: Digest): ProductStatus {
    var state := ReadCurrentInstallState(s);
    if !IsUsable(s.base.executable) then Broken
    else if !HasUsableToolkit(s, toolkit) then Blocked
    else if state.None? then Blocked
    else if s.base.fingerprint.None? then Blocked
    else if s.base.fingerprint.value.toolkit != toolkit then ToolkitChanged
    else if ValidateProductProvenance(s, s.base, BaseProfile, s.base.fingerprint.value, state.value) then Current
    else Blocked
  }

  function CheckBase(s: Site, toolkit: Digest): ProductStatus {
    var status := CheckBaseCore(s, toolkit);
    if status != Current then status
    else if ValidateCopiedRuntimeAssets(s, s.base, toolkit) then Current
    else Broken
  }

  /** Whether the cached payload file is the one the product's fingerprint names. */
  predicate CacheHolds(s: Site, f: Fingerprint) {
    && s.cache.Some?
    && Same(Lower(s.cache.value.hash), f.payload)
    && s.cache.value.length == f.payloadLength
  }

  /** `observed` is an observation of the cache the operation already paid for, or nothing. */
  function CheckPayloadCache(s: Site, f: Fingerprint, state: InstallState, observed: Option<bool>): ProductStatus {
    if f.payload.Blank? || f.payloadLength <= 0 || state.payload.Blank? || state.payloadLength <= 0 then Blocked
    else match observed
      case Some(matches) => if matches then Current else PayloadChanged
      case None => if CacheHolds(s, f) then Current else PayloadChanged
  }

  predicate CompileInputsRecorded(f: Fingerprint, state: InstallState) {
    && !f.codePul.Blank? && !f.inputs.Blank?
    && Same(state.codePul, f.codePul) && Same(state.inputs, f.inputs)
  }

  function CheckRetroRewindCore(s: Site, toolkit: Digest, canonical: Option<CompileInputs>,
                                canonicalError: bool, observed: Option<bool>): ProductStatus {
    var state := ReadCurrentInstallState(s);
    var recorded := state.Some? && state.value.retroInstalled;
    if (HasRetroProduct(s) || recorded) && !HasUsableToolkit(s, toolkit) then Blocked
    else if !HasRetroProduct(s) then if recorded then Broken else Absent
    else if canonicalError then InputsMissing
    else if s.retro.fingerprint.None? then Blocked
    else
      var f := s.retro.fingerprint.value;
      if f.toolkit != toolkit then ToolkitChanged
      else if state.None? then Blocked
      else if !ValidateProductProvenance(s, s.retro, RetroProfile, f, state.value) then Blocked
      else if !CompileInputsRecorded(f, state.value) then Blocked
      else if canonical.Some? && !Same(Lower(canonical.value.codePul), f.codePul) then CodePulChanged
      else if canonical.Some? && !Same(Lower(canonical.value.inputs), f.inputs) then CompileInputsChanged
      else if f.mode == Downloaded then CheckPayloadCache(s, f, state.value, observed)
      else Current
  }

  function CheckRetroRewind(s: Site, toolkit: Digest, canonical: Option<CompileInputs>,
                            canonicalError: bool, observed: Option<bool>): ProductStatus {
    var status := CheckRetroRewindCore(s, toolkit, canonical, canonicalError, observed);
    if status != Current then status
    else if ValidateCopiedRuntimeAssets(s, s.retro, toolkit) then Current
    else Broken
  }

  predicate ProductUsesGameInputs(product: Product, dol: Digest, rel: Digest) {
    && product.fingerprint.Some?
    && Same(product.fingerprint.value.dol, dol)
    && Same(product.fingerprint.value.rel, rel)
  }

  function ModeOf(text: ModeText): PayloadMode {
    match text
    case Downloaded => Online
    case Skipped => Skip
    case _ => NotApplicable
  }

  /** The payload choice the installation was built with: the product's, or the install state's when
      the product records none. */
  function ResolveRetroWfcPayloadMode(s: Site): PayloadMode {
    var recorded := if s.retro.fingerprint.Some? then s.retro.fingerprint.value.mode else Null;
    ModeOf(if recorded != Null && recorded != Empty then recorded
           else if s.installState.Some? then s.installState.value.mode
           else Null)
  }

  predicate MatchesRetroWfcPayloadSnapshot(s: Site, payload: Payload) {
    var state := ReadCurrentInstallState(s);
    && s.retro.fingerprint.Some? && s.retro.fingerprint.value.mode == Downloaded
    && state.Some? && state.value.mode == Downloaded
    && s.retro.fingerprint.value.payload == Lower(payload.hash)
    && state.value.payload == Lower(payload.hash)
  }

  /** The verified payload an offline operation may reuse from the installation itself. */
  function RecoverInstalledPayload(s: Site): Option<Payload> {
    if s.retro.fingerprint.None? || s.installState.None? then None
    else
      var f, state := s.retro.fingerprint.value, s.installState.value;
      if f.mode != Downloaded || state.mode != Downloaded || f.payload.Blank? || f.payload != state.payload ||
         f.payloadLength <= 0
      then None
      else if s.cache.None? || s.cache.value.length != f.payloadLength || Lower(s.cache.value.hash) != f.payload
      then None
      else s.cache
  }

  // ---- What the statuses mean ----

  /** A product whose recorded provenance chain is unbroken: its own executable, the installed game
      and the install state all agree with one fingerprint made by this toolkit. */
  predicate Proven(s: Site, product: Product, profile: Profile, toolkit: Digest) {
    && HasUsableToolkit(s, toolkit)
    && ReadCurrentInstallState(s).Some?
    && product.fingerprint.Some?
    && product.fingerprint.value.toolkit == toolkit
    && ValidateProductProvenance(s, product, profile, product.fingerprint.value, s.installState.value)
  }

  /** The base product is current exactly when it is proven and its copied support files are the
      release's; the inspector gives one of four answers. */
  lemma BaseCurrentExactly(s: Site, toolkit: Digest)
    ensures CheckBaseCore(s, toolkit) == Current <==> Proven(s, s.base, BaseProfile, toolkit)
    ensures CheckBase(s, toolkit) == Current <==>
              Proven(s, s.base, BaseProfile, toolkit) && ValidateCopiedRuntimeAssets(s, s.base, toolkit)
    ensures CheckBase(s, toolkit) in {Broken, Blocked, ToolkitChanged, Current}
  {
  }

  /** What the inspector demands of the Retro Rewind payload records, given what was observed. */
  predicate PayloadProven(s: Site, observed: Option<bool>)
    requires s.retro.fingerprint.Some? && s.installState.Some?
  {
    var f, state := s.retro.fingerprint.value, s.installState.value;
    f.mode == Downloaded ==>
      && !f.payload.Blank? && f.payloadLength > 0
      && !state.payload.Blank? && state.payloadLength > 0
      && (observed == Some(true) || (observed == None && CacheHolds(s, f)))
  }

  predicate InputsProven(s: Site, canonical: Option<CompileInputs>)
    requires s.retro.fingerprint.Some? && s.installState.Some?
  {
    var f := s.retro.fingerprint.value;
    && CompileInputsRecorded(f, s.installState.value)
    && (canonical.Some? ==> Same(Lower(canonical.value.codePul), f.codePul) &&
                            Same(Lower(canonical.value.inputs), f.inputs))
  }

  lemma RetroCurrentExactly(s: Site, toolkit: Digest, canonical: Option<CompileInputs>, observed: Option<bool>)
    ensures CheckRetroRewindCore(s, toolkit, canonical, false, observed) == Current <==>
              && HasRetroProduct(s)
              && Proven(s, s.retro, RetroProfile, toolkit)
              && InputsProven(s, canonical)
              && PayloadProven(s, observed)
  {
  }

  /** A payload reused from the installation itself is the cached file, and asks for no payload work
      unless the install state describes another directory. */
  lemma RecoveredPayloadIsTheCache(s: Site)
    requires RecoverInstalledPayload(s).Some?
    ensures s.cache == RecoverInstalledPayload(s)
    ensures MatchesRetroWfcPayloadSnapshot(s, s.cache.value) <==> ReadCurrentInstallState(s).Some?
  {
  }
}
