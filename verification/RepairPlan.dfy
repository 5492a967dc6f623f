/** What a repair decides to do, read off the records of the installation alone: when a product is
    built again, when it is built cleanly, and that the payload cache never causes a build. */
module RepairPlan {
  import opened Wrappers
  import opened Installations
  import opened ProductRepair

  // ---- Reading the records ----

  /** The digest is there and spells the hash, in either case. */
  predicate Spells(text: Digest, hash: nat) {
    text.Digest? && text.hash == hash
  }

  /** The installed game, with its file table, is the one that the digests name. */
  predicate NamesGame(s: Site, dol: Digest, rel: Digest) {
    s.gameDol.Some? && s.gameRel.Some? && s.hasFst && Spells(dol, s.gameDol.value) && Spells(rel, s.gameRel.value)
  }

  /** The state file is of the supported schema and was written for this directory. */
  predicate StateStands(s: Site) {
    s.installState.Some? && s.installState.value.schema == 1 && s.installState.value.describesRoot
  }

  /** An executable of at least 64 KiB. */
  predicate LargeEnough(product: Product) {
    product.executable.Some? && product.executable.value.length >= 65536
  }

  /** The fingerprint names its own executable, and the fingerprint, the state and the build's own
      record all name the installed game. */
  predicate RecordsAgree(s: Site, product: Product, profile: Profile, f: Fingerprint, state: InstallState) {
    && f.profile == profile && LargeEnough(product) && Spells(f.executable, product.executable.value.hash)
    && NamesGame(s, f.dol, f.rel) && NamesGame(s, state.dol, state.rel)
    && product.local.Some?
    && var local := product.local.value;
    && local.profile == profile && NamesGame(s, local.dol, local.rel)
    && (profile == RetroProfile ==>
          && local.mode == f.mode && local.payloadLength == f.payloadLength
          && (local.payload == f.payload ||
              (f.payload.Digest? && Spells(local.payload, f.payload.hash))))
  }

  /** A product is proven when the records that stand agree and name this toolkit. */
  lemma ProvenExactly(s: Site, product: Product, profile: Profile)
    requires Operable(s)
    ensures Proven(s, product, profile, ResolveToolkitFingerprint(s)) <==>
              && StateStands(s) && product.fingerprint.Some?
              && product.fingerprint.value.toolkit == s.toolkitState.value.toolkit
              && RecordsAgree(s, product, profile, product.fingerprint.value, s.installState.value)
  {
  }

  // ---- When a product is built again ----

  /** The release expects the game that is installed, or says nothing about it. */
  predicate ExpectsInstalledGame(s: Site, request: Request) {
    !request.expectedDol.Blank? ==>
      && s.gameDol.Some? && Spells(request.expectedDol, s.gameDol.value)
      && s.gameRel.Some? && Spells(request.expectedRel, s.gameRel.value)
  }

  /** The base product is built again exactly when it is not proven, or the release expects another game. */
  lemma BaseRebuiltExactly(s: Site, request: Request, payload: Option<Payload>, d: Decision)
    requires Operable(s) && WellFormed(request, payload) && Decides(s, request, payload, d)
    ensures d.rebuildBase <==> !(Proven(s, s.base, BaseProfile, s.toolkitState.value.toolkit) &&
                                 ExpectsInstalledGame(s, request))
  {
    BaseCurrentExactly(s, s.toolkitState.value.toolkit);
  }

  /** Both records name the selected Retro Rewind inputs. */
  predicate NamesInputs(f: Fingerprint, state: InstallState, inputs: CompileInputs) {
    && Spells(f.codePul, inputs.codePul) && Spells(state.codePul, inputs.codePul)
    && Spells(f.inputs, inputs.inputs) && Spells(state.inputs, inputs.inputs)
  }

  /** Both records name the payload in hand, or, when none is wanted, the installation is not one with
      a downloaded payload. */
  predicate NamesPayload(f: Fingerprint, state: InstallState, payload: Option<Payload>) {
    match payload
    case Some(p) =>
      && f.mode == Downloaded && f.payload == Lower(p.hash) && f.payloadLength > 0
      && state.mode == Downloaded && state.payload == Lower(p.hash) && state.payloadLength > 0
    case None =>
      f.mode != Downloaded && (f.mode in {Null, Empty} ==> state.mode != Downloaded)
  }

  /** Proven, and recorded as built from these inputs and this payload. The cache has no part in it. */
  predicate RetroStands(s: Site, request: Request, payload: Option<Payload>)
    requires s.toolkitState.Some? && request.snapshot.Some?
  {
    && Proven(s, s.retro, RetroProfile, s.toolkitState.value.toolkit)
    && NamesInputs(s.retro.fingerprint.value, s.installState.value, request.snapshot.value)
    && NamesPayload(s.retro.fingerprint.value, s.installState.value, payload)
  }

  /** A repair with Retro Rewind inputs builds the product again exactly when it does not stand, or the
      release expects another game; whatever the cache holds. */
  lemma RetroRebuiltExactly(s: Site, request: Request, payload: Option<Payload>, d: Decision)
    requires Operable(s) && WellFormed(request, payload) && Decides(s, request, payload, d)
    requires request.snapshot.Some?
    ensures d.rebuildRetro <==> !(RetroStands(s, request, payload) && ExpectsInstalledGame(s, request))
  {
    var toolkit := s.toolkitState.value.toolkit;
    RetroCurrentExactly(s, toolkit, request.snapshot, Observed(s, payload));
    RetroCurrentExactly(s, toolkit, request.snapshot, Some(true));
  }

  /** The two digests are there and spell the same hash. */
  predicate BothSpell(a: Digest, b: Digest) {
    a.Digest? && b.Digest? && a.hash == b.hash
  }

  /** The payload that the product was built with is in the cache, and the state names one too. */
  predicate PayloadInCache(s: Site, f: Fingerprint, state: InstallState) {
    && f.payloadLength > 0 && state.payload.Digest? && state.payloadLength > 0
    && s.cache.Some? && Spells(f.payload, s.cache.value.hash) && s.cache.value.length == f.payloadLength
  }

  /** What the inspection without Retro Rewind inputs finds in order: a proven product whose two records
      agree on the inputs it was built from, and whose downloaded payload is at hand. */
  lemma CurrentWithoutInputsExactly(s: Site)
    requires Operable(s)
    ensures CheckRetroRewindCore(s, s.toolkitState.value.toolkit, None, false, None) == Current <==>
              && Proven(s, s.retro, RetroProfile, s.toolkitState.value.toolkit)
              && var f, state := s.retro.fingerprint.value, s.installState.value;
              && BothSpell(f.codePul, state.codePul) && BothSpell(f.inputs, state.inputs)
              && (f.mode == Downloaded ==> PayloadInCache(s, f, state))
  {
    RetroCurrentExactly(s, s.toolkitState.value.toolkit, None, None);
  }

  /** Without Retro Rewind inputs nothing is decided about that product; the repair is refused unless the
      product is in order and expected, or there is none and none is recorded. */
  lemma RefusedExactly(s: Site, request: Request)
    requires Operable(s) && WellFormed(request, None) && request.snapshot.None?
    ensures Refused(s, request) <==>
              if HasRetroProduct(s) then
                CheckRetroRewindCore(s, s.toolkitState.value.toolkit, None, false, None) != Current ||
                !ExpectsInstalledGame(s, request)
              else
                StateStands(s) && s.installState.value.retroInstalled
  {
    RetroCurrentExactly(s, s.toolkitState.value.toolkit, None, None);
  }

  /** A payload can be recovered from the installation exactly when both records name, as downloaded, the very
      file that is in the cache. */
  lemma RecoveredExactly(s: Site)
    ensures RecoverInstalledPayload(s).Some? <==>
              && s.retro.fingerprint.Some? && s.installState.Some? && s.cache.Some?
              && var f, state := s.retro.fingerprint.value, s.installState.value;
              && f.mode == Downloaded && state.mode == Downloaded
              && f.payload == Lower(s.cache.value.hash) && state.payload == f.payload
              && f.payloadLength == s.cache.value.length
  {
  }

  // ---- What an inspection reports ----

  predicate Recorded(s: Site) { StateStands(s) && s.installState.value.retroInstalled }

  /** Each answer about the base product and when it is given; blocked is what is left. */
  lemma BaseStatusExactly(s: Site)
    ensures var toolkit := ResolveToolkitFingerprint(s);
            var status, proven := CheckBase(s, toolkit), Proven(s, s.base, BaseProfile, toolkit);
            && (status == Current <==> proven && AssetsRecorded(s, s.base))
            && (status == Broken <==> !LargeEnough(s.base) || (proven && !AssetsRecorded(s, s.base)))
            && (status == ToolkitChanged <==>
                  && Operable(s) && LargeEnough(s.base) && StateStands(s) && s.base.fingerprint.Some?
                  && s.base.fingerprint.value.toolkit != toolkit)
            && status in {Current, Broken, ToolkitChanged, Blocked}
  {
  }

  /** The product's toolkit is the installed one, and its provenance and both records of its inputs are in order. */
  predicate InputsKnown(s: Site)
    ensures InputsKnown(s) ==> s.retro.fingerprint.Some? && s.installState.Some?
  {
    && Proven(s, s.retro, RetroProfile, ResolveToolkitFingerprint(s))
    && BothSpell(s.retro.fingerprint.value.codePul, s.installState.value.codePul)
    && BothSpell(s.retro.fingerprint.value.inputs, s.installState.value.inputs)
  }

  /** It was built from these inputs, if there are any to compare with. */
  predicate BuiltFrom(f: Fingerprint, canonical: Option<CompileInputs>) {
    canonical.Some? ==> Spells(f.codePul, canonical.value.codePul) && Spells(f.inputs, canonical.value.inputs)
  }

  predicate PayloadsNamed(f: Fingerprint, state: InstallState) {
    !f.payload.Blank? && f.payloadLength > 0 && !state.payload.Blank? && state.payloadLength > 0
  }

  /** The same for Retro Rewind, apart from its support files: what makes each of the nine answers. */
  lemma RetroStatusExactly(s: Site, canonical: Option<CompileInputs>, canonicalError: bool, observed: Option<bool>)
    ensures var toolkit := ResolveToolkitFingerprint(s);
            var status := CheckRetroRewindCore(s, toolkit, canonical, canonicalError, observed);
            && (status == Absent <==> !HasRetroProduct(s) && !Recorded(s))
            && (status == Broken <==> Operable(s) && !HasRetroProduct(s) && Recorded(s))
            && (status == InputsMissing <==> Operable(s) && HasRetroProduct(s) && canonicalError)
            && (status == ToolkitChanged <==>
                  && Operable(s) && HasRetroProduct(s) && !canonicalError && s.retro.fingerprint.Some?
                  && s.retro.fingerprint.value.toolkit != toolkit)
    ensures var status := CheckRetroRewindCore(s, ResolveToolkitFingerprint(s), canonical, canonicalError, observed);
            status in {CodePulChanged, CompileInputsChanged, PayloadChanged, Current} ==>
              InputsKnown(s) && !canonicalError
  {
  }

  lemma KnownInputsStatus(s: Site, canonical: Option<CompileInputs>, observed: Option<bool>)
    requires InputsKnown(s)
    ensures var status := CheckRetroRewindCore(s, ResolveToolkitFingerprint(s), canonical, false, observed);
            var f, state := s.retro.fingerprint.value, s.installState.value;
            && (status == CodePulChanged <==> canonical.Some? && !Spells(f.codePul, canonical.value.codePul))
            && (status == CompileInputsChanged <==>
                  && canonical.Some? && Spells(f.codePul, canonical.value.codePul)
                  && !Spells(f.inputs, canonical.value.inputs))
            && (status == Blocked <==> BuiltFrom(f, canonical) && f.mode == Downloaded && !PayloadsNamed(f, state))
            && (status == PayloadChanged <==>
                  && BuiltFrom(f, canonical) && f.mode == Downloaded && PayloadsNamed(f, state)
                  && (if observed.Some? then !observed.value else !PayloadInCache(s, f, state)))
            && status in {Current, CodePulChanged, CompileInputsChanged, PayloadChanged, Blocked}
  {
  }

  /** The payload choice of an installation is its product's, or the state's where the product names none. */
  lemma RecordedModeExactly(s: Site)
    ensures var text := if s.retro.fingerprint.Some? && s.retro.fingerprint.value.mode !in {Null, Empty}
                        then s.retro.fingerprint.value.mode
                        else if s.installState.Some? then s.installState.value.mode else Null;
            && (ResolveRetroWfcPayloadMode(s) == Online <==> text == Downloaded)
            && (ResolveRetroWfcPayloadMode(s) == Skip <==> text == Skipped)
  {
  }

  // ---- What else is decided ----

  /** The product's support files are the ones the toolkit records. */
  predicate AssetsRecorded(s: Site, product: Product) {
    && s.toolkitState.Some?
    && !s.toolkitState.value.assets.Blank?
    && product.assets == Some(s.toolkitState.value.assets)
  }

  /** The payload is published with a new product or when the cache holds something else, support files
      where a kept product has others, and the root where it is not recorded. */
  lemma PublishedExactly(s: Site, request: Request, payload: Option<Payload>, d: Decision)
    requires Operable(s) && WellFormed(request, payload) && Decides(s, request, payload, d)
    ensures d.syncPayload <==> payload.Some? && (d.rebuildRetro || s.cache != payload)
    ensures d.syncBaseAssets <==> !d.rebuildBase && !AssetsRecorded(s, s.base)
    ensures d.syncRetroAssets <==> !d.rebuildRetro && HasRetroProduct(s) && !AssetsRecorded(s, s.retro)
    ensures d.rootChanged <==>
              && request.snapshot.Some?
              && (s.configuredRoot != Some(request.root) || s.installState.None? ||
                  s.installState.value.retroRoot != Some(request.root))
  {
    BaseRebuiltExactly(s, request, payload, d);
  }

  /** Whatever is put into the cache, the plan changes in one flag at most: publish the payload. */
  lemma CacheCausesNoBuild(s: Site, cache: Option<Payload>, request: Request, payload: Option<Payload>,
                           d: Decision, other: Decision)
    requires Operable(s) && WellFormed(request, payload)
    requires Decides(s, request, payload, d) && Decides(WithCache(s, cache), request, payload, other)
    ensures other == d.(syncPayload := payload.Some? && (d.rebuildRetro || cache != payload))
  {
    var changed := WithCache(s, cache);
    BaseRebuiltExactly(s, request, payload, d);
    BaseRebuiltExactly(changed, request, payload, other);
    PublishedExactly(s, request, payload, d);
    PublishedExactly(changed, request, payload, other);
    if request.snapshot.Some? {
      RetroRebuiltExactly(s, request, payload, d);
      RetroRebuiltExactly(changed, request, payload, other);
    }
  }

  const SAMPLE_PAYLOAD := Payload(9, 0x130)
  const ONLINE_REQUEST := Request(Some(CompileInputs(7, 7)), Online, Blank, Blank, 0)

  /** A complete installation of both products with a downloaded payload. */
  function OnlineSample(cache: Option<Payload>): Site {
    var s := SampleSite(true, Lower(8), Lower(8), Lower(1));
    var f := s.retro.fingerprint.value.(mode := Downloaded, payload := Lower(9), payloadLength := 0x130);
    var local := s.retro.local.value.(mode := Downloaded, payload := Lower(9), payloadLength := 0x130);
    var state := s.installState.value.(mode := Downloaded, payload := Lower(9), payloadLength := 0x130);
    s.(retro := s.retro.(fingerprint := Some(f), local := Some(local)), installState := Some(state), cache := cache)
  }

  /** A deleted payload file is published again and nothing is built. */
  lemma DeletedPayloadIsOnlyRepublished()
    ensures Planned(OnlineSample(Some(SAMPLE_PAYLOAD)), ONLINE_REQUEST, Some(SAMPLE_PAYLOAD),
                    Decision(false, false, false, false, false, false))
    ensures Planned(OnlineSample(None), ONLINE_REQUEST, Some(SAMPLE_PAYLOAD),
                    Decision(false, false, true, false, false, false))
  {
    assert RetroStands(OnlineSample(None), ONLINE_REQUEST, Some(SAMPLE_PAYLOAD));
  }

  // ---- When a build is clean ----

  /** A usable product whose fingerprint is intact but names another toolkit: it needs no clean build. */
  predicate MadeByOtherToolkit(s: Site, product: Product)
    requires s.toolkitState.Some?
  {
    product.fingerprint.Some? && product.fingerprint.value.toolkit != s.toolkitState.value.toolkit
  }

  /** The base product is damaged or cannot be proven, for another reason than its toolkit. */
  predicate BaseUnsound(s: Site)
    requires s.toolkitState.Some?
  {
    && !Proven(s, s.base, BaseProfile, s.toolkitState.value.toolkit)
    && !(LargeEnough(s.base) && StateStands(s) && MadeByOtherToolkit(s, s.base))
  }

  /** The Retro Rewind product is recorded but gone, or there and cannot be proven, for another reason
      than its toolkit or the inputs it was built from. */
  predicate RetroUnsound(s: Site, inputs: CompileInputs)
    requires s.toolkitState.Some?
  {
    if !HasRetroProduct(s) then StateStands(s) && s.installState.value.retroInstalled
    else
      && !MadeByOtherToolkit(s, s.retro)
      && !(&& Proven(s, s.retro, RetroProfile, s.toolkitState.value.toolkit)
           && var f, state := s.retro.fingerprint.value, s.installState.value;
           && CompileInputsRecorded(f, state)
           && (NamesInputs(f, state, inputs) && f.mode == Downloaded ==>
                 && !f.payload.Blank? && f.payloadLength > 0 && !state.payload.Blank? && state.payloadLength > 0))
  }

  /** The build is clean from the start exactly when a product is built again that was unsound. */
  lemma CleanBuildExactly(s: Site, request: Request, payload: Option<Payload>, d: Decision)
    requires Operable(s) && WellFormed(request, payload) && Decides(s, request, payload, d)
    ensures ForcesClean(s, request, payload, d) <==>
              || (d.rebuildBase && BaseUnsound(s))
              || (d.rebuildRetro && RetroUnsound(s, request.snapshot.value))
  {
    var toolkit := s.toolkitState.value.toolkit;
    BaseCurrentExactly(s, toolkit);
    RetroCurrentExactly(s, toolkit, request.snapshot, Observed(s, payload));
  }
}
