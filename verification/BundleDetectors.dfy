/**
 Attribution of imports to bundle providers (abicheck/bundle_models.py), the test for
 imports satisfied outside the bundle (bundle_detector_heuristics.py), and the detector
 of removed intra-bundle dependencies (bundle_detectors.py).
 */
module BundleDetectors {
  import opened Options
  import opened BundleGraph
  import opened BundleReachability

  /** `files` holds each library's basename; `metadata` is in insertion order. */
  datatype Snapshot = Snapshot(files: map<string, string>, metadata: Libraries, resolution: ResolutionGraph)

  // ----- attribution -----

  /** A definition that can satisfy an import: its own version, or a default one when none is required. */
  predicate Compatible(c: ConsumerEntry, p: ProviderEntry) {
    if c.version == "" then p.isDefault else p.version == c.version
  }

  function MatchingLibraries(g: ResolutionGraph, c: ConsumerEntry, symbol: string, reachable: set<string>): set<string>
  {
    set p | p in ProvidersFor(g, symbol) && p.library in reachable && Compatible(c, p) :: p.library
  }

  predicate ConsumerResolvesViaProvider(g: ResolutionGraph, c: ConsumerEntry, provider: string, symbol: string,
                                        reachable: set<string>)
  {
    if provider !in reachable then false
    else
      var candidates := set p | p in ProvidersFor(g, symbol) && p.library == provider;
      if candidates == {} then false
      else if c.version != "" && c.versionSoname != "" then
        if !(c.versionSoname in g.sonameToName && g.sonameToName[c.versionSoname] == provider) then false
        else exists p :: p in candidates && p.version == c.version
      else MatchingLibraries(g, c, symbol, reachable) == {provider}
  }

  /** An import is never attributed to two providers. */
  lemma AtMostOneProvider(g: ResolutionGraph, c: ConsumerEntry, symbol: string, reachable: set<string>, a: string,
                          b: string)
    requires ConsumerResolvesViaProvider(g, c, a, symbol, reachable)
    requires ConsumerResolvesViaProvider(g, c, b, symbol, reachable)
    ensures a == b
  {
  }

  /** `library` is reachable and defines the symbol at the import's version; by default when there is none. */
  ghost predicate Offers(g: ResolutionGraph, c: ConsumerEntry, symbol: string, reachable: set<string>, library: string)
  {
    && library in reachable && symbol in g.providers
    && exists p :: p in g.providers[symbol] && p.library == library
                   && if c.version == "" then p.isDefault else p.version == c.version
  }

  /**
   An attribution is made exactly to a reachable library with a compatible definition that
   is the one pinned by the import's version soname or, unpinned, the only such library.
   */
  lemma AttributionIsExact(g: ResolutionGraph, c: ConsumerEntry, symbol: string, reachable: set<string>,
                           provider: string)
    ensures ConsumerResolvesViaProvider(g, c, provider, symbol, reachable) <==>
            && Offers(g, c, symbol, reachable, provider)
            && if c.version != "" && c.versionSoname != ""
               then c.versionSoname in g.sonameToName && g.sonameToName[c.versionSoname] == provider
               else forall other :: Offers(g, c, symbol, reachable, other) ==> other == provider
  {
    var matching := MatchingLibraries(g, c, symbol, reachable);
    var candidates := set p | p in ProvidersFor(g, symbol) && p.library == provider;
    OffersIsMatching(g, c, symbol, reachable);
    if ConsumerResolvesViaProvider(g, c, provider, symbol, reachable) && c.version != "" && c.versionSoname != "" {
      var p :| p in candidates && p.version == c.version;
      assert Compatible(c, p);
      assert provider in matching;
    }
    if provider in matching {
      var p :| p in ProvidersFor(g, symbol) && p.library in reachable && Compatible(c, p) && p.library == provider;
      assert p in candidates;
      assert (forall other :: other in matching ==> other == provider) ==> matching == {provider};
    }
  }

  lemma OffersIsMatching(g: ResolutionGraph, c: ConsumerEntry, symbol: string, reachable: set<string>)
    ensures forall library :: Offers(g, c, symbol, reachable, library) <==>
                              library in MatchingLibraries(g, c, symbol, reachable)
  {
  }

  // ----- imports from outside the bundle -----

  predicate StartsWith(s: string, prefix: string) {
    prefix <= s
  }

  const SYSTEM_VERSION_PREFIXES := [
    "GLIBC_", "GLIBCXX_", "CXXABI_", "GCC_", "LIBGCC_", "LIBC_", "GOMP_", "OMP_", "GFORTRAN_", "GLIBCABI_"]

  predicate LooksSystemVersion(version: string) {
    exists prefix :: prefix in SYSTEM_VERSION_PREFIXES && StartsWith(version, prefix)
  }

  /** A library matches by soname, or by file name stem in either direction. */
  predicate Spells(name: string, meta: ElfMetadata, soname: string) {
    meta.soname == soname || StartsWith(soname, name + ".") || StartsWith(name, soname + ".")
  }

  predicate IsIntraBundleProvider(b: Snapshot, soname: string) {
    soname in b.files || exists e :: e in b.metadata && Spells(e.0, e.1, soname)
  }

  /** The first library with that soname, or whose name and the soname begin one another up to a dot. */
  predicate SpelledFirst(libs: Libraries, i: int, soname: string)
    requires 0 <= i < |libs|
  {
    && (libs[i].1.soname == soname || libs[i].0 + "." <= soname || soname + "." <= libs[i].0)
    && forall j :: 0 <= j < i ==>
         libs[j].1.soname != soname && !(libs[j].0 + "." <= soname) && !(soname + "." <= libs[j].0)
  }

  method ProviderLibraryForSoname(b: Snapshot, soname: string) returns (library: Option<string>)
    ensures library.Some? <==> IsIntraBundleProvider(b, soname)
    ensures soname in b.files ==> library == Some(soname)
    ensures library.Some? && soname !in b.files ==>
              exists i :: 0 <= i < |b.metadata| && library.value == b.metadata[i].0
                && SpelledFirst(b.metadata, i, soname)
  {
    if soname in b.files {
      return Some(soname);
    }
    for i := 0 to |b.metadata|
      invariant forall j :: 0 <= j < i ==> !Spells(b.metadata[j].0, b.metadata[j].1, soname)
    {
      var (name, meta) := b.metadata[i];
      if meta.soname == soname || StartsWith(soname, name + ".") || StartsWith(name, soname + ".") {
        assert b.metadata[i] in b.metadata;
        return Some(name);
      }
    }
    return None;
  }

  predicate ResolvesIntra(b: Snapshot, soname: string) {
    soname in b.resolution.sonameToName || IsIntraBundleProvider(b, soname)
  }

  predicate RequiredFrom(meta: ElfMetadata, version: string, soname: string) {
    exists e :: e in meta.versionsRequired && e.0 == soname && version in e.1
  }

  /**
   Versioned, and the library it names is outside the bundle; without a name, required
   from outside libraries only, or a runtime version that no library is recorded for.
   */
  ghost predicate IsExternal(c: ConsumerEntry, meta: ElfMetadata, b: Snapshot) {
    && c.version != ""
    && if c.versionSoname != "" then !ResolvesIntra(b, c.versionSoname)
       else
         && (forall s :: RequiredFrom(meta, c.version, s) ==> !ResolvesIntra(b, s))
         && ((exists s :: RequiredFrom(meta, c.version, s)) || LooksSystemVersion(c.version))
  }

  method ImportIsExternal(c: ConsumerEntry, meta: ElfMetadata, b: Snapshot) returns (external: bool)
    ensures external <==> IsExternal(c, meta, b)
  {
    if c.version == "" {
      return false;
    }
    if c.versionSoname != "" {
      var intra := ResolvesInBundle(b, c.versionSoname);
      return !intra;
    }
    var externalMatch := false;
    for i := 0 to |meta.versionsRequired|
      invariant forall k :: 0 <= k < i && c.version in meta.versionsRequired[k].1 ==>
                  !ResolvesIntra(b, meta.versionsRequired[k].0)
      invariant externalMatch <==> exists k :: 0 <= k < i && c.version in meta.versionsRequired[k].1
    {
      var (soname, versions) := meta.versionsRequired[i];
      if c.version !in versions {
        continue;
      }
      assert meta.versionsRequired[i] in meta.versionsRequired;
      var intra := ResolvesInBundle(b, soname);
      if intra {
        assert RequiredFrom(meta, c.version, soname);
        return false;
      }
      externalMatch := true;
    }
    if externalMatch {
      var k :| 0 <= k < |meta.versionsRequired| && c.version in meta.versionsRequired[k].1;
      assert meta.versionsRequired[k] in meta.versionsRequired;
      assert RequiredFrom(meta, c.version, meta.versionsRequired[k].0);
      return true;
    }
    return LooksSystemVersion(c.version);
  }

  method ResolvesInBundle(b: Snapshot, soname: string) returns (intra: bool)
    ensures intra <==> ResolvesIntra(b, soname)
  {
    if soname in b.resolution.sonameToName {
      return true;
    }
    var library := ProviderLibraryForSoname(b, soname);
    return library.Some?;
  }

  // ----- removed dependencies -----

  /** Findings, by kind; the other kind is what classify_unresolved_import makes. */
  datatype Finding = IntraDepRemoved(symbol: string, library: string) | Unresolved(symbol: string, library: string)

  /** The predicates and the classifier the detector calls but does not define. */
  datatype Policy = Policy(
    outwardAllSystem: string -> bool, namesExplicitProvider: string -> bool, systemSymbol: string -> bool,
    classify: (ConsumerEntry, string, bool) -> bool)

  function MetadataOf(libs: Libraries, name: string): Option<ElfMetadata> {
    if libs == [] then None else if libs[0].0 == name then Some(libs[0].1) else MetadataOf(libs[1..], name)
  }

  /** The libraries of the old bundle whose definition of the symbol could have satisfied the import. */
  function CompatibleOld(old_: Snapshot, c: ConsumerEntry, symbol: string): set<string> {
    set p | p in ProvidersFor(old_.resolution, symbol) && Compatible(c, p) :: p.library
  }

  /** A compatible provider was reachable from this very consumer in the old bundle. */
  ghost predicate EverProvided(old_: Snapshot, c: ConsumerEntry, symbol: string) {
    c.library in old_.files && CompatibleOld(old_, c, symbol) * Reach(old_.resolution, c.library) != {}
  }

  /** Nothing but a removed bundle dependency can have satisfied the import. */
  predicate Unexcused(policy: Policy, new_: Snapshot, c: ConsumerEntry, symbol: string) {
    var extra := ListAt(new_.resolution.extraNeeded, c.library);
    && !(policy.outwardAllSystem(c.library) && extra != [] && exists e :: e in extra && policy.namesExplicitProvider(e))
    && !policy.systemSymbol(symbol)
  }

  /** The verdict on one import of a symbol nobody in the new bundle provides. */
  ghost function Verdict(policy: Policy, old_: Snapshot, new_: Snapshot, symbol: string, c: ConsumerEntry)
    : Option<Finding>
  {
    var meta := MetadataOf(new_.metadata, c.library);
    if c.weak || meta.None? || IsExternal(c, meta.value, new_) then None
    else if !EverProvided(old_, c, symbol) then
      if policy.classify(c, symbol, policy.outwardAllSystem(c.library))
      then Some(Unresolved(symbol, c.library))
      else None
    else if Unexcused(policy, new_, c, symbol) then Some(IntraDepRemoved(symbol, c.library))
    else None
  }

  ghost function VerdictsOn(policy: Policy, old_: Snapshot, new_: Snapshot, symbol: string,
                            consumers: seq<ConsumerEntry>): seq<Finding>
  {
    if consumers == [] then []
    else
      var front := VerdictsOn(policy, old_, new_, symbol, consumers[..|consumers| - 1]);
      match Verdict(policy, old_, new_, symbol, consumers[|consumers| - 1])
      case None => front
      case Some(f) => front + [f]
  }

  ghost function Findings(policy: Policy, old_: Snapshot, new_: Snapshot, symbols: seq<string>): seq<Finding> {
    if symbols == [] then []
    else
      var front, symbol := Findings(policy, old_, new_, symbols[..|symbols| - 1]), symbols[|symbols| - 1];
      if ProvidersFor(new_.resolution, symbol) != [] then front
      else front + VerdictsOn(policy, old_, new_, symbol, ListAt(new_.resolution.consumers, symbol))
  }

  /** Why a removed dependency is reported. */
  ghost predicate IsRemoval(policy: Policy, old_: Snapshot, new_: Snapshot, symbol: string, c: ConsumerEntry) {
    && c in ListAt(new_.resolution.consumers, symbol) && !c.weak
    && ProvidersFor(new_.resolution, symbol) == []
    && EverProvided(old_, c, symbol)
    && MetadataOf(new_.metadata, c.library).Some?
    && !IsExternal(c, MetadataOf(new_.metadata, c.library).value, new_)
    && Unexcused(policy, new_, c, symbol)
  }

  lemma {:induction false} VerdictsOnContains(policy: Policy, old_: Snapshot, new_: Snapshot, symbol: string,
                                              consumers: seq<ConsumerEntry>, f: Finding)
    ensures f in VerdictsOn(policy, old_, new_, symbol, consumers) <==>
            exists c :: c in consumers && Verdict(policy, old_, new_, symbol, c) == Some(f)
  {
    if consumers == [] {
    } else {
      VerdictsOnContains(policy, old_, new_, symbol, consumers[..|consumers| - 1], f);
      assert consumers == consumers[..|consumers| - 1] + [consumers[|consumers| - 1]];
    }
  }

  /** Some consumer of the symbol, which nobody provides, has this verdict. */
  ghost predicate Found(policy: Policy, old_: Snapshot, new_: Snapshot, f: Finding) {
    && ProvidersFor(new_.resolution, f.symbol) == []
    && exists c :: c in ListAt(new_.resolution.consumers, f.symbol)
            && Verdict(policy, old_, new_, f.symbol, c) == Some(f)
  }

  lemma SymbolFindings(policy: Policy, old_: Snapshot, new_: Snapshot, symbol: string, f: Finding)
    requires ProvidersFor(new_.resolution, symbol) == []
    ensures f in VerdictsOn(policy, old_, new_, symbol, ListAt(new_.resolution.consumers, symbol)) <==>
            f.symbol == symbol && Found(policy, old_, new_, f)
  {
    VerdictsOnContains(policy, old_, new_, symbol, ListAt(new_.resolution.consumers, symbol), f);
  }

  lemma {:induction false} FindingsContain(policy: Policy, old_: Snapshot, new_: Snapshot, symbols: seq<string>,
                                           f: Finding)
    ensures f in Findings(policy, old_, new_, symbols) <==> f.symbol in symbols && Found(policy, old_, new_, f)
  {
    if symbols == [] {
    } else {
      var front, last := symbols[..|symbols| - 1], symbols[|symbols| - 1];
      FindingsContain(policy, old_, new_, front, f);
      assert symbols == front + [last];
      if ProvidersFor(new_.resolution, last) == [] {
        SymbolFindings(policy, old_, new_, last, f);
      }
    }
  }

  /** A removal is reported for exactly the imports that lost a provider they could reach, and not for others. */
  lemma RemovalIsExact(policy: Policy, old_: Snapshot, new_: Snapshot, symbol: string, library: string)
    requires forall s :: s in new_.resolution.consumers <==> s in new_.resolution.consumed
    ensures IntraDepRemoved(symbol, library) in Findings(policy, old_, new_, new_.resolution.consumed) <==>
            exists c: ConsumerEntry :: c.library == library && IsRemoval(policy, old_, new_, symbol, c)
  {
    var f := IntraDepRemoved(symbol, library);
    FindingsContain(policy, old_, new_, new_.resolution.consumed, f);
    if f in Findings(policy, old_, new_, new_.resolution.consumed) {
      var c :| c in ListAt(new_.resolution.consumers, symbol) && Verdict(policy, old_, new_, symbol, c) == Some(f);
      assert c.library == library && IsRemoval(policy, old_, new_, symbol, c);
    }
    if c: ConsumerEntry :| c.library == library && IsRemoval(policy, old_, new_, symbol, c) {
      assert Verdict(policy, old_, new_, symbol, c) == Some(f);
    }
  }

  /** Comparing a bundle with itself never reports a removal. */
  lemma SelfComparisonIsQuiet(policy: Policy, b: Snapshot, symbol: string, library: string)
    requires forall s :: s in b.resolution.consumers <==> s in b.resolution.consumed
    ensures IntraDepRemoved(symbol, library) !in Findings(policy, b, b, b.resolution.consumed)
  {
    RemovalIsExact(policy, b, b, symbol, library);
    forall c: ConsumerEntry | ProvidersFor(b.resolution, symbol) == [] ensures CompatibleOld(b, c, symbol) == {} {
    }
  }

  // ----- the detector's loops -----

  method DetectIntraDepRemoved(policy: Policy, old_: Snapshot, new_: Snapshot) returns (findings: seq<Finding>)
    ensures findings == Findings(policy, old_, new_, new_.resolution.consumed)
  {
    findings := [];
    var oldReachable := new ReachabilityCache(old_.resolution);
    var symbols := new_.resolution.consumed;
    for i := 0 to |symbols|
      invariant oldReachable.Valid() && oldReachable.graph == old_.resolution
      invariant findings == Findings(policy, old_, new_, symbols[..i])
    {
      assert symbols[..i + 1][..i] == symbols[..i];
      if ProvidersFor(new_.resolution, symbols[i]) != [] {
        continue;
      }
      var more := DetectForSymbol(policy, old_, new_, symbols[i], oldReachable);
      findings := findings + more;
    }
    assert symbols[..|symbols|] == symbols;
  }

  /** The inner loop over the consumers of one symbol. */
  method DetectForSymbol(policy: Policy, old_: Snapshot, new_: Snapshot, symbol: string,
                         oldReachable: ReachabilityCache)
    returns (findings: seq<Finding>)
    requires oldReachable.Valid() && oldReachable.graph == old_.resolution
    modifies oldReachable
    ensures oldReachable.Valid()
    ensures findings == VerdictsOn(policy, old_, new_, symbol, ListAt(new_.resolution.consumers, symbol))
  {
    findings := [];
    var consumers := ListAt(new_.resolution.consumers, symbol);
    for i := 0 to |consumers|
      invariant oldReachable.Valid()
      invariant findings == VerdictsOn(policy, old_, new_, symbol, consumers[..i])
    {
      assert consumers[..i + 1][..i] == consumers[..i];
      var f := DetectForConsumer(policy, old_, new_, symbol, consumers[i], oldReachable);
      if f.Some? {
        findings := findings + [f.value];
      }
    }
    assert consumers[..|consumers|] == consumers;
  }

  method DetectForConsumer(policy: Policy, old_: Snapshot, new_: Snapshot, symbol: string, c: ConsumerEntry,
                           oldReachable: ReachabilityCache)
    returns (finding: Option<Finding>)
    requires oldReachable.Valid() && oldReachable.graph == old_.resolution
    modifies oldReachable
    ensures oldReachable.Valid()
    ensures finding == Verdict(policy, old_, new_, symbol, c)
  {
    if c.weak {
      return None;
    }
    var meta := MetadataOf(new_.metadata, c.library);
    if meta.None? {
      return None;
    }
    var compatible := CompatibleOld(old_, c, symbol);
    var everProvided := false;
    if compatible != {} && c.library in old_.files {
      var reached := oldReachable.Reachable(c.library);
      everProvided := compatible * reached != {};
    }
    var external := ImportIsExternal(c, meta.value, new_);
    if external {
      return None;
    }
    var extra := ListAt(new_.resolution.extraNeeded, c.library);
    var outward := policy.outwardAllSystem(c.library);
    if !everProvided {
      return if policy.classify(c, symbol, outward) then Some(Unresolved(symbol, c.library)) else None;
    }
    if outward && extra != [] && exists e :: e in extra && policy.namesExplicitProvider(e) {
      return None;
    }
    if policy.systemSymbol(symbol) {
      return None;
    }
    return Some(IntraDepRemoved(symbol, c.library));
  }
}
