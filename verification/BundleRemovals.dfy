/**
 What a reported removal says about two bundles (abicheck/bundle.py and
 bundle_detectors.py together): stated in terms of the libraries' own metadata, without
 the graphs, indices and caches in between.
 */
module BundleRemovals {
  import opened Options
  import opened Ordering
  import opened BundleGraph
  import opened BundleReachability
  import opened BundleDetectors

  // ----- what the metadata say -----

  predicate Public(s: ElfSymbol) {
    s.visibility == "default" || s.visibility == "protected"
  }

  /** Some library exports the symbol, at any version. */
  predicate Exports(libs: Libraries, symbol: string) {
    exists e :: e in libs && exists s :: s in e.1.symbols && s.name == symbol && Public(s)
  }

  /** `library` exports the symbol at this version; by default when none is asked for. */
  predicate ExportsAt(libs: Libraries, library: string, symbol: string, version: string) {
    exists e :: e in libs && e.0 == library
         && exists s :: s in e.1.symbols && s.name == symbol && Public(s)
                 && if version == "" then s.isDefault else s.version == version
  }

  /** `a` lists a DT_NEEDED entry that spells the other library `b`. */
  predicate Needs(libs: Libraries, names: map<string, string>, a: string, b: string) {
    b != a && exists e :: e in libs && e.0 == a && exists s :: s in e.1.needed && s in names && names[s] == b
  }

  /** A way along DT_NEEDED entries from one library to another. */
  predicate Loads(libs: Libraries, names: map<string, string>, a: string, b: string, p: seq<string>) {
    && |p| >= 2 && p[0] == a && p[|p| - 1] == b
    && forall i :: 0 <= i < |p| - 1 ==> Needs(libs, names, p[i], p[i + 1])
  }

  /** The bundle's graph is the one built from its metadata. */
  ghost predicate Built(b: Snapshot, extra: seq<(string, seq<string>)>) {
    DistinctLibraries(b.metadata) && IsGraphOf(b.resolution, b.metadata, b.files, extra)
  }

  // ----- the graph's lists hold just that -----

  lemma {:induction false} ProvidersInHold(name: string, symbols: seq<ElfSymbol>, symbol: string, p: ProviderEntry)
    ensures p in ProvidersIn(name, symbols, symbol) <==>
            exists s :: s in symbols && s.name == symbol && Exported(s) && p == Provided(name, s)
  {
    if symbols == [] {
    } else {
      ProvidersInHold(name, symbols[..|symbols| - 1], symbol, p);
      assert symbols == symbols[..|symbols| - 1] + [symbols[|symbols| - 1]];
    }
  }

  lemma {:induction false} ProvidersHold(libs: Libraries, symbol: string, p: ProviderEntry)
    ensures p in ProvidersOf(libs, symbol) <==> exists e :: e in libs && p in ProvidersIn(e.0, e.1.symbols, symbol)
  {
    if libs == [] {
    } else {
      ProvidersHold(libs[..|libs| - 1], symbol, p);
      assert libs == libs[..|libs| - 1] + [libs[|libs| - 1]];
    }
  }

  lemma {:induction false} ConsumersInHold(name: string, imports: seq<ElfImport>, symbol: string, c: ConsumerEntry)
    ensures c in ConsumersIn(name, imports, symbol) <==>
            exists i :: i in imports && i.name == symbol && c == Consumed(name, i)
  {
    if imports == [] {
    } else {
      ConsumersInHold(name, imports[..|imports| - 1], symbol, c);
      assert imports == imports[..|imports| - 1] + [imports[|imports| - 1]];
    }
  }

  lemma {:induction false} ConsumersHold(libs: Libraries, symbol: string, c: ConsumerEntry)
    ensures c in ConsumersOf(libs, symbol) <==> exists e :: e in libs && c in ConsumersIn(e.0, e.1.imports, symbol)
  {
    if libs == [] {
    } else {
      ConsumersHold(libs[..|libs| - 1], symbol, c);
      assert libs == libs[..|libs| - 1] + [libs[|libs| - 1]];
    }
  }

  lemma {:induction false} MetadataIsOwn(libs: Libraries, e: (string, ElfMetadata))
    requires DistinctLibraries(libs) && e in libs
    ensures MetadataOf(libs, e.0) == Some(e.1)
  {
    var i :| 0 <= i < |libs| && libs[i] == e;
    if i == 0 {
    } else {
      assert libs[1..][i - 1] == e;
      MetadataIsOwn(libs[1..], e);
    }
  }

  /** No provider entry means that no library exports the symbol. */
  lemma UnprovidedIsUnexported(b: Snapshot, extra: seq<(string, seq<string>)>, symbol: string)
    requires Built(b, extra)
    ensures ProvidersFor(b.resolution, symbol) == [] <==> !Exports(b.metadata, symbol)
  {
    var all := ProvidersOf(b.metadata, symbol);
    if e, s :| e in b.metadata && s in e.1.symbols && s.name == symbol && Exported(s) {
      ProvidersInHold(e.0, e.1.symbols, symbol, Provided(e.0, s));
      ProvidersHold(b.metadata, symbol, Provided(e.0, s));
    }
    if all != [] {
      ProvidersHold(b.metadata, symbol, all[0]);
      var e :| e in b.metadata && all[0] in ProvidersIn(e.0, e.1.symbols, symbol);
      ProvidersInHold(e.0, e.1.symbols, symbol, all[0]);
    }
  }

  /** The compatible providers are the libraries that export the symbol at the import's version. */
  lemma CompatibleExports(b: Snapshot, extra: seq<(string, seq<string>)>, c: ConsumerEntry, symbol: string,
                          library: string)
    requires Built(b, extra)
    ensures library in CompatibleOld(b, c, symbol) <==> ExportsAt(b.metadata, library, symbol, c.version)
  {
    if library in CompatibleOld(b, c, symbol) {
      var p :| p in ProvidersFor(b.resolution, symbol) && Compatible(c, p) && p.library == library;
      ProvidersHold(b.metadata, symbol, p);
      var e :| e in b.metadata && p in ProvidersIn(e.0, e.1.symbols, symbol);
      ProvidersInHold(e.0, e.1.symbols, symbol, p);
    }
    if ExportsAt(b.metadata, library, symbol, c.version) {
      var e :| e in b.metadata && e.0 == library
               && exists s :: s in e.1.symbols && s.name == symbol && Exported(s)
                       && if c.version == "" then s.isDefault else s.version == c.version;
      var s :| s in e.1.symbols && s.name == symbol && Exported(s)
               && if c.version == "" then s.isDefault else s.version == c.version;
      var p := Provided(library, s);
      ProvidersInHold(e.0, e.1.symbols, symbol, p);
      ProvidersHold(b.metadata, symbol, p);
      assert p in ProvidersFor(b.resolution, symbol) && Compatible(c, p);
    }
  }

  /** The graph's edges are the DT_NEEDED entries that spell another library of the bundle. */
  lemma EdgesAreNeeds(b: Snapshot, extra: seq<(string, seq<string>)>, from: string, to: string)
    requires Built(b, extra)
    ensures Edge(b.resolution, from, to) <==> Needs(b.metadata, b.resolution.sonameToName, from, to)
  {
    var g := b.resolution;
    if Edge(g, from, to) {
      var s :| s in ListAt(g.intraNeeded, from) && s in g.sonameToName && g.sonameToName[s] == to;
      var e :| e in b.metadata && e.0 == from;
      PartsPartition(g.sonameToName, from, e.1.needed);
      assert s in multiset(Part(g.sonameToName, from, e.1.needed, true));
      assert s in multiset(e.1.needed);
    }
    if Needs(b.metadata, g.sonameToName, from, to) {
      var e :| e in b.metadata && e.0 == from
               && exists s :: s in e.1.needed && s in g.sonameToName && g.sonameToName[s] == to;
      var s :| s in e.1.needed && s in g.sonameToName && g.sonameToName[s] == to;
      NeededIsEdge(g, b.metadata, b.files, extra, e, s);
    }
  }

  lemma ReachIsLoaded(b: Snapshot, extra: seq<(string, seq<string>)>, from: string, to: string)
    requires Built(b, extra)
    ensures to in Reach(b.resolution, from) <==> exists p :: Loads(b.metadata, b.resolution.sonameToName, from, to, p)
  {
    var g, names := b.resolution, b.resolution.sonameToName;
    forall x, y ensures Edge(g, x, y) <==> Needs(b.metadata, names, x, y) {
      EdgesAreNeeds(b, extra, x, y);
    }
    if to in Reach(g, from) {
      var p :| Leads(g, from, to, p);
      assert Loads(b.metadata, names, from, to, p);
    }
    if p :| Loads(b.metadata, names, from, to, p) {
      assert Leads(g, from, to, p);
      assert Edge(g, p[|p| - 2], p[|p| - 1]);
      EdgeTargetIsNamed(g, p[|p| - 2], p[|p| - 1]);
    }
  }

  // ----- whose soname is it -----

  predicate Declares(libs: Libraries, i: int, key: string) {
    0 <= i < |libs| && libs[i].1.soname == key && key != ""
  }

  /** The library's own name, or its file's. */
  predicate Called(libs: Libraries, files: map<string, string>, i: int, key: string) {
    0 <= i < |libs| && (libs[i].0 == key || (libs[i].0 in files && files[libs[i].0] == key))
  }

  /** An extra alias of a library that has metadata. */
  predicate Aliased(libs: Libraries, extra: seq<(string, seq<string>)>, i: int, key: string) {
    0 <= i < |extra| && key in extra[i].1 && exists e :: e in libs && e.0 == extra[i].0
  }

  ghost predicate Named(libs: Libraries, files: map<string, string>, extra: seq<(string, seq<string>)>, key: string) {
    || (exists i :: Declares(libs, i, key))
    || (exists i :: Called(libs, files, i, key))
    || (exists i :: Aliased(libs, extra, i, key))
  }

  /** A soname is the last library's to declare it; otherwise a name is the first's that has it; then aliases. */
  ghost predicate Owns(libs: Libraries, files: map<string, string>, extra: seq<(string, seq<string>)>, key: string,
                       name: string)
  {
    || (exists i :: Declares(libs, i, key) && libs[i].0 == name && forall j :: Declares(libs, j, key) ==> j <= i)
    || ((forall i :: !Declares(libs, i, key))
        && exists i :: Called(libs, files, i, key) && libs[i].0 == name
                       && forall j :: Called(libs, files, j, key) ==> i <= j)
    || ((forall i :: !Declares(libs, i, key) && !Called(libs, files, i, key))
        && exists i :: Aliased(libs, extra, i, key) && extra[i].0 == name
                       && forall j :: Aliased(libs, extra, j, key) ==> i <= j)
  }

  /** What the libraries alone make of a key. */
  ghost predicate OwnsAmong(libs: Libraries, files: map<string, string>, key: string, m: map<string, string>) {
    && (key in m <==> (exists i :: Declares(libs, i, key)) || exists i :: Called(libs, files, i, key))
    && (key in m ==> Owns(libs, files, [], key, m[key]))
  }

  lemma LastStays(front: Libraries, last: (string, ElfMetadata), files: map<string, string>, key: string)
    ensures forall i :: Declares(front + [last], i, key) <==>
                        Declares(front, i, key) || (i == |front| && last.1.soname == key && key != "")
    ensures forall i :: Called(front + [last], files, i, key) <==>
                        Called(front, files, i, key)
                        || (i == |front| && (last.0 == key || (last.0 in files && files[last.0] == key)))
    ensures forall i :: 0 <= i < |front| ==> (front + [last])[i] == front[i]
  {
  }

  lemma {:induction false} LibrariesOwn(libs: Libraries, files: map<string, string>, key: string)
    ensures OwnsAmong(libs, files, key, IndexLibraries(libs, files))
  {
    if libs == [] {
    } else {
      var front, last := libs[..|libs| - 1], libs[|libs| - 1];
      assert libs == front + [last];
      LibrariesOwn(front, files, key);
      OneOwnerMore(front, last, files, key, IndexLibraries(front, files));
    }
  }

  lemma OneOwnerMore(front: Libraries, last: (string, ElfMetadata), files: map<string, string>, key: string,
                     m: map<string, string>)
    requires OwnsAmong(front, files, key, m)
    ensures OwnsAmong(front + [last], files, key, IndexLibrary(m, last.0, last.1, files))
  {
    var libs, r := front + [last], IndexLibrary(m, last.0, last.1, files);
    LastStays(front, last, files, key);
    assert libs[|front|] == last;
    if last.1.soname == key && key != "" {
      assert Declares(libs, |front|, key) && r[key] == last.0;
    } else if key in m {
      assert r[key] == m[key];
      OwnerStays(front, last, files, key, m[key]);
    } else if key in r {
      assert Called(libs, files, |front|, key) && r[key] == last.0;
    }
  }

  lemma OwnerStays(front: Libraries, last: (string, ElfMetadata), files: map<string, string>, key: string,
                   name: string)
    requires Owns(front, files, [], key, name) && !(last.1.soname == key && key != "")
    ensures Owns(front + [last], files, [], key, name)
    ensures (exists i :: Declares(front + [last], i, key)) || exists i :: Called(front + [last], files, i, key)
  {
    var libs := front + [last];
    LastStays(front, last, files, key);
    if i :| Declares(front, i, key) && front[i].0 == name && forall j :: Declares(front, j, key) ==> j <= i {
      assert Declares(libs, i, key) && libs[i].0 == name;
    } else {
      var i :| Called(front, files, i, key) && front[i].0 == name
               && forall j :: Called(front, files, j, key) ==> i <= j;
      assert Called(libs, files, i, key) && libs[i].0 == name;
    }
  }

  lemma {:induction false} AliasesFill(m: map<string, string>, aliases: seq<string>, name: string, key: string)
    ensures var r := IndexAliases(m, aliases, name);
            && (key in r <==> key in m || key in aliases)
            && (key in r ==> r[key] == if key in m then m[key] else name)
  {
    if aliases == [] {
    } else {
      AliasesFill(m, aliases[..|aliases| - 1], name, key);
      assert aliases == aliases[..|aliases| - 1] + [aliases[|aliases| - 1]];
    }
  }

  /** Extra aliases fill what is left, in their order. */
  lemma {:induction false} ExtraFills(m: map<string, string>, extra: seq<(string, seq<string>)>, libs: Libraries,
                                      key: string)
    ensures var r := IndexExtra(m, extra, libs);
            && (key in m ==> key in r && r[key] == m[key])
            && (key !in m && key in r ==>
                  exists i :: Aliased(libs, extra, i, key) && extra[i].0 == r[key]
                              && forall j :: Aliased(libs, extra, j, key) ==> i <= j)
            && (key !in r ==> forall i :: !Aliased(libs, extra, i, key))
  {
    if extra == [] {
    } else {
      var front, last := extra[..|extra| - 1], extra[|extra| - 1];
      ExtraFills(m, front, libs, key);
      AliasesFill(IndexExtra(m, front, libs), last.1, last.0, key);
      AliasesStay(front, last, libs, key);
      assert extra == front + [last];
    }
  }

  lemma AliasesStay(front: seq<(string, seq<string>)>, last: (string, seq<string>), libs: Libraries, key: string)
    ensures forall i :: Aliased(libs, front + [last], i, key) <==>
                        Aliased(libs, front, i, key) || (i == |front| && key in last.1 && IsLibrary(libs, last.0))
    ensures forall i :: 0 <= i < |front| ==> (front + [last])[i] == front[i]
  {
  }

  /** Which spellings the bundle knows, and whose each is. */
  lemma SonameMapMeans(libs: Libraries, files: map<string, string>, extra: seq<(string, seq<string>)>, key: string)
    ensures var m := SonameToName(libs, files, extra);
            && (key in m <==> Named(libs, files, extra, key))
            && (key in m ==> Owns(libs, files, extra, key, m[key]))
  {
    var own := IndexLibraries(libs, files);
    LibrariesOwn(libs, files, key);
    ExtraFills(own, extra, libs, key);
  }

  // ----- imports from outside -----

  /** The bundle holds a library of that soname or spelling, or one whose name and the soname begin one another. */
  ghost predicate Inside(b: Snapshot, extra: seq<(string, seq<string>)>, soname: string) {
    || Named(b.metadata, b.files, extra, soname) || soname in b.files
    || exists e :: e in b.metadata
         && (e.1.soname == soname || e.0 + "." <= soname || soname + "." <= e.0)
  }

  /** The library's own version requirements list the version for `soname`. */
  predicate Requires(meta: ElfMetadata, version: string, soname: string) {
    exists e :: e in meta.versionsRequired && e.0 == soname && version in e.1
  }

  /** The versions of the C, C++ and Fortran runtimes. */
  predicate RuntimeVersion(version: string) {
    || "GLIBC_" <= version || "GLIBCXX_" <= version || "CXXABI_" <= version || "GCC_" <= version
    || "LIBGCC_" <= version || "LIBC_" <= version || "GOMP_" <= version || "OMP_" <= version
    || "GFORTRAN_" <= version || "GLIBCABI_" <= version
  }

  /** A versioned import of a library outside the bundle: the one it names or, unnamed, those it is required from. */
  ghost predicate FromOutside(b: Snapshot, extra: seq<(string, seq<string>)>, meta: ElfMetadata, i: ElfImport) {
    && i.version != ""
    && if i.versionSoname != "" then !Inside(b, extra, i.versionSoname)
       else
         && (forall s :: Requires(meta, i.version, s) ==> !Inside(b, extra, s))
         && ((exists s :: Requires(meta, i.version, s)) || RuntimeVersion(i.version))
  }

  lemma InsideMeans(b: Snapshot, extra: seq<(string, seq<string>)>, soname: string)
    requires Built(b, extra)
    ensures ResolvesIntra(b, soname) <==> Inside(b, extra, soname)
  {
    SonameMapMeans(b.metadata, b.files, extra, soname);
  }

  lemma SystemVersions(version: string)
    ensures LooksSystemVersion(version) <==> RuntimeVersion(version)
  {
    forall k | 0 <= k < 10 ensures SYSTEM_VERSION_PREFIXES[k] <= version ==> RuntimeVersion(version) {
      PrefixIsRuntime(version, k);
    }
    if RuntimeVersion(version) {
      var k := RuntimePrefix(version);
      assert SYSTEM_VERSION_PREFIXES[k] in SYSTEM_VERSION_PREFIXES;
    }
  }

  lemma PrefixIsRuntime(version: string, k: nat)
    requires k < 10
    ensures SYSTEM_VERSION_PREFIXES[k] <= version ==> RuntimeVersion(version)
  {
  }

  lemma RuntimePrefix(version: string) returns (k: nat)
    requires RuntimeVersion(version)
    ensures k < 10 && SYSTEM_VERSION_PREFIXES[k] <= version
  {
    k := if "GLIBC_" <= version then 0 else if "GLIBCXX_" <= version then 1 else if "CXXABI_" <= version then 2
         else if "GCC_" <= version then 3 else if "LIBGCC_" <= version then 4 else if "LIBC_" <= version then 5
         else if "GOMP_" <= version then 6 else if "OMP_" <= version then 7
         else if "GFORTRAN_" <= version then 8 else 9;
  }

  /** Of a built bundle: what the detector takes to be satisfied from outside. */
  lemma ExternalMeans(b: Snapshot, extra: seq<(string, seq<string>)>, e: (string, ElfMetadata), i: ElfImport)
    requires Built(b, extra)
    ensures IsExternal(Consumed(e.0, i), e.1, b) <==> FromOutside(b, extra, e.1, i)
  {
    SystemVersions(i.version);
    forall s ensures ResolvesIntra(b, s) <==> Inside(b, extra, s) {
      InsideMeans(b, extra, s);
    }
    assert forall s :: RequiredFrom(e.1, i.version, s) <==> Requires(e.1, i.version, s);
  }

  // ----- removals -----

  /** In the old bundle the library could load some library that exports the symbol at that version. */
  ghost predicate Served(old_: Snapshot, library: string, symbol: string, version: string) {
    library in old_.files
    && exists provider, p :: ExportsAt(old_.metadata, provider, symbol, version)
                          && Loads(old_.metadata, old_.resolution.sonameToName, library, provider, p)
  }

  lemma EverProvidedIsServed(old_: Snapshot, extra: seq<(string, seq<string>)>, c: ConsumerEntry, symbol: string)
    requires Built(old_, extra)
    ensures EverProvided(old_, c, symbol) <==> Served(old_, c.library, symbol, c.version)
  {
    if EverProvided(old_, c, symbol) {
      var provider :| provider in CompatibleOld(old_, c, symbol) * Reach(old_.resolution, c.library);
      CompatibleExports(old_, extra, c, symbol, provider);
      ReachIsLoaded(old_, extra, c.library, provider);
    }
    if Served(old_, c.library, symbol, c.version) {
      var provider, p :| ExportsAt(old_.metadata, provider, symbol, c.version)
                         && Loads(old_.metadata, old_.resolution.sonameToName, c.library, provider, p);
      CompatibleExports(old_, extra, c, symbol, provider);
      ReachIsLoaded(old_, extra, c.library, provider);
      assert provider in CompatibleOld(old_, c, symbol) * Reach(old_.resolution, c.library);
    }
  }

  /** A system symbol, or one that an entry from outside may provide when only system libraries come from there. */
  predicate Excused(policy: Policy, new_: Snapshot, e: (string, ElfMetadata), symbol: string) {
    var names := new_.resolution.sonameToName;
    || policy.systemSymbol(symbol)
    || (policy.outwardAllSystem(e.0)
        && exists n :: n in e.1.needed && (n in names ==> names[n] == e.0) && policy.namesExplicitProvider(n))
  }

  /** One of a library's own imports lost what served it, and nothing else accounts for it. */
  ghost predicate Lost(policy: Policy, old_: Snapshot, new_: Snapshot, newExtra: seq<(string, seq<string>)>,
                       symbol: string, e: (string, ElfMetadata), i: ElfImport)
  {
    && e in new_.metadata && i in e.1.imports && i.name == symbol && !i.weak
    && Served(old_, e.0, symbol, i.version)
    && !FromOutside(new_, newExtra, e.1, i)
    && !Excused(policy, new_, e, symbol)
  }

  lemma ExcusedMeans(policy: Policy, b: Snapshot, extra: seq<(string, seq<string>)>, e: (string, ElfMetadata),
                     i: ElfImport, symbol: string)
    requires Built(b, extra) && e in b.metadata
    ensures Unexcused(policy, b, Consumed(e.0, i), symbol) <==> !Excused(policy, b, e, symbol)
  {
    var names := b.resolution.sonameToName;
    PartsPartition(names, e.0, e.1.needed);
    var inside, outside := Part(names, e.0, e.1.needed, true), Part(names, e.0, e.1.needed, false);
    forall n ensures n in outside <==> n in e.1.needed && (n in names ==> names[n] == e.0) {
      assert n in multiset(e.1.needed) <==> n in multiset(inside) || n in multiset(outside);
      assert n in inside <==> n in multiset(inside);
      assert n in outside <==> n in multiset(outside);
    }
  }

  lemma LostIsRemoval(policy: Policy, old_: Snapshot, oldExtra: seq<(string, seq<string>)>, new_: Snapshot,
                      newExtra: seq<(string, seq<string>)>, symbol: string, e: (string, ElfMetadata), i: ElfImport)
    requires Built(old_, oldExtra) && Built(new_, newExtra) && e in new_.metadata && i in e.1.imports
             && i.name == symbol
    ensures IsRemoval(policy, old_, new_, symbol, Consumed(e.0, i)) <==>
            !Exports(new_.metadata, symbol) && Lost(policy, old_, new_, newExtra, symbol, e, i)
  {
    var c := Consumed(e.0, i);
    UnprovidedIsUnexported(new_, newExtra, symbol);
    EverProvidedIsServed(old_, oldExtra, c, symbol);
    MetadataIsOwn(new_.metadata, e);
    ConsumersInHold(e.0, e.1.imports, symbol, c);
    ConsumersHold(new_.metadata, symbol, c);
    ExternalMeans(new_, newExtra, e, i);
    ExcusedMeans(policy, new_, newExtra, e, i, symbol);
  }

  /** A consumer entry of the graph is some library's import. */
  lemma ConsumerIsImport(b: Snapshot, extra: seq<(string, seq<string>)>, symbol: string, c: ConsumerEntry)
    returns (e: (string, ElfMetadata), i: ElfImport)
    requires Built(b, extra) && c in ListAt(b.resolution.consumers, symbol)
    ensures e in b.metadata && i in e.1.imports && i.name == symbol && c == Consumed(e.0, i)
  {
    ConsumersHold(b.metadata, symbol, c);
    e :| e in b.metadata && c in ConsumersIn(e.0, e.1.imports, symbol);
    ConsumersInHold(e.0, e.1.imports, symbol, c);
    i :| i in e.1.imports && i.name == symbol && c == Consumed(e.0, i);
  }

  /**
   Of two bundles as built from their metadata: a removal is reported for a library and a
   symbol exactly when no library of the new bundle exports the symbol and one of the
   library's strong imports of it could, in the old bundle, load a library exporting it at
   the required version, is not satisfied from outside, and is not excused.
   */
  lemma RemovalMeans(policy: Policy, old_: Snapshot, oldExtra: seq<(string, seq<string>)>, new_: Snapshot,
                     newExtra: seq<(string, seq<string>)>, symbol: string, library: string)
    requires Built(old_, oldExtra) && Built(new_, newExtra)
    ensures IntraDepRemoved(symbol, library) in Findings(policy, old_, new_, new_.resolution.consumed) <==>
            && !Exports(new_.metadata, symbol)
            && exists e: (string, ElfMetadata), i :: e.0 == library && Lost(policy, old_, new_, newExtra, symbol, e, i)
  {
    assert forall s :: s in new_.resolution.consumers <==> s in Elements(new_.resolution.consumed);
    RemovalIsExact(policy, old_, new_, symbol, library);
    if c: ConsumerEntry :| c.library == library && IsRemoval(policy, old_, new_, symbol, c) {
      var e, i := ConsumerIsImport(new_, newExtra, symbol, c);
      LostIsRemoval(policy, old_, oldExtra, new_, newExtra, symbol, e, i);
    }
    if e: (string, ElfMetadata), i :| e.0 == library && Lost(policy, old_, new_, newExtra, symbol, e, i) {
      LostIsRemoval(policy, old_, oldExtra, new_, newExtra, symbol, e, i);
    }
  }

  /** An import nobody exports now, never served, not satisfied from outside and not passed by the classifier. */
  ghost predicate NeverServed(policy: Policy, old_: Snapshot, new_: Snapshot, newExtra: seq<(string, seq<string>)>,
                              symbol: string, e: (string, ElfMetadata), i: ElfImport)
  {
    && e in new_.metadata && i in e.1.imports && i.name == symbol && !i.weak
    && !Served(old_, e.0, symbol, i.version)
    && !FromOutside(new_, newExtra, e.1, i)
    && policy.classify(ConsumerEntry(e.0, i.version, i.weak, i.versionSoname), symbol, policy.outwardAllSystem(e.0))
  }

  lemma NeverServedVerdict(policy: Policy, old_: Snapshot, oldExtra: seq<(string, seq<string>)>, new_: Snapshot,
                           newExtra: seq<(string, seq<string>)>, symbol: string, e: (string, ElfMetadata),
                           i: ElfImport)
    requires Built(old_, oldExtra) && Built(new_, newExtra) && e in new_.metadata && i in e.1.imports
             && i.name == symbol
    ensures Verdict(policy, old_, new_, symbol, Consumed(e.0, i)) == Some(Unresolved(symbol, e.0)) <==>
            NeverServed(policy, old_, new_, newExtra, symbol, e, i)
  {
    EverProvidedIsServed(old_, oldExtra, Consumed(e.0, i), symbol);
    MetadataIsOwn(new_.metadata, e);
    ExternalMeans(new_, newExtra, e, i);
  }

  lemma UnresolvedHasImport(policy: Policy, old_: Snapshot, oldExtra: seq<(string, seq<string>)>, new_: Snapshot,
                            newExtra: seq<(string, seq<string>)>, f: Finding)
    returns (e: (string, ElfMetadata), i: ElfImport)
    requires Built(old_, oldExtra) && Built(new_, newExtra) && f.Unresolved?
    requires exists c :: c in ListAt(new_.resolution.consumers, f.symbol)
                         && Verdict(policy, old_, new_, f.symbol, c) == Some(f)
    ensures e.0 == f.library && NeverServed(policy, old_, new_, newExtra, f.symbol, e, i)
  {
    var c :| c in ListAt(new_.resolution.consumers, f.symbol) && Verdict(policy, old_, new_, f.symbol, c) == Some(f);
    e, i := ConsumerIsImport(new_, newExtra, f.symbol, c);
    assert c.library == f.library;
    NeverServedVerdict(policy, old_, oldExtra, new_, newExtra, f.symbol, e, i);
  }

  lemma ImportIsConsumer(b: Snapshot, extra: seq<(string, seq<string>)>, e: (string, ElfMetadata), i: ElfImport)
    requires Built(b, extra) && e in b.metadata && i in e.1.imports
    ensures Consumed(e.0, i) in ListAt(b.resolution.consumers, i.name)
    ensures i.name in b.resolution.consumed
  {
    ConsumersInHold(e.0, e.1.imports, i.name, Consumed(e.0, i));
    ConsumersHold(b.metadata, i.name, Consumed(e.0, i));
    assert i.name in b.resolution.consumers;
    assert i.name in Elements(b.resolution.consumed);
  }

  /** The other kind of finding, said of the metadata and the classifier. */
  lemma UnresolvedMeans(policy: Policy, old_: Snapshot, oldExtra: seq<(string, seq<string>)>, new_: Snapshot,
                        newExtra: seq<(string, seq<string>)>, symbol: string, library: string)
    requires Built(old_, oldExtra) && Built(new_, newExtra)
    ensures Unresolved(symbol, library) in Findings(policy, old_, new_, new_.resolution.consumed) <==>
            && !Exports(new_.metadata, symbol)
            && exists e: (string, ElfMetadata), i ::
                 e.0 == library && NeverServed(policy, old_, new_, newExtra, symbol, e, i)
  {
    var f := Unresolved(symbol, library);
    FindingsContain(policy, old_, new_, new_.resolution.consumed, f);
    UnprovidedIsUnexported(new_, newExtra, symbol);
    if Found(policy, old_, new_, f) {
      var e, i := UnresolvedHasImport(policy, old_, oldExtra, new_, newExtra, f);
    }
    if e: (string, ElfMetadata), i :| e.0 == library && NeverServed(policy, old_, new_, newExtra, symbol, e, i) {
      NeverServedVerdict(policy, old_, oldExtra, new_, newExtra, symbol, e, i);
      ImportIsConsumer(new_, newExtra, e, i);
    }
  }

  /** A built bundle compared with itself, whatever the policy: no removal. */
  lemma BundleAgainstItself(policy: Policy, b: Snapshot, extra: seq<(string, seq<string>)>, symbol: string,
                            library: string)
    requires Built(b, extra)
    ensures IntraDepRemoved(symbol, library) !in Findings(policy, b, b, b.resolution.consumed)
  {
    assert forall s :: s in b.resolution.consumers <==> s in Elements(b.resolution.consumed);
    SelfComparisonIsQuiet(policy, b, symbol, library);
  }
}
