/**
 The bundle's resolution graph (abicheck/bundle.py, bundle_models.py), as the metadata-only
 build makes it, which never touches the file system.
 */
module BundleGraph {
  import opened Options
  import opened Ordering

  datatype ElfSymbol = ElfSymbol(name: string, version: string, isDefault: bool, visibility: string, binding: string)
  datatype ElfImport = ElfImport(name: string, version: string, weak: bool, versionSoname: string)

  /** `versionsRequired` is the verneed dictionary in insertion order. */
  datatype ElfMetadata = ElfMetadata(
    soname: string, needed: seq<string>, symbols: seq<ElfSymbol>, imports: seq<ElfImport>,
    versionsRequired: seq<(string, seq<string>)>)

  /** Library name to metadata, in insertion order. */
  type Libraries = seq<(string, ElfMetadata)>

  datatype ProviderEntry = ProviderEntry(library: string, version: string, isDefault: bool, binding: string)
  datatype ConsumerEntry = ConsumerEntry(library: string, version: string, weak: bool, versionSoname: string)

  /** `consumed` is the insertion order of `consumers`. */
  datatype ResolutionGraph = ResolutionGraph(
    providers: map<string, seq<ProviderEntry>>,
    consumers: map<string, seq<ConsumerEntry>>, consumed: seq<string>,
    intraNeeded: map<string, seq<string>>, extraNeeded: map<string, seq<string>>,
    sonameToName: map<string, string>)

  function ListAt<T>(lists: map<string, seq<T>>, key: string): seq<T> {
    if key in lists then lists[key] else []
  }

  function ProvidersFor(g: ResolutionGraph, symbol: string): seq<ProviderEntry> {
    ListAt(g.providers, symbol)
  }

  /** `dict.setdefault(key, []).append(x)`. */
  function AppendAt<T>(lists: map<string, seq<T>>, key: string, x: T): (r: map<string, seq<T>>)
    ensures forall k :: ListAt(r, k) == ListAt(lists, k) + (if k == key then [x] else [])
    ensures r.Keys == lists.Keys + {key}
  {
    lists[key := ListAt(lists, key) + [x]]
  }

  predicate DistinctLibraries(libs: Libraries) {
    forall i, j :: 0 <= i < j < |libs| ==> libs[i].0 != libs[j].0
  }

  predicate IsLibrary(libs: Libraries, name: string) {
    exists e :: e in libs && e.0 == name
  }

  // ----- whose soname is it -----

  function SetDefault(m: map<string, string>, key: string, value: string): map<string, string> {
    if key in m then m else m[key := value]
  }

  /** One library's spellings: its soname overrides, its key and file name only fill gaps. */
  function IndexLibrary(m: map<string, string>, name: string, meta: ElfMetadata, files: map<string, string>)
    : map<string, string>
  {
    var m1 := if meta.soname != "" then m[meta.soname := name] else m;
    var m2 := SetDefault(m1, name, name);
    if name in files then SetDefault(m2, files[name], name) else m2
  }

  function IndexLibraries(libs: Libraries, files: map<string, string>): map<string, string> {
    if libs == [] then map[]
    else
      var (name, meta) := libs[|libs| - 1];
      IndexLibrary(IndexLibraries(libs[..|libs| - 1], files), name, meta, files)
  }

  function IndexAliases(m: map<string, string>, aliases: seq<string>, name: string): map<string, string> {
    if aliases == [] then m
    else SetDefault(IndexAliases(m, aliases[..|aliases| - 1], name), aliases[|aliases| - 1], name)
  }

  /** Extra aliases count only for libraries that have metadata. */
  function IndexExtra(m: map<string, string>, extra: seq<(string, seq<string>)>, libs: Libraries): map<string, string> {
    if extra == [] then m
    else
      var before, (name, aliases) := IndexExtra(m, extra[..|extra| - 1], libs), extra[|extra| - 1];
      if IsLibrary(libs, name) then IndexAliases(before, aliases, name) else before
  }

  function SonameToName(libs: Libraries, files: map<string, string>, extra: seq<(string, seq<string>)>)
    : map<string, string>
  {
    IndexExtra(IndexLibraries(libs, files), extra, libs)
  }

  ghost predicate NamesLibraries(m: map<string, string>, libs: Libraries) {
    forall k :: k in m ==> IsLibrary(libs, m[k])
  }

  lemma {:induction false} IndexAliasesKeeps(m: map<string, string>, aliases: seq<string>, name: string,
                                             libs: Libraries)
    requires NamesLibraries(m, libs) && IsLibrary(libs, name)
    ensures var r := IndexAliases(m, aliases, name);
            NamesLibraries(r, libs) && forall k :: k in m ==> k in r && r[k] == m[k]
  {
    if aliases == [] {
    } else {
      IndexAliasesKeeps(m, aliases[..|aliases| - 1], name, libs);
    }
  }

  lemma {:induction false} IndexExtraKeeps(m: map<string, string>, extra: seq<(string, seq<string>)>, libs: Libraries)
    requires NamesLibraries(m, libs)
    ensures var r := IndexExtra(m, extra, libs);
            NamesLibraries(r, libs) && forall k :: k in m ==> k in r && r[k] == m[k]
  {
    if extra == [] {
    } else {
      IndexExtraKeeps(m, extra[..|extra| - 1], libs);
      var (name, aliases) := extra[|extra| - 1];
      if IsLibrary(libs, name) {
        IndexAliasesKeeps(IndexExtra(m, extra[..|extra| - 1], libs), aliases, name, libs);
      }
    }
  }

  /** The last library to declare a soname. */
  function LastDeclaring(libs: Libraries, soname: string): Option<string> {
    if libs == [] then None
    else if libs[|libs| - 1].1.soname == soname then Some(libs[|libs| - 1].0)
    else LastDeclaring(libs[..|libs| - 1], soname)
  }

  lemma {:induction false} IndexLibrariesOwns(libs: Libraries, files: map<string, string>, key: string)
    requires key != ""
    ensures var m := IndexLibraries(libs, files);
            LastDeclaring(libs, key).Some? ==> key in m && m[key] == LastDeclaring(libs, key).value
  {
    if libs == [] {
    } else {
      IndexLibrariesOwns(libs[..|libs| - 1], files, key);
    }
  }

  lemma IndexLibraryAdds(m: map<string, string>, name: string, meta: ElfMetadata, files: map<string, string>)
    ensures var r := IndexLibrary(m, name, meta, files);
            && name in r
            && (forall k :: k in m ==> k in r)
            && (forall k :: k in r ==> r[k] == name || (k in m && r[k] == m[k]))
  {
  }

  lemma {:induction false} IndexLibrariesNames(libs: Libraries, files: map<string, string>)
    ensures NamesLibraries(IndexLibraries(libs, files), libs)
    ensures forall e :: e in libs ==> e.0 in IndexLibraries(libs, files)
  {
    if libs == [] {
    } else {
      var front, last := libs[..|libs| - 1], libs[|libs| - 1];
      assert libs == front + [last];
      var m, r := IndexLibraries(front, files), IndexLibraries(libs, files);
      IndexLibrariesNames(front, files);
      IndexLibraryAdds(m, last.0, last.1, files);
      OneLibraryMore(front, last, m, r);
    }
  }

  lemma OneLibraryMore(front: Libraries, last: (string, ElfMetadata), m: map<string, string>, r: map<string, string>)
    requires NamesLibraries(m, front) && forall e :: e in front ==> e.0 in m
    requires last.0 in r && forall k :: k in m ==> k in r
    requires forall k :: k in r ==> r[k] == last.0 || (k in m && r[k] == m[k])
    ensures NamesLibraries(r, front + [last]) && forall e :: e in front + [last] ==> e.0 in r
  {
  }

  /** Every spelling names a library with metadata, and a declared soname belongs to the last to declare it. */
  lemma SonameOwner(libs: Libraries, files: map<string, string>, extra: seq<(string, seq<string>)>, key: string)
    requires key != ""
    ensures var m := SonameToName(libs, files, extra);
            && NamesLibraries(m, libs)
            && (IsLibrary(libs, key) ==> key in m)
            && (LastDeclaring(libs, key).Some? ==> key in m && m[key] == LastDeclaring(libs, key).value)
  {
    IndexLibrariesOwns(libs, files, key);
    IndexLibrariesNames(libs, files);
    IndexExtraKeeps(IndexLibraries(libs, files), extra, libs);
  }

  method BuildSonameMap(libs: Libraries, files: map<string, string>, extra: seq<(string, seq<string>)>)
    returns (m: map<string, string>)
    ensures m == SonameToName(libs, files, extra)
  {
    m := map[];
    for i := 0 to |libs|
      invariant m == IndexLibraries(libs[..i], files)
    {
      assert libs[..i + 1][..i] == libs[..i];
      var (name, meta) := libs[i];
      if meta.soname != "" {
        m := m[meta.soname := name];
      }
      m := SetDefault(m, name, name);
      if name in files {
        m := SetDefault(m, files[name], name);
      }
    }
    assert libs[..|libs|] == libs;
    ghost var indexed := m;
    for i := 0 to |extra|
      invariant m == IndexExtra(indexed, extra[..i], libs)
    {
      assert extra[..i + 1][..i] == extra[..i];
      var (name, aliases) := extra[i];
      if !IsLibrary(libs, name) {
        continue;
      }
      ghost var before := m;
      for j := 0 to |aliases|
        invariant m == IndexAliases(before, aliases[..j], name)
      {
        assert aliases[..j + 1][..j] == aliases[..j];
        m := SetDefault(m, aliases[j], name);
      }
      assert aliases[..|aliases|] == aliases;
    }
    assert extra[..|extra|] == extra;
  }

  // ----- needed libraries, providers, consumers -----

  predicate IsIntra(m: map<string, string>, name: string, needed: string) {
    needed in m && m[needed] != name
  }

  /** The part of a DT_NEEDED list inside (or outside) the bundle, in order. */
  function Part(m: map<string, string>, name: string, needed: seq<string>, intra: bool): seq<string> {
    if needed == [] then []
    else
      var front, last := Part(m, name, needed[..|needed| - 1], intra), needed[|needed| - 1];
      if IsIntra(m, name, last) == intra then front + [last] else front
  }

  /** Each part holds only what belongs there. */
  lemma {:induction false} PartHoldsOwn(m: map<string, string>, name: string, needed: seq<string>, intra: bool)
    ensures forall n :: n in Part(m, name, needed, intra) ==> IsIntra(m, name, n) == intra
  {
    if needed == [] {
    } else {
      PartHoldsOwn(m, name, needed[..|needed| - 1], intra);
    }
  }

  lemma {:induction false} PartsAddUp(m: map<string, string>, name: string, needed: seq<string>)
    ensures multiset(Part(m, name, needed, true)) + multiset(Part(m, name, needed, false)) == multiset(needed)
  {
    if needed == [] {
    } else {
      var front, last := needed[..|needed| - 1], needed[|needed| - 1];
      PartsAddUp(m, name, front);
      assert needed == front + [last];
    }
  }

  /** The split loses and invents nothing, and each part holds only what belongs there. */
  lemma PartsPartition(m: map<string, string>, name: string, needed: seq<string>)
    ensures multiset(Part(m, name, needed, true)) + multiset(Part(m, name, needed, false)) == multiset(needed)
    ensures forall n :: n in Part(m, name, needed, true) ==> IsIntra(m, name, n)
    ensures forall n :: n in Part(m, name, needed, false) ==> !IsIntra(m, name, n)
  {
    PartsAddUp(m, name, needed);
    PartHoldsOwn(m, name, needed, true);
    PartHoldsOwn(m, name, needed, false);
  }

  method SplitNeeded(m: map<string, string>, name: string, needed: seq<string>)
    returns (intra: seq<string>, extra: seq<string>)
    ensures intra == Part(m, name, needed, true) && extra == Part(m, name, needed, false)
  {
    intra, extra := [], [];
    for i := 0 to |needed|
      invariant intra == Part(m, name, needed[..i], true) && extra == Part(m, name, needed[..i], false)
    {
      assert needed[..i + 1][..i] == needed[..i];
      if needed[i] in m && m[needed[i]] != name {
        intra := intra + [needed[i]];
      } else {
        extra := extra + [needed[i]];
      }
    }
    assert needed[..|needed|] == needed;
  }

  predicate Exported(s: ElfSymbol) {
    s.visibility == "default" || s.visibility == "protected"
  }

  function Provided(name: string, s: ElfSymbol): ProviderEntry {
    ProviderEntry(name, s.version, s.isDefault, s.binding)
  }

  function Consumed(name: string, i: ElfImport): ConsumerEntry {
    ConsumerEntry(name, i.version, i.weak, i.versionSoname)
  }

  /** One library's exported definitions of a symbol, in symbol order. */
  function ProvidersIn(name: string, symbols: seq<ElfSymbol>, symbol: string): seq<ProviderEntry> {
    if symbols == [] then []
    else
      var front, last := ProvidersIn(name, symbols[..|symbols| - 1], symbol), symbols[|symbols| - 1];
      if last.name == symbol && Exported(last) then front + [Provided(name, last)] else front
  }

  function ProvidersOf(libs: Libraries, symbol: string): seq<ProviderEntry> {
    if libs == [] then []
    else ProvidersOf(libs[..|libs| - 1], symbol) + ProvidersIn(libs[|libs| - 1].0, libs[|libs| - 1].1.symbols, symbol)
  }

  function ConsumersIn(name: string, imports: seq<ElfImport>, symbol: string): seq<ConsumerEntry> {
    if imports == [] then []
    else
      var front, last := ConsumersIn(name, imports[..|imports| - 1], symbol), imports[|imports| - 1];
      if last.name == symbol then front + [Consumed(name, last)] else front
  }

  function ConsumersOf(libs: Libraries, symbol: string): seq<ConsumerEntry> {
    if libs == [] then []
    else ConsumersOf(libs[..|libs| - 1], symbol) + ConsumersIn(libs[|libs| - 1].0, libs[|libs| - 1].1.imports, symbol)
  }

  function ImportNames(imports: seq<ElfImport>): seq<string> {
    if imports == [] then [] else ImportNames(imports[..|imports| - 1]) + [imports[|imports| - 1].name]
  }

  /** Every import of every library by name, in order. */
  function ImportedNames(libs: Libraries): seq<string> {
    if libs == [] then []
    else ImportedNames(libs[..|libs| - 1]) + ImportNames(libs[|libs| - 1].1.imports)
  }

  /** What the graph of a bundle is, field by field. */
  ghost predicate IsGraphOf(g: ResolutionGraph, libs: Libraries, files: map<string, string>,
                            extra: seq<(string, seq<string>)>)
  {
    && g.sonameToName == SonameToName(libs, files, extra)
    && (forall symbol :: ListAt(g.providers, symbol) == ProvidersOf(libs, symbol))
    && (forall symbol :: ListAt(g.consumers, symbol) == ConsumersOf(libs, symbol))
    && g.consumers.Keys == Elements(g.consumed)
    && g.consumed == FirstMentions(ImportedNames(libs))
    && Divided(libs, g.sonameToName, g.intraNeeded, g.extraNeeded)
  }

  /** Every library's DT_NEEDED list in its two parts, and no other entries. */
  ghost predicate Divided(libs: Libraries, m: map<string, string>, intraNeeded: map<string, seq<string>>,
                          extraNeeded: map<string, seq<string>>)
  {
    && (forall e :: e in libs ==>
          && e.0 in intraNeeded && intraNeeded[e.0] == Part(m, e.0, e.1.needed, true)
          && e.0 in extraNeeded && extraNeeded[e.0] == Part(m, e.0, e.1.needed, false))
    && (forall name :: name in intraNeeded ==> IsLibrary(libs, name))
    && (forall name :: name in extraNeeded ==> IsLibrary(libs, name))
  }

  method IndexExports(libs: Libraries) returns (providers: map<string, seq<ProviderEntry>>)
    ensures forall symbol :: ListAt(providers, symbol) == ProvidersOf(libs, symbol)
  {
    providers := map[];
    for i := 0 to |libs|
      invariant forall symbol :: ListAt(providers, symbol) == ProvidersOf(libs[..i], symbol)
    {
      assert libs[..i + 1][..i] == libs[..i];
      providers := AddExports(providers, libs[i].0, libs[i].1.symbols);
    }
    assert libs[..|libs|] == libs;
  }

  ghost predicate ExportsAdded(before: map<string, seq<ProviderEntry>>, after: map<string, seq<ProviderEntry>>,
                               name: string, symbols: seq<ElfSymbol>)
  {
    forall symbol :: ListAt(after, symbol) == ListAt(before, symbol) + ProvidersIn(name, symbols, symbol)
  }

  lemma ProvidersInStep(name: string, front: seq<ElfSymbol>, s: ElfSymbol, symbol: string)
    ensures ProvidersIn(name, front + [s], symbol)
         == ProvidersIn(name, front, symbol) + if s.name == symbol && Exported(s) then [Provided(name, s)] else []
  {
    assert (front + [s])[..|front|] == front;
  }

  lemma OneSymbolMore(before: map<string, seq<ProviderEntry>>, after: map<string, seq<ProviderEntry>>, name: string,
                      front: seq<ElfSymbol>, s: ElfSymbol)
    requires ExportsAdded(before, after, name, front)
    ensures ExportsAdded(before, if Exported(s) then AppendAt(after, s.name, Provided(name, s)) else after, name,
                         front + [s])
  {
    var more := if Exported(s) then AppendAt(after, s.name, Provided(name, s)) else after;
    forall symbol ensures ListAt(more, symbol) == ListAt(before, symbol) + ProvidersIn(name, front + [s], symbol) {
      ProvidersInStep(name, front, s, symbol);
      AddedOne(ListAt(before, symbol), ProvidersIn(name, front, symbol),
               if s.name == symbol && Exported(s) then [Provided(name, s)] else []);
    }
  }

  lemma AddedOne<T>(a: seq<T>, b: seq<T>, c: seq<T>)
    ensures a + b + c == a + (b + c)
    ensures a + [] == a
  {
  }

  method AddExports(before: map<string, seq<ProviderEntry>>, name: string, symbols: seq<ElfSymbol>)
    returns (providers: map<string, seq<ProviderEntry>>)
    ensures ExportsAdded(before, providers, name, symbols)
  {
    providers := before;
    for j := 0 to |symbols|
      invariant ExportsAdded(before, providers, name, symbols[..j])
    {
      var s := symbols[j];
      OneSymbolMore(before, providers, name, symbols[..j], s);
      TakeOneMore(symbols, j);
      if !(s.visibility == "default" || s.visibility == "protected") {
        continue;
      }
      providers := AppendAt(providers, s.name, Provided(name, s));
    }
    assert symbols[..|symbols|] == symbols;
  }

  method IndexImports(libs: Libraries) returns (consumers: map<string, seq<ConsumerEntry>>, consumed: seq<string>)
    ensures forall symbol :: ListAt(consumers, symbol) == ConsumersOf(libs, symbol)
    ensures consumers.Keys == Elements(consumed) && consumed == FirstMentions(ImportedNames(libs))
  {
    consumers, consumed := map[], [];
    for i := 0 to |libs|
      invariant forall symbol :: ListAt(consumers, symbol) == ConsumersOf(libs[..i], symbol)
      invariant KeptInOrder(consumers, consumed, ImportedNames(libs[..i]))
    {
      assert libs[..i + 1][..i] == libs[..i];
      consumers, consumed := AddImports(consumers, consumed, ImportedNames(libs[..i]), libs[i].0, libs[i].1.imports);
    }
    assert libs[..|libs|] == libs;
  }

  /** `consumed` is the order in which a dictionary keeps `names`: that of their first mention. */
  ghost predicate KeptInOrder(consumers: map<string, seq<ConsumerEntry>>, consumed: seq<string>, names: seq<string>) {
    consumers.Keys == Elements(consumed) && consumed == FirstMentions(names)
  }

  ghost predicate ImportsAdded(before: map<string, seq<ConsumerEntry>>, after: map<string, seq<ConsumerEntry>>,
                               name: string, imports: seq<ElfImport>)
  {
    forall symbol :: ListAt(after, symbol) == ListAt(before, symbol) + ConsumersIn(name, imports, symbol)
  }

  lemma OneEntryMore(before: map<string, seq<ConsumerEntry>>, after: map<string, seq<ConsumerEntry>>, name: string,
                     imports: seq<ElfImport>, j: nat)
    requires j < |imports| && ImportsAdded(before, after, name, imports[..j])
    ensures ImportsAdded(before, AppendAt(after, imports[j].name, Consumed(name, imports[j])), name, imports[..j + 1])
  {
    assert imports[..j + 1][..j] == imports[..j];
  }

  method AddImports(before: map<string, seq<ConsumerEntry>>, order: seq<string>, ghost names: seq<string>, name: string,
                    imports: seq<ElfImport>)
    returns (consumers: map<string, seq<ConsumerEntry>>, consumed: seq<string>)
    requires KeptInOrder(before, order, names)
    ensures ImportsAdded(before, consumers, name, imports)
    ensures KeptInOrder(consumers, consumed, names + ImportNames(imports))
  {
    consumers, consumed := before, order;
    NothingAdded(before, order, names, name, imports);
    for j := 0 to |imports|
      invariant Adding(before, consumers, consumed, names, name, imports, j)
    {
      OneImportMore(before, consumers, consumed, names, name, imports, j);
      if imports[j].name !in consumers {
        consumed := consumed + [imports[j].name];
      }
      consumers := AppendAt(consumers, imports[j].name, Consumed(name, imports[j]));
    }
    assert imports[..|imports|] == imports;
  }

  ghost predicate Adding(before: map<string, seq<ConsumerEntry>>, consumers: map<string, seq<ConsumerEntry>>,
                         consumed: seq<string>, names: seq<string>, name: string, imports: seq<ElfImport>, j: nat)
  {
    && j <= |imports|
    && ImportsAdded(before, consumers, name, imports[..j])
    && KeptInOrder(consumers, consumed, names + ImportNames(imports[..j]))
  }

  lemma NothingAdded(before: map<string, seq<ConsumerEntry>>, order: seq<string>, names: seq<string>, name: string,
                     imports: seq<ElfImport>)
    requires KeptInOrder(before, order, names)
    ensures Adding(before, before, order, names, name, imports, 0)
  {
    assert names + ImportNames(imports[..0]) == names;
  }

  lemma OneImportMore(before: map<string, seq<ConsumerEntry>>, consumers: map<string, seq<ConsumerEntry>>,
                      consumed: seq<string>, names: seq<string>, name: string, imports: seq<ElfImport>, j: nat)
    requires Adding(before, consumers, consumed, names, name, imports, j) && j < |imports|
    ensures var x := imports[j].name;
            Adding(before, AppendAt(consumers, x, Consumed(name, imports[j])),
                   if x in consumers then consumed else consumed + [x], names, name, imports, j + 1)
  {
    OneEntryMore(before, consumers, name, imports, j);
    OneMention(consumers, consumed, names + ImportNames(imports[..j]), imports[j].name, Consumed(name, imports[j]));
    OneNameMore(names, imports, j);
  }

  lemma OneNameMore(names: seq<string>, imports: seq<ElfImport>, j: nat)
    requires j < |imports|
    ensures names + ImportNames(imports[..j + 1]) == names + ImportNames(imports[..j]) + [imports[j].name]
  {
    assert imports[..j + 1][..j] == imports[..j];
    assert names + (ImportNames(imports[..j]) + [imports[j].name])
           == names + ImportNames(imports[..j]) + [imports[j].name];
  }

  lemma OneMention(consumers: map<string, seq<ConsumerEntry>>, consumed: seq<string>, names: seq<string>, name: string,
                   entry: ConsumerEntry)
    requires KeptInOrder(consumers, consumed, names)
    ensures KeptInOrder(AppendAt(consumers, name, entry), if name in consumers then consumed else consumed + [name],
                        names + [name])
  {
    assert (names + [name])[..|names|] == names;
    assert name in consumers <==> name in Elements(consumed);
    assert Elements(consumed + [name]) == Elements(consumed) + {name};
  }

  method ComputeResolutionGraph(libs: Libraries, files: map<string, string>, extra: seq<(string, seq<string>)>)
    returns (g: ResolutionGraph)
    requires DistinctLibraries(libs)
    ensures IsGraphOf(g, libs, files, extra)
  {
    var sonames := BuildSonameMap(libs, files, extra);
    var providers := IndexExports(libs);
    var consumers, consumed := IndexImports(libs);
    var intraNeeded, extraNeeded := DivideNeeded(libs, sonames);
    g := ResolutionGraph(providers, consumers, consumed, intraNeeded, extraNeeded, sonames);
  }

  method DivideNeeded(libs: Libraries, m: map<string, string>)
    returns (intraNeeded: map<string, seq<string>>, extraNeeded: map<string, seq<string>>)
    requires DistinctLibraries(libs)
    ensures Divided(libs, m, intraNeeded, extraNeeded)
  {
    intraNeeded, extraNeeded := map[], map[];
    for i := 0 to |libs|
      invariant Divided(libs[..i], m, intraNeeded, extraNeeded)
    {
      var (name, meta) := libs[i];
      var intra, rest := SplitNeeded(m, name, meta.needed);
      TakeOneMore(libs, i);
      OneLibraryDivided(libs[..i], libs[i], m, intraNeeded, extraNeeded);
      intraNeeded := intraNeeded[name := intra];
      extraNeeded := extraNeeded[name := rest];
    }
    TakeAll(libs);
  }

  lemma OneLibraryDivided(front: Libraries, last: (string, ElfMetadata), m: map<string, string>,
                          intraNeeded: map<string, seq<string>>, extraNeeded: map<string, seq<string>>)
    requires Divided(front, m, intraNeeded, extraNeeded) && forall e :: e in front ==> e.0 != last.0
    ensures Divided(front + [last], m, intraNeeded[last.0 := Part(m, last.0, last.1.needed, true)],
                    extraNeeded[last.0 := Part(m, last.0, last.1.needed, false)])
  {
    MoreLibraries(front, last);
  }

  lemma MoreLibraries(front: Libraries, last: (string, ElfMetadata))
    ensures IsLibrary(front + [last], last.0)
    ensures forall n :: IsLibrary(front, n) ==> IsLibrary(front + [last], n)
    ensures forall e :: e in front + [last] <==> e in front || e == last
  {
    var libs := front + [last];
    assert last in libs;
    forall n | IsLibrary(front, n) ensures IsLibrary(libs, n) {
      var e :| e in front && e.0 == n;
      assert e in libs;
    }
  }
}
