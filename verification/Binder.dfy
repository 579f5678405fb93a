/**
 Symbol binding over a load order (abicheck/binder.py): each import is searched through
 the loaded objects in order, skipping the importer itself.  The code tracks found flags
 and first providers as it goes; the specification speaks of the first object that
 satisfies the import, and of nothing else.
 */
module Binder {
  import opened Options
  import LoadOrder

  datatype Export = Export(version: string, isDefault: bool, visibility: string)
  type ExportIndex = map<string, map<string, seq<Export>>>

  datatype Symbol = Symbol(name: string, version: string, isDefault: bool, visibility: string)
  datatype Import = Import(name: string, version: string, weak: bool)
  datatype Metadata = Metadata(symbols: seq<Symbol>, imports: seq<Import>)

  /** The node dictionary in insertion order. */
  datatype Node = Node(path: string, depth: int, metadata: Option<Metadata>)
  datatype DependencyGraph = DependencyGraph(root: string, nodes: seq<Node>, edges: LoadOrder.Edges)

  datatype BindingStatus =
    ResolvedOk | Missing | VersionMismatch | WeakUnresolved | VisibilityBlocked | Interposed

  datatype SymbolBinding = SymbolBinding(
    consumer: string, symbol: string, version: string, provider: Option<string>, status: BindingStatus)

  predicate Hidden(e: Export) {
    e.visibility == "hidden" || e.visibility == "internal"
  }

  // ----- the specification -----

  /** One import of one object. */
  datatype Query = Query(consumer: string, symbol: string, version: string, weak: bool)

  function VersionsOf(index: ExportIndex, provider: string, symbol: string): Option<seq<Export>> {
    if provider in index && symbol in index[provider] then Some(index[provider][symbol]) else None
  }

  predicate Candidate(q: Query, index: ExportIndex, p: string) {
    p != q.consumer && VersionsOf(index, p, q.symbol).Some?
  }

  predicate Visible(q: Query, index: ExportIndex, p: string) {
    Candidate(q, index, p) && exists e :: e in VersionsOf(index, p, q.symbol).value && !Hidden(e)
  }

  /** A visible definition of the required version; of the default or no version when none is required. */
  predicate Satisfies(q: Query, index: ExportIndex, p: string) {
    && Candidate(q, index, p)
    && exists e :: e in VersionsOf(index, p, q.symbol).value && !Hidden(e)
                && (if q.version != "" then e.version == q.version else e.version == "" || e.isDefault)
  }

  /** `p` comes first in the order among the objects with a property. */
  ghost predicate First(order: seq<string>, has: string -> bool, p: string) {
    exists i :: 0 <= i < |order| && order[i] == p && has(p) && forall j :: 0 <= j < i ==> !has(order[j])
  }

  ghost predicate Anywhere(order: seq<string>, has: string -> bool) {
    exists i :: 0 <= i < |order| && has(order[i])
  }

  /** What a binding must be: the first match, or the reason why there is none. */
  ghost predicate IsBinding(q: Query, index: ExportIndex, order: seq<string>, b: SymbolBinding) {
    && b.consumer == q.consumer && b.symbol == q.symbol && b.version == q.version
    && match b.status
       case ResolvedOk => b.provider.Some? && First(order, p => Satisfies(q, index, p), b.provider.value)
       case VersionMismatch =>
         && !Anywhere(order, p => Satisfies(q, index, p))
         && b.provider.Some? && First(order, p => Visible(q, index, p), b.provider.value)
       case VisibilityBlocked =>
         && !Anywhere(order, p => Visible(q, index, p))
         && b.provider.Some? && First(order, p => Candidate(q, index, p), b.provider.value)
       case WeakUnresolved => q.weak && !Anywhere(order, p => Candidate(q, index, p)) && b.provider == None
       case Missing => !q.weak && !Anywhere(order, p => Candidate(q, index, p)) && b.provider == None
       case Interposed => false
  }

  /** The outcomes are exclusive: an import has one binding. */
  lemma BindingIsUnique(q: Query, index: ExportIndex, order: seq<string>, a: SymbolBinding, b: SymbolBinding)
    requires IsBinding(q, index, order, a) && IsBinding(q, index, order, b)
    ensures a == b
  {
  }

  // ----- the search -----

  predicate ProviderHasVersion(index: ExportIndex, provider: string, symbol: string, version: string) {
    VersionsOf(index, provider, symbol).Some?
    && exists e :: e in VersionsOf(index, provider, symbol).value && e.version == version && !Hidden(e)
  }

  function TryVersionedMatch(q: Query, index: ExportIndex, p: string, versions: seq<Export>,
                             firstProvider: Option<string>)
    : (r: Option<SymbolBinding>)
    ensures r.Some? <==> exists e :: e in versions && !Hidden(e) && e.version == q.version
    ensures r.Some? ==> r.value == SymbolBinding(q.consumer, q.symbol, q.version, Some(p), r.value.status)
    ensures r.Some? ==> (r.value.status == Interposed <==>
                           firstProvider.Some? && firstProvider.value != p
                           && ProviderHasVersion(index, firstProvider.value, q.symbol, q.version))
    ensures r.Some? ==> r.value.status == Interposed || r.value.status == ResolvedOk
  {
    if versions == [] then None
    else
      assert versions == [versions[0]] + versions[1..];
      if Hidden(versions[0]) || versions[0].version != q.version then
        TryVersionedMatch(q, index, p, versions[1..], firstProvider)
      else if firstProvider.Some? && firstProvider.value != p
              && ProviderHasVersion(index, firstProvider.value, q.symbol, q.version) then
        Some(SymbolBinding(q.consumer, q.symbol, q.version, Some(p), Interposed))
      else Some(SymbolBinding(q.consumer, q.symbol, q.version, Some(p), ResolvedOk))
  }

  function TryUnversionedMatch(q: Query, p: string, versions: seq<Export>): (r: Option<SymbolBinding>)
    ensures r.Some? <==> exists e :: e in versions && !Hidden(e) && (e.version == "" || e.isDefault)
    ensures r.Some? ==> r.value == SymbolBinding(q.consumer, q.symbol, "", Some(p), ResolvedOk)
  {
    if versions == [] then None
    else
      assert versions == [versions[0]] + versions[1..];
      if !Hidden(versions[0]) && (versions[0].version == "" || versions[0].isDefault) then
        Some(SymbolBinding(q.consumer, q.symbol, "", Some(p), ResolvedOk))
      else TryUnversionedMatch(q, p, versions[1..])
  }

  /** What the search has seen so far, as the code tracks it. */
  datatype Flags = Flags(
    foundVisible: bool, hiddenOnly: bool, firstProvider: Option<string>, firstHidden: Option<string>)

  function NotFoundBinding(q: Query, f: Flags): SymbolBinding {
    if f.hiddenOnly && !f.foundVisible then
      SymbolBinding(q.consumer, q.symbol, q.version, f.firstHidden, VisibilityBlocked)
    else if f.foundVisible then
      SymbolBinding(q.consumer, q.symbol, q.version, f.firstProvider, VersionMismatch)
    else
      SymbolBinding(q.consumer, q.symbol, q.version, None, if q.weak then WeakUnresolved else Missing)
  }

  /** The flags after objects none of which satisfied the import. */
  ghost predicate Tracked(q: Query, index: ExportIndex, order: seq<string>, f: Flags) {
    && !Anywhere(order, p => Satisfies(q, index, p))
    && (f.foundVisible <==> Anywhere(order, p => Visible(q, index, p)))
    && (f.hiddenOnly <==> !f.foundVisible && Anywhere(order, p => Candidate(q, index, p)))
    && (f.firstProvider.Some? <==> f.foundVisible)
    && (f.foundVisible ==> First(order, p => Visible(q, index, p), f.firstProvider.value))
    && (f.hiddenOnly ==> f.firstHidden.Some? && First(order, p => Candidate(q, index, p), f.firstHidden.value))
    && (!f.foundVisible && !f.hiddenOnly ==> f.firstHidden == None)
  }

  lemma AnywhereAppend(order: seq<string>, has: string -> bool, p: string)
    ensures Anywhere(order + [p], has) <==> Anywhere(order, has) || has(p)
    ensures forall x :: First(order, has, x) ==> First(order + [p], has, x)
    ensures !Anywhere(order, has) && has(p) ==> First(order + [p], has, p)
  {
    var more := order + [p];
    assert forall i :: 0 <= i < |order| ==> more[i] == order[i];
    assert more[|order|] == p;
    forall x | First(order, has, x) ensures First(more, has, x) {
      var i :| 0 <= i < |order| && order[i] == x && has(x) && forall j :: 0 <= j < i ==> !has(order[j]);
      assert more[i] == x;
    }
  }

  function Met(f: Flags, p: string, candidate: bool, visible: bool): Flags {
    if visible then
      f.(foundVisible := true, hiddenOnly := false,
         firstProvider := if f.firstProvider.None? then Some(p) else f.firstProvider)
    else if candidate then
      f.(hiddenOnly := f.hiddenOnly || !f.foundVisible,
         firstHidden := if f.firstHidden.None? then Some(p) else f.firstHidden)
    else f
  }

  lemma TrackedStep(q: Query, index: ExportIndex, order: seq<string>, f: Flags, p: string)
    requires Tracked(q, index, order, f) && !Satisfies(q, index, p)
    ensures Tracked(q, index, order + [p], Met(f, p, Candidate(q, index, p), Visible(q, index, p)))
  {
    AnywhereAppend(order, x => Satisfies(q, index, x), p);
    AnywhereAppend(order, x => Visible(q, index, x), p);
    AnywhereAppend(order, x => Candidate(q, index, x), p);
    if Anywhere(order, x => Visible(q, index, x)) {
      var i :| 0 <= i < |order| && Visible(q, index, order[i]);
      assert Candidate(q, index, order[i]);
    }
  }

  /** With first match there is nothing to interpose: an earlier object with the version would have matched. */
  lemma NothingInterposed(q: Query, index: ExportIndex, order: seq<string>, f: Flags)
    requires Tracked(q, index, order, f) && q.version != "" && f.foundVisible
    ensures !ProviderHasVersion(index, f.firstProvider.value, q.symbol, q.version)
  {
  }

  lemma FirstSatisfies(q: Query, index: ExportIndex, order: seq<string>, k: nat, f: Flags)
    requires k < |order| && Tracked(q, index, order[..k], f) && Satisfies(q, index, order[k])
    ensures First(order, p => Satisfies(q, index, p), order[k])
  {
  }

  method ResolveImport(q: Query, order: seq<string>, index: ExportIndex) returns (b: SymbolBinding)
    ensures IsBinding(q, index, order, b)
  {
    var f := Flags(false, false, None, None);
    for k := 0 to |order|
      invariant Tracked(q, index, order[..k], f)
    {
      var p := order[k];
      assert order[..k + 1] == order[..k] + [p];
      ghost var before := f;
      var found;
      f, found := TryProvider(q, index, order[..k], f, p);
      if found.Some? {
        FirstSatisfies(q, index, order, k, before);
        return found.value;
      }
    }
    assert order[..|order|] == order;
    b := NotFoundBinding(q, f);
  }

  /** The loop body: the flags after one more object, or the match. */
  method TryProvider(q: Query, index: ExportIndex, ghost before: seq<string>, f: Flags, p: string)
    returns (after: Flags, found: Option<SymbolBinding>)
    requires Tracked(q, index, before, f)
    ensures found.Some? <==> Satisfies(q, index, p)
    ensures found.Some? ==> found.value == SymbolBinding(q.consumer, q.symbol, q.version, Some(p), ResolvedOk)
    ensures found.None? ==> Tracked(q, index, before + [p], after)
  {
    after, found := f, None;
    if p == q.consumer {
      TrackedStep(q, index, before, f, p);
      return;
    }
    var exports := VersionsOf(index, p, q.symbol);
    if exports.None? {
      TrackedStep(q, index, before, f, p);
      return;
    }
    var versions := exports.value;
    var hasVisible := exists e :: e in versions && !Hidden(e);
    var allHidden := forall e :: e in versions ==> Hidden(e);
    if allHidden {
      if after.firstHidden == None {
        after := after.(firstHidden := Some(p));
      }
      if !after.foundVisible {
        after := after.(hiddenOnly := true);
      }
      TrackedStep(q, index, before, f, p);
      return;
    }
    if hasVisible {
      after := after.(foundVisible := true, hiddenOnly := false);
      if after.firstProvider == None {
        after := after.(firstProvider := Some(p));
      }
    }
    if q.version != "" {
      found := TryVersionedMatch(q, index, p, versions, after.firstProvider);
      if f.foundVisible {
        NothingInterposed(q, index, before, f);
      }
    } else {
      found := TryUnversionedMatch(q, p, versions);
    }
    if found.None? {
      TrackedStep(q, index, before, f, p);
    }
  }

  // ----- all imports of a graph -----

  function ExportOf(s: Symbol): Export {
    Export(s.version, s.isDefault, s.visibility)
  }

  /** One object's exports by name, as the append loop builds them. */
  function SymbolMap(symbols: seq<Symbol>): map<string, seq<Export>> {
    if symbols == [] then map[]
    else
      var before, s := SymbolMap(symbols[..|symbols| - 1]), symbols[|symbols| - 1];
      before[s.name := (if s.name in before then before[s.name] else []) + [ExportOf(s)]]
  }

  /** The definitions of a name, in symbol order. */
  function Definitions(symbols: seq<Symbol>, name: string): seq<Export> {
    if symbols == [] then []
    else
      var before, s := Definitions(symbols[..|symbols| - 1], name), symbols[|symbols| - 1];
      if s.name == name then before + [ExportOf(s)] else before
  }

  lemma {:induction false} SymbolMapHoldsDefinitions(symbols: seq<Symbol>, name: string)
    ensures name in SymbolMap(symbols) <==> Definitions(symbols, name) != []
    ensures name in SymbolMap(symbols) ==> SymbolMap(symbols)[name] == Definitions(symbols, name)
    ensures name in SymbolMap(symbols) <==> exists s :: s in symbols && s.name == name
  {
    if symbols == [] {
    } else {
      SymbolMapHoldsDefinitions(symbols[..|symbols| - 1], name);
      assert symbols == symbols[..|symbols| - 1] + [symbols[|symbols| - 1]];
    }
  }

  function IndexOf(nodes: seq<Node>): ExportIndex {
    if nodes == [] then map[]
    else
      var before, node := IndexOf(nodes[..|nodes| - 1]), nodes[|nodes| - 1];
      if node.metadata.None? then before else before[node.path := SymbolMap(node.metadata.value.symbols)]
  }

  /** Looking a symbol up in the index finds exactly the object's own definitions of it. */
  lemma {:induction false} IndexHoldsDefinitions(nodes: seq<Node>, i: nat, symbol: string)
    requires i < |nodes| && nodes[i].metadata.Some?
    requires forall j :: 0 <= j < |nodes| && j != i ==> nodes[j].path != nodes[i].path
    ensures var definitions := Definitions(nodes[i].metadata.value.symbols, symbol);
            VersionsOf(IndexOf(nodes), nodes[i].path, symbol)
              == if definitions == [] then None else Some(definitions)
    decreases |nodes|
  {
    SymbolMapHoldsDefinitions(nodes[i].metadata.value.symbols, symbol);
    var front := nodes[..|nodes| - 1];
    if i == |front| {
    } else {
      assert forall j :: 0 <= j < |front| ==> front[j] == nodes[j];
      IndexHoldsDefinitions(front, i, symbol);
    }
  }

  function QueriesOf(path: string, imports: seq<Import>): seq<Query> {
    seq(|imports|, i requires 0 <= i < |imports| => Query(path, imports[i].name, imports[i].version, imports[i].weak))
  }

  /** Every import of every object with metadata, in graph order. */
  function Queries(nodes: seq<Node>): seq<Query> {
    if nodes == [] then []
    else
      var before, node := Queries(nodes[..|nodes| - 1]), nodes[|nodes| - 1];
      if node.metadata.None? then before else before + QueriesOf(node.path, node.metadata.value.imports)
  }

  function ForLoading(g: DependencyGraph): LoadOrder.Graph {
    var nodes := seq(|g.nodes|, i requires 0 <= i < |g.nodes| => (g.nodes[i].path, g.nodes[i].depth));
    LoadOrder.Graph(g.root, nodes, g.edges)
  }

  ghost predicate AreBindings(queries: seq<Query>, index: ExportIndex, order: seq<string>, bindings: seq<SymbolBinding>)
  {
    |bindings| == |queries| && forall k :: 0 <= k < |queries| ==> IsBinding(queries[k], index, order, bindings[k])
  }

  method BuildExportIndex(nodes: seq<Node>) returns (index: ExportIndex)
    ensures index == IndexOf(nodes)
  {
    index := map[];
    for i := 0 to |nodes|
      invariant index == IndexOf(nodes[..i])
    {
      assert nodes[..i + 1][..i] == nodes[..i];
      if nodes[i].metadata.None? {
        continue;
      }
      var symbols := nodes[i].metadata.value.symbols;
      var symMap: map<string, seq<Export>> := map[];
      for j := 0 to |symbols|
        invariant symMap == SymbolMap(symbols[..j])
      {
        assert symbols[..j + 1][..j] == symbols[..j];
        var s := symbols[j];
        if s.name !in symMap {
          symMap := symMap[s.name := []];
        }
        symMap := symMap[s.name := symMap[s.name] + [ExportOf(s)]];
      }
      assert symbols[..|symbols|] == symbols;
      index := index[nodes[i].path := symMap];
    }
    assert nodes[..|nodes|] == nodes;
  }

  lemma BindingsJoin(before: seq<Query>, some: seq<SymbolBinding>, queries: seq<Query>, more: seq<SymbolBinding>,
                     index: ExportIndex, order: seq<string>)
    requires AreBindings(before, index, order, some) && AreBindings(queries, index, order, more)
    ensures AreBindings(before + queries, index, order, some + more)
  {
  }

  method ComputeBindings(g: DependencyGraph) returns (bindings: seq<SymbolBinding>)
    ensures AreBindings(Queries(g.nodes), IndexOf(g.nodes), LoadOrder.Order(ForLoading(g)), bindings)
  {
    bindings := [];
    var index := BuildExportIndex(g.nodes);
    var order := LoadOrder.ComputeLoadOrder(ForLoading(g));
    for i := 0 to |g.nodes|
      invariant AreBindings(Queries(g.nodes[..i]), index, order, bindings)
    {
      assert g.nodes[..i + 1][..i] == g.nodes[..i];
      if g.nodes[i].metadata.None? {
        continue;
      }
      var queries := QueriesOf(g.nodes[i].path, g.nodes[i].metadata.value.imports);
      var more := BindEach(queries, order, index);
      BindingsJoin(Queries(g.nodes[..i]), bindings, queries, more, index, order);
      bindings := bindings + more;
    }
    assert g.nodes[..|g.nodes|] == g.nodes;
  }

  /** The inner loop: one object's imports. */
  method BindEach(queries: seq<Query>, order: seq<string>, index: ExportIndex) returns (bindings: seq<SymbolBinding>)
    ensures AreBindings(queries, index, order, bindings)
  {
    bindings := [];
    for j := 0 to |queries|
      invariant AreBindings(queries[..j], index, order, bindings)
    {
      var b := ResolveImport(queries[j], order, index);
      assert queries[..j + 1] == queries[..j] + [queries[j]];
      bindings := bindings + [b];
    }
    assert queries[..|queries|] == queries;
  }

  /**
   What a resolved import is bound to is as near to the root as any object that could
   have satisfied it: first match in the load order is nearest match in the graph.
   */
  lemma ResolvedIsNearest(load: LoadOrder.Graph, q: Query, index: ExportIndex, b: SymbolBinding, root: string,
                          other: string, n: nat)
    requires IsBinding(q, index, LoadOrder.Order(load), b) && b.status == ResolvedOk
    requires LoadOrder.StartsAt(load, root) && Satisfies(q, index, other)
    requires other in LoadOrder.Within(load.edges, root, n)
    ensures b.provider.value in LoadOrder.Within(load.edges, root, n)
  {
    LoadOrder.WithinIsInitial(load, root, n);
    FirstComesFirst(LoadOrder.Order(load), p => Satisfies(q, index, p), b.provider.value, other,
                    LoadOrder.Within(load.edges, root, n));
  }

  lemma FirstComesFirst(order: seq<string>, has: string -> bool, p: string, other: string, near: set<string>)
    requires First(order, has, p) && other in order && has(other) && other in near
    requires forall i, j :: 0 <= i < j < |order| && order[j] in near ==> order[i] in near
    ensures p in near
  {
  }
}
