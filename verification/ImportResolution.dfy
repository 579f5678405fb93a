/**
 What a computed binding says about the loaded objects (abicheck/binder.py as a whole):
 stated in terms of the objects' own symbols and their distance from the root, without the
 export index, the load order's queue and the search's flags in between.
 */
module ImportResolution {
  import opened Options
  import opened Ordering
  import opened Binder
  import LoadOrder

  // ----- what the objects say -----

  ghost predicate DistinctPaths(nodes: seq<Node>) {
    forall i, j :: 0 <= i < j < |nodes| ==> nodes[i].path != nodes[j].path
  }

  /** A visible symbol of that name and version; of the default or no version when none is required. */
  predicate Provides(s: Symbol, name: string, version: string) {
    && s.name == name && s.visibility != "hidden" && s.visibility != "internal"
    && if version != "" then s.version == version else s.version == "" || s.isDefault
  }

  /** The object at `path` visibly defines the symbol at the required version. */
  predicate Defines(nodes: seq<Node>, path: string, name: string, version: string) {
    exists i :: 0 <= i < |nodes| && nodes[i].path == path && nodes[i].metadata.Some?
      && exists s :: s in nodes[i].metadata.value.symbols && Provides(s, name, version)
  }

  /** An object other than the importer that can satisfy the import. */
  predicate Serves(g: DependencyGraph, q: Query, path: string) {
    path != q.consumer && Defines(g.nodes, path, q.symbol, q.version)
  }

  /** Nothing that could satisfy the import comes earlier in the load order. */
  ghost predicate ServesFirst(g: DependencyGraph, q: Query, path: string) {
    First(LoadOrder.Order(ForLoading(g)), p => Serves(g, q, p), path)
  }

  // ----- imports and definitions -----

  /** The imports resolved are those of the objects with metadata, and no others. */
  lemma {:induction false} QueriesAreImports(nodes: seq<Node>, q: Query)
    ensures q in Queries(nodes) <==>
            exists node, imp :: node in nodes && node.metadata.Some? && imp in node.metadata.value.imports
                                && q == Query(node.path, imp.name, imp.version, imp.weak)
  {
    if nodes == [] {
    } else {
      var front, last := nodes[..|nodes| - 1], nodes[|nodes| - 1];
      QueriesAreImports(front, q);
      assert nodes == front + [last];
      if last.metadata.Some? {
        var imports := last.metadata.value.imports;
        assert forall i :: 0 <= i < |imports| ==>
            QueriesOf(last.path, imports)[i]
            == Query(last.path, imports[i].name, imports[i].version, imports[i].weak);
      }
    }
  }

  /** The imports of the objects before the i-th. */
  function ImportsBefore(nodes: seq<Node>, i: nat): nat
    requires i <= |nodes|
  {
    if i == 0 then 0
    else ImportsBefore(nodes, i - 1) + match nodes[i - 1].metadata case None => 0 case Some(meta) => |meta.imports|
  }

  /** They come in graph order, and in each object's own order. */
  lemma {:induction false} QueriesInOrder(nodes: seq<Node>, i: nat, j: nat)
    requires i < |nodes| && nodes[i].metadata.Some? && j < |nodes[i].metadata.value.imports|
    ensures |Queries(nodes)| == ImportsBefore(nodes, |nodes|)
    ensures ImportsBefore(nodes, i) + j < |Queries(nodes)|
    ensures var imp := nodes[i].metadata.value.imports[j];
            Queries(nodes)[ImportsBefore(nodes, i) + j] == Query(nodes[i].path, imp.name, imp.version, imp.weak)
    decreases |nodes|
  {
    var front, last := nodes[..|nodes| - 1], nodes[|nodes| - 1];
    ImportsOfPrefix(nodes, |front|, |front|);
    QueriesCount(front);
    if i < |front| {
      QueriesInOrder(front, i, j);
      ImportsOfPrefix(nodes, |front|, i);
    }
  }

  lemma {:induction false} QueriesCount(nodes: seq<Node>)
    ensures |Queries(nodes)| == ImportsBefore(nodes, |nodes|)
  {
    if nodes == [] {
    } else {
      QueriesCount(nodes[..|nodes| - 1]);
      ImportsOfPrefix(nodes, |nodes| - 1, |nodes| - 1);
    }
  }

  lemma {:induction false} ImportsOfPrefix(nodes: seq<Node>, n: nat, i: nat)
    requires i <= n <= |nodes|
    ensures ImportsBefore(nodes[..n], i) == ImportsBefore(nodes, i)
    decreases i
  {
    if i == 0 {
    } else {
      ImportsOfPrefix(nodes, n, i - 1);
    }
  }

  lemma {:induction false} DefinitionsHold(symbols: seq<Symbol>, name: string, e: Export)
    ensures e in Definitions(symbols, name) <==> exists s :: s in symbols && s.name == name && e == ExportOf(s)
  {
    if symbols == [] {
    } else {
      var front, last := symbols[..|symbols| - 1], symbols[|symbols| - 1];
      DefinitionsHold(front, name, e);
      assert symbols == front + [last];
    }
  }

  lemma {:induction false} IndexedAreNodes(nodes: seq<Node>, path: string)
    ensures path in IndexOf(nodes) <==> exists i :: 0 <= i < |nodes| && nodes[i].path == path && nodes[i].metadata.Some?
  {
    if nodes == [] {
    } else {
      var front, last := nodes[..|nodes| - 1], nodes[|nodes| - 1];
      IndexedAreNodes(front, path);
      if last.path == path && last.metadata.Some? {
        assert nodes[|nodes| - 1] == last;
      }
      if i :| 0 <= i < |front| && front[i].path == path && front[i].metadata.Some? {
        assert nodes[i] == front[i];
      }
      if i :| 0 <= i < |nodes| && nodes[i].path == path && nodes[i].metadata.Some? {
        assert i < |front| ==> front[i] == nodes[i];
      }
    }
  }

  /** One object's definitions satisfy an import exactly when one of its symbols does. */
  lemma DefinitionsProvide(symbols: seq<Symbol>, name: string, version: string)
    ensures (exists e :: e in Definitions(symbols, name) && !Hidden(e)
               && if version != "" then e.version == version else e.version == "" || e.isDefault) <==>
            exists s :: s in symbols && Provides(s, name, version)
  {
    if e :| e in Definitions(symbols, name) && !Hidden(e)
            && if version != "" then e.version == version else e.version == "" || e.isDefault {
      DefinitionsHold(symbols, name, e);
      var s :| s in symbols && s.name == name && e == ExportOf(s);
      assert Provides(s, name, version);
    }
    if s :| s in symbols && Provides(s, name, version) {
      DefinitionsHold(symbols, name, ExportOf(s));
    }
  }

  lemma NodeSatisfies(g: DependencyGraph, q: Query, i: nat)
    requires DistinctPaths(g.nodes) && i < |g.nodes| && g.nodes[i].metadata.Some? && g.nodes[i].path != q.consumer
    ensures Satisfies(q, IndexOf(g.nodes), g.nodes[i].path) <==>
            exists s :: s in g.nodes[i].metadata.value.symbols && Provides(s, q.symbol, q.version)
  {
    IndexHoldsDefinitions(g.nodes, i, q.symbol);
    DefinitionsProvide(g.nodes[i].metadata.value.symbols, q.symbol, q.version);
  }

  /** Through the index or by its own symbols: an object satisfies an import or it does not. */
  lemma SatisfiesIsServes(g: DependencyGraph, q: Query, path: string)
    requires DistinctPaths(g.nodes)
    ensures Satisfies(q, IndexOf(g.nodes), path) <==> Serves(g, q, path)
  {
    IndexedAreNodes(g.nodes, path);
    if path != q.consumer {
      if i :| 0 <= i < |g.nodes| && g.nodes[i].path == path && g.nodes[i].metadata.Some? {
        NodeSatisfies(g, q, i);
      }
    }
  }

  /** Every object of the graph is in the load order. */
  lemma ServersAreLoaded(g: DependencyGraph, q: Query, path: string)
    requires DistinctPaths(g.nodes) && Serves(g, q, path)
    ensures path in LoadOrder.Order(ForLoading(g))
  {
    var keys := LoadOrder.Keys(ForLoading(g).nodes);
    assert forall i :: 0 <= i < |keys| ==> keys[i] == g.nodes[i].path;
    LoadOrder.OrderIsComplete(ForLoading(g));
    var i :| 0 <= i < |g.nodes| && g.nodes[i].path == path;
    assert keys[i] == path;
  }

  // ----- resolution -----

  /**
   Of any graph with distinct paths and any of its imports: the import resolves exactly when
   some other object visibly defines the symbol at the required version, and it is then bound
   to the first such object in load order.
   */
  lemma ImportResolves(g: DependencyGraph, bindings: seq<SymbolBinding>, k: nat)
    requires DistinctPaths(g.nodes) && k < |Queries(g.nodes)|
    requires AreBindings(Queries(g.nodes), IndexOf(g.nodes), LoadOrder.Order(ForLoading(g)), bindings)
    ensures var q := Queries(g.nodes)[k];
            && (bindings[k].status == ResolvedOk <==> exists p :: Serves(g, q, p))
            && (bindings[k].status == ResolvedOk ==>
                  bindings[k].provider.Some? && ServesFirst(g, q, bindings[k].provider.value))
  {
    var q, b, order := Queries(g.nodes)[k], bindings[k], LoadOrder.Order(ForLoading(g));
    assert IsBinding(q, IndexOf(g.nodes), order, b);
    if b.status == ResolvedOk {
      FirstServes(g, q, b.provider.value);
    }
    if p :| Serves(g, q, p) {
      ServersAreLoaded(g, q, p);
      SatisfiesIsServes(g, q, p);
      var i :| 0 <= i < |order| && order[i] == p;
      NotResolvedNotServed(q, IndexOf(g.nodes), order, b, i);
    }
  }

  lemma FirstServes(g: DependencyGraph, q: Query, provider: string)
    requires DistinctPaths(g.nodes)
    requires First(LoadOrder.Order(ForLoading(g)), p => Satisfies(q, IndexOf(g.nodes), p), provider)
    ensures ServesFirst(g, q, provider) && Serves(g, q, provider)
  {
    forall p ensures Satisfies(q, IndexOf(g.nodes), p) <==> Serves(g, q, p) {
      SatisfiesIsServes(g, q, p);
    }
  }

  lemma NotResolvedNotServed(q: Query, index: ExportIndex, order: seq<string>, b: SymbolBinding, i: nat)
    requires IsBinding(q, index, order, b) && i < |order| && Satisfies(q, index, order[i])
    ensures b.status == ResolvedOk
  {
    assert Visible(q, index, order[i]) && Candidate(q, index, order[i]);
  }

  /** The object an import is bound to is at most as far from the start as any that could have satisfied it. */
  lemma BoundToNearest(g: DependencyGraph, bindings: seq<SymbolBinding>, k: nat, root: string, other: string, n: nat)
    requires DistinctPaths(g.nodes) && k < |Queries(g.nodes)|
    requires AreBindings(Queries(g.nodes), IndexOf(g.nodes), LoadOrder.Order(ForLoading(g)), bindings)
    requires Serves(g, Queries(g.nodes)[k], other)
    requires LoadOrder.StartsAt(ForLoading(g), root)
    ensures bindings[k].status == ResolvedOk && bindings[k].provider.Some?
    ensures other in LoadOrder.Within(g.edges, root, n) ==>
              bindings[k].provider.value in LoadOrder.Within(g.edges, root, n)
  {
    var q := Queries(g.nodes)[k];
    ImportResolves(g, bindings, k);
    SatisfiesIsServes(g, q, other);
    if other in LoadOrder.Within(g.edges, root, n) {
      ResolvedIsNearest(ForLoading(g), q, IndexOf(g.nodes), bindings[k], root, other, n);
    }
  }

  // ----- failure -----

  /** Another object defines the name, at whatever version; visibly, if that is asked. */
  predicate Names(g: DependencyGraph, q: Query, path: string, visibly: bool) {
    path != q.consumer
    && exists i :: 0 <= i < |g.nodes| && g.nodes[i].path == path && g.nodes[i].metadata.Some?
         && exists s :: s in g.nodes[i].metadata.value.symbols && s.name == q.symbol
              && (visibly ==> s.visibility != "hidden" && s.visibility != "internal")
  }

  lemma DefinitionsName(symbols: seq<Symbol>, name: string)
    ensures Definitions(symbols, name) != [] <==> exists s :: s in symbols && s.name == name
    ensures (exists e :: e in Definitions(symbols, name) && !Hidden(e)) <==>
            exists s :: s in symbols && s.name == name && s.visibility != "hidden" && s.visibility != "internal"
  {
    SymbolMapHoldsDefinitions(symbols, name);
    if e :| e in Definitions(symbols, name) && !Hidden(e) {
      DefinitionsHold(symbols, name, e);
    }
    if s :| s in symbols && s.name == name && s.visibility != "hidden" && s.visibility != "internal" {
      DefinitionsHold(symbols, name, ExportOf(s));
    }
  }

  lemma NodeNames(g: DependencyGraph, q: Query, i: nat)
    requires DistinctPaths(g.nodes) && i < |g.nodes| && g.nodes[i].metadata.Some? && g.nodes[i].path != q.consumer
    ensures Candidate(q, IndexOf(g.nodes), g.nodes[i].path) <==>
            exists s :: s in g.nodes[i].metadata.value.symbols && s.name == q.symbol
    ensures Visible(q, IndexOf(g.nodes), g.nodes[i].path) <==>
            exists s :: s in g.nodes[i].metadata.value.symbols && s.name == q.symbol
                        && s.visibility != "hidden" && s.visibility != "internal"
  {
    IndexHoldsDefinitions(g.nodes, i, q.symbol);
    DefinitionsName(g.nodes[i].metadata.value.symbols, q.symbol);
  }

  lemma CandidateIsNames(g: DependencyGraph, q: Query, path: string)
    requires DistinctPaths(g.nodes)
    ensures Candidate(q, IndexOf(g.nodes), path) <==> Names(g, q, path, false)
    ensures Visible(q, IndexOf(g.nodes), path) <==> Names(g, q, path, true)
  {
    IndexedAreNodes(g.nodes, path);
    if path != q.consumer {
      if i :| 0 <= i < |g.nodes| && g.nodes[i].path == path && g.nodes[i].metadata.Some? {
        NodeNames(g, q, i);
      }
    }
  }

  /** Why an import did not resolve, and at which object the linker would stop to say so. */
  ghost predicate FailsFor(g: DependencyGraph, q: Query, order: seq<string>, b: SymbolBinding) {
    && (forall p :: !Serves(g, q, p))
    && match b.status
       case VersionMismatch => b.provider.Some? && First(order, p => Names(g, q, p, true), b.provider.value)
       case VisibilityBlocked =>
         && (forall p :: !Names(g, q, p, true))
         && b.provider.Some? && First(order, p => Names(g, q, p, false), b.provider.value)
       case WeakUnresolved => q.weak && b.provider == None && forall p :: !Names(g, q, p, false)
       case Missing => !q.weak && b.provider == None && forall p :: !Names(g, q, p, false)
       case _ => false
  }

  lemma NamersAreLoaded(g: DependencyGraph, q: Query, path: string, visibly: bool)
    requires DistinctPaths(g.nodes)
    ensures Names(g, q, path, visibly) ==> path in LoadOrder.Order(ForLoading(g))
  {
    var keys := LoadOrder.Keys(ForLoading(g).nodes);
    assert forall i :: 0 <= i < |keys| ==> keys[i] == g.nodes[i].path;
    LoadOrder.OrderIsComplete(ForLoading(g));
    if i :| 0 <= i < |g.nodes| && g.nodes[i].path == path {
      assert keys[i] == path;
    }
  }

  /** Nobody in the load order has the property, so nobody has. */
  lemma NobodyNames(g: DependencyGraph, q: Query, visibly: bool)
    requires DistinctPaths(g.nodes)
    requires !Anywhere(LoadOrder.Order(ForLoading(g)),
                       p => if visibly then Visible(q, IndexOf(g.nodes), p) else Candidate(q, IndexOf(g.nodes), p))
    ensures forall p :: !Names(g, q, p, visibly)
  {
    forall p ensures !Names(g, q, p, visibly) {
      NamersAreLoaded(g, q, p, visibly);
      CandidateIsNames(g, q, p);
    }
  }

  /** An import that does not resolve fails for the right reason. */
  lemma ImportFails(g: DependencyGraph, bindings: seq<SymbolBinding>, k: nat)
    requires DistinctPaths(g.nodes) && k < |Queries(g.nodes)|
    requires AreBindings(Queries(g.nodes), IndexOf(g.nodes), LoadOrder.Order(ForLoading(g)), bindings)
    requires bindings[k].status != ResolvedOk
    ensures FailsFor(g, Queries(g.nodes)[k], LoadOrder.Order(ForLoading(g)), bindings[k])
  {
    var q, b, order := Queries(g.nodes)[k], bindings[k], LoadOrder.Order(ForLoading(g));
    ImportResolves(g, bindings, k);
    assert IsBinding(q, IndexOf(g.nodes), order, b);
    forall p ensures Candidate(q, IndexOf(g.nodes), p) <==> Names(g, q, p, false) {
      CandidateIsNames(g, q, p);
    }
    forall p ensures Visible(q, IndexOf(g.nodes), p) <==> Names(g, q, p, true) {
      CandidateIsNames(g, q, p);
    }
    if b.status == VisibilityBlocked {
      NobodyNames(g, q, true);
    }
    if b.status == WeakUnresolved || b.status == Missing {
      NobodyNames(g, q, false);
    }
  }
}
