/**
 What a library transitively loads from its own bundle
 (abicheck/bundle_resolution_reachability.py): the least set closed under the
 non-self DT_NEEDED edges that stay inside the bundle.
 */
module BundleReachability {
  import opened BundleGraph
  import opened Options

  /** `a` needs `b`, another library of the bundle, under some spelling. */
  predicate Edge(g: ResolutionGraph, a: string, b: string) {
    b != a && exists s :: s in ListAt(g.intraNeeded, a) && s in g.sonameToName && g.sonameToName[s] == b
  }

  predicate IsPath(g: ResolutionGraph, p: seq<string>) {
    forall i :: 0 <= i < |p| - 1 ==> Edge(g, p[i], p[i + 1])
  }

  /** A way from `a` to `b` of at least one edge. */
  predicate Leads(g: ResolutionGraph, a: string, b: string, p: seq<string>) {
    |p| >= 2 && p[0] == a && p[|p| - 1] == b && IsPath(g, p)
  }

  ghost predicate Reaches(g: ResolutionGraph, root: string, x: string) {
    exists p :: Leads(g, root, x, p)
  }

  ghost function Reach(g: ResolutionGraph, root: string): set<string> {
    set x | x in g.sonameToName.Values && Reaches(g, root, x)
  }

  // ----- least fixpoint -----

  ghost predicate Closed(g: ResolutionGraph, root: string, s: set<string>) {
    forall a, b :: (a == root || a in s) && Edge(g, a, b) ==> b in s
  }

  lemma EdgeTargetIsNamed(g: ResolutionGraph, a: string, b: string)
    requires Edge(g, a, b)
    ensures b in g.sonameToName.Values
  {
  }

  lemma OneEdge(g: ResolutionGraph, a: string, b: string)
    requires Edge(g, a, b)
    ensures Reaches(g, a, b)
  {
    assert Leads(g, a, b, [a, b]);
  }

  lemma OneEdgeMore(g: ResolutionGraph, root: string, a: string, b: string)
    requires Reaches(g, root, a) && Edge(g, a, b)
    ensures Reaches(g, root, b)
  {
    var p :| Leads(g, root, a, p);
    var q := p + [b];
    forall i | 0 <= i < |q| - 1 ensures Edge(g, q[i], q[i + 1]) {
      if i < |p| - 1 { assert q[i] == p[i] && q[i + 1] == p[i + 1]; }
    }
    assert Leads(g, root, b, q);
  }

  lemma {:induction false} PathStaysInside(g: ResolutionGraph, root: string, s: set<string>, p: seq<string>)
    requires Closed(g, root, s) && |p| >= 2 && p[0] == root && IsPath(g, p)
    ensures p[|p| - 1] in s
    decreases |p|
  {
    var front := p[..|p| - 1];
    assert Edge(g, p[|p| - 2], p[|p| - 1]);
    if |p| == 2 {
    } else {
      assert IsPath(g, front) by {
        forall i | 0 <= i < |front| - 1 ensures Edge(g, front[i], front[i + 1]) {
          assert Edge(g, p[i], p[i + 1]);
        }
      }
      PathStaysInside(g, root, s, front);
    }
  }

  /** Reach is closed, and inside every closed set. */
  lemma ReachIsLeast(g: ResolutionGraph, root: string)
    ensures Closed(g, root, Reach(g, root))
    ensures forall s :: Closed(g, root, s) ==> Reach(g, root) <= s
  {
    forall a, b | (a == root || a in Reach(g, root)) && Edge(g, a, b) ensures b in Reach(g, root) {
      EdgeTargetIsNamed(g, a, b);
      if a in Reach(g, root) {
        OneEdgeMore(g, root, a, b);
      } else {
        OneEdge(g, a, b);
      }
    }
    forall s, x | Closed(g, root, s) && x in Reach(g, root) ensures x in s {
      var p :| Leads(g, root, x, p);
      PathStaysInside(g, root, s, p);
    }
  }

  /** The root is in its own result exactly when it lies on a cycle, which then has two libraries or more. */
  lemma RootReachesItself(g: ResolutionGraph, root: string)
    ensures root in Reach(g, root) <==> exists p :: Leads(g, root, root, p) && |p| >= 3
  {
    if root in Reach(g, root) {
      var p :| Leads(g, root, root, p);
      assert Edge(g, p[0], p[1]);
    }
    if p :| Leads(g, root, root, p) && |p| >= 3 {
      assert Edge(g, p[|p| - 2], p[|p| - 1]);
      EdgeTargetIsNamed(g, p[|p| - 2], p[|p| - 1]);
    }
  }

  /** In a built graph every edge inside the bundle leads to another library with metadata. */
  lemma IntraEdgesResolve(g: ResolutionGraph, libs: Libraries, files: map<string, string>,
                          extra: seq<(string, seq<string>)>, name: string, needed: string)
    requires IsGraphOf(g, libs, files, extra)
    requires name in g.intraNeeded && needed in g.intraNeeded[name]
    ensures needed in g.sonameToName && g.sonameToName[needed] != name
    ensures IsLibrary(libs, g.sonameToName[needed])
    ensures Edge(g, name, g.sonameToName[needed])
  {
    var e :| e in libs && e.0 == name;
    PartsPartition(g.sonameToName, name, e.1.needed);
    IndexLibrariesNames(libs, files);
    IndexExtraKeeps(IndexLibraries(libs, files), extra, libs);
  }

  /** Listing a bundle member's soname is an edge to it. */
  lemma NeededIsEdge(g: ResolutionGraph, libs: Libraries, files: map<string, string>, extra: seq<(string, seq<string>)>,
                     a: (string, ElfMetadata), needed: string)
    requires IsGraphOf(g, libs, files, extra)
    requires a in libs && needed in a.1.needed && needed in g.sonameToName && g.sonameToName[needed] != a.0
    ensures Edge(g, a.0, g.sonameToName[needed])
  {
    PartsPartition(g.sonameToName, a.0, a.1.needed);
    var intra, rest := Part(g.sonameToName, a.0, a.1.needed, true), Part(g.sonameToName, a.0, a.1.needed, false);
    assert needed in multiset(a.1.needed);
    assert needed in multiset(intra) + multiset(rest) && needed !in rest;
  }

  /** In any bundle of two libraries that list each other's soname, each is in what it reaches itself. */
  lemma MutualNeedReachesItself(g: ResolutionGraph, libs: Libraries, files: map<string, string>,
                                extra: seq<(string, seq<string>)>, a: (string, ElfMetadata), b: (string, ElfMetadata))
    requires IsGraphOf(g, libs, files, extra)
    requires a in libs && b in libs && a.0 != b.0
    requires a.1.soname != "" && LastDeclaring(libs, a.1.soname) == Some(a.0) && a.1.soname in b.1.needed
    requires b.1.soname != "" && LastDeclaring(libs, b.1.soname) == Some(b.0) && b.1.soname in a.1.needed
    ensures a.0 in Reach(g, a.0)
  {
    SonameOwner(libs, files, extra, a.1.soname);
    SonameOwner(libs, files, extra, b.1.soname);
    NeededIsEdge(g, libs, files, extra, a, b.1.soname);
    NeededIsEdge(g, libs, files, extra, b, a.1.soname);
    OneEdge(g, a.0, b.0);
    OneEdgeMore(g, a.0, b.0, a.0);
    EdgeTargetIsNamed(g, b.0, a.0);
  }

  // ----- the worklist -----

  /** Popped libraries have all their targets seen; everything seen is reached. */
  ghost predicate Exploring(g: ResolutionGraph, root: string, seen: set<string>, queue: seq<string>) {
    && seen <= Reach(g, root)
    && (forall x :: x in queue ==> x == root || x in seen)
    && (forall a, b :: (a == root || a in seen) && a !in queue && Edge(g, a, b) ==> b in seen)
  }

  lemma ExploredIsReach(g: ResolutionGraph, root: string, seen: set<string>)
    requires Exploring(g, root, seen, [])
    ensures seen == Reach(g, root)
  {
    ReachIsLeast(g, root);
    assert Closed(g, root, seen);
  }

  method ReachableIntraLibraries(g: ResolutionGraph, root: string) returns (seen: set<string>)
    ensures seen == Reach(g, root)
  {
    seen := {};
    var queue := [root];
    while queue != []
      invariant Exploring(g, root, seen, queue)
      decreases g.sonameToName.Values - seen, |queue|
    {
      var lib := queue[|queue| - 1];
      ghost var before := queue;
      queue := queue[..|queue| - 1];
      assert before == queue + [lib];
      seen, queue := PushTargets(g, root, lib, seen, queue);
    }
    ExploredIsReach(g, root, seen);
  }

  /** The inner loop over one library's needed sonames. */
  method PushTargets(g: ResolutionGraph, ghost root: string, lib: string, seen: set<string>, queue: seq<string>)
    returns (seen': set<string>, queue': seq<string>)
    requires Exploring(g, root, seen, queue + [lib])
    ensures Exploring(g, root, seen', queue')
    ensures seen <= seen' && (seen' == seen ==> queue' == queue) && seen' <= g.sonameToName.Values
  {
    seen', queue' := seen, queue;
    var needed := ListAt(g.intraNeeded, lib);
    for i := 0 to |needed|
      invariant Exploring(g, root, seen', queue' + [lib])
      invariant seen <= seen' && (seen' == seen ==> queue' == queue)
      invariant forall k :: 0 <= k < i && needed[k] in g.sonameToName && g.sonameToName[needed[k]] != lib ==>
                  g.sonameToName[needed[k]] in seen'
    {
      if needed[i] !in g.sonameToName {
        continue;
      }
      var target := g.sonameToName[needed[i]];
      if target == lib || target in seen' {
        continue;
      }
      assert needed[i] in needed && Edge(g, lib, target);
      NewTarget(g, root, lib, target, seen', queue');
      seen' := seen' + {target};
      queue' := queue' + [target];
    }
    forall a, b | (a == root || a in seen') && a !in queue' && Edge(g, a, b) ensures b in seen' {
      if a == lib {
        var s :| s in needed && s in g.sonameToName && g.sonameToName[s] == b;
      } else {
        assert a !in queue' + [lib];
      }
    }
  }

  lemma NewTarget(g: ResolutionGraph, root: string, lib: string, target: string, seen: set<string>, queue: seq<string>)
    requires Exploring(g, root, seen, queue + [lib]) && Edge(g, lib, target)
    ensures Exploring(g, root, seen + {target}, queue + [target] + [lib])
  {
    assert lib in queue + [lib];
    ReachIsLeast(g, root);
    assert target in Reach(g, root);
    assert forall x :: x in queue + [target] + [lib] <==> x in queue + [lib] || x == target;
  }

  // ----- the memo -----

  /** The cache dictionary of repeated calls on one graph. */
  class ReachabilityCache {
    const graph: ResolutionGraph
    var cache: map<string, set<string>>

    ghost predicate Valid()
      reads this
    {
      forall root :: root in cache ==> cache[root] == Reach(graph, root)
    }

    constructor (graph: ResolutionGraph)
      ensures Valid() && this.graph == graph && cache == map[]
    {
      this.graph := graph;
      cache := map[];
    }

    method Reachable(root: string) returns (libraries: set<string>)
      requires Valid()
      modifies this
      ensures Valid()
      ensures libraries == Reach(graph, root)
      ensures cache == old(cache)[root := libraries]
    {
      if root !in cache {
        var found := ReachableIntraLibraries(graph, root);
        cache := cache[root := found];
      }
      return cache[root];
    }
  }
}
