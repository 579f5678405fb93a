/**
 The dynamic linker's search order (`_compute_load_order`, abicheck/binder.py): a queue
 over the dependency edges, proved to list the graph level by level, so in order of
 distance from the root and, within one distance, in order of discovery.
 */
module LoadOrder {
  import opened Options
  import opened Ordering

  type Edges = seq<(string, string)>

  /** Keys of the node dictionary in insertion order, each with its recorded depth. */
  datatype Graph = Graph(root: string, nodes: seq<(string, int)>, edges: Edges)

  /** The providers of `a`, in edge order. */
  function Children(edges: Edges, a: string): (r: seq<string>)
    ensures forall b :: b in r <==> (a, b) in edges
  {
    if edges == [] then []
    else
      var rest := Children(edges[1..], a);
      assert edges == [edges[0]] + edges[1..];
      if edges[0].0 == a then [edges[0].1] + rest else rest
  }

  function ChildrenOfAll(edges: Edges, level: seq<string>): (r: seq<string>)
    ensures forall b :: b in r <==> exists a :: a in level && (a, b) in edges
  {
    if level == [] then []
    else
      assert level == [level[0]] + level[1..];
      Children(edges, level[0]) + ChildrenOfAll(edges, level[1..])
  }

  function Targets(edges: Edges): set<string> {
    set e | e in edges :: e.1
  }

  /** The newcomers of a list, in order, once each. */
  function Discover(list: seq<string>, seen: set<string>): (r: seq<string>)
    ensures forall x :: x in r <==> x in list && x !in seen
    ensures Distinct(r)
  {
    if list == [] then []
    else
      assert list == [list[0]] + list[1..];
      if list[0] in seen then Discover(list[1..], seen)
      else [list[0]] + Discover(list[1..], seen + {list[0]})
  }

  // ----- the specification: level by level -----

  function LevelOrder(edges: Edges, level: seq<string>, seen: set<string>): seq<string>
    decreases Targets(edges) - seen, |level|
  {
    if level == [] then []
    else
      var next := Discover(ChildrenOfAll(edges, level), seen);
      assert next != [] ==> next[0] in next && next[0] in Targets(edges) by {
        NewcomersAreTargets(edges, level, seen);
      }
      assert next == [] ==> seen + Elements(next) == seen;
      level + LevelOrder(edges, next, seen + (set x | x in next))
  }

  lemma NewcomersAreTargets(edges: Edges, level: seq<string>, seen: set<string>)
    ensures forall x :: x in Discover(ChildrenOfAll(edges, level), seen) ==> x in Targets(edges)
  {
  }

  function ReachableOrder(edges: Edges, root: string): seq<string> {
    LevelOrder(edges, [root], {root})
  }

  function RootKey(root: string, nodes: seq<(string, int)>): Option<string> {
    if nodes == [] then None
    else if nodes[0].0 == root || nodes[0].1 == 0 then Some(nodes[0].0)
    else RootKey(root, nodes[1..])
  }

  function Keys(nodes: seq<(string, int)>): seq<string> {
    seq(|nodes|, i requires 0 <= i < |nodes| => nodes[i].0)
  }

  function Without(keys: seq<string>, gone: set<string>): (r: seq<string>)
    ensures forall x :: x in r <==> x in keys && x !in gone
    ensures Distinct(keys) ==> Distinct(r)
  {
    if keys == [] then []
    else
      var rest := Without(keys[1..], gone);
      assert keys == [keys[0]] + keys[1..];
      if keys[0] in gone then rest else [keys[0]] + rest
  }

  ghost function Order(g: Graph): seq<string> {
    match RootKey(g.root, g.nodes)
    case None => Keys(g.nodes)
    case Some(root) =>
      var reached := ReachableOrder(g.edges, root);
      reached + Without(Keys(g.nodes), Elements(reached))
  }

  // ----- distance -----

  /** The ids at most `n` edges from the root. */
  ghost function Within(edges: Edges, root: string, n: nat): set<string> {
    if n == 0 then {root}
    else Within(edges, root, n - 1) + set a, b | a in Within(edges, root, n - 1) && b in Children(edges, a) :: b
  }

  ghost predicate Reachable(edges: Edges, root: string, x: string) {
    exists n: nat :: x in Within(edges, root, n)
  }

  predicate IsPath(edges: Edges, p: seq<string>) {
    forall i :: 0 <= i < |p| - 1 ==> (p[i], p[i + 1]) in edges
  }

  lemma {:induction false} PathIsWithin(edges: Edges, root: string, p: seq<string>)
    requires p != [] && p[0] == root && IsPath(edges, p)
    ensures p[|p| - 1] in Within(edges, root, |p| - 1)
    decreases |p|
  {
    if |p| == 1 {
    } else {
      var front := p[..|p| - 1];
      assert IsPath(edges, front) by {
        forall i | 0 <= i < |front| - 1 ensures (front[i], front[i + 1]) in edges {
          assert front[i] == p[i] && front[i + 1] == p[i + 1];
        }
      }
      PathIsWithin(edges, root, front);
      assert (p[|p| - 2], p[|p| - 1]) in edges;
      assert p[|p| - 1] in Children(edges, p[|p| - 2]);
    }
  }

  lemma {:induction false} WithinHasPath(edges: Edges, root: string, x: string, n: nat) returns (p: seq<string>)
    requires x in Within(edges, root, n)
    ensures p != [] && p[0] == root && p[|p| - 1] == x && IsPath(edges, p) && |p| - 1 <= n
    decreases n
  {
    if n == 0 {
      p := [root];
    } else if x in Within(edges, root, n - 1) {
      p := WithinHasPath(edges, root, x, n - 1);
    } else {
      var a :| a in Within(edges, root, n - 1) && x in Children(edges, a);
      var q := WithinHasPath(edges, root, a, n - 1);
      p := q + [x];
      forall i | 0 <= i < |p| - 1 ensures (p[i], p[i + 1]) in edges {
        if i < |q| - 1 { assert p[i] == q[i] && p[i + 1] == q[i + 1]; }
      }
    }
  }

  lemma {:induction false} WithinGrows(edges: Edges, root: string, m: nat, n: nat)
    requires m <= n
    ensures Within(edges, root, m) <= Within(edges, root, n)
    decreases n
  {
    if m == n {
    } else {
      WithinGrows(edges, root, m, n - 1);
    }
  }

  /** Once a step adds nothing, no later step does. */
  lemma {:induction false} WithinSettles(edges: Edges, root: string, m: nat, n: nat, x: string)
    requires m <= n && Within(edges, root, m + 1) == Within(edges, root, m) && x in Within(edges, root, n)
    ensures x in Within(edges, root, m)
    decreases n
  {
    if m == n {
    } else if x in Within(edges, root, n - 1) {
      WithinSettles(edges, root, m, n - 1, x);
    } else {
      var a :| a in Within(edges, root, n - 1) && x in Children(edges, a);
      WithinSettles(edges, root, m, n - 1, a);
      assert x in Within(edges, root, m + 1);
    }
  }

  /** The ids at exactly `n` edges from the root. */
  ghost function Ring(edges: Edges, root: string, n: nat): set<string> {
    if n == 0 then {root} else Within(edges, root, n) - Within(edges, root, n - 1)
  }

  ghost predicate ByDistance(edges: Edges, root: string, order: seq<string>) {
    forall i, j, n: nat :: 0 <= i < j < |order| && order[j] in Within(edges, root, n) ==>
      order[i] in Within(edges, root, n)
  }

  lemma NextRing(edges: Edges, root: string, level: seq<string>, seen: set<string>, n: nat)
    requires seen == Within(edges, root, n) && Elements(level) == Ring(edges, root, n)
    ensures var next := Discover(ChildrenOfAll(edges, level), seen);
            && Elements(next) == Ring(edges, root, n + 1)
            && seen + Elements(next) == Within(edges, root, n + 1)
  {
    var next := Discover(ChildrenOfAll(edges, level), seen);
    forall x ensures x in next <==> x in Ring(edges, root, n + 1) {
      if x in next {
        var a :| a in level && (a, x) in edges;
        assert a in Elements(level);
        assert a in Within(edges, root, n) && x in Children(edges, a);
      }
      if x in Ring(edges, root, n + 1) {
        var a :| a in Within(edges, root, n) && x in Children(edges, a);
        assert n > 0 && a in Within(edges, root, n - 1) ==> x in Within(edges, root, n);
        assert a in Elements(level);
      }
    }
  }

  /** From one ring on, the levels list what is reachable beyond it, nearest first. */
  lemma {:induction false} LevelOrderIsByDistance(edges: Edges, root: string, level: seq<string>, seen: set<string>,
                                                  n: nat)
    requires seen == Within(edges, root, n) && Elements(level) == Ring(edges, root, n) && Distinct(level)
    ensures var r := LevelOrder(edges, level, seen);
            && Distinct(r) && ByDistance(edges, root, r)
            && (forall x :: x in r <==> Reachable(edges, root, x) && (n == 0 || x !in Within(edges, root, n - 1)))
    decreases Targets(edges) - seen, |level|
  {
    var r := LevelOrder(edges, level, seen);
    if level == [] {
      assert n > 0 by { assert n == 0 ==> root in Ring(edges, root, n); }
      forall x | Reachable(edges, root, x) ensures x in Within(edges, root, n - 1) {
        EmptyRing(edges, root, n - 1, x);
      }
    } else {
      var next := Discover(ChildrenOfAll(edges, level), seen);
      NewcomersAreTargets(edges, level, seen);
      NextRing(edges, root, level, seen, n);
      assert next == [] ==> seen + Elements(next) == seen;
      assert next != [] ==> next[0] in Targets(edges) && next[0] in Elements(next);
      LevelOrderIsByDistance(edges, root, next, seen + Elements(next), n + 1);
      var rest := LevelOrder(edges, next, seen + Elements(next));
      assert r == level + rest;
      LevelThenRest(edges, root, level, rest, n);
    }
  }

  lemma EmptyRingSettles(edges: Edges, root: string, n: nat)
    requires Ring(edges, root, n + 1) == {}
    ensures Within(edges, root, n + 1) == Within(edges, root, n)
  {
    var here, before := Within(edges, root, n + 1), Within(edges, root, n);
    WithinGrows(edges, root, n, n + 1);
    assert here - before == {};
    forall x | x in here ensures x in before {
      assert x !in here - before;
    }
  }

  /** Where no id is at a distance, none is beyond it. */
  lemma EmptyRing(edges: Edges, root: string, n: nat, x: string)
    requires Ring(edges, root, n + 1) == {} && Reachable(edges, root, x)
    ensures x in Within(edges, root, n)
  {
    EmptyRingSettles(edges, root, n);
    var k: nat :| x in Within(edges, root, k);
    if k >= n { WithinSettles(edges, root, n, k, x); } else { WithinGrows(edges, root, k, n); }
  }

  lemma LevelThenRest(edges: Edges, root: string, level: seq<string>, rest: seq<string>, n: nat)
    requires Elements(level) == Ring(edges, root, n) && Distinct(level)
    requires Distinct(rest) && ByDistance(edges, root, rest)
    requires forall x :: x in rest <==> Reachable(edges, root, x) && x !in Within(edges, root, n)
    ensures var r := level + rest;
            && Distinct(r) && ByDistance(edges, root, r)
            && (forall x :: x in r <==> Reachable(edges, root, x) && (n == 0 || x !in Within(edges, root, n - 1)))
  {
    var r := level + rest;
    assert forall i :: 0 <= i < |level| ==> level[i] in Elements(level);
    assert forall i :: 0 <= i < |rest| ==> rest[i] in rest;
    forall i, j, k: nat | 0 <= i < j < |r| && r[j] in Within(edges, root, k) ensures r[i] in Within(edges, root, k) {
      if i < |level| {
        if k < n {
          WithinGrows(edges, root, k, n - 1);
        } else {
          WithinGrows(edges, root, n, k);
        }
      } else {
        assert r[i] == rest[i - |level|] && r[j] == rest[j - |level|];
      }
    }
    forall x ensures x in r <==> Reachable(edges, root, x) && (n == 0 || x !in Within(edges, root, n - 1)) {
      assert x in r <==> x in level || x in rest;
      assert x in level <==> x in Ring(edges, root, n);
      assert x in Within(edges, root, n) ==> Reachable(edges, root, x);
      if n > 0 { WithinGrows(edges, root, n - 1, n); }
    }
  }

  /** The reachable part lists every reachable id once, in nondecreasing distance from the root. */
  lemma ReachableOrderIsByDistance(edges: Edges, root: string)
    ensures var r := ReachableOrder(edges, root);
            && Distinct(r) && ByDistance(edges, root, r)
            && (forall x :: x in r <==> Reachable(edges, root, x))
  {
    LevelOrderIsByDistance(edges, root, [root], {root}, 0);
  }

  // ----- the whole order -----

  /** The search starts at the first node that is the root named by the graph or was recorded at depth 0. */
  ghost predicate StartsAt(g: Graph, root: string) {
    exists i :: 0 <= i < |g.nodes| && g.nodes[i].0 == root && (root == g.root || g.nodes[i].1 == 0)
                && forall j :: 0 <= j < i ==> g.nodes[j].0 != g.root && g.nodes[j].1 != 0
  }

  /** The graph names no node as its root, and none was recorded at depth 0. */
  predicate Rootless(g: Graph) {
    forall i :: 0 <= i < |g.nodes| ==> g.nodes[i].0 != g.root && g.nodes[i].1 != 0
  }

  lemma {:induction false} RootKeyStarts(root: string, nodes: seq<(string, int)>, edges: Edges)
    ensures RootKey(root, nodes).None? <==> Rootless(Graph(root, nodes, edges))
    ensures RootKey(root, nodes).Some? ==> StartsAt(Graph(root, nodes, edges), RootKey(root, nodes).value)
    decreases |nodes|
  {
    if nodes == [] {
    } else {
      assert nodes == [nodes[0]] + nodes[1..];
      if nodes[0].0 != root && nodes[0].1 != 0 {
        RootKeyStarts(root, nodes[1..], edges);
        StartsLater(root, nodes[0], nodes[1..], edges, RootKey(root, nodes));
      }
    }
  }

  lemma StartsLater(root: string, first: (string, int), rest: seq<(string, int)>, edges: Edges, key: Option<string>)
    requires first.0 != root && first.1 != 0
    ensures Rootless(Graph(root, rest, edges)) ==> Rootless(Graph(root, [first] + rest, edges))
    ensures key.Some? && StartsAt(Graph(root, rest, edges), key.value) ==>
              StartsAt(Graph(root, [first] + rest, edges), key.value)
  {
    var nodes := [first] + rest;
    assert forall i :: 0 < i < |nodes| ==> nodes[i] == rest[i - 1];
    if key.Some? && StartsAt(Graph(root, rest, edges), key.value) {
      var i :| 0 <= i < |rest| && rest[i].0 == key.value && (key.value == root || rest[i].1 == 0)
               && forall j :: 0 <= j < i ==> rest[j].0 != root && rest[j].1 != 0;
      assert nodes[i + 1] == rest[i];
    }
  }

  /** There is one node to start at, or none. */
  lemma StartIsRootKey(g: Graph, root: string)
    requires StartsAt(g, root)
    ensures RootKey(g.root, g.nodes) == Some(root)
  {
    RootKeyStarts(g.root, g.nodes, g.edges);
  }

  /** The named root, when it is a node and none before it was recorded at depth 0. */
  lemma NamedRootStarts(g: Graph, i: nat)
    requires Distinct(Keys(g.nodes)) && i < |g.nodes| && g.nodes[i].0 == g.root
    requires forall j :: 0 <= j < i ==> g.nodes[j].1 != 0
    ensures StartsAt(g, g.root)
  {
    forall j | 0 <= j < i ensures g.nodes[j].0 != g.root {
      assert Keys(g.nodes)[j] != Keys(g.nodes)[i];
    }
  }

  /** The edge `e` leads from the object at `i` of the order to `x`. */
  predicate Leads(edges: Edges, order: seq<string>, i: int, e: int, x: string) {
    0 <= i < |order| && 0 <= e < |edges| && edges[e] == (order[i], x)
  }

  /** An edge leads to `x` before any leads to `y`: from an earlier object, or an earlier edge from the same. */
  ghost predicate LedToFirst(edges: Edges, order: seq<string>, x: string, y: string) {
    exists i, e :: Leads(edges, order, i, e, x)
                   && forall i', e' :: Leads(edges, order, i', e', y) ==> i < i' || (i == i' && e < e')
  }

  /** The nodes the root does not reach keep their order. */
  ghost predicate RestInOrder(g: Graph, root: string, order: seq<string>) {
    forall i, j :: 0 <= i < j < |g.nodes|
                   && !Reachable(g.edges, root, g.nodes[i].0) && !Reachable(g.edges, root, g.nodes[j].0) ==>
      exists a, b :: 0 <= a < b < |order| && order[a] == g.nodes[i].0 && order[b] == g.nodes[j].0
  }

  /**
   The root first, then what it reaches, nearest first and, from there, in the order in which edges
   lead to it, and last the nodes it does not reach; everything once.
   */
  ghost predicate LoadsFrom(g: Graph, root: string, order: seq<string>) {
    && order != [] && order[0] == root && Distinct(order)
    && (forall x :: x in order <==> Reachable(g.edges, root, x) || x in Keys(g.nodes))
    && (forall i, j, n: nat :: 0 <= i < j < |order| && order[j] in Within(g.edges, root, n) ==>
          order[i] in Within(g.edges, root, n))
    && (forall i, j :: 0 < i < j < |order| && Reachable(g.edges, root, order[j]) ==>
          LedToFirst(g.edges, order, order[i], order[j]))
    && RestInOrder(g, root, order)
  }

  /** The order of a graph whose keys are distinct, as those of a dictionary are. */
  ghost predicate Loads(g: Graph, order: seq<string>) {
    && (forall root :: StartsAt(g, root) ==> LoadsFrom(g, root, order))
    && (Rootless(g) ==> order == Keys(g.nodes))
  }

  /** The reachable part is the root and the newcomers among its own members' providers. */
  lemma {:induction false} LevelOrderDiscovers(edges: Edges, level: seq<string>, seen: set<string>)
    ensures var r := LevelOrder(edges, level, seen); r == level + Discover(ChildrenOfAll(edges, r), seen)
    decreases Targets(edges) - seen, |level|
  {
    if level == [] {
    } else {
      var next := Discover(ChildrenOfAll(edges, level), seen);
      NewcomersAreTargets(edges, level, seen);
      assert next == [] ==> seen + Elements(next) == seen;
      assert next != [] ==> next[0] in Targets(edges) && next[0] in Elements(next);
      LevelOrderDiscovers(edges, next, seen + Elements(next));
      var rest := LevelOrder(edges, next, seen + Elements(next));
      ChildrenOfAllAppend(edges, level, rest);
      DiscoverAppend(ChildrenOfAll(edges, level), ChildrenOfAll(edges, rest), seen);
    }
  }

  lemma {:induction false} ChildrenOfAllAppend(edges: Edges, a: seq<string>, b: seq<string>)
    ensures ChildrenOfAll(edges, a + b) == ChildrenOfAll(edges, a) + ChildrenOfAll(edges, b)
  {
    if a == [] {
      assert a + b == b;
    } else {
      Tail(a, b);
      ChildrenOfAllAppend(edges, a[1..], b);
    }
  }

  lemma {:induction false} DiscoveredInOrder(list: seq<string>, seen: set<string>, a: nat, b: nat)
    requires a < b < |Discover(list, seen)|
    ensures Precedes(list, Discover(list, seen)[a], Discover(list, seen)[b])
    decreases |list|
  {
    var x, y := Discover(list, seen)[a], Discover(list, seen)[b];
    NewcomersDiffer(list, seen, a, b);
    if list[0] in seen {
      DiscoveredInOrder(list[1..], seen, a, b);
    } else if a > 0 {
      NextNewcomers(list, seen, a, b);
      DiscoveredInOrder(list[1..], seen + {list[0]}, a - 1, b - 1);
    }
    PrecedesIn(list, x, y);
  }

  lemma {:induction false} NewcomersDiffer(list: seq<string>, seen: set<string>, a: nat, b: nat)
    requires a < b < |Discover(list, seen)|
    ensures list != [] && Discover(list, seen)[b] != list[0]
    ensures list[0] !in seen && a == 0 ==> Discover(list, seen)[a] == list[0]
  {
    var r := Discover(list, seen);
    assert r[b] in r && r[0] != r[b];
  }

  lemma {:induction false} NextNewcomers(list: seq<string>, seen: set<string>, a: nat, b: nat)
    requires 0 < a < b < |Discover(list, seen)| && list[0] !in seen
    ensures var rest := Discover(list[1..], seen + {list[0]});
            b - 1 < |rest| && rest[a - 1] == Discover(list, seen)[a] && rest[b - 1] == Discover(list, seen)[b]
  {
  }

  /** Providers of one object come in the order of their edges. */
  lemma {:induction false} EdgesInOrder(edges: Edges, a: string, x: string, y: string) returns (e: nat)
    requires Precedes(Children(edges, a), x, y)
    ensures e < |edges| && edges[e] == (a, x)
    ensures forall e' :: 0 <= e' < |edges| && edges[e'] == (a, y) ==> e < e'
  {
    var list := Children(edges, a);
    if edges[0].0 == a {
      PrecedesIn(list, x, y);
      assert list[1..] == Children(edges[1..], a);
    }
    if edges[0] == (a, x) {
      e := 0;
    } else {
      var later := EdgesInOrder(edges[1..], a, x, y);
      e := later + 1;
      assert forall e' :: 0 < e' < |edges| ==> edges[e'] == edges[1..][e' - 1];
    }
  }

  /** The order of providers is that of the edges that lead to them. */
  lemma {:induction false} LedInOrder(edges: Edges, level: seq<string>, x: string, y: string)
    requires Precedes(ChildrenOfAll(edges, level), x, y)
    ensures LedToFirst(edges, level, x, y)
    decreases |level|
  {
    if level == [] {
      assert false;
    } else {
      var first, rest := Children(edges, level[0]), ChildrenOfAll(edges, level[1..]);
      PrecedesSplit(first, rest, x, y);
      if Precedes(first, x, y) {
        var e := EdgesInOrder(edges, level[0], x, y);
        assert Leads(edges, level, 0, e, x);
      } else {
        LedInOrder(edges, level[1..], x, y);
        LedLater(edges, level, x, y);
      }
    }
  }

  lemma LedLater(edges: Edges, level: seq<string>, x: string, y: string)
    requires level != [] && y !in Children(edges, level[0]) && LedToFirst(edges, level[1..], x, y)
    ensures LedToFirst(edges, level, x, y)
  {
    var rest := level[1..];
    var i, e :| Leads(edges, rest, i, e, x)
                && forall i', e' :: Leads(edges, rest, i', e', y) ==> i < i' || (i == i' && e < e');
    assert Leads(edges, level, i + 1, e, x);
    assert forall e' :: !Leads(edges, level, 0, e', y);
    forall i', e' | Leads(edges, level, i', e', y) ensures i + 1 < i' || (i + 1 == i' && e < e') {
      assert Leads(edges, rest, i' - 1, e', y);
    }
  }

  lemma {:induction false} FoundLead(edges: Edges, root: string, r: seq<string>, a: nat, b: nat)
    requires a < b < |Discover(ChildrenOfAll(edges, r), {root})|
    ensures var found := Discover(ChildrenOfAll(edges, r), {root}); LedToFirst(edges, r, found[a], found[b])
  {
    var list := ChildrenOfAll(edges, r);
    DiscoveredInOrder(list, {root}, a, b);
    LedInOrder(edges, r, Discover(list, {root})[a], Discover(list, {root})[b]);
  }

  lemma AllFoundLead(edges: Edges, root: string) returns (found: seq<string>)
    ensures var r := ReachableOrder(edges, root);
            && r == [root] + found
            && forall a, b :: 0 <= a < b < |found| ==> LedToFirst(edges, r, found[a], found[b])
  {
    var r := ReachableOrder(edges, root);
    LevelOrderDiscovers(edges, [root], {root});
    found := Discover(ChildrenOfAll(edges, r), {root});
    forall a, b | 0 <= a < b < |found| ensures LedToFirst(edges, r, found[a], found[b]) {
      FoundLead(edges, root, r, a, b);
    }
  }

  lemma BehindFirst(edges: Edges, root: string, r: seq<string>, found: seq<string>, i: nat, j: nat)
    requires r == [root] + found && 0 < i < j < |r|
    requires LedToFirst(edges, r, found[i - 1], found[j - 1])
    ensures LedToFirst(edges, r, r[i], r[j])
  {
    assert r[i] == found[i - 1] && r[j] == found[j - 1];
  }

  lemma {:induction false} ReachableOrderLeads(edges: Edges, root: string, i: nat, j: nat)
    requires 0 < i < j < |ReachableOrder(edges, root)|
    ensures var r := ReachableOrder(edges, root); LedToFirst(edges, r, r[i], r[j])
  {
    var found := AllFoundLead(edges, root);
    BehindFirst(edges, root, ReachableOrder(edges, root), found, i, j);
  }

  /** Objects listed later lead nowhere earlier. */
  lemma LedInWhole(edges: Edges, reached: seq<string>, rest: seq<string>, x: string, y: string)
    requires LedToFirst(edges, reached, x, y)
    ensures LedToFirst(edges, reached + rest, x, y)
  {
    var i, e :| Leads(edges, reached, i, e, x)
                && forall i', e' :: Leads(edges, reached, i', e', y) ==> i < i' || (i == i' && e < e');
    assert Leads(edges, reached + rest, i, e, x);
    forall i', e' | Leads(edges, reached + rest, i', e', y) ensures i < i' || (i == i' && e < e') {
      assert i' < |reached| ==> Leads(edges, reached, i', e', y);
    }
  }

  lemma {:induction false} WithoutKeepsOrder(keys: seq<string>, gone: set<string>, i: nat, j: nat)
    returns (a: nat, b: nat)
    requires i < j < |keys| && keys[i] !in gone && keys[j] !in gone
    ensures a < b < |Without(keys, gone)| && Without(keys, gone)[a] == keys[i] && Without(keys, gone)[b] == keys[j]
  {
    var rest := Without(keys[1..], gone);
    if i == 0 {
      assert keys[1..][j - 1] == keys[j];
      assert keys[j] in rest;
      b :| 0 <= b < |rest| && rest[b] == keys[j];
      a, b := 0, b + 1;
    } else {
      a, b := WithoutKeepsOrder(keys[1..], gone, i - 1, j - 1);
      if keys[0] !in gone {
        a, b := a + 1, b + 1;
      }
    }
  }

  /** The order is what the root reaches and then the other nodes. */
  lemma OrderParts(g: Graph, root: string) returns (reached: seq<string>, rest: seq<string>)
    requires RootKey(g.root, g.nodes) == Some(root)
    ensures reached == ReachableOrder(g.edges, root) && rest == Without(Keys(g.nodes), Elements(reached))
    ensures Order(g) == reached + rest
    ensures forall k :: 0 <= k < |reached| ==> Reachable(g.edges, root, reached[k])
    ensures forall k :: 0 <= k < |rest| ==> !Reachable(g.edges, root, rest[k])
  {
    reached := ReachableOrder(g.edges, root);
    rest := Without(Keys(g.nodes), Elements(reached));
    ReachableOrderIsByDistance(g.edges, root);
    assert forall k :: 0 <= k < |rest| ==> rest[k] in rest;
  }

  lemma OrderRestInOrder(g: Graph, root: string)
    requires RootKey(g.root, g.nodes) == Some(root)
    ensures RestInOrder(g, root, Order(g))
  {
    forall i, j | 0 <= i < j < |g.nodes| && !Reachable(g.edges, root, g.nodes[i].0)
                  && !Reachable(g.edges, root, g.nodes[j].0)
      ensures exists a, b :: 0 <= a < b < |Order(g)| && Order(g)[a] == g.nodes[i].0 && Order(g)[b] == g.nodes[j].0
    {
      var a, b := OrderKeeps(g, root, i, j);
    }
  }

  lemma {:induction false} NotReached(edges: Edges, root: string, x: string)
    requires !Reachable(edges, root, x)
    ensures x !in Elements(ReachableOrder(edges, root))
  {
    ReachableOrderIsByDistance(edges, root);
  }

  lemma {:induction false} RestKeeps(keys: seq<string>, reached: seq<string>, i: nat, j: nat) returns (a: nat, b: nat)
    requires i < j < |keys| && keys[i] !in Elements(reached) && keys[j] !in Elements(reached)
    ensures var order := reached + Without(keys, Elements(reached));
            a < b < |order| && order[a] == keys[i] && order[b] == keys[j]
  {
    a, b := WithoutKeepsOrder(keys, Elements(reached), i, j);
    a, b := |reached| + a, |reached| + b;
  }

  lemma {:induction false} OrderKeeps(g: Graph, root: string, i: nat, j: nat) returns (a: nat, b: nat)
    requires RootKey(g.root, g.nodes) == Some(root) && i < j < |g.nodes|
    requires !Reachable(g.edges, root, g.nodes[i].0) && !Reachable(g.edges, root, g.nodes[j].0)
    ensures a < b < |Order(g)| && Order(g)[a] == g.nodes[i].0 && Order(g)[b] == g.nodes[j].0
  {
    NotReached(g.edges, root, g.nodes[i].0);
    NotReached(g.edges, root, g.nodes[j].0);
    a, b := RestKeeps(Keys(g.nodes), ReachableOrder(g.edges, root), i, j);
  }

  /** What the root reaches comes first, and by distance. */
  lemma OrderByDistance(g: Graph, root: string, i: nat, j: nat, n: nat)
    requires RootKey(g.root, g.nodes) == Some(root) && i < j < |Order(g)|
    ensures Order(g)[j] in Within(g.edges, root, n) ==> Order(g)[i] in Within(g.edges, root, n)
  {
    var reached, rest := OrderParts(g, root);
    ReachableOrderIsByDistance(g.edges, root);
    if Order(g)[j] in Within(g.edges, root, n) {
      assert Reachable(g.edges, root, Order(g)[j]);
      assert Order(g)[i] == reached[i] && Order(g)[j] == reached[j];
    }
  }

  lemma OrderLeads(g: Graph, root: string, i: nat, j: nat)
    requires RootKey(g.root, g.nodes) == Some(root) && 0 < i < j < |Order(g)|
    requires Reachable(g.edges, root, Order(g)[j])
    ensures LedToFirst(g.edges, Order(g), Order(g)[i], Order(g)[j])
  {
    var reached, rest := OrderParts(g, root);
    assert j < |reached|;
    ReachableOrderLeads(g.edges, root, i, j);
    LedInWhole(g.edges, reached, rest, reached[i], reached[j]);
  }

  lemma OrderHolds(g: Graph, root: string)
    requires RootKey(g.root, g.nodes) == Some(root) && Distinct(Keys(g.nodes))
    ensures Order(g) != [] && Order(g)[0] == root && Distinct(Order(g))
    ensures forall x :: x in Order(g) <==> Reachable(g.edges, root, x) || x in Keys(g.nodes)
  {
    var reached := ReachableOrder(g.edges, root);
    var rest := Without(Keys(g.nodes), set x | x in reached);
    ReachableOrderIsByDistance(g.edges, root);
    LevelOrderDiscovers(g.edges, [root], {root});
    DistinctAppend(reached, rest);
  }

  /** The load order of any graph: where it starts and what comes before what. */
  lemma OrderLoads(g: Graph)
    requires Distinct(Keys(g.nodes))
    ensures Loads(g, Order(g))
  {
    RootKeyStarts(g.root, g.nodes, g.edges);
    if RootKey(g.root, g.nodes).Some? {
      var root := RootKey(g.root, g.nodes).value;
      OrderHolds(g, root);
      OrderRestInOrder(g, root);
      forall i, j, n: nat | 0 <= i < j < |Order(g)| && Order(g)[j] in Within(g.edges, root, n)
        ensures Order(g)[i] in Within(g.edges, root, n)
      {
        OrderByDistance(g, root, i, j, n);
      }
      forall i, j | 0 < i < j < |Order(g)| && Reachable(g.edges, root, Order(g)[j])
        ensures LedToFirst(g.edges, Order(g), Order(g)[i], Order(g)[j])
      {
        OrderLeads(g, root, i, j);
      }
      assert LoadsFrom(g, root, Order(g));
    }
    forall root | StartsAt(g, root) ensures LoadsFrom(g, root, Order(g)) {
      StartIsRootKey(g, root);
    }
  }

  /** The ids within any one distance of the start are an initial part of the order. */
  lemma WithinIsInitial(g: Graph, root: string, n: nat)
    requires StartsAt(g, root)
    ensures forall x :: x in Within(g.edges, root, n) ==> x in Order(g)
    ensures forall i, j :: 0 <= i < j < |Order(g)| && Order(g)[j] in Within(g.edges, root, n) ==>
              Order(g)[i] in Within(g.edges, root, n)
  {
    StartIsRootKey(g, root);
    ReachableOrderIsByDistance(g.edges, root);
    forall x | x in Within(g.edges, root, n) ensures x in Order(g) {
      assert Reachable(g.edges, root, x);
    }
    forall i, j | 0 <= i < j < |Order(g)| && Order(g)[j] in Within(g.edges, root, n)
      ensures Order(g)[i] in Within(g.edges, root, n)
    {
      OrderByDistance(g, root, i, j, n);
    }
  }

  /** The whole order repeats nothing and leaves no node out. */
  lemma OrderIsComplete(g: Graph)
    requires Distinct(Keys(g.nodes))
    ensures Distinct(Order(g))
    ensures forall k :: k in Keys(g.nodes) ==> k in Order(g)
  {
    OrderLoads(g);
    RootKeyStarts(g.root, g.nodes, g.edges);
  }

  // ----- the queue -----

  lemma ElementsConcat(a: seq<string>, b: seq<string>)
    ensures Elements(a + b) == Elements(a) + Elements(b)
  {
  }

  lemma Regroup(a: seq<string>, b: seq<string>, c: seq<string>)
    ensures a + (b + c) == a + b + c
  {
  }

  lemma Tail(a: seq<string>, b: seq<string>)
    requires a != []
    ensures (a + b)[0] == a[0] && (a + b)[1..] == a[1..] + b
  {
  }

  lemma {:induction false} DiscoverAppend(a: seq<string>, b: seq<string>, seen: set<string>)
    ensures Discover(a + b, seen) == Discover(a, seen) + Discover(b, seen + Elements(Discover(a, seen)))
  {
    if a == [] {
      assert a + b == b && seen + Elements(Discover(a, seen)) == seen;
    } else {
      Tail(a, b);
      if a[0] in seen {
        DiscoverAppend(a[1..], b, seen);
      } else {
        var more := seen + {a[0]};
        var rest := Discover(a[1..], more);
        DiscoverAppend(a[1..], b, more);
        ElementsConcat([a[0]], rest);
        assert seen + Elements([a[0]] + rest) == more + Elements(rest);
        Regroup([a[0]], rest, Discover(b, more + Elements(rest)));
      }
    }
  }

  /** What is still to come: the rest of this level, then the levels after it. */
  ghost function Ahead(edges: Edges, level: seq<string>, next: seq<string>, seen: set<string>): seq<string> {
    var found := Discover(ChildrenOfAll(edges, level), seen);
    level + LevelOrder(edges, next + found, seen + Elements(found))
  }

  lemma AheadTurns(edges: Edges, next: seq<string>, seen: set<string>)
    ensures Ahead(edges, [], next, seen) == Ahead(edges, next, [], seen)
  {
    assert ChildrenOfAll(edges, []) == [];
    assert seen + Elements(Discover([], seen)) == seen;
    assert next + [] == next;
    var found := Discover(ChildrenOfAll(edges, next), seen);
    assert [] + found == found;
    if next == [] {
      assert found == [] && seen + Elements(found) == seen;
    }
  }

  lemma AheadStep(edges: Edges, level: seq<string>, next: seq<string>, seen: set<string>)
    requires level != []
    ensures var found := Discover(Children(edges, level[0]), seen);
            var after := Ahead(edges, level[1..], next + found, seen + Elements(found));
            Ahead(edges, level, next, seen) == [level[0]] + after
  {
    var children, more := Children(edges, level[0]), ChildrenOfAll(edges, level[1..]);
    var found := Discover(children, seen);
    var later := Discover(more, seen + Elements(found));
    DiscoverAppend(children, more, seen);
    assert Discover(ChildrenOfAll(edges, level), seen) == found + later;
    AheadRegroups(level, next, seen, found, later);
    var tail := LevelOrder(edges, next + (found + later), seen + Elements(found + later));
    Regroup([level[0]], level[1..], tail);
  }

  lemma AheadRegroups(level: seq<string>, next: seq<string>, seen: set<string>, found: seq<string>, later: seq<string>)
    requires level != []
    ensures next + (found + later) == next + found + later
    ensures seen + Elements(found + later) == seen + Elements(found) + Elements(later)
    ensures [level[0]] + level[1..] == level
  {
  }

  /** `adj.setdefault(consumer, []).append(provider)` over all edges. */
  method Adjacency(edges: Edges) returns (adj: map<string, seq<string>>)
    ensures forall a :: (if a in adj then adj[a] else []) == Children(edges, a)
  {
    adj := map[];
    for i := 0 to |edges|
      invariant forall a :: (if a in adj then adj[a] else []) == Children(edges[..i], a)
    {
      var (consumer, provider) := edges[i];
      TakeOneMore(edges, i);
      forall a
        ensures Children(edges[..i + 1], a) == Children(edges[..i], a) + (if a == consumer then [provider] else [])
      {
        ChildrenAppend(edges[..i], edges[i], a);
      }
      adj := adj[consumer := (if consumer in adj then adj[consumer] else []) + [provider]];
    }
    assert edges[..|edges|] == edges;
  }

  lemma {:induction false} ChildrenAppend(edges: Edges, e: (string, string), a: string)
    ensures Children(edges + [e], a) == Children(edges, a) + (if a == e.0 then [e.1] else [])
  {
    if edges == [] {
    } else {
      assert (edges + [e])[1..] == edges[1..] + [e];
      ChildrenAppend(edges[1..], e, a);
    }
  }

  method FindRootKey(g: Graph) returns (root: Option<string>)
    ensures root == RootKey(g.root, g.nodes)
    ensures if root.Some? then StartsAt(g, root.value) else Rootless(g)
  {
    RootKeyStarts(g.root, g.nodes, g.edges);
    assert g.nodes[0..] == g.nodes;
    for i := 0 to |g.nodes|
      invariant RootKey(g.root, g.nodes) == RootKey(g.root, g.nodes[i..])
    {
      assert g.nodes[i..][0] == g.nodes[i] && g.nodes[i..][1..] == g.nodes[i + 1..];
      if g.nodes[i].0 == g.root || g.nodes[i].1 == 0 {
        return Some(g.nodes[i].0);
      }
    }
    return None;
  }

  method ComputeLoadOrder(g: Graph) returns (order: seq<string>)
    ensures order == Order(g)
    ensures Distinct(Keys(g.nodes)) ==> Loads(g, order)
  {
    if Distinct(Keys(g.nodes)) {
      OrderLoads(g);
    }
    if g.nodes == [] {
      return [];
    }
    var root := FindRootKey(g);
    if root.None? {
      return Keys(g.nodes);
    }
    var adj := Adjacency(g.edges);
    var visited;
    order, visited := BreadthFirst(g.edges, adj, root.value);
    order := order + Without(Keys(g.nodes), visited);
  }

  /** The queue is the rest of one level and the part of the next found so far. */
  ghost predicate Searching(edges: Edges, root: string, order: seq<string>, queue: seq<string>, visited: set<string>,
                            level: seq<string>, next: seq<string>)
  {
    && queue == level + next
    && ReachableOrder(edges, root) == order + Ahead(edges, level, next, visited)
    && visited == Elements(order) + Elements(queue)
  }

  /** When a level is used up the next one takes its place. */
  lemma SearchTurns(edges: Edges, root: string, order: seq<string>, queue: seq<string>, visited: set<string>,
                    level: seq<string>, next: seq<string>)
    returns (level': seq<string>, next': seq<string>)
    requires queue != [] && Searching(edges, root, order, queue, visited, level, next)
    ensures Searching(edges, root, order, queue, visited, level', next') && level' != []
  {
    level', next' := level, next;
    if level == [] {
      AheadTurns(edges, next, visited);
      level', next' := next, [];
    }
  }

  lemma SearchStep(edges: Edges, root: string, order: seq<string>, queue: seq<string>, visited: set<string>,
                   level: seq<string>, next: seq<string>)
    requires level != [] && Searching(edges, root, order, queue, visited, level, next)
    ensures var found := Discover(Children(edges, queue[0]), visited);
            Searching(edges, root, order + [queue[0]], queue[1..] + found, visited + Elements(found), level[1..],
                      next + found)
    ensures |order| < |ReachableOrder(edges, root)|
  {
    AheadStep(edges, level, next, visited);
    var found := Discover(Children(edges, queue[0]), visited);
    PopsFrom(level, next, found);
    ElementsMove(order, queue, found);
    Regroup(order, [queue[0]], Ahead(edges, level[1..], next + found, visited + Elements(found)));
  }

  lemma PopsFrom(level: seq<string>, next: seq<string>, found: seq<string>)
    requires level != []
    ensures (level + next)[1..] + found == level[1..] + (next + found)
    ensures (level + next)[0] == level[0]
  {
  }

  lemma ElementsMove(order: seq<string>, queue: seq<string>, found: seq<string>)
    requires queue != []
    ensures Elements(order + [queue[0]]) + Elements(queue[1..] + found)
            == Elements(order) + Elements(queue) + Elements(found)
  {
  }

  method BreadthFirst(ghost edges: Edges, adj: map<string, seq<string>>, root: string)
    returns (order: seq<string>, visited: set<string>)
    requires forall a :: (if a in adj then adj[a] else []) == Children(edges, a)
    ensures order == ReachableOrder(edges, root) && visited == Elements(order)
  {
    order := [];
    var queue := [root];
    visited := {root};
    ghost var level, next: seq<string> := [root], [];
    FirstAhead(edges, root);
    while queue != []
      invariant Searching(edges, root, order, queue, visited, level, next)
      decreases |ReachableOrder(edges, root)| - |order|
    {
      level, next := SearchTurns(edges, root, order, queue, visited, level, next);
      SearchStep(edges, root, order, queue, visited, level, next);
      var current := queue[0];
      queue := queue[1..];
      order := order + [current];
      var found;
      found, visited := VisitChildren(if current in adj then adj[current] else [], visited);
      queue := queue + found;
      level, next := level[1..], next + found;
    }
    NothingAhead(edges, visited);
  }

  /** The inner loop: unvisited children, marked and queued in order. */
  method VisitChildren(children: seq<string>, seen: set<string>) returns (found: seq<string>, visited: set<string>)
    ensures found == Discover(children, seen) && visited == seen + Elements(found)
  {
    found, visited := [], seen;
    for i := 0 to |children|
      invariant found == Discover(children[..i], seen) && visited == seen + Elements(found)
    {
      DiscoverAppend(children[..i], [children[i]], seen);
      assert children[..i + 1] == children[..i] + [children[i]];
      assert Discover([children[i]], visited) == if children[i] in visited then [] else [children[i]];
      if children[i] !in visited {
        assert Elements(found + [children[i]]) == Elements(found) + {children[i]};
        visited := visited + {children[i]};
        found := found + [children[i]];
      }
    }
    assert children[..|children|] == children;
  }

  lemma FirstAhead(edges: Edges, root: string)
    ensures ReachableOrder(edges, root) == Ahead(edges, [root], [], {root})
    ensures Elements([root]) == {root}
  {
    var found := Discover(ChildrenOfAll(edges, [root]), {root});
    assert [] + found == found;
  }

  lemma NothingAhead(edges: Edges, seen: set<string>)
    ensures Ahead(edges, [], [], seen) == []
  {
  }
}
