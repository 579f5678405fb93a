/**
 The depth-first cycle search over the layer and module import graph
 (scripts/architecture_graph.py).  The search is sound and complete: it answers
 None exactly on acyclic graphs, and what it returns otherwise is a simple cycle.
 */
module ArchitectureGraph {
  import opened Options
  import opened Ordering

  /** Node to targets; a target need not be a key. */
  type Graph = map<string, set<string>>

  function Targets(g: Graph, node: string): set<string> {
    if node in g then g[node] else {}
  }

  predicate Edge(g: Graph, a: string, b: string) {
    a in g && b in g[a]
  }

  function Nodes(g: Graph): set<string> {
    g.Keys + set k, t | k in g && t in g[k] :: t
  }

  predicate IsPath(g: Graph, p: seq<string>) {
    forall i :: 0 <= i < |p| - 1 ==> Edge(g, p[i], p[i + 1])
  }

  /** At least one edge, closed, and every step a real edge. */
  predicate IsCycle(g: Graph, c: seq<string>) {
    |c| >= 2 && c[0] == c[|c| - 1] && IsPath(g, c)
  }

  predicate IsSimpleCycle(g: Graph, c: seq<string>) {
    IsCycle(g, c) && Distinct(c[1..])
  }

  ghost predicate Acyclic(g: Graph) {
    forall c :: !IsCycle(g, c)
  }

  /** Every node comes after all of its targets. */
  ghost predicate FinishingOrder(g: Graph, order: seq<string>) {
    forall i, t :: 0 <= i < |order| && Edge(g, order[i], t) ==> t in order[..i]
  }

  /** Along a path of finished nodes the finishing positions descend. */
  lemma {:induction false} RankDescends(g: Graph, order: seq<string>, p: seq<string>, i: nat) returns (j: nat)
    requires FinishingOrder(g, order) && IsPath(g, p) && p != []
    requires i < |order| && order[i] == p[0]
    ensures j < |order| && order[j] == p[|p| - 1]
    ensures j + |p| <= i + 1
    decreases |p|
  {
    if |p| == 1 {
      j := i;
    } else {
      assert Edge(g, p[0], p[1]);
      var k :| 0 <= k < i && order[k] == p[1];
      assert IsPath(g, p[1..]) by {
        forall m | 0 <= m < |p[1..]| - 1 ensures Edge(g, p[1..][m], p[1..][m + 1]) {
          assert Edge(g, p[m + 1], p[m + 2]);
        }
      }
      j := RankDescends(g, order, p[1..], k);
    }
  }

  /** A cycle would have to descend for ever, so a fully finished graph has none. */
  lemma {:induction false} FinishedGraphIsAcyclic(g: Graph, order: seq<string>)
    requires FinishingOrder(g, order)
    requires forall k :: k in g ==> k in order
    ensures Acyclic(g)
  {
    forall c | IsCycle(g, c) ensures false {
      assert Edge(g, c[0], c[1]);
      var i :| 0 <= i < |order| && order[i] == c[0];
      CycleDescends(g, order, c, i);
    }
  }

  lemma {:induction false} CycleDescends(g: Graph, order: seq<string>, c: seq<string>, i: nat)
    requires FinishingOrder(g, order) && IsCycle(g, c)
    requires i < |order| && order[i] == c[0]
    ensures false
    decreases i
  {
    var j := RankDescends(g, order, c, i);
    CycleDescends(g, order, c, j);
  }

  /** The closure `visit` with the two collections it mutates. */
  class CycleSearch {
    const graph: Graph
    var active: seq<string>
    var done: set<string>
    ghost var finished: seq<string>  // done, in the order in which nodes were added

    ghost predicate Valid()
      reads this
    {
      && Distinct(active)
      && IsPath(graph, active)
      && Elements(active) <= Nodes(graph)
      && Elements(active) !! done
      && done == Elements(finished)
      && FinishingOrder(graph, finished)
    }

    constructor (graph: Graph)
      ensures Valid() && this.graph == graph
      ensures active == [] && done == {}
    {
      this.graph := graph;
      active, done, finished := [], {}, [];
    }

    method Visit(node: string) returns (cycle: Option<seq<string>>)
      requires Valid()
      requires node in Nodes(graph)
      requires active != [] ==> Edge(graph, active[|active| - 1], node)
      modifies this
      ensures cycle.Some? ==> IsSimpleCycle(graph, cycle.value)
      ensures cycle.None? ==>
                Valid() && active == old(active) && node in done && old(done) <= done
      decreases Nodes(graph) - Elements(active), 0
    {
      if node in active {
        cycle := CloseCycle(node);
        return;
      }
      if node in done {
        return None;
      }
      ghost var before := active;
      Push(node);
      var targets := SortNames(Targets(graph, node));
      cycle := VisitTargets(node, targets);
      if cycle.None? {
        Finish(before, node, targets);
      }
    }

    /** The loop over a node's targets. */
    method VisitTargets(node: string, targets: seq<string>) returns (cycle: Option<seq<string>>)
      requires Valid() && active != [] && active[|active| - 1] == node
      requires forall t :: t in targets <==> Edge(graph, node, t)
      modifies this
      ensures cycle.Some? ==> IsSimpleCycle(graph, cycle.value)
      ensures cycle.None? ==>
                && Valid() && active == old(active) && old(done) <= done
                && forall k :: 0 <= k < |targets| ==> targets[k] in done
      decreases Nodes(graph) - Elements(active), 1
    {
      for i := 0 to |targets|
        invariant Valid() && active == old(active)
        invariant old(done) <= done
        invariant forall k :: 0 <= k < i ==> targets[k] in done
      {
        TargetIsNode(node, targets[i]);
        cycle := Visit(targets[i]);
        if cycle.Some? {
          return;
        }
      }
      return None;
    }

    method Push(node: string)
      requires Valid() && node in Nodes(graph)
      requires active != [] ==> Edge(graph, active[|active| - 1], node)
      requires node !in active && node !in done
      modifies this`active
      ensures Valid() && active == old(active) + [node]
      ensures Nodes(graph) - Elements(active) < Nodes(graph) - Elements(old(active))
    {
      PushNode(node);
      active := active + [node];
    }

    /** The two updates once every target is done. */
    method Finish(ghost before: seq<string>, node: string, ghost targets: seq<string>)
      requires Valid() && active == before + [node]
      requires forall t :: t in targets <==> Edge(graph, node, t)
      requires forall k :: 0 <= k < |targets| ==> targets[k] in done
      modifies this
      ensures Valid() && active == before && done == old(done) + {node}
    {
      FinishNode(before, node, targets);
      active := active[..|active| - 1];
      done := done + {node};
      finished := finished + [node];
    }

    /** The active path from the node's earlier visit on, and back to it. */
    method CloseCycle(node: string) returns (cycle: Option<seq<string>>)
      requires Valid() && node in active
      requires Edge(graph, active[|active| - 1], node)
      ensures cycle.Some? && IsSimpleCycle(graph, cycle.value)
    {
      var start := Index(active, node);
      ClosesCycle(graph, active, start, node);
      return Some(active[start..] + [node]);
    }

    lemma AllDone(nodes: seq<string>)
      requires Valid()
      requires forall k :: k in nodes <==> k in graph
      requires forall k :: 0 <= k < |nodes| ==> nodes[k] in done
      ensures Acyclic(graph)
    {
      FinishedGraphIsAcyclic(graph, finished);
    }

    lemma TargetIsNode(node: string, target: string)
      requires Edge(graph, node, target)
      ensures target in Nodes(graph)
    {
    }

    lemma PushNode(node: string)
      requires Valid() && node in Nodes(graph)
      requires active != [] ==> Edge(graph, active[|active| - 1], node)
      requires node !in active && node !in done
      ensures Distinct(active + [node]) && IsPath(graph, active + [node])
      ensures Elements(active + [node]) == Elements(active) + {node}
    {
    }

    /** What makes a node with finished targets fit to be finished itself. */
    lemma FinishNode(before: seq<string>, node: string, targets: seq<string>)
      requires Valid() && active == before + [node]
      requires forall t :: t in targets <==> Edge(graph, node, t)
      requires forall k :: 0 <= k < |targets| ==> targets[k] in done
      ensures FinishingOrder(graph, finished + [node])
      ensures Elements(finished + [node]) == done + {node}
      ensures active[..|active| - 1] == before
      ensures Distinct(before) && IsPath(graph, before)
      ensures Elements(before) <= Nodes(graph) && Elements(before) !! done + {node}
    {
      var order := finished + [node];
      forall i, t | 0 <= i < |order| && Edge(graph, order[i], t) ensures t in order[..i] {
        if i < |finished| {
          assert t in finished[..i];
          assert order[..i] == finished[..i];
        } else {
          assert order[..i] == finished;
          assert t in targets && t in done;
        }
      }
      assert forall x :: x in order <==> x in finished || x == node;
      forall i | 0 <= i < |before| - 1 ensures Edge(graph, before[i], before[i + 1]) {
        assert before[i] == active[i] && before[i + 1] == active[i + 1];
      }
      forall x | x in before ensures x in Nodes(graph) && x !in done + {node} {
        var i :| 0 <= i < |before| && before[i] == x;
        assert active[i] == x && active[|before|] == node;
        assert x in Elements(active);
      }
    }
  }

  /** `list.index`. */
  function Index(s: seq<string>, x: string): (i: nat)
    requires x in s
    ensures i < |s| && s[i] == x && x !in s[..i]
  {
    if s[0] == x then 0 else 1 + Index(s[1..], x)
  }

  lemma ClosesCycle(g: Graph, active: seq<string>, start: nat, node: string)
    requires start < |active| && active[start] == node
    requires Distinct(active) && IsPath(g, active) && Edge(g, active[|active| - 1], node)
    ensures IsSimpleCycle(g, active[start..] + [node])
  {
  }

  method FindCycle(graph: Graph) returns (cycle: Option<seq<string>>)
    ensures cycle.Some? ==> IsSimpleCycle(graph, cycle.value)
    ensures cycle.None? <==> Acyclic(graph)
  {
    var search := new CycleSearch(graph);
    var nodes := SortNames(graph.Keys);
    for i := 0 to |nodes|
      invariant search.Valid() && search.graph == graph && search.active == []
      invariant forall k :: 0 <= k < i ==> nodes[k] in search.done
    {
      assert nodes[i] in nodes;
      cycle := search.Visit(nodes[i]);
      if cycle.Some? {
        return;
      }
    }
    search.AllDone(nodes);
    return None;
  }
}
