/**
 When a cycle-cutting, memoising resolver's answer depends on the queries before it.
 Cut results are cached, so an id that runs into a cycle may keep the result of whichever
 query entered that cycle first.  It does not exactly when, on that cycle, no id but
 the one the chain enters at adds anything of its own.
 */
module QueryOrder {
  import opened ChainResolution
  import opened Ordering

  /** The id `n` references down the chain. */
  ghost function Node<V(!new)>(link: int -> Link<V>, id: int, n: nat): int
    decreases n
  {
    if n == 0 || link(id).Leaf? then id else Node(link, link(id).target, n - 1)
  }

  ghost predicate OnCycle<V(!new)>(link: int -> Link<V>, id: int) {
    exists p: nat :: p > 0 && Leads(link, id, id, p)
  }

  /** `e`, `n` references down, is the first id of the chain that lies on a cycle. */
  ghost predicate Enters<V(!new)>(link: int -> Link<V>, id: int, e: int, n: nat) {
    Node(link, id, n) == e && OnCycle(link, e) && forall m: nat :: m < n ==> !OnCycle(link, Node(link, id, m))
  }

  /** Results have a size, to which each id adds its weight; a weightless id passes results through. */
  ghost predicate Weighted<V(!new)>(link: int -> Link<V>, measure: V -> nat, weight: int -> nat) {
    forall i, v {:trigger link(i).wrap(v)} :: link(i).Via? ==>
      measure(link(i).wrap(v)) == measure(v) + weight(i) && (weight(i) == 0 ==> link(i).wrap(v) == v)
  }

  ghost predicate OthersWeightless<V(!new)>(link: int -> Link<V>, weight: int -> nat, e: int) {
    forall k: nat :: Node(link, e, k) != e ==> weight(Node(link, e, k)) == 0
  }

  ghost predicate Steady<V(!new)>(link: int -> Link<V>, weight: int -> nat, id: int) {
    Acyclic(link, id) || exists e, n: nat :: Enters(link, id, e, n) && OthersWeightless(link, weight, e)
  }

  function Answer<V(!new)>(link: int -> Link<V>, limit: nat, cut: V, queries: seq<int>, id: int): V
    requires Bounded(link, limit)
  {
    Resolve(link, limit, cut, CacheAfter(link, limit, cut, queries), {}, id).0
  }

  ghost predicate OrderIndependent<V(!new)>(link: int -> Link<V>, limit: nat, cut: V, id: int)
    requires Bounded(link, limit)
  {
    forall a, b :: Answer(link, limit, cut, a, id) == Answer(link, limit, cut, b, id)
  }

  // ----- nodes of a chain -----

  lemma {:induction false} NodeAdd<V(!new)>(link: int -> Link<V>, id: int, m: nat, n: nat)
    ensures Node(link, id, m + n) == Node(link, Node(link, id, m), n)
    decreases m
  {
    if m > 0 && link(id).Via? {
      NodeAdd(link, link(id).target, m - 1, n);
    } else if m > 0 {
      assert Node(link, id, m) == id;
    }
  }

  lemma {:induction false} LeadsIsNode<V(!new)>(link: int -> Link<V>, a: int, b: int, n: nat)
    requires Leads(link, a, b, n)
    ensures Node(link, a, n) == b
    decreases n
  {
    if n == 0 {
    } else {
      LeadsIsNode(link, link(a).target, b, n - 1);
    }
  }

  lemma {:induction false} CyclicNodes<V(!new)>(link: int -> Link<V>, id: int, n: nat)
    requires !Acyclic(link, id)
    ensures !Acyclic(link, Node(link, id, n)) && Leads(link, id, Node(link, id, n), n)
    ensures link(Node(link, id, n)).Via?
    decreases n
  {
    ValueStep(link, id);
    if n == 0 {
    } else {
      CyclicNodes(link, link(id).target, n - 1);
    }
  }

  lemma OnCycleIsCyclic<V(!new)>(link: int -> Link<V>, id: int)
    requires OnCycle(link, id)
    ensures !Acyclic(link, id) && link(id).Via?
  {
    var p: nat :| p > 0 && Leads(link, id, id, p);
    LoopNeverEnds(link, id, p);
    ValueStep(link, id);
  }

  /** Meeting an id again proves a cycle. */
  lemma RepeatIsCycle<V(!new)>(link: int -> Link<V>, id: int, i: nat, j: nat)
    requires !Acyclic(link, id) && i < j && Node(link, id, i) == Node(link, id, j)
    ensures OnCycle(link, Node(link, id, i))
  {
    var x := Node(link, id, i);
    CyclicNodes(link, id, i);
    NodeAdd(link, id, i, j - i);
    CyclicNodes(link, x, j - i);
  }

  /** More ids than the table holds cannot all differ. */
  lemma {:induction false} Pigeonhole(limit: nat, s: seq<int>)
    requires |s| > limit && forall i :: 0 <= i < |s| ==> 0 <= s[i] < limit
    ensures exists i, j :: 0 <= i < j < |s| && s[i] == s[j]
  {
    if forall i, j :: 0 <= i < j < |s| ==> s[i] != s[j] {
      DistinctFits(limit, s);
    }
  }

  lemma {:induction false} DistinctFits(limit: nat, s: seq<int>)
    requires forall i :: 0 <= i < |s| ==> 0 <= s[i] < limit
    requires forall i, j :: 0 <= i < j < |s| ==> s[i] != s[j]
    ensures |s| <= limit
  {
    var held := set x | x in s;
    DistinctCount(s);
    Below(limit);
    assert held <= Open(limit, {});
    SmallerSet(held, Open(limit, {}));
  }

  lemma {:induction false} DistinctCount(s: seq<int>)
    requires forall i, j :: 0 <= i < j < |s| ==> s[i] != s[j]
    ensures |set x | x in s| == |s|
  {
    if s == [] {
    } else {
      var front, last := s[..|s| - 1], s[|s| - 1];
      DistinctCount(front);
      assert (set x | x in s) == (set x | x in front) + {last} by {
        assert s == front + [last];
      }
      assert last !in front;
    }
  }

  lemma {:induction false} Below(limit: nat)
    ensures |Open(limit, {})| == limit
  {
    if limit == 0 {
    } else {
      Below(limit - 1);
      assert Open(limit, {}) == Open(limit - 1, {}) + {limit - 1};
    }
  }

  lemma {:induction false} LeastOnCycle<V(!new)>(link: int -> Link<V>, id: int, n: nat) returns (e: int, m: nat)
    requires OnCycle(link, Node(link, id, n))
    ensures Enters(link, id, e, m)
    decreases n
  {
    if k: nat :| k < n && OnCycle(link, Node(link, id, k)) {
      e, m := LeastOnCycle(link, id, k);
    } else {
      e, m := Node(link, id, n), n;
    }
  }

  /** A chain that never ends enters a cycle somewhere. */
  lemma EntryExists<V(!new)>(link: int -> Link<V>, limit: nat, id: int) returns (e: int, n: nat)
    requires Bounded(link, limit) && !Acyclic(link, id)
    ensures Enters(link, id, e, n)
  {
    var s := seq(limit + 1, i requires 0 <= i => Node(link, id, i));
    forall i | 0 <= i < |s| ensures 0 <= s[i] < limit {
      CyclicNodes(link, id, i);
    }
    Pigeonhole(limit, s);
    var i, j :| 0 <= i < j < |s| && s[i] == s[j];
    RepeatIsCycle(link, id, i, j);
    e, n := LeastOnCycle(link, id, i);
  }

  // ----- steady ids keep one answer -----

  /** What entering the cycle at `e` makes of the cut value. */
  ghost function Canon<V(!new)>(link: int -> Link<V>, cut: V, id: int, n: nat): V
    decreases n
  {
    match link(id)
    case Leaf(v) => v
    case Via(target, wrap) => if n == 0 then wrap(cut) else wrap(Canon(link, cut, target, n - 1))
  }

  ghost predicate BesideOnCycle<V(!new)>(link: int -> Link<V>, e: int, x: int) {
    x != e && exists k: nat :: Node(link, e, k) == x
  }

  ghost predicate SteadyCache<V(!new)>(link: int -> Link<V>, cut: V, e: int, cache: map<int, V>) {
    && (forall y, n: nat :: y in cache && Enters(link, y, e, n) ==> cache[y] == Canon(link, cut, y, n))
    && (e !in cache ==> forall x :: x in cache && BesideOnCycle(link, e, x) ==> cache[x] == cut)
  }

  lemma EntersStep<V(!new)>(link: int -> Link<V>, id: int, e: int, n: nat)
    requires Enters(link, id, e, n) && n > 0
    ensures link(id).Via? && Enters(link, link(id).target, e, n - 1)
    ensures !OnCycle(link, id)
  {
    assert Node(link, id, 0) == id;
    if link(id).Via? {
      forall m: nat | m < n - 1 ensures !OnCycle(link, Node(link, link(id).target, m)) {
        assert Node(link, id, m + 1) == Node(link, link(id).target, m);
      }
    }
  }

  /** The ids beside `e` on its cycle are closed under reference, up to `e`. */
  lemma BesideStep<V(!new)>(link: int -> Link<V>, e: int, x: int)
    requires OnCycle(link, e) && (x == e || BesideOnCycle(link, e, x))
    ensures link(x).Via? && (link(x).target == e || BesideOnCycle(link, e, link(x).target))
    ensures OnCycle(link, x)
  {
    OnCycleIsCyclic(link, e);
    assert Node(link, e, 0) == e;
    var k: nat :| Node(link, e, k) == x;
    CyclicNodes(link, e, k);
    NodeAdd(link, e, k, 1);
    assert Node(link, x, 1) == link(x).target by { assert Node(link, link(x).target, 0) == link(x).target; }
    var p: nat :| p > 0 && Leads(link, e, e, p);
    LeadsIsNode(link, e, e, p);
    RoundAgain(link, e, p, k);
    RepeatIsCycle(link, e, k, k + p);
  }

  lemma RoundAgain<V(!new)>(link: int -> Link<V>, e: int, p: nat, k: nat)
    requires Node(link, e, p) == e
    ensures Node(link, e, k + p) == Node(link, e, k)
  {
    NodeAdd(link, e, p, k);
  }

  /** What leads to an id off the cycle is not on it. */
  lemma OffCycleNotBelow<V(!new)>(link: int -> Link<V>, e: int, id: int, hops: nat, n: nat)
    requires Leads(link, e, id, hops) && Enters(link, id, e, n)
    ensures OnCycle(link, id)
  {
    if hops == 0 {
    } else {
      LeadsIsNode(link, e, id, hops);
      OnCycleIsCyclic(link, e);
      if id != e {
        assert BesideOnCycle(link, e, id);
        BesideStep(link, e, id);
      }
    }
  }

  lemma {:induction false} ResolveSteady<V(!new)>(link: int -> Link<V>, limit: nat, cut: V, weight: int -> nat,
                                                  measure: V -> nat, e: int, cache: map<int, V>, resolving: set<int>,
                                                  id: int)
    requires Bounded(link, limit) && Weighted(link, measure, weight)
    requires OnCycle(link, e) && OthersWeightless(link, weight, e)
    requires SteadyCache(link, cut, e, cache) && Pending(link, resolving, id) && resolving !! cache.Keys
    ensures var (result, after) := Resolve(link, limit, cut, cache, resolving, id);
            && SteadyCache(link, cut, e, after) && resolving !! after.Keys
            && (forall n: nat :: Enters(link, id, e, n) && id !in resolving ==> result == Canon(link, cut, id, n))
            && (BesideOnCycle(link, e, id) && e !in after ==> result == cut)
    decreases Open(limit, resolving)
  {
    if id in cache || id in resolving {
    } else if link(id).Leaf? {
      LeafIsOffCycle(link, e, id);
    } else {
      var target := link(id).target;
      PendingStep(link, resolving, id);
      assert id in Open(limit, resolving) && id !in Open(limit, resolving + {id});
      ResolveSteady(link, limit, cut, weight, measure, e, cache, resolving + {id}, target);
      var (inner, mid) := Resolve(link, limit, cut, cache, resolving + {id}, target);
      if id == e {
        BesideStep(link, e, e);
        EntryIsCanon(link, cut, e);
      } else if BesideOnCycle(link, e, id) {
        BesideStep(link, e, id);
        NotEntered(link, e, id);
        assert weight(id) == 0;
        assert link(id).wrap(inner) == inner;
      } else {
        forall n: nat | Enters(link, id, e, n) ensures link(id).wrap(inner) == Canon(link, cut, id, n) {
          assert n > 0 by { assert Node(link, id, 0) == id; }
          EntersStep(link, id, e, n);
          TargetIsFresh(link, e, resolving, id, n);
        }
      }
    }
  }

  lemma LeafIsOffCycle<V(!new)>(link: int -> Link<V>, e: int, id: int)
    requires OnCycle(link, e) && link(id).Leaf?
    ensures !BesideOnCycle(link, e, id) && forall n: nat :: !Enters(link, id, e, n)
  {
    OnCycleIsCyclic(link, e);
    if BesideOnCycle(link, e, id) {
      BesideStep(link, e, id);
    }
    forall n: nat ensures !Enters(link, id, e, n) {
      assert Node(link, id, n) == id;
    }
  }

  lemma EntryIsCanon<V(!new)>(link: int -> Link<V>, cut: V, e: int)
    requires OnCycle(link, e)
    ensures forall n: nat :: Enters(link, e, e, n) ==> n == 0
    ensures link(e).Via? && Canon(link, cut, e, 0) == link(e).wrap(cut)
  {
    OnCycleIsCyclic(link, e);
    forall n: nat | Enters(link, e, e, n) ensures n == 0 {
      assert Node(link, e, 0) == e;
    }
  }

  /** Another id of the cycle enters it at itself. */
  lemma NotEntered<V(!new)>(link: int -> Link<V>, e: int, x: int)
    requires OnCycle(link, x) && x != e
    ensures forall n: nat :: !Enters(link, x, e, n)
  {
    forall n: nat ensures !Enters(link, x, e, n) {
      assert Node(link, x, 0) == x;
    }
  }

  /** Nothing on the way to the cycle is met while it is being resolved. */
  lemma TargetIsFresh<V(!new)>(link: int -> Link<V>, e: int, resolving: set<int>, id: int, n: nat)
    requires Enters(link, id, e, n) && n > 0 && link(id).Via?
    requires Pending(link, resolving, id)
    ensures link(id).target !in resolving + {id}
  {
    var target := link(id).target;
    EntersStep(link, id, e, n);
    PendingStep(link, resolving, id);
    if target in resolving + {id} {
      var hops: nat :| hops > 0 && Leads(link, target, target, hops);
      assert OnCycle(link, target);
      if n > 1 {
        EntersStep(link, target, e, n - 1);
      } else if target != id {
        var k: nat :| k > 0 && Leads(link, target, id, k);
        OffCycleNotBelow(link, e, id, k, n);
      }
    }
  }

  lemma {:induction false} QueriesStaySteady<V(!new)>(link: int -> Link<V>, limit: nat, cut: V, weight: int -> nat,
                                                      measure: V -> nat, e: int, queries: seq<int>)
    requires Bounded(link, limit) && Weighted(link, measure, weight)
    requires OnCycle(link, e) && OthersWeightless(link, weight, e)
    ensures SteadyCache(link, cut, e, CacheAfter(link, limit, cut, queries))
  {
    if queries == [] {
    } else {
      var front := queries[..|queries| - 1];
      QueriesStaySteady(link, limit, cut, weight, measure, e, front);
      ResolveSteady(link, limit, cut, weight, measure, e, CacheAfter(link, limit, cut, front), {},
                    queries[|queries| - 1]);
    }
  }

  lemma SteadyIsIndependent<V(!new)>(link: int -> Link<V>, limit: nat, cut: V, weight: int -> nat, measure: V -> nat,
                                     id: int)
    requires Bounded(link, limit) && Weighted(link, measure, weight) && Steady(link, weight, id)
    ensures OrderIndependent(link, limit, cut, id)
  {
    forall a, b ensures Answer(link, limit, cut, a, id) == Answer(link, limit, cut, b, id) {
      var ca, cb := CacheAfter(link, limit, cut, a), CacheAfter(link, limit, cut, b);
      if Acyclic(link, id) {
        QueriesStayTruthful(link, limit, cut, a);
        QueriesStayTruthful(link, limit, cut, b);
        ResolveIsPlain(link, limit, cut, ca, {}, id);
        ResolveIsPlain(link, limit, cut, cb, {}, id);
      } else {
        var e, n: nat :| Enters(link, id, e, n) && OthersWeightless(link, weight, e);
        QueriesStaySteady(link, limit, cut, weight, measure, e, a);
        QueriesStaySteady(link, limit, cut, weight, measure, e, b);
        ResolveSteady(link, limit, cut, weight, measure, e, ca, {}, id);
        ResolveSteady(link, limit, cut, weight, measure, e, cb, {}, id);
      }
    }
  }

  // ----- other ids do not -----

  /** The weight of the first `n` ids of a chain. */
  ghost function Sum<V(!new)>(link: int -> Link<V>, weight: int -> nat, id: int, n: nat): nat {
    if n == 0 then 0 else Sum(link, weight, id, n - 1) + weight(Node(link, id, n - 1))
  }

  lemma {:induction false} SumSplit<V(!new)>(link: int -> Link<V>, weight: int -> nat, id: int, m: nat, n: nat)
    ensures Sum(link, weight, id, m + n) == Sum(link, weight, id, m) + Sum(link, weight, Node(link, id, m), n)
    decreases n
  {
    if n == 0 {
    } else {
      SumSplit(link, weight, id, m, n - 1);
      NodeAdd(link, id, m, n - 1);
    }
  }

  /** A stretch of ids none of which is met again, cached or being resolved. */
  ghost predicate Fresh<V(!new)>(link: int -> Link<V>, cache: map<int, V>, resolving: set<int>, id: int, n: nat) {
    && (forall i: nat :: i < n ==> Node(link, id, i) !in cache && Node(link, id, i) !in resolving)
    && (forall i: nat, j: nat :: i < j < n ==> Node(link, id, i) != Node(link, id, j))
  }

  /** What a fresh stretch ends on: a cached result, or an id already being resolved. */
  ghost predicate EndsOn<V(!new)>(link: int -> Link<V>, cut: V, cache: map<int, V>, resolving: set<int>, id: int,
                                  n: nat, base: V)
  {
    var end := Node(link, id, n);
    if end in cache then base == cache[end]
    else base == cut && (end in resolving || exists i: nat :: i < n && Node(link, id, i) == end)
  }

  /** The ids of a stretch. */
  ghost function Stretch<V(!new)>(link: int -> Link<V>, id: int, n: nat): set<int>
    decreases n
  {
    if n == 0 then {}
    else {id} + if link(id).Via? then Stretch(link, link(id).target, n - 1) else {}
  }

  lemma {:induction false} StretchNode<V(!new)>(link: int -> Link<V>, id: int, n: nat, x: int) returns (i: nat)
    requires x in Stretch(link, id, n)
    ensures i < n && Node(link, id, i) == x
    decreases n
  {
    if x == id {
      i := 0;
    } else {
      i := StretchNode(link, link(id).target, n - 1, x);
      i := i + 1;
    }
  }

  lemma ResolveStep<V(!new)>(link: int -> Link<V>, limit: nat, cut: V, cache: map<int, V>, resolving: set<int>, id: int)
    requires Bounded(link, limit) && id !in cache && id !in resolving && link(id).Via?
    ensures var (inner, after) := Resolve(link, limit, cut, cache, resolving + {id}, link(id).target);
            Resolve(link, limit, cut, cache, resolving, id) ==
            (link(id).wrap(inner), after[id := link(id).wrap(inner)])
  {
  }

  lemma SumStep<V(!new)>(link: int -> Link<V>, weight: int -> nat, id: int, n: nat)
    requires link(id).Via? && n > 0
    ensures Sum(link, weight, id, n) == weight(id) + Sum(link, weight, link(id).target, n - 1)
  {
    SumSplit(link, weight, id, 1, n - 1);
    assert Node(link, id, 0) == id;
    assert Node(link, link(id).target, 0) == link(id).target == Node(link, id, 1);
    assert Sum(link, weight, id, 1) == Sum(link, weight, id, 0) + weight(id);
  }

  lemma {:induction false} FreshRun<V(!new)>(link: int -> Link<V>, limit: nat, cut: V, weight: int -> nat,
                                             measure: V -> nat, cache: map<int, V>, resolving: set<int>, id: int,
                                             n: nat, base: V)
    requires Bounded(link, limit) && Weighted(link, measure, weight) && !Acyclic(link, id)
    requires Fresh(link, cache, resolving, id, n) && EndsOn(link, cut, cache, resolving, id, n, base)
    ensures var (result, after) := Resolve(link, limit, cut, cache, resolving, id);
            && measure(result) == measure(base) + Sum(link, weight, id, n)
            && after.Keys == cache.Keys + Stretch(link, id, n)
    decreases n
  {
    assert Node(link, id, 0) == id;
    if n == 0 {
    } else {
      ValueStep(link, id);
      SumStep(link, weight, id, n);
      FreshRest(link, cut, cache, resolving, id, n, base);
      FreshRun(link, limit, cut, weight, measure, cache, resolving + {id}, link(id).target, n - 1, base);
      ResolveStep(link, limit, cut, cache, resolving, id);
    }
  }

  /** Every id of the stretch is cached with what it adds up to from there on. */
  lemma {:induction false} FreshRunCaches<V(!new)>(link: int -> Link<V>, limit: nat, cut: V, weight: int -> nat,
                                                   measure: V -> nat, cache: map<int, V>, resolving: set<int>, id: int,
                                                   n: nat, base: V, i: nat)
    requires Bounded(link, limit) && Weighted(link, measure, weight) && !Acyclic(link, id)
    requires Fresh(link, cache, resolving, id, n) && EndsOn(link, cut, cache, resolving, id, n, base) && i < n
    ensures var x, after := Node(link, id, i), Resolve(link, limit, cut, cache, resolving, id).1;
            x in after && measure(after[x]) == measure(base) + Sum(link, weight, x, n - i)
    decreases n
  {
    assert Node(link, id, 0) == id;
    if i == 0 {
      FreshRun(link, limit, cut, weight, measure, cache, resolving, id, n, base);
      ValueStep(link, id);
    } else {
      ValueStep(link, id);
      FreshRest(link, cut, cache, resolving, id, n, base);
      FreshRunCaches(link, limit, cut, weight, measure, cache, resolving + {id}, link(id).target, n - 1, base, i - 1);
    }
  }

  lemma FreshRest<V(!new)>(link: int -> Link<V>, cut: V, cache: map<int, V>, resolving: set<int>, id: int, n: nat,
                           base: V)
    requires link(id).Via? && n > 0
    requires Fresh(link, cache, resolving, id, n) && EndsOn(link, cut, cache, resolving, id, n, base)
    ensures Fresh(link, cache, resolving + {id}, link(id).target, n - 1)
    ensures EndsOn(link, cut, cache, resolving + {id}, link(id).target, n - 1, base)
  {
    var target := link(id).target;
    assert Node(link, id, 0) == id;
    forall i: nat ensures Node(link, id, i + 1) == Node(link, target, i) {
    }
    var end := Node(link, id, n);
    assert end == Node(link, target, n - 1);
    forall i: nat | i < n - 1 ensures Node(link, target, i) !in cache && Node(link, target, i) !in resolving + {id} {
      assert Node(link, id, i + 1) == Node(link, target, i);
    }
    forall i: nat, j: nat | i < j < n - 1 ensures Node(link, target, i) != Node(link, target, j) {
      assert Node(link, id, i + 1) == Node(link, target, i) && Node(link, id, j + 1) == Node(link, target, j);
    }
    if end !in cache && end !in resolving {
      var i: nat :| i < n && Node(link, id, i) == end;
      if i > 0 {
        assert Node(link, target, i - 1) == end;
      }
    }
  }

  /** The cycle through `e`, once around. */
  ghost predicate Round<V(!new)>(link: int -> Link<V>, e: int, p: nat) {
    && p > 0 && Node(link, e, p) == e
    && forall i: nat :: 0 < i < p ==> Node(link, e, i) != e
  }

  lemma {:induction false} RoundExists<V(!new)>(link: int -> Link<V>, e: int, n: nat) returns (p: nat)
    requires n > 0 && Node(link, e, n) == e
    ensures Round(link, e, p)
    decreases n
  {
    if i: nat :| 0 < i < n && Node(link, e, i) == e {
      p := RoundExists(link, e, i);
    } else {
      p := n;
    }
  }

  /** Within one round no id repeats. */
  lemma RoundIsDistinct<V(!new)>(link: int -> Link<V>, e: int, p: nat, i: nat, j: nat)
    requires Round(link, e, p) && i < j < p
    ensures Node(link, e, i) != Node(link, e, j)
  {
    NodeAdd(link, e, i, p - i);
    NodeAdd(link, e, j, p - i);
    NodeAdd(link, e, p, j - i);
  }

  /** Every id of the cycle goes round in the same number of references. */
  lemma RoundFrom<V(!new)>(link: int -> Link<V>, e: int, p: nat, k: nat)
    requires Round(link, e, p) && k < p
    ensures Round(link, Node(link, e, k), p)
    ensures Node(link, Node(link, e, k), p - k) == e
  {
    var x := Node(link, e, k);
    NodeAdd(link, e, k, p);
    NodeAdd(link, e, p, k);
    NodeAdd(link, e, k, p - k);
    forall i: nat | 0 < i < p ensures Node(link, x, i) != x {
      NodeAdd(link, e, k, i);
      if k + i < p {
        RoundIsDistinct(link, e, p, k, k + i);
      } else {
        NodeAdd(link, e, p, k + i - p);
        RoundIsDistinct(link, e, p, k + i - p, k);
      }
    }
  }

  lemma {:induction false} ReduceToRound<V(!new)>(link: int -> Link<V>, e: int, p: nat, k: nat) returns (r: nat)
    requires Round(link, e, p)
    ensures r < p && Node(link, e, r) == Node(link, e, k)
    decreases k
  {
    if k < p {
      r := k;
    } else {
      NodeAdd(link, e, p, k - p);
      r := ReduceToRound(link, e, p, k - p);
    }
  }

  /** The chain down to the cycle and once around it meets nothing twice. */
  lemma LassoIsFresh<V(!new)>(link: int -> Link<V>, id: int, e: int, n: nat, p: nat)
    requires !Acyclic(link, id) && Enters(link, id, e, n) && Round(link, e, p)
    ensures Fresh(link, map[], {}, id, n + p)
    ensures Node(link, id, n + p) == e == Node(link, id, n)
  {
    NodeAdd(link, id, n, p);
    forall i: nat, j: nat | i < j < n + p ensures Node(link, id, i) != Node(link, id, j) {
      if i < n {
        if Node(link, id, i) == Node(link, id, j) {
          RepeatIsCycle(link, id, i, j);
        }
      } else {
        NodeAdd(link, id, n, i - n);
        NodeAdd(link, id, n, j - n);
        RoundIsDistinct(link, e, p, i - n, j - n);
      }
    }
  }

  /** Asked first, `id` takes on the whole cycle. */
  lemma AskedFirst<V(!new)>(link: int -> Link<V>, limit: nat, cut: V, weight: int -> nat, measure: V -> nat, id: int,
                            e: int, n: nat, p: nat)
    requires Bounded(link, limit) && Weighted(link, measure, weight)
    requires !Acyclic(link, id) && Enters(link, id, e, n) && Round(link, e, p)
    ensures measure(Answer(link, limit, cut, [], id))
            == measure(cut) + Sum(link, weight, id, n) + Sum(link, weight, e, p)
  {
    LassoIsFresh(link, id, e, n, p);
    FreshRun(link, limit, cut, weight, measure, map[], {}, id, n + p, cut);
    SumSplit(link, weight, id, n, p);
  }

  /** Asked after the `k`-th id of the cycle, `id` takes on only what comes before that one. */
  lemma AskedSecond<V(!new)>(link: int -> Link<V>, limit: nat, cut: V, weight: int -> nat, measure: V -> nat, id: int,
                             e: int, n: nat, p: nat, k: nat)
    requires Bounded(link, limit) && Weighted(link, measure, weight)
    requires !Acyclic(link, id) && Enters(link, id, e, n) && Round(link, e, p) && 0 < k < p
    ensures measure(Answer(link, limit, cut, [Node(link, e, k)], id))
         == measure(cut) + Sum(link, weight, id, n) + Sum(link, weight, e, k)
  {
    var x := Node(link, e, k);
    RoundFrom(link, e, p, k);
    CyclicNodes(link, id, n);
    CyclicNodes(link, e, k);
    CyclicNodes(link, x, p);
    assert OnCycle(link, x) by { assert Leads(link, x, x, p); }
    assert Enters(link, x, x, 0) by { assert Node(link, x, 0) == x; }
    LassoIsFresh(link, x, x, 0, p);
    FreshRunCaches(link, limit, cut, weight, measure, map[], {}, x, p, cut, p - k);
    FreshRun(link, limit, cut, weight, measure, map[], {}, x, p, cut);
    var after := Resolve(link, limit, cut, map[], {}, x).1;
    assert [x][..0] == [];
    assert CacheAfter(link, limit, cut, []) == map[];
    assert CacheAfter(link, limit, cut, [x]) == after;
    assert Node(link, x, p - k) == e;
    assert e in after && measure(after[e]) == measure(cut) + Sum(link, weight, e, k);
    LassoIsFresh(link, id, e, n, p);
    forall i: nat | i < n ensures Node(link, id, i) !in after {
      if Node(link, id, i) in after {
        var j := StretchNode(link, x, p, Node(link, id, i));
        RoundFrom(link, x, p, j);
        var y := Node(link, x, j);
        CyclicNodes(link, x, j);
        CyclicNodes(link, y, p);
      }
    }
    FreshRun(link, limit, cut, weight, measure, after, {}, id, n, after[e]);
  }

  lemma {:induction false} SumGrows<V(!new)>(link: int -> Link<V>, weight: int -> nat, id: int, k: nat, p: nat)
    requires k < p && weight(Node(link, id, k)) > 0
    ensures Sum(link, weight, id, k) < Sum(link, weight, id, p)
    decreases p
  {
    if k == p - 1 {
    } else {
      SumGrows(link, weight, id, k, p - 1);
    }
  }

  lemma UnsteadyDepends<V(!new)>(link: int -> Link<V>, limit: nat, cut: V, weight: int -> nat, measure: V -> nat,
                                 id: int)
    requires Bounded(link, limit) && Weighted(link, measure, weight) && !Steady(link, weight, id)
    ensures !OrderIndependent(link, limit, cut, id)
  {
    var e, n := EntryExists(link, limit, id);
    var far: nat :| Node(link, e, far) != e && weight(Node(link, e, far)) != 0;
    var q: nat :| q > 0 && Leads(link, e, e, q);
    LeadsIsNode(link, e, e, q);
    var p := RoundExists(link, e, q);
    var k := ReduceToRound(link, e, p, far);
    assert Node(link, e, 0) == e;
    assert 0 < k < p;
    AskedFirst(link, limit, cut, weight, measure, id, e, n, p);
    AskedSecond(link, limit, cut, weight, measure, id, e, n, p, k);
    SumGrows(link, weight, e, k, p);
    assert Answer(link, limit, cut, [], id) != Answer(link, limit, cut, [Node(link, e, k)], id);
  }

  /** An answer is the same after every run of queries exactly for steady ids. */
  lemma IndependentIffSteady<V(!new)>(link: int -> Link<V>, limit: nat, cut: V, weight: int -> nat, measure: V -> nat,
                                      id: int)
    requires Bounded(link, limit) && Weighted(link, measure, weight)
    ensures OrderIndependent(link, limit, cut, id) <==> Steady(link, weight, id)
  {
    if Steady(link, weight, id) {
      SteadyIsIndependent(link, limit, cut, weight, measure, id);
    } else {
      UnsteadyDepends(link, limit, cut, weight, measure, id);
    }
  }
}
