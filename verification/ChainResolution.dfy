/**
 Memoised resolution over a table in which every entry refers to at most one other
 (`_TypeResolver._resolve_cached`, abicheck/btf_metadata.py).  A reference met again
 while it is being resolved is cut; finished results are cached, cut or not.
 */
module ChainResolution {

  /** What an id resolves to: a value, or another id's value rewrapped. */
  datatype Link<!V> = Leaf(value: V) | Via(target: int, wrap: V -> V)

  /** Only ids inside the table refer to others. */
  ghost predicate Bounded<V(!new)>(link: int -> Link<V>, limit: nat) {
    forall id :: link(id).Via? ==> 0 <= id < limit
  }

  /** The ids a call may still enter; it shrinks at every step down. */
  function Open(limit: nat, resolving: set<int>): set<int> {
    set i | 0 <= i < limit && i !in resolving
  }

  /** The result and the cache afterwards. */
  function Resolve<V(!new)>(link: int -> Link<V>, limit: nat, cut: V, cache: map<int, V>, resolving: set<int>, id: int)
    : (V, map<int, V>)
    requires Bounded(link, limit)
    decreases Open(limit, resolving)
  {
    if id in cache then (cache[id], cache)
    else if id in resolving then (cut, cache)
    else match link(id)
      case Leaf(v) => (v, cache[id := v])
      case Via(target, wrap) =>
        assert id in Open(limit, resolving) && id !in Open(limit, resolving + {id});
        var (inner, after) := Resolve(link, limit, cut, cache, resolving + {id}, target);
        (wrap(inner), after[id := wrap(inner)])
  }

  // ----- plain recursion, where the chain ends -----

  ghost predicate EndsIn<V(!new)>(link: int -> Link<V>, id: int, hops: nat)
    decreases hops
  {
    match link(id)
    case Leaf(_) => hops == 0
    case Via(target, _) => hops > 0 && EndsIn(link, target, hops - 1)
  }

  ghost predicate Acyclic<V(!new)>(link: int -> Link<V>, id: int) {
    exists hops: nat :: EndsIn(link, id, hops)
  }

  ghost function Plain<V(!new)>(link: int -> Link<V>, id: int, hops: nat): V
    requires EndsIn(link, id, hops)
    decreases hops
  {
    match link(id)
    case Leaf(v) => v
    case Via(target, wrap) => wrap(Plain(link, target, hops - 1))
  }

  ghost function Value<V(!new)>(link: int -> Link<V>, id: int): V
    requires Acyclic(link, id)
  {
    var hops: nat :| EndsIn(link, id, hops);
    Plain(link, id, hops)
  }

  lemma {:induction false} EndsInUnique<V(!new)>(link: int -> Link<V>, id: int, j: nat, k: nat)
    requires EndsIn(link, id, j) && EndsIn(link, id, k)
    ensures j == k
    decreases j
  {
    if link(id).Leaf? {
    } else {
      EndsInUnique(link, link(id).target, j - 1, k - 1);
    }
  }

  lemma ValueIsPlain<V(!new)>(link: int -> Link<V>, id: int, hops: nat)
    requires EndsIn(link, id, hops)
    ensures Acyclic(link, id) && Value(link, id) == Plain(link, id, hops)
  {
    var k: nat :| EndsIn(link, id, k) && Value(link, id) == Plain(link, id, k);
    EndsInUnique(link, id, hops, k);
  }

  /** The value of an id is that of its target, rewrapped; its chain ends just when the target's does. */
  lemma ValueStep<V(!new)>(link: int -> Link<V>, id: int)
    ensures link(id).Leaf? ==> Acyclic(link, id) && Value(link, id) == link(id).value
    ensures link(id).Via? ==> (Acyclic(link, id) <==> Acyclic(link, link(id).target))
    ensures link(id).Via? && Acyclic(link, id) ==> Value(link, id) == link(id).wrap(Value(link, link(id).target))
  {
    match link(id)
    case Leaf(_) =>
      ValueIsPlain(link, id, 0);
    case Via(target, wrap) =>
      if k: nat :| EndsIn(link, id, k) {
        ValueIsPlain(link, id, k);
        ValueIsPlain(link, target, k - 1);
      }
      if k: nat :| EndsIn(link, target, k) {
        assert EndsIn(link, id, k + 1);
      }
  }

  // ----- reachability along the chain -----

  ghost predicate Leads<V(!new)>(link: int -> Link<V>, from: int, to: int, hops: nat)
    decreases hops
  {
    if hops == 0 then from == to
    else link(from).Via? && Leads(link, link(from).target, to, hops - 1)
  }

  lemma {:induction false} LeadsTrans<V(!new)>(link: int -> Link<V>, a: int, b: int, c: int, m: nat, n: nat)
    requires Leads(link, a, b, m) && Leads(link, b, c, n)
    ensures Leads(link, a, c, m + n)
    decreases m
  {
    if m == 0 {
    } else {
      LeadsTrans(link, link(a).target, b, c, m - 1, n);
    }
  }

  lemma {:induction false} LeadsShortens<V(!new)>(link: int -> Link<V>, from: int, to: int, hops: nat, end: nat)
    requires Leads(link, from, to, hops) && EndsIn(link, from, end)
    ensures hops <= end && EndsIn(link, to, end - hops)
    decreases hops
  {
    if hops == 0 {
    } else {
      LeadsShortens(link, link(from).target, to, hops - 1, end - 1);
    }
  }

  lemma LoopNeverEnds<V(!new)>(link: int -> Link<V>, id: int, hops: nat)
    requires hops > 0 && Leads(link, id, id, hops)
    ensures !Acyclic(link, id)
  {
    if end: nat :| EndsIn(link, id, end) {
      LeadsShortens(link, id, id, hops, end);
      EndsInUnique(link, id, end, end - hops);
    }
  }

  /** Every id being resolved is being resolved because of this one. */
  ghost predicate Pending<V(!new)>(link: int -> Link<V>, resolving: set<int>, id: int) {
    forall r :: r in resolving ==> exists hops: nat :: hops > 0 && Leads(link, r, id, hops)
  }

  lemma PendingStep<V(!new)>(link: int -> Link<V>, resolving: set<int>, id: int)
    requires Pending(link, resolving, id) && link(id).Via?
    ensures Pending(link, resolving + {id}, link(id).target)
  {
    var target := link(id).target;
    assert Leads(link, id, target, 1) by { assert Leads(link, target, target, 0); }
    forall r | r in resolving ensures exists hops: nat :: hops > 0 && Leads(link, r, target, hops) {
      var hops: nat :| hops > 0 && Leads(link, r, id, hops);
      LeadsTrans(link, r, id, target, hops, 1);
    }
  }

  // ----- what caching keeps -----

  ghost predicate Truthful<V(!new)>(link: int -> Link<V>, cache: map<int, V>) {
    forall i :: i in cache && Acyclic(link, i) ==> cache[i] == Value(link, i)
  }

  /** An id whose chain ends gets its plain value, whatever cut results are cached elsewhere. */
  lemma {:induction false} ResolveIsPlain<V(!new)>(link: int -> Link<V>, limit: nat, cut: V, cache: map<int, V>,
                                                   resolving: set<int>, id: int)
    requires Bounded(link, limit) && Truthful(link, cache) && Pending(link, resolving, id)
    ensures var (result, after) := Resolve(link, limit, cut, cache, resolving, id);
            Truthful(link, after) && (Acyclic(link, id) ==> result == Value(link, id))
    decreases Open(limit, resolving)
  {
    if id in cache {
    } else if id in resolving {
      var hops: nat :| hops > 0 && Leads(link, id, id, hops);
      LoopNeverEnds(link, id, hops);
    } else {
      ValueStep(link, id);
      if link(id).Via? {
        PendingStep(link, resolving, id);
        assert id in Open(limit, resolving) && id !in Open(limit, resolving + {id});
        ResolveIsPlain(link, limit, cut, cache, resolving + {id}, link(id).target);
      }
    }
  }

  /** Rewrapping the cut value gives it back. */
  ghost predicate Absorbs<V(!new)>(link: int -> Link<V>, cut: V) {
    forall i :: link(i).Via? ==> link(i).wrap(cut) == cut
  }

  ghost predicate CutOnCycles<V(!new)>(link: int -> Link<V>, cut: V, cache: map<int, V>) {
    forall i :: i in cache && !Acyclic(link, i) ==> cache[i] == cut
  }

  /** Where the cut value absorbs, an id whose chain runs into a cycle always gets it. */
  lemma {:induction false} ResolveIsCut<V(!new)>(link: int -> Link<V>, limit: nat, cut: V, cache: map<int, V>,
                                                 resolving: set<int>, id: int)
    requires Bounded(link, limit) && Absorbs(link, cut) && CutOnCycles(link, cut, cache)
    ensures var (result, after) := Resolve(link, limit, cut, cache, resolving, id);
            CutOnCycles(link, cut, after) && (!Acyclic(link, id) ==> result == cut)
    decreases Open(limit, resolving)
  {
    if id in cache || id in resolving {
    } else {
      ValueStep(link, id);
      if link(id).Via? {
        assert id in Open(limit, resolving) && id !in Open(limit, resolving + {id});
        ResolveIsCut(link, limit, cut, cache, resolving + {id}, link(id).target);
      }
    }
  }

  // ----- runs of queries -----

  /** The cache after a run of top-level queries on a fresh resolver. */
  function CacheAfter<V(!new)>(link: int -> Link<V>, limit: nat, cut: V, queries: seq<int>): map<int, V>
    requires Bounded(link, limit)
  {
    if queries == [] then map[]
    else
      var before := CacheAfter(link, limit, cut, queries[..|queries| - 1]);
      Resolve(link, limit, cut, before, {}, queries[|queries| - 1]).1
  }

  lemma {:induction false} QueriesStayTruthful<V(!new)>(link: int -> Link<V>, limit: nat, cut: V, queries: seq<int>)
    requires Bounded(link, limit)
    ensures Truthful(link, CacheAfter(link, limit, cut, queries))
  {
    if queries == [] {
    } else {
      var front := queries[..|queries| - 1];
      QueriesStayTruthful(link, limit, cut, front);
      ResolveIsPlain(link, limit, cut, CacheAfter(link, limit, cut, front), {}, queries[|queries| - 1]);
    }
  }

  lemma {:induction false} QueriesStayCut<V(!new)>(link: int -> Link<V>, limit: nat, cut: V, queries: seq<int>)
    requires Bounded(link, limit) && Absorbs(link, cut)
    ensures CutOnCycles(link, cut, CacheAfter(link, limit, cut, queries))
  {
    if queries == [] {
    } else {
      var front := queries[..|queries| - 1];
      QueriesStayCut(link, limit, cut, front);
      ResolveIsCut(link, limit, cut, CacheAfter(link, limit, cut, front), {}, queries[|queries| - 1]);
    }
  }
}
