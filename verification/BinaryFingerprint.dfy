/**
 Rename matching by fingerprint (abicheck/binary_fingerprint.py).  The code's hash and
 size indices, its lazily built key index, its early stop at a second partner and its
 bisected size window are proved to compute just the set-level renames of RenameSpec, so
 neither the blocking keys nor the dictionary order can change an answer.
*/
module BinaryFingerprint {
  import opened Options
  import opened Ordering
  import opened RenameMeaning
  import opened RenameSpec

  type Entry = (string, Fingerprint)
  type BySize = map<int, seq<Entry>>
  type ByHash = map<string, seq<Entry>>

  // ----- the indices -----

  predicate DistinctNames(entries: seq<Entry>) {
    forall i, j :: 0 <= i < j < |entries| ==> entries[i].0 != entries[j].0
  }

  /** `index` files exactly the entries of `news` among `names` that `key` gives a key. */
  ghost predicate Indexed<K(!new)>(index: map<K, seq<Entry>>, key: Fingerprint -> Option<K>, news: Symbols,
                                   names: set<string>)
  {
    && (forall k, e :: k in index && e in index[k] ==>
          e.0 in names && e.0 in news && e.1 == news[e.0] && key(e.1) == Some(k))
    && (forall k :: k in index ==> DistinctNames(index[k]))
    && (forall n :: n in names && n in news && key(news[n]).Some? ==>
          key(news[n]).value in index && (n, news[n]) in index[key(news[n]).value])
  }

  /** `dict.setdefault(k, []).append(e)`. */
  function Append<K, E>(index: map<K, seq<E>>, k: K, e: E): map<K, seq<E>> {
    index[k := (if k in index then index[k] else []) + [e]]
  }

  function File<K>(index: map<K, seq<Entry>>, key: Fingerprint -> Option<K>, e: Entry): map<K, seq<Entry>> {
    if key(e.1).Some? then Append(index, key(e.1).value, e) else index
  }

  lemma FileIndexes<K(!new)>(index: map<K, seq<Entry>>, key: Fingerprint -> Option<K>, news: Symbols,
                             names: set<string>, n: string)
    requires Indexed(index, key, news, names)
    requires n in news && n !in names
    ensures Indexed(File(index, key, (n, news[n])), key, news, names + {n})
  {
    if key(news[n]).Some? {
      var k, e := key(news[n]).value, (n, news[n]);
      var had := if k in index then index[k] else [];
      assert DistinctNames(had + [e]) by {
        forall i | 0 <= i < |had| ensures had[i].0 != n { assert had[i] in index[k]; }
      }
      assert forall x :: x in had + [e] <==> x in had || x == e;
    }
  }

  function SizeKey(fp: Fingerprint): Option<int> {
    Some(fp.size)
  }

  function HashKey(fp: Fingerprint): Option<string> {
    if fp.codeHash == "" then None else Some(fp.codeHash)
  }

  lemma FileOneMore<K(!new)>(index: map<K, seq<Entry>>, key: Fingerprint -> Option<K>, news: Symbols,
                             order: seq<string>, i: nat)
    requires Distinct(order) && Elements(order) == news.Keys && i < |order|
    requires Indexed(index, key, news, Elements(order[..i]))
    ensures order[i] in news
    ensures Indexed(File(index, key, (order[i], news[order[i]])), key, news, Elements(order[..i + 1]))
  {
    assert order[i] in Elements(order);
    assert Elements(order[..i + 1]) == Elements(order[..i]) + {order[i]};
    FileIndexes(index, key, news, Elements(order[..i]), order[i]);
  }

  /** `order` is the insertion order of the candidate dictionary. */
  method IndexNewCandidates(news: Symbols, order: seq<string>) returns (bySize: BySize, byHash: ByHash)
    requires Distinct(order) && Elements(order) == news.Keys
    ensures Indexed(bySize, SizeKey, news, news.Keys)
    ensures Indexed(byHash, HashKey, news, news.Keys)
  {
    bySize, byHash := map[], map[];
    for i := 0 to |order|
      invariant Indexed(bySize, SizeKey, news, Elements(order[..i]))
      invariant Indexed(byHash, HashKey, news, Elements(order[..i]))
    {
      FileOneMore(bySize, SizeKey, news, order, i);
      FileOneMore(byHash, HashKey, news, order, i);
      var entry := (order[i], news[order[i]]);
      bySize := File(bySize, SizeKey, entry);
      byHash := File(byHash, HashKey, entry);
    }
    TakeAll(order);
  }

  // ----- blocking keys -----

  ghost predicate SharesKey<K>(keys: string -> seq<K>, a: string, b: string) {
    exists k :: k in keys(a) && k in keys(b)
  }

  /** The documented contract of `name_keys`. */
  ghost predicate KeysCover<K>(filter: NameFilter, keys: string -> seq<K>) {
    forall a, b {:trigger SharesKey(keys, a, b)} :: Accepts(filter, a, b) ==> SharesKey(keys, a, b)
  }

  class KeyedBuckets<K(==, !new)> {
    const bySize: BySize
    const keys: string -> seq<K>
    var index: map<int, map<K, seq<int>>>

    predicate Filed(idx: map<K, seq<int>>, k: K, pos: int) {
      k in idx && pos in idx[k]
    }

    ghost predicate KeyIndex(bucket: seq<Entry>, idx: map<K, seq<int>>) {
      forall k, pos :: Filed(idx, k, pos) <==> 0 <= pos < |bucket| && k in keys(bucket[pos].0)
    }

    /** The bucket entries that share a key with `name`, in bucket order. */
    ghost predicate Selects(bucket: seq<Entry>, name: string, positions: seq<int>, partners: seq<Entry>) {
      && |positions| == |partners|
      && SortedBy(positions, IntLe) && Distinct(positions)
      && (forall p :: p in positions <==> 0 <= p < |bucket| && SharesKey(keys, name, bucket[p].0))
      && (forall i :: 0 <= i < |partners| ==> 0 <= positions[i] < |bucket| && partners[i] == bucket[positions[i]])
    }

    ghost predicate Valid()
      reads this
    {
      forall s :: s in index ==> s in bySize && KeyIndex(bySize[s], index[s])
    }

    constructor (bySize: BySize, keys: string -> seq<K>)
      ensures Valid() && this.bySize == bySize && this.keys == keys && index == map[]
    {
      this.bySize, this.keys := bySize, keys;
      index := map[];
    }

    method BuildIndex(bucket: seq<Entry>) returns (idx: map<K, seq<int>>)
      ensures KeyIndex(bucket, idx)
    {
      idx := map[];
      for pos := 0 to |bucket|
        invariant KeyIndex(bucket[..pos], idx)
      {
        ghost var before := idx;
        var todo := set k | k in keys(bucket[pos].0);
        while todo != {}
          invariant forall k :: k in todo ==> k in keys(bucket[pos].0)
          invariant forall k, p :: Filed(idx, k, p) <==>
                      Filed(before, k, p) || (p == pos && k in keys(bucket[pos].0) && k !in todo)
          decreases |todo|
        {
          var key :| key in todo;
          ghost var was := idx;
          idx := Append(idx, key, pos);
          forall k, p ensures Filed(idx, k, p) <==> Filed(was, k, p) || (k == key && p == pos) {
            if k == key { assert idx[key] == (if key in was then was[key] else []) + [pos]; }
          }
          todo := todo - {key};
        }
        assert forall p :: 0 <= p < pos ==> bucket[..pos + 1][p] == bucket[..pos][p];
      }
      assert bucket[..|bucket|] == bucket;
    }

    method Partners(size: int, oldName: string) returns (partners: seq<Entry>)
      requires Valid()
      modifies this
      ensures Valid()
      ensures size !in bySize ==> partners == []
      ensures size in bySize ==> exists positions :: Selects(bySize[size], oldName, positions, partners)
    {
      if size !in bySize || bySize[size] == [] {
        assert size in bySize ==> Selects(bySize[size], oldName, [], []);
        return [];
      }
      var bucket := bySize[size];
      if size !in index {
        var idx := BuildIndex(bucket);
        index := index[size := idx];
      }
      var found := Positions(oldName, index[size]);
      forall p ensures p in found <==> 0 <= p < |bucket| && SharesKey(keys, oldName, bucket[p].0) {
        assert KeyIndex(bucket, index[size]);
      }
      var positions := SortInts(found);
      assert forall i :: 0 <= i < |positions| ==> positions[i] in positions;
      partners := seq(|positions|, i requires 0 <= i < |positions| => bucket[positions[i]]);
      assert Selects(bucket, oldName, positions, partners);
    }

    method Positions(oldName: string, idx: map<K, seq<int>>) returns (found: set<int>)
      ensures forall p :: p in found <==> exists k :: k in keys(oldName) && Filed(idx, k, p)
    {
      found := {};
      for i := 0 to |keys(oldName)|
        invariant forall p :: p in found <==> exists k :: k in keys(oldName)[..i] && Filed(idx, k, p)
      {
        var key := keys(oldName)[i];
        assert forall k :: k in keys(oldName)[..i + 1] <==> k in keys(oldName)[..i] || k == key by {
          assert keys(oldName)[..i + 1] == keys(oldName)[..i] + [key];
        }
        ghost var was := found;
        if key in idx {
          found := found + set p | p in idx[key];
        }
        forall p ensures p in found <==> exists k :: k in keys(oldName)[..i + 1] && Filed(idx, k, p) {
          assert p in found <==> p in was || Filed(idx, key, p);
          if k :| k in keys(oldName)[..i] && Filed(idx, k, p) {
            assert k in keys(oldName)[..i + 1];
          }
        }
      }
      assert keys(oldName)[..|keys(oldName)|] == keys(oldName);
    }
  }

  // ----- the scan for a unique partner -----

  /** The entries worth testing: right size, right fingerprint, nothing acceptable missing. */
  ghost predicate Tests(entries: seq<Entry>, size: int, oldName: string, filter: NameFilter, news: Symbols) {
    && DistinctNames(entries)
    && (forall e :: e in entries ==> e.0 in news && e.1 == news[e.0] && e.1.size == size)
    && (forall n :: n in news && news[n].size == size && Accepts(filter, oldName, n) ==> (n, news[n]) in entries)
  }

  /** `found` settles whether `partners` is a singleton. */
  ghost predicate Answers(found: seq<Entry>, partners: set<string>, news: Symbols) {
    && (|found| == 1 ==> partners == {found[0].0} && found[0].0 in news && found[0].1 == news[found[0].0])
    && (|found| != 1 ==> |partners| != 1)
  }

  /** The state of a scan that has met the names in `seen` and not yet two partners. */
  ghost predicate Scanned(found: seq<Entry>, partners: set<string>, seen: set<string>, news: Symbols) {
    && |found| <= 1
    && (found == [] ==> partners !! seen)
    && (|found| == 1 ==> partners * seen == {found[0].0} && found[0].0 in news && found[0].1 == news[found[0].0])
  }

  lemma ScanEnds(found: seq<Entry>, partners: set<string>, seen: set<string>, news: Symbols)
    requires Scanned(found, partners, seen, news) && partners <= seen
    ensures Answers(found, partners, news)
  {
  }

  lemma SecondPartner(found: seq<Entry>, e: Entry, partners: set<string>, seen: set<string>, news: Symbols)
    requires Scanned(found, partners, seen, news) && |found| == 1
    requires e.0 in partners && e.0 !in seen
    ensures Answers(found + [e], partners, news)
  {
    assert found[0].0 in partners * seen;
    if |partners| == 1 {
      OnlyOne(partners, found[0].0, e.0);
    }
  }

  lemma SkipAll(found: seq<Entry>, partners: set<string>, seen: set<string>, more: set<string>, news: Symbols)
    requires Scanned(found, partners, seen, news)
    requires forall n :: n in more && n in partners ==> n in seen
    ensures Scanned(found, partners, seen + more, news)
  {
  }

  ghost function Claimed(pass: Pass, name: string, o: Fingerprint, found: seq<Entry>, st: Claims): Claims {
    if |found| == 1
    then Claims(st.usedNew + {found[0].0}, st.matchedOld + {name},
                st.pairs + [RenameCandidate(name, found[0].0, pass.Confidence(), o, found[0].1)])
    else st
  }

  /** What a scan that answered, or a skipped matched name, makes of the claims. */
  lemma ClaimIs(pass: Pass, filter: NameFilter, olds: Symbols, news: Symbols, name: string, st: Claims,
                found: seq<Entry>)
    requires name in olds
    requires if name in st.matchedOld then found == []
             else Answers(found, Partners(pass, filter, name, olds[name], news, st.usedNew), news)
    ensures Claim(pass, filter, olds, news, name, st) == Claimed(pass, name, olds[name], found, st)
  {
  }

  lemma ClaimAllStep(pass: Pass, filter: NameFilter, olds: Symbols, news: Symbols, names: seq<string>, i: nat,
                     start: Claims)
    requires forall n :: n in names ==> n in olds
    requires i < |names|
    ensures names[i] in olds
    ensures ClaimAll(pass, filter, olds, news, names[..i + 1], start)
         == Claim(pass, filter, olds, news, names[i], ClaimAll(pass, filter, olds, news, names[..i], start))
  {
    assert names[..i + 1][..i] == names[..i];
  }

  lemma PassAppends(pass: Pass, filter: NameFilter, olds: Symbols, news: Symbols, st: Claims, after: Claims)
    requires after == RunPass(pass, filter, olds, news, st.(pairs := []))
    ensures RunPass(pass, filter, olds, news, st) == after.(pairs := st.pairs + after.pairs)
  {
    ClaimAllGrows(pass, filter, olds, news, SortNames(olds.Keys), st);
  }

  /** A name not walked yet is not matched yet. */
  lemma NotMatchedYet(pass: Pass, filter: NameFilter, olds: Symbols, news: Symbols, names: seq<string>, i: nat,
                      start: Claims)
    requires forall n :: n in names ==> n in olds
    requires i < |names| && Distinct(names) && start.matchedOld == {}
    ensures names[i] !in ClaimAll(pass, filter, olds, news, names[..i], start).matchedOld
  {
    ClaimAllGrows(pass, filter, olds, news, names[..i], start);
  }

  // ----- the passes -----

  /** `used_new` and `matched_old`, the sets the passes share and update. */
  class Matching {
    var usedNew: set<string>
    var matchedOld: set<string>

    constructor ()
      ensures usedNew == {} && matchedOld == {}
    {
      usedNew, matchedOld := {}, {};
    }
  }

  ghost predicate KeyedFor<K(!new)>(keyed: KeyedBuckets?<K>, bySize: BySize, filter: NameFilter)
    reads keyed
  {
    keyed != null ==> keyed.Valid() && keyed.bySize == bySize && KeysCover(filter, keyed.keys)
  }

  method Bucket<K(==, !new)>(bySize: BySize, keyed: KeyedBuckets?<K>, size: int, oldName: string,
                             ghost filter: NameFilter, ghost news: Symbols)
    returns (entries: seq<Entry>)
    requires Indexed(bySize, SizeKey, news, news.Keys)
    requires KeyedFor(keyed, bySize, filter)
    modifies keyed
    ensures KeyedFor(keyed, bySize, filter)
    ensures Tests(entries, size, oldName, filter, news)
  {
    if keyed != null {
      entries := keyed.Partners(size, oldName);
      if size in bySize {
        ghost var positions :| keyed.Selects(bySize[size], oldName, positions, entries);
        SelectedSuffice(keyed, bySize, positions, entries, size, oldName, filter, news);
      }
    } else {
      entries := if size in bySize then bySize[size] else [];
    }
  }

  lemma SelectedSuffice<K(!new)>(keyed: KeyedBuckets<K>, bySize: BySize, positions: seq<int>, entries: seq<Entry>,
                                 size: int, oldName: string, filter: NameFilter, news: Symbols)
    requires Indexed(bySize, SizeKey, news, news.Keys) && size in bySize
    requires KeysCover(filter, keyed.keys)
    requires keyed.Selects(bySize[size], oldName, positions, entries)
    ensures Tests(entries, size, oldName, filter, news)
  {
  }

  /** The list comprehension of the exact pass. */
  function ExactMatches(hits: seq<Entry>, oldName: string, size: nat, used: set<string>, filter: NameFilter)
    : (r: seq<Entry>)
    ensures forall e :: e in r <==> e in hits && e.0 !in used && e.1.size == size && Accepts(filter, oldName, e.0)
    ensures DistinctNames(hits) ==> DistinctNames(r)
  {
    if hits == [] then []
    else
      var rest := ExactMatches(hits[1..], oldName, size, used, filter);
      assert hits == [hits[0]] + hits[1..];
      assert DistinctNames(hits) ==> forall k :: 0 <= k < |rest| ==> rest[k] in hits[1..] && rest[k].0 != hits[0].0;
      if hits[0].0 !in used && hits[0].1.size == size && (filter.None? || filter.value(oldName, hits[0].0))
      then [hits[0]] + rest else rest
  }

  ghost function OldNames(pairs: seq<RenameCandidate>): set<string> {
    set c | c in pairs :: c.oldName
  }

  /** A list of all partners, without repetition, settles whether there is exactly one. */
  lemma AllPartnersAnswer(found: seq<Entry>, partners: set<string>, news: Symbols)
    requires DistinctNames(found)
    requires forall e :: e in found ==> e.0 in partners && e.0 in news && e.1 == news[e.0]
    requires forall n :: n in partners ==> n in news && (n, news[n]) in found
    ensures Answers(found, partners, news)
  {
    if |found| == 1 {
      assert found[0] in found;
      assert forall n :: n in partners ==> n == found[0].0;
    } else if |found| > 1 {
      assert found[0] in found && found[1] in found;
      if |partners| == 1 {
        OnlyOne(partners, found[0].0, found[1].0);
      }
    } else {
      assert partners == {};
    }
  }

  method ExactPartners(oldName: string, o: Fingerprint, byHash: ByHash, usedNew: set<string>, filter: NameFilter,
                       ghost news: Symbols)
    returns (found: seq<Entry>)
    requires Indexed(byHash, HashKey, news, news.Keys)
    requires o.codeHash != ""
    ensures Answers(found, Partners(Exact, filter, oldName, o, news, usedNew), news)
  {
    var hits := if o.codeHash in byHash then byHash[o.codeHash] else [];
    found := ExactMatches(hits, oldName, o.size, usedNew, filter);
    HitsAnswer(byHash, hits, found, oldName, o, usedNew, filter, news);
  }

  lemma HitsAnswer(byHash: ByHash, hits: seq<Entry>, found: seq<Entry>, oldName: string, o: Fingerprint,
                   used: set<string>, filter: NameFilter, news: Symbols)
    requires Indexed(byHash, HashKey, news, news.Keys) && o.codeHash != ""
    requires hits == if o.codeHash in byHash then byHash[o.codeHash] else []
    requires DistinctNames(hits) ==> DistinctNames(found)
    requires forall e :: e in found <==>
             e in hits && e.0 !in used && e.1.size == o.size && Accepts(filter, oldName, e.0)
    ensures Answers(found, Partners(Exact, filter, oldName, o, news, used), news)
  {
    var partners := Partners(Exact, filter, oldName, o, news, used);
    forall n | n in partners ensures n in news && (n, news[n]) in found {
      assert HashKey(news[n]) == Some(o.codeHash);
    }
    forall e | e in found ensures e.0 in partners && e.0 in news && e.1 == news[e.0] {
      assert o.codeHash in byHash && e in byHash[o.codeHash];
      assert HashKey(e.1) == Some(o.codeHash);
    }
    AllPartnersAnswer(found, partners, news);
  }

  method MatchExact(olds: Symbols, byHash: ByHash, st: Matching, filter: NameFilter, ghost news: Symbols)
    returns (out: seq<RenameCandidate>)
    requires Indexed(byHash, HashKey, news, news.Keys)
    modifies st`usedNew
    ensures Claims(st.usedNew, OldNames(out), out)
         == RunPass(Exact, filter, olds, news, Claims(old(st.usedNew), {}, []))
  {
    out := [];
    var names := SortNames(olds.Keys);
    ghost var start := Claims(st.usedNew, {}, []);
    for i := 0 to |names|
      invariant Claims(st.usedNew, OldNames(out), out) == ClaimAll(Exact, filter, olds, news, names[..i], start)
    {
      ClaimAllStep(Exact, filter, olds, news, names, i, start);
      NotMatchedYet(Exact, filter, olds, news, names, i, start);
      out := ClaimExactly(olds, byHash, st, filter, names[i], out, news);
    }
    TakeAll(names);
  }

  /** The loop's body: one name of the exact pass. */
  method ClaimExactly(olds: Symbols, byHash: ByHash, st: Matching, filter: NameFilter, oldName: string,
                      pairs: seq<RenameCandidate>, ghost news: Symbols)
    returns (out: seq<RenameCandidate>)
    requires Indexed(byHash, HashKey, news, news.Keys)
    requires oldName in olds && oldName !in OldNames(pairs)
    modifies st`usedNew
    ensures Claims(st.usedNew, OldNames(out), out)
         == Claim(Exact, filter, olds, news, oldName, Claims(old(st.usedNew), OldNames(pairs), pairs))
  {
    out := pairs;
    var o := olds[oldName];
    ghost var walk := Claims(st.usedNew, OldNames(pairs), pairs);
    if o.codeHash == "" {
      NothingEligible(Exact, filter, oldName, o, news, st.usedNew);
      ClaimIs(Exact, filter, olds, news, oldName, walk, []);
      return;
    }
    var matches := ExactPartners(oldName, o, byHash, st.usedNew, filter, news);
    ClaimIs(Exact, filter, olds, news, oldName, walk, matches);
    if |matches| == 1 {
      var (newName, n) := matches[0];
      var candidate := RenameCandidate(oldName, newName, 1.0, o, n);
      OldNamesAppend(pairs, candidate);
      out := out + [candidate];
      st.usedNew := st.usedNew + {newName};
    }
  }

  /** What the guards that skip a name rely on. */
  lemma NothingEligible(pass: Pass, filter: NameFilter, oldName: string, o: Fingerprint, news: Symbols,
                        used: set<string>)
    requires (pass == Exact && o.codeHash == "") || (pass == Fuzzy && o.size == 0)
    ensures Answers([], Partners(pass, filter, oldName, o, news, used), news)
  {
  }

  lemma OldNamesAppend(pairs: seq<RenameCandidate>, c: RenameCandidate)
    ensures OldNames(pairs + [c]) == OldNames(pairs) + {c.oldName}
  {
  }

  /** The tail of the size and fuzzy loops: claim a sole partner. */
  method Record(st: Matching, pairs: seq<RenameCandidate>, pass: Pass, oldName: string, o: Fingerprint,
                found: seq<Entry>)
    returns (out: seq<RenameCandidate>)
    modifies st
    ensures Claims(st.usedNew, st.matchedOld, out)
         == Claimed(pass, oldName, o, found, Claims(old(st.usedNew), old(st.matchedOld), pairs))
  {
    out := pairs;
    if |found| == 1 {
      var (newName, n) := found[0];
      out := out + [RenameCandidate(oldName, newName, pass.Confidence(), o, n)];
      st.usedNew := st.usedNew + {newName};
      st.matchedOld := st.matchedOld + {oldName};
    }
  }

  method MatchSize<K(==, !new)>(olds: Symbols, bySize: BySize, st: Matching, filter: NameFilter,
                                keyed: KeyedBuckets?<K>, ghost news: Symbols)
    returns (out: seq<RenameCandidate>)
    requires Indexed(bySize, SizeKey, news, news.Keys)
    requires KeyedFor(keyed, bySize, filter)
    modifies st, keyed
    ensures KeyedFor(keyed, bySize, filter)
    ensures Claims(st.usedNew, st.matchedOld, out)
         == RunPass(SameSize, filter, olds, news, Claims(old(st.usedNew), old(st.matchedOld), []))
  {
    out := [];
    var names := SortNames(olds.Keys);
    ghost var start := Claims(st.usedNew, st.matchedOld, []);
    for i := 0 to |names|
      invariant KeyedFor(keyed, bySize, filter)
      invariant Claims(st.usedNew, st.matchedOld, out) == ClaimAll(SameSize, filter, olds, news, names[..i], start)
    {
      ClaimAllStep(SameSize, filter, olds, news, names, i, start);
      out := ClaimBySize(olds, bySize, st, filter, keyed, names[i], out, news);
    }
    TakeAll(names);
  }

  /** The outer loop's body: one name of the size pass. */
  method ClaimBySize<K(==, !new)>(olds: Symbols, bySize: BySize, st: Matching, filter: NameFilter,
                                  keyed: KeyedBuckets?<K>, oldName: string, pairs: seq<RenameCandidate>,
                                  ghost news: Symbols)
    returns (out: seq<RenameCandidate>)
    requires Indexed(bySize, SizeKey, news, news.Keys)
    requires KeyedFor(keyed, bySize, filter) && oldName in olds
    modifies st, keyed
    ensures KeyedFor(keyed, bySize, filter)
    ensures Claims(st.usedNew, st.matchedOld, out)
         == Claim(SameSize, filter, olds, news, oldName, Claims(old(st.usedNew), old(st.matchedOld), pairs))
  {
    var o, found := olds[oldName], [];
    if oldName !in st.matchedOld {
      found := SizePartners(oldName, o, bySize, st.usedNew, filter, keyed, news);
    }
    ClaimIs(SameSize, filter, olds, news, oldName, Claims(st.usedNew, st.matchedOld, pairs), found);
    out := Record(st, pairs, SameSize, oldName, o, found);
  }

  /** The inner loop of the size pass. */
  method SizePartners<K(==, !new)>(oldName: string, o: Fingerprint, bySize: BySize, usedNew: set<string>,
                                   filter: NameFilter, keyed: KeyedBuckets?<K>, ghost news: Symbols)
    returns (found: seq<Entry>)
    requires Indexed(bySize, SizeKey, news, news.Keys)
    requires KeyedFor(keyed, bySize, filter)
    modifies keyed
    ensures KeyedFor(keyed, bySize, filter)
    ensures Answers(found, Partners(SameSize, filter, oldName, o, news, usedNew), news)
  {
    ghost var partners := Partners(SameSize, filter, oldName, o, news, usedNew);
    found := [];
    var entries := Bucket(bySize, keyed, o.size, oldName, filter, news);
    ghost var seen: set<string> := {};
    for j := 0 to |entries|
      invariant KeyedFor(keyed, bySize, filter)
      invariant Scanned(found, partners, seen, news)
      invariant forall n :: n in seen <==> exists k :: 0 <= k < j && entries[k].0 == n
    {
      var e := entries[j];
      assert e in entries;
      assert e.0 !in seen;
      if e.0 !in usedNew && (filter.None? || filter.value(oldName, e.0)) {
        assert e.0 in partners;
        if |found| == 1 {
          SecondPartner(found, e, partners, seen, news);
        }
        found := found + [e];
        if |found| > 1 {
          return;
        }
        assert partners * (seen + {e.0}) == partners * seen + {e.0};
      } else {
        SkipAll(found, partners, seen, {e.0}, news);
      }
      seen := seen + {e.0};
    }
    ScanEnds(found, partners, seen, news);
  }

  // ----- the fuzzy window -----

  function WindowLow(size: nat): int {
    19 * size / 20 - 1
  }

  function WindowHigh(size: nat): int {
    20 * size / 19 + 1
  }

  /** No size within 5% falls outside the integer window. */
  lemma WindowIsWide(size: nat, other: nat)
    requires WithinTolerance(size, other)
    ensures WindowLow(size) <= other <= WindowHigh(size)
  {
  }

  /** `bisect.bisect_left`. */
  function BisectLeft(s: seq<int>, x: int): (i: nat)
    requires SortedBy(s, IntLe)
    ensures i <= |s|
    ensures forall k :: 0 <= k < i ==> s[k] < x
    ensures forall k :: i <= k < |s| ==> x <= s[k]
  {
    if s == [] then 0
    else if s[|s| - 1] < x then
      assert forall k :: 0 <= k < |s| ==> IntLe(s[k], s[|s| - 1]) || k == |s| - 1;
      |s|
    else BisectLeft(s[..|s| - 1], x)
  }

  /** `bisect.bisect_right`. */
  function BisectRight(s: seq<int>, x: int): (i: nat)
    requires SortedBy(s, IntLe)
    ensures i <= |s|
    ensures forall k :: 0 <= k < i ==> s[k] <= x
    ensures forall k :: i <= k < |s| ==> x < s[k]
  {
    BisectLeft(s, x + 1)
  }

  ghost function NamesOfSizes(news: Symbols, sizes: seq<int>): set<string> {
    set n | n in news && news[n].size in sizes
  }

  /** Bisection cuts out every listed size between two bounds. */
  lemma BisectionHolds(sizes: seq<int>, low: int, high: int, s: int)
    requires SortedBy(sizes, IntLe) && low <= high
    ensures BisectLeft(sizes, low) <= BisectRight(sizes, high)
    ensures s in sizes && low <= s <= high ==> s in sizes[BisectLeft(sizes, low)..BisectRight(sizes, high)]
  {
    var left, right := BisectLeft(sizes, low), BisectRight(sizes, high);
    if left > 0 {
      assert sizes[left - 1] < low;
      assert left - 1 < right;
    }
    if s in sizes && low <= s <= high {
      var k :| 0 <= k < |sizes| && sizes[k] == s;
      assert left <= k < right;
      assert sizes[left..right][k - left] == s;
    }
  }

  /** The sizes sliced out by bisection hold every partner. */
  lemma WindowHoldsPartners(bySize: BySize, sizes: seq<int>, left: nat, right: nat, o: Fingerprint, oldName: string,
                            filter: NameFilter, news: Symbols, used: set<string>)
    requires Indexed(bySize, SizeKey, news, news.Keys)
    requires SortedBy(sizes, IntLe) && forall s :: s in sizes <==> s in bySize
    requires left == BisectLeft(sizes, WindowLow(o.size)) && right == BisectRight(sizes, WindowHigh(o.size))
    ensures left <= right
    ensures Partners(Fuzzy, filter, oldName, o, news, used) <= NamesOfSizes(news, sizes[left..right])
  {
    BisectionHolds(sizes, WindowLow(o.size), WindowHigh(o.size), 0);
    forall n | n in Partners(Fuzzy, filter, oldName, o, news, used)
      ensures n in NamesOfSizes(news, sizes[left..right])
    {
      WindowIsWide(o.size, news[n].size);
      assert SizeKey(news[n]) == Some(news[n].size);
      BisectionHolds(sizes, WindowLow(o.size), WindowHigh(o.size), news[n].size);
    }
  }

  lemma NextSize(news: Symbols, window: seq<int>, i: nat)
    requires i < |window| && Distinct(window)
    ensures NamesOfSizes(news, window[..i + 1]) == NamesOfSizes(news, window[..i]) + NamesOfSizes(news, [window[i]])
    ensures forall n :: n in NamesOfSizes(news, window[..i]) ==> news[n].size != window[i]
  {
  }

  method FuzzyPartners<K(==, !new)>(o: Fingerprint, bySize: BySize, sizes: seq<int>, usedNew: set<string>,
                                    filter: NameFilter, keyed: KeyedBuckets?<K>, ghost oldName: string,
                                    ghost news: Symbols)
    returns (found: seq<Entry>)
    requires Indexed(bySize, SizeKey, news, news.Keys)
    requires SortedBy(sizes, IntLe) && Distinct(sizes) && forall s :: s in sizes <==> s in bySize
    requires KeyedFor(keyed, bySize, filter)
    modifies keyed
    ensures KeyedFor(keyed, bySize, filter)
    ensures Answers(found, Partners(Fuzzy, filter, oldName, o, news, usedNew), news)
  {
    ghost var partners := Partners(Fuzzy, filter, oldName, o, news, usedNew);
    found := [];
    if o.size == 0 {
      AllPartnersAnswer([], partners, news);
      return;
    }
    var left := BisectLeft(sizes, WindowLow(o.size));
    var right := BisectRight(sizes, WindowHigh(o.size));
    WindowHoldsPartners(bySize, sizes, left, right, o, oldName, filter, news, usedNew);
    var window := sizes[left..right];
    for i := 0 to |window|
      invariant KeyedFor(keyed, bySize, filter)
      invariant Scanned(found, partners, NamesOfSizes(news, window[..i]), news)
    {
      NextSize(news, window, i);
      var entries := Bucket(bySize, keyed, window[i], o.name, filter, news);
      var done;
      found, done := FuzzyScan(found, o, entries, usedNew, filter, oldName, news,
                               NamesOfSizes(news, window[..i]), window[i]);
      if done {
        return;
      }
    }
    assert window[..|window|] == window;
    ScanEnds(found, partners, NamesOfSizes(news, window), news);
  }

  /** The inner loop of the fuzzy pass, over the entries of one size; true means a second partner was met. */
  method FuzzyScan(sofar: seq<Entry>, o: Fingerprint, entries: seq<Entry>, usedNew: set<string>, filter: NameFilter,
                   ghost oldName: string, ghost news: Symbols, ghost before: set<string>, ghost size: int)
    returns (found: seq<Entry>, done: bool)
    requires o.size != 0
    requires Tests(entries, size, o.name, filter, news)
    requires Scanned(sofar, Partners(Fuzzy, filter, oldName, o, news, usedNew), before, news)
    requires forall n :: n in before && n in news ==> news[n].size != size
    ensures done ==> Answers(found, Partners(Fuzzy, filter, oldName, o, news, usedNew), news)
    ensures !done ==> Scanned(found, Partners(Fuzzy, filter, oldName, o, news, usedNew),
                              before + NamesOfSizes(news, [size]), news)
  {
    ghost var partners := Partners(Fuzzy, filter, oldName, o, news, usedNew);
    found := sofar;
    ghost var seen := before;
    for j := 0 to |entries|
      invariant Scanned(found, partners, seen, news)
      invariant forall n :: n in seen <==> n in before || exists k :: 0 <= k < j && entries[k].0 == n
    {
      var e := entries[j];
      assert e in entries;
      assert e.0 !in seen;
      if e.0 !in usedNew && e.1.size != 0 && WithinTolerance(o.size, e.1.size)
         && (filter.None? || filter.value(o.name, e.0)) {
        assert e.0 in partners;
        if |found| == 1 {
          SecondPartner(found, e, partners, seen, news);
        }
        found := found + [e];
        if |found| > 1 {
          return found, true;
        }
        assert partners * (seen + {e.0}) == partners * seen + {e.0};
      } else {
        SkipAll(found, partners, seen, {e.0}, news);
      }
      seen := seen + {e.0};
    }
    SkipAll(found, partners, seen, NamesOfSizes(news, [size]), news);
    assert seen + NamesOfSizes(news, [size]) == before + NamesOfSizes(news, [size]);
    return found, false;
  }

  method MatchFuzzy<K(==, !new)>(olds: Symbols, bySize: BySize, st: Matching, filter: NameFilter,
                                 keyed: KeyedBuckets?<K>, ghost news: Symbols)
    returns (out: seq<RenameCandidate>)
    requires Indexed(bySize, SizeKey, news, news.Keys)
    requires KeyedFor(keyed, bySize, filter)
    modifies st, keyed
    ensures KeyedFor(keyed, bySize, filter)
    ensures Claims(st.usedNew, st.matchedOld, out)
         == RunPass(Fuzzy, filter, olds, news, Claims(old(st.usedNew), old(st.matchedOld), []))
  {
    out := [];
    var sizes := SortInts(bySize.Keys);
    var names := SortNames(olds.Keys);
    ghost var start := Claims(st.usedNew, st.matchedOld, []);
    for i := 0 to |names|
      invariant KeyedFor(keyed, bySize, filter)
      invariant Claims(st.usedNew, st.matchedOld, out) == ClaimAll(Fuzzy, filter, olds, news, names[..i], start)
    {
      ClaimAllStep(Fuzzy, filter, olds, news, names, i, start);
      out := ClaimFuzzily(olds, bySize, sizes, st, filter, keyed, names[i], out, news);
    }
    TakeAll(names);
  }

  /** The outer loop's body: one name of the fuzzy pass. */
  method ClaimFuzzily<K(==, !new)>(olds: Symbols, bySize: BySize, sizes: seq<int>, st: Matching, filter: NameFilter,
                                   keyed: KeyedBuckets?<K>, oldName: string, pairs: seq<RenameCandidate>,
                                   ghost news: Symbols)
    returns (out: seq<RenameCandidate>)
    requires Indexed(bySize, SizeKey, news, news.Keys)
    requires SortedBy(sizes, IntLe) && Distinct(sizes) && forall s :: s in sizes <==> s in bySize
    requires KeyedFor(keyed, bySize, filter) && oldName in olds
    modifies st, keyed
    ensures KeyedFor(keyed, bySize, filter)
    ensures Claims(st.usedNew, st.matchedOld, out)
         == Claim(Fuzzy, filter, olds, news, oldName, Claims(old(st.usedNew), old(st.matchedOld), pairs))
  {
    var o, found := olds[oldName], [];
    if oldName !in st.matchedOld && o.size != 0 {
      found := FuzzyPartners(o, bySize, sizes, st.usedNew, filter, keyed, oldName, news);
    } else if oldName !in st.matchedOld {
      NothingEligible(Fuzzy, filter, oldName, o, news, st.usedNew);
    }
    ClaimIs(Fuzzy, filter, olds, news, oldName, Claims(st.usedNew, st.matchedOld, pairs), found);
    out := Record(st, pairs, Fuzzy, oldName, o, found);
  }

  // ----- the matcher -----

  function Keep(names: seq<string>, only: set<string>): (r: seq<string>)
    ensures forall n :: n in r <==> n in names && n in only
    ensures Distinct(names) ==> Distinct(r)
  {
    if names == [] then []
    else
      var rest := Keep(names[1..], only);
      assert names == [names[0]] + names[1..];
      if names[0] in only then [names[0]] + rest else rest
  }

  /**
   `newOrder` is the insertion order of the new dictionary.  The result does not mention
   it, nor the blocking keys: neither can change the answer.
   */
  method MatchRenamedFunctions<K(==, !new)>(oldFps: Symbols, newFps: Symbols, newOrder: seq<string>, filter: NameFilter,
                                            keys: Option<string -> seq<K>>)
    returns (candidates: seq<RenameCandidate>)
    requires Distinct(newOrder) && Elements(newOrder) == newFps.Keys
    requires filter.Some? && keys.Some? ==> KeysCover(filter, keys.value)
    ensures candidates == Renames(oldFps, newFps, filter)
    ensures RenamedExactly(candidates, oldFps, newFps, filter) && Ranked(candidates)
  {
    RenamesAreExact(oldFps, newFps, filter);
    RenamesAreRanked(oldFps, newFps, filter);
    var olds, news := Candidates(oldFps, newFps), Candidates(newFps, oldFps);
    if oldFps.Keys - newFps.Keys == {} || newFps.Keys - oldFps.Keys == {} || olds == map[] || news == map[] {
      assert olds == map[] || news == map[] by {
        assert forall n :: n in olds ==> n in oldFps.Keys - newFps.Keys;
        assert forall n :: n in news ==> n in newFps.Keys - oldFps.Keys;
      }
      NoCandidatesNoRenames(olds, news, filter);
      return [];
    }
    var order := Keep(newOrder, news.Keys);
    assert Elements(order) == news.Keys by {
      forall n | n in news ensures n in order { assert n in Elements(newOrder); }
    }
    candidates := MatchCandidates(olds, news, order, filter, keys);
  }

  /** The matcher once both sets of candidates are known to hold some. */
  method MatchCandidates<K(==, !new)>(olds: Symbols, news: Symbols, order: seq<string>, filter: NameFilter,
                                      keys: Option<string -> seq<K>>)
    returns (candidates: seq<RenameCandidate>)
    requires Distinct(order) && Elements(order) == news.Keys
    requires filter.Some? && keys.Some? ==> KeysCover(filter, keys.value)
    ensures candidates == AfterFuzzy(olds, news, filter).pairs
  {
    var bySize, byHash := IndexNewCandidates(news, order);
    var keyed: KeyedBuckets?<K> := null;
    if filter.Some? && keys.Some? {
      keyed := new KeyedBuckets(bySize, keys.value);
    }
    candidates := RunPasses(olds, news, bySize, byHash, filter, keyed);
    RenamesAreSorted(olds, news, filter);
    candidates := StableSort(candidates, CandidateLe);
  }

  method RunPasses<K(==, !new)>(olds: Symbols, news: Symbols, bySize: BySize, byHash: ByHash, filter: NameFilter,
                                keyed: KeyedBuckets?<K>)
    returns (candidates: seq<RenameCandidate>)
    requires Indexed(bySize, SizeKey, news, news.Keys) && Indexed(byHash, HashKey, news, news.Keys)
    requires KeyedFor(keyed, bySize, filter)
    modifies keyed
    ensures candidates == AfterFuzzy(olds, news, filter).pairs
  {
    var st := new Matching();
    candidates := ExactThenSize(olds, news, bySize, byHash, st, filter, keyed);
    if |olds| * |news| <= FUZZY_MAX_PAIRS {
      ghost var sized := AfterSize(olds, news, filter);
      var fuzzy := MatchFuzzy(olds, bySize, st, filter, keyed, news);
      PassAppends(Fuzzy, filter, olds, news, sized, Claims(st.usedNew, st.matchedOld, fuzzy));
      candidates := candidates + fuzzy;
    }
  }

  method ExactThenSize<K(==, !new)>(olds: Symbols, news: Symbols, bySize: BySize, byHash: ByHash, st: Matching,
                                    filter: NameFilter, keyed: KeyedBuckets?<K>)
    returns (candidates: seq<RenameCandidate>)
    requires Indexed(bySize, SizeKey, news, news.Keys) && Indexed(byHash, HashKey, news, news.Keys)
    requires KeyedFor(keyed, bySize, filter)
    requires st.usedNew == {}
    modifies st, keyed
    ensures KeyedFor(keyed, bySize, filter)
    ensures Claims(st.usedNew, st.matchedOld, candidates) == AfterSize(olds, news, filter)
  {
    candidates := MatchExact(olds, byHash, st, filter, news);
    st.matchedOld := set c | c in candidates :: c.oldName;
    ghost var exact := AfterExact(olds, news, filter);
    var sized := MatchSize(olds, bySize, st, filter, keyed, news);
    PassAppends(SameSize, filter, olds, news, exact, Claims(st.usedNew, st.matchedOld, sized));
    candidates := candidates + sized;
  }
}
