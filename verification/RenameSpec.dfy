/**
 What renames are (abicheck/binary_fingerprint.py), at the level of sets: walk the removed
 names in order and claim an added name exactly when the eligible, unclaimed added names
 are a singleton.  The 5% tolerance is exact rational arithmetic.
*/
module RenameSpec {
  import opened Options
  import opened Ordering

  datatype Fingerprint = Fingerprint(name: string, size: nat, codeHash: string, sectionIndex: int)

  datatype RenameCandidate = RenameCandidate(
    oldName: string, newName: string, confidence: real, oldFp: Fingerprint, newFp: Fingerprint)

  type Symbols = map<string, Fingerprint>
  type NameFilter = Option<(string, string) -> bool>

  const MIN_SYMBOL_SIZE := 8
  const FUZZY_MAX_PAIRS := 2_000_000

  predicate Accepts(filter: NameFilter, oldName: string, newName: string) {
    filter.None? || filter.value(oldName, newName)
  }

  predicate WithinTolerance(a: nat, b: nat) {
    20 * (if a <= b then b - a else a - b) <= (if a <= b then b else a)
  }

  // ----- the specification -----

  datatype Pass = Exact | SameSize | Fuzzy {
    function Confidence(): real {
      match this case Exact => 1.0 case SameSize => 0.8 case Fuzzy => 0.5
    }
  }

  predicate Eligible(pass: Pass, filter: NameFilter, oldName: string, o: Fingerprint, newName: string, n: Fingerprint) {
    match pass
    case Exact => o.codeHash != "" && n.codeHash == o.codeHash && n.size == o.size && Accepts(filter, oldName, newName)
    case SameSize => n.size == o.size && Accepts(filter, oldName, newName)
    case Fuzzy => o.size != 0 && n.size != 0 && WithinTolerance(o.size, n.size) && Accepts(filter, o.name, newName)
  }

  function Partners(pass: Pass, filter: NameFilter, oldName: string, o: Fingerprint, news: Symbols, used: set<string>)
    : set<string>
  {
    set n | n in news && n !in used && Eligible(pass, filter, oldName, o, n, news[n])
  }

  /** Names claimed so far, and the pairs in claiming order. */
  datatype Claims = Claims(usedNew: set<string>, matchedOld: set<string>, pairs: seq<RenameCandidate>)

  ghost function Claim(pass: Pass, filter: NameFilter, olds: Symbols, news: Symbols, name: string, st: Claims): Claims
    requires name in olds
  {
    var partners := Partners(pass, filter, name, olds[name], news, st.usedNew);
    if name !in st.matchedOld && |partners| == 1 then
      var p :| p in partners;
      Claims(st.usedNew + {p}, st.matchedOld + {name},
             st.pairs + [RenameCandidate(name, p, pass.Confidence(), olds[name], news[p])])
    else st
  }

  ghost function ClaimAll(pass: Pass, filter: NameFilter, olds: Symbols, news: Symbols, names: seq<string>, st: Claims)
    : Claims
    requires forall n :: n in names ==> n in olds
    decreases |names|
  {
    if names == [] then st
    else
      Claim(pass, filter, olds, news, names[|names| - 1],
            ClaimAll(pass, filter, olds, news, names[..|names| - 1], st))
  }

  function Candidates(fps: Symbols, others: Symbols): Symbols {
    map n | n in fps && n !in others && fps[n].size >= MIN_SYMBOL_SIZE :: fps[n]
  }

  const NOTHING := Claims({}, {}, [])

  ghost function RunPass(pass: Pass, filter: NameFilter, olds: Symbols, news: Symbols, st: Claims): Claims {
    ClaimAll(pass, filter, olds, news, SortNames(olds.Keys), st)
  }

  ghost function AfterExact(olds: Symbols, news: Symbols, filter: NameFilter): Claims {
    RunPass(Exact, filter, olds, news, NOTHING)
  }

  ghost function AfterSize(olds: Symbols, news: Symbols, filter: NameFilter): Claims {
    RunPass(SameSize, filter, olds, news, AfterExact(olds, news, filter))
  }

  ghost function AfterFuzzy(olds: Symbols, news: Symbols, filter: NameFilter): Claims {
    if |olds| * |news| <= FUZZY_MAX_PAIRS
    then RunPass(Fuzzy, filter, olds, news, AfterSize(olds, news, filter))
    else AfterSize(olds, news, filter)
  }

  /** The renames, a function of the two symbol tables and the name predicate alone. */
  ghost function Renames(oldFps: Symbols, newFps: Symbols, filter: NameFilter): seq<RenameCandidate> {
    AfterFuzzy(Candidates(oldFps, newFps), Candidates(newFps, oldFps), filter).pairs
  }

  // ----- what every run of claims keeps -----

  predicate CandidateLe(a: RenameCandidate, b: RenameCandidate) {
    a.confidence > b.confidence || (a.confidence == b.confidence && LexLe(a.oldName, b.oldName))
  }

  predicate SoundPair(c: RenameCandidate, filter: NameFilter, olds: Symbols, news: Symbols) {
    && c.oldName in olds && c.newName in news
    && c.oldFp == olds[c.oldName] && c.newFp == news[c.newName]
    && exists pass: Pass :: c.confidence == pass.Confidence()
                   && Eligible(pass, filter, c.oldName, c.oldFp, c.newName, c.newFp)
  }

  ghost predicate Injective(st: Claims, filter: NameFilter, olds: Symbols, news: Symbols) {
    && (forall i, j :: 0 <= i < j < |st.pairs| ==>
          st.pairs[i].oldName != st.pairs[j].oldName && st.pairs[i].newName != st.pairs[j].newName)
    && (forall i :: 0 <= i < |st.pairs| ==>
          st.pairs[i].oldName in st.matchedOld && st.pairs[i].newName in st.usedNew)
    && (forall i :: 0 <= i < |st.pairs| ==> SoundPair(st.pairs[i], filter, olds, news))
  }

  lemma ClaimInjective(pass: Pass, filter: NameFilter, olds: Symbols, news: Symbols, name: string, st: Claims)
    requires name in olds && Injective(st, filter, olds, news)
    ensures Injective(Claim(pass, filter, olds, news, name, st), filter, olds, news)
  {
    var partners := Partners(pass, filter, name, olds[name], news, st.usedNew);
    if name !in st.matchedOld && |partners| == 1 {
      var p :| p in partners
               && Claim(pass, filter, olds, news, name, st).pairs
                  == st.pairs + [RenameCandidate(name, p, pass.Confidence(), olds[name], news[p])];
      assert SoundPair(RenameCandidate(name, p, pass.Confidence(), olds[name], news[p]), filter, olds, news);
    }
  }

  lemma {:induction false} ClaimAllInjective(pass: Pass, filter: NameFilter, olds: Symbols, news: Symbols,
                                             names: seq<string>, st: Claims)
    requires forall n :: n in names ==> n in olds
    requires Injective(st, filter, olds, news)
    ensures Injective(ClaimAll(pass, filter, olds, news, names, st), filter, olds, news)
    decreases |names|
  {
    if names == [] {
    } else {
      var front := names[..|names| - 1];
      ClaimAllInjective(pass, filter, olds, news, front, st);
      ClaimInjective(pass, filter, olds, news, names[|names| - 1], ClaimAll(pass, filter, olds, news, front, st));
    }
  }

  /** Claims only ever add: pairs by appending, and old names only from the walk. */
  lemma {:induction false} ClaimAllGrows(pass: Pass, filter: NameFilter, olds: Symbols, news: Symbols,
                                         names: seq<string>, st: Claims)
    requires forall n :: n in names ==> n in olds
    ensures var r := ClaimAll(pass, filter, olds, news, names, st);
            && r.matchedOld <= st.matchedOld + Elements(names)
            && st.pairs <= r.pairs
            && (forall i :: |st.pairs| <= i < |r.pairs| ==>
                  r.pairs[i].confidence == pass.Confidence() && r.pairs[i].oldName in names)
            && r == (var bare := ClaimAll(pass, filter, olds, news, names, st.(pairs := []));
                     bare.(pairs := st.pairs + bare.pairs))
    decreases |names|
  {
    if names == [] {
      assert st.pairs + [] == st.pairs;
    } else {
      var front := names[..|names| - 1];
      ClaimAllGrows(pass, filter, olds, news, front, st);
      assert Elements(front) <= Elements(names);
      assert names[|names| - 1] in names;
      var bare := ClaimAll(pass, filter, olds, news, front, st.(pairs := []));
      ClaimAppends(pass, filter, olds, news, names[|names| - 1], bare, st.pairs);
    }
  }

  lemma ClaimAppends(pass: Pass, filter: NameFilter, olds: Symbols, news: Symbols, name: string, bare: Claims,
                     pairs: seq<RenameCandidate>)
    requires name in olds
    ensures var r, full := Claim(pass, filter, olds, news, name, bare),
                           Claim(pass, filter, olds, news, name, bare.(pairs := pairs + bare.pairs));
            full == r.(pairs := pairs + r.pairs)
  {
  }

  lemma OnlyOne(s: set<string>, p: string, q: string)
    requires |s| == 1 && p in s && q in s
    ensures p == q
  {
    var rest := s - {p};
    assert |rest| == 0;
  }

  /** A pass over ascending names appends ascending pairs. */
  lemma {:induction false} ClaimAllSorted(pass: Pass, filter: NameFilter, olds: Symbols, news: Symbols,
                                          names: seq<string>, st: Claims)
    requires forall n :: n in names ==> n in olds
    requires SortedBy(names, LexLe)
    requires SortedBy(st.pairs, CandidateLe)
    requires forall i :: 0 <= i < |st.pairs| ==> st.pairs[i].confidence > pass.Confidence()
    ensures var r := ClaimAll(pass, filter, olds, news, names, st);
            && SortedBy(r.pairs, CandidateLe)
            && forall i :: 0 <= i < |r.pairs| ==> r.pairs[i].confidence >= pass.Confidence()
    decreases |names|
  {
    if names == [] {
    } else {
      var front := names[..|names| - 1];
      ClaimAllSorted(pass, filter, olds, news, front, st);
      ClaimAllGrows(pass, filter, olds, news, front, st);
      var mid := ClaimAll(pass, filter, olds, news, front, st);
      forall i | 0 <= i < |mid.pairs| && mid.pairs[i].confidence == pass.Confidence()
        ensures LexLe(mid.pairs[i].oldName, names[|names| - 1])
      {
        assert mid.pairs[i].oldName in front;
        var k :| 0 <= k < |front| && front[k] == mid.pairs[i].oldName;
        assert names[k] == front[k];
      }
    }
  }

  lemma AfterSizeSorted(olds: Symbols, news: Symbols, filter: NameFilter)
    ensures var st := AfterSize(olds, news, filter);
            SortedBy(st.pairs, CandidateLe) && forall i :: 0 <= i < |st.pairs| ==> st.pairs[i].confidence >= 0.8
  {
    var names := SortNames(olds.Keys);
    SortNamesSorts(olds.Keys);
    ClaimAllSorted(Exact, filter, olds, news, names, NOTHING);
    ClaimAllSorted(SameSize, filter, olds, news, names, AfterExact(olds, news, filter));
  }

  /** The final sort by confidence and name finds its list in order already. */
  lemma RenamesAreSorted(olds: Symbols, news: Symbols, filter: NameFilter)
    ensures SortedBy(AfterFuzzy(olds, news, filter).pairs, CandidateLe)
    ensures StableSort(AfterFuzzy(olds, news, filter).pairs, CandidateLe) == AfterFuzzy(olds, news, filter).pairs
  {
    AfterSizeSorted(olds, news, filter);
    if |olds| * |news| <= FUZZY_MAX_PAIRS {
      SortNamesSorts(olds.Keys);
      ClaimAllSorted(Fuzzy, filter, olds, news, SortNames(olds.Keys), AfterSize(olds, news, filter));
    }
    StableSortOfSorted(AfterFuzzy(olds, news, filter).pairs, CandidateLe);
  }

  /**
   The renames are a partial injection from removed to added symbols of size at least
   8, and each pair passed the predicate and the size or hash test of its confidence.
   */
  lemma RenamesAreInjective(oldFps: Symbols, newFps: Symbols, filter: NameFilter)
    ensures var r := Renames(oldFps, newFps, filter);
            && (forall i, j :: 0 <= i < j < |r| ==> r[i].oldName != r[j].oldName && r[i].newName != r[j].newName)
            && (forall i :: 0 <= i < |r| ==> IsRename(r[i], oldFps, newFps, filter))
  {
    var olds, news := Candidates(oldFps, newFps), Candidates(newFps, oldFps);
    AfterFuzzyInjective(olds, news, filter);
    var r := AfterFuzzy(olds, news, filter).pairs;
    forall i | 0 <= i < |r| ensures IsRename(r[i], oldFps, newFps, filter) {
      assert SoundPair(r[i], filter, olds, news);
    }
  }

  /** A removed and an added symbol, large enough, that passed the test of the pair's confidence. */
  predicate IsRename(c: RenameCandidate, oldFps: Symbols, newFps: Symbols, filter: NameFilter) {
    && c.oldName in oldFps && c.oldName !in newFps && c.oldFp == oldFps[c.oldName]
    && c.newName in newFps && c.newName !in oldFps && c.newFp == newFps[c.newName]
    && c.oldFp.size >= 8 && c.newFp.size >= 8
    && (c.confidence == 1.0 ==> c.oldFp.codeHash == c.newFp.codeHash != "")
    && (c.confidence >= 0.8 ==> c.oldFp.size == c.newFp.size)
    && 20 * (c.oldFp.size - c.newFp.size) <= c.oldFp.size && 20 * (c.newFp.size - c.oldFp.size) <= c.newFp.size
    && (filter.None? || filter.value(if c.confidence >= 0.8 then c.oldName else c.oldFp.name, c.newName))
  }

  lemma AfterFuzzyInjective(olds: Symbols, news: Symbols, filter: NameFilter)
    ensures Injective(AfterFuzzy(olds, news, filter), filter, olds, news)
  {
    var names := SortNames(olds.Keys);
    ClaimAllInjective(Exact, filter, olds, news, names, NOTHING);
    ClaimAllInjective(SameSize, filter, olds, news, names, AfterExact(olds, news, filter));
    if |olds| * |news| <= FUZZY_MAX_PAIRS {
      ClaimAllInjective(Fuzzy, filter, olds, news, names, AfterSize(olds, news, filter));
    }
  }

  lemma {:induction false} NothingToClaim(pass: Pass, filter: NameFilter, olds: Symbols, news: Symbols,
                                          names: seq<string>, st: Claims)
    requires forall n :: n in names ==> n in olds
    requires news == map[]
    ensures ClaimAll(pass, filter, olds, news, names, st) == st
    decreases |names|
  {
    if names == [] {
    } else {
      NothingToClaim(pass, filter, olds, news, names[..|names| - 1], st);
    }
  }

  lemma NoCandidatesNoRenames(olds: Symbols, news: Symbols, filter: NameFilter)
    requires olds == map[] || news == map[]
    ensures AfterFuzzy(olds, news, filter).pairs == []
  {
    var names := SortNames(olds.Keys);
    if olds == map[] {
    } else {
      NothingToClaim(Exact, filter, olds, news, names, NOTHING);
      NothingToClaim(SameSize, filter, olds, news, names, NOTHING);
      NothingToClaim(Fuzzy, filter, olds, news, names, NOTHING);
    }
  }
}
