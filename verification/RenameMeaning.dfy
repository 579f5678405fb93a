/**
 What the renames of RenameSpec are, said of the two symbol tables alone: a rename is in the
 list exactly when its new symbol is the only one of its test that no earlier rename took.
*/
module RenameMeaning {
  import opened Options
  import opened Ordering
  import opened RenameSpec

  // ----- the meaning -----

  /** In `from`, not in `to`, and at least 8 bytes long: removed, or with the tables exchanged, added. */
  predicate Gone(name: string, from: Symbols, to: Symbols) {
    name in from && name !in to && from[name].size >= 8
  }

  /** The test of a level of confidence, for two names of the tables. */
  predicate Alike(level: real, oldFps: Symbols, newFps: Symbols, filter: NameFilter, o: string, n: string)
    requires o in oldFps && n in newFps
  {
    var a, b := oldFps[o].size, newFps[n].size;
    || (level == 1.0 && oldFps[o].codeHash == newFps[n].codeHash != "" && a == b
        && (filter.None? || filter.value(o, n)))
    || (level == 0.8 && a == b && (filter.None? || filter.value(o, n)))
    || (level == 0.5 && 20 * (a - b) <= a && 20 * (b - a) <= b && (filter.None? || filter.value(oldFps[o].name, n)))
  }

  /** A rename of higher confidence, or of the same one and an earlier old name, took `n`. */
  ghost predicate Taken(r: seq<RenameCandidate>, level: real, o: string, n: string) {
    exists c :: c in r && c.newName == n && (c.confidence > level || (c.confidence == level && Before(c.oldName, o)))
  }

  ghost predicate Open(r: seq<RenameCandidate>, level: real, oldFps: Symbols, newFps: Symbols, filter: NameFilter,
                       o: string, n: string)
    requires o in oldFps
  {
    Gone(n, newFps, oldFps) && Alike(level, oldFps, newFps, filter, o, n) && !Taken(r, level, o, n)
  }

  function AllGone(from: Symbols, to: Symbols): set<string> {
    set n | n in from && Gone(n, from, to)
  }

  /** The 5% test is made only when there are at most two million pairs of removed and added symbols. */
  predicate Tried(level: real, oldFps: Symbols, newFps: Symbols) {
    || level == 1.0
    || level == 0.8
    || (level == 0.5 && |AllGone(oldFps, newFps)| * |AllGone(newFps, oldFps)| <= 2_000_000)
  }

  /**
   What it takes for `c` to be among the renames `r`: a removed symbol without a rename of higher
   confidence, and its only open added symbol.
   */
  ghost predicate Renamed(c: RenameCandidate, r: seq<RenameCandidate>, oldFps: Symbols, newFps: Symbols,
                          filter: NameFilter)
  {
    && Gone(c.oldName, oldFps, newFps) && c.oldFp == oldFps[c.oldName]
    && Tried(c.confidence, oldFps, newFps)
    && (forall d :: d in r && d.oldName == c.oldName ==> d.confidence <= c.confidence)
    && Open(r, c.confidence, oldFps, newFps, filter, c.oldName, c.newName) && c.newFp == newFps[c.newName]
    && (forall n :: Open(r, c.confidence, oldFps, newFps, filter, c.oldName, n) ==> n == c.newName)
  }

  ghost predicate RenamedExactly(r: seq<RenameCandidate>, oldFps: Symbols, newFps: Symbols, filter: NameFilter) {
    forall c :: c in r <==> Renamed(c, r, oldFps, newFps, filter)
  }

  /** Highest confidence first, and in one confidence by old name, no two alike. */
  ghost predicate Ranked(r: seq<RenameCandidate>) {
    forall i, j :: 0 <= i < j < |r| ==>
      r[i].confidence > r[j].confidence
      || (r[i].confidence == r[j].confidence && Before(r[i].oldName, r[j].oldName))
  }

  // ----- the order of names -----

  lemma NamesAscend(names: seq<string>, j: nat, k: nat)
    requires SortedBy(names, LexLe) && Distinct(names) && j < |names| && k < |names|
    ensures Before(names[j], names[k]) <==> j < k
  {
    BeforeIsLess(names[j], names[k]);
    LexLeTotal(names[j], names[k]);
    if j < k {
      assert LexLe(names[j], names[k]);
    } else if k < j {
      assert LexLe(names[k], names[j]);
    }
  }

  // ----- what a pass adds -----

  /** The used and matched names are those of the pairs. */
  ghost predicate Booked(st: Claims) {
    && (forall n :: n in st.usedNew <==> exists c :: c in st.pairs && c.newName == n)
    && (forall o :: o in st.matchedOld <==> exists c :: c in st.pairs && c.oldName == o)
  }

  lemma BookedAppend(st: Claims, c: RenameCandidate)
    requires Booked(st)
    ensures Booked(Claims(st.usedNew + {c.newName}, st.matchedOld + {c.oldName}, st.pairs + [c]))
  {
    var after := Claims(st.usedNew + {c.newName}, st.matchedOld + {c.oldName}, st.pairs + [c]);
    assert c in after.pairs;
    assert forall d :: d in after.pairs <==> d in st.pairs || d == c;
  }

  lemma {:induction false} ClaimAllBooked(pass: Pass, filter: NameFilter, olds: Symbols, news: Symbols,
                                          names: seq<string>, st: Claims)
    requires forall n :: n in names ==> n in olds
    requires Booked(st)
    ensures Booked(ClaimAll(pass, filter, olds, news, names, st))
    decreases |names|
  {
    if names == [] {
    } else {
      var front, name := names[..|names| - 1], names[|names| - 1];
      ClaimAllBooked(pass, filter, olds, news, front, st);
      var mid := ClaimAll(pass, filter, olds, news, front, st);
      if Claim(pass, filter, olds, news, name, mid) != mid {
        var c := Claim(pass, filter, olds, news, name, mid).pairs[|mid.pairs|];
        BookedAppend(mid, c);
      }
    }
  }

  lemma {:induction false} ClaimAllSplits(pass: Pass, filter: NameFilter, olds: Symbols, news: Symbols,
                                          names: seq<string>, k: nat, st: Claims)
    requires k <= |names| && forall n :: n in names ==> n in olds
    ensures ClaimAll(pass, filter, olds, news, names, st)
         == ClaimAll(pass, filter, olds, news, names[k..], ClaimAll(pass, filter, olds, news, names[..k], st))
    decreases |names|
  {
    if k == |names| {
      assert names[..k] == names && names[k..] == [];
    } else {
      var front := names[..|names| - 1];
      ClaimAllSplits(pass, filter, olds, news, front, k, st);
      assert front[..k] == names[..k] && names[k..][..|names[k..]| - 1] == front[k..];
    }
  }

  /** `r` goes on from `done` with pairs of lower confidence. */
  ghost predicate Continues(done: seq<RenameCandidate>, r: seq<RenameCandidate>, level: real) {
    done <= r && forall i :: |done| <= i < |r| ==> r[i].confidence < level
  }

  ghost predicate Above(pairs: seq<RenameCandidate>, level: real) {
    forall i :: 0 <= i < |pairs| ==> pairs[i].confidence > level
  }

  /** A pass over ascending names, from pairs of higher confidence to pairs of lower. */
  ghost predicate PassOf(pass: Pass, filter: NameFilter, olds: Symbols, news: Symbols, names: seq<string>, st: Claims,
                         r: seq<RenameCandidate>)
  {
    && (forall n :: n in names ==> n in olds)
    && SortedBy(names, LexLe) && Distinct(names)
    && Booked(st) && Above(st.pairs, pass.Confidence())
    && Continues(ClaimAll(pass, filter, olds, news, names, st).pairs, r, pass.Confidence())
  }

  /** Where the pairs of a pass lie: those of the names before the k-th first, then those of the k-th and later. */
  lemma PassParts(pass: Pass, filter: NameFilter, olds: Symbols, news: Symbols, names: seq<string>, k: nat, st: Claims,
                  r: seq<RenameCandidate>)
    requires PassOf(pass, filter, olds, news, names, st, r) && k <= |names|
    ensures var mid := ClaimAll(pass, filter, olds, news, names[..k], st);
            && Booked(mid) && st.pairs <= mid.pairs <= r
            && mid.matchedOld <= st.matchedOld + Elements(names[..k])
            && (forall i :: |st.pairs| <= i < |mid.pairs| ==>
                  r[i].confidence == pass.Confidence() && r[i].oldName in names[..k])
            && (forall i :: |mid.pairs| <= i < |r| ==>
                  r[i].confidence < pass.Confidence()
                  || (r[i].confidence == pass.Confidence() && r[i].oldName in names[k..]))
  {
    var mid := ClaimAll(pass, filter, olds, news, names[..k], st);
    ClaimAllBooked(pass, filter, olds, news, names[..k], st);
    ClaimAllSplits(pass, filter, olds, news, names, k, st);
    ClaimAllGrows(pass, filter, olds, news, names[..k], st);
    ClaimAllGrows(pass, filter, olds, news, names[k..], mid);
  }

  lemma EarlierIsBefore(names: seq<string>, k: nat, name: string)
    requires SortedBy(names, LexLe) && Distinct(names) && k < |names|
    ensures name in names[..k] ==> Before(name, names[k])
    ensures name in names[k..] ==> !Before(name, names[k])
  {
    if j :| 0 <= j < k && names[j] == name {
      NamesAscend(names, j, k);
    }
    if j :| k <= j < |names| && names[j] == name {
      NamesAscend(names, j, k);
    }
  }

  /** What is used when a name's turn comes is what the finished list calls taken for it. */
  lemma TakenIsUsed(pass: Pass, filter: NameFilter, olds: Symbols, news: Symbols, names: seq<string>, k: nat,
                    st: Claims, r: seq<RenameCandidate>, n: string)
    requires PassOf(pass, filter, olds, news, names, st, r) && k < |names|
    ensures n in ClaimAll(pass, filter, olds, news, names[..k], st).usedNew
       <==> Taken(r, pass.Confidence(), names[k], n)
  {
    var mid := ClaimAll(pass, filter, olds, news, names[..k], st);
    PassParts(pass, filter, olds, news, names, k, st, r);
    if n in mid.usedNew {
      var c :| c in mid.pairs && c.newName == n;
      var i :| 0 <= i < |mid.pairs| && mid.pairs[i] == c;
      assert r[i] == c;
      EarlierIsBefore(names, k, c.oldName);
      assert i < |st.pairs| ==> st.pairs[i] == c;
    }
    if Taken(r, pass.Confidence(), names[k], n) {
      var c :| c in r && c.newName == n && (c.confidence > pass.Confidence()
                                            || (c.confidence == pass.Confidence() && Before(c.oldName, names[k])));
      var i :| 0 <= i < |r| && r[i] == c;
      EarlierIsBefore(names, k, c.oldName);
      assert i < |mid.pairs|;
      assert mid.pairs[i] == c;
    }
  }

  ghost function PairOf(pass: Pass, olds: Symbols, news: Symbols, o: string, n: string): RenameCandidate
    requires o in olds && n in news
  {
    RenameCandidate(o, n, pass.Confidence(), olds[o], news[n])
  }

  /** A pair of the k-th name and of this pass's confidence is the one its own turn made. */
  lemma PairIsOfItsTurn(pass: Pass, filter: NameFilter, olds: Symbols, news: Symbols, names: seq<string>, k: nat,
                        st: Claims, r: seq<RenameCandidate>, c: RenameCandidate)
    requires PassOf(pass, filter, olds, news, names, st, r) && k < |names| && names[k] in olds
    requires c.oldName == names[k] && c.confidence == pass.Confidence()
    ensures var mid := ClaimAll(pass, filter, olds, news, names[..k], st);
            c in r <==> c in Claim(pass, filter, olds, news, names[k], mid).pairs[|mid.pairs|..]
  {
    var mid := ClaimAll(pass, filter, olds, news, names[..k], st);
    var next := ClaimAll(pass, filter, olds, news, names[..k + 1], st);
    assert names[..k + 1][..k] == names[..k];
    PassParts(pass, filter, olds, news, names, k, st, r);
    PassParts(pass, filter, olds, news, names, k + 1, st, r);
    PairLies(names, k, |st.pairs|, mid.pairs, next.pairs, r, pass.Confidence(), c);
  }

  lemma PairLies(names: seq<string>, k: nat, start: nat, mid: seq<RenameCandidate>, next: seq<RenameCandidate>,
                 r: seq<RenameCandidate>, level: real, c: RenameCandidate)
    requires k < |names| && Distinct(names) && start <= |mid| && mid <= next <= r
    requires c.oldName == names[k] && c.confidence == level
    requires forall i :: 0 <= i < start ==> r[i].confidence > level
    requires forall i :: start <= i < |mid| ==> r[i].oldName in names[..k]
    requires forall i :: |next| <= i < |r| ==> r[i].confidence < level || r[i].oldName in names[k + 1..]
    ensures c in r <==> c in next[|mid|..]
  {
    if i :| 0 <= i < |r| && r[i] == c {
      assert names[k] !in names[..k] && names[k] !in names[k + 1..];
      assert next[|mid|..][i - |mid|] == c;
    }
  }

  // ----- the tests -----

  lemma CandidatesAreGone(from: Symbols, to: Symbols)
    ensures Candidates(from, to).Keys == AllGone(from, to)
    ensures forall n :: n in Candidates(from, to) <==> Gone(n, from, to)
    ensures |Candidates(from, to)| == |AllGone(from, to)|
  {
    assert |Candidates(from, to)| == |Candidates(from, to).Keys|;
  }

  lemma EligibleIsAlike(pass: Pass, filter: NameFilter, oldFps: Symbols, newFps: Symbols, o: string, n: string)
    requires Gone(o, oldFps, newFps) && Gone(n, newFps, oldFps)
    ensures Eligible(pass, filter, o, oldFps[o], n, newFps[n])
       <==> Alike(pass.Confidence(), oldFps, newFps, filter, o, n)
  {
  }

  // ----- the passes -----

  /** The renames of one level of confidence, and of the passes before it. */
  ghost predicate LevelOf(pass: Pass, oldFps: Symbols, newFps: Symbols, filter: NameFilter, st: Claims,
                          r: seq<RenameCandidate>)
  {
    var olds, news := Candidates(oldFps, newFps), Candidates(newFps, oldFps);
    PassOf(pass, filter, olds, news, SortNames(olds.Keys), st, r)
  }

  lemma OpenIsPartner(pass: Pass, oldFps: Symbols, newFps: Symbols, filter: NameFilter, st: Claims,
                      r: seq<RenameCandidate>, k: nat, n: string)
    requires LevelOf(pass, oldFps, newFps, filter, st, r)
    requires k < |SortNames(Candidates(oldFps, newFps).Keys)|
    ensures var olds, news := Candidates(oldFps, newFps), Candidates(newFps, oldFps);
            var names := SortNames(olds.Keys);
            var mid := ClaimAll(pass, filter, olds, news, names[..k], st);
            names[k] in olds
            && (n in Partners(pass, filter, names[k], olds[names[k]], news, mid.usedNew)
                <==> Open(r, pass.Confidence(), oldFps, newFps, filter, names[k], n))
  {
    var olds, news := Candidates(oldFps, newFps), Candidates(newFps, oldFps);
    var names := SortNames(olds.Keys);
    CandidatesAreGone(newFps, oldFps);
    assert names[k] in names;
    TakenIsUsed(pass, filter, olds, news, names, k, st, r, n);
    if n in news {
      EligibleIsAlike(pass, filter, oldFps, newFps, names[k], n);
    }
  }

  lemma Singleton(s: set<string>, p: string)
    ensures |s| == 1 && p in s <==> s == {p}
  {
    if |s| == 1 && p in s {
      forall q | q in s ensures q == p {
        OnlyOne(s, p, q);
      }
    }
  }

  /** Whether a turn makes the pair `c`, by its partners. */
  lemma TurnMakes(pass: Pass, filter: NameFilter, olds: Symbols, news: Symbols, mid: Claims, c: RenameCandidate)
    requires c.oldName in olds && c.confidence == pass.Confidence()
    ensures c in Claim(pass, filter, olds, news, c.oldName, mid).pairs[|mid.pairs|..]
       <==> c.oldName !in mid.matchedOld && c.oldFp == olds[c.oldName]
            && Partners(pass, filter, c.oldName, olds[c.oldName], news, mid.usedNew) == {c.newName}
            && c.newFp == news[c.newName]
  {
    var partners := Partners(pass, filter, c.oldName, olds[c.oldName], news, mid.usedNew);
    var next := Claim(pass, filter, olds, news, c.oldName, mid);
    Singleton(partners, c.newName);
    assert c.newName in partners ==> c.newName in news;
    if next != mid {
      assert |next.pairs| == |mid.pairs| + 1;
      var p := next.pairs[|mid.pairs|].newName;
      assert p in partners;
      Singleton(partners, p);
      assert next.pairs[|mid.pairs|..] == [PairOf(pass, olds, news, c.oldName, p)];
    } else {
      assert next.pairs[|mid.pairs|..] == [];
    }
  }

  /** A matched name is one with a pair of higher confidence, until its turn comes. */
  lemma MatchedIsHigher(pass: Pass, filter: NameFilter, olds: Symbols, news: Symbols, names: seq<string>, k: nat,
                        st: Claims, r: seq<RenameCandidate>)
    requires PassOf(pass, filter, olds, news, names, st, r) && k < |names|
    ensures names[k] in ClaimAll(pass, filter, olds, news, names[..k], st).matchedOld
       <==> exists d :: d in r && d.oldName == names[k] && d.confidence > pass.Confidence()
  {
    var mid := ClaimAll(pass, filter, olds, news, names[..k], st);
    PassParts(pass, filter, olds, news, names, k, st, r);
    if names[k] in mid.matchedOld {
      assert names[k] !in names[..k];
      var d :| d in st.pairs && d.oldName == names[k];
      assert d in mid.pairs && d in r;
    }
    if d :| d in r && d.oldName == names[k] && d.confidence > pass.Confidence() {
      var i :| 0 <= i < |r| && r[i] == d;
      assert i < |mid.pairs|;
      assert mid.pairs[i] == d;
    }
  }

  /** The k-th name's renames of a level are what the meaning says. */
  lemma TurnMeans(pass: Pass, oldFps: Symbols, newFps: Symbols, filter: NameFilter, st: Claims,
                  r: seq<RenameCandidate>, c: RenameCandidate, names: seq<string>, k: nat)
    requires LevelOf(pass, oldFps, newFps, filter, st, r) && Tried(pass.Confidence(), oldFps, newFps)
    requires names == SortNames(Candidates(oldFps, newFps).Keys) && k < |names|
    requires c.confidence == pass.Confidence() && c.oldName == names[k] && Gone(c.oldName, oldFps, newFps)
    ensures c in r <==> Renamed(c, r, oldFps, newFps, filter)
  {
    var olds, news := Candidates(oldFps, newFps), Candidates(newFps, oldFps);
    var mid := ClaimAll(pass, filter, olds, news, names[..k], st);
    var partners := Partners(pass, filter, c.oldName, oldFps[c.oldName], news, mid.usedNew);
    PairIsOfItsTurn(pass, filter, olds, news, names, k, st, r, c);
    TurnMakes(pass, filter, olds, news, mid, c);
    MatchedIsHigher(pass, filter, olds, news, names, k, st, r);
    forall n ensures n in partners <==> Open(r, c.confidence, oldFps, newFps, filter, c.oldName, n) {
      OpenIsPartner(pass, oldFps, newFps, filter, st, r, k, n);
    }
    OneOpen(partners, r, oldFps, newFps, filter, c);
  }

  lemma OneOpen(partners: set<string>, r: seq<RenameCandidate>, oldFps: Symbols, newFps: Symbols, filter: NameFilter,
                c: RenameCandidate)
    requires c.oldName in oldFps
    requires forall n :: n in partners <==> Open(r, c.confidence, oldFps, newFps, filter, c.oldName, n)
    ensures partners == {c.newName}
       <==> Open(r, c.confidence, oldFps, newFps, filter, c.oldName, c.newName)
            && forall n :: Open(r, c.confidence, oldFps, newFps, filter, c.oldName, n) ==> n == c.newName
  {
  }

  /** A level's renames are what the meaning says. */
  lemma LevelMeans(pass: Pass, oldFps: Symbols, newFps: Symbols, filter: NameFilter, st: Claims,
                   r: seq<RenameCandidate>, c: RenameCandidate)
    requires LevelOf(pass, oldFps, newFps, filter, st, r)
    requires Tried(pass.Confidence(), oldFps, newFps)
    requires c.confidence == pass.Confidence() && Gone(c.oldName, oldFps, newFps)
    ensures c in r <==> Renamed(c, r, oldFps, newFps, filter)
  {
    var names := SortNames(Candidates(oldFps, newFps).Keys);
    CandidatesAreGone(oldFps, newFps);
    assert c.oldName in names;
    var k :| 0 <= k < |names| && names[k] == c.oldName;
    TurnMeans(pass, oldFps, newFps, filter, st, r, c, names, k);
  }

  lemma PassGrows(pass: Pass, filter: NameFilter, olds: Symbols, news: Symbols, st: Claims)
    requires Booked(st)
    ensures var after := RunPass(pass, filter, olds, news, st);
            && Booked(after) && st.pairs <= after.pairs
            && forall i :: |st.pairs| <= i < |after.pairs| ==>
                 after.pairs[i].confidence == pass.Confidence() && after.pairs[i].oldName in olds
  {
    var names := SortNames(olds.Keys);
    ClaimAllBooked(pass, filter, olds, news, names, st);
    ClaimAllGrows(pass, filter, olds, news, names, st);
  }

  // ----- the three passes together -----

  /** Pairs of the passes made so far, down to `level`, of removed symbols. */
  ghost predicate MadeDownTo(pairs: seq<RenameCandidate>, level: real, oldFps: Symbols, newFps: Symbols) {
    forall i :: 0 <= i < |pairs| ==>
      pairs[i].confidence >= level && Tried(pairs[i].confidence, oldFps, newFps)
      && Gone(pairs[i].oldName, oldFps, newFps)
  }

  lemma PassMakes(pass: Pass, oldFps: Symbols, newFps: Symbols, filter: NameFilter, st: Claims, above: real)
    requires Booked(st) && MadeDownTo(st.pairs, above, oldFps, newFps) && above > pass.Confidence()
    requires Tried(pass.Confidence(), oldFps, newFps)
    ensures var after := RunPass(pass, filter, Candidates(oldFps, newFps), Candidates(newFps, oldFps), st);
            && Booked(after) && MadeDownTo(after.pairs, pass.Confidence(), oldFps, newFps)
            && Continues(st.pairs, after.pairs, above)
  {
    CandidatesAreGone(oldFps, newFps);
    PassGrows(pass, filter, Candidates(oldFps, newFps), Candidates(newFps, oldFps), st);
  }

  lemma LevelIs(pass: Pass, oldFps: Symbols, newFps: Symbols, filter: NameFilter, st: Claims, r: seq<RenameCandidate>)
    requires Booked(st) && Above(st.pairs, pass.Confidence())
    requires Continues(RunPass(pass, filter, Candidates(oldFps, newFps), Candidates(newFps, oldFps), st).pairs, r,
                       pass.Confidence())
    ensures LevelOf(pass, oldFps, newFps, filter, st, r)
  {
    SortNamesSorts(Candidates(oldFps, newFps).Keys);
  }

  /** The list after each pass, and at the end. */
  ghost predicate PassesOf(oldFps: Symbols, newFps: Symbols, filter: NameFilter, exact: Claims, sized: Claims,
                           r: seq<RenameCandidate>)
  {
    && LevelOf(Exact, oldFps, newFps, filter, NOTHING, r)
    && LevelOf(SameSize, oldFps, newFps, filter, exact, r)
    && (Tried(0.5, oldFps, newFps) ==> LevelOf(Fuzzy, oldFps, newFps, filter, sized, r))
    && MadeDownTo(r, 0.5, oldFps, newFps)
  }

  lemma PassesGiveRenames(oldFps: Symbols, newFps: Symbols, filter: NameFilter)
    ensures var olds, news := Candidates(oldFps, newFps), Candidates(newFps, oldFps);
            PassesOf(oldFps, newFps, filter, AfterExact(olds, news, filter), AfterSize(olds, news, filter),
                     Renames(oldFps, newFps, filter))
  {
    var olds, news := Candidates(oldFps, newFps), Candidates(newFps, oldFps);
    var exact, sized := AfterExact(olds, news, filter), AfterSize(olds, news, filter);
    var last := AfterFuzzy(olds, news, filter);
    CandidatesAreGone(oldFps, newFps);
    CandidatesAreGone(newFps, oldFps);
    assert last == if Tried(0.5, oldFps, newFps) then RunPass(Fuzzy, filter, olds, news, sized) else sized;
    FourStates(oldFps, newFps, filter, exact, sized, last);
  }

  lemma FourStates(oldFps: Symbols, newFps: Symbols, filter: NameFilter, exact: Claims, sized: Claims, last: Claims)
    requires var olds, news := Candidates(oldFps, newFps), Candidates(newFps, oldFps);
             && exact == RunPass(Exact, filter, olds, news, NOTHING)
             && sized == RunPass(SameSize, filter, olds, news, exact)
             && last == if Tried(0.5, oldFps, newFps) then RunPass(Fuzzy, filter, olds, news, sized) else sized
    ensures PassesOf(oldFps, newFps, filter, exact, sized, last.pairs)
  {
    PassMakes(Exact, oldFps, newFps, filter, NOTHING, 2.0);
    PassMakes(SameSize, oldFps, newFps, filter, exact, 1.0);
    FuzzyMakes(oldFps, newFps, filter, sized, last);
    ContinuesOn(exact.pairs, sized.pairs, last.pairs);
    LevelIs(SameSize, oldFps, newFps, filter, exact, last.pairs);
    LevelIs(Exact, oldFps, newFps, filter, NOTHING, last.pairs);
  }

  lemma FuzzyMakes(oldFps: Symbols, newFps: Symbols, filter: NameFilter, sized: Claims, last: Claims)
    requires Booked(sized) && MadeDownTo(sized.pairs, 0.8, oldFps, newFps)
    requires last == if Tried(0.5, oldFps, newFps)
                     then RunPass(Fuzzy, filter, Candidates(oldFps, newFps), Candidates(newFps, oldFps), sized)
                     else sized
    ensures Tried(0.5, oldFps, newFps) ==> LevelOf(Fuzzy, oldFps, newFps, filter, sized, last.pairs)
    ensures Continues(sized.pairs, last.pairs, 0.8) && MadeDownTo(last.pairs, 0.5, oldFps, newFps)
  {
    if Tried(0.5, oldFps, newFps) {
      PassMakes(Fuzzy, oldFps, newFps, filter, sized, 0.8);
      LevelIs(Fuzzy, oldFps, newFps, filter, sized, last.pairs);
    }
  }

  lemma ContinuesOn(a: seq<RenameCandidate>, b: seq<RenameCandidate>, c: seq<RenameCandidate>)
    requires Continues(a, b, 1.0) && Continues(b, c, 0.8)
    ensures Continues(a, c, 1.0)
  {
  }

  /** The renames are exactly what the two tables say: the equation has the list on both sides. */
  lemma RenamesAreExact(oldFps: Symbols, newFps: Symbols, filter: NameFilter)
    ensures RenamedExactly(Renames(oldFps, newFps, filter), oldFps, newFps, filter)
  {
    var r := Renames(oldFps, newFps, filter);
    var olds, news := Candidates(oldFps, newFps), Candidates(newFps, oldFps);
    PassesGiveRenames(oldFps, newFps, filter);
    forall c: RenameCandidate | Gone(c.oldName, oldFps, newFps) && Tried(c.confidence, oldFps, newFps)
      ensures c in r <==> Renamed(c, r, oldFps, newFps, filter)
    {
      if c.confidence == 1.0 {
        LevelMeans(Exact, oldFps, newFps, filter, NOTHING, r, c);
      } else if c.confidence == 0.8 {
        LevelMeans(SameSize, oldFps, newFps, filter, AfterExact(olds, news, filter), r, c);
      } else {
        LevelMeans(Fuzzy, oldFps, newFps, filter, AfterSize(olds, news, filter), r, c);
      }
    }
  }

  lemma RenamesAreRanked(oldFps: Symbols, newFps: Symbols, filter: NameFilter)
    ensures Ranked(Renames(oldFps, newFps, filter))
  {
    var r := Renames(oldFps, newFps, filter);
    RenamesAreSorted(Candidates(oldFps, newFps), Candidates(newFps, oldFps), filter);
    RenamesAreInjective(oldFps, newFps, filter);
    forall i, j | 0 <= i < j < |r| && r[i].confidence <= r[j].confidence
      ensures r[i].confidence == r[j].confidence && Before(r[i].oldName, r[j].oldName)
    {
      assert CandidateLe(r[i], r[j]);
      BeforeIsLess(r[i].oldName, r[j].oldName);
    }
  }

  // ----- nothing is missed -----

  ghost predicate Paired(r: seq<RenameCandidate>, o: string, n: string, level: real) {
    exists c :: c in r && c.oldName == o && c.newName == n && c.confidence == level
  }

  ghost predicate Unpaired(r: seq<RenameCandidate>, o: string) {
    forall c :: c in r ==> c.oldName != o
  }

  ghost predicate Unclaimed(r: seq<RenameCandidate>, n: string) {
    forall c :: c in r ==> c.newName != n
  }

  lemma RenameFacts(c: RenameCandidate, r: seq<RenameCandidate>, oldFps: Symbols, newFps: Symbols, filter: NameFilter)
    requires RenamedExactly(r, oldFps, newFps, filter) && c in r
    ensures Gone(c.oldName, oldFps, newFps) && Gone(c.newName, newFps, oldFps)
    ensures Tried(c.confidence, oldFps, newFps) && c.confidence <= 1.0
    ensures Alike(c.confidence, oldFps, newFps, filter, c.oldName, c.newName)
  {
    assert Renamed(c, r, oldFps, newFps, filter);
  }

  /** A removed and an added symbol of equal hash, size and an accepted name, each the other's only such one. */
  lemma MutualExactIsFound(r: seq<RenameCandidate>, oldFps: Symbols, newFps: Symbols, filter: NameFilter, o: string,
                           n: string)
    requires RenamedExactly(r, oldFps, newFps, filter)
    requires Gone(o, oldFps, newFps) && Gone(n, newFps, oldFps) && Alike(1.0, oldFps, newFps, filter, o, n)
    requires forall m :: Gone(m, newFps, oldFps) && Alike(1.0, oldFps, newFps, filter, o, m) ==> m == n
    requires forall p :: Gone(p, oldFps, newFps) && Alike(1.0, oldFps, newFps, filter, p, n) ==> p == o
    ensures Paired(r, o, n, 1.0)
  {
    BeforeIsLess(o, o);
    var c := RenameCandidate(o, n, 1.0, oldFps[o], newFps[n]);
    forall d | d in r ensures d.confidence <= 1.0 && (d.newName == n && d.confidence == 1.0 ==> d.oldName == o) {
      RenameFacts(d, r, oldFps, newFps, filter);
    }
    assert Renamed(c, r, oldFps, newFps, filter);
  }

  lemma LoneOpenIsRenamed(r: seq<RenameCandidate>, oldFps: Symbols, newFps: Symbols, filter: NameFilter, level: real,
                          o: string, n: string)
    requires Tried(level, oldFps, newFps)
    requires Gone(o, oldFps, newFps) && Gone(n, newFps, oldFps) && Alike(level, oldFps, newFps, filter, o, n)
    requires forall m :: Gone(m, newFps, oldFps) && Alike(level, oldFps, newFps, filter, o, m) ==> m == n
    ensures Unpaired(r, o) && Unclaimed(r, n)
        ==> Renamed(RenameCandidate(o, n, level, oldFps[o], newFps[n]), r, oldFps, newFps, filter)
  {
  }

  /**
   No removed symbol without a rename is left with exactly one unclaimed added symbol that passes a
   test that was made and that no other added symbol passes.
   */
  lemma NothingIsMissed(r: seq<RenameCandidate>, oldFps: Symbols, newFps: Symbols, filter: NameFilter, level: real,
                        o: string, n: string)
    requires RenamedExactly(r, oldFps, newFps, filter)
    requires Tried(level, oldFps, newFps)
    requires Gone(o, oldFps, newFps) && Gone(n, newFps, oldFps) && Alike(level, oldFps, newFps, filter, o, n)
    requires forall m :: Gone(m, newFps, oldFps) && Alike(level, oldFps, newFps, filter, o, m) ==> m == n
    ensures !Unpaired(r, o) || !Unclaimed(r, n)
  {
    LoneOpenIsRenamed(r, oldFps, newFps, filter, level, o, n);
  }
}
