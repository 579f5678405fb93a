/**
 When response-file expansion (abicheck/build_context.py) is plain substitution of file
 contents.  Plain substitution knows neither budgets nor a cache; the files it looks up
 form a list, and expansion splices all of them exactly when, file by file along that
 list, the budgets left suffice: output for every splice, reads and cache room only for
 files not met before.
 */
module ResponseSubstitution {
  import opened Options
  import opened Ordering
  import opened ResponseFiles

  // ----- plain substitution -----

  /** A reference's tokens, or None when the argument stays as it is. */
  function Contents(world: World, site: Site, arg: string): Option<seq<string>>
    requires IsResponseFile(arg)
  {
    match KeyOf(site, arg)
    case None => None
    case Some(key) => FileTokens(world, key)
  }

  /** Plain depth-bounded substitution, without budgets or cache. */
  function Substitute(world: World, site: Site, args: seq<string>, depth: nat): seq<string>
    decreases if depth > MAX_DEPTH then 0 else MAX_DEPTH + 1 - depth, |args|, 1
  {
    if depth > MAX_DEPTH || args == [] then args
    else SubstituteArg(world, site, args[0], depth, |args|) + Substitute(world, site, args[1..], depth)
  }

  function SubstituteArg(world: World, site: Site, arg: string, depth: nat, left: nat): seq<string>
    requires depth <= MAX_DEPTH
    decreases MAX_DEPTH + 1 - depth, left, 0
  {
    if !IsResponseFile(arg) || Contents(world, site, arg).None? then [arg]
    else Substitute(world, site, Contents(world, site, arg).value, depth + 1)
  }

  /** The files plain substitution looks up, in order and as often as it does. */
  function References(world: World, site: Site, args: seq<string>, depth: nat): seq<Key>
    decreases if depth > MAX_DEPTH then 0 else MAX_DEPTH + 1 - depth, |args|, 1
  {
    if depth > MAX_DEPTH || args == [] then []
    else ReferencesOf(world, site, args[0], depth, |args|) + References(world, site, args[1..], depth)
  }

  function ReferencesOf(world: World, site: Site, arg: string, depth: nat, left: nat): seq<Key>
    requires depth <= MAX_DEPTH
    decreases MAX_DEPTH + 1 - depth, left, 0
  {
    if !IsResponseFile(arg) || KeyOf(site, arg).None? then []
    else
      var key := KeyOf(site, arg).value;
      [key] + match FileTokens(world, key)
              case None => []
              case Some(tokens) => References(world, site, tokens, depth + 1)
  }

  // ----- what a list of references costs -----

  /** The tokens spliced in. */
  function Spliced(world: World, keys: seq<Key>): nat {
    if keys == [] then 0 else Spliced(world, keys[..|keys| - 1]) + Held(FileTokens(world, keys[|keys| - 1]))
  }

  /** The references with something to splice. */
  function SpliceCount(world: World, keys: seq<Key>): nat {
    if keys == [] then 0
    else SpliceCount(world, keys[..|keys| - 1]) + if FileTokens(world, keys[|keys| - 1]).Some? then 1 else 0
  }

  /** The readable files among them that are not known yet. */
  function NewFiles(world: World, keys: seq<Key>, known: set<Key>): set<Key> {
    set k | k in keys && k !in known && Readable(world, k)
  }

  /** The tokens of the files not known yet, each file once. */
  function NewTokens(world: World, keys: seq<Key>, known: set<Key>): nat {
    if keys == [] then 0
    else
      var front, last := keys[..|keys| - 1], keys[|keys| - 1];
      NewTokens(world, front, known) + if last in known || last in front then 0 else Held(FileTokens(world, last))
  }

  /** Splicing nothing still takes output left. */
  function Room(tokens: seq<string>): nat {
    if tokens == [] then 1 else |tokens|
  }

  predicate PaysOutput(world: World, st: State, before: seq<Key>, tokens: seq<string>) {
    && Spliced(world, before) + Room(tokens) <= st.output
    && (st.dbOutput.Some? ==> Spliced(world, before) + Room(tokens) <= st.dbOutput.value)
  }

  /** A file is cached already or was met before, or the budgets allow to read and keep it. */
  predicate PaysFile(world: World, st: State, before: seq<Key>, key: Key, tokens: seq<string>) {
    if key in st.cache then st.cache[key].Some?
    else
      || key in before
      || (&& |tokens| <= 20_000
          && |NewFiles(world, before, st.cache.Keys)| < st.fileReads
          && (st.cacheTokens.Some? ==> NewTokens(world, before, st.cache.Keys) + |tokens| <= st.cacheTokens.value))
  }

  /** What `st` holds suffices for `key` after the references in `before`. */
  predicate PaysAt(world: World, st: State, before: seq<Key>, key: Key) {
    FileTokens(world, key).Some? ==>
      && PaysOutput(world, st, before, FileTokens(world, key).value)
      && PaysFile(world, st, before, key, FileTokens(world, key).value)
  }

  /** What `st` holds suffices for every one of `keys`, after those in `before`. */
  predicate Pays(world: World, st: State, before: seq<Key>, keys: seq<Key>) {
    forall i :: 0 <= i < |keys| ==> PaysAt(world, st, before + keys[..i], keys[i])
  }

  lemma PaysOne(world: World, st: State, before: seq<Key>, key: Key)
    ensures Pays(world, st, before, [key]) <==> PaysAt(world, st, before, key)
  {
    assert before + [key][..0] == before;
  }

  lemma PaysSplit(world: World, st: State, before: seq<Key>, a: seq<Key>, b: seq<Key>)
    ensures Pays(world, st, before, a + b) <==> Pays(world, st, before, a) && Pays(world, st, before + a, b)
  {
    var keys := a + b;
    forall i | 0 <= i < |a|
      ensures PaysAt(world, st, before + keys[..i], keys[i]) <==> PaysAt(world, st, before + a[..i], a[i])
    {
      assert keys[..i] == a[..i];
    }
    forall i | 0 <= i < |b|
      ensures PaysAt(world, st, before + keys[..|a| + i], keys[|a| + i]) <==>
              PaysAt(world, st, before + a + b[..i], b[i])
    {
      assert before + keys[..|a| + i] == before + a + b[..i];
    }
    if Pays(world, st, before, keys) {
      forall i | 0 <= i < |b| ensures PaysAt(world, st, before + a + b[..i], b[i]) {
        assert PaysAt(world, st, before + keys[..|a| + i], keys[|a| + i]);
      }
    }
    if Pays(world, st, before, a) && Pays(world, st, before + a, b) {
      forall i | 0 <= i < |keys| ensures PaysAt(world, st, before + keys[..i], keys[i]) {
        if i >= |a| { assert PaysAt(world, st, before + a + b[..i - |a|], b[i - |a|]); }
      }
    }
  }

  lemma {:induction false} SpliceCountAppend(world: World, a: seq<Key>, b: seq<Key>)
    ensures SpliceCount(world, a + b) == SpliceCount(world, a) + SpliceCount(world, b)
    decreases |b|
  {
    if b == [] {
      assert a + b == a;
    } else {
      var front := b[..|b| - 1];
      SpliceCountAppend(world, a, front);
      assert (a + b)[..|a + b| - 1] == a + front;
    }
  }

  lemma {:induction false} SplicedAppend(world: World, a: seq<Key>, b: seq<Key>)
    ensures Spliced(world, a + b) == Spliced(world, a) + Spliced(world, b)
    decreases |b|
  {
    if b == [] {
      assert a + b == a;
    } else {
      var front := b[..|b| - 1];
      SplicedAppend(world, a, front);
      assert (a + b)[..|a + b| - 1] == a + front;
    }
  }

  /** One reference more. */
  lemma CostsOneMore(world: World, keys: seq<Key>, known: set<Key>, key: Key)
    ensures var more := keys + [key];
            && Spliced(world, more) == Spliced(world, keys) + Held(FileTokens(world, key))
            && NewTokens(world, more, known)
               == NewTokens(world, keys, known)
                  + (if key in known || key in keys then 0 else Held(FileTokens(world, key)))
            && NewFiles(world, more, known)
               == NewFiles(world, keys, known) + (if key !in known && Readable(world, key) then {key} else {})
  {
    assert (keys + [key])[..|keys|] == keys;
  }

  /** An initial part costs no more than the whole. */
  lemma PrefixCostsLess(world: World, keys: seq<Key>, i: nat, known: set<Key>)
    requires i <= |keys|
    ensures Spliced(world, keys[..i]) <= Spliced(world, keys)
    ensures |NewFiles(world, keys[..i], known)| <= |NewFiles(world, keys, known)|
    ensures i < |keys| ==> Spliced(world, keys[..i]) + Held(FileTokens(world, keys[i])) <= Spliced(world, keys)
  {
    assert keys == keys[..i] + keys[i..];
    SplicedAppend(world, keys[..i], keys[i..]);
    SmallerSet(NewFiles(world, keys[..i], known), NewFiles(world, keys, known));
    if i < |keys| {
      assert keys[i..] == [keys[i]] + keys[i + 1..];
      SplicedAppend(world, [keys[i]], keys[i + 1..]);
      assert [keys[i]][..0] == [];
      assert Spliced(world, [keys[i]]) == Spliced(world, []) + Held(FileTokens(world, keys[i]));
    }
  }

  // ----- the state along the list -----

  predicate HasRoom(st: State) {
    st.output > 0 && (st.dbOutput.Some? ==> st.dbOutput.value > 0)
  }

  /** Output and reads are left after `before`, so the next file is looked up. */
  predicate Met(world: World, st: State, before: seq<Key>) {
    && Spliced(world, before) < st.output
    && (st.dbOutput.Some? ==> Spliced(world, before) < st.dbOutput.value)
    && |NewFiles(world, before, st.cache.Keys)| < st.fileReads
  }

  ghost predicate OutputAfter(world: World, start: State, before: seq<Key>, st: State) {
    && st.output == start.output - Spliced(world, before)
    && st.dbOutput == (if start.dbOutput.Some? then Some(start.dbOutput.value - Spliced(world, before)) else None)
  }

  ghost predicate RoomAfter(world: World, start: State, before: seq<Key>, st: State) {
    st.cacheTokens == if start.cacheTokens.None? then None
                      else Some(start.cacheTokens.value - NewTokens(world, before, start.cache.Keys))
  }

  /** While there is room every new readable file costs a read, until there are none left. */
  ghost predicate ReadsAfter(world: World, start: State, before: seq<Key>, st: State) {
    HasRoom(st) ==>
      var files := |NewFiles(world, before, start.cache.Keys)|;
      if files < start.fileReads then st.fileReads == start.fileReads - files else st.fileReads <= 0
  }

  /** Nothing changed, nothing foreign came in, and what was spliced is there. */
  ghost predicate CacheAfter(world: World, start: State, before: seq<Key>, st: State) {
    && (forall k :: k in start.cache ==> k in st.cache && st.cache[k] == start.cache[k])
    && (forall k :: k in st.cache && k !in start.cache ==> k in before && st.cache[k] == FileTokens(world, k))
    && (forall k :: k in before && FileTokens(world, k).Some? ==> k in st.cache && st.cache[k] == FileTokens(world, k))
  }

  ghost predicate MetAreKept(world: World, start: State, before: seq<Key>, st: State) {
    forall i :: 0 <= i < |before| && Met(world, start, before[..i]) ==> before[i] in st.cache
  }

  /** `st` is what looking up `before`, with everything paid, makes of `start`. */
  ghost predicate Reached(world: World, start: State, before: seq<Key>, st: State) {
    && OutputAfter(world, start, before, st) && RoomAfter(world, start, before, st)
       && ReadsAfter(world, start, before, st)
    && CacheAfter(world, start, before, st) && MetAreKept(world, start, before, st)
  }

  lemma ReachedAtOnce(world: World, st: State)
    ensures Reached(world, st, [], st)
  {
    assert NewFiles(world, [], st.cache.Keys) == {};
  }

  lemma MetEarlier(world: World, start: State, before: seq<Key>, key: Key) returns (i: nat)
    requires key in before && Met(world, start, before)
    ensures i < |before| && before[i] == key && Met(world, start, before[..i])
  {
    i :| 0 <= i < |before| && before[i] == key;
    PrefixCostsLess(world, before, i, start.cache.Keys);
  }

  /** While there is room and reads are left, exactly what was known or met is cached. */
  lemma WhileReadsLast(world: World, start: State, before: seq<Key>, st: State, key: Key)
    requires CacheAfter(world, start, before, st) && MetAreKept(world, start, before, st) && Met(world, start, before)
    ensures key in st.cache <==> key in start.cache || key in before
  {
    if key in before {
      var i := MetEarlier(world, start, before, key);
    }
  }

  // ----- one lookup -----

  /** What a lookup hands out is the file's own contents. */
  lemma TokensAreTheFiles(world: World, site: Site, arg: string, st: State)
    requires IsResponseFile(arg) && KeyOf(site, arg).Some? && Coherent(world, st)
    ensures var tokens := TokensForArg(world, site, arg, st).0;
            tokens.Some? ==> tokens == FileTokens(world, KeyOf(site, arg).value)
  {
    var key := KeyOf(site, arg).value;
    if key in st.cache {
      assert ReadAgrees(world, key, st);
    }
  }

  lemma LookupAnswers(world: World, site: Site, arg: string, start: State, before: seq<Key>, st: State)
    requires IsResponseFile(arg) && KeyOf(site, arg).Some?
    requires Coherent(world, start) && Reached(world, start, before, st)
    ensures TokensForArg(world, site, arg, st).0
         == if PaysAt(world, start, before, KeyOf(site, arg).value)
            then FileTokens(world, KeyOf(site, arg).value) else None
  {
    var key := KeyOf(site, arg).value;
    if key in start.cache {
      assert ReadAgrees(world, key, start);
    }
  }

  /** How a lookup, once paid for, changes the state: at most one new file, read and kept. */
  ghost predicate Leaves(world: World, key: Key, tokens: Option<seq<string>>, st: State, end: State) {
    && end.output == st.output - Held(tokens)
    && end.dbOutput == (if st.dbOutput.Some? then Some(st.dbOutput.value - Held(tokens)) else None)
    && if !HasRoom(st) || key in st.cache || st.fileReads <= 0
       then end.cache == st.cache && end.fileReads == st.fileReads && end.cacheTokens == st.cacheTokens
       else
         && key in end.cache && end.cache == st.cache[key := end.cache[key]]
         && (end.cache[key].Some? ==> end.cache[key] == FileTokens(world, key))
         && (tokens.Some? ==> end.cache[key] == tokens)
         && end.fileReads == st.fileReads - (if Readable(world, key) then 1 else 0)
         && end.cacheTokens
            == (if st.cacheTokens.Some? then Some(st.cacheTokens.value - Held(end.cache[key])) else None)
  }

  lemma LookupLeaves(world: World, site: Site, arg: string, st: State)
    requires IsResponseFile(arg) && KeyOf(site, arg).Some?
    ensures Leaves(world, KeyOf(site, arg).value, TokensForArg(world, site, arg, st).0, st,
                   Settled(world, site, arg, st))
  {
  }

  /** A file not met before is looked up if it is paid for, and only such a file. */
  lemma NewFileIsLookedUp(world: World, start: State, before: seq<Key>, key: Key, st: State)
    requires Reached(world, start, before, st) && PaysAt(world, start, before, key) && FileTokens(world, key).Some?
    ensures key in st.cache <==> key in start.cache || key in before
    ensures HasRoom(st) && (key !in st.cache ==> st.fileReads > 0)
  {
  }

  lemma LeavesOutput(world: World, start: State, before: seq<Key>, key: Key, st: State, end: State)
    requires OutputAfter(world, start, before, st) && Leaves(world, key, FileTokens(world, key), st, end)
    ensures OutputAfter(world, start, before + [key], end)
  {
    CostsOneMore(world, before, start.cache.Keys, key);
  }

  /** The cache room left once the file is kept. */
  function RoomLeft(world: World, key: Key, st: State): Option<int> {
    if st.cacheTokens.None? || key in st.cache then st.cacheTokens
    else Some(st.cacheTokens.value - Held(FileTokens(world, key)))
  }

  lemma LeavesRoom(world: World, key: Key, st: State, end: State)
    requires Leaves(world, key, FileTokens(world, key), st, end)
    requires FileTokens(world, key).Some? ==> HasRoom(st) && (key !in st.cache ==> st.fileReads > 0)
    ensures end.cacheTokens == RoomLeft(world, key, st)
  {
  }

  lemma RoomStep(world: World, start: State, before: seq<Key>, key: Key, st: State, end: State)
    requires RoomAfter(world, start, before, st)
    requires FileTokens(world, key).Some? ==> (key in st.cache <==> key in start.cache || key in before)
    requires end.cacheTokens == RoomLeft(world, key, st)
    ensures RoomAfter(world, start, before + [key], end)
  {
    CostsOneMore(world, before, start.cache.Keys, key);
  }

  lemma LeavesReads(world: World, start: State, before: seq<Key>, key: Key, st: State, end: State)
    requires ReadsAfter(world, start, before, st) && Leaves(world, key, FileTokens(world, key), st, end)
    requires HasRoom(st) && |NewFiles(world, before, start.cache.Keys)| < start.fileReads ==>
               (key in st.cache <==> key in start.cache || key in before)
    ensures ReadsAfter(world, start, before + [key], end)
  {
    var files, more := NewFiles(world, before, start.cache.Keys), NewFiles(world, before + [key], start.cache.Keys);
    CostsOneMore(world, before, start.cache.Keys, key);
    SmallerSet(files, more);
    if HasRoom(st) && |files| < start.fileReads {
      assert more == files || (key !in files && more == files + {key});
    }
  }

  lemma LeavesCache(world: World, start: State, before: seq<Key>, key: Key, st: State, end: State)
    requires CacheAfter(world, start, before, st) && Coherent(world, start) && PaysAt(world, start, before, key)
    requires Leaves(world, key, FileTokens(world, key), st, end)
    requires FileTokens(world, key).Some? ==> HasRoom(st) && (key !in st.cache ==> st.fileReads > 0)
    ensures CacheAfter(world, start, before + [key], end)
  {
    if key in start.cache {
      assert ReadAgrees(world, key, start);
    }
  }

  lemma LeavesMet(world: World, start: State, before: seq<Key>, key: Key, st: State, end: State)
    requires Reached(world, start, before, st)
    requires Leaves(world, key, FileTokens(world, key), st, end)
    ensures MetAreKept(world, start, before + [key], end)
  {
    var more := before + [key];
    forall i | 0 <= i < |more| && Met(world, start, more[..i]) ensures more[i] in end.cache {
      assert more[..i] == if i < |before| then before[..i] else before;
    }
  }

  /** A lookup that is paid for, or has nothing to splice, keeps what is known of the state. */
  lemma LookupReaches(world: World, start: State, before: seq<Key>, key: Key, st: State, end: State)
    requires Reached(world, start, before, st) && Coherent(world, start) && PaysAt(world, start, before, key)
    requires Leaves(world, key, FileTokens(world, key), st, end)
    ensures Reached(world, start, before + [key], end)
  {
    if FileTokens(world, key).Some? {
      NewFileIsLookedUp(world, start, before, key, st);
    }
    if HasRoom(st) && |NewFiles(world, before, start.cache.Keys)| < start.fileReads {
      WhileReadsLast(world, start, before, st, key);
    }
    LeavesOutput(world, start, before, key, st, end);
    LeavesRoom(world, key, st, end);
    RoomStep(world, start, before, key, st, end);
    LeavesReads(world, start, before, key, st, end);
    LeavesCache(world, start, before, key, st, end);
    LeavesMet(world, start, before, key, st, end);
  }

  // ----- the whole call tree -----

  /**
   `r` splices at most the files in `keys` and, from a state reached by paying for `before`,
   all of them exactly when they are paid for too; then its output is `out`.
   */
  ghost predicate Splices(world: World, r: Expansion, keys: seq<Key>, out: seq<string>, start: State, before: seq<Key>,
                          st: State)
  {
    && r.splices <= SpliceCount(world, keys)
    && (Reached(world, start, before, st) ==>
          && (r.splices == SpliceCount(world, keys) <==> Pays(world, start, before, keys))
          && (Pays(world, start, before, keys) ==> r.out == out && Reached(world, start, before + keys, r.st)))
  }

  lemma SplicesInTurn(world: World, r1: Expansion, a: seq<Key>, out1: seq<string>, r2: Expansion, b: seq<Key>,
                      out2: seq<string>, r: Expansion, start: State, before: seq<Key>, st: State)
    requires Splices(world, r1, a, out1, start, before, st) && Splices(world, r2, b, out2, start, before + a, r1.st)
    requires r.out == r1.out + r2.out && r.splices == r1.splices + r2.splices && r.st == r2.st
    ensures Splices(world, r, a + b, out1 + out2, start, before, st)
  {
    SpliceCountAppend(world, a, b);
    PaysSplit(world, start, before, a, b);
    assert before + (a + b) == before + a + b;
  }

  /** The lookup alone, as an expansion that splices nothing in yet. */
  lemma LookupSplices(world: World, site: Site, arg: string, st: State, start: State, before: seq<Key>)
    returns (r: Expansion)
    requires IsResponseFile(arg) && KeyOf(site, arg).Some?
    requires Coherent(world, st) && Coherent(world, start)
    ensures var key, tokens := KeyOf(site, arg).value, TokensForArg(world, site, arg, st).0;
            && r.st == Settled(world, site, arg, st) && r.splices == (if tokens.Some? then 1 else 0)
            && r.out == (if tokens.Some? then [] else [arg])
            && Splices(world, r, [key], if FileTokens(world, key).Some? then [] else [arg], start, before, st)
  {
    var key, tokens := KeyOf(site, arg).value, TokensForArg(world, site, arg, st).0;
    var end := Settled(world, site, arg, st);
    r := if tokens.Some? then Expansion([], end, 1, 1, 0, []) else Expansion([arg], end, 1, 0, 0, []);
    assert [key][..0] == [] && SpliceCount(world, []) == 0;
    TokensAreTheFiles(world, site, arg, st);
    PaysOne(world, start, before, key);
    if Reached(world, start, before, st) {
      LookupAnswers(world, site, arg, start, before, st);
      if PaysAt(world, start, before, key) {
        LookupLeaves(world, site, arg, st);
        LookupReaches(world, start, before, key, st, r.st);
      }
    }
  }

  lemma {:induction false} ExpandSplices(world: World, site: Site, args: seq<string>, depth: nat, st: State,
                                         start: State, before: seq<Key>)
    requires Coherent(world, st) && Coherent(world, start)
    ensures Splices(world, Expand(world, site, args, depth, st), References(world, site, args, depth),
                    Substitute(world, site, args, depth), start, before, st)
    decreases if depth > MAX_DEPTH then 0 else MAX_DEPTH + 1 - depth, |args|, 1
  {
    if depth > MAX_DEPTH || args == [] {
      assert before + [] == before;
    } else {
      var first := ExpandArg(world, site, args[0], depth, |args|, st);
      var a := ReferencesOf(world, site, args[0], depth, |args|);
      ExpandArgSplices(world, site, args[0], depth, |args|, st, start, before);
      ExpandArgKeepsCache(world, site, args[0], depth, |args|, st, 0);
      ExpandSplices(world, site, args[1..], depth, first.st, start, before + a);
      SplicesInTurn(world, first, a, SubstituteArg(world, site, args[0], depth, |args|),
                    Expand(world, site, args[1..], depth, first.st), References(world, site, args[1..], depth),
                    Substitute(world, site, args[1..], depth), Expand(world, site, args, depth, st), start, before, st);
    }
  }

  lemma {:induction false} ExpandArgSplices(world: World, site: Site, arg: string, depth: nat, left: nat, st: State,
                                            start: State, before: seq<Key>)
    requires depth <= MAX_DEPTH
    requires Coherent(world, st) && Coherent(world, start)
    ensures Splices(world, ExpandArg(world, site, arg, depth, left, st), ReferencesOf(world, site, arg, depth, left),
                    SubstituteArg(world, site, arg, depth, left), start, before, st)
    decreases MAX_DEPTH + 1 - depth, left, 0
  {
    if !IsResponseFile(arg) || KeyOf(site, arg).None? || TokensForArg(world, site, arg, st).0.None? {
      StayingArgSplices(world, site, arg, depth, left, st, start, before);
    } else {
      var lookup := LookupSplices(world, site, arg, st, start, before);
      var key, tokens := KeyOf(site, arg).value, TokensForArg(world, site, arg, st).0;
      TokensAreTheFiles(world, site, arg, st);
      TokensForArgCoheres(world, site, arg, st);
      ExpandSplices(world, site, tokens.value, depth + 1, lookup.st, start, before + [key]);
      SplicesInTurn(world, lookup, [key], [], Expand(world, site, tokens.value, depth + 1, lookup.st),
                    References(world, site, tokens.value, depth + 1), Substitute(world, site, tokens.value, depth + 1),
                    ExpandArg(world, site, arg, depth, left, st), start, before, st);
    }
  }

  /** An argument that stays as it is: no reference, nothing to splice, or refused. */
  lemma StayingArgSplices(world: World, site: Site, arg: string, depth: nat, left: nat, st: State, start: State,
                          before: seq<Key>)
    requires depth <= MAX_DEPTH
    requires Coherent(world, st) && Coherent(world, start)
    requires !IsResponseFile(arg) || KeyOf(site, arg).None? || TokensForArg(world, site, arg, st).0.None?
    ensures Splices(world, ExpandArg(world, site, arg, depth, left, st), ReferencesOf(world, site, arg, depth, left),
                    SubstituteArg(world, site, arg, depth, left), start, before, st)
  {
    var r := ExpandArg(world, site, arg, depth, left, st);
    if !IsResponseFile(arg) || KeyOf(site, arg).None? {
      NothingSpliced(world, r, start, before, st);
    } else {
      var lookup := LookupSplices(world, site, arg, st, start, before);
      var key := KeyOf(site, arg).value;
      if FileTokens(world, key).None? {
        assert [key] + [] == [key];
      } else {
        SplicingRefused(world, lookup, key, References(world, site, FileTokens(world, key).value, depth + 1), r,
                        SubstituteArg(world, site, arg, depth, left), start, before, st);
      }
    }
  }

  lemma NothingSpliced(world: World, r: Expansion, start: State, before: seq<Key>, st: State)
    requires r.splices == 0 && r.st == st
    ensures Splices(world, r, [], r.out, start, before, st)
  {
    assert before + [] == before;
  }

  lemma SplicingRefused(world: World, lookup: Expansion, key: Key, inner: seq<Key>, r: Expansion, out: seq<string>,
                        start: State, before: seq<Key>, st: State)
    requires FileTokens(world, key).Some? && lookup.splices == 0 && r.splices == 0
    requires Splices(world, lookup, [key], [], start, before, st)
    ensures Splices(world, r, [key] + inner, out, start, before, st)
  {
    assert [key][..0] == [] && SpliceCount(world, [key]) == 1 + SpliceCount(world, []);
    SpliceCountAppend(world, [key], inner);
    PaysSplit(world, start, before, [key], inner);
  }

  /**
   Whatever earlier entries left in the cache: an expansion splices every file that plain
   substitution splices exactly when the budgets suffice for each of them in turn, and
   then its output is that of plain substitution.
   */
  lemma ExpandIsSubstitution(world: World, site: Site, args: seq<string>, depth: nat, st: State)
    requires Coherent(world, st)
    ensures var r, keys := Expand(world, site, args, depth, st), References(world, site, args, depth);
            && (r.splices == SpliceCount(world, keys) <==> Pays(world, st, [], keys))
            && (Pays(world, st, [], keys) ==>
                  r.out == Substitute(world, site, args, depth) && r.st.output == st.output - Spliced(world, keys))
  {
    ReachedAtOnce(world, st);
    ExpandSplices(world, site, args, depth, st, st, []);
    var keys := References(world, site, args, depth);
    assert [] + keys == keys;
  }

  // ----- totals that suffice -----

  /** Output is left at every readable file, and in the end nothing is overdrawn. */
  predicate InTime(world: World, keys: seq<Key>, budget: int) {
    && (forall i :: 0 <= i < |keys| && Readable(world, keys[i]) ==> Spliced(world, keys[..i]) < budget)
    && Spliced(world, keys) <= budget
  }

  /**
   The new readable files are no more than the reads left, their tokens no more than the
   cache room left, and no file to splice is cached as rejected.
   */
  predicate Enough(world: World, st: State, keys: seq<Key>) {
    && InTime(world, keys, st.output) && st.output <= 20_000
    && (st.dbOutput.Some? ==> InTime(world, keys, st.dbOutput.value))
    && |NewFiles(world, keys, st.cache.Keys)| <= st.fileReads
    && (st.cacheTokens.Some? ==> NewTokens(world, keys, st.cache.Keys) <= st.cacheTokens.value)
    && (forall k :: k in keys && k in st.cache && FileTokens(world, k).Some? ==> st.cache[k].Some?)
  }

  lemma {:induction false} NewTokensGrow(world: World, keys: seq<Key>, i: nat, known: set<Key>)
    requires i <= |keys|
    ensures NewTokens(world, keys[..i], known) <= NewTokens(world, keys, known)
    decreases |keys|
  {
    if i == |keys| {
      assert keys[..i] == keys;
    } else {
      NewTokensGrow(world, keys[..|keys| - 1], i, known);
      assert keys[..|keys| - 1][..i] == keys[..i];
    }
  }

  /** Before a file is met for the first time, it is still to be counted. */
  lemma FirstMeeting(world: World, keys: seq<Key>, i: nat, known: set<Key>)
    requires i < |keys| && keys[i] !in keys[..i] && keys[i] !in known && Readable(world, keys[i])
    ensures |NewFiles(world, keys[..i], known)| < |NewFiles(world, keys, known)|
    ensures NewTokens(world, keys[..i], known) + Held(FileTokens(world, keys[i])) <= NewTokens(world, keys, known)
  {
    var before := NewFiles(world, keys[..i], known);
    SmallerSet(before + {keys[i]}, NewFiles(world, keys, known));
    CostsOneMore(world, keys[..i], known, keys[i]);
    assert keys[..i] + [keys[i]] == keys[..i + 1];
    NewTokensGrow(world, keys, i + 1, known);
  }

  /** Whoever has enough in total can pay in turn. */
  lemma EnoughPays(world: World, st: State, keys: seq<Key>)
    requires Enough(world, st, keys)
    ensures Pays(world, st, [], keys)
  {
    forall i | 0 <= i < |keys| ensures PaysAt(world, st, [] + keys[..i], keys[i]) {
      assert [] + keys[..i] == keys[..i];
      if FileTokens(world, keys[i]).Some? {
        PrefixCostsLess(world, keys, i, st.cache.Keys);
        if keys[i] !in keys[..i] && keys[i] !in st.cache {
          FirstMeeting(world, keys, i, st.cache.Keys);
        }
      }
    }
  }

  // ----- the database -----

  function ReferencesIn(world: World, e: Entry): seq<Key> {
    References(world, e.site, e.args, 0)
  }

  /** Every file looked up for the database, in order. */
  function AllReferences(world: World, entries: seq<Entry>): seq<Key> {
    if entries == [] then []
    else AllReferences(world, entries[..|entries| - 1]) + ReferencesIn(world, entries[|entries| - 1])
  }

  lemma {:induction false} LoadPrefix(world: World, entries: seq<Entry>, st: State, i: nat)
    requires i <= |entries|
    ensures Load(world, entries[..i], st) == Load(world, entries, st)[..i]
    decreases |entries|
  {
    if i == 0 {
    } else {
      var first := Expand(world, entries[0].site, entries[0].args, 0, Fresh(st));
      LoadPrefix(world, entries[1..], first.st, i - 1);
      assert entries[..i][1..] == entries[1..][..i - 1];
      assert Load(world, entries, st)[..i] == [first] + Load(world, entries[1..], first.st)[..i - 1];
    }
  }

  /**
   Of any entry of any database: it is expanded as plain substitution, with every file
   spliced, exactly when what the entries before it left, and its own fresh budgets,
   suffice for its files in turn.
   */
  lemma LoadedEntryIsSubstitution(world: World, entries: seq<Entry>, i: nat)
    requires i < |entries|
    ensures var runs, e := Load(world, entries, START), entries[i];
            var st := Fresh(After(START, runs[..i]));
            && (runs[i].splices == SpliceCount(world, ReferencesIn(world, e)) <==>
                  Pays(world, st, [], ReferencesIn(world, e)))
            && (Pays(world, st, [], ReferencesIn(world, e)) ==> runs[i].out == Substitute(world, e.site, e.args, 0))
  {
    var runs := Load(world, entries, START);
    LoadRuns(world, entries, START, i);
    LoadPrefix(world, entries, START, i);
    LoadConserves(world, entries[..i], START);
    FreshStaysCoherent(world, After(START, runs[..i]));
    ExpandIsSubstitution(world, entries[i].site, entries[i].args, 0, Fresh(After(START, runs[..i])));
  }

  /** What one entry may do after those that looked up `seen`: 20,000 tokens, and 64 files that are new. */
  predicate Fits(world: World, seen: seq<Key>, keys: seq<Key>) {
    InTime(world, keys, 20_000) && |NewFiles(world, keys, set k | k in seen)| <= 64
  }

  predicate WithinCaps(world: World, entries: seq<Entry>) {
    && InTime(world, AllReferences(world, entries), 2_000_000)
    && forall i :: 0 <= i < |entries| ==>
         Fits(world, AllReferences(world, entries[..i]), ReferencesIn(world, entries[i]))
  }

  /** The state between entries as long as nothing was refused. */
  ghost predicate Carried(world: World, seen: seq<Key>, st: State) {
    && st.dbOutput == Some(2_000_000 - Spliced(world, seen))
    && st.cacheTokens == Some(2_000_000 - NewTokens(world, seen, {}))
    && (forall k :: k in st.cache ==> k in seen && st.cache[k] == FileTokens(world, k))
    && (forall k :: k in seen && Readable(world, k) ==> k in st.cache)
  }

  lemma {:induction false} NewTokensJoin(world: World, seen: seq<Key>, keys: seq<Key>, known: set<Key>)
    requires forall k :: Readable(world, k) ==> (k in known <==> k in seen)
    ensures NewTokens(world, seen + keys, {}) == NewTokens(world, seen, {}) + NewTokens(world, keys, known)
    decreases |keys|
  {
    if keys == [] {
      assert seen + keys == seen;
    } else {
      var front := keys[..|keys| - 1];
      NewTokensJoin(world, seen, front, known);
      assert seen + keys == seen + front + [keys[|keys| - 1]];
      CostsOneMore(world, seen + front, {}, keys[|keys| - 1]);
    }
  }

  /** Each file kept was spliced in at least once. */
  lemma {:induction false} KeptAreSpliced(world: World, keys: seq<Key>)
    ensures NewTokens(world, keys, {}) <= Spliced(world, keys)
  {
    if keys == [] {
    } else {
      KeptAreSpliced(world, keys[..|keys| - 1]);
    }
  }

  lemma InTimeSplit(world: World, seen: seq<Key>, keys: seq<Key>, budget: int)
    requires InTime(world, seen + keys, budget)
    ensures InTime(world, seen, budget) && InTime(world, keys, budget - Spliced(world, seen))
  {
    var all := seen + keys;
    SplicedAppend(world, seen, keys);
    forall i | 0 <= i < |seen| && Readable(world, seen[i]) ensures Spliced(world, seen[..i]) < budget {
      assert all[i] == seen[i] && all[..i] == seen[..i];
    }
    forall i | 0 <= i < |keys| && Readable(world, keys[i])
      ensures Spliced(world, keys[..i]) < budget - Spliced(world, seen)
    {
      assert all[|seen| + i] == keys[i] && all[..|seen| + i] == seen + keys[..i];
      SplicedAppend(world, seen, keys[..i]);
    }
  }

  lemma CarriedHasEnough(world: World, seen: seq<Key>, keys: seq<Key>, st: State)
    requires Carried(world, seen, st) && Fits(world, seen, keys)
    requires InTime(world, seen + keys, 2_000_000)
    ensures Enough(world, Fresh(st), keys) && Coherent(world, Fresh(st))
    ensures NewTokens(world, seen + keys, {}) == NewTokens(world, seen, {}) + NewTokens(world, keys, st.cache.Keys)
  {
    InTimeSplit(world, seen, keys, 2_000_000);
    NewTokensJoin(world, seen, keys, st.cache.Keys);
    KeptAreSpliced(world, seen + keys);
    assert NewFiles(world, keys, st.cache.Keys) == NewFiles(world, keys, set k | k in seen);
  }

  lemma FirstIndex(keys: seq<Key>, k: Key) returns (i: nat)
    requires k in keys
    ensures i < |keys| && keys[i] == k && k !in keys[..i]
  {
    if k in keys[..|keys| - 1] {
      i := FirstIndex(keys[..|keys| - 1], k);
      assert keys[..|keys| - 1][..i] == keys[..i];
    } else {
      i := |keys| - 1;
    }
  }

  /** With reads and output enough, a new readable file is looked up when it is met first. */
  lemma FirstIsMet(world: World, start: State, keys: seq<Key>, key: Key) returns (i: nat)
    requires Enough(world, start, keys) && key in keys && key !in start.cache && Readable(world, key)
    ensures i < |keys| && keys[i] == key && Met(world, start, keys[..i])
  {
    i := FirstIndex(keys, key);
    FirstMeeting(world, keys, i, start.cache.Keys);
  }

  /** A top-level expansion that pays for all its files reaches the state they lead to. */
  lemma PaidExpansion(world: World, e: Entry, st: State)
    requires Coherent(world, st) && Pays(world, st, [], ReferencesIn(world, e))
    ensures var r := Expand(world, e.site, e.args, 0, st);
            r.out == Substitute(world, e.site, e.args, 0) && Reached(world, st, ReferencesIn(world, e), r.st)
  {
    ReachedAtOnce(world, st);
    ExpandSplices(world, e.site, e.args, 0, st, st, []);
    assert [] + ReferencesIn(world, e) == ReferencesIn(world, e);
  }

  lemma FittingEntry(world: World, seen: seq<Key>, e: Entry, st: State)
    requires Carried(world, seen, st) && Fits(world, seen, ReferencesIn(world, e))
    requires InTime(world, seen + ReferencesIn(world, e), 2_000_000)
    ensures var r := Expand(world, e.site, e.args, 0, Fresh(st));
            r.out == Substitute(world, e.site, e.args, 0) && Reached(world, Fresh(st), ReferencesIn(world, e), r.st)
  {
    CarriedHasEnough(world, seen, ReferencesIn(world, e), st);
    EnoughPays(world, Fresh(st), ReferencesIn(world, e));
    PaidExpansion(world, e, Fresh(st));
  }

  lemma CarriedOn(world: World, seen: seq<Key>, keys: seq<Key>, st: State, end: State)
    requires Carried(world, seen, st) && OutputAfter(world, Fresh(st), keys, end)
             && RoomAfter(world, Fresh(st), keys, end)
    requires CacheAfter(world, Fresh(st), keys, end)
    requires NewTokens(world, seen + keys, {}) == NewTokens(world, seen, {}) + NewTokens(world, keys, st.cache.Keys)
    requires forall k :: k in keys && Readable(world, k) ==> k in end.cache
    ensures Carried(world, seen + keys, end)
  {
    SplicedAppend(world, seen, keys);
  }

  /** One entry of a database within its caps, after the references of those before it. */
  lemma EntryInTime(world: World, entries: seq<Entry>, i: nat)
    requires WithinCaps(world, entries) && i < |entries|
    ensures var seen, keys := AllReferences(world, entries[..i]), ReferencesIn(world, entries[i]);
            && AllReferences(world, entries[..i + 1]) == seen + keys
            && Fits(world, seen, keys) && InTime(world, seen + keys, 2_000_000)
  {
    assert entries[..i + 1][..i] == entries[..i];
    AllReferencesPrefix(world, entries, i + 1);
    var met := AllReferences(world, entries[..i + 1]);
    InTimeSplit(world, met, AllReferences(world, entries)[|met|..], 2_000_000);
  }

  ghost predicate CarriedTo(world: World, entries: seq<Entry>, i: nat)
    requires i <= |entries|
  {
    Carried(world, AllReferences(world, entries[..i]), After(START, Load(world, entries, START)[..i]))
  }

  lemma NothingCarried(world: World, entries: seq<Entry>)
    ensures CarriedTo(world, entries, 0)
  {
    assert entries[..0] == [];
    assert Carried(world, [], START);
  }

  lemma EntryCarries(world: World, entries: seq<Entry>, i: nat)
    requires WithinCaps(world, entries) && i < |entries| && CarriedTo(world, entries, i)
    ensures CarriedTo(world, entries, i + 1)
    ensures Load(world, entries, START)[i].out == Substitute(world, entries[i].site, entries[i].args, 0)
  {
    var runs := Load(world, entries, START);
    EntryInTime(world, entries, i);
    LoadRuns(world, entries, START, i);
    FittingEntryCarries(world, AllReferences(world, entries[..i]), entries[i], After(START, runs[..i]));
    AfterLast(START, runs, i);
  }

  lemma AfterLast(st: State, runs: seq<Expansion>, i: nat)
    requires i < |runs|
    ensures After(st, runs[..i + 1]) == runs[i].st
  {
  }

  lemma FittingEntryCarries(world: World, seen: seq<Key>, e: Entry, st: State)
    requires Carried(world, seen, st) && Fits(world, seen, ReferencesIn(world, e))
    requires InTime(world, seen + ReferencesIn(world, e), 2_000_000)
    ensures var r := Expand(world, e.site, e.args, 0, Fresh(st));
            r.out == Substitute(world, e.site, e.args, 0) && Carried(world, seen + ReferencesIn(world, e), r.st)
  {
    var keys, r := ReferencesIn(world, e), Expand(world, e.site, e.args, 0, Fresh(st));
    FittingEntry(world, seen, e, st);
    CarriedHasEnough(world, seen, keys, st);
    forall k | k in keys && Readable(world, k) ensures k in r.st.cache {
      if k !in st.cache {
        var i := FirstIsMet(world, Fresh(st), keys, k);
      }
    }
    CarriedOn(world, seen, keys, st, r.st);
  }

  lemma {:induction false} LoadCarries(world: World, entries: seq<Entry>, i: nat)
    requires WithinCaps(world, entries) && i <= |entries|
    ensures CarriedTo(world, entries, i)
    decreases i
  {
    if i == 0 {
      NothingCarried(world, entries);
    } else {
      LoadCarries(world, entries, i - 1);
      EntryCarries(world, entries, i - 1);
    }
  }

  lemma {:induction false} AllReferencesPrefix(world: World, entries: seq<Entry>, i: nat)
    requires i <= |entries|
    ensures AllReferences(world, entries[..i]) <= AllReferences(world, entries)
    ensures var some := AllReferences(world, entries[..i]);
            some + AllReferences(world, entries)[|some|..] == AllReferences(world, entries)
    decreases |entries|
  {
    if i == |entries| {
      assert entries[..i] == entries;
    } else {
      AllReferencesPrefix(world, entries[..|entries| - 1], i);
      assert entries[..|entries| - 1][..i] == entries[..i];
    }
  }

  /**
   A database within its caps is expanded exactly as if there were neither budgets nor a
   cache: per entry 20,000 tokens and 64 files not met in an entry before, and 2,000,000
   tokens in all.  Files met again, and files that cannot be read, are free of reads.
   */
  lemma LoadIsSubstitution(world: World, entries: seq<Entry>)
    requires WithinCaps(world, entries)
    ensures var runs := Load(world, entries, START);
            forall i :: 0 <= i < |entries| ==> runs[i].out == Substitute(world, entries[i].site, entries[i].args, 0)
  {
    var runs := Load(world, entries, START);
    forall i | 0 <= i < |entries| ensures runs[i].out == Substitute(world, entries[i].site, entries[i].args, 0) {
      LoadCarries(world, entries, i);
      EntryCarries(world, entries, i);
    }
  }

  // ----- one file, many times -----

  predicate AllAre(keys: seq<Key>, key: Key) {
    forall i :: 0 <= i < |keys| ==> keys[i] == key
  }

  /** References to one file splice its tokens as often as there are references. */
  lemma {:induction false} OneFileSplices(world: World, keys: seq<Key>, key: Key)
    requires AllAre(keys, key)
    ensures Spliced(world, keys) == |keys| * Held(FileTokens(world, key))
    decreases |keys|
  {
    if keys == [] {
    } else {
      OneFileSplices(world, keys[..|keys| - 1], key);
    }
  }

  /** An entry whose references are all one file fits, however many they are, as long as their tokens fit. */
  lemma OneFileFits(world: World, seen: seq<Key>, keys: seq<Key>, key: Key)
    requires AllAre(keys, key)
    ensures Fits(world, seen, keys) <==> |keys| * Held(FileTokens(world, key)) <= 20_000
  {
    OneFileSplices(world, keys, key);
    var files := NewFiles(world, keys, set x | x in seen);
    forall k | k in files ensures k == key {
      var i :| 0 <= i < |keys| && keys[i] == k;
    }
    SmallerSet(files, {key});
    if |keys| * Held(FileTokens(world, key)) <= 20_000 {
      forall i | 0 <= i < |keys| && Readable(world, keys[i]) ensures Spliced(world, keys[..i]) < 20_000 {
        OneFileSplices(world, keys[..i], key);
        FewerCostLess(i, |keys|, Held(FileTokens(world, key)));
      }
    }
  }

  lemma FewerCostLess(i: nat, n: nat, each: nat)
    requires i < n && n * each <= 20_000
    ensures i * each < 20_000
  {
    if each > 0 {
      assert i * each + each == (i + 1) * each <= n * each;
    }
  }

  /**
   A database of one entry whose references are all one file, in however many places: it is
   expanded in full exactly when the file's tokens, as often as they are spliced, fit the
   entry's output budget.  One read serves them all.
   */
  lemma OneFileIsExpanded(world: World, e: Entry, key: Key)
    requires AllAre(ReferencesIn(world, e), key)
    ensures var run, keys := Load(world, [e], START)[0], ReferencesIn(world, e);
            && (run.splices == SpliceCount(world, keys) <==> |keys| * Held(FileTokens(world, key)) <= 20_000)
            && (run.splices == SpliceCount(world, keys) ==> run.out == Substitute(world, e.site, e.args, 0))
  {
    var keys, st := ReferencesIn(world, e), Fresh(START);
    LoadedEntryIsSubstitution(world, [e], 0);
    assert After(START, Load(world, [e], START)[..0]) == START;
    if |keys| * Held(FileTokens(world, key)) <= 20_000 {
      OneFileIsPaid(world, keys, key);
    } else {
      OneFileIsRefused(world, keys, key);
    }
  }

  lemma OneFileIsPaid(world: World, keys: seq<Key>, key: Key)
    requires AllAre(keys, key) && |keys| * Held(FileTokens(world, key)) <= 20_000
    ensures Pays(world, Fresh(START), [], keys)
  {
    OneFileFits(world, [], keys, key);
    assert (set x | x in []) == {} == Fresh(START).cache.Keys;
    KeptAreSpliced(world, keys);
    EnoughPays(world, Fresh(START), keys);
  }

  lemma OneFileIsRefused(world: World, keys: seq<Key>, key: Key)
    requires AllAre(keys, key) && |keys| * Held(FileTokens(world, key)) > 20_000
    ensures !Pays(world, Fresh(START), [], keys)
  {
    var last := |keys| - 1;
    OneFileSplices(world, keys, key);
    CostsOneMore(world, keys[..last], {}, key);
    assert keys[..last] + [key] == keys && [] + keys[..last] == keys[..last];
    assert !PaysAt(world, Fresh(START), [] + keys[..last], keys[last]);
  }
}
