/**
 Expansion of `@response-file` arguments (abicheck/build_context.py): recursive
 substitution under a depth cap, four budgets and a cache that all entries of a
 compilation database share.  The file system is a function from a resolved path to
 the text that may be read there; POSIX splitting is a function of the text.
 */
module ResponseFiles {
  import opened Options
  import opened Ordering
  import WindowsTokenizer

  const MAX_DEPTH := 4
  const MAX_EXPANSIONS := 64
  const MAX_OUTPUT_TOKENS := 20000
  const MAX_DB_OUTPUT_TOKENS := 2_000_000
  const MAX_CACHE_TOKENS := 2_000_000

  /** `readText` includes the trust jail and the byte cap; `shlex` is None on bad quoting. */
  datatype World = World(readText: string -> Option<string>, shlex: string -> Option<seq<string>>)

  /** One entry's working directory, as the paths it resolves, and its driver's quoting style. */
  datatype Site = Site(locate: string -> Option<string>, clStyle: bool)

  type Key = (string, bool)
  type FileCache = map<Key, Option<seq<string>>>

  /** The mutable cells; a database-wide one is None for a caller that does not share it. */
  datatype State = State(fileReads: int, output: int, dbOutput: Option<int>, cacheTokens: Option<int>, cache: FileCache)

  predicate IsResponseFile(arg: string) {
    |arg| > 1 && arg[0] == '@'
  }

  /** A file as one driver's quoting style reads it; None when the argument has no path. */
  function KeyOf(site: Site, arg: string): Option<Key>
    requires arg != ""
  {
    match site.locate(arg[1..])
    case None => None
    case Some(path) => Some((path, site.clStyle))
  }

  predicate Readable(world: World, key: Key) {
    world.readText(key.0).Some?
  }

  function Split(world: World, text: string, clStyle: bool): Option<seq<string>> {
    if clStyle then Some(WindowsTokenizer.Tokenize(text).0) else world.shlex(text)
  }

  /** A file's tokens, or None when there is nothing to splice. */
  function FileTokens(world: World, key: Key): Option<seq<string>> {
    if Readable(world, key) then Split(world, world.readText(key.0).value, key.1) else None
  }

  // ----- one file -----

  function ReadAndTokenize(world: World, path: Option<string>, clStyle: bool, st: State): (Option<seq<string>>, State) {
    if path.None? || world.readText(path.value).None? then (None, st)
    else
      var charged := st.(fileReads := st.fileReads - 1);
      match Split(world, world.readText(path.value).value, clStyle)
      case None => (None, charged)
      case Some(tokens) =>
        if |tokens| > MAX_OUTPUT_TOKENS then (None, charged)
        else if st.cacheTokens.None? then (Some(tokens), charged)
        else if |tokens| > st.cacheTokens.value then (None, charged)
        else (Some(tokens), charged.(cacheTokens := Some(st.cacheTokens.value - |tokens|)))
  }

  predicate ExceedsOutputBudget(tokens: seq<string>, output: int, dbOutput: Option<int>) {
    |tokens| > output || (dbOutput.Some? && |tokens| > dbOutput.value)
  }

  function Affordable(tokens: Option<seq<string>>, st: State): Option<seq<string>> {
    if tokens.None? || ExceedsOutputBudget(tokens.value, st.output, st.dbOutput) then None else tokens
  }

  /** What `_response_file_tokens_for_arg` answers and leaves behind. */
  function TokensForArg(world: World, site: Site, arg: string, st: State): (Option<seq<string>>, State)
    requires arg != ""
  {
    if st.output <= 0 || (st.dbOutput.Some? && st.dbOutput.value <= 0) then (None, st)
    else
      var path := site.locate(arg[1..]);
      if path.Some? && (path.value, site.clStyle) in st.cache then
        (Affordable(st.cache[(path.value, site.clStyle)], st), st)
      else if st.fileReads <= 0 then (None, st)
      else
        var (tokens, read) := ReadAndTokenize(world, path, site.clStyle, st);
        var kept := if path.Some? then read.(cache := read.cache[(path.value, site.clStyle) := tokens]) else read;
        (Affordable(tokens, kept), kept)
  }

  /** The file looked up on disk for one argument, if any: a cache miss with budget left. */
  function LookupForArg(site: Site, arg: string, st: State): seq<Key>
    requires arg != ""
  {
    if st.output <= 0 || (st.dbOutput.Some? && st.dbOutput.value <= 0) then []
    else match KeyOf(site, arg)
      case None => []
      case Some(key) => if key in st.cache || st.fileReads <= 0 then [] else [key]
  }

  function Charge(st: State, tokens: nat): State {
    st.(output := st.output - tokens,
        dbOutput := if st.dbOutput.Some? then Some(st.dbOutput.value - tokens) else None)
  }

  /** The state after a lookup and, if it hands out tokens, after paying for them. */
  function Settled(world: World, site: Site, arg: string, st: State): State
    requires IsResponseFile(arg)
  {
    var (tokens, after) := TokensForArg(world, site, arg, st);
    if tokens.Some? then Charge(after, |tokens.value|) else after
  }

  // ----- the whole call tree -----

  /**
   The expansion, the state after it, the loop iterations of the whole call tree, the
   files spliced in, the tokens that came back unlooked-at from below the depth cap, and
   the files looked up on disk, in order.
   */
  datatype Expansion = Expansion(
    out: seq<string>, st: State, steps: nat, splices: nat, capped: nat, lookups: seq<Key>)

  function Expand(world: World, site: Site, args: seq<string>, depth: nat, st: State): Expansion
    decreases if depth > MAX_DEPTH then 0 else MAX_DEPTH + 1 - depth, |args|, 1
  {
    if depth > MAX_DEPTH then Expansion(args, st, 0, 0, |args|, [])
    else if args == [] then Expansion([], st, 0, 0, 0, [])
    else
      var first := ExpandArg(world, site, args[0], depth, |args|, st);
      var rest := Expand(world, site, args[1..], depth, first.st);
      Expansion(first.out + rest.out, rest.st, first.steps + rest.steps, first.splices + rest.splices,
                first.capped + rest.capped, first.lookups + rest.lookups)
  }

  /** One iteration; `left` only measures the arguments still to come. */
  function ExpandArg(world: World, site: Site, arg: string, depth: nat, left: nat, st: State): Expansion
    requires depth <= MAX_DEPTH
    decreases MAX_DEPTH + 1 - depth, left, 0
  {
    if !IsResponseFile(arg) then Expansion([arg], st, 1, 0, 0, [])
    else
      match TokensForArg(world, site, arg, st)
      case (None, after) => Expansion([arg], after, 1, 0, 0, LookupForArg(site, arg, st))
      case (Some(tokens), after) =>
        var inner := Expand(world, site, tokens, depth + 1, Charge(after, |tokens|));
        Expansion(inner.out, inner.st, inner.steps + 1, inner.splices + 1, inner.capped,
                  LookupForArg(site, arg, st) + inner.lookups)
  }

  // ----- budgets -----

  predicate Solvent(st: State) {
    && st.fileReads >= 0 && st.output >= 0
    && (st.dbOutput.Some? ==> st.dbOutput.value >= 0)
    && (st.cacheTokens.Some? ==> st.cacheTokens.value >= 0)
  }

  /** `b` follows `a`: no budget was refilled and both output budgets paid the same. */
  predicate Spent(a: State, b: State) {
    && b.fileReads <= a.fileReads && b.output <= a.output
    && b.dbOutput.Some? == a.dbOutput.Some? && b.cacheTokens.Some? == a.cacheTokens.Some?
    && (a.dbOutput.Some? ==> a.dbOutput.value - b.dbOutput.value == a.output - b.output)
    && (a.cacheTokens.Some? ==> b.cacheTokens.value <= a.cacheTokens.value)
  }

  lemma TokensForArgSpends(world: World, site: Site, arg: string, st: State)
    requires Solvent(st) && IsResponseFile(arg)
    ensures var (tokens, after) := TokensForArg(world, site, arg, st);
            && Solvent(after) && Spent(st, after) && after.output == st.output
            && (tokens.Some? ==> Solvent(Charge(after, |tokens.value|)))
  {
  }

  /**
   `n` arguments expanded to `r`: each splice replaces one argument by the tokens it charges,
   and every argument or charged token is either looped over once or returned from below the
   depth cap.  No budget goes negative.
   */
  predicate Conserves(st: State, n: nat, r: Expansion) {
    && Solvent(r.st) && Spent(st, r.st)
    && |r.out| + r.splices == n + (st.output - r.st.output)
    && r.steps + r.capped == n + (st.output - r.st.output)
  }

  /** Conservation over the whole call tree. */
  lemma {:induction false} ExpandConserves(world: World, site: Site, args: seq<string>, depth: nat, st: State)
    requires Solvent(st)
    ensures Conserves(st, |args|, Expand(world, site, args, depth, st))
    decreases if depth > MAX_DEPTH then 0 else MAX_DEPTH + 1 - depth, |args|, 1
  {
    if depth > MAX_DEPTH || args == [] {
    } else {
      ExpandArgConserves(world, site, args[0], depth, |args|, st);
      var first := ExpandArg(world, site, args[0], depth, |args|, st);
      ExpandConserves(world, site, args[1..], depth, first.st);
    }
  }

  lemma {:induction false} ExpandArgConserves(world: World, site: Site, arg: string, depth: nat, left: nat, st: State)
    requires Solvent(st) && depth <= MAX_DEPTH
    ensures Conserves(st, 1, ExpandArg(world, site, arg, depth, left, st))
    decreases MAX_DEPTH + 1 - depth, left, 0
  {
    if IsResponseFile(arg) {
      TokensForArgSpends(world, site, arg, st);
      var (tokens, after) := TokensForArg(world, site, arg, st);
      if tokens.Some? {
        var inner := Expand(world, site, tokens.value, depth + 1, Charge(after, |tokens.value|));
        ExpandConserves(world, site, tokens.value, depth + 1, Charge(after, |tokens.value|));
        SpliceConserves(st, after, |tokens.value|, inner, ExpandArg(world, site, arg, depth, left, st));
      }
    }
  }

  lemma SpliceConserves(st: State, after: State, n: nat, inner: Expansion, r: Expansion)
    requires Spent(st, after) && after.output == st.output && Conserves(Charge(after, n), n, inner)
    requires r.out == inner.out && r.st == inner.st
    requires r.steps == inner.steps + 1 && r.splices == inner.splices + 1 && r.capped == inner.capped
    ensures Conserves(st, 1, r)
  {
  }

  // ----- the cache -----

  function Held(entry: Option<seq<string>>): nat {
    if entry.Some? then |entry.value| else 0
  }

  /** The tokens a cache retains. */
  ghost function Retained(cache: FileCache): nat
    decreases |cache|
  {
    if cache == map[] then 0
    else
      var k :| k in cache;
      Held(cache[k]) + Retained(cache - {k})
  }

  lemma {:induction false} RetainedSplit(cache: FileCache, k: Key)
    requires k in cache
    ensures Retained(cache) == Held(cache[k]) + Retained(cache - {k})
    decreases |cache|
  {
    var j :| j in cache && Retained(cache) == Held(cache[j]) + Retained(cache - {j});
    if j == k {
    } else {
      RetainedSplit(cache - {j}, k);
      RetainedSplit(cache - {k}, j);
      assert cache - {j} - {k} == cache - {k} - {j};
    }
  }

  lemma RetainedAdds(cache: FileCache, k: Key, entry: Option<seq<string>>)
    requires k !in cache
    ensures Retained(cache[k := entry]) == Retained(cache) + Held(entry)
  {
    RetainedSplit(cache[k := entry], k);
    assert cache[k := entry] - {k} == cache;
  }

  /** What has been spent of the cache budget is what the cache holds. */
  ghost predicate Balanced(total: int, st: State) {
    st.cacheTokens.Some? && st.cacheTokens.value + Retained(st.cache) == total
  }

  /**
   A kept token list is the file's own; a kept rejection is what reading the file
   again under the present budgets would give.
   */
  ghost predicate Coherent(world: World, st: State) {
    forall k :: k in st.cache ==> ReadAgrees(world, k, st)
  }

  ghost predicate ReadAgrees(world: World, k: Key, st: State)
    requires k in st.cache
  {
    match st.cache[k]
    case Some(tokens) =>
      FileTokens(world, k) == Some(tokens)
    case None => ReadAndTokenize(world, Some(k.0), k.1, st).0 == None
  }

  lemma CoherentAfterCharge(world: World, st: State, n: nat)
    requires Coherent(world, st)
    ensures Coherent(world, Charge(st, n))
  {
  }

  lemma TokensForArgBalances(world: World, site: Site, arg: string, st: State, total: int)
    requires IsResponseFile(arg) && Balanced(total, st)
    ensures var (tokens, after) := TokensForArg(world, site, arg, st);
            Balanced(total, after) && (tokens.Some? ==> Balanced(total, Charge(after, |tokens.value|)))
  {
    var after := TokensForArg(world, site, arg, st).1;
    var path := site.locate(arg[1..]);
    if after.cache != st.cache {
      RetainedAdds(st.cache, (path.value, site.clStyle), after.cache[(path.value, site.clStyle)]);
    }
  }

  lemma TokensForArgCoheres(world: World, site: Site, arg: string, st: State)
    requires IsResponseFile(arg) && Coherent(world, st)
    ensures var (tokens, after) := TokensForArg(world, site, arg, st);
            Coherent(world, after) && (tokens.Some? ==> Coherent(world, Charge(after, |tokens.value|)))
  {
    var (tokens, after) := TokensForArg(world, site, arg, st);
    forall k | k in after.cache ensures ReadAgrees(world, k, after) {
      if k in st.cache {
        assert ReadAgrees(world, k, st);
      }
    }
    if tokens.Some? {
      CoherentAfterCharge(world, after, |tokens.value|);
    }
  }

  /** Expansion keeps the books balanced and never lets a cached rejection go stale. */
  lemma {:induction false} ExpandKeepsCache(world: World, site: Site, args: seq<string>, depth: nat, st: State,
                                            total: int)
    requires Coherent(world, st)
    ensures var r := Expand(world, site, args, depth, st);
            Coherent(world, r.st) && (Balanced(total, st) ==> Balanced(total, r.st))
    decreases if depth > MAX_DEPTH then 0 else MAX_DEPTH + 1 - depth, |args|, 1
  {
    if depth > MAX_DEPTH || args == [] {
    } else {
      ExpandArgKeepsCache(world, site, args[0], depth, |args|, st, total);
      var first := ExpandArg(world, site, args[0], depth, |args|, st);
      ExpandKeepsCache(world, site, args[1..], depth, first.st, total);
    }
  }

  lemma {:induction false} ExpandArgKeepsCache(world: World, site: Site, arg: string, depth: nat, left: nat, st: State,
                                               total: int)
    requires Coherent(world, st) && depth <= MAX_DEPTH
    ensures var r := ExpandArg(world, site, arg, depth, left, st);
            Coherent(world, r.st) && (Balanced(total, st) ==> Balanced(total, r.st))
    decreases MAX_DEPTH + 1 - depth, left, 0
  {
    if IsResponseFile(arg) {
      TokensForArgCoheres(world, site, arg, st);
      if Balanced(total, st) {
        TokensForArgBalances(world, site, arg, st, total);
      }
      var (tokens, after) := TokensForArg(world, site, arg, st);
      if tokens.Some? {
        ExpandKeepsCache(world, site, tokens.value, depth + 1, Charge(after, |tokens.value|), total);
      }
    }
  }

  // ----- reads -----

  function ReadableAmong(world: World, keys: seq<Key>): set<Key> {
    set k | k in keys && Readable(world, k)
  }

  /**
   From `a` to `b` the files in `lookups` were looked up on disk, each once, none of them
   cached before and all of them afterwards, and nothing else happened to the cache.
   */
  ghost predicate LookedUpOnce(a: State, lookups: seq<Key>, b: State) {
    && Distinct(lookups)
    && (forall k :: k in lookups ==> k !in a.cache)
    && (forall k :: k in a.cache ==> k in b.cache && b.cache[k] == a.cache[k])
    && (forall k :: k in b.cache ==> k in a.cache || k in lookups)
    && (forall k :: k in lookups ==> k in b.cache)
  }

  /** The read budget paid for the readable files among those looked up. */
  predicate PaysReads(world: World, a: State, lookups: seq<Key>, b: State) {
    a.fileReads - b.fileReads == |ReadableAmong(world, lookups)|
  }

  lemma LookedUpInTurn(a: State, r: seq<Key>, b: State, q: seq<Key>, c: State)
    requires LookedUpOnce(a, r, b) && LookedUpOnce(b, q, c)
    ensures LookedUpOnce(a, r + q, c)
  {
    DistinctAppend(r, q);
  }

  lemma PaysInTurn(world: World, a: State, r: seq<Key>, b: State, q: seq<Key>, c: State)
    requires PaysReads(world, a, r, b) && PaysReads(world, b, q, c)
    requires forall k :: k in q ==> k !in r
    ensures PaysReads(world, a, r + q, c)
  {
    assert ReadableAmong(world, r + q) == ReadableAmong(world, r) + ReadableAmong(world, q);
    assert ReadableAmong(world, r) !! ReadableAmong(world, q);
  }

  /** An expansion looks up what it reads, once, and pays for it. */
  ghost predicate ReadsOnce(world: World, st: State, lookups: seq<Key>, after: State) {
    LookedUpOnce(st, lookups, after) && PaysReads(world, st, lookups, after)
  }

  lemma ReadsInTurn(world: World, a: State, r: seq<Key>, b: State, q: seq<Key>, c: State)
    requires ReadsOnce(world, a, r, b) && ReadsOnce(world, b, q, c)
    ensures ReadsOnce(world, a, r + q, c)
  {
    LookedUpInTurn(a, r, b, q, c);
    PaysInTurn(world, a, r, b, q, c);
  }

  lemma NothingRead(world: World, st: State)
    ensures ReadsOnce(world, st, [], st)
  {
    assert ReadableAmong(world, []) == {};
  }

  lemma TokensForArgReadsOnce(world: World, site: Site, arg: string, st: State)
    requires IsResponseFile(arg)
    ensures ReadsOnce(world, st, LookupForArg(site, arg, st), Settled(world, site, arg, st))
  {
    var lookups := LookupForArg(site, arg, st);
    if lookups == [] {
      NothingRead(world, st);
    } else {
      assert ReadableAmong(world, lookups) == if Readable(world, lookups[0]) then {lookups[0]} else {};
    }
  }

  /** Over the whole call tree no file is looked up twice, and none that was cached before. */
  lemma {:induction false} ExpandReadsOnce(world: World, site: Site, args: seq<string>, depth: nat, st: State)
    ensures var r := Expand(world, site, args, depth, st); ReadsOnce(world, st, r.lookups, r.st)
    decreases if depth > MAX_DEPTH then 0 else MAX_DEPTH + 1 - depth, |args|, 1
  {
    if depth > MAX_DEPTH || args == [] {
      NothingRead(world, st);
    } else {
      ExpandArgReadsOnce(world, site, args[0], depth, |args|, st);
      var first := ExpandArg(world, site, args[0], depth, |args|, st);
      ExpandReadsOnce(world, site, args[1..], depth, first.st);
      var rest := Expand(world, site, args[1..], depth, first.st);
      ReadsInTurn(world, st, first.lookups, first.st, rest.lookups, rest.st);
    }
  }

  lemma {:induction false} ExpandArgReadsOnce(world: World, site: Site, arg: string, depth: nat, left: nat, st: State)
    requires depth <= MAX_DEPTH
    ensures var r := ExpandArg(world, site, arg, depth, left, st); ReadsOnce(world, st, r.lookups, r.st)
    decreases MAX_DEPTH + 1 - depth, left, 0
  {
    if !IsResponseFile(arg) {
      NothingRead(world, st);
    } else {
      TokensForArgReadsOnce(world, site, arg, st);
      var tokens := TokensForArg(world, site, arg, st).0;
      if tokens.Some? {
        var inner := Expand(world, site, tokens.value, depth + 1, Settled(world, site, arg, st));
        ExpandReadsOnce(world, site, tokens.value, depth + 1, Settled(world, site, arg, st));
        SpliceReadsOnce(world, st, LookupForArg(site, arg, st), Settled(world, site, arg, st), inner,
                        ExpandArg(world, site, arg, depth, left, st));
      }
    }
  }

  lemma SpliceReadsOnce(world: World, st: State, lookups: seq<Key>, charged: State, inner: Expansion, r: Expansion)
    requires ReadsOnce(world, st, lookups, charged) && ReadsOnce(world, charged, inner.lookups, inner.st)
    requires r.lookups == lookups + inner.lookups && r.st == inner.st
    ensures ReadsOnce(world, st, r.lookups, r.st)
  {
    ReadsInTurn(world, st, lookups, charged, inner.lookups, inner.st);
  }

  // ----- the database -----

  datatype Entry = Entry(args: seq<string>, site: Site)

  /** A top-level call starts with its own read and output budgets. */
  function Fresh(st: State): State {
    st.(fileReads := MAX_EXPANSIONS, output := MAX_OUTPUT_TOKENS)
  }

  /** Each entry's expansion, from the state the entries before it left. */
  function Load(world: World, entries: seq<Entry>, st: State): (runs: seq<Expansion>)
    ensures |runs| == |entries|
  {
    if entries == [] then []
    else
      var first := Expand(world, entries[0].site, entries[0].args, 0, Fresh(st));
      [first] + Load(world, entries[1..], first.st)
  }

  function After(st: State, runs: seq<Expansion>): State {
    if runs == [] then st else runs[|runs| - 1].st
  }

  lemma {:induction false} LoadRuns(world: World, entries: seq<Entry>, st: State, i: nat)
    requires i < |entries|
    ensures var runs := Load(world, entries, st);
            runs[i] == Expand(world, entries[i].site, entries[i].args, 0, Fresh(After(st, runs[..i])))
  {
    var runs := Load(world, entries, st);
    if i == 0 {
    } else {
      LoadRuns(world, entries[1..], runs[0].st, i - 1);
      assert runs[1..][..i - 1] == runs[1..i] && runs[..i][|runs[..i]| - 1] == runs[i - 1];
      assert After(runs[0].st, runs[1..i]) == After(st, runs[..i]);
    }
  }

  function Sum(runs: seq<Expansion>, amount: Expansion -> nat): nat {
    if runs == [] then 0 else amount(runs[0]) + Sum(runs[1..], amount)
  }

  function OutLength(r: Expansion): nat { |r.out| }
  function Steps(r: Expansion): nat { r.steps }
  function Splices(r: Expansion): nat { r.splices }
  function Capped(r: Expansion): nat { r.capped }

  function AllLookups(runs: seq<Expansion>): seq<Key> {
    if runs == [] then [] else runs[0].lookups + AllLookups(runs[1..])
  }

  function RawLength(entries: seq<Entry>): nat {
    if entries == [] then 0 else |entries[0].args| + RawLength(entries[1..])
  }

  const START := State(0, 0, Some(MAX_DB_OUTPUT_TOKENS), Some(MAX_CACHE_TOKENS), map[])

  /** What the entry loop keeps: solvent, balanced books and a coherent cache. */
  ghost predicate InOrder(world: World, st: State) {
    Solvent(st) && st.dbOutput.Some? && Balanced(MAX_CACHE_TOKENS, st) && Coherent(world, st)
  }

  /** One entry's share of the equations: nothing is lost or gained but what it charges, within its caps. */
  ghost predicate Accounted(world: World, e: Entry, r: Expansion) {
    && 0 <= r.st.output <= 20_000
    && |r.out| + r.splices == |e.args| + (20_000 - r.st.output)
    && r.steps + r.capped == |e.args| + (20_000 - r.st.output)
    && |ReadableAmong(world, r.lookups)| <= 64
  }

  lemma EntryIsAccounted(world: World, e: Entry, st: State)
    requires InOrder(world, st)
    ensures var r := Expand(world, e.site, e.args, 0, Fresh(st));
            && InOrder(world, r.st) && Accounted(world, e, r)
            && st.dbOutput.value - r.st.dbOutput.value == MAX_OUTPUT_TOKENS - r.st.output
  {
    FreshStaysCoherent(world, st);
    ExpandConserves(world, e.site, e.args, 0, Fresh(st));
    ExpandKeepsCache(world, e.site, e.args, 0, Fresh(st), MAX_CACHE_TOKENS);
    ExpandReadsOnce(world, e.site, e.args, 0, Fresh(st));
  }

  lemma FreshStaysCoherent(world: World, st: State)
    requires Coherent(world, st)
    ensures Coherent(world, Fresh(st))
  {
    forall k | k in st.cache ensures ReadAgrees(world, k, Fresh(st)) {
      assert ReadAgrees(world, k, st);
    }
  }

  /** The conservation equations, summed over a database. */
  ghost predicate Totalled(world: World, entries: seq<Entry>, st: State, runs: seq<Expansion>) {
    && |runs| == |entries|
    && InOrder(world, st) && InOrder(world, After(st, runs))
    && Sum(runs, OutLength) + Sum(runs, Splices)
       == RawLength(entries) + (st.dbOutput.value - After(st, runs).dbOutput.value)
    && Sum(runs, Steps) + Sum(runs, Capped)
       == RawLength(entries) + (st.dbOutput.value - After(st, runs).dbOutput.value)
    && (forall i :: 0 <= i < |entries| ==> Accounted(world, entries[i], runs[i]))
  }

  lemma TotalsAdd(world: World, e: Entry, entries: seq<Entry>, st: State, r: Expansion, runs: seq<Expansion>)
    requires InOrder(world, st) && Accounted(world, e, r) && Totalled(world, entries, r.st, runs)
    requires st.dbOutput.value - r.st.dbOutput.value == MAX_OUTPUT_TOKENS - r.st.output
    ensures Totalled(world, [e] + entries, st, [r] + runs)
  {
    assert ([r] + runs)[1..] == runs && ([e] + entries)[1..] == entries;
    assert After(st, [r] + runs) == After(r.st, runs);
    forall i | 0 <= i < |[e] + entries| ensures Accounted(world, ([e] + entries)[i], ([r] + runs)[i]) {
      if i > 0 { assert Accounted(world, entries[i - 1], runs[i - 1]); }
    }
  }

  lemma {:induction false} LoadConserves(world: World, entries: seq<Entry>, st: State)
    requires InOrder(world, st)
    ensures Totalled(world, entries, st, Load(world, entries, st))
    decreases |entries|
  {
    if entries == [] {
    } else {
      EntryIsAccounted(world, entries[0], st);
      var first := Expand(world, entries[0].site, entries[0].args, 0, Fresh(st));
      LoadConserves(world, entries[1..], first.st);
      TotalsAdd(world, entries[0], entries[1..], st, first, Load(world, entries[1..], first.st));
      assert [entries[0]] + entries[1..] == entries;
    }
  }

  /** Over a whole database, too, no file is looked up twice. */
  lemma {:induction false} LoadReadsOnce(world: World, entries: seq<Entry>, st: State)
    ensures var runs := Load(world, entries, st); LookedUpOnce(st, AllLookups(runs), After(st, runs))
    decreases |entries|
  {
    if entries == [] {
    } else {
      var first := Expand(world, entries[0].site, entries[0].args, 0, Fresh(st));
      var rest := Load(world, entries[1..], first.st);
      ExpandReadsOnce(world, entries[0].site, entries[0].args, 0, Fresh(st));
      LoadReadsOnce(world, entries[1..], first.st);
      assert Load(world, entries, st) == [first] + rest && ([first] + rest)[1..] == rest;
      assert After(st, [first] + rest) == After(first.st, rest);
      LookedUpInTurn(st, first.lookups, first.st, AllLookups(rest), After(first.st, rest));
    }
  }

  /**
   The promised caps, for every database on every file system: each entry charges at most
   20,000 tokens and reads at most 64 files; the database charges at most 2,000,000 tokens,
   which bounds output and loop iterations, and caches at most 2,000,000; and over the whole
   database no file is looked up on disk twice in the same quoting style.
   */
  lemma LoadIsBounded(world: World, entries: seq<Entry>)
    ensures var runs := Load(world, entries, START);
            && Sum(runs, OutLength) <= RawLength(entries) + 2_000_000
            && Sum(runs, Steps) <= RawLength(entries) + 2_000_000
            && (forall i :: 0 <= i < |entries| ==>
                  && |runs[i].out| <= |entries[i].args| + 20_000
                  && runs[i].steps <= |entries[i].args| + 20_000
                  && |ReadableAmong(world, runs[i].lookups)| <= 64)
            && Retained(After(START, runs).cache) <= 2_000_000
            && Distinct(AllLookups(runs))
            && Elements(AllLookups(runs)) == After(START, runs).cache.Keys
  {
    LoadConserves(world, entries, START);
    LoadReadsOnce(world, entries, START);
    var runs := Load(world, entries, START);
    forall i | 0 <= i < |entries|
      ensures |runs[i].out| <= |entries[i].args| + 20_000
              && runs[i].steps <= |entries[i].args| + 20_000
              && |ReadableAmong(world, runs[i].lookups)| <= 64
    {
      assert Accounted(world, entries[i], runs[i]);
    }
  }

  // ----- the methods -----

  class Expander {
    const world: World
    var fileReads: int
    var output: int
    var dbOutput: Option<int>
    var cacheTokens: Option<int>
    var cache: FileCache
    ghost var log: seq<Key>  // the files looked up on disk, in order

    ghost function View(): State
      reads this
    {
      State(fileReads, output, dbOutput, cacheTokens, cache)
    }

    constructor (world: World)
      ensures this.world == world && View() == START && log == []
    {
      this.world := world;
      fileReads, output := 0, 0;
      dbOutput, cacheTokens := Some(MAX_DB_OUTPUT_TOKENS), Some(MAX_CACHE_TOKENS);
      cache := map[];
      log := [];
    }

    method ReadAndTokenizeFile(path: Option<string>, clStyle: bool) returns (tokens: Option<seq<string>>)
      modifies this
      ensures (tokens, View()) == ReadAndTokenize(world, path, clStyle, old(View()))
      ensures tokens.Some? ==>
                && path.Some? && world.readText(path.value).Some? && |tokens.value| <= 20_000
                && var text := world.readText(path.value).value;
                   tokens == if clStyle then Some(WindowsTokenizer.Tokenize(text).0) else world.shlex(text)
      ensures log == old(log) + if path.Some? then [(path.value, clStyle)] else []
    {
      if path.Some? {
        log := log + [(path.value, clStyle)];
      }
      if path.None? || world.readText(path.value).None? {
        return None;
      }
      var text := world.readText(path.value).value;
      fileReads := fileReads - 1;
      tokens := Split(world, text, clStyle);
      if tokens.None? || |tokens.value| > MAX_OUTPUT_TOKENS {
        return None;
      }
      if cacheTokens.Some? {
        if |tokens.value| > cacheTokens.value {
          return None;
        }
        cacheTokens := Some(cacheTokens.value - |tokens.value|);
      }
    }

    method TokensFor(site: Site, arg: string) returns (tokens: Option<seq<string>>)
      requires arg != ""
      modifies this
      ensures (tokens, View()) == TokensForArg(world, site, arg, old(View()))
      ensures log == old(log) + LookupForArg(site, arg, old(View()))
    {
      if output <= 0 || (dbOutput.Some? && dbOutput.value <= 0) {
        return None;
      }
      var path := site.locate(arg[1..]);
      if path.Some? && (path.value, site.clStyle) in cache {
        tokens := cache[(path.value, site.clStyle)];
      } else if fileReads <= 0 {
        return None;
      } else {
        tokens := ReadAndTokenizeFile(path, site.clStyle);
        if path.Some? {
          cache := cache[(path.value, site.clStyle) := tokens];
        }
      }
      if tokens.None? || ExceedsOutputBudget(tokens.value, output, dbOutput) {
        return None;
      }
    }

    method ExpandArguments(site: Site, args: seq<string>, depth: nat) returns (expanded: seq<string>, ghost steps: nat)
      modifies this
      ensures Expanded(Expand(world, site, args, depth, old(View())), expanded, View(), steps, old(log), log)
      decreases if depth > MAX_DEPTH then 0 else MAX_DEPTH + 1 - depth, |args|, 1
    {
      if depth > MAX_DEPTH {
        return args, 0;
      }
      expanded, steps := [], 0;
      ghost var whole, before := Expand(world, site, args, depth, View()), log;
      assert args[0..] == args;
      for i := 0 to |args|
        invariant Ahead(world, site, args, depth, i, whole, expanded, View(), steps, before, log)
      {
        AheadStep(world, site, args, depth, i, whole, expanded, View(), steps, before, log);
        ghost var more: nat;
        var out;
        out, more := ExpandOne(site, args[i], depth, |args| - i);
        expanded := expanded + out;
        steps := steps + more;
      }
    }

    /** The loop body. */
    method ExpandOne(site: Site, arg: string, depth: nat, ghost left: nat) returns (out: seq<string>, ghost steps: nat)
      requires depth <= MAX_DEPTH
      modifies this
      ensures Expanded(ExpandArg(world, site, arg, depth, left, old(View())), out, View(), steps, old(log), log)
      decreases MAX_DEPTH + 1 - depth, left, 0
    {
      if !IsResponseFile(arg) {
        return [arg], 1;
      }
      ghost var before := View();
      var tokens := TokensFor(site, arg);
      if tokens.None? {
        return [arg], 1;
      }
      output := output - |tokens.value|;
      if dbOutput.Some? {
        dbOutput := Some(dbOutput.value - |tokens.value|);
      }
      assert View() == Charge(TokensForArg(world, site, arg, before).1, |tokens.value|);
      out, steps := ExpandArguments(site, tokens.value, depth + 1);
      steps := steps + 1;
    }

    /** The entry loop of `load_compile_db`, over entries already parsed. */
    method LoadEntries(entries: seq<Entry>) returns (outs: seq<seq<string>>, ghost runs: seq<Expansion>)
      modifies this
      ensures runs == Load(world, entries, old(View()))
      ensures |outs| == |runs| && forall i :: 0 <= i < |runs| ==> outs[i] == runs[i].out
      ensures View() == After(old(View()), runs)
      ensures log == old(log) + AllLookups(runs)
    {
      outs, runs := [], [];
      ghost var whole, start, before := Load(world, entries, View()), View(), log;
      assert entries[0..] == entries;
      for i := 0 to |entries|
        invariant Loading(world, entries, i, whole, runs, outs, start, View(), before, log)
      {
        LoadingStep(world, entries, i, whole, runs, outs, start, View(), before, log);
        ghost var run := Expand(world, entries[i].site, entries[i].args, 0, Fresh(View()));
        fileReads, output := MAX_EXPANSIONS, MAX_OUTPUT_TOKENS;
        ghost var steps: nat;
        var out;
        out, steps := ExpandArguments(entries[i].site, entries[i].args, 0);
        outs := outs + [out];
        runs := runs + [run];
      }
    }
  }

  /** After `i` entries: what is done, and what loading the rest will give, make up the whole. */
  ghost predicate Loading(world: World, entries: seq<Entry>, i: nat, whole: seq<Expansion>, runs: seq<Expansion>,
                          outs: seq<seq<string>>, start: State, st: State, before: seq<Key>, log: seq<Key>)
  {
    && i <= |entries| && |outs| == |runs| == i
    && (forall k :: 0 <= k < i ==> outs[k] == runs[k].out)
    && st == After(start, runs)
    && whole == runs + Load(world, entries[i..], st)
    && log == before + AllLookups(runs)
  }

  lemma LoadingStep(world: World, entries: seq<Entry>, i: nat, whole: seq<Expansion>, runs: seq<Expansion>,
                    outs: seq<seq<string>>, start: State, st: State, before: seq<Key>, log: seq<Key>)
    requires Loading(world, entries, i, whole, runs, outs, start, st, before, log) && i < |entries|
    ensures var run := Expand(world, entries[i].site, entries[i].args, 0, Fresh(st));
            Loading(world, entries, i + 1, whole, runs + [run], outs + [run.out], start, run.st, before,
                    log + run.lookups)
  {
    var run := Expand(world, entries[i].site, entries[i].args, 0, Fresh(st));
    assert entries[i..][0] == entries[i] && entries[i..][1..] == entries[i + 1..];
    assert runs + ([run] + Load(world, entries[i + 1..], run.st))
           == runs + [run] + Load(world, entries[i + 1..], run.st);
    AllLookupsAppend(runs, run);
    assert before + (AllLookups(runs) + run.lookups) == before + AllLookups(runs) + run.lookups;
  }

  lemma {:induction false} AllLookupsAppend(runs: seq<Expansion>, run: Expansion)
    ensures AllLookups(runs + [run]) == AllLookups(runs) + run.lookups
  {
    if runs == [] {
      assert AllLookups([run]) == run.lookups + AllLookups([]);
    } else {
      AllLookupsAppend(runs[1..], run);
      assert (runs + [run])[1..] == runs[1..] + [run];
    }
  }

  ghost predicate Expanded(r: Expansion, out: seq<string>, st: State, steps: nat, before: seq<Key>, log: seq<Key>) {
    r.out == out && r.st == st && r.steps == steps && log == before + r.lookups
  }

  /** After `i` arguments, what is done and what expanding the rest will give make up the whole. */
  ghost predicate Ahead(world: World, site: Site, args: seq<string>, depth: nat, i: nat, whole: Expansion,
                        out: seq<string>, st: State, steps: nat, before: seq<Key>, log: seq<Key>)
  {
    i <= |args| && var rest := Expand(world, site, args[i..], depth, st);
                   Expanded(whole, out + rest.out, rest.st, steps + rest.steps, before, log + rest.lookups)
  }

  lemma AheadStep(world: World, site: Site, args: seq<string>, depth: nat, i: nat, whole: Expansion, out: seq<string>,
                  st: State, steps: nat, before: seq<Key>, log: seq<Key>)
    requires Ahead(world, site, args, depth, i, whole, out, st, steps, before, log) && i < |args| && depth <= MAX_DEPTH
    ensures var first := ExpandArg(world, site, args[i], depth, |args| - i, st);
            Ahead(world, site, args, depth, i + 1, whole, out + first.out, first.st, steps + first.steps, before,
                  log + first.lookups)
  {
    assert args[i..][0] == args[i] && args[i..][1..] == args[i + 1..];
    var first := ExpandArg(world, site, args[i], depth, |args| - i, st);
    var rest := Expand(world, site, args[i + 1..], depth, first.st);
    assert out + (first.out + rest.out) == out + first.out + rest.out;
    assert log + (first.lookups + rest.lookups) == log + first.lookups + rest.lookups;
  }
}
