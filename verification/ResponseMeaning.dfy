/**
 What response-file expansion (abicheck/build_context.py) does, said of the text in the files:
 a reference to a file of spelled arguments is replaced by those arguments, in the quoting
 style of the driver, four levels of inclusion are followed, and nothing else changes.
*/
module ResponseMeaning {
  import opened Options
  import opened Ordering
  import opened ResponseFiles
  import opened ResponseSubstitution
  import WindowsTokenizer

  // ----- references -----

  /** No argument is `@` and something more. */
  predicate NoReferences(args: seq<string>) {
    forall i :: 0 <= i < |args| ==> |args[i]| <= 1 || args[i][0] != '@'
  }

  /** `arg` names a file that holds `text`. */
  predicate Refers(world: World, site: Site, arg: string, path: string, text: string) {
    |arg| > 1 && arg[0] == '@' && site.locate(arg[1..]) == Some(path) && world.readText(path) == Some(text)
  }

  /** `text` holds `args`, as the quoting style of the driver reads it. */
  ghost predicate Holds(world: World, site: Site, text: string, args: seq<string>) {
    if site.clStyle then exists forms :: HoldsForms(text, forms, args) else world.shlex(text) == Some(args)
  }

  /** Each argument in one of its Windows spellings, separated by blanks. */
  ghost predicate HoldsForms(text: string, forms: seq<string>, args: seq<string>) {
    && |forms| == |args| && text == WindowsTokenizer.Join(forms)
    && forall i :: 0 <= i < |args| ==> WindowsTokenizer.Spells(forms[i], args[i])
  }

  /** There is no file at the path, none that may be read, or its quoting is bad. */
  ghost predicate Unusable(world: World, site: Site, arg: string)
    requires arg != ""
  {
    match site.locate(arg[1..])
    case None => true
    case Some(path) =>
      match world.readText(path)
      case None => true
      case Some(text) => !site.clStyle && world.shlex(text) == None
  }

  /** The budgets allow `n` tokens more, from a file that is cached or may still be read and kept. */
  predicate Affords(st: State, key: Key, n: nat) {
    && st.output >= 1 && st.output >= n
    && (st.dbOutput.Some? ==> st.dbOutput.value >= 1 && st.dbOutput.value >= n)
    && (key in st.cache ==> st.cache[key].Some?)
    && (key !in st.cache ==>
          st.fileReads >= 1 && n <= 20_000 && (st.cacheTokens.Some? ==> st.cacheTokens.value >= n))
  }

  lemma TextIsRead(world: World, site: Site, arg: string, path: string, text: string, args: seq<string>)
    requires Refers(world, site, arg, path, text) && Holds(world, site, text, args)
    ensures IsResponseFile(arg) && KeyOf(site, arg) == Some((path, site.clStyle))
    ensures FileTokens(world, (path, site.clStyle)) == Some(args)
  {
    if site.clStyle {
      var forms :| HoldsForms(text, forms, args);
      WindowsTokenizer.RoundTrip(args, forms);
    }
  }

  // ----- expansion -----

  lemma {:induction false} ExpandAppend(world: World, site: Site, a: seq<string>, b: seq<string>, depth: nat, st: State)
    requires depth <= MAX_DEPTH
    ensures var first := Expand(world, site, a, depth, st);
            Expand(world, site, a + b, depth, st).out == first.out + Expand(world, site, b, depth, first.st).out
    decreases |a|
  {
    if a == [] {
      assert a + b == b;
    } else {
      assert (a + b)[0] == a[0] && (a + b)[1..] == a[1..] + b;
      ArgAlone(world, site, a[0], depth, |a + b|, |a|, st);
      var one := ExpandArg(world, site, a[0], depth, |a|, st);
      ExpandAppend(world, site, a[1..], b, depth, one.st);
    }
  }

  /** How many arguments are still to come does not matter to one. */
  lemma ArgAlone(world: World, site: Site, arg: string, depth: nat, left: nat, other: nat, st: State)
    requires depth <= MAX_DEPTH
    ensures ExpandArg(world, site, arg, depth, left, st) == ExpandArg(world, site, arg, depth, other, st)
  {
  }

  lemma {:induction false} OthersStay(world: World, site: Site, args: seq<string>, depth: nat, st: State)
    requires NoReferences(args)
    ensures Expand(world, site, args, depth, st).out == args && Expand(world, site, args, depth, st).st == st
    decreases |args|
  {
    if args == [] || depth > MAX_DEPTH {
    } else {
      OthersStay(world, site, args[1..], depth, st);
      assert args == [args[0]] + args[1..];
    }
  }

  lemma OneAlone(world: World, site: Site, arg: string, st: State)
    ensures Expand(world, site, [arg], 0, st).out == ExpandArg(world, site, arg, 0, 1, st).out
    ensures Expand(world, site, [arg], 0, st).st == ExpandArg(world, site, arg, 0, 1, st).st
  {
    assert [arg][1..] == [];
  }

  /** One argument between others that are no references. */
  lemma Between(world: World, site: Site, pre: seq<string>, arg: string, post: seq<string>, st: State)
    requires NoReferences(pre) && NoReferences(post)
    ensures Expand(world, site, pre + [arg] + post, 0, st).out
         == pre + ExpandArg(world, site, arg, 0, 1, st).out + post
  {
    OneAlone(world, site, arg, st);
    OthersStay(world, site, pre, 0, st);
    ExpandAppend(world, site, pre, [arg], 0, st);
    ExpandAppend(world, site, pre + [arg], post, 0, st);
    OthersStay(world, site, post, 0, Expand(world, site, pre + [arg], 0, st).st);
  }

  /**
   A reference to a file that holds arguments, none of them a reference, is replaced by exactly
   those arguments if the budgets afford them, and stays if they do not.
   */
  lemma ReferenceIsReplaced(world: World, site: Site, pre: seq<string>, arg: string, post: seq<string>, path: string,
                            text: string, args: seq<string>, st: State)
    requires NoReferences(pre) && NoReferences(post) && NoReferences(args)
    requires Refers(world, site, arg, path, text) && Holds(world, site, text, args) && Coherent(world, st)
    ensures Expand(world, site, pre + [arg] + post, 0, st).out
         == pre + (if Affords(st, (path, site.clStyle), |args|) then args else [arg]) + post
  {
    Between(world, site, pre, arg, post, st);
    TextIsRead(world, site, arg, path, text, args);
    LookupAffords(world, site, arg, (path, site.clStyle), args, st);
    var (tokens, after) := TokensForArg(world, site, arg, st);
    if tokens.Some? {
      OthersStay(world, site, args, 1, Charge(after, |args|));
    }
  }

  lemma LookupAffords(world: World, site: Site, arg: string, key: Key, args: seq<string>, st: State)
    requires IsResponseFile(arg) && KeyOf(site, arg) == Some(key) && Coherent(world, st)
    requires FileTokens(world, key) == Some(args)
    ensures TokensForArg(world, site, arg, st).0 == if Affords(st, key, |args|) then Some(args) else None
  {
    if key in st.cache {
      assert ReadAgrees(world, key, st);
    }
  }

  /** A reference to nothing usable stays, whatever the budgets and the cache. */
  lemma UnusableStays(world: World, site: Site, pre: seq<string>, arg: string, post: seq<string>, st: State)
    requires NoReferences(pre) && NoReferences(post) && Coherent(world, st)
    requires |arg| > 1 && arg[0] == '@' && Unusable(world, site, arg)
    ensures Expand(world, site, pre + [arg] + post, 0, st).out == pre + [arg] + post
  {
    Between(world, site, pre, arg, post, st);
    if site.locate(arg[1..]).Some? && (site.locate(arg[1..]).value, site.clStyle) in st.cache {
      assert ReadAgrees(world, (site.locate(arg[1..]).value, site.clStyle), st);
    }
  }

  /** In a database of one entry: up to 20,000 arguments are spliced in, more are refused. */
  lemma OneReference(world: World, site: Site, pre: seq<string>, arg: string, post: seq<string>, path: string,
                     text: string, args: seq<string>)
    requires NoReferences(pre) && NoReferences(post) && NoReferences(args)
    requires Refers(world, site, arg, path, text) && Holds(world, site, text, args)
    ensures Load(world, [Entry(pre + [arg] + post, site)], START)[0].out
         == pre + (if |args| <= 20_000 then args else [arg]) + post
  {
    assert Coherent(world, Fresh(START));
    ReferenceIsReplaced(world, site, pre, arg, post, path, text, args, Fresh(START));
  }

  // ----- files within files -----

  lemma {:induction false} SubstituteAppend(world: World, site: Site, a: seq<string>, b: seq<string>, depth: nat)
    ensures Substitute(world, site, a + b, depth)
         == Substitute(world, site, a, depth) + Substitute(world, site, b, depth)
    decreases |a|
  {
    if a == [] || depth > MAX_DEPTH {
      assert a == [] ==> a + b == b;
    } else {
      assert (a + b)[0] == a[0] && (a + b)[1..] == a[1..] + b;
      SubstituteAppend(world, site, a[1..], b, depth);
    }
  }

  /** Substitution goes through the references of an argument list one by one. */
  lemma SubstituteAround(world: World, site: Site, pre: seq<string>, arg: string, depth: nat)
    requires NoReferences(pre)
    ensures Substitute(world, site, pre + [arg], depth) == pre + Substitute(world, site, [arg], depth)
  {
    SubstituteAppend(world, site, pre, [arg], depth);
    SubstituteKeeps(world, site, pre, depth);
  }

  lemma {:induction false} SubstituteKeeps(world: World, site: Site, args: seq<string>, depth: nat)
    requires NoReferences(args) || depth >= 5
    ensures Substitute(world, site, args, depth) == args
    decreases |args|
  {
    if args == [] || depth > MAX_DEPTH {
    } else {
      SubstituteKeeps(world, site, args[1..], depth);
      assert args == [args[0]] + args[1..];
    }
  }

  /** A reference met by the entry or by a file up to four inclusions deep stands for what its file holds. */
  lemma SubstituteFollows(world: World, site: Site, arg: string, path: string, text: string, args: seq<string>,
                          depth: nat)
    requires Refers(world, site, arg, path, text) && Holds(world, site, text, args) && depth <= 4
    ensures Substitute(world, site, [arg], depth) == Substitute(world, site, args, depth + 1)
    ensures References(world, site, [arg], depth)
         == [(path, site.clStyle)] + References(world, site, args, depth + 1)
  {
    TextIsRead(world, site, arg, path, text, args);
    assert [arg][1..] == [];
    assert Substitute(world, site, [arg], depth) == Substitute(world, site, args, depth + 1) + [];
    var refs := ReferencesOf(world, site, arg, depth, 1);
    assert References(world, site, [arg], depth) == refs + [];
  }

  function Repeated(args: seq<string>, n: nat): seq<string> {
    if n == 0 then [] else args + Repeated(args, n - 1)
  }

  lemma {:induction false} ReferencesAround(world: World, site: Site, pre: seq<string>, arg: string, depth: nat)
    requires NoReferences(pre) && depth <= 4
    ensures References(world, site, pre + [arg], depth) == References(world, site, [arg], depth)
    decreases |pre|
  {
    if pre == [] {
      assert pre + [arg] == [arg];
    } else {
      assert (pre + [arg])[0] == pre[0] && (pre + [arg])[1..] == pre[1..] + [arg];
      ReferencesAround(world, site, pre[1..], arg, depth);
    }
  }

  /** A file that ends with a reference to itself, met at `depth`. */
  lemma {:induction false} SelfInclusionAt(world: World, site: Site, arg: string, path: string, text: string,
                                           args: seq<string>, depth: nat)
    requires Refers(world, site, arg, path, text) && Holds(world, site, text, args + [arg]) && NoReferences(args)
    requires depth <= 5
    ensures Substitute(world, site, [arg], depth) == Repeated(args, 5 - depth) + [arg]
    ensures AllAre(References(world, site, [arg], depth), (path, site.clStyle))
    ensures |References(world, site, [arg], depth)| == 5 - depth
    decreases 5 - depth
  {
    if depth == 5 {
      SubstituteKeeps(world, site, [arg], 5);
    } else {
      SelfInclusionAt(world, site, arg, path, text, args, depth + 1);
      SubstituteFollows(world, site, arg, path, text, args + [arg], depth);
      SubstituteAround(world, site, args, arg, depth + 1);
      if depth < 4 {
        ReferencesAround(world, site, args, arg, depth + 1);
      }
      assert args + (Repeated(args, 4 - depth) + [arg]) == Repeated(args, 5 - depth) + [arg];
    }
  }

  /** A file that includes itself is spliced in five times and then left as a reference. */
  lemma SelfInclusion(world: World, site: Site, arg: string, path: string, text: string, args: seq<string>)
    requires Refers(world, site, arg, path, text) && Holds(world, site, text, args + [arg]) && NoReferences(args)
    requires 5 * (|args| + 1) <= 20_000
    ensures Load(world, [Entry([arg], site)], START)[0].out == args + args + args + args + args + [arg]
  {
    SelfInclusionAt(world, site, arg, path, text, args, 0);
    TextIsRead(world, site, arg, path, text, args + [arg]);
    OneFileIsExpanded(world, Entry([arg], site), (path, site.clStyle));
    OneFileIsPaid(world, ReferencesIn(world, Entry([arg], site)), (path, site.clStyle));
    FiveTimes(args);
  }

  lemma FiveTimes(args: seq<string>)
    ensures Repeated(args, 5) == args + args + args + args + args
  {
    assert Repeated(args, 1) == args + [] == args;
    assert Repeated(args, 2) == args + args;
    assert Repeated(args, 3) == args + (args + args) == args + args + args;
    assert Repeated(args, 4) == args + (args + args + args) == args + args + args + args;
    assert Repeated(args, 5) == args + (args + args + args + args);
  }
}
