/**
 Choosing one file per library (`build_match_map` and the token order of
 `_version_sort_key`, abicheck/binary_utils.py).  The specification depends on the input
 list only through its multiset, so neither the choice nor the ambiguity error can
 depend on the order of the paths.
 */
module MatchMap {
  import opened Ordering

  /** (1, number) or (0, word): the tag decides before a number could meet a word. */
  datatype Token = Word(text: string) | Number(value: nat)

  datatype SortKey = SortKey(tokens: seq<Token>, name: string)

  /** Canonical key, version key and on-disk identity of a path. */
  datatype Naming = Naming(
    canonical: string -> string, sortKey: (string, string) -> SortKey, identity: string -> string)

  predicate TokenLe(a: Token, b: Token) {
    match (a, b)
    case (Word(x), Word(y)) => LexLe(x, y)
    case (Word(_), Number(_)) => true
    case (Number(_), Word(_)) => false
    case (Number(m), Number(n)) => m <= n
  }

  /** Python's list order: the first difference decides, a proper prefix comes first. */
  predicate TokensLe(a: seq<Token>, b: seq<Token>) {
    if a == [] then true
    else if b == [] then false
    else if a[0] == b[0] then TokensLe(a[1..], b[1..])
    else TokenLe(a[0], b[0])
  }

  predicate KeyLe(a: SortKey, b: SortKey) {
    if a.tokens == b.tokens then LexLe(a.name, b.name) else TokensLe(a.tokens, b.tokens)
  }

  lemma TokenLeTotal(a: Token, b: Token)
    ensures TokenLe(a, b) || TokenLe(b, a)
    ensures TokenLe(a, b) && TokenLe(b, a) ==> a == b
  {
    if a.Word? && b.Word? {
      LexLeTotal(a.text, b.text);
    }
  }

  lemma TokenLeTransitive(a: Token, b: Token, c: Token)
    requires TokenLe(a, b) && TokenLe(b, c)
    ensures TokenLe(a, c)
  {
    if a.Word? && b.Word? && c.Word? {
      LexLeTransitive(a.text, b.text, c.text);
    }
  }

  lemma {:induction false} TokensLeTotal(a: seq<Token>, b: seq<Token>)
    ensures TokensLe(a, b) || TokensLe(b, a)
    ensures TokensLe(a, b) && TokensLe(b, a) ==> a == b
  {
    if a == [] || b == [] {
    } else {
      TokenLeTotal(a[0], b[0]);
      if a[0] == b[0] {
        TokensLeTotal(a[1..], b[1..]);
        assert a == [a[0]] + a[1..] && b == [b[0]] + b[1..];
      }
    }
  }

  lemma {:induction false} TokensLeTransitive(a: seq<Token>, b: seq<Token>, c: seq<Token>)
    requires TokensLe(a, b) && TokensLe(b, c)
    ensures TokensLe(a, c)
  {
    if a == [] {
    } else {
      if a[0] == b[0] && b[0] == c[0] {
        TokensLeTransitive(a[1..], b[1..], c[1..]);
      } else {
        TokenLeTotal(a[0], b[0]);
        TokenLeTotal(b[0], c[0]);
        TokenLeTotal(a[0], a[0]);
        TokenLeTransitive(a[0], b[0], c[0]);
        TokenLeTotal(a[0], c[0]);
      }
    }
  }

  lemma KeyLeTotal(a: SortKey, b: SortKey)
    ensures KeyLe(a, b) || KeyLe(b, a)
    ensures KeyLe(a, b) && KeyLe(b, a) ==> a == b
  {
    TokensLeTotal(a.tokens, b.tokens);
    LexLeTotal(a.name, b.name);
  }

  /** Version keys are totally ordered. */
  lemma KeyLeOrder()
    ensures TotalOrder(KeyLe)
  {
    forall a, b ensures (KeyLe(a, b) || KeyLe(b, a)) && (KeyLe(a, b) && KeyLe(b, a) ==> a == b) {
      KeyLeTotal(a, b);
    }
    forall a, b, c | KeyLe(a, b) && KeyLe(b, c) ensures KeyLe(a, c) {
      KeyLeTransitive(a, b, c);
    }
  }

  lemma KeyLeTransitive(a: SortKey, b: SortKey, c: SortKey)
    requires KeyLe(a, b) && KeyLe(b, c)
    ensures KeyLe(a, c)
  {
    TokensLeTotal(a.tokens, b.tokens);
    TokensLeTotal(b.tokens, c.tokens);
    TokensLeTransitive(a.tokens, b.tokens, c.tokens);
    TokensLeTotal(a.tokens, c.tokens);
    if a.tokens == b.tokens && b.tokens == c.tokens {
      LexLeTransitive(a.name, b.name, c.name);
    }
  }

  // ----- the order of the keys, said outright -----

  /** A word is below any number, a smaller number below a greater, an earlier word below a later. */
  ghost predicate TokenBelow(a: Token, b: Token) {
    || (a.Word? && b.Number?)
    || (a.Number? && b.Number? && a.value < b.value)
    || (a.Word? && b.Word? && Before(a.text, b.text))
  }

  /** The lists agree up to `i`, where `a` ends or holds what is below. */
  ghost predicate TokensPart(a: seq<Token>, b: seq<Token>, i: nat) {
    i <= |a| && i < |b| && a[..i] == b[..i] && (i < |a| ==> TokenBelow(a[i], b[i]))
  }

  /** An older version: its tokens part from the other's downwards, or, with equal tokens, its name comes before. */
  ghost predicate Below(a: SortKey, b: SortKey) {
    || (exists i :: TokensPart(a.tokens, b.tokens, i))
    || (a.tokens == b.tokens && Before(a.name, b.name))
  }

  lemma TokenBelowIsLess(a: Token, b: Token)
    ensures TokenBelow(a, b) <==> TokenLe(a, b) && a != b
  {
    if a.Word? && b.Word? {
      BeforeIsLess(a.text, b.text);
    }
  }

  lemma {:induction false} TokensPartIsLess(a: seq<Token>, b: seq<Token>)
    ensures (exists i :: TokensPart(a, b, i)) <==> TokensLe(a, b) && a != b
  {
    if a == [] || b == [] {
      assert b != [] ==> TokensPart(a, b, 0);
    } else if a[0] != b[0] {
      TokenBelowIsLess(a[0], b[0]);
      assert TokenBelow(a[0], b[0]) ==> TokensPart(a, b, 0);
      assert forall i: nat :: 0 < i <= |a| && i <= |b| ==> a[..i][0] == a[0] && b[..i][0] == b[0];
    } else {
      TokensPartIsLess(a[1..], b[1..]);
      TokenBelowIsLess(a[0], a[0]);
      assert a == [a[0]] + a[1..] && b == [b[0]] + b[1..];
      if i: nat :| TokensPart(a, b, i) {
        assert a[1..][..i - 1] == a[..i][1..] && b[1..][..i - 1] == b[..i][1..];
        assert TokensPart(a[1..], b[1..], i - 1);
      }
      if i: nat :| TokensPart(a[1..], b[1..], i) {
        assert a[..i + 1] == [a[0]] + a[1..][..i] && b[..i + 1] == [b[0]] + b[1..][..i];
        assert TokensPart(a, b, i + 1);
      }
    }
  }

  /** Version keys are compared as versions: what is less is older. */
  lemma BelowIsLess(a: SortKey, b: SortKey)
    ensures Below(a, b) <==> KeyLe(a, b) && a != b
  {
    TokensPartIsLess(a.tokens, b.tokens);
    BeforeIsLess(a.name, b.name);
  }

  // ----- the specification -----

  predicate In(n: Naming, paths: multiset<string>, k: string, p: string) {
    p in paths && n.canonical(p) == k
  }

  /** No candidate for `k` ranks above `p`. */
  ghost predicate Top(n: Naming, paths: multiset<string>, k: string, p: string) {
    In(n, paths, k, p) && forall q :: In(n, paths, k, q) ==> KeyLe(n.sortKey(q, k), n.sortKey(p, k))
  }

  /** The top rank is held twice, by two paths or by one path listed twice. */
  ghost predicate Tied(n: Naming, paths: multiset<string>, k: string) {
    exists p, q :: Top(n, paths, k, p) && Top(n, paths, k, q) && (p != q || paths[p] > 1)
  }

  /** The on-disk files among the candidates for `k`. */
  ghost function Files(n: Naming, paths: multiset<string>, k: string): set<string> {
    set p | p in paths && n.canonical(p) == k :: n.identity(p)
  }

  datatype MatchResult = Matched(mapping: map<string, string>, warnings: seq<string>) | Ambiguous(key: string)

  ghost predicate IsMatchMap(n: Naming, paths: multiset<string>, r: MatchResult) {
    match r
    case Ambiguous(k) => Tied(n, paths, k)
    case Matched(mapping, warnings) =>
      && (forall k :: !Tied(n, paths, k))
      && (forall p :: p in paths ==> n.canonical(p) in mapping)
      && (forall k :: k in mapping ==> Top(n, paths, k, mapping[k]))
      && (forall k :: k in warnings <==> k in mapping && |Files(n, paths, k)| > 1)
  }

  /** Untied, the chosen path is strictly greatest in its bucket. */
  lemma ChosenIsStrictlyGreatest(n: Naming, paths: multiset<string>, k: string, p: string, q: string)
    requires Top(n, paths, k, p) && !Tied(n, paths, k) && In(n, paths, k, q) && q != p
    ensures KeyLe(n.sortKey(q, k), n.sortKey(p, k)) && n.sortKey(q, k) != n.sortKey(p, k)
  {
  }

  lemma ChosenIsUnique(n: Naming, paths: multiset<string>, k: string, p: string, q: string)
    requires Top(n, paths, k, p) && Top(n, paths, k, q) && !Tied(n, paths, k)
    ensures p == q
  {
  }

  /** The result is determined by the multiset of paths: which files are chosen, and whether the choice fails. */
  lemma PermutationInvariant(n: Naming, xs: seq<string>, ys: seq<string>, a: MatchResult, b: MatchResult)
    requires multiset(xs) == multiset(ys)
    requires IsMatchMap(n, multiset(xs), a) && IsMatchMap(n, multiset(ys), b)
    ensures a.Ambiguous? <==> b.Ambiguous?
    ensures a.Matched? ==> a.mapping == b.mapping && forall k :: k in a.warnings <==> k in b.warnings
  {
    SameFailure(n, multiset(xs), a, b);
    if a.Matched? {
      SameMap(n, multiset(xs), a, b);
      SameWarnings(n, multiset(xs), a, b);
    }
  }

  lemma SameFailure(n: Naming, paths: multiset<string>, a: MatchResult, b: MatchResult)
    requires IsMatchMap(n, paths, a) && IsMatchMap(n, paths, b)
    ensures a.Ambiguous? <==> b.Ambiguous?
  {
  }

  lemma SameMap(n: Naming, paths: multiset<string>, a: MatchResult, b: MatchResult)
    requires IsMatchMap(n, paths, a) && IsMatchMap(n, paths, b) && a.Matched? && b.Matched?
    ensures a.mapping == b.mapping
  {
    SameKeys(n, paths, a, b);
    SameKeys(n, paths, b, a);
    SameChoices(n, paths, a, b);
  }

  lemma SameWarnings(n: Naming, paths: multiset<string>, a: MatchResult, b: MatchResult)
    requires IsMatchMap(n, paths, a) && IsMatchMap(n, paths, b) && a.Matched? && b.Matched?
    requires a.mapping == b.mapping
    ensures forall k :: k in a.warnings <==> k in b.warnings
  {
  }

  lemma SameChoices(n: Naming, paths: multiset<string>, a: MatchResult, b: MatchResult)
    requires IsMatchMap(n, paths, a) && IsMatchMap(n, paths, b) && a.Matched? && b.Matched?
    requires a.mapping.Keys == b.mapping.Keys
    ensures a.mapping == b.mapping
  {
    forall k | k in a.mapping ensures a.mapping[k] == b.mapping[k] {
      assert k in b.mapping;
      ChosenIsUnique(n, paths, k, a.mapping[k], b.mapping[k]);
    }
  }

  lemma SameKeys(n: Naming, paths: multiset<string>, a: MatchResult, b: MatchResult)
    requires IsMatchMap(n, paths, a) && IsMatchMap(n, paths, b) && a.Matched? && b.Matched?
    ensures forall k :: k in a.mapping ==> k in b.mapping
  {
  }

  // ----- what is selected, said of the list -----

  /** Listed at `i`, `p` is newer than whatever else is listed for `k`. */
  ghost predicate Newest(n: Naming, paths: seq<string>, k: string, p: string, i: nat) {
    && i < |paths| && paths[i] == p && n.canonical(p) == k
    && forall j :: 0 <= j < |paths| && j != i && n.canonical(paths[j]) == k ==>
         Below(n.sortKey(paths[j], k), n.sortKey(p, k))
  }

  /** Listed at `i` and at `j`, two candidates for `k` have one version key, and no candidate has a newer. */
  ghost predicate NewestTwice(n: Naming, paths: seq<string>, k: string, i: nat, j: nat) {
    && i < j < |paths| && n.canonical(paths[i]) == n.canonical(paths[j]) == k
    && n.sortKey(paths[i], k) == n.sortKey(paths[j], k)
    && forall m :: 0 <= m < |paths| && n.canonical(paths[m]) == k ==>
         !Below(n.sortKey(paths[i], k), n.sortKey(paths[m], k))
  }

  ghost predicate Indistinct(n: Naming, paths: seq<string>, k: string) {
    exists i, j :: NewestTwice(n, paths, k, i, j)
  }

  ghost predicate TwoFiles(n: Naming, paths: seq<string>, k: string) {
    exists i, j :: 0 <= i < |paths| && 0 <= j < |paths| && n.canonical(paths[i]) == n.canonical(paths[j]) == k
                   && n.identity(paths[i]) != n.identity(paths[j])
  }

  /** Every key's newest path, with a warning where several files were listed; or a key with its newest twice. */
  ghost predicate Selects(n: Naming, paths: seq<string>, r: MatchResult) {
    match r
    case Ambiguous(k) => Indistinct(n, paths, k)
    case Matched(mapping, warnings) =>
      && (forall k :: !Indistinct(n, paths, k))
      && (forall i :: 0 <= i < |paths| ==> n.canonical(paths[i]) in mapping)
      && (forall k :: k in mapping ==> exists i :: Newest(n, paths, k, mapping[k], i))
      && (forall k :: k in warnings <==> k in mapping && TwoFiles(n, paths, k))
  }

  lemma TopIsNewest(n: Naming, paths: seq<string>, k: string, p: string)
    requires Top(n, multiset(paths), k, p) && !Tied(n, multiset(paths), k)
    ensures exists i :: Newest(n, paths, k, p, i)
  {
    assert p in paths;
    var i :| 0 <= i < |paths| && paths[i] == p;
    forall j | 0 <= j < |paths| && j != i && n.canonical(paths[j]) == k
      ensures Below(n.sortKey(paths[j], k), n.sortKey(p, k))
    {
      OtherPlace(paths, i, j);
      assert In(n, multiset(paths), k, paths[j]);
      ChosenIsStrictlyGreatest(n, multiset(paths), k, p, paths[j]);
      BelowIsLess(n.sortKey(paths[j], k), n.sortKey(p, k));
    }
    assert Newest(n, paths, k, p, i);
  }

  lemma OtherPlace(s: seq<string>, i: nat, j: nat)
    requires i < |s| && j < |s| && i != j
    ensures s[i] == s[j] ==> multiset(s)[s[i]] > 1
  {
    var a, b := if i < j then i else j, if i < j then j else i;
    assert s == s[..a] + [s[a]] + s[a + 1..b] + [s[b]] + s[b + 1..];
  }

  lemma TieIsNewestTwice(n: Naming, paths: seq<string>, k: string)
    requires Tied(n, multiset(paths), k)
    ensures Indistinct(n, paths, k)
  {
    var p, q :| Top(n, multiset(paths), k, p) && Top(n, multiset(paths), k, q)
                && (p != q || multiset(paths)[p] > 1);
    var i, j := TwoPlaces(paths, p, q);
    KeyLeTotal(n.sortKey(p, k), n.sortKey(q, k));
    forall m | 0 <= m < |paths| && n.canonical(paths[m]) == k
      ensures !Below(n.sortKey(paths[i], k), n.sortKey(paths[m], k))
    {
      assert In(n, multiset(paths), k, paths[m]);
      BelowIsLess(n.sortKey(paths[i], k), n.sortKey(paths[m], k));
      KeyLeTotal(n.sortKey(paths[i], k), n.sortKey(paths[m], k));
    }
    assert NewestTwice(n, paths, k, i, j);
  }

  lemma NewestTwiceIsTie(n: Naming, paths: seq<string>, k: string, i: nat, j: nat)
    requires NewestTwice(n, paths, k, i, j)
    ensures Tied(n, multiset(paths), k)
  {
    OtherPlace(paths, i, j);
    assert paths[i] in multiset(paths) && paths[j] in multiset(paths);
    forall q | In(n, multiset(paths), k, q) ensures KeyLe(n.sortKey(q, k), n.sortKey(paths[i], k)) {
      var m :| 0 <= m < |paths| && paths[m] == q;
      BelowIsLess(n.sortKey(paths[i], k), n.sortKey(q, k));
      KeyLeTotal(n.sortKey(q, k), n.sortKey(paths[i], k));
    }
    assert Top(n, multiset(paths), k, paths[i]) && Top(n, multiset(paths), k, paths[j]);
  }

  lemma TieIsIndistinct(n: Naming, paths: seq<string>, k: string)
    ensures Tied(n, multiset(paths), k) <==> Indistinct(n, paths, k)
  {
    if Tied(n, multiset(paths), k) {
      TieIsNewestTwice(n, paths, k);
    }
    if i, j :| NewestTwice(n, paths, k, i, j) {
      NewestTwiceIsTie(n, paths, k, i, j);
    }
  }

  lemma SeveralFiles(n: Naming, paths: seq<string>, k: string)
    ensures |Files(n, multiset(paths), k)| > 1 <==> TwoFiles(n, paths, k)
  {
    var files := Files(n, multiset(paths), k);
    if |files| > 1 {
      var a :| a in files;
      SmallerSet(files - {a}, files);
      var b :| b in files - {a};
      var p :| p in multiset(paths) && n.canonical(p) == k && n.identity(p) == a;
      var q :| q in multiset(paths) && n.canonical(q) == k && n.identity(q) == b;
      assert p in paths && q in paths;
    }
    if i, j :| 0 <= i < |paths| && 0 <= j < |paths| && n.canonical(paths[i]) == n.canonical(paths[j]) == k
               && n.identity(paths[i]) != n.identity(paths[j]) {
      assert paths[i] in multiset(paths) && paths[j] in multiset(paths);
      SmallerSet({n.identity(paths[i]), n.identity(paths[j])}, files);
    }
  }

  // ----- the loops -----

  /** The candidates for `k`, in list order. */
  function Bucket(n: Naming, paths: seq<string>, k: string): seq<string> {
    if paths == [] then []
    else
      var front, last := Bucket(n, paths[..|paths| - 1], k), paths[|paths| - 1];
      if n.canonical(last) == k then front + [last] else front
  }

  lemma {:induction false} BucketCounts(n: Naming, paths: seq<string>, k: string, p: string)
    ensures multiset(Bucket(n, paths, k))[p] == if n.canonical(p) == k then multiset(paths)[p] else 0
  {
    if paths == [] {
    } else {
      BucketCounts(n, paths[..|paths| - 1], k, p);
      assert paths == paths[..|paths| - 1] + [paths[|paths| - 1]];
    }
  }

  function ByKey(n: Naming, k: string): (string, string) -> bool {
    (p, q) => KeyLe(n.sortKey(p, k), n.sortKey(q, k))
  }

  /** The canonical keys of the paths, in list order. */
  function KeysOf(n: Naming, paths: seq<string>): seq<string> {
    if paths == [] then [] else KeysOf(n, paths[..|paths| - 1]) + [n.canonical(paths[|paths| - 1])]
  }

  /** The keys with several on-disk files among their candidates. */
  ghost function Warned(n: Naming, paths: multiset<string>, keys: seq<string>): seq<string> {
    if keys == [] then []
    else
      var front, last := Warned(n, paths, keys[..|keys| - 1]), keys[|keys| - 1];
      if |Files(n, paths, last)| > 1 then front + [last] else front
  }

  /** The first tied key, in the order of first mention, is the one reported; warnings keep that order. */
  ghost predicate InKeyOrder(n: Naming, paths: seq<string>, r: MatchResult) {
    var keys := FirstMentions(KeysOf(n, paths));
    match r
    case Ambiguous(k) =>
      exists i :: 0 <= i < |keys| && keys[i] == k && forall j :: 0 <= j < i ==> !Tied(n, multiset(paths), keys[j])
    case Matched(_, warnings) => warnings == Warned(n, multiset(paths), keys)
  }

  /** Some path of key `x` is listed when none of key `y` has been. */
  ghost predicate ListedBefore(n: Naming, paths: seq<string>, x: string, y: string) {
    exists i :: 0 <= i < |paths| && n.canonical(paths[i]) == x && forall j :: 0 <= j <= i ==> n.canonical(paths[j]) != y
  }

  /** The key reported is the one of those in error that is listed first; warnings come in the order of listing. */
  ghost predicate ReportsInOrder(n: Naming, paths: seq<string>, r: MatchResult) {
    match r
    case Ambiguous(k) => forall other :: other != k && Indistinct(n, paths, other) ==> ListedBefore(n, paths, k, other)
    case Matched(_, warnings) =>
      forall i, j :: 0 <= i < j < |warnings| ==> ListedBefore(n, paths, warnings[i], warnings[j])
  }

  lemma {:induction false} KeysOfAt(n: Naming, paths: seq<string>)
    ensures |KeysOf(n, paths)| == |paths|
    ensures forall i :: 0 <= i < |paths| ==> KeysOf(n, paths)[i] == n.canonical(paths[i])
  {
    if paths == [] {
    } else {
      KeysOfAt(n, paths[..|paths| - 1]);
    }
  }

  lemma MentionOrder(n: Naming, paths: seq<string>, a: nat, b: nat)
    requires a < b < |FirstMentions(KeysOf(n, paths))|
    ensures ListedBefore(n, paths, FirstMentions(KeysOf(n, paths))[a], FirstMentions(KeysOf(n, paths))[b])
  {
    var list := KeysOf(n, paths);
    var x, y := FirstMentions(list)[a], FirstMentions(list)[b];
    KeysOfAt(n, paths);
    FirstMentionsPrecede(list, a, b);
    var k :| 0 <= k < |list| && list[k] == x && y !in list[..k + 1];
    assert forall j :: 0 <= j <= k ==> list[..k + 1][j] == n.canonical(paths[j]);
  }

  /** A warned key, and where in `keys` it stands. */
  lemma {:induction false} WarnedAt(n: Naming, paths: multiset<string>, keys: seq<string>, i: nat, j: nat)
    returns (a: nat, b: nat)
    requires i < j < |Warned(n, paths, keys)|
    ensures a < b < |keys| && keys[a] == Warned(n, paths, keys)[i] && keys[b] == Warned(n, paths, keys)[j]
    decreases |keys|
  {
    var front := keys[..|keys| - 1];
    if j < |Warned(n, paths, front)| {
      a, b := WarnedAt(n, paths, front, i, j);
    } else {
      b := |keys| - 1;
      a := OneWarnedAt(n, paths, front, i);
    }
  }

  lemma {:induction false} OneWarnedAt(n: Naming, paths: multiset<string>, keys: seq<string>, i: nat) returns (a: nat)
    requires i < |Warned(n, paths, keys)|
    ensures a < |keys| && keys[a] == Warned(n, paths, keys)[i]
    decreases |keys|
  {
    var front := keys[..|keys| - 1];
    if i < |Warned(n, paths, front)| {
      a := OneWarnedAt(n, paths, front, i);
    } else {
      a := |keys| - 1;
    }
  }

  lemma ReportOrder(n: Naming, paths: seq<string>, r: MatchResult)
    requires InKeyOrder(n, paths, r)
    ensures ReportsInOrder(n, paths, r)
  {
    var keys := FirstMentions(KeysOf(n, paths));
    match r
    case Ambiguous(k) =>
      var i :| 0 <= i < |keys| && keys[i] == k && forall j :: 0 <= j < i ==> !Tied(n, multiset(paths), keys[j]);
      forall other | other != k && Indistinct(n, paths, other) ensures ListedBefore(n, paths, k, other) {
        TieIsIndistinct(n, paths, other);
        TiedIsListed(n, paths, other);
        var j :| 0 <= j < |keys| && keys[j] == other;
        MentionOrder(n, paths, i, j);
      }
    case Matched(_, warnings) =>
      forall i, j | 0 <= i < j < |warnings| ensures ListedBefore(n, paths, warnings[i], warnings[j]) {
        var a, b := WarnedAt(n, multiset(paths), keys, i, j);
        MentionOrder(n, paths, a, b);
      }
  }

  lemma TiedIsListed(n: Naming, paths: seq<string>, k: string)
    requires Tied(n, multiset(paths), k)
    ensures k in FirstMentions(KeysOf(n, paths))
  {
    var p :| Top(n, multiset(paths), k, p);
    assert p in paths;
    var i :| 0 <= i < |paths| && paths[i] == p;
    KeysOfAt(n, paths);
    assert KeysOf(n, paths)[i] == k;
    FirstMentionsInOrder(KeysOf(n, paths), |paths|);
  }

  /** The newest version is chosen. */
  lemma MatchMapSelects(n: Naming, paths: seq<string>, r: MatchResult)
    requires IsMatchMap(n, multiset(paths), r) && InKeyOrder(n, paths, r)
    ensures Selects(n, paths, r) && ReportsInOrder(n, paths, r)
  {
    ReportOrder(n, paths, r);
    match r
    case Ambiguous(k) =>
      TieIsIndistinct(n, paths, k);
    case Matched(mapping, warnings) =>
      forall k | k in mapping ensures exists i :: Newest(n, paths, k, mapping[k], i) {
        TopIsNewest(n, paths, k, mapping[k]);
      }
      forall k ensures !Indistinct(n, paths, k) {
        TieIsIndistinct(n, paths, k);
      }
      forall k ensures |Files(n, multiset(paths), k)| > 1 <==> TwoFiles(n, paths, k) {
        SeveralFiles(n, paths, k);
      }
      assert forall i :: 0 <= i < |paths| ==> paths[i] in multiset(paths);
  }

  method FillBuckets(n: Naming, paths: seq<string>) returns (buckets: map<string, seq<string>>, keys: seq<string>)
    ensures Filled(n, paths, buckets, keys)
  {
    buckets, keys := map[], [];
    for i := 0 to |paths|
      invariant Filled(n, paths[..i], buckets, keys)
    {
      TakeOneMore(paths, i);
      OnePathMore(n, paths[..i], paths[i], buckets, keys);
      var k := n.canonical(paths[i]);
      keys := if k in buckets then keys else keys + [k];
      buckets := buckets[k := (if k in buckets then buckets[k] else []) + [paths[i]]];
    }
    assert paths[..|paths|] == paths;
  }

  ghost predicate Filled(n: Naming, paths: seq<string>, buckets: map<string, seq<string>>, keys: seq<string>) {
    && Bucketed(n, paths, buckets)
    && (forall k :: k in buckets <==> k in keys)
    && keys == FirstMentions(KeysOf(n, paths))
  }

  ghost predicate Bucketed(n: Naming, paths: seq<string>, buckets: map<string, seq<string>>) {
    && (forall k :: (if k in buckets then buckets[k] else []) == Bucket(n, paths, k))
    && (forall k :: k in buckets ==> buckets[k] != [])
  }

  lemma OnePathMore(n: Naming, front: seq<string>, p: string, buckets: map<string, seq<string>>, keys: seq<string>)
    requires Filled(n, front, buckets, keys)
    ensures var k := n.canonical(p);
            Filled(n, front + [p], buckets[k := (if k in buckets then buckets[k] else []) + [p]],
                   if k in buckets then keys else keys + [k])
  {
    assert (front + [p])[..|front|] == front;
    assert (KeysOf(n, front) + [n.canonical(p)])[..|KeysOf(n, front)|] == KeysOf(n, front);
    OneBucketMore(n, front, p, buckets);
  }

  lemma OneBucketMore(n: Naming, front: seq<string>, p: string, buckets: map<string, seq<string>>)
    requires Bucketed(n, front, buckets)
    ensures var k := n.canonical(p);
            Bucketed(n, front + [p], buckets[k := (if k in buckets then buckets[k] else []) + [p]])
  {
    assert (front + [p])[..|front|] == front;
  }

  lemma ByKeyOrder(n: Naming, k: string)
    ensures TotalPreorder(ByKey(n, k))
  {
    var le := ByKey(n, k);
    forall p, q ensures le(p, q) || le(q, p) {
      KeyLeTotal(n.sortKey(p, k), n.sortKey(q, k));
    }
    forall p, q, r | le(p, q) && le(q, r) ensures le(p, r) {
      KeyLeTransitive(n.sortKey(p, k), n.sortKey(q, k), n.sortKey(r, k));
    }
  }

  /** A sorted bucket: the candidates, as often as they are listed, ascending. */
  ghost predicate SortedBucket(n: Naming, paths: multiset<string>, k: string, ordered: seq<string>) {
    && SortedBy(ordered, ByKey(n, k))
    && (forall p :: p in ordered <==> In(n, paths, k, p))
    && (forall p :: p in ordered ==> multiset(ordered)[p] == paths[p])
  }

  lemma SortingSorts(n: Naming, paths: seq<string>, k: string)
    ensures SortedBucket(n, multiset(paths), k, StableSort(Bucket(n, paths, k), ByKey(n, k)))
    ensures Bucket(n, paths, k) != [] ==> StableSort(Bucket(n, paths, k), ByKey(n, k)) != []
  {
    ByKeyOrder(n, k);
    var ordered := StableSort(Bucket(n, paths, k), ByKey(n, k));
    StableSortSorts(Bucket(n, paths, k), ByKey(n, k));
    Members(n, paths, k, ordered);
    assert |ordered| == |multiset(ordered)| && |Bucket(n, paths, k)| == |multiset(Bucket(n, paths, k))|;
  }

  /** The end of the sorted bucket is its top. */
  lemma LastIsTop(n: Naming, paths: multiset<string>, k: string, ordered: seq<string>)
    requires SortedBucket(n, paths, k, ordered) && ordered != []
    ensures Top(n, paths, k, ordered[|ordered| - 1])
  {
    var last := ordered[|ordered| - 1];
    assert last in ordered;
    forall q | In(n, paths, k, q) ensures KeyLe(n.sortKey(q, k), n.sortKey(last, k)) {
      var i :| 0 <= i < |ordered| && ordered[i] == q;
      if i < |ordered| - 1 {
        assert ByKey(n, k)(q, last);
      } else {
        KeyLeTotal(n.sortKey(q, k), n.sortKey(q, k));
      }
    }
  }

  lemma EqualEndsTie(n: Naming, paths: multiset<string>, k: string, ordered: seq<string>)
    requires SortedBucket(n, paths, k, ordered) && |ordered| > 1
    requires n.sortKey(ordered[|ordered| - 1], k) == n.sortKey(ordered[|ordered| - 2], k)
    ensures Tied(n, paths, k)
  {
    var p, q := ordered[|ordered| - 1], ordered[|ordered| - 2];
    LastIsTop(n, paths, k, ordered);
    TwiceAtTheEnd(ordered);
    assert p in ordered && q in ordered;
    assert Top(n, paths, k, q);
  }

  /** Above a top there are only equals. */
  lemma AboveTop(n: Naming, paths: multiset<string>, k: string, ordered: seq<string>, i: nat, t: nat)
    requires SortedBucket(n, paths, k, ordered) && i <= t < |ordered| && Top(n, paths, k, ordered[i])
    ensures n.sortKey(ordered[t], k) == n.sortKey(ordered[i], k)
  {
    if i < t {
      assert ordered[t] in ordered;
      assert In(n, paths, k, ordered[t]);
      assert ByKey(n, k)(ordered[i], ordered[t]);
      KeyLeTotal(n.sortKey(ordered[t], k), n.sortKey(ordered[i], k));
    }
  }

  /** From the first top on all rank the same. */
  lemma AllAboveTop(n: Naming, paths: multiset<string>, k: string, ordered: seq<string>, i: nat)
    requires SortedBucket(n, paths, k, ordered) && i + 1 < |ordered| && Top(n, paths, k, ordered[i])
    ensures LastTwoEqual(n, k, ordered)
  {
    var last := |ordered| - 1;
    AboveTop(n, paths, k, ordered, i, last);
    AboveTop(n, paths, k, ordered, i, last - 1);
  }

  predicate LastTwoEqual(n: Naming, k: string, ordered: seq<string>) {
    |ordered| > 1 && n.sortKey(ordered[|ordered| - 1], k) == n.sortKey(ordered[|ordered| - 2], k)
  }

  /** A tie puts a top before the end. */
  lemma EarlyTop(n: Naming, paths: multiset<string>, k: string, ordered: seq<string>, p: string, q: string)
    returns (i: nat)
    requires SortedBucket(n, paths, k, ordered) && Top(n, paths, k, p) && Top(n, paths, k, q)
             && (p != q || paths[p] > 1)
    ensures i + 1 < |ordered| && Top(n, paths, k, ordered[i])
  {
    assert In(n, paths, k, p) && In(n, paths, k, q);
    var j: nat;
    i, j := TwoPlaces(ordered, p, q);
  }

  /** Looking at the last two of a sorted bucket detects exactly the ties at the top. */
  lemma TieIsAtTheEnd(n: Naming, paths: multiset<string>, k: string, ordered: seq<string>)
    requires SortedBucket(n, paths, k, ordered)
    ensures Tied(n, paths, k) <==> LastTwoEqual(n, k, ordered)
  {
    if LastTwoEqual(n, k, ordered) {
      EqualEndsTie(n, paths, k, ordered);
    } else if p, q :| Top(n, paths, k, p) && Top(n, paths, k, q) && (p != q || paths[p] > 1) {
      var i := EarlyTop(n, paths, k, ordered, p, q);
      AllAboveTop(n, paths, k, ordered, i);
    }
  }

  lemma Members(n: Naming, paths: seq<string>, k: string, ordered: seq<string>)
    requires multiset(ordered) == multiset(Bucket(n, paths, k))
    ensures forall p :: p in ordered <==> In(n, multiset(paths), k, p)
    ensures forall p :: n.canonical(p) == k ==> multiset(ordered)[p] == multiset(paths)[p]
  {
    forall p ensures multiset(ordered)[p] == if n.canonical(p) == k then multiset(paths)[p] else 0 {
      BucketCounts(n, paths, k, p);
    }
    assert forall p :: p in ordered <==> multiset(ordered)[p] > 0;
    assert forall p :: p in multiset(paths) <==> multiset(paths)[p] > 0;
  }

  lemma TwiceAtTheEnd(s: seq<string>)
    requires |s| > 1
    ensures s[|s| - 1] == s[|s| - 2] ==> multiset(s)[s[|s| - 1]] > 1
  {
    assert s == s[..|s| - 2] + [s[|s| - 2]] + [s[|s| - 1]];
  }

  lemma {:induction false} TwoPlaces(s: seq<string>, p: string, q: string) returns (i: nat, j: nat)
    requires p in s && q in s && (p != q || multiset(s)[p] > 1)
    ensures i < j < |s| && ((s[i] == p && s[j] == q) || (s[i] == q && s[j] == p))
  {
    var x :| 0 <= x < |s| && s[x] == p;
    if p != q {
      var y :| 0 <= y < |s| && s[y] == q;
      i, j := if x < y then x else y, if x < y then y else x;
    } else {
      assert s == s[..x] + [s[x]] + s[x + 1..];
      assert multiset(s)[p] == multiset(s[..x])[p] + 1 + multiset(s[x + 1..])[p];
      if p in s[..x] {
        var y :| 0 <= y < x && s[y] == p;
        i, j := y, x;
      } else {
        assert p in s[x + 1..];
        var y :| 0 <= y < |s[x + 1..]| && s[x + 1..][y] == p;
        i, j := x, x + 1 + y;
      }
    }
  }

  method BuildMatchMap(n: Naming, paths: seq<string>) returns (r: MatchResult)
    ensures IsMatchMap(n, multiset(paths), r)
    ensures InKeyOrder(n, paths, r)
    ensures Selects(n, paths, r) && ReportsInOrder(n, paths, r)
  {
    var buckets, keys := FillBuckets(n, paths);
    var mapping: map<string, string> := map[];
    var warnings: seq<string> := [];
    for i := 0 to |keys|
      invariant Building(n, multiset(paths), keys[..i], mapping, warnings)
    {
      BucketOfKey(n, paths, buckets, keys, i);
      var key := keys[i];
      var selected, ambiguous, warn := Select(n, paths, key, buckets[key]);
      if ambiguous {
        FirstTie(n, paths, keys, i, mapping, warnings);
        MatchMapSelects(n, paths, Ambiguous(key));
        return Ambiguous(key);
      }
      TakeOneMore(keys, i);
      OneKeyMore(n, multiset(paths), keys[..i], mapping, warnings, key, selected, warn);
      mapping := mapping[key := selected];
      if warn {
        warnings := warnings + [key];
      }
    }
    TakeAll(keys);
    Built(n, paths, buckets, keys, mapping, warnings);
    r := Matched(mapping, warnings);
    MatchMapSelects(n, paths, r);
  }

  lemma BucketOfKey(n: Naming, paths: seq<string>, buckets: map<string, seq<string>>, keys: seq<string>, i: nat)
    requires Filled(n, paths, buckets, keys) && i < |keys|
    ensures keys[i] in buckets && buckets[keys[i]] == Bucket(n, paths, keys[i]) && buckets[keys[i]] != []
  {
    assert keys[i] in keys;
  }

  /** The map and the warnings once the keys in `done` are. */
  ghost predicate Building(n: Naming, paths: multiset<string>, done: seq<string>, mapping: map<string, string>,
                           warnings: seq<string>)
  {
    && mapping.Keys == Elements(done)
    && Chosen(n, paths, mapping, warnings)
    && warnings == Warned(n, paths, done)
  }

  lemma OneKeyMore(n: Naming, paths: multiset<string>, done: seq<string>, mapping: map<string, string>,
                   warnings: seq<string>, key: string, selected: string, warn: bool)
    requires Building(n, paths, done, mapping, warnings)
    requires Top(n, paths, key, selected) && !Tied(n, paths, key)
    requires warn <==> |Files(n, paths, key)| > 1
    ensures Building(n, paths, done + [key], mapping[key := selected], if warn then warnings + [key] else warnings)
  {
    assert (done + [key])[..|done|] == done;
    assert Elements(done + [key]) == Elements(done) + {key};
    OneChoiceMore(n, paths, mapping, warnings, key, selected, warn);
  }

  lemma OneChoiceMore(n: Naming, paths: multiset<string>, mapping: map<string, string>, warnings: seq<string>,
                      key: string, selected: string, warn: bool)
    requires Chosen(n, paths, mapping, warnings)
    requires Top(n, paths, key, selected) && !Tied(n, paths, key)
    requires warn <==> |Files(n, paths, key)| > 1
    ensures Chosen(n, paths, mapping[key := selected], if warn then warnings + [key] else warnings)
  {
  }

  lemma NotTiedSoFar(n: Naming, paths: multiset<string>, done: seq<string>, mapping: map<string, string>,
                     warnings: seq<string>, j: nat)
    requires Building(n, paths, done, mapping, warnings) && j < |done|
    ensures !Tied(n, paths, done[j])
  {
    assert done[j] in Elements(done);
    assert done[j] in mapping;
  }

  lemma FirstTie(n: Naming, paths: seq<string>, keys: seq<string>, i: nat, mapping: map<string, string>,
                 warnings: seq<string>)
    requires i < |keys| && Building(n, multiset(paths), keys[..i], mapping, warnings)
    requires Tied(n, multiset(paths), keys[i]) && keys == FirstMentions(KeysOf(n, paths))
    ensures IsMatchMap(n, multiset(paths), Ambiguous(keys[i])) && InKeyOrder(n, paths, Ambiguous(keys[i]))
  {
    forall j | 0 <= j < i ensures !Tied(n, multiset(paths), keys[j]) {
      NotTiedSoFar(n, multiset(paths), keys[..i], mapping, warnings, j);
    }
  }

  lemma Built(n: Naming, paths: seq<string>, buckets: map<string, seq<string>>, keys: seq<string>,
              mapping: map<string, string>, warnings: seq<string>)
    requires Filled(n, paths, buckets, keys) && Building(n, multiset(paths), keys, mapping, warnings)
    ensures IsMatchMap(n, multiset(paths), Matched(mapping, warnings))
    ensures InKeyOrder(n, paths, Matched(mapping, warnings))
  {
    assert forall k :: k in keys <==> Bucket(n, paths, k) != [];
    assert forall k :: k in mapping <==> k in Elements(keys);
    Untied(n, paths, keys, mapping);
  }

  ghost predicate Chosen(n: Naming, paths: multiset<string>, mapping: map<string, string>, warnings: seq<string>) {
    && (forall k :: k in mapping ==> Top(n, paths, k, mapping[k]) && !Tied(n, paths, k))
    && (forall k :: k in warnings <==> k in mapping && |Files(n, paths, k)| > 1)
  }

  /** The loop body for one bucket. */
  method Select(n: Naming, ghost paths: seq<string>, key: string, vals: seq<string>)
    returns (selected: string, ambiguous: bool, warn: bool)
    requires vals == Bucket(n, paths, key) && vals != []
    ensures ambiguous <==> Tied(n, multiset(paths), key)
    ensures Top(n, multiset(paths), key, selected)
    ensures warn <==> |Files(n, multiset(paths), key)| > 1
  {
    var ordered := StableSort(vals, ByKey(n, key));
    SortingSorts(n, paths, key);
    LastIsTop(n, multiset(paths), key, ordered);
    selected := ordered[|ordered| - 1];
    ambiguous := |ordered| > 1 && n.sortKey(ordered[|ordered| - 1], key) == n.sortKey(ordered[|ordered| - 2], key);
    TieIsAtTheEnd(n, multiset(paths), key, ordered);
    warn := |set p | p in ordered :: n.identity(p)| > 1;
    SameFiles(n, multiset(paths), key, ordered);
  }

  lemma SameFiles(n: Naming, paths: multiset<string>, k: string, ordered: seq<string>)
    requires SortedBucket(n, paths, k, ordered)
    ensures (set p | p in ordered :: n.identity(p)) == Files(n, paths, k)
  {
  }

  lemma Untied(n: Naming, paths: seq<string>, keys: seq<string>, mapping: map<string, string>)
    requires forall k :: k in keys <==> Bucket(n, paths, k) != []
    requires forall k :: k in mapping <==> k in keys
    requires forall k :: k in mapping ==> !Tied(n, multiset(paths), k)
    ensures forall k :: !Tied(n, multiset(paths), k)
    ensures forall p :: p in multiset(paths) ==> n.canonical(p) in mapping
  {
    forall p | p in multiset(paths) ensures n.canonical(p) in mapping {
      BucketCounts(n, paths, n.canonical(p), p);
      assert p in multiset(Bucket(n, paths, n.canonical(p)));
    }
    forall k ensures !Tied(n, multiset(paths), k) {
      if Tied(n, multiset(paths), k) {
        var p :| Top(n, multiset(paths), k, p);
      }
    }
  }
}
