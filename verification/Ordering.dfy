/**
 Orders and sorting, as Python's `sorted` uses them: the code-point order of
 strings, the sorted list of a set, and the stable sort of a list by a key; and the
 order in which a list mentions things for the first time, as a dictionary keeps it.
 */
module Ordering {

  /** Strings compare by code point, a proper prefix first. */
  predicate LexLe(a: string, b: string) {
    a == [] || (b != [] && (a[0] < b[0] || (a[0] == b[0] && LexLe(a[1..], b[1..]))))
  }

  predicate IntLe(a: int, b: int) {
    a <= b
  }

  /** Every two elements compare, and comparisons chain; equal keys may tie. */
  ghost predicate TotalPreorder<T(!new)>(le: (T, T) -> bool) {
    && (forall x, y :: le(x, y) || le(y, x))
    && (forall x, y, z :: le(x, y) && le(y, z) ==> le(x, z))
  }

  ghost predicate TotalOrder<T(!new)>(le: (T, T) -> bool) {
    && TotalPreorder(le)
    && (forall x, y :: le(x, y) && le(y, x) ==> x == y)
  }

  lemma {:induction false} LexLeTotal(a: string, b: string)
    ensures LexLe(a, b) || LexLe(b, a)
    ensures LexLe(a, b) && LexLe(b, a) ==> a == b
  {
    if a == [] || b == [] || a[0] != b[0] {
    } else {
      LexLeTotal(a[1..], b[1..]);
      assert a == [a[0]] + a[1..] && b == [b[0]] + b[1..];
    }
  }

  lemma {:induction false} LexLeTransitive(a: string, b: string, c: string)
    requires LexLe(a, b) && LexLe(b, c)
    ensures LexLe(a, c)
  {
    if a == [] || a[0] != b[0] || b[0] != c[0] {
    } else {
      LexLeTransitive(a[1..], b[1..], c[1..]);
    }
  }

  lemma LexLeOrder()
    ensures TotalOrder(LexLe)
  {
    forall a, b ensures (LexLe(a, b) || LexLe(b, a)) && (LexLe(a, b) && LexLe(b, a) ==> a == b) {
      LexLeTotal(a, b);
    }
    forall a, b, c | LexLe(a, b) && LexLe(b, c) ensures LexLe(a, c) {
      LexLeTransitive(a, b, c);
    }
  }

  /** `a` comes before `b`: they agree up to where `a` ends or has the smaller character. */
  ghost predicate Before(a: string, b: string) {
    exists i :: Parts(a, b, i)
  }

  predicate Parts(a: string, b: string, i: nat) {
    i <= |a| && i < |b| && a[..i] == b[..i] && (i < |a| ==> a[i] < b[i])
  }

  lemma {:induction false} BeforeIsLess(a: string, b: string)
    ensures Before(a, b) <==> LexLe(a, b) && a != b
  {
    if a == [] || b == [] {
      assert b != [] ==> Parts(a, b, 0);
    } else if a[0] != b[0] {
      assert a[0] < b[0] ==> Parts(a, b, 0);
      assert forall i: nat :: 0 < i <= |a| && i <= |b| ==> a[..i][0] == a[0] && b[..i][0] == b[0];
    } else {
      BeforeIsLess(a[1..], b[1..]);
      assert a == [a[0]] + a[1..] && b == [b[0]] + b[1..];
      if i: nat :| Parts(a, b, i) {
        PartsTail(a, b, i);
      }
      if i: nat :| Parts(a[1..], b[1..], i) {
        assert a[..i + 1] == [a[0]] + a[1..][..i] && b[..i + 1] == [b[0]] + b[1..][..i];
        assert Parts(a, b, i + 1);
      }
    }
  }

  lemma PartsTail(a: string, b: string, i: nat)
    requires a != [] && b != [] && a[0] == b[0] && Parts(a, b, i)
    ensures Before(a[1..], b[1..])
  {
    assert i > 0;
    assert a[1..][..i - 1] == a[..i][1..] && b[1..][..i - 1] == b[..i][1..];
    assert Parts(a[1..], b[1..], i - 1);
  }

  predicate SortedBy<T>(s: seq<T>, le: (T, T) -> bool) {
    forall i, j :: 0 <= i < j < |s| ==> le(s[i], s[j])
  }

  predicate Distinct<T(==)>(s: seq<T>) {
    forall i, j :: 0 <= i < j < |s| ==> s[i] != s[j]
  }

  ghost function Elements<T>(s: seq<T>): set<T> {
    set x | x in s
  }

  lemma DistinctAppend<T>(a: seq<T>, b: seq<T>)
    requires Distinct(a) && Distinct(b) && forall x :: x in b ==> x !in a
    ensures Distinct(a + b)
  {
    forall i, j | 0 <= i < j < |a + b| ensures (a + b)[i] != (a + b)[j] {
      assert j >= |a| ==> b[j - |a|] in b;
    }
  }

  lemma SmallerSet<T>(a: set<T>, b: set<T>)
    requires a <= b
    ensures |a| <= |b|
  {
    assert b == a + (b - a);
  }

  lemma TakeAll<T>(s: seq<T>)
    ensures s[..|s|] == s
  {
  }

  lemma TakeOneMore<T>(s: seq<T>, i: nat)
    requires i < |s|
    ensures s[..i + 1] == s[..i] + [s[i]]
  {
  }

  /** A dictionary's keys, in insertion order, after one more key is set. */
  function AddNew<T(==)>(order: seq<T>, x: T): seq<T> {
    if x in order then order else order + [x]
  }

  /** The order in which a list mentions its elements for the first time. */
  function FirstMentions<T(==)>(list: seq<T>): seq<T> {
    if list == [] then [] else AddNew(FirstMentions(list[..|list| - 1]), list[|list| - 1])
  }

  /** Everything once, and whatever is mentioned up to a point before what is mentioned only later. */
  lemma {:induction false} FirstMentionsInOrder<T(!new)>(list: seq<T>, n: nat)
    requires n <= |list|
    ensures Distinct(FirstMentions(list))
    ensures forall x :: x in FirstMentions(list) <==> x in list
    ensures FirstMentions(list[..n]) <= FirstMentions(list)
    decreases |list|
  {
    if list == [] {
    } else {
      var front := list[..|list| - 1];
      assert list == front + [list[|list| - 1]];
      if n == |list| {
        FirstMentionsInOrder(front, |front|);
        assert list[..n] == list;
      } else {
        FirstMentionsInOrder(front, n);
        assert front[..n] == list[..n];
      }
    }
  }

  /** `x` occurs before any `y` does. */
  ghost predicate Precedes<T>(list: seq<T>, x: T, y: T) {
    exists k :: 0 <= k < |list| && list[k] == x && y !in list[..k + 1]
  }

  lemma PrecedesIn<T>(list: seq<T>, x: T, y: T)
    requires list != []
    ensures Precedes(list, x, y) <==> list[0] != y && (list[0] == x || Precedes(list[1..], x, y))
  {
    if k :| 0 <= k < |list| && list[k] == x && y !in list[..k + 1] {
      assert list[..k + 1][0] == list[0];
      if k > 0 {
        assert list[1..][..k] == list[..k + 1][1..];
        assert list[1..][k - 1] == x;
      }
    }
    if list[0] != y && list[0] == x {
      assert y !in list[..1];
    }
    if list[0] != y && Precedes(list[1..], x, y) {
      var k :| 0 <= k < |list[1..]| && list[1..][k] == x && y !in list[1..][..k + 1];
      assert list[..k + 2] == [list[0]] + list[1..][..k + 1];
      assert list[k + 1] == x;
    }
  }

  lemma PrecedesSplit<T>(a: seq<T>, b: seq<T>, x: T, y: T)
    requires Precedes(a + b, x, y)
    ensures Precedes(a, x, y) || (y !in a && Precedes(b, x, y))
  {
    var k :| 0 <= k < |a + b| && (a + b)[k] == x && y !in (a + b)[..k + 1];
    if k < |a| {
      assert (a + b)[..k + 1] == a[..k + 1];
    } else {
      assert (a + b)[..k + 1] == a + b[..k - |a| + 1];
      assert b[k - |a|] == x;
    }
  }

  /** What is mentioned first comes first. */
  lemma {:induction false} FirstMentionsPrecede<T>(list: seq<T>, a: nat, b: nat)
    requires a < b < |FirstMentions(list)|
    ensures Precedes(list, FirstMentions(list)[a], FirstMentions(list)[b])
    decreases |list|
  {
    var front, last := list[..|list| - 1], list[|list| - 1];
    var before := FirstMentions(front);
    assert list == front + [last];
    if b < |before| {
      FirstMentionsPrecede(front, a, b);
      var k :| 0 <= k < |front| && front[k] == before[a] && before[b] !in front[..k + 1];
      assert front[..k + 1] == list[..k + 1] && list[k] == before[a];
    } else {
      MentionsAreListed(front);
      assert FirstMentions(list) == AddNew(before, last) == before + [last];
      assert before[a] in before;
      var k :| 0 <= k < |front| && front[k] == before[a];
      assert front[..k + 1] == list[..k + 1] && list[k] == before[a];
    }
  }

  lemma {:induction false} MentionsAreListed<T>(list: seq<T>)
    ensures forall x :: x in FirstMentions(list) <==> x in list
    decreases |list|
  {
    if list == [] {
    } else {
      MentionsAreListed(list[..|list| - 1]);
      assert list == list[..|list| - 1] + [list[|list| - 1]];
    }
  }

  lemma {:induction false} LeastExists<T(!new)>(s: set<T>, le: (T, T) -> bool)
    requires TotalOrder(le) && s != {}
    ensures exists m :: m in s && forall x :: x in s ==> le(m, x)
    decreases |s|
  {
    var e :| e in s;
    var rest := s - {e};
    if rest == {} {
      assert s == {e};
      assert e in s && forall x :: x in s ==> le(e, x);
    } else {
      LeastExists(rest, le);
      var m :| m in rest && forall x :: x in rest ==> le(m, x);
      var least := if le(e, m) then e else m;
      assert least in s && forall x :: x in s ==> le(least, x);
    }
  }

  /** `sorted` of a set: its elements once each, ascending (SortSetSorts). */
  function SortSet<T(!new, ==)>(s: set<T>, le: (T, T) -> bool): (r: seq<T>)
    requires TotalOrder(le)
    ensures Distinct(r) && |r| == |s|
    ensures forall x :: x in r <==> x in s
    decreases |s|
  {
    if s == {} then []
    else
      LeastExists(s, le);
      var m :| m in s && forall x :: x in s ==> le(m, x);
      [m] + SortSet(s - {m}, le)
  }

  lemma {:induction false} SortSetSorts<T(!new)>(s: set<T>, le: (T, T) -> bool)
    requires TotalOrder(le)
    ensures SortedBy(SortSet(s, le), le)
    decreases |s|
  {
    if s == {} {
    } else {
      LeastExists(s, le);
      var m :| m in s && forall x :: x in s ==> le(m, x);
      SortSetSorts(s - {m}, le);
      var rest := SortSet(s - {m}, le);
      assert forall i :: 0 <= i < |rest| ==> rest[i] in rest;
    }
  }

  function SortNames(s: set<string>): (r: seq<string>)
    ensures Distinct(r) && |r| == |s|
    ensures forall x :: x in r <==> x in s
  {
    LexLeOrder();
    SortSet(s, LexLe)
  }

  lemma SortNamesSorts(s: set<string>)
    ensures SortedBy(SortNames(s), LexLe)
  {
    LexLeOrder();
    SortSetSorts(s, LexLe);
  }

  function SortInts(s: set<int>): (r: seq<int>)
    ensures SortedBy(r, IntLe) && Distinct(r) && |r| == |s|
    ensures forall x :: x in r <==> x in s
  {
    SortSetSorts(s, IntLe);
    SortSet(s, IntLe)
  }

  /** Insertion behind every element it ties with. */
  function InsertLast<T>(x: T, s: seq<T>, le: (T, T) -> bool): seq<T> {
    if s == [] then [x]
    else if le(s[|s| - 1], x) then s + [x]
    else InsertLast(x, s[..|s| - 1], le) + [s[|s| - 1]]
  }

  /** Python's stable `sorted` of a list. */
  function StableSort<T>(s: seq<T>, le: (T, T) -> bool): seq<T> {
    if s == [] then [] else InsertLast(s[|s| - 1], StableSort(s[..|s| - 1], le), le)
  }

  lemma {:induction false} InsertLastKeeps<T>(x: T, s: seq<T>, le: (T, T) -> bool)
    ensures multiset(InsertLast(x, s, le)) == multiset(s) + multiset{x}
  {
    if s == [] || le(s[|s| - 1], x) {
    } else {
      InsertLastKeeps(x, s[..|s| - 1], le);
      assert s == s[..|s| - 1] + [s[|s| - 1]];
    }
  }

  lemma {:induction false} InsertLastSorts<T(!new)>(x: T, s: seq<T>, le: (T, T) -> bool)
    requires TotalPreorder(le) && SortedBy(s, le)
    ensures SortedBy(InsertLast(x, s, le), le)
  {
    if s == [] {
    } else if le(s[|s| - 1], x) {
      forall i | 0 <= i < |s| ensures le(s[i], x) {
        if i < |s| - 1 { assert le(s[i], s[|s| - 1]); }
      }
    } else {
      var front, last := s[..|s| - 1], s[|s| - 1];
      InsertLastSorts(x, front, le);
      InsertLastKeeps(x, front, le);
      var r := InsertLast(x, front, le);
      forall i | 0 <= i < |r| ensures le(r[i], last) {
        assert r[i] in multiset(r);
        assert r[i] == x || r[i] in multiset(front);
      }
    }
  }

  lemma {:induction false} StableSortSorts<T(!new)>(s: seq<T>, le: (T, T) -> bool)
    requires TotalPreorder(le)
    ensures SortedBy(StableSort(s, le), le)
    ensures multiset(StableSort(s, le)) == multiset(s)
  {
    if s == [] {
    } else {
      StableSortSorts(s[..|s| - 1], le);
      InsertLastSorts(s[|s| - 1], StableSort(s[..|s| - 1], le), le);
      InsertLastKeeps(s[|s| - 1], StableSort(s[..|s| - 1], le), le);
      assert s == s[..|s| - 1] + [s[|s| - 1]];
    }
  }

  /** Sorting what is already sorted moves nothing. */
  lemma {:induction false} StableSortOfSorted<T>(s: seq<T>, le: (T, T) -> bool)
    requires SortedBy(s, le)
    ensures StableSort(s, le) == s
  {
    if s == [] {
    } else {
      var front := s[..|s| - 1];
      StableSortOfSorted(front, le);
      assert s == front + [s[|s| - 1]];
    }
  }
}
