/**
 The order in which the detector of abicheck/bundle_detectors.py reports, said of the libraries'
 own imports: symbol by symbol as they are first imported, and each by library and import.
 */
module FindingOrder {
  import opened BundleDetectors
  import opened BundleGraph
  import opened BundleRemovals
  import opened Options
  import opened Ordering

  // ----- the order -----

  /** The `i`-th import of the `l`-th library is of `symbol`. */
  predicate Imports(libs: Libraries, l: int, i: int, symbol: string) {
    0 <= l < |libs| && 0 <= i < |libs[l].1.imports| && libs[l].1.imports[i].name == symbol
  }

  predicate Earlier(l: int, i: int, l': int, i': int) {
    l < l' || (l == l' && i < i')
  }

  /** Some import of `x` comes before all those of `y`. */
  ghost predicate ImportedFirst(libs: Libraries, x: string, y: string) {
    exists l, i :: Imports(libs, l, i, x) && forall l', i' :: Imports(libs, l', i', y) ==> Earlier(l, i, l', i')
  }

  /** Of one symbol, `a` imports it before `b` does. */
  ghost predicate ImportsBefore(libs: Libraries, symbol: string, a: string, b: string) {
    exists l, i, l', i' ::
      && Imports(libs, l, i, symbol) && libs[l].0 == a
      && Imports(libs, l', i', symbol) && libs[l'].0 == b
      && Earlier(l, i, l', i')
  }

  ghost predicate ReportedFirst(libs: Libraries, f: Finding, g: Finding) {
    if f.symbol == g.symbol then ImportsBefore(libs, f.symbol, f.library, g.library)
    else ImportedFirst(libs, f.symbol, g.symbol)
  }

  // ----- symbols -----

  lemma {:induction false} ImportNamesAt(imports: seq<ElfImport>)
    ensures |ImportNames(imports)| == |imports|
    ensures forall i :: 0 <= i < |imports| ==> ImportNames(imports)[i] == imports[i].name
  {
    if imports == [] {
    } else {
      ImportNamesAt(imports[..|imports| - 1]);
    }
  }

  lemma {:induction false} ImportsAreNamed(libs: Libraries, l: int, i: int, symbol: string)
    requires Imports(libs, l, i, symbol)
    ensures symbol in ImportedNames(libs)
    decreases |libs|
  {
    var front := libs[..|libs| - 1];
    if l < |front| {
      ImportsAreNamed(front, l, i, symbol);
    } else {
      ImportNamesAt(libs[l].1.imports);
      assert ImportNames(libs[l].1.imports)[i] == symbol;
    }
  }

  lemma {:induction false} NamedInOrder(libs: Libraries, x: string, y: string)
    requires Precedes(ImportedNames(libs), x, y)
    ensures ImportedFirst(libs, x, y)
    decreases |libs|
  {
    if libs == [] {
      assert false;
    } else {
      var front, last := libs[..|libs| - 1], libs[|libs| - 1];
      PrecedesSplit(ImportedNames(front), ImportNames(last.1.imports), x, y);
      if Precedes(ImportedNames(front), x, y) {
        NamedInOrder(front, x, y);
        EarlierLibrary(front, last, x, y);
      } else {
        LastLibrary(front, last, x, y);
      }
      assert libs == front + [last];
    }
  }

  lemma EarlierLibrary(front: Libraries, last: (string, ElfMetadata), x: string, y: string)
    requires ImportedFirst(front, x, y)
    ensures ImportedFirst(front + [last], x, y)
  {
    var libs := front + [last];
    var l, i :| Imports(front, l, i, x) && forall l', i' :: Imports(front, l', i', y) ==> Earlier(l, i, l', i');
    assert Imports(libs, l, i, x);
    forall l', i' | Imports(libs, l', i', y) ensures Earlier(l, i, l', i') {
      assert l' < |front| ==> Imports(front, l', i', y);
    }
  }

  lemma LastLibrary(front: Libraries, last: (string, ElfMetadata), x: string, y: string)
    requires y !in ImportedNames(front) && Precedes(ImportNames(last.1.imports), x, y)
    ensures ImportedFirst(front + [last], x, y)
  {
    var libs, names := front + [last], ImportNames(last.1.imports);
    ImportNamesAt(last.1.imports);
    var k :| 0 <= k < |names| && names[k] == x && y !in names[..k + 1];
    assert Imports(libs, |front|, k, x);
    assert forall j :: 0 <= j <= k ==> names[..k + 1][j] == last.1.imports[j].name;
    forall l', i' | Imports(libs, l', i', y) ensures Earlier(|front|, k, l', i') {
      if l' < |front| {
        assert Imports(front, l', i', y);
        ImportsAreNamed(front, l', i', y);
        assert false;
      }
    }
  }

  // ----- consumers -----

  lemma {:induction false} ConsumerAt(name: string, imports: seq<ElfImport>, symbol: string, p: nat) returns (i: nat)
    requires p < |ConsumersIn(name, imports, symbol)|
    ensures i < |imports| && imports[i].name == symbol && ConsumersIn(name, imports, symbol)[p].library == name
    decreases |imports|
  {
    var front := imports[..|imports| - 1];
    if p < |ConsumersIn(name, front, symbol)| {
      i := ConsumerAt(name, front, symbol, p);
    } else {
      i := |imports| - 1;
    }
  }

  lemma {:induction false} ConsumersAt(name: string, imports: seq<ElfImport>, symbol: string, p: nat, q: nat)
    returns (i: nat, j: nat)
    requires p < q < |ConsumersIn(name, imports, symbol)|
    ensures i < j < |imports| && imports[i].name == imports[j].name == symbol
    ensures ConsumersIn(name, imports, symbol)[p].library == ConsumersIn(name, imports, symbol)[q].library == name
    decreases |imports|
  {
    var front := imports[..|imports| - 1];
    if q < |ConsumersIn(name, front, symbol)| {
      i, j := ConsumersAt(name, front, symbol, p, q);
    } else {
      i := ConsumerAt(name, front, symbol, p);
      j := |imports| - 1;
    }
  }

  lemma {:induction false} ConsumerOfAt(libs: Libraries, symbol: string, p: nat) returns (l: nat, i: nat)
    requires p < |ConsumersOf(libs, symbol)|
    ensures Imports(libs, l, i, symbol) && libs[l].0 == ConsumersOf(libs, symbol)[p].library
    decreases |libs|
  {
    var front, last := libs[..|libs| - 1], libs[|libs| - 1];
    var before := |ConsumersOf(front, symbol)|;
    if p < before {
      l, i := ConsumerOfAt(front, symbol, p);
    } else {
      l := |front|;
      i := ConsumerAt(last.0, last.1.imports, symbol, p - before);
    }
  }

  lemma {:induction false} ConsumersInOrder(libs: Libraries, symbol: string, p: nat, q: nat)
    requires p < q < |ConsumersOf(libs, symbol)|
    ensures ImportsBefore(libs, symbol, ConsumersOf(libs, symbol)[p].library, ConsumersOf(libs, symbol)[q].library)
    decreases |libs|
  {
    var front, last := libs[..|libs| - 1], libs[|libs| - 1];
    var before := |ConsumersOf(front, symbol)|;
    assert libs == front + [last];
    if q < before {
      ConsumersInOrder(front, symbol, p, q);
      BeforeStays(front, last, symbol, ConsumersOf(front, symbol)[p].library, ConsumersOf(front, symbol)[q].library);
    } else if p < before {
      var l, i := ConsumerOfAt(front, symbol, p);
      var j := ConsumerAt(last.0, last.1.imports, symbol, q - before);
      assert Imports(libs, l, i, symbol) && Imports(libs, |front|, j, symbol) && Earlier(l, i, |front|, j);
    } else {
      var i, j := ConsumersAt(last.0, last.1.imports, symbol, p - before, q - before);
      assert Imports(libs, |front|, i, symbol) && Imports(libs, |front|, j, symbol);
      assert Earlier(|front|, i, |front|, j);
    }
  }

  lemma BeforeStays(front: Libraries, last: (string, ElfMetadata), symbol: string, a: string, b: string)
    requires ImportsBefore(front, symbol, a, b)
    ensures ImportsBefore(front + [last], symbol, a, b)
  {
    var libs := front + [last];
    var l, i, l', i' :| Imports(front, l, i, symbol) && front[l].0 == a && Imports(front, l', i', symbol)
                        && front[l'].0 == b && Earlier(l, i, l', i');
    assert Imports(libs, l, i, symbol) && Imports(libs, l', i', symbol);
  }

  // ----- findings -----

  lemma {:induction false} VerdictAt(policy: Policy, old_: Snapshot, new_: Snapshot, symbol: string,
                                     consumers: seq<ConsumerEntry>, a: nat) returns (p: nat)
    requires a < |VerdictsOn(policy, old_, new_, symbol, consumers)|
    ensures p < |consumers|
    ensures var f := VerdictsOn(policy, old_, new_, symbol, consumers)[a];
            f.symbol == symbol && f.library == consumers[p].library
    decreases |consumers|
  {
    var front := consumers[..|consumers| - 1];
    if a < |VerdictsOn(policy, old_, new_, symbol, front)| {
      p := VerdictAt(policy, old_, new_, symbol, front, a);
    } else {
      p := |consumers| - 1;
    }
  }

  lemma {:induction false} VerdictsAt(policy: Policy, old_: Snapshot, new_: Snapshot, symbol: string,
                                      consumers: seq<ConsumerEntry>, a: nat, b: nat) returns (p: nat, q: nat)
    requires a < b < |VerdictsOn(policy, old_, new_, symbol, consumers)|
    ensures p < q < |consumers|
    ensures var r := VerdictsOn(policy, old_, new_, symbol, consumers);
            && r[a].symbol == r[b].symbol == symbol
            && r[a].library == consumers[p].library && r[b].library == consumers[q].library
    decreases |consumers|
  {
    var front := consumers[..|consumers| - 1];
    if b < |VerdictsOn(policy, old_, new_, symbol, front)| {
      p, q := VerdictsAt(policy, old_, new_, symbol, front, a, b);
    } else {
      p := VerdictAt(policy, old_, new_, symbol, front, a);
      q := |consumers| - 1;
    }
  }

  lemma {:induction false} FindingAt(policy: Policy, old_: Snapshot, new_: Snapshot, symbols: seq<string>, a: nat)
    returns (s: nat)
    requires a < |Findings(policy, old_, new_, symbols)|
    ensures s < |symbols| && Findings(policy, old_, new_, symbols)[a].symbol == symbols[s]
    decreases |symbols|
  {
    var front, last := symbols[..|symbols| - 1], symbols[|symbols| - 1];
    var before := |Findings(policy, old_, new_, front)|;
    if a < before {
      s := FindingAt(policy, old_, new_, front, a);
    } else {
      s := |symbols| - 1;
      var p := VerdictAt(policy, old_, new_, last, ListAt(new_.resolution.consumers, last), a - before);
    }
  }

  /** Two findings are of different symbols, in their order, or of one, in the order of its consumers. */
  lemma {:induction false} FindingsAt(policy: Policy, old_: Snapshot, new_: Snapshot, symbols: seq<string>, a: nat,
                                      b: nat)
    requires a < b < |Findings(policy, old_, new_, symbols)|
    ensures var f, g := Findings(policy, old_, new_, symbols)[a], Findings(policy, old_, new_, symbols)[b];
            || (exists s, t :: 0 <= s < t < |symbols| && symbols[s] == f.symbol && symbols[t] == g.symbol)
            || (f.symbol == g.symbol
                && var consumers := ListAt(new_.resolution.consumers, f.symbol);
                   exists p, q :: 0 <= p < q < |consumers|
                                  && consumers[p].library == f.library && consumers[q].library == g.library)
    decreases |symbols|
  {
    var front, last := symbols[..|symbols| - 1], symbols[|symbols| - 1];
    var before := |Findings(policy, old_, new_, front)|;
    if b < before {
      FindingsAt(policy, old_, new_, front, a, b);
    } else if a < before {
      var s := FindingAt(policy, old_, new_, front, a);
      var t := FindingAt(policy, old_, new_, symbols, b);
      var q := VerdictAt(policy, old_, new_, last, ListAt(new_.resolution.consumers, last), b - before);
      assert symbols[s] == front[s];
    } else {
      var p, q := VerdictsAt(policy, old_, new_, last, ListAt(new_.resolution.consumers, last), a - before,
                             b - before);
    }
  }

  /** The findings on a built bundle come in the order of the imports they are about. */
  lemma FindingsInOrder(policy: Policy, old_: Snapshot, new_: Snapshot, extra: seq<(string, seq<string>)>, a: nat,
                        b: nat)
    requires Built(new_, extra)
    requires a < b < |Findings(policy, old_, new_, new_.resolution.consumed)|
    ensures var findings := Findings(policy, old_, new_, new_.resolution.consumed);
            ReportedFirst(new_.metadata, findings[a], findings[b])
  {
    var symbols := new_.resolution.consumed;
    var f, g := Findings(policy, old_, new_, symbols)[a], Findings(policy, old_, new_, symbols)[b];
    FindingsAt(policy, old_, new_, symbols, a, b);
    FirstMentionsInOrder(ImportedNames(new_.metadata), 0);
    if s, t :| 0 <= s < t < |symbols| && symbols[s] == f.symbol && symbols[t] == g.symbol {
      FirstMentionsPrecede(ImportedNames(new_.metadata), s, t);
      NamedInOrder(new_.metadata, f.symbol, g.symbol);
    } else {
      var consumers := ListAt(new_.resolution.consumers, f.symbol);
      var p, q :| 0 <= p < q < |consumers| && consumers[p].library == f.library && consumers[q].library == g.library;
      ConsumersInOrder(new_.metadata, f.symbol, p, q);
    }
  }
}
