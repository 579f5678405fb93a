/**
 The names and sizes of BTF types (abicheck/btf_metadata.py), said kind by kind with the numbers the
 format gives them: what an answer is, given the answers for the id it refers to.
 */
module BtfMeaning {
  import opened BtfResolver
  import opened BtfTypes
  import opened ChainResolution
  import opened Options
  import opened QueryOrder

  // ----- decimal numbers -----

  predicate Digits(s: string) {
    forall i :: 0 <= i < |s| ==> '0' <= s[i] <= '9'
  }

  function ReadDecimal(s: string): nat
    requires Digits(s)
  {
    if s == "" then 0 else 10 * ReadDecimal(s[..|s| - 1]) + (s[|s| - 1] as int - '0' as int)
  }

  lemma DigitReads(d: nat)
    requires d < 10
    ensures '0' <= "0123456789"[d] <= '9' && "0123456789"[d] as int == '0' as int + d
    ensures "0123456789"[d] == '0' ==> d == 0
  {
  }

  lemma {:induction false} DigitBehind(s: string, last: char)
    requires Digits(s) && '0' <= last <= '9'
    ensures Digits(s + [last])
    ensures ReadDecimal(s + [last]) == 10 * ReadDecimal(s) + (last as int - '0' as int)
  {
    assert (s + [last])[..|s + [last]| - 1] == s;
  }

  /** A printed number reads back, and starts with no needless zero. */
  lemma {:induction false} DecReads(n: nat)
    ensures Dec(n) != "" && Digits(Dec(n)) && ReadDecimal(Dec(n)) == n
    ensures Dec(n)[0] == '0' ==> n == 0
  {
    var front, last := if n < 10 then "" else Dec(n / 10), "0123456789"[n % 10];
    DigitReads(n % 10);
    if n >= 10 {
      DecReads(n / 10);
    }
    DigitBehind(front, last);
    assert Dec(n) == front + [last];
  }

  // ----- names -----

  /** The name of an id whose chain ends: what plain recursion gives, and every run of queries (NameIsPlain). */
  ghost function PlainName(table: Table, id: int): string
    requires Acyclic(NameLinks(table), id)
  {
    Value(NameLinks(table), id)
  }

  predicate InTable(table: Table, id: int) {
    0 < id < |table.types|
  }

  lemma OutsideNames(table: Table, id: int)
    requires !InTable(table, id)
    ensures Acyclic(NameLinks(table), id)
    ensures PlainName(table, id) == if id == 0 then "void" else "<btf:" + DecInt(id) + ">"
  {
    ValueStep(NameLinks(table), id);
  }

  /** Kinds with a name of their own: INT, STRUCT, UNION, ENUM, FWD, FUNC, VAR, FLOAT and ENUM64. */
  lemma DeclaredNames(table: Table, id: int)
    requires InTable(table, id) && table.types[id].Kind() in {1, 4, 5, 6, 7, 12, 14, 16, 19}
    ensures Acyclic(NameLinks(table), id)
    ensures var t := table.types[id];
            var kind, declared, name := t.Kind(), table.strAt(t.nameOff), PlainName(table, id);
            && (declared != "" ==> name == declared)
            && (declared == "" && kind == 1 ==> name == "int")
            && (declared == "" && kind == 4 ==> name == "<anon struct>")
            && (declared == "" && kind == 5 ==> name == "<anon union>")
            && (declared == "" && kind in {6, 19} ==> name == "<anon enum>")
            && (declared == "" && kind == 7 && t.Kflag() == 0 ==> name == "<fwd struct>")
            && (declared == "" && kind == 7 && t.Kflag() == 1 ==> name == "<fwd union>")
            && (declared == "" && kind == 12 ==> name == "<func>")
            && (declared == "" && kind == 14 ==> name == "<var>")
            && (declared == "" && kind == 16 ==> name == "float")
  {
    ValueStep(NameLinks(table), id);
  }

  /** PTR, VOLATILE, CONST, RESTRICT, FUNC_PROTO and TYPE_TAG decorate the name of the type they refer to. */
  lemma DecoratedNames(table: Table, id: int)
    requires InTable(table, id) && table.types[id].Kind() in {2, 9, 10, 11, 13, 18}
    requires Acyclic(NameLinks(table), id)
    ensures Acyclic(NameLinks(table), table.types[id].sizeOrType)
    ensures var kind := table.types[id].Kind();
            var name, of := PlainName(table, id), PlainName(table, table.types[id].sizeOrType);
            && (kind == 2 ==> name == of + " *")
            && (kind == 9 ==> name == "volatile " + of)
            && (kind == 10 ==> name == "const " + of)
            && (kind == 11 ==> name == "restrict " + of)
            && (kind == 13 ==> name == of + "(...)")
            && (kind == 18 ==> name == of)
  {
    var Around(target, before, behind) := NameOf(table, id);
    DecoratedName(table, id, target, before, behind);
  }

  lemma DecoratedName(table: Table, id: int, target: int, before: string, behind: string)
    requires NameOf(table, id) == Around(target, before, behind) && Acyclic(NameLinks(table), id)
    ensures Acyclic(NameLinks(table), target)
    ensures PlainName(table, id) == before + PlainName(table, target) + behind
  {
    ValueStep(NameLinks(table), id);
  }

  /** A typedef has its own name or, without one, that of its type. */
  lemma TypedefNames(table: Table, id: int)
    requires InTable(table, id) && table.types[id].Kind() == 8
    ensures var t := table.types[id];
            var declared := table.strAt(t.nameOff);
            && (declared != "" ==> Acyclic(NameLinks(table), id) && PlainName(table, id) == declared)
            && (declared == "" && Acyclic(NameLinks(table), id) ==>
                  Acyclic(NameLinks(table), t.sizeOrType) && PlainName(table, id) == PlainName(table, t.sizeOrType))
  {
    ValueStep(NameLinks(table), id);
  }

  /** An array shows its element type, the first word behind the entry, and its length, the third. */
  lemma ArrayNames(table: Table, id: int)
    requires InTable(table, id) && table.types[id].Kind() == 3
    ensures var extra := table.types[id].extra;
            && (|extra| < 12 ==> Acyclic(NameLinks(table), id) && PlainName(table, id) == "[]")
            && (|extra| >= 12 && Acyclic(NameLinks(table), id) ==>
                  && Acyclic(NameLinks(table), U32At(extra, 0))
                  && PlainName(table, id) == PlainName(table, U32At(extra, 0)) + "[" + Dec(U32At(extra, 8)) + "]")
  {
    ValueStep(NameLinks(table), id);
  }

  lemma OtherNames(table: Table, id: int)
    requires InTable(table, id)
    requires table.types[id].Kind() !in {1, 2, 3, 4, 5, 6, 7, 8, 9, 10, 11, 12, 13, 14, 16, 18, 19}
    ensures Acyclic(NameLinks(table), id)
    ensures PlainName(table, id) == "<btf_kind_" + Dec(table.types[id].Kind()) + ":" + Dec(id) + ">"
  {
    ValueStep(NameLinks(table), id);
  }

  /** An id that refers to another adds nothing to its name just when it is a type tag or a nameless typedef. */
  lemma WeightlessKinds(table: Table, id: int)
    requires InTable(table, id) && NameLinks(table)(id).Via?
    ensures var t := table.types[id];
            NameWeight(table)(id) == 0 <==> t.Kind() == 18 || (t.Kind() == 8 && table.strAt(t.nameOff) == "")
  {
  }

  // ----- sizes -----

  /** The answer for a size after any queries at all. */
  ghost function SizeAfter(table: Table, queries: seq<int>, id: int): nat {
    LinksAreBounded(table);
    Answer(SizeLinks(table), |table.types|, CUT_SIZE, queries, id)
  }

  lemma SizeIsPlain(table: Table, queries: seq<int>, id: int)
    ensures SizeAfter(table, queries, id)
         == if Acyclic(SizeLinks(table), id) then Value(SizeLinks(table), id) else 0
  {
    LinksAreBounded(table);
    SizesAbsorb(table);
    var link, limit := SizeLinks(table), |table.types|;
    QueriesStayTruthful(link, limit, CUT_SIZE, queries);
    QueriesStayCut(link, limit, CUT_SIZE, queries);
    ResolveIsPlain(link, limit, CUT_SIZE, CacheAfter(link, limit, CUT_SIZE, queries), {}, id);
    ResolveIsCut(link, limit, CUT_SIZE, CacheAfter(link, limit, CUT_SIZE, queries), {}, id);
  }

  /** INT, PTR, STRUCT, UNION, ENUM, FLOAT and ENUM64 have a size of their own; what has none has size 0. */
  lemma OwnSizes(table: Table, queries: seq<int>, id: int)
    ensures !InTable(table, id) ==> SizeAfter(table, queries, id) == 0
    ensures InTable(table, id) ==>
              var t := table.types[id];
              var kind, size := t.Kind(), SizeAfter(table, queries, id);
              && (kind in {4, 5, 6, 16, 19} ==> size == t.sizeOrType)
              && (kind == 1 ==> size == if |t.extra| >= 4 then (t.extra[0] + 7) / 8 else t.sizeOrType)
              && (kind == 2 ==> size == table.pointerSize)
              && (kind == 3 && |t.extra| < 12 ==> size == 0)
              && (kind !in {1, 2, 3, 4, 5, 6, 8, 9, 10, 11, 16, 18, 19} ==> size == 0)
  {
    SizeIsPlain(table, queries, id);
    ValueStep(SizeLinks(table), id);
    if InTable(table, id) && |table.types[id].extra| >= 4 {
      FirstByte(table.types[id].extra);
    }
  }

  lemma FirstByte(data: seq<Byte>)
    requires |data| >= 4
    ensures U32At(data, 0) % 0x100 == data[0]
  {
    var a: int, b: int, c: int, d: int := data[0], data[1], data[2], data[3];
    assert U32At(data, 0) == a + 0x100 * (b + 0x100 * c + 0x1_0000 * d);
  }

  /**
   TYPEDEF, VOLATILE, CONST, RESTRICT and TYPE_TAG have the size of the type they refer to, an array
   that of its elements times its length, whatever was asked before and whether or not the ids run
   into a cycle.
   */
  lemma ReferredSizes(table: Table, queries: seq<int>, others: seq<int>, id: int)
    requires InTable(table, id)
    ensures var t := table.types[id];
            && (t.Kind() in {8, 9, 10, 11, 18} ==>
                  SizeAfter(table, queries, id) == SizeAfter(table, others, t.sizeOrType))
            && (t.Kind() == 3 && |t.extra| >= 12 ==>
                  SizeAfter(table, queries, id) == SizeAfter(table, others, U32At(t.extra, 0)) * U32At(t.extra, 8))
  {
    var t := table.types[id];
    SizeIsPlain(table, queries, id);
    ValueStep(SizeLinks(table), id);
    if t.Kind() == 3 && |t.extra| >= 12 {
      SizeIsPlain(table, others, U32At(t.extra, 0));
    } else {
      SizeIsPlain(table, others, t.sizeOrType);
    }
  }
}
