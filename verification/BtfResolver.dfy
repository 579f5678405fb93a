/**
 Names and sizes of BTF types (`_TypeResolver`, abicheck/btf_metadata.py): the memoising,
 cycle-cutting resolver over an arbitrary type table, proved equal to ChainResolution's
 state-passing function, and what follows for any run of queries.
 */
module BtfResolver {
  import opened BtfTypes
  import opened ChainResolution
  import opened QueryOrder
  import opened Options

  // ----- decimal numbers, as the f-strings print them -----

  function Dec(n: nat): string {
    (if n < 10 then "" else Dec(n / 10)) + ["0123456789"[n % 10]]
  }

  function DecInt(n: int): string {
    if n < 0 then "-" + Dec(-n) else Dec(n)
  }

  // ----- what each kind refers to -----

  /** The parsed table, the string section's reader and the ELF class's pointer size. */
  datatype Table = Table(types: seq<BtfType>, strAt: int -> string, pointerSize: nat)

  function Get(table: Table, id: int): Option<BtfType> {
    if 0 <= id < |table.types| then Some(table.types[id]) else None
  }

  function NamedKindDefault(kind: int, t: BtfType): Option<string> {
    if kind == BTF_KIND_STRUCT then Some("<anon struct>")
    else if kind == BTF_KIND_UNION then Some("<anon union>")
    else if kind == BTF_KIND_ENUM || kind == BTF_KIND_ENUM64 then Some("<anon enum>")
    else if kind == BTF_KIND_INT then Some("int")
    else if kind == BTF_KIND_FLOAT then Some("float")
    else if kind == BTF_KIND_FWD then Some(if t.Kflag() != 0 then "<fwd union>" else "<fwd struct>")
    else if kind == BTF_KIND_FUNC then Some("<func>")
    else if kind == BTF_KIND_VAR then Some("<var>")
    else None
  }

  /** The id whose name a compound kind decorates, with the text before and after it. */
  datatype Decoration = Own(text: string) | Around(target: int, before: string, behind: string) | NotCompound

  function Compound(kind: int, t: BtfType, tname: string): Decoration {
    if kind == BTF_KIND_PTR then Around(t.sizeOrType, "", " *")
    else if kind == BTF_KIND_ARRAY then
      if |t.extra| >= 12 then Around(U32At(t.extra, 0), "", "[" + Dec(U32At(t.extra, 8)) + "]") else Own("[]")
    else if kind == BTF_KIND_TYPEDEF then
      if tname != "" then Own(tname) else Around(t.sizeOrType, "", "")
    else if kind == BTF_KIND_VOLATILE then Around(t.sizeOrType, "volatile ", "")
    else if kind == BTF_KIND_CONST then Around(t.sizeOrType, "const ", "")
    else if kind == BTF_KIND_RESTRICT then Around(t.sizeOrType, "restrict ", "")
    else if kind == BTF_KIND_FUNC_PROTO then Around(t.sizeOrType, "", "(...)")
    else if kind == BTF_KIND_TYPE_TAG then Around(t.sizeOrType, "", "")
    else NotCompound
  }

  function NameOf(table: Table, id: int): Decoration {
    if id == 0 then Own("void")
    else match Get(table, id)
      case None => Own("<btf:" + DecInt(id) + ">")
      case Some(t) =>
        var kind, tname := t.Kind(), table.strAt(t.nameOff);
        match NamedKindDefault(kind, t)
        case Some(default) => Own(if tname != "" then tname else default)
        case None =>
          var d := Compound(kind, t, tname);
          if d.NotCompound? then Own("<btf_kind_" + DecInt(kind) + ":" + DecInt(id) + ">") else d
  }

  function Wrap(before: string, behind: string): string -> string {
    (name: string) => before + name + behind
  }

  function NameLink(table: Table, id: int): Link<string> {
    match NameOf(table, id)
    case Own(text) => Leaf(text)
    case Around(target, before, behind) => Via(target, Wrap(before, behind))
    case NotCompound => Leaf("")
  }

  /** The size of a kind of its own, or the id whose size it has `factor` times. */
  datatype Extent = Fixed(size: nat) | Times(target: int, factor: nat)

  function SizeOf(table: Table, id: int): Extent {
    if id == 0 then Fixed(0)
    else match Get(table, id)
      case None => Fixed(0)
      case Some(t) =>
        var kind := t.Kind();
        if kind == BTF_KIND_STRUCT || kind == BTF_KIND_UNION then Fixed(t.sizeOrType)
        else if kind == BTF_KIND_ENUM || kind == BTF_KIND_ENUM64 then Fixed(t.sizeOrType)
        else if kind == BTF_KIND_INT then
          if |t.extra| >= 4 then Fixed((U32At(t.extra, 0) % 0x100 + 7) / 8) else Fixed(t.sizeOrType)
        else if kind == BTF_KIND_FLOAT then Fixed(t.sizeOrType)
        else if kind == BTF_KIND_PTR then Fixed(table.pointerSize)
        else if kind == BTF_KIND_ARRAY then
          if |t.extra| >= 12 then Times(U32At(t.extra, 0), U32At(t.extra, 8)) else Fixed(0)
        else if kind == BTF_KIND_TYPEDEF || kind == BTF_KIND_VOLATILE || kind == BTF_KIND_CONST
             || kind == BTF_KIND_RESTRICT || kind == BTF_KIND_TYPE_TAG then Times(t.sizeOrType, 1)
        else Fixed(0)
  }

  function Scale(factor: nat): nat -> nat {
    (size: nat) => size * factor
  }

  function SizeLink(table: Table, id: int): Link<nat> {
    match SizeOf(table, id)
    case Fixed(size) => Leaf(size)
    case Times(target, factor) => Via(target, Scale(factor))
  }

  function NameLinks(table: Table): int -> Link<string> {
    id => NameLink(table, id)
  }

  function SizeLinks(table: Table): int -> Link<nat> {
    id => SizeLink(table, id)
  }

  const CUT_NAME := "..."
  const CUT_SIZE: nat := 0

  lemma LinksAreBounded(table: Table)
    ensures Bounded(NameLinks(table), |table.types|)
    ensures Bounded(SizeLinks(table), |table.types|)
  {
  }

  function ResolveName(table: Table, cache: map<int, string>, resolving: set<int>, id: int): (string, map<int, string>)
  {
    LinksAreBounded(table);
    Resolve(NameLinks(table), |table.types|, CUT_NAME, cache, resolving, id)
  }

  function ResolveSize(table: Table, cache: map<int, nat>, resolving: set<int>, id: int): (nat, map<int, nat>) {
    LinksAreBounded(table);
    Resolve(SizeLinks(table), |table.types|, CUT_SIZE, cache, resolving, id)
  }

  // ----- any run of queries -----

  /** A name whose chain ends is that of plain recursion, whatever was asked before. */
  lemma NameIsPlain(table: Table, queries: seq<int>, id: int)
    requires Acyclic(NameLinks(table), id)
    ensures Bounded(NameLinks(table), |table.types|)
    ensures Answer(NameLinks(table), |table.types|, CUT_NAME, queries, id) == Value(NameLinks(table), id)
  {
    LinksAreBounded(table);
    QueriesStayTruthful(NameLinks(table), |table.types|, CUT_NAME, queries);
    ResolveIsPlain(NameLinks(table), |table.types|, CUT_NAME,
                   CacheAfter(NameLinks(table), |table.types|, CUT_NAME, queries), {}, id);
  }

  /** The characters an id adds to the name it refers to. */
  function NameWeight(table: Table): int -> nat {
    id => match NameOf(table, id)
          case Around(_, before, behind) => |before| + |behind|
          case _ => 0
  }

  function Length(name: string): nat {
    |name|
  }

  /**
   A name is independent of earlier queries exactly when its chain ends, or when on the
   cycle it runs into every id but the first one met is a type tag or a nameless typedef.
   */
  lemma NameIndependence(table: Table, id: int)
    ensures Bounded(NameLinks(table), |table.types|)
    ensures OrderIndependent(NameLinks(table), |table.types|, CUT_NAME, id)
       <==> Steady(NameLinks(table), NameWeight(table), id)
  {
    LinksAreBounded(table);
    var link := NameLinks(table);
    forall i, v | link(i).Via?
      ensures Length(link(i).wrap(v)) == Length(v) + NameWeight(table)(i)
      ensures NameWeight(table)(i) == 0 ==> link(i).wrap(v) == v
    {
      var Around(_, before, behind) := NameOf(table, i);
      assert link(i).wrap(v) == before + v + behind;
    }
    assert Weighted(link, Length, NameWeight(table));
    IndependentIffSteady(link, |table.types|, CUT_NAME, NameWeight(table), Length, id);
  }

  /** Two pointers to each other: the first is named one star longer than after the second. */
  lemma PointerCycleDependsOnOrder(strAt: int -> string)
    ensures var ptr := BTF_KIND_PTR * 0x100_0000;
            var table := Table([VOID, BtfType(1, 0, ptr, 2, []), BtfType(2, 0, ptr, 1, [])], strAt, 8);
            && Bounded(NameLinks(table), 3)
            && Answer(NameLinks(table), 3, CUT_NAME, [], 1) == "... * *"
            && Answer(NameLinks(table), 3, CUT_NAME, [2], 1) == "... *"
  {
    var ptr := BTF_KIND_PTR * 0x100_0000;
    var table := Table([VOID, BtfType(1, 0, ptr, 2, []), BtfType(2, 0, ptr, 1, [])], strAt, 8);
    var link := NameLinks(table);
    LinksAreBounded(table);
    assert NameOf(table, 1) == Around(2, "", " *") && NameOf(table, 2) == Around(1, "", " *");
    assert link(1) == Via(2, Wrap("", " *")) && link(2) == Via(1, Wrap("", " *"));
    var star := Wrap("", " *");
    assert star("...") == "... *" && star("... *") == "... * *";
    var one, two := {} + {1}, {} + {2};
    assert one == {1} && two == {2} && one + {2} == two + {1};
    assert Resolve(link, 3, CUT_NAME, map[], one + {2}, 1) == ("...", map[]);
    assert Resolve(link, 3, CUT_NAME, map[], one, 2) == ("... *", map[2 := "... *"]);
    assert Resolve(link, 3, CUT_NAME, map[], {}, 1).0 == "... * *";
    assert Resolve(link, 3, CUT_NAME, map[], two + {1}, 2) == ("...", map[]);
    assert Resolve(link, 3, CUT_NAME, map[], two, 1) == ("... *", map[1 := "... *"]);
    assert Resolve(link, 3, CUT_NAME, map[], {}, 2).1 == map[1 := "... *", 2 := "... * *"];
    assert [2][..0] == [];
    assert CacheAfter(link, 3, CUT_NAME, [2]) == map[1 := "... *", 2 := "... * *"];
  }

  // ----- sizes -----

  /** Ids each of which has the next one's size, once or as often as its array length says. */
  predicate IsChain(table: Table, ids: seq<int>) {
    && ids != []
    && (forall i :: 0 <= i < |ids| - 1 ==> SizeOf(table, ids[i]).Times? && SizeOf(table, ids[i]).target == ids[i + 1])
    && SizeOf(table, ids[|ids| - 1]).Fixed?
  }

  predicate IsArray(table: Table, id: int) {
    Get(table, id).Some? && Get(table, id).value.Kind() == BTF_KIND_ARRAY && |Get(table, id).value.extra| >= 12
  }

  /** The element counts of the arrays among some ids; qualifiers, typedefs and tags have none. */
  function ArrayLengths(table: Table, ids: seq<int>): seq<nat> {
    if ids == [] then []
    else
      var rest := ArrayLengths(table, ids[1..]);
      if IsArray(table, ids[0]) then [U32At(Get(table, ids[0]).value.extra, 8)] + rest else rest
  }

  function Product(lengths: seq<nat>): nat {
    if lengths == [] then 1 else lengths[0] * Product(lengths[1..])
  }

  /** The size at the end of a chain, times the lengths of the arrays on the way there. */
  function ChainSize(table: Table, ids: seq<int>): nat
    requires IsChain(table, ids)
  {
    Product(ArrayLengths(table, ids[..|ids| - 1])) * SizeOf(table, ids[|ids| - 1]).size
  }

  lemma FactorIsArrayLength(table: Table, id: int)
    requires SizeOf(table, id).Times?
    ensures SizeOf(table, id).factor == Product(ArrayLengths(table, [id]))
  {
    assert [id][1..] == [];
    assert ArrayLengths(table, []) == [];
    var lengths := ArrayLengths(table, [id]);
    assert lengths == if IsArray(table, id) then [U32At(Get(table, id).value.extra, 8)] else [];
    assert lengths != [] ==> lengths[1..] == [];
  }

  lemma ProductStep(table: Table, ids: seq<int>)
    requires ids != [] && SizeOf(table, ids[0]).Times?
    ensures Product(ArrayLengths(table, ids)) == SizeOf(table, ids[0]).factor * Product(ArrayLengths(table, ids[1..]))
  {
    FactorIsArrayLength(table, ids[0]);
    var rest := ArrayLengths(table, ids[1..]);
    if IsArray(table, ids[0]) {
      assert ArrayLengths(table, ids)[1..] == rest;
      assert [ids[0]][1..] == [] && ArrayLengths(table, [ids[0]])[1..] == [];
    } else {
      assert ArrayLengths(table, ids) == rest;
      assert [ids[0]][1..] == [];
    }
  }

  /** Plain recursion down a chain multiplies the array lengths on it. */
  lemma {:induction false} PlainSizeIsProduct(table: Table, ids: seq<int>)
    requires IsChain(table, ids)
    ensures EndsIn(SizeLinks(table), ids[0], |ids| - 1)
    ensures Plain(SizeLinks(table), ids[0], |ids| - 1) == ChainSize(table, ids)
    decreases |ids|
  {
    if |ids| == 1 {
      assert ArrayLengths(table, ids[..0]) == [];
    } else {
      ChainStep(table, ids);
      PlainSizeIsProduct(table, ids[1..]);
      assert SizeLinks(table)(ids[0]) == Via(ids[1], Scale(SizeOf(table, ids[0]).factor));
      assert Scale(SizeOf(table, ids[0]).factor)(ChainSize(table, ids[1..]))
          == ChainSize(table, ids[1..]) * SizeOf(table, ids[0]).factor;
    }
  }

  lemma ChainStep(table: Table, ids: seq<int>)
    requires IsChain(table, ids) && |ids| > 1
    ensures IsChain(table, ids[1..])
    ensures SizeOf(table, ids[0]) == Times(ids[1], SizeOf(table, ids[0]).factor)
    ensures ChainSize(table, ids) == ChainSize(table, ids[1..]) * SizeOf(table, ids[0]).factor
  {
    var rest, arrays := ids[1..], ids[..|ids| - 1];
    assert forall i :: 0 <= i < |rest| ==> rest[i] == ids[i + 1];
    ProductStep(table, arrays);
    assert arrays[1..] == rest[..|rest| - 1];
    var others := Product(ArrayLengths(table, arrays[1..]));
    Regrouped(SizeOf(table, ids[0]).factor, others, SizeOf(table, ids[|ids| - 1]).size);
  }

  lemma Regrouped(a: nat, b: nat, c: nat)
    ensures b * c * a == a * b * c
  {
  }

  /** A chain that ends is one. */
  lemma {:induction false} ChainExists(table: Table, id: int, hops: nat) returns (ids: seq<int>)
    requires EndsIn(SizeLinks(table), id, hops)
    ensures IsChain(table, ids) && ids[0] == id
    decreases hops
  {
    if hops == 0 {
      ids := [id];
    } else {
      var rest := ChainExists(table, SizeOf(table, id).target, hops - 1);
      ids := [id] + rest;
    }
  }

  /**
   Sizes never depend on earlier queries: down a chain that ends, the product of the array
   lengths times the size at the end; 0 when there is no such chain.
   */
  lemma SizeIsProduct(table: Table, queries: seq<int>, id: int)
    ensures Bounded(SizeLinks(table), |table.types|)
    ensures var size := Answer(SizeLinks(table), |table.types|, CUT_SIZE, queries, id);
            && (forall ids :: IsChain(table, ids) && ids[0] == id ==> size == ChainSize(table, ids))
            && ((forall ids :: IsChain(table, ids) ==> ids[0] != id) ==> size == 0)
  {
    LinksAreBounded(table);
    var link, limit := SizeLinks(table), |table.types|;
    SizesAbsorb(table);
    QueriesStayTruthful(link, limit, CUT_SIZE, queries);
    QueriesStayCut(link, limit, CUT_SIZE, queries);
    ResolveIsPlain(link, limit, CUT_SIZE, CacheAfter(link, limit, CUT_SIZE, queries), {}, id);
    ResolveIsCut(link, limit, CUT_SIZE, CacheAfter(link, limit, CUT_SIZE, queries), {}, id);
    forall ids | IsChain(table, ids) && ids[0] == id
      ensures Acyclic(link, id) && Value(link, id) == ChainSize(table, ids)
    {
      PlainSizeIsProduct(table, ids);
      ValueIsPlain(link, id, |ids| - 1);
    }
    if hops: nat :| EndsIn(link, id, hops) {
      var ids := ChainExists(table, id, hops);
    }
  }

  lemma SizesAbsorb(table: Table)
    ensures Absorbs(SizeLinks(table), CUT_SIZE)
  {
  }

  // ----- the resolver -----

  class TypeResolver {
    const table: Table
    var nameCache: map<int, string>
    var sizeCache: map<int, nat>
    var resolvingName: set<int>
    var resolvingSize: set<int>

    /** Between queries: nothing is being resolved, and the caches tell the truth. */
    ghost predicate Settled()
      reads this
    {
      && resolvingName == {} && resolvingSize == {}
      && Truthful(NameLinks(table), nameCache)
      && Truthful(SizeLinks(table), sizeCache) && CutOnCycles(SizeLinks(table), CUT_SIZE, sizeCache)
    }

    constructor (table: Table)
      ensures this.table == table && Settled()
      ensures nameCache == map[] && sizeCache == map[] && resolvingName == {} && resolvingSize == {}
    {
      this.table := table;
      nameCache, sizeCache, resolvingName, resolvingSize := map[], map[], {}, {};
    }

    method Name(id: int) returns (name: string)
      modifies this`nameCache, this`resolvingName
      ensures (name, nameCache) == ResolveName(table, old(nameCache), old(resolvingName), id)
      ensures resolvingName == old(resolvingName)
      ensures old(Settled()) ==> Settled() && (Acyclic(NameLinks(table), id) ==> name == Value(NameLinks(table), id))
      decreases Open(|table.types|, resolvingName), 1
    {
      LinksAreBounded(table);
      NameStaysTruthful(id);
      if id in nameCache {
        return nameCache[id];
      }
      if id in resolvingName {
        return CUT_NAME;
      }
      resolvingName := resolvingName + {id};
      name := ResolveNameOf(id);
      nameCache := nameCache[id := name];
      resolvingName := resolvingName - {id};
    }

    lemma NameStaysTruthful(id: int)
      ensures Settled() ==>
                var (result, after) := ResolveName(table, nameCache, resolvingName, id);
                && Truthful(NameLinks(table), after)
                && (Acyclic(NameLinks(table), id) ==> result == Value(NameLinks(table), id))
    {
      if Settled() {
        LinksAreBounded(table);
        ResolveIsPlain(NameLinks(table), |table.types|, CUT_NAME, nameCache, {}, id);
      }
    }

    lemma SizeStaysTruthful(id: int)
      ensures Settled() ==>
                var (result, after) := ResolveSize(table, sizeCache, resolvingSize, id);
                && Truthful(SizeLinks(table), after) && CutOnCycles(SizeLinks(table), CUT_SIZE, after)
                && result == if Acyclic(SizeLinks(table), id) then Value(SizeLinks(table), id) else 0
    {
      if Settled() {
        LinksAreBounded(table);
        SizesAbsorb(table);
        ResolveIsPlain(SizeLinks(table), |table.types|, CUT_SIZE, sizeCache, {}, id);
        ResolveIsCut(SizeLinks(table), |table.types|, CUT_SIZE, sizeCache, {}, id);
      }
    }

    /** `_resolve_name`, entered with the id marked as being resolved. */
    method ResolveNameOf(id: int) returns (name: string)
      requires id in resolvingName
      modifies this`nameCache, this`resolvingName
      ensures match NameLink(table, id)
              case Leaf(text) => name == text && nameCache == old(nameCache)
              case Via(target, wrap) =>
                var (inner, after) := ResolveName(table, old(nameCache), old(resolvingName), target);
                name == wrap(inner) && nameCache == after
      ensures resolvingName == old(resolvingName)
      decreases Open(|table.types|, resolvingName - {id}), 0
    {
      match NameOf(table, id)
      case Own(text) => name := text;
      case Around(target, before, behind) =>
        assert id in Open(|table.types|, resolvingName - {id}) && id !in Open(|table.types|, resolvingName);
        var inner := Name(target);
        name := before + inner + behind;
      case NotCompound => name := "";
    }

    method Size(id: int) returns (size: nat)
      modifies this`sizeCache, this`resolvingSize
      ensures (size, sizeCache) == ResolveSize(table, old(sizeCache), old(resolvingSize), id)
      ensures resolvingSize == old(resolvingSize)
      ensures old(Settled()) ==> Settled()
      ensures old(Settled()) ==> size == if Acyclic(SizeLinks(table), id) then Value(SizeLinks(table), id) else 0
      decreases Open(|table.types|, resolvingSize), 1
    {
      LinksAreBounded(table);
      SizeStaysTruthful(id);
      if id in sizeCache {
        return sizeCache[id];
      }
      if id in resolvingSize {
        return CUT_SIZE;
      }
      resolvingSize := resolvingSize + {id};
      size := ResolveSizeOf(id);
      sizeCache := sizeCache[id := size];
      resolvingSize := resolvingSize - {id};
    }

    /** `_resolve_size`, entered with the id marked as being resolved. */
    method ResolveSizeOf(id: int) returns (size: nat)
      requires id in resolvingSize
      modifies this`sizeCache, this`resolvingSize
      ensures match SizeLink(table, id)
              case Leaf(own) => size == own && sizeCache == old(sizeCache)
              case Via(target, wrap) =>
                var (inner, after) := ResolveSize(table, old(sizeCache), old(resolvingSize), target);
                size == wrap(inner) && sizeCache == after
      ensures resolvingSize == old(resolvingSize)
      decreases Open(|table.types|, resolvingSize - {id}), 0
    {
      match SizeOf(table, id)
      case Fixed(own) => size := own;
      case Times(target, factor) =>
        assert id in Open(|table.types|, resolvingSize - {id}) && id !in Open(|table.types|, resolvingSize);
        var inner := Size(target);
        size := inner * factor;
    }
  }
}
