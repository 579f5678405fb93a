/**
 The BTF type section (abicheck/btf_metadata.py): the entries, their encoding, and the
 parser's loop.  A parse is characterised without reference to the loop: the entries
 re-encode to a prefix of the data, and what is left holds no complete entry.
 */
module BtfTypes {
  type Byte = b: int | 0 <= b < 0x100
  type U32 = n: int | 0 <= n < 0x1_0000_0000

  const BTF_KIND_INT := 1
  const BTF_KIND_PTR := 2
  const BTF_KIND_ARRAY := 3
  const BTF_KIND_STRUCT := 4
  const BTF_KIND_UNION := 5
  const BTF_KIND_ENUM := 6
  const BTF_KIND_FWD := 7
  const BTF_KIND_TYPEDEF := 8
  const BTF_KIND_VOLATILE := 9
  const BTF_KIND_CONST := 10
  const BTF_KIND_RESTRICT := 11
  const BTF_KIND_FUNC := 12
  const BTF_KIND_FUNC_PROTO := 13
  const BTF_KIND_VAR := 14
  const BTF_KIND_DATASEC := 15
  const BTF_KIND_FLOAT := 16
  const BTF_KIND_DECL_TAG := 17
  const BTF_KIND_TYPE_TAG := 18
  const BTF_KIND_ENUM64 := 19

  datatype BtfType = BtfType(typeId: int, nameOff: U32, info: U32, sizeOrType: U32, extra: seq<Byte>) {

    function Kind(): int {
      info / 0x100_0000 % 0x20
    }

    function Vlen(): nat {
      info % 0x1_0000
    }

    function Kflag(): int {
      info / 0x8000_0000 % 2
    }
  }

  /** The info word's layout: vlen in bits 0-15, kind in bits 24-28, kflag in bit 31. */
  lemma InfoFields(t: BtfType, vlen: nat, unused: nat, kind: nat, spare: nat, kflag: nat)
    requires vlen < 0x1_0000 && unused < 0x100 && kind < 0x20 && spare < 4 && kflag < 2
    requires t.info == vlen + 0x1_0000 * unused + 0x100_0000 * kind + 0x2000_0000 * spare + 0x8000_0000 * kflag
    ensures t.Vlen() == vlen && t.Kind() == kind && t.Kflag() == kflag
  {
    var info: int := t.info;
    assert info / 0x100_0000 == kind + 0x20 * spare + 0x80 * kflag;
    assert info / 0x8000_0000 == kflag;
  }

  const VOID := BtfType(0, 0, 0, 0, [])

  function ExtraDataSize(kind: int, vlen: nat): nat {
    if kind == BTF_KIND_INT || kind == BTF_KIND_FLOAT then 4
    else if kind == BTF_KIND_ARRAY then 12
    else if kind == BTF_KIND_STRUCT || kind == BTF_KIND_UNION then vlen * 12
    else if kind == BTF_KIND_ENUM then vlen * 8
    else if kind == BTF_KIND_ENUM64 then vlen * 12
    else if kind == BTF_KIND_FUNC_PROTO then vlen * 8
    else if kind == BTF_KIND_VAR then 4
    else if kind == BTF_KIND_DATASEC then vlen * 12
    else if kind == BTF_KIND_DECL_TAG then 4
    else 0
  }

  // ----- little-endian words -----

  function U32At(data: seq<Byte>, pos: nat): (n: U32)
    requires pos + 4 <= |data|
  {
    var a: int, b: int, c: int, d: int := data[pos], data[pos + 1], data[pos + 2], data[pos + 3];
    a + 0x100 * b + 0x1_0000 * c + 0x100_0000 * d
  }

  function EncodeU32(n: U32): (data: seq<Byte>)
    ensures |data| == 4 && U32At(data, 0) == n
  {
    var n1: int := n / 0x100;
    var n2: int := n1 / 0x100;
    [n % 0x100, n1 % 0x100, n2 % 0x100, n2 / 0x100]
  }

  lemma U32AtEncodes(data: seq<Byte>, pos: nat)
    requires pos + 4 <= |data|
    ensures EncodeU32(U32At(data, pos)) == data[pos..pos + 4]
  {
    var a: int, b: int, c: int, d: int := data[pos], data[pos + 1], data[pos + 2], data[pos + 3];
    var n := U32At(data, pos);
    assert n / 0x100 == b + 0x100 * c + 0x1_0000 * d;
    assert n / 0x100 / 0x100 == c + 0x100 * d;
    assert data[pos..pos + 4] == [a, b, c, d];
  }

  // ----- entries -----

  function Encode(t: BtfType): seq<Byte> {
    EncodeU32(t.nameOff) + EncodeU32(t.info) + EncodeU32(t.sizeOrType) + t.extra
  }

  function EncodeAll(types: seq<BtfType>): seq<Byte> {
    if types == [] then [] else Encode(types[0]) + EncodeAll(types[1..])
  }

  predicate WellFormed(t: BtfType, id: int) {
    t.typeId == id && |t.extra| == ExtraDataSize(t.Kind(), t.Vlen())
  }

  /** The data starts with an entry whose trailing data is all there. */
  predicate HoldsEntry(data: seq<Byte>) {
    |data| >= 12
    && var info := U32At(data, 4);
       12 + ExtraDataSize(info / 0x100_0000 % 0x20, info % 0x1_0000) <= |data|
  }

  /** `types`, numbered from `id`, are the data up to a tail without a complete entry. */
  predicate Spells(data: seq<Byte>, types: seq<BtfType>, id: int) {
    && (forall i :: 0 <= i < |types| ==> WellFormed(types[i], id + i))
    && EncodeAll(types) <= data
    && !HoldsEntry(data[|EncodeAll(types)|..])
  }

  /** What a parse is: the void sentinel, then the entries numbered by list index. */
  predicate ParsesTo(data: seq<Byte>, types: seq<BtfType>) {
    |types| >= 1 && types[0] == VOID && Spells(data, types[1..], 1)
  }

  lemma EncodedEntry(t: BtfType, rest: seq<Byte>)
    ensures var data := Encode(t) + rest;
            && |Encode(t)| == 12 + |t.extra|
            && U32At(data, 0) == t.nameOff && U32At(data, 4) == t.info && U32At(data, 8) == t.sizeOrType
            && data[12..12 + |t.extra|] == t.extra
            && data[12 + |t.extra|..] == rest
  {
  }

  /** No data can be read in two ways. */
  lemma {:induction false} SpellsUniquely(data: seq<Byte>, a: seq<BtfType>, b: seq<BtfType>, id: int)
    requires Spells(data, a, id) && Spells(data, b, id)
    ensures a == b
    decreases |a|
  {
    assert data[0..] == data;
    if a == [] {
      if b != [] {
        SpellsRest(data, b, id);
      }
    } else if b == [] {
      SpellsRest(data, a, id);
    } else {
      SpellsRest(data, a, id);
      SpellsRest(data, b, id);
      var n := |Encode(a[0])|;
      SpellsUniquely(data[n..], a[1..], b[1..], id + 1);
      assert a == [a[0]] + a[1..] && b == [b[0]] + b[1..];
    }
  }

  /** Behind the first entry the rest is spelled in the same way. */
  lemma SpellsRest(data: seq<Byte>, types: seq<BtfType>, id: int)
    requires types != [] && Spells(data, types, id)
    ensures HoldsEntry(data) && WellFormed(types[0], id)
    ensures var t := types[0];
            && t.nameOff == U32At(data, 0) && t.info == U32At(data, 4) && t.sizeOrType == U32At(data, 8)
            && |Encode(t)| == 12 + |t.extra| && t.extra == data[12..12 + |t.extra|]
            && Spells(data[|Encode(t)|..], types[1..], id + 1)
  {
    var t, tail := types[0], data[|EncodeAll(types)|..];
    var rest := EncodeAll(types[1..]) + tail;
    assert data == Encode(t) + rest;
    EncodedEntry(t, rest);
    assert WellFormed(types[0], id + 0);
    assert forall i :: 0 <= i < |types[1..]| ==> types[1..][i] == types[i + 1];
    assert rest[|EncodeAll(types[1..])|..] == tail;
  }

  lemma ParsesUniquely(data: seq<Byte>, a: seq<BtfType>, b: seq<BtfType>)
    requires ParsesTo(data, a) && ParsesTo(data, b)
    ensures a == b
  {
    SpellsUniquely(data, a[1..], b[1..], 1);
    assert a == [a[0]] + a[1..] && b == [b[0]] + b[1..];
  }

  /** Any well-formed list, encoded before any tail without a complete entry, is its own parse. */
  lemma ParseOfEncoding(types: seq<BtfType>, tail: seq<Byte>)
    requires forall i :: 0 <= i < |types| ==> WellFormed(types[i], i + 1)
    requires !HoldsEntry(tail)
    ensures ParsesTo(EncodeAll(types) + tail, [VOID] + types)
    ensures forall other :: ParsesTo(EncodeAll(types) + tail, other) ==> other == [VOID] + types
  {
    var data := EncodeAll(types) + tail;
    assert ([VOID] + types)[1..] == types;
    assert data[|EncodeAll(types)|..] == tail;
    forall other | ParsesTo(data, other) ensures other == [VOID] + types {
      ParsesUniquely(data, other, [VOID] + types);
    }
  }

  lemma {:induction false} EncodeAllAppend(types: seq<BtfType>, t: BtfType)
    ensures EncodeAll(types + [t]) == EncodeAll(types) + Encode(t)
  {
    if types == [] {
      assert [] + [t] == [t] && [t][1..] == [];
      Regroup(Encode(t), [], []);
    } else {
      EncodeAllAppend(types[1..], t);
      assert (types + [t])[1..] == types[1..] + [t];
      Regroup(Encode(types[0]), EncodeAll(types[1..]), Encode(t));
    }
  }

  lemma Regroup(a: seq<Byte>, b: seq<Byte>, c: seq<Byte>)
    ensures a + (b + c) == a + b + c
    ensures a + [] == a && [] + a == a
  {
  }

  // ----- where the entries lie -----

  /** How many bytes trail an entry, by its kind's number in the format and its vlen. */
  predicate Trails(kind: int, vlen: int, n: int) {
    && (kind in {1, 14, 16, 17} ==> n == 4)
    && (kind == 3 ==> n == 12)
    && (kind in {4, 5, 15, 19} ==> n == 12 * vlen)
    && (kind in {6, 13} ==> n == 8 * vlen)
    && (kind !in {1, 3, 4, 5, 6, 13, 14, 15, 16, 17, 19} ==> n == 0)
  }

  /** The data begins with all the bytes of an entry: twelve, and what trails them. */
  predicate Begins(data: seq<Byte>, n: int) {
    |data| >= 12 && 12 + n <= |data| && Trails(data[7] as int % 0x20, data[4] as int + 0x100 * data[5] as int, n)
  }

  function Word(a: int, b: int, c: int, d: int): int {
    a + 0x100 * b + 0x1_0000 * c + 0x100_0000 * d
  }

  /** An entry's fields are the first twelve bytes, least significant first, and the bytes after them. */
  predicate Holds(data: seq<Byte>, t: BtfType, n: nat)
    requires 12 + n <= |data|
  {
    && t.nameOff == Word(data[0], data[1], data[2], data[3])
    && t.info == Word(data[4], data[5], data[6], data[7])
    && t.sizeOrType == Word(data[8], data[9], data[10], data[11])
    && t.extra == data[12..12 + n]
  }

  /** The entries, numbered from `id`, lie one behind the other until one is not all there. */
  predicate LaidOut(data: seq<Byte>, types: seq<BtfType>, id: int)
    decreases |types|
  {
    if types == [] then forall n :: 0 <= n <= |data| ==> !Begins(data, n)
    else
      var n := |types[0].extra|;
      && Begins(data, n) && Holds(data, types[0], n) && types[0].typeId == id
      && LaidOut(data[12 + n..], types[1..], id + 1)
  }

  lemma TrailerOf(kind: int, vlen: nat, n: int)
    ensures Trails(kind, vlen, n) <==> n == ExtraDataSize(kind, vlen)
  {
  }

  /** Byte 7 holds the kind and the first two of the info word its vlen. */
  lemma InfoBytes(data: seq<Byte>)
    requires |data| >= 12
    ensures var info := U32At(data, 4);
            && info / 0x100_0000 % 0x20 == data[7] as int % 0x20
            && info % 0x1_0000 == data[4] as int + 0x100 * data[5] as int
  {
    var a: int, b: int, c: int, d: int := data[4], data[5], data[6], data[7];
    var info: int := U32At(data, 4);
    assert info == (a + 0x100 * b) + 0x1_0000 * (c + 0x100 * d);
    assert info / 0x100_0000 == d;
  }

  lemma HoldsIsBegins(data: seq<Byte>)
    ensures HoldsEntry(data) <==> exists n :: 0 <= n <= |data| && Begins(data, n)
  {
    if |data| >= 12 {
      InfoBytes(data);
      var size := ExtraDataSize(data[7] as int % 0x20, data[4] as int + 0x100 * data[5] as int);
      TrailerOf(data[7] as int % 0x20, data[4] as int + 0x100 * data[5] as int, size);
      forall n | Begins(data, n) ensures n == size {
        TrailerOf(data[7] as int % 0x20, data[4] as int + 0x100 * data[5] as int, n);
      }
      if HoldsEntry(data) {
        assert Begins(data, size);
      }
    }
  }

  /** A parse lists the entries where they lie. */
  lemma {:induction false} SpelledIsLaidOut(data: seq<Byte>, types: seq<BtfType>, id: int)
    requires Spells(data, types, id)
    ensures LaidOut(data, types, id)
    decreases |types|
  {
    if types == [] {
      assert data[0..] == data;
      HoldsIsBegins(data);
    } else {
      SpellsRest(data, types, id);
      InfoBytes(data);
      TrailerOf(types[0].Kind(), types[0].Vlen(), |types[0].extra|);
      SpelledIsLaidOut(data[|Encode(types[0])|..], types[1..], id + 1);
    }
  }

  // ----- the loop -----

  method ParseTypes(data: seq<Byte>) returns (types: seq<BtfType>)
    ensures ParsesTo(data, types)
    ensures LaidOut(data, types[1..], 1)
  {
    types := ParseEntries(data);
    SpelledIsLaidOut(data, types[1..], 1);
  }

  method ParseEntries(data: seq<Byte>) returns (types: seq<BtfType>)
    ensures ParsesTo(data, types)
  {
    types := [VOID];
    var pos, typeId := 0, 1;
    while pos + 12 <= |data|
      invariant 0 <= pos <= |data|
      invariant typeId == |types| >= 1 && types[0] == VOID
      invariant forall i :: 1 <= i < |types| ==> WellFormed(types[i], i)
      invariant EncodeAll(types[1..]) == data[..pos]
    {
      ghost var entryAt := pos;
      var nameOff, info, sizeOrType := U32At(data, pos), U32At(data, pos + 4), U32At(data, pos + 8);
      pos := pos + 12;
      var kind, vlen := info / 0x100_0000 % 0x20, info % 0x1_0000;
      var extraSize := ExtraDataSize(kind, vlen);
      if pos + extraSize > |data| {
        assert U32At(data[entryAt..], 4) == info;
        EndsHere(data, types, entryAt);
        return;
      }
      var extra := data[pos..pos + extraSize];
      pos := pos + extraSize;
      var t := BtfType(typeId, nameOff, info, sizeOrType, extra);
      EntryRead(data, entryAt, pos, t);
      EncodeAllAppend(types[1..], t);
      assert (types + [t])[1..] == types[1..] + [t];
      types := types + [t];
      typeId := typeId + 1;
    }
    EndsHere(data, types, pos);
  }

  lemma EntryRead(data: seq<Byte>, at: nat, end: nat, t: BtfType)
    requires at + 12 <= end <= |data|
    requires t.nameOff == U32At(data, at) && t.info == U32At(data, at + 4) && t.sizeOrType == U32At(data, at + 8)
    requires t.extra == data[at + 12..end]
    ensures data[..at] + Encode(t) == data[..end]
  {
    U32AtEncodes(data, at);
    U32AtEncodes(data, at + 4);
    U32AtEncodes(data, at + 8);
  }

  lemma EndsHere(data: seq<Byte>, types: seq<BtfType>, pos: nat)
    requires pos <= |data| && |types| >= 1 && types[0] == VOID
    requires forall i :: 1 <= i < |types| ==> WellFormed(types[i], i)
    requires EncodeAll(types[1..]) == data[..pos]
    requires !HoldsEntry(data[pos..])
    ensures ParsesTo(data, types)
  {
  }
}
