/**
 * The large storage format for JSON values: what the encoder emits for every
 * value, an independent reader that follows the stored offsets, and the round trip between them.
 */
module JsonFormat {
  import opened Bytes
  import opened Wrappers

  type Text = seq<Byte>

  /** A parsed document. An object keeps its member names and member values in source order. */
  datatype Json =
    | Null
    | Bool(b: bool)
    | Num(n: int)
    | Double(bits: seq<Byte>)
    | Str(s: Text)
    | Arr(items: seq<Json>)
    | Obj(keys: seq<Text>, vals: seq<Json>)

  const LARGE_OBJECT: Byte := 0x1
  const LARGE_ARRAY: Byte := 0x3
  const LITERAL: Byte := 0x4
  const INT16: Byte := 0x5
  const UINT16: Byte := 0x6
  const INT32: Byte := 0x7
  const UINT32: Byte := 0x8
  const INT64: Byte := 0x9
  const UINT64: Byte := 0xA
  const DOUBLE: Byte := 0xB
  const STRING: Byte := 0xC

  const MAX_DEPTH := 100
  const KEY_ENTRY := 6
  const VALUE_ENTRY := 5

  predicate IsInt16(n: int) { -0x8000 <= n < 0x8000 }
  predicate IsInt32(n: int) { -0x8000_0000 <= n < 0x8000_0000 }
  predicate IsInt64(n: int) { -0x8000_0000_0000_0000 <= n < 0x8000_0000_0000_0000 }
  predicate IsUint16(n: int) { 0 <= n <= 0xFFFF }
  predicate IsUint32(n: int) { 0xFFFF <= n <= 0xFFFF_FFFF }

  /** What the document parser can hand over: 64-bit numbers, 8-byte doubles, one value per member name. */
  predicate WellFormed(v: Json) {
    match v
    case Num(n) => -0x8000_0000_0000_0000 <= n < 0x1_0000_0000_0000_0000
    case Double(bits) => |bits| == 8
    case Arr(items) => AllWellFormed(items)
    case Obj(keys, vals) => |keys| == |vals| && AllWellFormed(vals)
    case _ => true
  }

  predicate AllWellFormed(vs: seq<Json>) {
    vs == [] || (WellFormed(vs[0]) && AllWellFormed(vs[1..]))
  }

  // ---------------------------------------------------------------- encoding

  datatype Inlined = Inlined(tag: Byte, value: int)

  /**
   * Values held in the 5-byte entry itself. The unsigned branch narrows to a
   * signed 32-bit integer and widens that to 64 unsigned bits before it tests the range.
   */
  function InlineValue(v: Json): Option<Inlined> {
    match v
    case Null => Some(Inlined(LITERAL, 0))
    case Bool(b) => Some(Inlined(LITERAL, if b then 1 else 2))
    case Num(n) =>
      if IsInt32(n) then Some(Inlined(if IsInt16(n) then INT16 else INT32, n))
      else if 0 <= n <= 0xFFFF_FFFF then
        var widened := n - 0x1_0000_0000 + 0x1_0000_0000_0000_0000;
        if IsUint16(widened) || IsUint32(widened) then Some(Inlined(UINT32, n)) else None
      else None
    case _ => None
  }

  function TypeTag(v: Json): Byte {
    match v
    case Null => LITERAL
    case Bool(_) => LITERAL
    case Num(n) =>
      if IsInt16(n) then INT16 else if IsInt32(n) then INT32 else if IsInt64(n) then INT64 else UINT64
    case Double(_) => DOUBLE
    case Str(_) => STRING
    case Arr(_) => LARGE_ARRAY
    case Obj(_, _) => LARGE_OBJECT
  }

  function NumberWidth(n: int): nat {
    if IsInt16(n) then 2 else if IsInt32(n) then 4 else 8
  }

  /** Unsigned LEB128. */
  function Leb(n: nat): (s: seq<Byte>)
    ensures |s| >= 1
  {
    if n < 128 then [n] else [n % 128 + 128] + Leb(n / 128)
  }

  /** Keys are measured as C strings: they end before their first NUL. */
  function CString(key: Text): (k: Text)
    ensures k <= key
  {
    if key == [] || key[0] == 0 then [] else [key[0]] + CString(key[1..])
  }

  function KeyBytes(keys: seq<Text>): seq<Byte> {
    if keys == [] then [] else CString(keys[0]) + KeyBytes(keys[1..])
  }

  function KeyEntries(keys: seq<Text>, offset: nat): (s: seq<Byte>)
    ensures |s| == KEY_ENTRY * |keys|
  {
    if keys == [] then []
    else LE(offset, 4) + LE(|CString(keys[0])|, 2) + KeyEntries(keys[1..], offset + |CString(keys[0])|)
  }

  datatype Encoded = Encoded(entries: seq<Byte>, values: seq<Byte>)

  /** Element count, total size, key entries, value entries, keys and out-of-line values, back to back. */
  function Container(n: nat, ks: seq<Byte>, es: seq<Byte>, kb: seq<Byte>, vs: seq<Byte>): (s: seq<Byte>)
    ensures |s| == 8 + |ks| + |es| + |kb| + |vs|
  {
    LE(n, 4) + LE(8 + |ks| + |es| + |kb| + |vs|, 4) + ks + es + kb + vs
  }

  /** The bytes of a value after its type tag. An array beyond the depth limit is left as a header and blank entries. */
  function Body(v: Json, depth: nat): seq<Byte>
    decreases v, 1
  {
    match v
    case Null => [0]
    case Bool(b) => [if b then 1 else 2]
    case Num(n) => LE(n, NumberWidth(n))
    case Double(bits) => bits
    case Str(s) => Leb(|s|) + s
    case Arr(items) =>
      if items != [] && depth >= MAX_DEPTH then LE(|items|, 4) + LE(0, 4) + Zeros(VALUE_ENTRY * |items|)
      else
        var e := Entries(items, depth, 8 + VALUE_ENTRY * |items|);
        Container(|items|, [], e.entries, [], e.values)
    case Obj(keys, vals) =>
      var fixed := 8 + (KEY_ENTRY + VALUE_ENTRY) * |keys|;
      var e := Entries(vals, depth, fixed + |KeyBytes(keys)|);
      Container(|keys|, KeyEntries(keys, fixed), e.entries, KeyBytes(keys), e.values)
  }

  /** What a child appends behind the keys: nothing when it was inlined. */
  function OutOfLine(v: Json, depth: nat): seq<Byte>
    decreases v, 2
  {
    if InlineValue(v).Some? then [] else Body(v, depth + 1)
  }

  /** A value entry: the child itself, or its type and where its region begins. */
  function EntryBytes(v: Json, start: nat): (b: seq<Byte>)
    ensures |b| == VALUE_ENTRY
  {
    match InlineValue(v)
    case Some(x) => [x.tag] + LE(x.value, 4)
    case None => [TypeTag(v)] + LE(start, 4)
  }

  /** Entries and out-of-line values of the children, the first free byte of the container being `offset`. */
  function Entries(vs: seq<Json>, depth: nat, offset: nat): (e: Encoded)
    ensures |e.entries| == VALUE_ENTRY * |vs|
    decreases vs, 0
  {
    if vs == [] then Encoded([], [])
    else
      var body := OutOfLine(vs[0], depth);
      var rest := Entries(vs[1..], depth, offset + |body|);
      Encoded(EntryBytes(vs[0], offset) + rest.entries, body + rest.values)
  }

  function Document(v: Json): seq<Byte> {
    [TypeTag(v)] + Body(v, 1)
  }

  // ---------------------------------------------------------------- reading

  function ReadLeb(s: seq<Byte>, limit: nat): Option<(nat, nat)> {
    if limit == 0 || s == [] then None
    else if s[0] < 128 then Some((s[0], 1))
    else
      match ReadLeb(s[1..], limit - 1)
      case None => None
      case Some(r) => Some((s[0] - 128 + 128 * r.0, r.1 + 1))
  }

  function ReadLiteral(b: Byte): Option<Json> {
    if b == 0 then Some(Null) else if b == 1 then Some(Bool(true)) else if b == 2 then Some(Bool(false)) else None
  }

  function ReadNumber(tag: Byte, s: seq<Byte>): Option<Json> {
    if tag == INT16 && |s| >= 2 then Some(Num(Signed(FromLE(s[..2]), 0x1_0000)))
    else if tag == UINT16 && |s| >= 2 then Some(Num(FromLE(s[..2])))
    else if tag == INT32 && |s| >= 4 then Some(Num(Signed(FromLE(s[..4]), 0x1_0000_0000)))
    else if tag == UINT32 && |s| >= 4 then Some(Num(FromLE(s[..4])))
    else if tag == INT64 && |s| >= 8 then Some(Num(Signed(FromLE(s[..8]), 0x1_0000_0000_0000_0000)))
    else if tag == UINT64 && |s| >= 8 then Some(Num(FromLE(s[..8])))
    else None
  }

  predicate InlineTag(tag: Byte) {
    tag == LITERAL || INT16 <= tag <= UINT32
  }

  /** Reads a value of type `tag` that starts at the front of `s`; `s` may run on past it. */
  function Read(tag: Byte, s: seq<Byte>): Option<Json>
    decreases |s|, 1, 0
  {
    if tag == LITERAL then (if s == [] then None else ReadLiteral(s[0]))
    else if INT16 <= tag <= UINT64 then ReadNumber(tag, s)
    else if tag == DOUBLE then (if |s| < 8 then None else Some(Double(s[..8])))
    else if tag == STRING then
      match ReadLeb(s, 5)
      case None => None
      case Some(r) => if |s| < r.1 + r.0 then None else Some(Str(s[r.1..r.1 + r.0]))
    else if tag == LARGE_ARRAY || tag == LARGE_OBJECT then
      if |s| < 8 then None
      else
        var n, size := FromLE(s[..4]), FromLE(s[4..8]);
        var fixed := if tag == LARGE_ARRAY then 8 else 8 + KEY_ENTRY * n;
        if !(fixed + VALUE_ENTRY * n <= size <= |s|) then None
        else
          var c := s[..size];
          match ReadEntries(c, c[fixed..fixed + VALUE_ENTRY * n], n)
          case None => None
          case Some(vals) =>
            if tag == LARGE_ARRAY then Some(Arr(vals))
            else
              match ReadKeys(c, c[8..fixed], n)
              case None => None
              case Some(keys) => Some(Obj(keys, vals))
    else None
  }

  /** The value entries `es` of container `c`, each inlined or at its stored offset. */
  function ReadEntries(c: seq<Byte>, es: seq<Byte>, n: nat): Option<seq<Json>>
    requires |c| >= 8 && |es| == VALUE_ENTRY * n
    decreases |c|, 0, |es|
  {
    if n == 0 then Some([])
    else
      match (ReadEntry(c, es[0], es[1..5]), ReadEntries(c, es[5..], n - 1))
      case (Some(v), Some(vs)) => Some([v] + vs)
      case _ => None
  }

  function ReadEntry(c: seq<Byte>, tag: Byte, slot: seq<Byte>): Option<Json>
    requires |c| >= 8 && |slot| == 4
    decreases |c|, 0, 0
  {
    if tag == LITERAL then ReadLiteral(slot[0])
    else if InlineTag(tag) then ReadNumber(tag, slot)
    else if 8 <= FromLE(slot) <= |c| then Read(tag, c[FromLE(slot)..])
    else None
  }

  /** The key entries `ks` of container `c`: a 4-byte offset and a 2-byte length each. */
  function ReadKeys(c: seq<Byte>, ks: seq<Byte>, n: nat): Option<seq<Text>>
    requires |ks| == KEY_ENTRY * n
    decreases n
  {
    if n == 0 then Some([])
    else
      var start, len := FromLE(ks[..4]), FromLE(ks[4..6]);
      if start + len > |c| then None
      else
        match ReadKeys(c, ks[6..], n - 1)
        case None => None
        case Some(rest) => Some([c[start..start + len]] + rest)
  }

  function ReadDocument(s: seq<Byte>): Option<Json> {
    if s == [] then None else Read(s[0], s[1..])
  }

  // ---------------------------------------------------------------- what survives

  /** Some non-empty array sits at the depth limit or below it. */
  predicate CutShort(v: Json, depth: nat) {
    match v
    case Arr(items) => items != [] && (depth >= MAX_DEPTH || AnyCutShort(items, depth + 1))
    case Obj(_, vals) => AnyCutShort(vals, depth + 1)
    case _ => false
  }

  predicate AnyCutShort(vs: seq<Json>, depth: nat) {
    vs != [] && (CutShort(vs[0], depth) || AnyCutShort(vs[1..], depth))
  }

  /** What a key entry refers to: the name up to its first NUL, cut to its length modulo two bytes. */
  function StoredKey(key: Text): Text {
    var s := CString(key);
    s[..|s| % 0x1_0000]
  }

  function StoredKeys(keys: seq<Text>): (r: seq<Text>)
    ensures |r| == |keys|
  {
    if keys == [] then [] else [StoredKey(keys[0])] + StoredKeys(keys[1..])
  }

  /** The value with every member name as stored. */
  function CutKeys(v: Json): Json {
    match v
    case Arr(items) => Arr(CutKeysAll(items))
    case Obj(keys, vals) => Obj(StoredKeys(keys), CutKeysAll(vals))
    case _ => v
  }

  function CutKeysAll(vs: seq<Json>): (r: seq<Json>)
    ensures |r| == |vs|
  {
    if vs == [] then [] else [CutKeys(vs[0])] + CutKeysAll(vs[1..])
  }

  predicate WholeKey(key: Text) { 0 !in key && |key| < 0x1_0000 }

  /** Every member name is free of NUL and shorter than two bytes can count. */
  predicate WholeKeys(v: Json) {
    match v
    case Arr(items) => AllWholeKeys(items)
    case Obj(keys, vals) => (forall k :: k in keys ==> WholeKey(k)) && AllWholeKeys(vals)
    case _ => true
  }

  predicate AllWholeKeys(vs: seq<Json>) {
    vs == [] || (WholeKeys(vs[0]) && AllWholeKeys(vs[1..]))
  }

  // ---------------------------------------------------------------- round trip

  lemma {:induction false} ReadLebOfLeb(n: nat, rest: seq<Byte>, limit: nat)
    requires limit > 0 && n < Pow(128, limit)
    ensures ReadLeb(Leb(n) + rest, limit) == Some((n, |Leb(n)|))
    decreases n
  {
    if n >= 128 {
      assert limit > 1 by {
        assert Pow(128, 1) == 128 * Pow(128, 0);
      }
      assert n / 128 < Pow(128, limit - 1) by {
        assert Pow(128, limit) == 128 * Pow(128, limit - 1);
      }
      ReadLebOfLeb(n / 128, rest, limit - 1);
      assert (Leb(n) + rest)[1..] == Leb(n / 128) + rest;
    }
  }

  lemma LebLimit()
    ensures Pow(128, 5) > 0x1_0000_0000
  {
    assert Pow(128, 2) == 128 * Pow(128, 1);
    assert Pow(128, 3) == 128 * Pow(128, 2);
    assert Pow(128, 4) == 128 * Pow(128, 3);
    assert Pow(128, 5) == 128 * Pow(128, 4);
  }

  lemma SignedMod(n: int, m: nat)
    requires m > 0 && m % 2 == 0 && 0 - m <= 2 * n < m
    ensures Signed(n % m, m) == n
  {
    if n < 0 {
      DivModUnique(n, m, -1, n + m);
    } else {
      DivModUnique(n, m, 0, n);
    }
  }

  /** Every integer of the parser's range comes back from its out-of-line form. */
  lemma ReadNumberBody(n: int, rest: seq<Byte>)
    requires WellFormed(Num(n))
    ensures ReadNumber(TypeTag(Num(n)), LE(n, NumberWidth(n)) + rest) == Some(Num(n))
  {
    var w := NumberWidth(n);
    assert (LE(n, w) + rest)[..w] == LE(n, w);
    FromLEofLE(n, w);
    Pow256();
    if IsInt16(n) {
      SignedMod(n, 0x1_0000);
    } else if IsInt32(n) {
      SignedMod(n, 0x1_0000_0000);
    } else if IsInt64(n) {
      SignedMod(n, 0x1_0000_0000_0000_0000);
    } else {
      DivModUnique(n, 0x1_0000_0000_0000_0000, 0, n);
    }
  }

  lemma LowBytes(v: int)
    ensures LE(v, 4)[..2] == LE(v, 2)
    ensures LE(v, 4)[0] == v % 256
  {
    assert LE(v, 4)[1..] == LE(v / 256, 3);
    assert LE(v, 4)[1..][0] == LE(v / 256, 3)[0] == LE(v / 256, 1)[0];
  }

  /**
   * Which values are inlined, and that the entry alone gives them back. No
   * unsigned integer past the signed 32-bit range is: those go out of line as INT64.
   */
  lemma ReadInlined(v: Json)
    requires WellFormed(v)
    ensures InlineValue(v).Some? <==> v.Null? || v.Bool? || (v.Num? && IsInt32(v.n))
    ensures InlineValue(v).Some? ==>
              var x := InlineValue(v).value;
              && InlineTag(x.tag)
              && (x.tag == LITERAL ==> ReadLiteral(LE(x.value, 4)[0]) == Some(v))
              && (x.tag != LITERAL ==> ReadNumber(x.tag, LE(x.value, 4)) == Some(v))
    ensures InlineValue(v).None? ==> !InlineTag(TypeTag(v))
  {
    if InlineValue(v).Some? {
      var x := InlineValue(v).value.value;
      LowBytes(x);
      FromLEofLE(x, 2);
      FromLEofLE(x, 4);
      Pow256();
      if v.Num? {
        assert LE(x, 4)[..4] == LE(x, 4);
        if IsInt16(x) { SignedMod(x, 0x1_0000); }
        SignedMod(x, 0x1_0000_0000);
      }
    }
  }

  lemma FromLE4(v: nat)
    requires v < 0x1_0000_0000
    ensures FromLE(LE(v, 4)) == v
  {
    FromLEofLE(v, 4);
    Pow256();
  }

  lemma FromLE2(v: nat)
    ensures FromLE(LE(v, 2)) == v % 0x1_0000
  {
    FromLEofLE(v, 2);
    Pow256();
  }

  /** Keys read through their stored offsets and lengths are the C-string prefixes. */
  lemma {:induction false} ReadKeysBack(c: seq<Byte>, keys: seq<Text>, offset: nat)
    requires offset + |KeyBytes(keys)| <= |c| < 0x1_0000_0000
    requires c[offset..offset + |KeyBytes(keys)|] == KeyBytes(keys)
    ensures ReadKeys(c, KeyEntries(keys, offset), |keys|) == Some(StoredKeys(keys))
    decreases keys
  {
    hide ReadKeys, KeyEntries, KeyBytes, CString, StoredKeys;
    if keys == [] {
      ReadNoKeys(c, offset);
    } else {
      var k := CString(keys[0]);
      KeyEntryParts(keys, offset);
      Within(c, offset, KeyBytes(keys), 0, |k|);
      Within(c, offset, KeyBytes(keys), |k|, |KeyBytes(keys)|);
      ReadKeysBack(c, keys[1..], offset + |k|);
      ReadKeysCons(c, keys, offset);
    }
  }

  lemma ReadNoKeys(c: seq<Byte>, offset: nat)
    ensures ReadKeys(c, KeyEntries([], offset), 0) == Some(StoredKeys([]))
  {}

  lemma {:induction false} ReadKeysCons(c: seq<Byte>, keys: seq<Text>, offset: nat)
    requires keys != []
    requires offset + |CString(keys[0])| <= |c| < 0x1_0000_0000
    requires c[offset..offset + |CString(keys[0])|] == CString(keys[0])
    requires ReadKeys(c, KeyEntries(keys[1..], offset + |CString(keys[0])|), |keys| - 1) == Some(StoredKeys(keys[1..]))
    ensures ReadKeys(c, KeyEntries(keys, offset), |keys|) == Some(StoredKeys(keys))
  {
    hide KeyEntries, KeyBytes, CString;
    KeyEntryParts(keys, offset);
    FromLE4(offset);
    var k := CString(keys[0]);
    FromLE2(|k|);
    Within(c, offset, k, 0, |k| % 0x1_0000);
  }

  lemma {:induction false} KeyEntryParts(keys: seq<Text>, offset: nat)
    requires keys != []
    ensures var all, k := KeyEntries(keys, offset), CString(keys[0]);
            && all[..4] == LE(offset, 4)
            && all[4..6] == LE(|k|, 2)
            && all[6..] == KeyEntries(keys[1..], offset + |k|)
    ensures |KeyBytes(keys)| == |CString(keys[0])| + |KeyBytes(keys[1..])|
    ensures KeyBytes(keys)[..|CString(keys[0])|] == CString(keys[0])
    ensures KeyBytes(keys)[|CString(keys[0])|..] == KeyBytes(keys[1..])
  {}

  /** What the reader must return for a child list. */
  function ExpectAll(vs: seq<Json>, depth: nat): Option<seq<Json>> {
    if AnyCutShort(vs, depth) then None else Some(CutKeysAll(vs))
  }

  function Expect(v: Json, depth: nat): Option<Json> {
    if CutShort(v, depth) then None else Some(CutKeys(v))
  }

  predicate Fits(v: Json, depth: nat) {
    WellFormed(v) && |Body(v, depth)| < 0x1_0000_0000
  }

  lemma {:induction false} ReadBody(v: Json, depth: nat, rest: seq<Byte>)
    requires Fits(v, depth)
    ensures Read(TypeTag(v), Body(v, depth) + rest) == Expect(v, depth)
    decreases v, 1
  {
    var s := Body(v, depth) + rest;
    match v
    case Null =>
    case Bool(_) =>
    case Num(n) => ReadNumberBody(n, rest);
    case Double(bits) => assert s[..8] == bits;
    case Str(t) =>
      LebLimit();
      assert s == Leb(|t|) + (t + rest);
      ReadLebOfLeb(|t|, t + rest, 5);
      Middle(Leb(|t|), t, rest);
    case Arr(items) => ReadArray(items, depth, rest);
    case Obj(keys, vals) => ReadObject(keys, vals, depth, rest);
  }

  lemma ContainerParts(n: nat, ks: seq<Byte>, es: seq<Byte>, kb: seq<Byte>, vs: seq<Byte>, rest: seq<Byte>)
    ensures var c := Container(n, ks, es, kb, vs);
            var at := 8 + |ks|;
            && c[8..at] == ks && c[at..at + |es|] == es
            && c[at + |es|..at + |es| + |kb|] == kb && c[at + |es| + |kb|..] == vs
            && (c + rest)[..4] == LE(n, 4) && (c + rest)[4..8] == LE(|c|, 4) && (c + rest)[..|c|] == c
  {}

  /** One step of the reader at the front of a container. */
  lemma {:induction false} ReadContainer(tag: Byte, n: nat, ks: seq<Byte>, es: seq<Byte>, kb: seq<Byte>, vs: seq<Byte>, rest: seq<Byte>)
    requires tag == LARGE_ARRAY || tag == LARGE_OBJECT
    requires |ks| == (if tag == LARGE_ARRAY then 0 else KEY_ENTRY * n) && |es| == VALUE_ENTRY * n
    requires |Container(n, ks, es, kb, vs)| < 0x1_0000_0000
    ensures var c := Container(n, ks, es, kb, vs);
            match ReadEntries(c, es, n)
            case None => Read(tag, c + rest) == None
            case Some(vals) =>
              && (tag == LARGE_ARRAY ==> Read(tag, c + rest) == Some(Arr(vals)))
              && (tag == LARGE_OBJECT ==>
                    match ReadKeys(c, ks, n)
                    case None => Read(tag, c + rest) == None
                    case Some(keys) => Read(tag, c + rest) == Some(Obj(keys, vals)))
  {
    hide Container, ReadEntries, ReadKeys, FromLE, LE;
    ContainerParts(n, ks, es, kb, vs, rest);
    FromLE4(n);
    FromLE4(|Container(n, ks, es, kb, vs)|);
  }

  lemma {:induction false} ReadArray(items: seq<Json>, depth: nat, rest: seq<Byte>)
    requires Fits(Arr(items), depth)
    ensures Read(LARGE_ARRAY, Body(Arr(items), depth) + rest) == Expect(Arr(items), depth)
    decreases items, 2
  {
    hide Read, ReadEntries, Entries, Container, Body;
    var n := |items|;
    ArrayBody(items, depth);
    if items != [] && depth >= MAX_DEPTH {
      ReadCutArray(n, rest);
    } else {
      var e := Entries(items, depth, 8 + VALUE_ENTRY * n);
      ContainerParts(n, [], e.entries, [], e.values, rest);
      ReadEntriesBack(Container(n, [], e.entries, [], e.values), items, depth, 8 + VALUE_ENTRY * n);
      ReadContainer(LARGE_ARRAY, n, [], e.entries, [], e.values, rest);
    }
  }

  lemma {:induction false} ArrayBody(items: seq<Json>, depth: nat)
    ensures var n := |items|;
            var e := Entries(items, depth, 8 + VALUE_ENTRY * n);
            Body(Arr(items), depth) ==
            if items != [] && depth >= MAX_DEPTH then LE(n, 4) + LE(0, 4) + Zeros(VALUE_ENTRY * n)
            else Container(n, [], e.entries, [], e.values)
  {
    hide Entries, Container, LE;
  }

  /** An array left without its size is refused by the reader. */
  lemma ReadCutArray(n: nat, rest: seq<Byte>)
    requires n < 0x1_0000_0000
    ensures Read(LARGE_ARRAY, LE(n, 4) + LE(0, 4) + Zeros(VALUE_ENTRY * n) + rest) == None
  {
    hide ReadEntries, ReadKeys, FromLE, LE;
    var s := LE(n, 4) + LE(0, 4) + Zeros(VALUE_ENTRY * n) + rest;
    assert s[..4] == LE(n, 4) && s[4..8] == LE(0, 4);
    FromLE4(n);
    FromLE4(0);
  }

  lemma {:induction false} ReadObject(keys: seq<Text>, vals: seq<Json>, depth: nat, rest: seq<Byte>)
    requires Fits(Obj(keys, vals), depth)
    ensures Read(LARGE_OBJECT, Body(Obj(keys, vals), depth) + rest) == Expect(Obj(keys, vals), depth)
    decreases vals, 2
  {
    hide Read, ReadEntries, ReadKeys, KeyEntries, Entries, Container, Body, KeyBytes, CString, StoredKeys, Expect, ExpectAll;
    var n, kb := |keys|, KeyBytes(keys);
    var fixed := 8 + (KEY_ENTRY + VALUE_ENTRY) * n;
    var ks, e := KeyEntries(keys, fixed), Entries(vals, depth, fixed + |kb|);
    var c := Container(n, ks, e.entries, kb, e.values);
    ObjectBody(keys, vals, depth);
    ObjectExpected(keys, vals, depth);
    ContainerParts(n, ks, e.entries, kb, e.values, rest);
    ReadKeysBack(c, keys, fixed);
    ReadEntriesBack(c, vals, depth, fixed + |kb|);
    ReadContainer(LARGE_OBJECT, n, ks, e.entries, kb, e.values, rest);
  }

  lemma ObjectExpected(keys: seq<Text>, vals: seq<Json>, depth: nat)
    ensures Expect(Obj(keys, vals), depth)
         == match ExpectAll(vals, depth + 1)
            case None => None
            case Some(members) => Some(Obj(StoredKeys(keys), members))
  {
    hide StoredKeys, CutKeysAll, AnyCutShort;
  }

  lemma {:induction false} ReadEntriesBack(c: seq<Byte>, vs: seq<Json>, depth: nat, offset: nat)
    requires AllWellFormed(vs)
    requires 8 <= offset <= |c| < 0x1_0000_0000
    requires c[offset..] == Entries(vs, depth, offset).values
    ensures ReadEntries(c, Entries(vs, depth, offset).entries, |vs|) == ExpectAll(vs, depth + 1)
    decreases vs, 0
  {
    hide Read, ReadEntry, ReadEntries, Expect, ExpectAll, Body, Entries, CutShort, AnyCutShort, TypeTag;
    if vs == [] {
      ReadNoEntries(c, depth, offset);
    } else {
      var v, rest := vs[0], vs[1..];
      var es := Entries(vs, depth, offset).entries;
      EntryParts(vs, depth, offset);
      ReadInlined(v);
      if InlineValue(v).Some? {
        ReadInline(c, v, depth + 1);
        ReadEntriesBack(c, rest, depth, offset);
        ReadEntriesCons(c, es, vs, depth + 1, Entries(rest, depth, offset).entries);
      } else {
        var body := Body(v, depth + 1);
        var tail := Entries(rest, depth, offset + |body|);
        assert c[offset + |body|..] == c[offset..][|body|..] == tail.values;
        ReadBody(v, depth + 1, tail.values);
        ReadEntriesBack(c, rest, depth, offset + |body|);
        ReadOutOfLine(c, es[0], es[1..5], offset, body + tail.values);
        ReadEntriesCons(c, es, vs, depth + 1, tail.entries);
      }
    }
  }

  lemma ReadNoEntries(c: seq<Byte>, depth: nat, offset: nat)
    requires |c| >= 8
    ensures ReadEntries(c, Entries([], depth, offset).entries, 0) == ExpectAll([], depth + 1)
  {}

  lemma ReadInline(c: seq<Byte>, v: Json, depth: nat)
    requires WellFormed(v) && InlineValue(v).Some? && |c| >= 8
    ensures ReadEntry(c, InlineValue(v).value.tag, LE(InlineValue(v).value.value, 4)) == Expect(v, depth)
  {
    ReadInlined(v);
  }

  lemma ReadOutOfLine(c: seq<Byte>, tag: Byte, slot: seq<Byte>, offset: nat, at: seq<Byte>)
    requires 8 <= offset <= |c| < 0x1_0000_0000 && at == c[offset..]
    requires !InlineTag(tag) && slot == LE(offset, 4)
    ensures ReadEntry(c, tag, slot) == Read(tag, at)
  {
    FromLE4(offset);
  }

  lemma {:induction false} ReadEntriesCons(c: seq<Byte>, es: seq<Byte>, vs: seq<Json>, depth: nat, tail: seq<Byte>)
    requires vs != [] && |c| >= 8 && |es| == VALUE_ENTRY * |vs| && tail == es[5..]
    requires ReadEntry(c, es[0], es[1..5]) == Expect(vs[0], depth)
    requires ReadEntries(c, tail, |vs| - 1) == ExpectAll(vs[1..], depth)
    ensures ReadEntries(c, es, |vs|) == ExpectAll(vs, depth)
  {}

  lemma {:induction false} EntryParts(vs: seq<Json>, depth: nat, offset: nat)
    requires vs != []
    ensures var all := Entries(vs, depth, offset);
            var es := all.entries;
            |es| == VALUE_ENTRY * |vs| &&
            match InlineValue(vs[0])
            case Some(x) =>
              var tail := Entries(vs[1..], depth, offset);
              es[0] == x.tag && es[1..5] == LE(x.value, 4) && es[5..] == tail.entries && all.values == tail.values
            case None =>
              var body := Body(vs[0], depth + 1);
              var tail := Entries(vs[1..], depth, offset + |body|);
              && es[0] == TypeTag(vs[0]) && es[1..5] == LE(offset, 4)
              && es[5..] == tail.entries && all.values == body + tail.values
  {
    hide Entries, LE, Body, TypeTag, InlineValue;
    var tail := Entries(vs[1..], depth, offset + |OutOfLine(vs[0], depth)|);
    EntriesCons(vs, depth, offset);
    Front(EntryBytes(vs[0], offset), tail.entries);
    assert [] + tail.values == tail.values;
  }

  // ---------------------------------------------------------------- layout

  /** Where the region of child `i` begins when the out-of-line values begin at `base`. */
  function Start(vs: seq<Json>, depth: nat, base: nat, i: nat): nat
    requires i <= |vs|
    decreases i
  {
    if i == 0 then base else Start(vs, depth, base, i - 1) + |OutOfLine(vs[i - 1], depth)|
  }

  lemma {:induction false} StartShift(vs: seq<Json>, depth: nat, base: nat, i: nat)
    requires 0 < i <= |vs|
    ensures Start(vs, depth, base, i) == Start(vs[1..], depth, base + |OutOfLine(vs[0], depth)|, i - 1)
    ensures Start(vs, depth, base, i) >= base + |OutOfLine(vs[0], depth)|
    decreases i
  {
    hide OutOfLine;
    if i > 1 {
      StartShift(vs, depth, base, i - 1);
    } else {
      assert Start(vs, depth, base, 0) == base;
    }
  }

  lemma StartFirst(vs: seq<Json>, depth: nat, base: nat)
    ensures Start(vs, depth, base, 0) == base
  {}

  lemma EntriesCons(vs: seq<Json>, depth: nat, base: nat)
    requires vs != []
    ensures var tail := Entries(vs[1..], depth, base + |OutOfLine(vs[0], depth)|);
            Entries(vs, depth, base) == Encoded(EntryBytes(vs[0], base) + tail.entries, OutOfLine(vs[0], depth) + tail.values)
  {
    hide OutOfLine, EntryBytes;
  }

  /** The last region ends where the out-of-line values end. */
  lemma {:induction false} RegionsEnd(vs: seq<Json>, depth: nat, base: nat)
    ensures Start(vs, depth, base, |vs|) == base + |Entries(vs, depth, base).values|
    decreases |vs|
  {
    hide OutOfLine, EntryBytes, Start;
    if vs == [] {
      StartFirst(vs, depth, base);
    } else {
      StartShift(vs, depth, base, |vs|);
      RegionsEnd(vs[1..], depth, base + |OutOfLine(vs[0], depth)|);
    }
  }

  /** The entry of child `i` holds the child itself or the first byte of its region. */
  lemma {:induction false} EntrySlot(vs: seq<Json>, depth: nat, base: nat, i: nat)
    requires i < |vs|
    ensures Entries(vs, depth, base).entries[VALUE_ENTRY * i..VALUE_ENTRY * i + VALUE_ENTRY] ==
            EntryBytes(vs[i], Start(vs, depth, base, i))
    decreases |vs|
  {
    hide EntryBytes, Entries, OutOfLine, Start;
    var size := |OutOfLine(vs[0], depth)|;
    var es, tail := Entries(vs, depth, base).entries, Entries(vs[1..], depth, base + size).entries;
    EntriesCons(vs, depth, base);
    Front(EntryBytes(vs[0], base), tail);
    if i == 0 {
      StartFirst(vs, depth, base);
    } else {
      StartShift(vs, depth, base, i);
      EntrySlot(vs[1..], depth, base + size, i - 1);
      assert es[5..5 + |tail|] == tail;
      Within(es, 5, tail, VALUE_ENTRY * (i - 1), VALUE_ENTRY * i);
    }
  }

  /** The region of a child holds exactly that child. */
  lemma {:induction false} ValueRegion(vs: seq<Json>, depth: nat, base: nat, i: nat)
    requires i < |vs|
    ensures var start, body, values := Start(vs, depth, base, i), OutOfLine(vs[i], depth), Entries(vs, depth, base).values;
            base <= start <= start + |body| <= base + |values| && values[start - base..start - base + |body|] == body
    decreases |vs|
  {
    hide EntryBytes, Entries, OutOfLine, Start;
    var first := OutOfLine(vs[0], depth);
    var values, tail := Entries(vs, depth, base).values, Entries(vs[1..], depth, base + |first|).values;
    EntriesCons(vs, depth, base);
    Front(first, tail);
    if i == 0 {
      StartFirst(vs, depth, base);
    } else {
      var start, body := Start(vs, depth, base, i), OutOfLine(vs[i], depth);
      StartShift(vs, depth, base, i);
      ValueRegion(vs[1..], depth, base + |first|, i - 1);
      assert values[|first|..|first| + |tail|] == tail;
      Within(values, |first|, tail, start - base - |first|, start - base - |first| + |body|);
    }
  }

  /** The key entries store where each key begins, and the keys lie back to back. */
  lemma {:induction false} KeyRegion(keys: seq<Text>, base: nat, i: nat)
    requires i < |keys|
    ensures var before, k := |KeyBytes(keys[..i])|, CString(keys[i]);
            && before + |k| == |KeyBytes(keys[..i + 1])| <= |KeyBytes(keys)|
            && KeyBytes(keys)[before..before + |k|] == k
            && KeyEntries(keys, base)[KEY_ENTRY * i..KEY_ENTRY * i + KEY_ENTRY] == LE(base + before, 4) + LE(|k|, 2)
    decreases |keys|
  {
    hide CString, LE, KeyBytes, KeyEntries;
    var all, first, tail := KeyEntries(keys, base), CString(keys[0]), keys[1..];
    KeyEntryParts(keys, base);
    KeyEntryParts(keys[..i + 1], base);
    if i == 0 {
      NoKeyBytes();
      assert keys[..0] == [] && keys[..1][1..] == [];
      assert all[..6] == all[..4] + all[4..6];
    } else {
      KeyEntryParts(keys[..i], base);
      KeyRegion(tail, base + |first|, i - 1);
      assert keys[..i][1..] == tail[..i - 1] && keys[..i + 1][1..] == tail[..i];
      Within(all, 6, KeyEntries(tail, base + |first|), KEY_ENTRY * (i - 1), KEY_ENTRY * i);
      Within(KeyBytes(keys), |first|, KeyBytes(tail), |KeyBytes(tail[..i - 1])|, |KeyBytes(tail[..i])|);
    }
  }

  lemma NoKeyBytes()
    ensures KeyBytes([]) == []
  {}

  /** Value `i` of a container whose value entries begin at `at`, as its own bytes place it. */
  predicate Placed(c: seq<Byte>, at: nat, vs: seq<Json>, depth: nat, base: nat, i: nat)
    requires i < |vs| && at + VALUE_ENTRY * |vs| <= |c|
  {
    var start, body := Start(vs, depth, base, i), OutOfLine(vs[i], depth);
    && c[at + VALUE_ENTRY * i..at + VALUE_ENTRY * i + VALUE_ENTRY] == EntryBytes(vs[i], start)
    && start + |body| <= |c| && c[start..start + |body|] == body
  }

  /** Header, value entries and out-of-line values tile an array; each stored offset starts its own region. */
  lemma {:induction false} ArrayLayout(items: seq<Json>, depth: nat, i: nat)
    requires i < |items| && depth < MAX_DEPTH
    ensures var c, base := Body(Arr(items), depth), 8 + VALUE_ENTRY * |items|;
            && |c| >= base && c[..8] == LE(|items|, 4) + LE(|c|, 4)
            && Placed(c, 8, items, depth, base, i) && Start(items, depth, base, |items|) == |c|
  {
    hide Entries, Container, LE, OutOfLine, EntryBytes, Body, Start;
    var n := |items|;
    var base := 8 + VALUE_ENTRY * n;
    var e := Entries(items, depth, base);
    var c := Container(n, [], e.entries, [], e.values);
    ArrayBody(items, depth);
    PlacedIn(n, [], e, [], items, depth, i);
  }

  /** The same for an object, whose key entries and keys also have their regions. */
  lemma {:induction false} ObjectLayout(keys: seq<Text>, vals: seq<Json>, depth: nat, i: nat)
    requires i < |keys| == |vals|
    ensures var c, n := Body(Obj(keys, vals), depth), |keys|;
            var fixed := 8 + (KEY_ENTRY + VALUE_ENTRY) * n;
            var key, k := fixed + |KeyBytes(keys[..i])|, CString(keys[i]);
            var base := fixed + |KeyBytes(keys)|;
            && |c| >= base && c[..8] == LE(n, 4) + LE(|c|, 4)
            && c[8 + KEY_ENTRY * i..14 + KEY_ENTRY * i] == LE(key, 4) + LE(|k|, 2)
            && key + |k| <= base && c[key..key + |k|] == k
            && Placed(c, 8 + KEY_ENTRY * n, vals, depth, base, i) && Start(vals, depth, base, n) == |c|
  {
    hide Entries, Container, LE, OutOfLine, EntryBytes, Body, Start, KeyBytes, KeyEntries, CString;
    var n, kb := |keys|, KeyBytes(keys);
    var fixed := 8 + (KEY_ENTRY + VALUE_ENTRY) * n;
    var ks, e := KeyEntries(keys, fixed), Entries(vals, depth, fixed + |kb|);
    var c := Container(n, ks, e.entries, kb, e.values);
    ObjectBody(keys, vals, depth);
    PlacedIn(n, ks, e, kb, vals, depth, i);
    KeyPlaced(keys, e.entries, e.values, i);
  }

  lemma {:induction false} KeyPlaced(keys: seq<Text>, es: seq<Byte>, vs: seq<Byte>, i: nat)
    requires i < |keys| && |es| == VALUE_ENTRY * |keys|
    ensures var n, fixed := |keys|, 8 + (KEY_ENTRY + VALUE_ENTRY) * |keys|;
            var c := Container(n, KeyEntries(keys, fixed), es, KeyBytes(keys), vs);
            var key, k := fixed + |KeyBytes(keys[..i])|, CString(keys[i]);
            && c[8 + KEY_ENTRY * i..14 + KEY_ENTRY * i] == LE(key, 4) + LE(|k|, 2)
            && key + |k| <= fixed + |KeyBytes(keys)| && c[key..key + |k|] == k
  {
    hide Container, LE, KeyBytes, KeyEntries, CString;
    var n, fixed, kb := |keys|, 8 + (KEY_ENTRY + VALUE_ENTRY) * |keys|, KeyBytes(keys);
    var ks := KeyEntries(keys, fixed);
    var c := Container(n, ks, es, kb, vs);
    ContainerParts(n, ks, es, kb, vs, []);
    KeyRegion(keys, fixed, i);
    Within(c, 8, ks, KEY_ENTRY * i, KEY_ENTRY * i + KEY_ENTRY);
    Within(c, fixed, kb, |KeyBytes(keys[..i])|, |KeyBytes(keys[..i + 1])|);
  }

  lemma {:induction false} ObjectBody(keys: seq<Text>, vals: seq<Json>, depth: nat)
    ensures var n, kb := |keys|, KeyBytes(keys);
            var fixed := 8 + (KEY_ENTRY + VALUE_ENTRY) * n;
            var e := Entries(vals, depth, fixed + |kb|);
            Body(Obj(keys, vals), depth) == Container(n, KeyEntries(keys, fixed), e.entries, kb, e.values)
  {
    hide Entries, Container, LE, KeyEntries, KeyBytes;
  }

  lemma {:induction false} PlacedIn(n: nat, ks: seq<Byte>, e: Encoded, kb: seq<Byte>, vs: seq<Json>, depth: nat, i: nat)
    requires i < |vs| == n
    requires e == Entries(vs, depth, 8 + |ks| + VALUE_ENTRY * n + |kb|)
    ensures var c, base := Container(n, ks, e.entries, kb, e.values), 8 + |ks| + VALUE_ENTRY * n + |kb|;
            && c[..8] == LE(n, 4) + LE(|c|, 4)
            && Placed(c, 8 + |ks|, vs, depth, base, i) && Start(vs, depth, base, n) == |c|
  {
    hide Entries, Container, LE, OutOfLine, EntryBytes, Start;
    var c, base := Container(n, ks, e.entries, kb, e.values), 8 + |ks| + VALUE_ENTRY * n + |kb|;
    var start, body := Start(vs, depth, base, i), OutOfLine(vs[i], depth);
    ContainerParts(n, ks, e.entries, kb, e.values, []);
    assert c + [] == c;
    EntrySlot(vs, depth, base, i);
    Within(c, 8 + |ks|, e.entries, VALUE_ENTRY * i, VALUE_ENTRY * i + VALUE_ENTRY);
    RegionsEnd(vs, depth, base);
    ValueRegion(vs, depth, base, i);
    Within(c, base, e.values, start - base, start - base + |body|);
  }

  lemma {:induction false} CStringNulFree(key: Text)
    ensures CString(key) == key <==> 0 !in key
  {
    if key != [] {
      CStringNulFree(key[1..]);
      assert key == [key[0]] + key[1..];
      assert key[0] != 0 ==> CString(key)[1..] == CString(key[1..]);
    }
  }

  lemma StoredKeyWhole(key: Text)
    ensures StoredKey(key) == key <==> WholeKey(key)
  {
    hide CString;
    CStringNulFree(key);
    CStringShorter(key);
  }

  lemma {:induction false} CStringShorter(key: Text)
    ensures |CString(key)| <= |key| && (|CString(key)| == |key| ==> CString(key) == key)
    decreases |key|
  {
    if key != [] {
      CStringShorter(key[1..]);
      assert key == [key[0]] + key[1..];
    }
  }

  lemma {:induction false} StoredKeysWhole(keys: seq<Text>)
    ensures StoredKeys(keys) == keys <==> forall k :: k in keys ==> WholeKey(k)
    decreases |keys|
  {
    hide StoredKey, WholeKey;
    if keys != [] {
      StoredKeyWhole(keys[0]);
      StoredKeysWhole(keys[1..]);
      assert keys == [keys[0]] + keys[1..];
      assert StoredKeys(keys)[1..] == StoredKeys(keys[1..]);
    }
  }

  lemma {:induction false} CutKeysWhole(v: Json)
    ensures CutKeys(v) == v <==> WholeKeys(v)
    decreases v, 1
  {
    match v
    case Arr(items) => CutKeysAllWhole(items);
    case Obj(keys, vals) =>
      StoredKeysWhole(keys);
      CutKeysAllWhole(vals);
    case _ =>
  }

  lemma {:induction false} CutKeysAllWhole(vs: seq<Json>)
    ensures CutKeysAll(vs) == vs <==> AllWholeKeys(vs)
    decreases vs, 0
  {
    if vs != [] {
      CutKeysWhole(vs[0]);
      CutKeysAllWhole(vs[1..]);
      assert vs == [vs[0]] + vs[1..];
      assert CutKeysAll(vs)[1..] == CutKeysAll(vs[1..]);
    }
  }

  /** The whole effect of encoding a document and reading it back, for every value that fits. */
  lemma DocumentRead(v: Json)
    requires Fits(v, 1)
    ensures ReadDocument(Document(v)) == if CutShort(v, 1) then None else Some(CutKeys(v))
  {
    assert Document(v)[1..] == Body(v, 1) + [];
    ReadBody(v, 1, []);
  }

  /** Exactly which documents survive the round trip. */
  lemma RoundTrip(v: Json)
    requires Fits(v, 1)
    ensures ReadDocument(Document(v)) == Some(v) <==> !CutShort(v, 1) && WholeKeys(v)
  {
    DocumentRead(v);
    CutKeysWhole(v);
  }

  /** A key with a NUL in it: the member comes back under the empty name. */
  lemma NulKeyIsCut()
    ensures var v := Obj([[0, 65]], [Null]);
            && Fits(v, 1) && ReadDocument(Document(v)) == Some(Obj([[]], [Null])) && Obj([[]], [Null]) != v
  {
    var v := Obj([[0, 65]], [Null]);
    assert [[0, 65]][1..] == [] && [Null][1..] == [];
    assert CString([0, 65]) == [];
    assert StoredKeys([[0, 65]]) == [[]] && CutKeysAll([Null]) == [Null];
    NulKeyFits(v);
    DocumentRead(v);
  }

  lemma NulKeyFits(v: Json)
    requires v == Obj([[0, 65]], [Null])
    ensures Fits(v, 1) && !CutShort(v, 1)
  {
    assert [[0, 65]][1..] == [] && [Null][1..] == [];
    assert KeyBytes([[0, 65]]) == [];
    assert |Entries([Null], 1, 19).entries| == 5;
    assert Entries([Null], 1, 19).values == [];
  }

  /** A key of exactly 65536 bytes without a NUL: its length is stored as zero. */
  lemma LongKeyIsCut(key: Text)
    requires |key| == 0x1_0000 && 0 !in key
    ensures var v := Obj([key], [Null]);
            && Fits(v, 1) && ReadDocument(Document(v)) == Some(Obj([[]], [Null])) && Obj([[]], [Null]) != v
  {
    hide CString, ReadDocument, Document, Fits;
    var v := Obj([key], [Null]);
    assert [key][1..] == [] && [Null][1..] == [];
    CStringNulFree(key);
    assert StoredKeys([key]) == [[]] && CutKeysAll([Null]) == [Null];
    LongKeyFits(key);
    DocumentRead(v);
  }

  lemma OneNull(offset: nat)
    ensures Entries([Null], 1, offset).values == []
  {
    assert [Null][1..] == [];
    assert Entries([], 1, offset).values == [];
  }

  lemma LongKeyFits(key: Text)
    requires |key| == 0x1_0000 && CString(key) == key
    ensures Fits(Obj([key], [Null]), 1) && !CutShort(Obj([key], [Null]), 1)
  {
    hide CString, Container, LE;
    assert [key][1..] == [] && [Null][1..] == [];
    assert KeyBytes([key]) == key + [];
    ObjectBody([key], [Null], 1);
    var offset := 8 + (KEY_ENTRY + VALUE_ENTRY) * |[key]| + |KeyBytes([key])|;
    OneNull(offset);
    assert |Body(Obj([key], [Null]), 1)| == offset;
    assert AllWellFormed([Null]);
  }

  /** `depth` arrays around a null. */
  function Nested(depth: nat): Json {
    if depth == 0 then Null else Arr([Nested(depth - 1)])
  }

  lemma {:induction false} NestedIsCut(n: nat, depth: nat)
    requires 1 <= n && n + depth > MAX_DEPTH
    ensures CutShort(Nested(n), depth)
    decreases n
  {
    var items := [Nested(n - 1)];
    if depth < MAX_DEPTH {
      NestedIsCut(n - 1, depth + 1);
      assert items[0] == Nested(n - 1);
    }
  }

  lemma {:induction false} NestedSize(n: nat, depth: nat)
    ensures WellFormed(Nested(n)) && |Body(Nested(n), depth)| <= 1 + 13 * n
    decreases n
  {
    if n > 0 {
      NestedSize(n - 1, depth + 1);
      OneItemSize(Nested(n - 1), depth);
      OneItemWellFormed(Nested(n - 1));
    }
  }

  lemma OneItemWellFormed(v: Json)
    requires WellFormed(v)
    ensures WellFormed(Arr([v]))
  {
    assert [v][1..] == [];
  }

  lemma OneItemSize(v: Json, depth: nat)
    ensures |Body(Arr([v]), depth)| <= 13 + |Body(v, depth + 1)|
  {
    hide Body, LE, Entries, EntryBytes;
    assert [v][1..] == [];
    ArrayBody([v], depth);
    EntriesCons([v], depth, 13);
    NoEntries(depth, 13 + |OutOfLine(v, depth)|);
  }

  lemma NoEntries(depth: nat, offset: nat)
    ensures Entries([], depth, offset) == Encoded([], [])
  {}

  /** One hundred arrays around a null are one too many: the document is written but cannot be read. */
  lemma HundredArraysAreLost()
    ensures Fits(Nested(100), 1) && ReadDocument(Document(Nested(100))) == None
  {
    hide Nested, ReadDocument, Document, CutShort, Body, WellFormed, CutKeys;
    NestedSize(100, 1);
    NestedIsCut(100, 1);
    DocumentRead(Nested(100));
  }
}
