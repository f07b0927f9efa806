/**
 * The encoder as it runs: a growing buffer, a running offset, and 5-byte
 * entries that are patched in place once the child they describe has been placed.
 */
module JsonEncoder {
  import opened Bytes
  import opened Wrappers
  import opened JsonFormat

  class MsgBuf {
    var data: seq<Byte>

    constructor ()
      ensures data == []
    {
      data := [];
    }

    method PushBack(s: seq<Byte>)
      modifies this
      ensures data == old(data) + s
    {
      data := data + s;
    }

    /** Overwrites bytes that are already in the buffer. */
    method Patch(at: nat, s: seq<Byte>)
      requires at + |s| <= |data|
      modifies this
      ensures data == old(data)[..at] + s + old(data)[at + |s|..]
    {
      data := data[..at] + s + data[at + |s|..];
    }
  }

  method AppendVariableLength(buf: MsgBuf, length: nat, offset: nat) returns (next: nat)
    modifies buf
    ensures buf.data == old(buf.data) + Leb(length)
    ensures next == offset + |Leb(length)|
  {
    hide Leb;
    var rest := length;
    next := offset;
    ghost var start, done: seq<Byte> := buf.data, [];
    assert start + [] == start && [] + Leb(length) == Leb(length);
    while true
      invariant buf.data == start + done
      invariant done + Leb(rest) == Leb(length)
      invariant next == offset + |done|
      decreases rest
    {
      LebStep(rest);
      Assoc(done, [rest % 128 + 128], Leb(rest / 128));
      var ch := rest % 128;
      rest := rest / 128;
      if rest != 0 {
        ch := ch + 128;
      }
      Assoc(start, done, [ch]);
      buf.PushBack([ch]);
      done := done + [ch];
      next := next + 1;
      if rest == 0 {
        break;
      }
    }
  }

  lemma LebStep(n: nat)
    ensures Leb(n) == if n / 128 == 0 then [n % 128] else [n % 128 + 128] + Leb(n / 128)
  {}

  /** The type tag goes into the parent's entry, or in front of the buffer at the root. */
  method EmitTag(buf: MsgBuf, parent: MsgBuf?, slot: nat, tag: Byte)
    requires parent != null ==> parent != buf && slot < |parent.data|
    modifies buf, parent
    ensures parent == null ==> buf.data == old(buf.data) + [tag]
    ensures parent != null ==> buf.data == old(buf.data) && parent.data == old(parent.data)[slot := tag]
  {
    if parent != null {
      parent.Patch(slot, [tag]);
    } else {
      buf.PushBack([tag]);
    }
  }

  /** What the root carries in front of its body. */
  function RootTag(parent: MsgBuf?, v: Json): seq<Byte> {
    if parent == null then [TypeTag(v)] else []
  }

  ghost predicate TagPatched(before: seq<Byte>, after: seq<Byte>, slot: nat, v: Json) {
    slot < |before| && after == before[slot := TypeTag(v)]
  }

  /** `parse_nested_object`: returns the bytes it appended, the root tag aside, even when the depth limit cuts it short. */
  method ParseNestedObject(v: Json, buf: MsgBuf, depth: nat, parent: MsgBuf?, slot: nat) returns (offset: nat)
    requires WellFormed(v) && buf.data == []
    requires parent != null ==> parent != buf && slot < |parent.data|
    modifies buf, parent
    ensures buf.data == RootTag(parent, v) + Body(v, depth)
    ensures offset == |Body(v, depth)|
    ensures parent != null ==> TagPatched(old(parent.data), parent.data, slot, v)
    decreases v, 2
  {
    hide Body, Entries, TypeTag;
    EmitTag(buf, parent, slot, TypeTag(v));
    match v
    case Arr(items) =>
      offset := AppendArray(items, buf, depth, parent == null);
    case Obj(keys, vals) =>
      offset := AppendObject(keys, vals, buf, depth, parent == null);
    case _ =>
      offset := AppendScalar(v, buf, depth);
  }

  /** The branches for values without children. */
  method AppendScalar(v: Json, buf: MsgBuf, ghost depth: nat) returns (offset: nat)
    requires WellFormed(v) && !v.Arr? && !v.Obj?
    modifies buf
    ensures buf.data == old(buf.data) + Body(v, depth)
    ensures offset == |Body(v, depth)|
  {
    hide Entries, LE, Leb;
    match v
    case Null =>
      buf.PushBack([0]);
      offset := 1;
    case Bool(b) =>
      buf.PushBack([if b then 1 else 2]);
      offset := 1;
    case Num(n) =>
      buf.PushBack(LE(n, NumberWidth(n)));
      offset := NumberWidth(n);
    case Double(bits) =>
      buf.PushBack(bits);
      offset := 8;
    case Str(s) =>
      offset := AppendVariableLength(buf, |s|, 0);
      Assoc(old(buf.data), Leb(|s|), s);
      buf.PushBack(s);
      offset := offset + |s|;
  }

  method AppendArray(items: seq<Json>, buf: MsgBuf, depth: nat, isRoot: bool) returns (offset: nat)
    requires AllWellFormed(items)
    requires |buf.data| == if isRoot then 1 else 0
    modifies buf
    ensures buf.data == old(buf.data) + Body(Arr(items), depth)
    ensures offset == |Body(Arr(items), depth)|
    decreases items, 1
  {
    hide Body, Entries, Container, LE, Zeros;
    ghost var root := buf.data;
    var n := |items|;
    buf.PushBack(LE(n, 4));
    var size := |buf.data|;
    buf.PushBack(LE(0, 4));
    var entry := |buf.data|;
    buf.PushBack(Zeros(VALUE_ENTRY * n));
    offset := 8 + VALUE_ENTRY * n;
    ArrayBody(items, depth);
    if items != [] && depth >= MAX_DEPTH {
      assert buf.data == root + (LE(n, 4) + LE(0, 4) + Zeros(VALUE_ENTRY * n));
      return;
    }
    ghost var front := root + LE(n, 4) + LE(0, 4);
    assert buf.data == front + Zeros(VALUE_ENTRY * n) + [];
    offset := AppendValues(items, buf, depth, offset, entry, front, []);
    ghost var e := Entries(items, depth, 8 + VALUE_ENTRY * n);
    assert buf.data == front + [] + e.entries + [] + e.values by {
      assert front + [] == front;
    }
    FinishContainer(root, n, [], e.entries, [], e.values);
    var total := if isRoot then |buf.data| - 1 else |buf.data|;
    buf.Patch(size, LE(total, 4));
  }

  method AppendObject(keys: seq<Text>, vals: seq<Json>, buf: MsgBuf, depth: nat, isRoot: bool) returns (offset: nat)
    requires AllWellFormed(vals) && |keys| == |vals|
    requires |buf.data| == if isRoot then 1 else 0
    modifies buf
    ensures buf.data == old(buf.data) + Body(Obj(keys, vals), depth)
    ensures offset == |Body(Obj(keys, vals), depth)|
    decreases vals, 1
  {
    hide Body, Entries, Container, LE, KeyEntries, KeyBytes, CString, Zeros;
    ghost var root := buf.data;
    var n := |keys|;
    buf.PushBack(LE(n, 4));
    var size := |buf.data|;
    buf.PushBack(LE(0, 4));
    var fixed := 8 + n * (KEY_ENTRY + VALUE_ENTRY);
    offset := AppendKeyEntries(keys, buf, fixed);
    var entry := |buf.data|;
    buf.PushBack(Zeros(VALUE_ENTRY * n));
    AppendKeys(keys, buf);
    ghost var ks, kb := KeyEntries(keys, fixed), KeyBytes(keys);
    ghost var front := root + LE(n, 4) + LE(0, 4) + ks;
    assert buf.data == front + Zeros(VALUE_ENTRY * n) + kb;
    offset := AppendValues(vals, buf, depth, offset, entry, front, kb);
    ghost var e := Entries(vals, depth, fixed + |kb|);
    ObjectBody(keys, vals, depth);
    var total := if isRoot then |buf.data| - 1 else |buf.data|;
    buf.Patch(size, LE(total, 4));
    FinishContainer(root, n, ks, e.entries, kb, e.values);
  }

  method AppendKeyEntries(keys: seq<Text>, buf: MsgBuf, fixed: nat) returns (offset: nat)
    modifies buf
    ensures buf.data == old(buf.data) + KeyEntries(keys, fixed)
    ensures offset == fixed + |KeyBytes(keys)|
  {
    hide CString, LE, KeyEntries, KeyBytes;
    offset := fixed;
    ghost var start, done: seq<Byte> := buf.data, [];
    KeysStart(buf.data, keys, fixed);
    for i := 0 to |keys|
      invariant buf.data == start + done
      invariant done + KeyEntries(keys[i..], offset) == KeyEntries(keys, fixed)
      invariant offset + |KeyBytes(keys[i..])| == fixed + |KeyBytes(keys)|
    {
      var len := |CString(keys[i])|;
      KeyEntryStep(keys, i, offset);
      AppendTwo(start, done, LE(offset, 4), LE(len, 2), KeyEntries(keys[i + 1..], offset + len));
      buf.PushBack(LE(offset, 4));
      buf.PushBack(LE(len, 2));
      done := done + (LE(offset, 4) + LE(len, 2));
      offset := offset + len;
    }
    KeysEnd(done, keys, offset);
  }

  lemma KeysStart(data: seq<Byte>, keys: seq<Text>, offset: nat)
    ensures data == data + [] && keys[0..] == keys && [] + KeyEntries(keys, offset) == KeyEntries(keys, offset)
    ensures [] + KeyBytes(keys) == KeyBytes(keys)
  {}

  lemma KeysEnd(done: seq<Byte>, keys: seq<Text>, offset: nat)
    ensures done + KeyEntries(keys[|keys|..], offset) == done && KeyBytes(keys[|keys|..]) == []
    ensures done + KeyBytes(keys[|keys|..]) == done
  {
    assert keys[|keys|..] == [];
  }

  lemma AppendTwo(start: seq<Byte>, done: seq<Byte>, a: seq<Byte>, b: seq<Byte>, rest: seq<Byte>)
    ensures start + done + a + b == start + (done + (a + b))
    ensures done + (a + b + rest) == done + (a + b) + rest
  {
    Assoc(start, done, a);
    Assoc(start, done + a, b);
    Assoc(done, a, b);
    Assoc(done, a + b, rest);
  }

  lemma {:induction false} KeyEntryStep(keys: seq<Text>, i: nat, offset: nat)
    requires i < |keys|
    ensures var len := |CString(keys[i])|;
            && KeyEntries(keys[i..], offset) == LE(offset, 4) + LE(len, 2) + KeyEntries(keys[i + 1..], offset + len)
            && KeyBytes(keys[i..]) == CString(keys[i]) + KeyBytes(keys[i + 1..])
  {
    assert keys[i..][0] == keys[i] && keys[i..][1..] == keys[i + 1..];
  }

  method AppendKeys(keys: seq<Text>, buf: MsgBuf)
    modifies buf
    ensures buf.data == old(buf.data) + KeyBytes(keys)
  {
    hide CString, KeyEntries, KeyBytes;
    ghost var start, done: seq<Byte> := buf.data, [];
    KeysStart(buf.data, keys, 0);
    for i := 0 to |keys|
      invariant buf.data == start + done
      invariant done + KeyBytes(keys[i..]) == KeyBytes(keys)
    {
      KeyEntryStep(keys, i, 0);
      Assoc(start, done, CString(keys[i]));
      Assoc(done, CString(keys[i]), KeyBytes(keys[i + 1..]));
      buf.PushBack(CString(keys[i]));
      done := done + CString(keys[i]);
    }
    KeysEnd(done, keys, 0);
  }

  /** The value loop: entry by entry the blanks after `front` are filled and out-of-line bodies grow at the end. */
  method AppendValues(vs: seq<Json>, buf: MsgBuf, depth: nat, base: nat, entry: nat,
                      ghost front: seq<Byte>, ghost middle: seq<Byte>)
    returns (offset: nat)
    requires AllWellFormed(vs)
    requires entry == |front| && buf.data == front + Zeros(VALUE_ENTRY * |vs|) + middle
    modifies buf
    ensures var e := Entries(vs, depth, base);
            buf.data == front + e.entries + middle + e.values && offset == base + |e.values|
    decreases vs, 0
  {
    hide Progress, Entries, Zeros;
    offset := base;
    ghost var es: seq<Byte>, bodies: seq<Byte> := [], [];
    ProgressStart(vs, depth, base, front, middle);
    for i := 0 to |vs|
      invariant Progress(buf.data, vs, i, depth, base, front, es, middle, bodies, offset)
    {
      ghost var slot := EntryBytes(vs[i], offset);
      ghost var body := OutOfLine(vs[i], depth);
      ProgressStep(buf.data, vs, i, depth, base, front, es, middle, bodies, offset);
      offset := AppendValue(buf, depth, offset, vs[i], entry + VALUE_ENTRY * i);
      es, bodies := es + slot, bodies + body;
    }
    ProgressEnd(buf.data, vs, depth, base, front, es, middle, bodies, offset);
  }

  /** After `i` turns: `es` are the entries filled so far and `bodies` the out-of-line values placed so far. */
  ghost predicate Progress(data: seq<Byte>, vs: seq<Json>, i: nat, depth: nat, base: nat, front: seq<Byte>,
                           es: seq<Byte>, middle: seq<Byte>, bodies: seq<Byte>, offset: nat)
  {
    && i <= |vs| && AllWellFormed(vs[i..])
    && |es| == VALUE_ENTRY * i
    && data == front + es + Zeros(VALUE_ENTRY * (|vs| - i)) + middle + bodies
    && es + Entries(vs[i..], depth, offset).entries == Entries(vs, depth, base).entries
    && bodies + Entries(vs[i..], depth, offset).values == Entries(vs, depth, base).values
    && offset == base + |bodies|
  }

  lemma {:induction false} ProgressStart(vs: seq<Json>, depth: nat, base: nat, front: seq<Byte>, middle: seq<Byte>)
    requires AllWellFormed(vs)
    ensures Progress(front + Zeros(VALUE_ENTRY * |vs|) + middle, vs, 0, depth, base, front, [], middle, [], base)
  {
    hide Entries, Zeros;
    assert vs[0..] == vs;
    assert [] + Entries(vs, depth, base).entries == Entries(vs, depth, base).entries;
    assert [] + Entries(vs, depth, base).values == Entries(vs, depth, base).values;
    assert front + [] + Zeros(VALUE_ENTRY * |vs|) + middle + [] == front + Zeros(VALUE_ENTRY * |vs|) + middle;
  }

  lemma {:induction false} ProgressStep(data: seq<Byte>, vs: seq<Json>, i: nat, depth: nat, base: nat, front: seq<Byte>,
                     es: seq<Byte>, middle: seq<Byte>, bodies: seq<Byte>, offset: nat)
    requires i < |vs| && Progress(data, vs, i, depth, base, front, es, middle, bodies, offset)
    ensures WellFormed(vs[i])
    ensures var slot, body, at := EntryBytes(vs[i], offset), OutOfLine(vs[i], depth), |front| + VALUE_ENTRY * i;
            && at + VALUE_ENTRY <= |data|
            && Progress(data[..at] + slot + data[at + VALUE_ENTRY..] + body, vs, i + 1, depth, base,
                        front, es + slot, middle, bodies + body, offset + |body|)
  {
    hide Entries, Zeros, EntryBytes, OutOfLine;
    var slot, body := EntryBytes(vs[i], offset), OutOfLine(vs[i], depth);
    var tail := Entries(vs[i + 1..], depth, offset + |body|);
    assert vs[i..][0] == vs[i] && vs[i..][1..] == vs[i + 1..];
    FillSlot(front, es, slot, |vs| - i - 1, middle, bodies, body);
    EntriesCons(vs[i..], depth, offset);
    assert es + (slot + tail.entries) == (es + slot) + tail.entries;
    assert bodies + (body + tail.values) == (bodies + body) + tail.values;
  }

  lemma {:induction false} ProgressEnd(data: seq<Byte>, vs: seq<Json>, depth: nat, base: nat, front: seq<Byte>,
                    es: seq<Byte>, middle: seq<Byte>, bodies: seq<Byte>, offset: nat)
    requires Progress(data, vs, |vs|, depth, base, front, es, middle, bodies, offset)
    ensures var e := Entries(vs, depth, base);
            data == front + e.entries + middle + e.values && offset == base + |e.values|
  {
    NoEntries(depth, offset);
    assert vs[|vs|..] == [];
    assert es + [] == es && bodies + [] == bodies;
    assert front + es + [] + middle == front + es + middle;
  }

  /** `append_value`: patches the entry at `slot` and, unless the value was inlined, appends its body. */
  method AppendValue(buf: MsgBuf, depth: nat, offset: nat, v: Json, slot: nat) returns (next: nat)
    requires WellFormed(v) && slot + VALUE_ENTRY <= |buf.data|
    modifies buf
    ensures var body := OutOfLine(v, depth);
            && next == offset + |body|
            && buf.data == old(buf.data)[..slot] + EntryBytes(v, offset) + old(buf.data)[slot + VALUE_ENTRY..] + body
    decreases v, 4
  {
    hide Body, LE, TypeTag, InlineValue;
    match InlineValue(v)
    case Some(x) =>
      FillEntry(buf, slot, x.tag, LE(x.value, 4));
      next := offset;
      assert buf.data + [] == buf.data;
    case None =>
      next := AppendNested(buf, depth, offset, v, slot);
  }

  /** An inlined value goes into the entry by two stores. */
  method FillEntry(buf: MsgBuf, slot: nat, tag: Byte, value: seq<Byte>)
    requires slot + VALUE_ENTRY <= |buf.data| && |value| == 4
    modifies buf
    ensures buf.data == old(buf.data)[..slot] + ([tag] + value) + old(buf.data)[slot + VALUE_ENTRY..]
  {
    PatchEntry(buf.data, slot, tag, value);
    buf.Patch(slot, [tag]);
    buf.Patch(slot + 1, value);
  }

  /** A value that does not fit its entry: the offset goes into the entry, the bytes to the end of the buffer. */
  method AppendNested(buf: MsgBuf, depth: nat, offset: nat, v: Json, slot: nat) returns (next: nat)
    requires WellFormed(v) && slot + VALUE_ENTRY <= |buf.data|
    modifies buf
    ensures var body := Body(v, depth + 1);
            && next == offset + |body|
            && buf.data == old(buf.data)[..slot] + ([TypeTag(v)] + LE(offset, 4)) + old(buf.data)[slot + VALUE_ENTRY..] + body
    decreases v, 3
  {
    hide Body, LE, TypeTag;
    PatchEntry(buf.data, slot, TypeTag(v), LE(offset, 4));
    buf.Patch(slot + 1, LE(offset, 4));
    var element := new MsgBuf();
    var size := ParseNestedObject(v, element, depth + 1, buf, slot);
    buf.PushBack(element.data);
    next := offset + size;
  }

  /** The two halves of an entry may be patched in either order. */
  lemma PatchEntry(data: seq<Byte>, slot: nat, tag: Byte, value: seq<Byte>)
    requires slot + VALUE_ENTRY <= |data| && |value| == 4
    ensures var first := data[..slot] + [tag] + data[slot + 1..];
            var second := data[..slot + 1] + value + data[slot + 5..];
            var both := data[..slot] + ([tag] + value) + data[slot + 5..];
            && first[..slot + 1] + value + first[slot + 5..] == both
            && second[slot := tag] == both
  {}

  lemma Splice(a: seq<Byte>, b: seq<Byte>, c: seq<Byte>, b': seq<Byte>)
    requires |b| == |b'|
    ensures (a + b + c)[..|a|] + b' + (a + b + c)[|a| + |b|..] == a + b' + c
  {}

  /** Patching the size slot completes the container. */
  lemma FinishContainer(root: seq<Byte>, n: nat, ks: seq<Byte>, es: seq<Byte>, kb: seq<Byte>, vs: seq<Byte>)
    ensures var data := root + LE(n, 4) + LE(0, 4) + ks + es + kb + vs;
            var at := |root| + 4;
            data[..at] + LE(|data| - |root|, 4) + data[at + 4..] == root + Container(n, ks, es, kb, vs)
  {
    hide LE;
    var data := root + LE(n, 4) + LE(0, 4) + ks + es + kb + vs;
    var rest := ks + es + kb + vs;
    var size := LE(|data| - |root|, 4);
    assert data == (root + LE(n, 4)) + LE(0, 4) + rest;
    Splice(root + LE(n, 4), LE(0, 4), rest, size);
    assert Container(n, ks, es, kb, vs) == LE(n, 4) + size + rest;
    assert root + (LE(n, 4) + size + rest) == (root + LE(n, 4)) + size + rest;
  }

  /** One turn of the value loop on the buffer. */
  lemma {:induction false} FillSlot(front: seq<Byte>, es: seq<Byte>, slot: seq<Byte>, left: nat, middle: seq<Byte>,
                 bodies: seq<Byte>, body: seq<Byte>)
    requires |slot| == VALUE_ENTRY
    ensures var data, at := front + es + Zeros(VALUE_ENTRY * (left + 1)) + middle + bodies, |front| + |es|;
            data[..at] + slot + data[at + VALUE_ENTRY..] + body
            == front + (es + slot) + Zeros(VALUE_ENTRY * left) + middle + (bodies + body)
  {
    var data := front + es + Zeros(VALUE_ENTRY * (left + 1)) + middle + bodies;
    var rest := Zeros(VALUE_ENTRY * left) + middle + bodies;
    assert Zeros(VALUE_ENTRY * (left + 1)) == Zeros(VALUE_ENTRY) + Zeros(VALUE_ENTRY * left);
    assert data == (front + es) + Zeros(VALUE_ENTRY) + rest;
    Splice(front + es, Zeros(VALUE_ENTRY), rest, slot);
    assert (front + es) + slot + rest + body
        == front + (es + slot) + Zeros(VALUE_ENTRY * left) + middle + (bodies + body);
  }

  /** `parser`: the root is parsed at depth 1 with no parent. */
  method Parse(v: Json) returns (data: seq<Byte>)
    requires WellFormed(v)
    ensures data == Document(v)
  {
    var buf := new MsgBuf();
    var _ := ParseNestedObject(v, buf, 1, null, 0);
    data := buf.data;
  }
}
