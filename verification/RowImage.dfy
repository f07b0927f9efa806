/**
 * Row images: non-null values one behind the other, a null bitmap whose unused bits are set, and for updates a bitmap of
 * the JSON columns that carry a diff.
 */
module RowImage {
  import opened Bytes
  import opened Wrappers
  import opened RowFormat

  // ---------------------------------------------------------------- bitmaps

  /** `0x01 << k` */
  function Mask(k: nat): bv8
    requires k < 8
  {
    if k == 0 then 0x01 else if k == 1 then 0x02 else if k == 2 then 0x04 else if k == 3 then 0x08
    else if k == 4 then 0x10 else if k == 5 then 0x20 else if k == 6 then 0x40 else 0x80
  }

  /** `0xFF << k` in one byte */
  function HighMask(k: nat): bv8
    requires k < 8
  {
    if k == 0 then 0xFF else if k == 1 then 0xFE else if k == 2 then 0xFC else if k == 3 then 0xF8
    else if k == 4 then 0xF0 else if k == 5 then 0xE0 else if k == 6 then 0xC0 else 0x80
  }

  predicate BitOf(v: bv8, k: nat)
    requires k < 8
  {
    v & Mask(k) != 0
  }

  predicate BitAt(bits: seq<bv8>, i: nat)
    requires i / 8 < |bits|
  {
    BitOf(bits[i / 8], i % 8)
  }

  lemma OrMask(v: bv8, k: nat, j: nat)
    requires k < 8 && j < 8
    ensures BitOf(v | Mask(k), j) <==> j == k || BitOf(v, j)
  {
    hide Mask;
    MaskAlone(k, j);
    OrAnd(v, Mask(k), Mask(j));
  }

  lemma OrAnd(v: bv8, m: bv8, n: bv8)
    ensures m & n == 0 ==> (v | m) & n == v & n
    ensures m & n == n ==> (v | m) & n == n
  {}

  lemma MaskAlone(k: nat, j: nat)
    requires k < 8 && j < 8
    ensures if j == k then Mask(k) & Mask(j) == Mask(j) && Mask(j) != 0 else Mask(k) & Mask(j) == 0
  {}

  lemma HighBits(k: nat, j: nat)
    requires k < 8 && j < 8
    ensures BitOf(HighMask(k), j) <==> j >= k
  {}

  lemma ZeroBits(j: nat)
    requires j < 8
    ensures !BitOf(0x00, j)
  {}

  /** Bits of columns clear, the rest of the last byte set. */
  predicate Cleared(bits: seq<bv8>, count: nat) {
    |bits| == FixedLen(count) && forall i :: 0 <= i < 8 * |bits| ==> (BitAt(bits, i) <==> i >= count)
  }

  method FillBitmap(colCount: nat, bitmap: array<bv8>)
    requires bitmap.Length == FixedLen(colCount)
    modifies bitmap
    ensures Cleared(bitmap[..], colCount)
  {
    var i := 0;
    while i < colCount / 8
      invariant i <= colCount / 8
      invariant forall k :: 0 <= k < i ==> bitmap[k] == 0x00
    {
      bitmap[i] := 0x00;
      i := i + 1;
    }
    if colCount / 8 == bitmap.Length - 1 {
      bitmap[bitmap.Length - 1] := HighMask(colCount % 8);
    }
    ClearedBytes(bitmap[..], colCount);
  }

  lemma ClearedBytes(bits: seq<bv8>, count: nat)
    requires |bits| == FixedLen(count)
    requires forall k :: 0 <= k < count / 8 ==> bits[k] == 0x00
    requires count % 8 != 0 ==> bits[|bits| - 1] == HighMask(count % 8)
    ensures Cleared(bits, count)
  {
    hide BitOf;
    forall i | 0 <= i < 8 * |bits|
      ensures BitAt(bits, i) <==> i >= count
    {
      if i / 8 < count / 8 {
        ZeroBits(i % 8);
      } else {
        HighBits(count % 8, i % 8);
      }
    }
  }

  method SetBit(bitmap: array<bv8>, i: nat)
    requires i / 8 < bitmap.Length
    modifies bitmap
    ensures forall j :: 0 <= j < 8 * bitmap.Length ==>
              (BitAt(bitmap[..], j) <==> j == i || BitAt(old(bitmap[..]), j))
  {
    hide BitOf;
    bitmap[i / 8] := bitmap[i / 8] | Mask(i % 8);
    forall j | 0 <= j < 8 * bitmap.Length
      ensures BitAt(bitmap[..], j) <==> j == i || BitAt(old(bitmap[..]), j)
    {
      if j / 8 == i / 8 {
        OrMask(old(bitmap[i / 8]), i % 8, j % 8);
      }
    }
  }

  // ---------------------------------------------------------------- cells

  /** A column value of a record, with the flag that a JSON text is a diff. */
  datatype Cell = Null | Value(datum: Datum, diff: bool)

  /** The flag counts only in the after image of an update. */
  function AsDiff(cell: Cell, update: bool): bool {
    cell.Value? && update && cell.diff
  }

  predicate ValidRow(cols: seq<Column>, cells: seq<Cell>, update: bool) {
    && |cols| == |cells|
    && forall i :: 0 <= i < |cols| ==>
         ValidColumn(cols[i]) && (cells[i].Value? ==> Fits(cols[i], cells[i].datum, AsDiff(cells[i], update)))
  }

  /** Every string value of the row can be read with the metadata of its column. */
  predicate LegibleRow(cols: seq<Column>, cells: seq<Cell>)
    requires |cols| == |cells|
  {
    forall i :: 0 <= i < |cols| && cells[i].Value? ==> Legible(cols[i], cells[i].datum)
  }

  function CellBytes(c: Column, cell: Cell, update: bool): Option<seq<Byte>>
    requires ValidColumn(c) && (cell.Value? ==> Fits(c, cell.datum, AsDiff(cell, update)))
  {
    if cell.Null? then None else Some(Emit(c, cell.datum, AsDiff(cell, update)))
  }

  function Parts(cols: seq<Column>, cells: seq<Cell>, update: bool): (s: seq<Option<seq<Byte>>>)
    requires ValidRow(cols, cells, update)
    ensures |s| == |cells|
  {
    seq(|cols|, i requires 0 <= i < |cols| => CellBytes(cols[i], cells[i], update))
  }

  function Join(parts: seq<Option<seq<Byte>>>): seq<Byte> {
    if parts == [] then []
    else (if parts[0].Some? then parts[0].value else []) + Join(parts[1..])
  }

  /** The bytes of a row. */
  function RowBytes(cols: seq<Column>, cells: seq<Cell>, update: bool): seq<Byte>
    requires ValidRow(cols, cells, update)
  {
    Join(Parts(cols, cells, update))
  }

  predicate NullBits(bits: seq<bv8>, cells: seq<Cell>) {
    && |bits| == FixedLen(|cells|)
    && forall i :: 0 <= i < 8 * |bits| ==> (BitAt(bits, i) <==> i >= |cells| || cells[i].Null?)
  }

  // ---------------------------------------------------------------- reading a row

  /** Splits a row by null flags and column metadata alone. */
  function ReadRow(cols: seq<(Kind, seq<Byte>)>, nulls: seq<bool>, s: seq<Byte>):
    Option<(seq<Option<seq<Byte>>>, seq<Byte>)>
    requires |cols| == |nulls|
    decreases |cols|
  {
    if cols == [] then Some(([], s))
    else if nulls[0] then
      match ReadRow(cols[1..], nulls[1..], s)
      case None => None
      case Some((parts, rest)) => Some(([None] + parts, rest))
    else
      match CellWidth(cols[0].0, cols[0].1, s)
      case None => None
      case Some(w) =>
        if |s| < w then None
        else
          match ReadRow(cols[1..], nulls[1..], s[w..])
          case None => None
          case Some((parts, rest)) => Some(([Some(s[..w])] + parts, rest))
  }

  function Metas(cols: seq<Column>): (s: seq<(Kind, seq<Byte>)>)
    requires forall i :: 0 <= i < |cols| ==> ValidColumn(cols[i])
    ensures |s| == |cols|
  {
    seq(|cols|, i requires 0 <= i < |cols| => (cols[i].kind, MetaBytes(cols[i])))
  }

  /** The flags a reader takes from the bitmap. */
  function Flags(bits: seq<bv8>, n: nat): (s: seq<bool>)
    requires |bits| == FixedLen(n)
    ensures |s| == n
  {
    seq(n, i requires 0 <= i < n => BitAt(bits, i))
  }

  function NullFlags(cells: seq<Cell>): (s: seq<bool>)
    ensures |s| == |cells|
  {
    seq(|cells|, i requires 0 <= i < |cells| => cells[i].Null?)
  }

  lemma FlagsAreNulls(bits: seq<bv8>, cells: seq<Cell>)
    requires NullBits(bits, cells)
    ensures Flags(bits, |cells|) == NullFlags(cells)
  {
    hide BitOf;
    forall i | 0 <= i < |cells|
      ensures Flags(bits, |cells|)[i] == NullFlags(cells)[i]
    {
      assert BitAt(bits, i) <==> i >= |cells| || cells[i].Null?;
    }
  }

  lemma RowTail(cols: seq<Column>, cells: seq<Cell>, update: bool)
    requires ValidRow(cols, cells, update) && |cols| > 0
    ensures ValidRow(cols[1..], cells[1..], update)
    ensures Parts(cols, cells, update) == [CellBytes(cols[0], cells[0], update)] + Parts(cols[1..], cells[1..], update)
    ensures Metas(cols)[0] == (cols[0].kind, MetaBytes(cols[0])) && Metas(cols)[1..] == Metas(cols[1..])
    ensures NullFlags(cells)[0] == cells[0].Null? && NullFlags(cells)[1..] == NullFlags(cells[1..])
  {
    hide ValidColumn, Fits, Emit, MetaBytes, CellBytes;
  }

  /** Null flags and metadata split the row bytes into the columns they were made from if and only if the row is legible. */
  lemma {:induction false} RowSplit(cols: seq<Column>, cells: seq<Cell>, update: bool, rest: seq<Byte>)
    requires ValidRow(cols, cells, update)
    ensures ReadRow(Metas(cols), NullFlags(cells), RowBytes(cols, cells, update) + rest)
         == Some((Parts(cols, cells, update), rest))
       <==> LegibleRow(cols, cells)
    decreases |cols|
  {
    hide ValidColumn, Fits, Emit, MetaBytes, CellWidth, Metas, NullFlags, Parts, Legible, LegibleRow;
    if cols == [] {
      assert Join([]) + rest == rest;
      LegibleNone();
    } else {
      RowTail(cols, cells, update);
      LegibleTail(cols, cells);
      RowSplit(cols[1..], cells[1..], update, rest);
      var part, more := CellBytes(cols[0], cells[0], update), Parts(cols[1..], cells[1..], update);
      assert ([part] + more)[1..] == more;
      if cells[0].Null? {
        assert [] + Join(more) == Join(more);
        NullRead(Metas(cols), NullFlags(cells), Join(more) + rest, more, rest);
      } else {
        var bytes := part.value;
        Assoc(bytes, Join(more), rest);
        WidthAgrees(cols[0], cells[0].datum, AsDiff(cells[0], update), Join(more) + rest);
        Front(bytes, Join(more) + rest);
        ValueRead(Metas(cols), NullFlags(cells), bytes, Join(more) + rest, more, rest);
      }
    }
  }

  lemma LegibleNone()
    ensures LegibleRow([], [])
  {}

  lemma LegibleTail(cols: seq<Column>, cells: seq<Cell>)
    requires |cols| == |cells| && |cols| > 0
    ensures LegibleRow(cols, cells)
       <==> (cells[0].Value? ==> Legible(cols[0], cells[0].datum)) && LegibleRow(cols[1..], cells[1..])
  {
    hide Legible;
    assert forall i :: 0 < i < |cols| ==> cols[i] == cols[1..][i - 1] && cells[i] == cells[1..][i - 1];
  }

  /** A null column takes no bytes. */
  lemma NullRead(cols: seq<(Kind, seq<Byte>)>, nulls: seq<bool>, s: seq<Byte>, more: seq<Option<seq<Byte>>>, rest: seq<Byte>)
    requires |cols| == |nulls| && cols != [] && nulls[0]
    ensures ReadRow(cols, nulls, s) == Some(([None] + more, rest))
       <==> ReadRow(cols[1..], nulls[1..], s) == Some((more, rest))
  {
    var r := ReadRow(cols[1..], nulls[1..], s);
    if r.Some? {
      SameTail(None, r.value.0, more);
    }
  }

  /** A value is split off rightly, and with it the rest, exactly if its width is. */
  lemma ValueRead(cols: seq<(Kind, seq<Byte>)>, nulls: seq<bool>, bytes: seq<Byte>, tail: seq<Byte>,
                  more: seq<Option<seq<Byte>>>, rest: seq<Byte>)
    requires |cols| == |nulls| && cols != [] && !nulls[0]
    ensures ReadRow(cols, nulls, bytes + tail) == Some(([Some(bytes)] + more, rest))
       <==> CellWidth(cols[0].0, cols[0].1, bytes + tail) == Some(|bytes|)
            && ReadRow(cols[1..], nulls[1..], tail) == Some((more, rest))
  {
    hide CellWidth;
    var s := bytes + tail;
    var width := CellWidth(cols[0].0, cols[0].1, s);
    if width.Some? && width.value <= |s| {
      var w := width.value;
      var r := ReadRow(cols[1..], nulls[1..], s[w..]);
      if r.Some? {
        assert ([Some(s[..w])] + r.value.0)[0] == Some(s[..w]) && ([Some(bytes)] + more)[0] == Some(bytes);
        if w == |bytes| {
          Front(bytes, tail);
          SameTail(Some(bytes), r.value.0, more);
        }
      } else if w == |bytes| {
        Front(bytes, tail);
      }
    }
  }

  lemma SameTail<T>(x: T, a: seq<T>, b: seq<T>)
    ensures [x] + a == [x] + b <==> a == b
  {
    assert ([x] + a)[1..] == a && ([x] + b)[1..] == b;
  }

  /** The same with the bits of the null bitmap; what follows the row is left. */
  lemma RowReadsBack(cols: seq<Column>, cells: seq<Cell>, update: bool, bits: seq<bv8>, rest: seq<Byte>)
    requires ValidRow(cols, cells, update) && NullBits(bits, cells)
    ensures ReadRow(Metas(cols), Flags(bits, |cols|), RowBytes(cols, cells, update) + rest)
         == Some((Parts(cols, cells, update), rest))
       <==> LegibleRow(cols, cells)
  {
    hide ReadRow, RowBytes, Parts, Metas, ValidColumn, Fits, LegibleRow;
    FlagsAreNulls(bits, cells);
    RowSplit(cols, cells, update, rest);
  }

  /** A column that emits the same bytes and is always legible. */
  function Narrow(c: Column): Column {
    if Text(c.kind) && ByteLength(c) > 255 then Column(VarStr, 0xFFFF, 0, 0, 1, 0) else c
  }

  lemma NarrowSame(c: Column, d: Datum, isDiff: bool)
    requires ValidColumn(c) && Fits(c, d, isDiff) && Countable(c, d)
    ensures var n := Narrow(c);
            && ValidColumn(n) && Fits(n, d, isDiff) && Legible(n, d) && Emit(n, d, isDiff) == Emit(c, d, isDiff)
  {
    if Text(c.kind) && ByteLength(c) > 255 {
      hide LE;
      assert ByteLength(Narrow(c)) == 0xFFFF;
    }
  }

  function NarrowAll(cols: seq<Column>): (r: seq<Column>)
    ensures |r| == |cols|
  {
    seq(|cols|, i requires 0 <= i < |cols| => Narrow(cols[i]))
  }

  predicate CountableRow(cols: seq<Column>, cells: seq<Cell>)
    requires |cols| == |cells|
  {
    forall i :: 0 <= i < |cols| && cells[i].Value? ==> Countable(cols[i], cells[i].datum)
  }

  lemma NarrowValid(c: Column)
    requires ValidColumn(c)
    ensures ValidColumn(Narrow(c))
  {}

  lemma NarrowRow(cols: seq<Column>, cells: seq<Cell>, update: bool)
    requires ValidRow(cols, cells, update) && CountableRow(cols, cells)
    ensures ValidRow(NarrowAll(cols), cells, update) && LegibleRow(NarrowAll(cols), cells)
    ensures Parts(NarrowAll(cols), cells, update) == Parts(cols, cells, update)
  {
    hide ValidColumn, Fits, Emit, Legible, Countable, Narrow;
    forall i | 0 <= i < |cols|
      ensures ValidColumn(Narrow(cols[i]))
      ensures cells[i].Value? ==>
                var isDiff := AsDiff(cells[i], update);
                && Fits(Narrow(cols[i]), cells[i].datum, isDiff) && Legible(Narrow(cols[i]), cells[i].datum)
                && Emit(Narrow(cols[i]), cells[i].datum, isDiff) == Emit(cols[i], cells[i].datum, isDiff)
    {
      NarrowValid(cols[i]);
      if cells[i].Value? {
        NarrowSame(cols[i], cells[i].datum, AsDiff(cells[i], update));
      }
    }
  }

  /**
   * Two rows of one table with the same bitmap and bytes, and no string too long
   * for its length bytes, agree column by column.
   */
  lemma RowsAreUnique(cols: seq<Column>, a: seq<Cell>, b: seq<Cell>, update: bool, bits: seq<bv8>)
    requires ValidRow(cols, a, update) && ValidRow(cols, b, update) && NullBits(bits, a) && NullBits(bits, b)
    requires CountableRow(cols, a) && CountableRow(cols, b)
    requires RowBytes(cols, a, update) == RowBytes(cols, b, update)
    ensures Parts(cols, a, update) == Parts(cols, b, update)
  {
    hide ReadRow, Parts, Metas, ValidColumn, Fits, NullBits, LegibleRow, CountableRow, NarrowAll, ValidRow;
    NarrowRow(cols, a, update);
    NarrowRow(cols, b, update);
    RowReadsBack(NarrowAll(cols), a, update, bits, []);
    RowReadsBack(NarrowAll(cols), b, update, bits, []);
  }

  /** Longer strings can trade places: two rows of two VARCHAR(65535) columns, different but with the same bytes. */
  lemma LongTextsCollide()
    ensures var c := Column(VarStr, 65535, 0, 0, 2, 0);
            var long, empty := Value(Data(Zeros(0x1_0000)), false), Value(Data([]), false);
            && ValidRow([c, c], [long, empty], false) && ValidRow([c, c], [empty, long], false)
            && RowBytes([c, c], [long, empty], false) == RowBytes([c, c], [empty, long], false)
            && Parts([c, c], [long, empty], false) != Parts([c, c], [empty, long], false)
  {
    hide LE;
    var c := Column(VarStr, 65535, 0, 0, 2, 0);
    var long, empty := Value(Data(Zeros(0x1_0000)), false), Value(Data([]), false);
    ZeroLengths();
    JoinTwo(Zeros(0x1_0002), Zeros(2));
    JoinTwo(Zeros(2), Zeros(0x1_0002));
    ZerosConcat(2, 0x1_0000);
    ZerosConcat(2, 0x1_0002);
    ZerosConcat(0x1_0002, 2);
    assert LE(0, 2) + [] == Zeros(2);
    assert Emit(c, long.datum, false) == Zeros(0x1_0002) && Emit(c, empty.datum, false) == Zeros(2);
    assert Parts([c, c], [long, empty], false) == [Some(Zeros(0x1_0002)), Some(Zeros(2))];
    assert Parts([c, c], [empty, long], false) == [Some(Zeros(2)), Some(Zeros(0x1_0002))];
    assert |Zeros(2)| != |Zeros(0x1_0002)|;
  }

  lemma ZeroLengths()
    ensures LE(0, 2) == Zeros(2) && LE(0x1_0000, 2) == Zeros(2)
  {
    assert LE(0, 2) == [0] + LE(0, 1) && LE(0, 1) == [0] + LE(0, 0);
    assert LE(0x1_0000, 2) == [0] + LE(256, 1) && LE(256, 1) == [0] + LE(1, 0);
    assert Zeros(2) == [0, 0];
  }

  lemma JoinTwo(a: seq<Byte>, b: seq<Byte>)
    ensures Join([Some(a), Some(b)]) == a + b
  {
    assert [Some(a), Some(b)][1..] == [Some(b)] && [Some(b)][1..] == [];
    assert Join([Some(b)]) == b + [];
  }
}
