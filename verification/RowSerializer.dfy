/**
 * The loops that fill a row image: values appended column by column, null bits and partial-JSON bits set in place.
 */
module RowSerializer {
  import opened Bytes
  import opened Wrappers
  import opened RowFormat
  import opened RowImage

  datatype RowsEvent = Insert | Update | Delete

  // ---------------------------------------------------------------- what the loops keep

  /** Null bits of the columns before `n` are set, and those behind the last column. */
  predicate NullBitsUpTo(bits: seq<bv8>, cells: seq<Cell>, n: nat) {
    && |bits| == FixedLen(|cells|)
    && forall i :: 0 <= i < 8 * |bits| ==> (BitAt(bits, i) <==> i >= |cells| || (i < n && cells[i].Null?))
  }

  lemma {:induction false} JoinAppend(parts: seq<Option<seq<Byte>>>, p: Option<seq<Byte>>)
    ensures Join(parts + [p]) == Join(parts) + if p.Some? then p.value else []
    decreases |parts|
  {
    if parts == [] {
      assert parts + [p] == [p] && [p][1..] == [];
    } else {
      assert (parts + [p])[0] == parts[0] && (parts + [p])[1..] == parts[1..] + [p];
      JoinAppend(parts[1..], p);
      Assoc(if parts[0].Some? then parts[0].value else [], Join(parts[1..]), if p.Some? then p.value else []);
    }
  }

  lemma NextPart(cols: seq<Column>, cells: seq<Cell>, update: bool, i: nat)
    requires ValidRow(cols, cells, update) && i < |cols|
    ensures var all := Parts(cols, cells, update);
            Join(all[..i + 1])
            == Join(all[..i]) + if cells[i].Null? then [] else Emit(cols[i], cells[i].datum, AsDiff(cells[i], update))
  {
    hide Fits, ValidColumn, Emit, Join;
    var all := Parts(cols, cells, update);
    assert all[..i + 1] == all[..i] + [all[i]];
    JoinAppend(all[..i], all[i]);
  }

  lemma AllNullBits(bits: seq<bv8>, cells: seq<Cell>)
    requires NullBitsUpTo(bits, cells, |cells|)
    ensures NullBits(bits, cells)
  {
    hide BitAt;
  }

  method SerializeBefore(cols: seq<Column>, cells: seq<Cell>, bitmap: array<bv8>) returns (row: seq<Byte>, pos: nat)
    requires ValidRow(cols, cells, false) && Cleared(bitmap[..], |cols|)
    modifies bitmap
    ensures row == RowBytes(cols, cells, false) && pos == |row|
    ensures NullBits(bitmap[..], cells)
  {
    hide Fits, ValidColumn, Emit, BitAt, Join, Parts, CellBytes;
    row, pos := [], 0;
    ghost var all := Parts(cols, cells, false);
    StartsEmpty(all);
    var i := 0;
    while i < |cols|
      invariant i <= |cols| && row == Join(all[..i]) && pos == |row|
      invariant NullBitsUpTo(bitmap[..], cells, i)
    {
      NextPart(cols, cells, false, i);
      if cells[i].Null? {
        SetBit(bitmap, i);
      } else {
        var bytes := Emit(cols[i], cells[i].datum, false);
        row := row + bytes;
        pos := pos + |bytes|;
      }
      i := i + 1;
    }
    assert all[..i] == all;
    AllNullBits(bitmap[..], cells);
  }

  lemma StartsEmpty(all: seq<Option<seq<Byte>>>)
    ensures Join(all[..0]) == []
  {}

  // ---------------------------------------------------------------- partial JSON

  /** JSON columns among the first `n`. */
  function JsonCount(cols: seq<Column>, n: nat): nat
    requires n <= |cols|
  {
    if n == 0 then 0 else JsonCount(cols, n - 1) + if cols[n - 1].kind == JsonDoc then 1 else 0
  }

  predicate Carries(cols: seq<Column>, cells: seq<Cell>, update: bool, i: nat)
    requires i < |cols| == |cells|
  {
    cols[i].kind == JsonDoc && AsDiff(cells[i], update)
  }

  /** Some column before `n` carries a diff and is the `j`-th JSON column. */
  ghost predicate DiffAt(cols: seq<Column>, cells: seq<Cell>, update: bool, n: nat, j: nat)
    requires n <= |cols| == |cells|
  {
    exists i :: 0 <= i < n && Carries(cols, cells, update, i) && JsonCount(cols, i) == j
  }

  ghost predicate AnyDiff(cols: seq<Column>, cells: seq<Cell>, update: bool, n: nat)
    requires n <= |cols| == |cells|
  {
    exists i :: 0 <= i < n && Carries(cols, cells, update, i)
  }

  ghost predicate PartialBits(bits: seq<bv8>, cols: seq<Column>, cells: seq<Cell>, update: bool, n: nat)
    requires n <= |cols| == |cells|
  {
    && |bits| == FixedLen(JsonCount(cols, |cols|))
    && forall j :: 0 <= j < 8 * |bits| ==>
         (BitAt(bits, j) <==> j >= JsonCount(cols, |cols|) || DiffAt(cols, cells, update, n, j))
  }

  lemma {:induction false} JsonCountGrows(cols: seq<Column>, m: nat, n: nat)
    requires m <= n <= |cols|
    ensures JsonCount(cols, m) <= JsonCount(cols, n)
    ensures m < n && cols[m].kind == JsonDoc ==> JsonCount(cols, m) < JsonCount(cols, n)
    decreases n
  {
    if m < n {
      JsonCountGrows(cols, m, n - 1);
    }
  }

  /** The bit of a JSON column is set exactly when that column carries a diff. */
  lemma PartialBitOf(bits: seq<bv8>, cols: seq<Column>, cells: seq<Cell>, update: bool, i: nat)
    requires |cols| == |cells| && PartialBits(bits, cols, cells, update, |cols|)
    requires i < |cols| && cols[i].kind == JsonDoc
    ensures JsonCount(cols, i) < 8 * |bits|
    ensures BitAt(bits, JsonCount(cols, i)) <==> Carries(cols, cells, update, i)
  {
    hide BitAt, JsonCount;
    var j := JsonCount(cols, i);
    JsonCountGrows(cols, i, |cols|);
    if DiffAt(cols, cells, update, |cols|, j) {
      var k :| 0 <= k < |cols| && Carries(cols, cells, update, k) && JsonCount(cols, k) == j;
      SameRankSameColumn(cols, i, k);
    }
  }

  lemma SameRankSameColumn(cols: seq<Column>, i: nat, k: nat)
    requires i < |cols| && k < |cols| && cols[i].kind == JsonDoc && cols[k].kind == JsonDoc
    requires JsonCount(cols, i) == JsonCount(cols, k)
    ensures i == k
  {
    hide JsonCount;
    if i < k {
      JsonCountGrows(cols, i, k);
    } else if k < i {
      JsonCountGrows(cols, k, i);
    }
  }

  lemma DiffAtNext(cols: seq<Column>, cells: seq<Cell>, update: bool, n: nat, j: nat)
    requires n < |cols| == |cells|
    ensures DiffAt(cols, cells, update, n + 1, j)
       <==> DiffAt(cols, cells, update, n, j) || (Carries(cols, cells, update, n) && JsonCount(cols, n) == j)
  {
    hide Carries, JsonCount;
  }

  lemma AnyDiffNext(cols: seq<Column>, cells: seq<Cell>, update: bool, n: nat)
    requires n < |cols| == |cells|
    ensures AnyDiff(cols, cells, update, n + 1) <==> AnyDiff(cols, cells, update, n) || Carries(cols, cells, update, n)
  {
    hide Carries;
  }

  lemma NoDiffYet(bits: seq<bv8>, cols: seq<Column>, cells: seq<Cell>, update: bool)
    requires |cols| == |cells| && Cleared(bits, JsonCount(cols, |cols|))
    ensures PartialBits(bits, cols, cells, update, 0)
  {
    hide BitAt, JsonCount;
  }

  /** One column's turn at the partial bitmap: nothing to do, or one bit to set. */
  lemma PartialNext(before: seq<bv8>, after: seq<bv8>, cols: seq<Column>, cells: seq<Cell>, update: bool, n: nat)
    requires n < |cols| == |cells| && PartialBits(before, cols, cells, update, n) && |after| == |before|
    requires if Carries(cols, cells, update, n)
             then forall j :: 0 <= j < 8 * |after| ==> (BitAt(after, j) <==> j == JsonCount(cols, n) || BitAt(before, j))
             else after == before
    ensures PartialBits(after, cols, cells, update, n + 1)
  {
    hide BitAt, JsonCount, Carries, DiffAt;
    forall j | 0 <= j < 8 * |after|
      ensures BitAt(after, j) <==> j >= JsonCount(cols, |cols|) || DiffAt(cols, cells, update, n + 1, j)
    {
      DiffAtNext(cols, cells, update, n, j);
    }
  }

  method SerializeAfter(cols: seq<Column>, cells: seq<Cell>, update: bool, bitmap: array<bv8>, partial: array?<bv8>)
    returns (row: seq<Byte>, pos: nat, hasAnyJsonDiff: bool)
    requires ValidRow(cols, cells, update) && Cleared(bitmap[..], |cols|) && bitmap != partial
    requires partial != null ==> Cleared(partial[..], JsonCount(cols, |cols|))
    modifies bitmap, partial
    ensures row == RowBytes(cols, cells, update) && pos == |row|
    ensures NullBits(bitmap[..], cells)
    ensures partial != null ==> PartialBits(partial[..], cols, cells, update, |cols|)
    ensures hasAnyJsonDiff <==> partial != null && AnyDiff(cols, cells, update, |cols|)
  {
    hide Fits, ValidColumn, Emit, BitAt, Join, Parts, CellBytes, DiffAt, AnyDiff, PartialBits;
    row, pos, hasAnyJsonDiff := [], 0, false;
    ghost var all := Parts(cols, cells, update);
    StartsEmpty(all);
    if partial != null {
      NoDiffYet(partial[..], cols, cells, update);
    }
    NoDiffAtStart(cols, cells, update);
    var jsonColIndex := 0;
    var i := 0;
    while i < |cols|
      invariant i <= |cols| && row == Join(all[..i]) && pos == |row|
      invariant NullBitsUpTo(bitmap[..], cells, i)
      invariant jsonColIndex == JsonCount(cols, i)
      invariant partial != null ==> PartialBits(partial[..], cols, cells, update, i)
      invariant hasAnyJsonDiff <==> partial != null && AnyDiff(cols, cells, update, i)
    {
      NextPart(cols, cells, update, i);
      var isJsonDiff := false;
      if cells[i].Null? {
        SetBit(bitmap, i);
      } else {
        isJsonDiff := if update then cells[i].diff else false;
        var bytes := Emit(cols[i], cells[i].datum, isJsonDiff);
        row := row + bytes;
        pos := pos + |bytes|;
      }
      ghost var before := if partial != null then partial[..] else [];
      if cols[i].kind == JsonDoc {
        if isJsonDiff && partial != null {
          hasAnyJsonDiff := true;
          RankInBitmap(partial[..], cols, cells, update, i);
          SetBit(partial, jsonColIndex);
        }
        jsonColIndex := jsonColIndex + 1;
      }
      if partial != null {
        PartialNext(before, partial[..], cols, cells, update, i);
      }
      AnyDiffNext(cols, cells, update, i);
      i := i + 1;
    }
    assert all[..i] == all;
    AllNullBits(bitmap[..], cells);
  }

  lemma NoDiffAtStart(cols: seq<Column>, cells: seq<Cell>, update: bool)
    requires |cols| == |cells|
    ensures !AnyDiff(cols, cells, update, 0)
  {}

  lemma RankInBitmap(bits: seq<bv8>, cols: seq<Column>, cells: seq<Cell>, update: bool, i: nat)
    requires |cols| == |cells| && i < |cols| && cols[i].kind == JsonDoc && PartialBits(bits, cols, cells, update, i)
    ensures JsonCount(cols, i) / 8 < |bits|
  {
    hide BitAt, JsonCount, DiffAt;
    JsonCountGrows(cols, i, |cols|);
  }

  // ---------------------------------------------------------------- both images

  /**
   * The before image unless it is an insert, the after image unless it is a
   * delete, and the partial bitmap only for an update in which some column carries a diff.
   */
  method ColValBytes(event: RowsEvent, cols: seq<Column>, before: seq<Cell>, after: seq<Cell>,
                     beforeBitmap: array<bv8>, afterBitmap: array<bv8>)
    returns (beforeRow: seq<Byte>, afterRow: seq<Byte>, colBytes: nat, partial: array?<bv8>)
    requires event != Insert ==> ValidRow(cols, before, false) && Cleared(beforeBitmap[..], |cols|)
    requires event != Delete ==> ValidRow(cols, after, event == Update) && Cleared(afterBitmap[..], |cols|)
    requires beforeBitmap != afterBitmap
    modifies beforeBitmap, afterBitmap
    ensures event != Insert ==> beforeRow == RowBytes(cols, before, false) && NullBits(beforeBitmap[..], before)
    ensures event != Delete ==> afterRow == RowBytes(cols, after, event == Update) && NullBits(afterBitmap[..], after)
    ensures event == Insert ==> beforeRow == []
    ensures event == Delete ==> afterRow == []
    ensures colBytes == |beforeRow| + |afterRow|
    ensures partial != null <==> event == Update && AnyDiff(cols, after, true, |cols|)
    ensures partial != null ==> fresh(partial) && PartialBits(partial[..], cols, after, true, |cols|)
  {
    hide RowBytes, BitAt, Fits, ValidColumn, AnyDiff, PartialBits, Cleared, NullBits;
    beforeRow, afterRow, partial := [], [], null;
    var beforePos, afterPos := 0, 0;
    if event != Insert {
      beforeRow, beforePos := SerializeBefore(cols, before, beforeBitmap);
    }
    if event == Update {
      var jsonColCount := CountJson(cols);
      if jsonColCount != 0 {
        partial := new bv8[FixedLen(jsonColCount)];
        FillBitmap(jsonColCount, partial);
      } else {
        NoJsonNoDiff(cols, after);
      }
    }
    var hasAnyJsonDiff := false;
    if event != Delete {
      afterRow, afterPos, hasAnyJsonDiff := SerializeAfter(cols, after, event == Update, afterBitmap, partial);
    }
    if !hasAnyJsonDiff && partial != null {
      partial := null;
    }
    colBytes := beforePos + afterPos;
  }

  lemma {:induction false} NoJsonNoDiff(cols: seq<Column>, cells: seq<Cell>)
    requires |cols| == |cells| && JsonCount(cols, |cols|) == 0
    ensures !AnyDiff(cols, cells, true, |cols|)
  {
    hide JsonCount;
    forall i | 0 <= i < |cols|
      ensures !Carries(cols, cells, true, i)
    {
      JsonCountGrows(cols, i, |cols|);
    }
  }

  method CountJson(cols: seq<Column>) returns (n: nat)
    ensures n == JsonCount(cols, |cols|)
  {
    n := 0;
    for i := 0 to |cols|
      invariant n == JsonCount(cols, i)
    {
      n := if cols[i].kind == JsonDoc then n + 1 else n;
    }
  }
}
