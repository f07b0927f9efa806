/**
 * What a reader of the MySQL binlog format sees in the bytes of one column, and that it is the value the row was made
 * from.
 */
module RowValues {
  import opened Bytes
  import opened Wrappers
  import opened RowFormat
  import opened RowImage
  import JsonFormat
  import DecimalFormat
  import DecimalEncoder
  import TimeFormat

  /** Integers are seen modulo their width; temporal fractions in units of the stored digits. */
  datatype Seen =
    | Whole(n: int)
    | Raw(bytes: seq<Byte>)
    | DayOf(year: nat, month: nat, day: nat)
    | FixedPoint(decoded: DecimalFormat.Decoded)
    | ClockOf(time: TimeFormat.DecodedTime)
    | CalendarOf(calendar: TimeFormat.DecodedDateTime)
    | StampOf(seconds: nat, fraction: nat)
    | DocOf(doc: JsonFormat.Json)
    | Unreadable

  /** The value in the bytes of a column, from the type and metadata that the table map carries. */
  function Look(kind: Kind, meta: seq<Byte>, b: seq<Byte>): Seen {
    match kind
    case Tiny | Short | Int24 | Long | LongLong | Set => Whole(FromLE(b))
    case Enum => Whole(FromLE(b) - 1)
    case Year => Whole(if FromLE(b) == 0 then 0 else 1900 + FromLE(b))
    case Date => var v := FromLE(b); DayOf(v / 512, v / 32 % 16, v % 32)
    case Float | Double => Raw(b)
    case Bit => Whole(FromBE(b))
    case VarStr => if |meta| != 2 then Unreadable else After(b, StringPrefix(FromLE(meta)))
    case Str => if |meta| != 2 then Unreadable else After(b, StringPrefix(StringLength(meta)))
    case TinyBlob | Blob | MediumBlob | LongBlob => if |meta| != 1 then Unreadable else After(b, At(meta, 0))
    case JsonDoc =>
      if |meta| != 1 || |b| < At(meta, 0) then Unreadable
      else (match JsonFormat.ReadDocument(b[At(meta, 0)..]) case None => Unreadable case Some(doc) => DocOf(doc))
    case Decimal => if |meta| != 2 || At(meta, 1) > At(meta, 0) then Unreadable else LookDecimal(At(meta, 0), At(meta, 1), b)
    case Timestamp | DateTime | Time =>
      if |meta| != 1 || At(meta, 0) > 6 then Unreadable else LookTemporal(kind, At(meta, 0), b)
  }

  function LookDecimal(precision: nat, scale: nat, b: seq<Byte>): Seen
    requires scale <= precision
  {
    var shape := DecimalEncoder.ColumnShape(precision, scale);
    if b == [] || |b| != DecimalFormat.Size(shape) then Unreadable else FixedPoint(DecimalFormat.Decode(b, shape))
  }

  function LookTemporal(kind: Kind, scale: nat, b: seq<Byte>): Seen
    requires scale <= 6
  {
    var k := TimeFormat.FractionBytes(scale);
    match kind
    case Timestamp => if |b| != 4 + k then Unreadable else StampOf(FromBE(b[..4]), FromBE(b[4..]))
    case DateTime => if |b| != 5 + k then Unreadable else CalendarOf(TimeFormat.DecodeDateTime(b, scale))
    case Time => if |b| != 3 + k then Unreadable else ClockOf(TimeFormat.DecodeTime(b, scale))
    case _ => Unreadable
  }

  function After(b: seq<Byte>, prefix: nat): Seen {
    if |b| < prefix then Unreadable else Raw(b[prefix..])
  }

  function Bytes8(k: Kind): nat {
    match k
    case Tiny => 1
    case Short => 2
    case Int24 => 3
    case Long => 4
    case _ => 8
  }

  /** Values the type can hold, and a JSON document or TIME fraction that its encoder does not cut. */
  predicate Readable(c: Column, d: Datum)
    requires ValidColumn(c) && Fits(c, d, false)
  {
    match c.kind
    case Year => d.n == 0 || 1901 <= d.n <= 2155
    case Date => d.day < 32 && d.month < 16 && d.year < 0x8000
    case JsonDoc => JsonFormat.Fits(d.doc, 1) && !JsonFormat.CutShort(d.doc, 1) && JsonFormat.WholeKeys(d.doc)
    case Timestamp => 0 <= d.seconds < 0x1_0000_0000
    case DateTime => TimeFormat.ValidDateTime(d.calendar)
    case Time => TimeFormat.ValidTime(d.time) && !TimeFormat.FractionLost(d.time, c.scale)
    case _ => true
  }

  /** The value itself. */
  function Meaning(c: Column, d: Datum): Seen
    requires ValidColumn(c) && Fits(c, d, false)
  {
    match c.kind
    case Tiny | Short | Int24 | Long | LongLong => Whole(d.n % Pow(256, Bytes8(c.kind)))
    case Set => Whole(d.n % Pow(256, FixedLen(c.labels)))
    case Bit => Whole(d.n % Pow(256, FixedLen(c.precision)))
    case Enum | Year => Whole(d.n)
    case Date => DayOf(d.year, d.month, d.day)
    case Float => Raw(if c.precision > 24 then d.double else d.single)
    case Double => Raw(d.double)
    case Str | VarStr | TinyBlob | Blob | MediumBlob | LongBlob => Raw(d.bytes)
    case JsonDoc => DocOf(d.doc)
    case Decimal =>
      FixedPoint(DecimalFormat.Decoded(DecimalEncoder.Negative(d.text), DecimalEncoder.TextMagnitude(d.text, c.scale)))
    case Timestamp => StampOf(if d.seconds < 0 then 0 else d.seconds, TimeFormat.StoredFraction(d.fraction, c.scale))
    case DateTime =>
      var t := d.calendar;
      CalendarOf(TimeFormat.DecodedDateTime(
        t.year, t.month, t.day, t.hour, t.minute, t.second, TimeFormat.StoredFraction(t.fraction, c.scale)))
    case Time =>
      var t := d.time;
      ClockOf(TimeFormat.DecodedTime(t.neg && TimeFormat.StoredMagnitude(t, c.scale) > 0, t.hour, t.minute, t.second,
                                     TimeFormat.StoredFraction(t.fraction, c.scale)))
  }

  predicate Back(c: Column, d: Datum)
    requires ValidColumn(c) && Fits(c, d, false)
  {
    Look(c.kind, MetaBytes(c), Emit(c, d, false)) == Meaning(c, d)
  }

  lemma PlainBack(c: Column, d: Datum)
    requires ValidColumn(c) && Fits(c, d, false) && Plain(c.kind) && c.kind != Year && c.kind != Date
    ensures Back(c, d)
  {
    hide LE, FromLE, Pow;
    FromLEofLE(d.n, Bytes8(c.kind));
  }

  lemma YearBack(c: Column, d: Datum)
    requires ValidColumn(c) && Fits(c, d, false) && c.kind == Year && Readable(c, d)
    ensures Back(c, d)
  {
    hide LE, FromLE, Pow;
    var v := if d.n == 0 then 0 else d.n - 1900;
    Pow256();
    LoadLE(v, 1);
  }

  lemma DateBack(c: Column, d: Datum)
    requires ValidColumn(c) && Fits(c, d, false) && c.kind == Date && Readable(c, d)
    ensures Back(c, d)
  {
    hide LE, FromLE, Pow, ByteLength;
    DateNumber(d.year, d.month, d.day);
    Pow256();
    LoadLE(d.day + d.month * 32 + d.year * 512, 3);
  }

  lemma DateNumber(year: nat, month: nat, day: nat)
    requires day < 32 && month < 16 && year < 0x8000
    ensures var v := day + month * 32 + year * 512;
            v < 0x100_0000 && v / 512 == year && v / 32 % 16 == month && v % 32 == day
  {
    var v := day + month * 32 + year * 512;
    DivModUnique(v, 512, year, day + month * 32);
    DivModUnique(v, 32, month + year * 16, day);
    DivModUnique(month + year * 16, 16, year, month);
  }

  lemma ShapedBack(c: Column, d: Datum)
    requires ValidColumn(c) && Fits(c, d, false)
    requires c.kind == Float || c.kind == Double || c.kind == Bit || c.kind == Enum || c.kind == Set
    ensures Back(c, d)
  {
    hide LE, FromLE, BE, FromBE, Pow, FixedLen;
    if c.kind == Bit {
      FromBEofBE(d.n, FixedLen(c.precision));
    } else if c.kind == Set {
      FromLEofLE(d.n, FixedLen(c.labels));
    } else if c.kind == Enum {
      Pow256();
      LoadLE(d.n + 1, if c.labels < 256 then 1 else 2);
    }
  }

  lemma BlobBack(c: Column, d: Datum)
    requires ValidColumn(c) && Fits(c, d, false) && Variable(c.kind) && !Text(c.kind) && c.kind != JsonDoc
    ensures Back(c, d)
  {
    hide LE, FromLE, Pow, JsonBytes;
    Front(LE(|d.bytes|, BlobPrefix(c.kind)), d.bytes);
  }

  /** A string is seen as itself exactly if the metadata tells how many length bytes precede it. */
  lemma TextBackIff(c: Column, d: Datum)
    requires ValidColumn(c) && Fits(c, d, false) && Text(c.kind)
    ensures Back(c, d) <==> PrefixTold(c)
  {
    hide LE, FromLE, Pow, ByteLength, StringLength;
    var n := ByteLength(c);
    var p, q := StringPrefix(n), StringPrefix(n % LengthsTold(c.kind));
    Front(LE(|d.bytes|, p), d.bytes);
    if c.kind == Str {
      StringLengthBack(c);
    } else {
      Pow256();
      FromLEofLE(n, 2);
    }
    assert Look(c.kind, MetaBytes(c), Emit(c, d, false)) == Raw(Emit(c, d, false)[q..]);
    if p != q {
      assert |Emit(c, d, false)[q..]| == |d.bytes| + 1;
    }
  }

  lemma JsonBack(c: Column, d: Datum)
    requires ValidColumn(c) && Fits(c, d, false) && c.kind == JsonDoc && Readable(c, d)
    ensures Back(c, d)
  {
    hide LE, Pow, JsonFormat.Document, JsonFormat.ReadDocument, JsonFormat.Fits, JsonFormat.CutShort,
         JsonFormat.WholeKeys;
    var doc := JsonFormat.Document(d.doc);
    Front(LE(|doc|, 4), doc);
    JsonFormat.RoundTrip(d.doc);
  }

  lemma DecimalBack(c: Column, d: Datum)
    requires ValidColumn(c) && Fits(c, d, false) && c.kind == Decimal
    ensures Back(c, d)
  {
    hide DecimalFormat.Encode, DecimalFormat.Decode, DecimalFormat.Size, DecimalFormat.Digits, DecimalEncoder.ValidText,
         DecimalEncoder.ColumnShape, DecimalEncoder.ColumnDigits, DecimalEncoder.TextMagnitude, DecimalEncoder.PartSize;
    DecimalEncoder.TextRoundTrip(d.text, c.precision, c.scale);
  }

  lemma StampBack(c: Column, d: Datum)
    requires ValidColumn(c) && Fits(c, d, false) && c.kind == Timestamp && Readable(c, d)
    ensures Back(c, d)
  {
    hide BE, FromBE, Pow, TimeFormat.StoredFraction;
    var k, f := TimeFormat.FractionBytes(c.scale), TimeFormat.StoredFraction(d.fraction, c.scale);
    Front(BE(d.seconds, 4), BE(f, k));
    TimeFormat.FractionBound(d.fraction, c.scale);
    Pow256();
    LoadBE(d.seconds, 4);
    LoadBE(f, k);
  }

  lemma CalendarBack(c: Column, d: Datum)
    requires ValidColumn(c) && Fits(c, d, false) && (c.kind == DateTime || c.kind == Time) && Readable(c, d)
    ensures Back(c, d)
  {
    hide TimeFormat.StoredFraction, TimeFormat.EncodeTime, TimeFormat.EncodeDateTime, TimeFormat.DecodeTime,
         TimeFormat.DecodeDateTime, TimeFormat.FractionLost, TimeFormat.StoredMagnitude;
    if c.kind == DateTime {
      TimeFormat.DateTimeRoundTrip(d.calendar, c.scale);
    } else {
      TimeFormat.TimeRoundTrip(d.time, c.scale);
    }
  }

  /** Every type: the bytes of a value are seen as that value, a string exactly if its length bytes are told. */
  lemma ValueBack(c: Column, d: Datum)
    requires ValidColumn(c) && Fits(c, d, false) && Readable(c, d)
    ensures Look(c.kind, MetaBytes(c), Emit(c, d, false)) == Meaning(c, d) <==> PrefixTold(c)
  {
    hide Look, Emit, Meaning, Fits, ValidColumn, Readable, MetaBytes;
    match c.kind
    case Year => YearBack(c, d);
    case Date => DateBack(c, d);
    case JsonDoc => JsonBack(c, d);
    case Decimal => DecimalBack(c, d);
    case Timestamp => StampBack(c, d);
    case DateTime | Time => CalendarBack(c, d);
    case Tiny | Short | Int24 | Long | LongLong => PlainBack(c, d);
    case Float | Double | Bit | Enum | Set => ShapedBack(c, d);
    case Str | VarStr => TextBackIff(c, d);
    case TinyBlob | Blob | MediumBlob | LongBlob => BlobBack(c, d);
  }

  /**
   * A full legible row image read with nothing but the table's metadata and the null
   * bitmap: nulls are nulls, every other column shows its value, and the bytes behind the row are left.
   */
  lemma RowMeansItsCells(cols: seq<Column>, cells: seq<Cell>, bits: seq<bv8>, rest: seq<Byte>)
    requires ValidRow(cols, cells, false) && NullBits(bits, cells) && LegibleRow(cols, cells)
    requires forall i :: 0 <= i < |cols| && cells[i].Value? ==> Readable(cols[i], cells[i].datum)
    ensures var r := ReadRow(Metas(cols), Flags(bits, |cols|), RowBytes(cols, cells, false) + rest);
            && r.Some? && r.value.1 == rest && |r.value.0| == |cols|
            && forall i :: 0 <= i < |cols| ==>
                 && (cells[i].Null? <==> r.value.0[i].None?)
                 && (cells[i].Value? ==>
                       Look(Metas(cols)[i].0, Metas(cols)[i].1, r.value.0[i].value) == Meaning(cols[i], cells[i].datum))
  {
    hide Look, Emit, Meaning, Fits, ValidColumn, Readable, ReadRow, RowBytes, NullBits, MetaBytes;
    RowReadsBack(cols, cells, false, bits, rest);
    forall i | 0 <= i < |cols| && cells[i].Value?
      ensures Look(cols[i].kind, MetaBytes(cols[i]), Emit(cols[i], cells[i].datum, false)) == Meaning(cols[i], cells[i].datum)
    {
      assert Legible(cols[i], cells[i].datum);
      ValueBack(cols[i], cells[i].datum);
    }
  }
}
