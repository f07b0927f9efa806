/**
 * Column values of a row image: the metadata the table map carries for a column, the bytes emitted for a value, and the width a
 * reader derives from the metadata alone.
 */
module RowFormat {
  import opened Bytes
  import opened Wrappers
  import JsonFormat
  import DecimalFormat
  import DecimalEncoder
  import TimeFormat

  datatype Kind =
    | Tiny | Short | Int24 | Long | LongLong | Year | Date
    | Float | Double | Bit | Str | VarStr | Decimal | Enum | Set
    | TinyBlob | Blob | MediumBlob | LongBlob | JsonDoc
    | Timestamp | DateTime | Time

  /** `charset` is the bytes of one character, `labels` the number of members of an ENUM or SET. */
  datatype Column = Column(kind: Kind, length: nat, precision: nat, scale: nat, charset: nat, labels: nat)

  function ByteLength(c: Column): nat { c.length * c.charset }

  /** The limits of each type. */
  predicate ValidColumn(c: Column) {
    match c.kind
    case Bit => 1 <= c.precision <= 64
    case Decimal => 0 < c.precision < 256 && c.scale <= c.precision
    case Enum => c.labels < 0x1_0000
    case Set => c.labels <= 64
    case Timestamp | DateTime | Time => c.scale <= 6
    case _ => true
  }

  /** A value as its converter has parsed it; a JSON text is read as a document or as a diff. */
  datatype Datum =
    | Number(n: int)
    | Floating(single: seq<Byte>, double: seq<Byte>)
    | Data(bytes: seq<Byte>)
    | DecimalText(text: string)
    | Day(year: nat, month: nat, day: nat)
    | Json(doc: JsonFormat.Json, diff: seq<Byte>)
    | Moment(seconds: int, fraction: string)
    | Calendar(calendar: TimeFormat.DateTime)
    | Clock(time: TimeFormat.Time)

  /** The bytes of the length in front of a blob. */
  function BlobPrefix(k: Kind): nat {
    match k
    case TinyBlob => 1
    case Blob => 2
    case MediumBlob => 3
    case _ => 4
  }

  function JsonBytes(d: Datum, isDiff: bool): seq<Byte>
    requires d.Json?
  {
    if isDiff then d.diff else JsonFormat.Document(d.doc)
  }

  predicate Fits(c: Column, d: Datum, isDiff: bool) {
    match c.kind
    case Tiny | Short | Int24 | Long | LongLong | Year | Bit | Set => d.Number?
    case Enum => d.Number? && 0 <= d.n < c.labels
    case Date => d.Day?
    case Float | Double => d.Floating? && |d.single| == 4 && |d.double| == 8
    case Str | VarStr => d.Data? && |d.bytes| <= ByteLength(c)
    case TinyBlob | Blob | MediumBlob | LongBlob => d.Data? && |d.bytes| < Pow(256, BlobPrefix(c.kind))
    case JsonDoc => d.Json? && |JsonBytes(d, isDiff)| < Pow(256, 4)
    case Decimal => d.DecimalText? && DecimalEncoder.ValidText(d.text, c.precision, c.scale)
    case Timestamp => d.Moment?
    case DateTime => d.Calendar?
    case Time => d.Clock?
  }

  function FixedLen(n: nat): nat { (n + 7) / 8 }

  /** Strings have one length byte up to 255 bytes and two beyond. */
  function StringPrefix(length: nat): nat { if length > 255 then 2 else 1 }

  function DecimalBytes(text: string, precision: nat, scale: nat): (b: seq<Byte>)
    requires DecimalEncoder.ValidText(text, precision, scale)
    ensures |b| == DecimalEncoder.PartSize(precision - scale) + DecimalEncoder.PartSize(scale)
  {
    DecimalEncoder.ColumnNumber(text, precision, scale);
    DecimalEncoder.DigitsConcat(DecimalFormat.IntShape(precision - scale), DecimalFormat.FracShape(scale));
    DecimalFormat.Encode(
      DecimalEncoder.Negative(text), DecimalEncoder.ColumnDigits(text, precision, scale),
      DecimalEncoder.ColumnShape(precision, scale))
  }

  /** What the converters append for a value. */
  function Emit(c: Column, d: Datum, isDiff: bool): seq<Byte>
    requires ValidColumn(c) && Fits(c, d, isDiff)
  {
    match c.kind
    case Tiny => LE(d.n, 1)
    case Short => LE(d.n, 2)
    case Int24 => LE(d.n, 3)
    case Long => LE(d.n, 4)
    case LongLong => LE(d.n, 8)
    case Year => LE(if d.n == 0 then 0 else d.n - 1900, 1)
    case Date => LE(d.day + d.month * 32 + d.year * 512, 3)
    case Float => if c.precision > 24 then d.double else d.single
    case Double => d.double
    case Bit => BE(d.n, FixedLen(c.precision))
    case Str | VarStr => LE(|d.bytes|, StringPrefix(ByteLength(c))) + d.bytes
    case Decimal => DecimalBytes(d.text, c.precision, c.scale)
    case Enum => LE(d.n + 1, if c.labels < 256 then 1 else 2)
    case Set => LE(d.n, FixedLen(c.labels))
    case TinyBlob | Blob | MediumBlob | LongBlob => LE(|d.bytes|, BlobPrefix(c.kind)) + d.bytes
    case JsonDoc => LE(|JsonBytes(d, isDiff)|, 4) + JsonBytes(d, isDiff)
    case Timestamp =>
      var k := TimeFormat.FractionBytes(c.scale);
      BE(d.seconds, 4) + BE(TimeFormat.StoredFraction(d.fraction, c.scale), k)
    case DateTime => TimeFormat.EncodeDateTime(d.calendar, c.scale)
    case Time => TimeFormat.EncodeTime(d.time, c.scale)
  }

  // ---------------------------------------------------------------- metadata

  /**
   * The metadata of a column. For STRING, bits eight and nine of the length
   * are folded into the type byte: 254 has both bits of that place set, so the exclusive or takes them away.
   */
  function MetaBytes(c: Column): seq<Byte>
    requires ValidColumn(c)
  {
    match c.kind
    case Bit => [c.precision % 8, c.precision / 8]
    case Float => [if c.precision > 24 then 8 else 4]
    case Double => [8]
    case Str => [254 - 16 * (ByteLength(c) / 256 % 4), ByteLength(c) % 256]
    case VarStr => LE(ByteLength(c), 2)
    case Decimal => [c.precision, c.scale]
    case Enum => [247, if c.labels > 255 then 2 else 1]
    case Set => [248, FixedLen(c.labels)]
    case TinyBlob | Blob | MediumBlob | LongBlob | JsonDoc => [BlobPrefix(c.kind)]
    case Timestamp | DateTime | Time => [c.scale]
    case _ => []
  }

  /** A counted value: its length in `prefix` bytes, then as many bytes. */
  function Counted(prefix: nat, s: seq<Byte>): Option<nat> {
    if |s| < prefix then None else Some(prefix + FromLE(s[..prefix]))
  }

  function At(meta: seq<Byte>, i: nat): nat
    requires i < |meta|
  {
    meta[i]
  }

  /** The reader of the MySQL binlog format: the width of the value at the front of `s`. */
  function CellWidth(kind: Kind, meta: seq<Byte>, s: seq<Byte>): Option<nat> {
    match kind
    case Tiny | Year => Some(1)
    case Short => Some(2)
    case Int24 | Date => Some(3)
    case Long => Some(4)
    case LongLong => Some(8)
    case VarStr => if |meta| != 2 then None else Counted(if FromLE(meta) > 255 then 2 else 1, s)
    case Str => if |meta| != 2 then None else Counted(if StringLength(meta) > 255 then 2 else 1, s)
    case Bit => if |meta| != 2 then None else Some(At(meta, 1) + if At(meta, 0) > 0 then 1 else 0)
    case Decimal => if |meta| != 2 || meta[1] > meta[0] then None else Some(DecimalWidth(At(meta, 0) - At(meta, 1)) + DecimalWidth(At(meta, 1)))
    case Enum | Set => if |meta| != 2 then None else Some(meta[1])
    case Float | Double => if |meta| != 1 then None else Some(meta[0])
    case TinyBlob | Blob | MediumBlob | LongBlob | JsonDoc => if |meta| != 1 then None else Counted(meta[0], s)
    case Timestamp => if |meta| != 1 then None else Some(4 + (At(meta, 0) + 1) / 2)
    case DateTime => if |meta| != 1 then None else Some(5 + (At(meta, 0) + 1) / 2)
    case Time => if |meta| != 1 then None else Some(3 + (At(meta, 0) + 1) / 2)
  }

  /** The two length bits are those missing from the type byte. */
  function StringLength(meta: seq<Byte>): nat
    requires |meta| == 2
  {
    At(meta, 1) + 256 * (3 - At(meta, 0) / 16 % 4)
  }

  function DecimalWidth(digits: nat): nat {
    digits / 9 * 4 + DecimalFormat.DigitsToBytes(digits % 9)
  }

  // ---------------------------------------------------------------- the two widths agree

  lemma CountedBack(prefix: nat, data: seq<Byte>, rest: seq<Byte>)
    requires |data| < Pow(256, prefix)
    ensures Counted(prefix, LE(|data|, prefix) + data + rest) == Some(prefix + |data|)
  {
    hide LE, FromLE, Pow;
    var s := LE(|data|, prefix) + data + rest;
    Assoc(LE(|data|, prefix), data, rest);
    Front(LE(|data|, prefix), data + rest);
    LoadLE(|data|, prefix);
  }

  predicate Text(k: Kind) { k == Str || k == VarStr }

  /** How many lengths the metadata of a string column can tell apart: ten bits of a STRING, sixteen of a VARCHAR. */
  function LengthsTold(k: Kind): nat { if k == Str then 1024 else 0x1_0000 }

  /** The length in the metadata asks for as many length bytes as the length of the column. */
  predicate PrefixTold(c: Column) {
    Text(c.kind) ==> ByteLength(c) <= 255 || ByteLength(c) % LengthsTold(c.kind) > 255
  }

  /** The value is not longer than its length bytes can say. */
  predicate Countable(c: Column, d: Datum) {
    Text(c.kind) && d.Data? ==> |d.bytes| < 0x1_0000
  }

  predicate Legible(c: Column, d: Datum) { PrefixTold(c) && Countable(c, d) }

  lemma StringLengthBack(c: Column)
    requires c.kind == Str
    ensures StringLength(MetaBytes(c)) == ByteLength(c) % 1024
  {
    hide ByteLength;
    var n := ByteLength(c);
    MissingBits(n / 256 % 4);
    TenBits(n);
  }

  lemma MissingBits(h: nat)
    requires h < 4
    ensures 254 - 16 * h >= 0 && (254 - 16 * h) / 16 % 4 == 3 - h
  {
    if h == 0 {
    } else if h == 1 {
    } else if h == 2 {
    } else {
    }
  }

  lemma TenBits(n: nat)
    ensures n % 1024 == n % 256 + 256 * (n / 256 % 4)
  {
    var q, r := n / 256, n % 256;
    var u, h := q / 4, q % 4;
    assert n == 256 * q + r && q == 4 * u + h;
    DivModUnique(n, 1024, u, 256 * h + r);
  }

  /** The number of length bytes a reader expects. */
  lemma PrefixSeen(c: Column, s: seq<Byte>)
    requires Text(c.kind)
    ensures CellWidth(c.kind, MetaBytes(c), s) == Counted(StringPrefix(ByteLength(c) % LengthsTold(c.kind)), s)
  {
    hide LE, FromLE, Pow, StringLength, ByteLength, Counted;
    if c.kind == Str {
      StringLengthBack(c);
    } else {
      Pow256();
      FromLEofLE(ByteLength(c), 2);
    }
  }

  /** Reading `q` of the `p` length bytes in front of some data. */
  lemma CountedIff(p: nat, q: nat, data: seq<Byte>, rest: seq<Byte>)
    requires 1 <= q <= p <= 2 && (p == 1 ==> |data| < 256)
    ensures Counted(q, LE(|data|, p) + data + rest) == Some(p + |data|) <==> q == p && |data| < 0x1_0000
  {
    hide LE, FromLE, Pow;
    var s := LE(|data|, p) + data + rest;
    Assoc(LE(|data|, p), data, rest);
    Front(LE(|data|, p), data + rest);
    Pow256();
    if q == p {
      FromLEofLE(|data|, p);
    } else {
      LowByte(|data|);
      assert s[..1] == LE(|data|, 2)[..1];
    }
  }

  lemma LowByte(v: nat)
    ensures LE(v, 2)[..1] == [v % 256] && FromLE([v % 256]) == v % 256
  {
    assert LE(v, 2) == [v % 256] + LE(v / 256, 1);
    assert [v % 256][1..] == [];
  }

  /** For a string column the two widths agree exactly if the metadata tells the length bytes and the value fits them. */
  lemma TextWidthIff(c: Column, d: Datum, isDiff: bool, rest: seq<Byte>)
    requires ValidColumn(c) && Fits(c, d, isDiff) && Text(c.kind)
    ensures CellWidth(c.kind, MetaBytes(c), Emit(c, d, isDiff) + rest) == Some(|Emit(c, d, isDiff)|) <==> Legible(c, d)
  {
    hide LE, MetaBytes, CellWidth, Counted, ByteLength;
    var n := ByteLength(c);
    var q := StringPrefix(n % LengthsTold(c.kind));
    PrefixSeen(c, Emit(c, d, isDiff) + rest);
    CountedIff(StringPrefix(n), q, d.bytes, rest);
  }

  lemma BitWidth(precision: nat)
    requires 1 <= precision <= 64
    ensures FixedLen(precision) == precision / 8 + if precision % 8 > 0 then 1 else 0
  {}

  predicate Variable(k: Kind) {
    k == Str || k == VarStr || k == TinyBlob || k == Blob || k == MediumBlob || k == LongBlob || k == JsonDoc
  }

  predicate Temporal(k: Kind) { k == Timestamp || k == DateTime || k == Time }

  lemma TemporalWidth(c: Column, d: Datum, isDiff: bool, s: seq<Byte>)
    requires ValidColumn(c) && Fits(c, d, isDiff) && Temporal(c.kind)
    ensures CellWidth(c.kind, MetaBytes(c), s) == Some(|Emit(c, d, isDiff)|)
  {
    hide BE, TimeFormat.StoredFraction, TimeFormat.EncodeTime, TimeFormat.EncodeDateTime;
  }

  lemma DecimalWidthAgrees(c: Column, d: Datum, isDiff: bool, s: seq<Byte>)
    requires ValidColumn(c) && Fits(c, d, isDiff) && c.kind == Decimal
    ensures CellWidth(c.kind, MetaBytes(c), s) == Some(|Emit(c, d, isDiff)|)
  {
    hide DecimalEncoder.ValidText, DecimalEncoder.PartSize, DecimalWidth, DecimalBytes, DecimalFormat.Size,
         DecimalFormat.IntShape, DecimalFormat.FracShape;
    PartWidth(c.scale);
    PartWidth(c.precision - c.scale);
  }

  lemma PartWidth(n: nat)
    ensures DecimalEncoder.PartSize(n) == DecimalWidth(n)
  {
    hide DecimalFormat.Size, DecimalFormat.IntShape, DecimalFormat.FracShape;
  }

  predicate Plain(k: Kind) {
    k == Tiny || k == Short || k == Int24 || k == Long || k == LongLong || k == Year || k == Date
  }

  lemma PlainWidth(c: Column, d: Datum, isDiff: bool, s: seq<Byte>)
    requires ValidColumn(c) && Fits(c, d, isDiff) && Plain(c.kind)
    ensures CellWidth(c.kind, MetaBytes(c), s) == Some(|Emit(c, d, isDiff)|)
  {
    hide LE, MetaBytes, ValidColumn;
  }

  lemma ShapedWidth(c: Column, d: Datum, isDiff: bool, s: seq<Byte>)
    requires ValidColumn(c) && Fits(c, d, isDiff)
    requires c.kind == Float || c.kind == Double || c.kind == Bit || c.kind == Enum || c.kind == Set
    ensures CellWidth(c.kind, MetaBytes(c), s) == Some(|Emit(c, d, isDiff)|)
  {
    hide LE, BE, Counted, DecimalEncoder.ValidText, ByteLength, Pow, FixedLen, TimeFormat.StoredFraction;
    if c.kind == Bit {
      BitWidth(c.precision);
    }
  }

  lemma BlobWidth(c: Column, d: Datum, isDiff: bool, rest: seq<Byte>)
    requires ValidColumn(c) && Fits(c, d, isDiff) && Variable(c.kind) && c.kind != Str && c.kind != VarStr
    ensures CellWidth(c.kind, MetaBytes(c), Emit(c, d, isDiff) + rest) == Some(|Emit(c, d, isDiff)|)
  {
    hide LE, FromLE, Pow, ByteLength, Counted, StringLength, JsonBytes, DecimalBytes, DecimalEncoder.ValidText;
    CountedBack(BlobPrefix(c.kind), if c.kind == JsonDoc then JsonBytes(d, isDiff) else d.bytes, rest);
  }

  /**
   * For every type and value within its limits, the width read off the metadata
   * is that of the bytes emitted, if and only if a string column is legible.
   */
  lemma WidthAgrees(c: Column, d: Datum, isDiff: bool, rest: seq<Byte>)
    requires ValidColumn(c) && Fits(c, d, isDiff)
    ensures CellWidth(c.kind, MetaBytes(c), Emit(c, d, isDiff) + rest) == Some(|Emit(c, d, isDiff)|) <==> Legible(c, d)
  {
    hide Emit, MetaBytes, CellWidth, Fits, ValidColumn;
    var s := Emit(c, d, isDiff) + rest;
    if Temporal(c.kind) {
      TemporalWidth(c, d, isDiff, s);
    } else if c.kind == Decimal {
      DecimalWidthAgrees(c, d, isDiff, s);
    } else if Plain(c.kind) {
      PlainWidth(c, d, isDiff, s);
    } else if Text(c.kind) {
      TextWidthIff(c, d, isDiff, rest);
    } else if Variable(c.kind) {
      BlobWidth(c, d, isDiff, rest);
    } else {
      ShapedWidth(c, d, isDiff, s);
    }
  }

  // ---------------------------------------------------------------- columns a reader gets wrong

  /** VARCHAR(16384) of four bytes a character: the length 65536 is stored as zero, so one length byte is expected. */
  lemma WideVarcharIsMisread(rest: seq<Byte>)
    ensures var c, d := Column(VarStr, 16384, 0, 0, 4, 0), Data([97]);
            && ValidColumn(c) && Fits(c, d, false) && |Emit(c, d, false)| == 3
            && CellWidth(c.kind, MetaBytes(c), Emit(c, d, false) + rest) == Some(2)
  {
    hide CellWidth, MetaBytes, LE;
    var c, d := Column(VarStr, 16384, 0, 0, 4, 0), Data([97]);
    ShortByte(rest);
    PrefixSeen(c, Emit(c, d, false) + rest);
  }

  /** CHAR(256) of four bytes a character: ten bits hold no 1024. */
  lemma WideCharIsMisread(rest: seq<Byte>)
    ensures var c, d := Column(Str, 256, 0, 0, 4, 0), Data([97]);
            && ValidColumn(c) && Fits(c, d, false) && |Emit(c, d, false)| == 3
            && CellWidth(c.kind, MetaBytes(c), Emit(c, d, false) + rest) == Some(2)
  {
    hide CellWidth, MetaBytes, LE;
    var c, d := Column(Str, 256, 0, 0, 4, 0), Data([97]);
    ShortByte(rest);
    PrefixSeen(c, Emit(c, d, false) + rest);
  }

  lemma ShortByte(rest: seq<Byte>)
    ensures Counted(1, LE(1, 2) + [97] + rest) == Some(2)
  {
    hide LE, FromLE;
    LowByte(1);
    var s := LE(1, 2) + [97] + rest;
    assert s[..1] == LE(1, 2)[..1];
  }

  /** A value of 65536 bytes in a VARCHAR(65535) of two bytes a character: its length is stored as zero. */
  lemma LongTextIsCut(data: seq<Byte>, rest: seq<Byte>)
    requires |data| == 0x1_0000
    ensures var c, d := Column(VarStr, 65535, 0, 0, 2, 0), Data(data);
            && ValidColumn(c) && Fits(c, d, false) && |Emit(c, d, false)| == 2 + |data|
            && CellWidth(c.kind, MetaBytes(c), Emit(c, d, false) + rest) == Some(2)
  {
    hide CellWidth, MetaBytes, LE, FromLE, Pow;
    var c, d := Column(VarStr, 65535, 0, 0, 2, 0), Data(data);
    var s := Emit(c, d, false) + rest;
    Assoc(LE(|data|, 2), data, rest);
    Front(LE(|data|, 2), data + rest);
    Pow256();
    FromLEofLE(|data|, 2);
    PrefixSeen(c, s);
  }
}
