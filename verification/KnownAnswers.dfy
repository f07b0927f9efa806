/**
 * The bytes of small values in every format, written out: they fix the type
 * codes, widths, offsets and byte orders that a writer and its reader share.
 */
module KnownAnswers {
  import opened Bytes
  import JsonFormat
  import DecimalFormat
  import DecimalEncoder
  import TimeFormat
  import RowFormat
  import RowImage
  import Packets
  import PreviousGtids
  import GtidSets
  import RecoveryScan

  // ---------------------------------------------------------------- integers

  lemma Little(v: int)
    ensures LE(v, 1) == [v % 256] && LE(v, 2) == [v % 256, v / 256 % 256]
    ensures LE(v, 3) == [v % 256, v / 256 % 256, v / 256 / 256 % 256]
    ensures LE(v, 4) == [v % 256, v / 256 % 256, v / 256 / 256 % 256, v / 256 / 256 / 256 % 256]
  {
    LittleStep(v, 0);
    LittleStep(v, 1);
    LittleStep(v / 256, 0);
    LittleStep(v, 2);
    LittleStep(v / 256, 1);
    LittleStep(v / 256 / 256, 0);
    LittleStep(v, 3);
    LittleStep(v / 256, 2);
    LittleStep(v / 256 / 256, 1);
    LittleStep(v / 256 / 256 / 256, 0);
  }

  lemma LittleStep(v: int, n: nat)
    ensures LE(v, n + 1) == [v % 256] + LE(v / 256, n) && LE(v, 0) == []
  {}

  lemma LittleEight(v: int)
    ensures LE(v, 8) == LE(v, 4) + LE(v / 256 / 256 / 256 / 256, 4)
  {
    hide LE;
    Little(v);
    LittleStep(v, 7);
    LittleStep(v / 256, 6);
    LittleStep(v / 256 / 256, 5);
    LittleStep(v / 256 / 256 / 256, 4);
  }

  lemma Big(v: int)
    ensures BE(v, 1) == [v % 256] && BE(v, 2) == [v / 256 % 256, v % 256]
    ensures BE(v, 3) == [v / 256 / 256 % 256, v / 256 % 256, v % 256]
    ensures BE(v, 4) == [v / 256 / 256 / 256 % 256, v / 256 / 256 % 256, v / 256 % 256, v % 256]
  {
    BigStep(v, 0);
    BigStep(v, 1);
    BigStep(v / 256, 0);
    BigStep(v, 2);
    BigStep(v / 256, 1);
    BigStep(v / 256 / 256, 0);
    BigStep(v, 3);
    BigStep(v / 256, 2);
    BigStep(v / 256 / 256, 1);
    BigStep(v / 256 / 256 / 256, 0);
  }

  lemma BigStep(v: int, n: nat)
    ensures BE(v, n + 1) == BE(v / 256, n) + [v % 256] && BE(v, 0) == []
  {}

  // ---------------------------------------------------------------- JSON

  /** Type byte and width of every integer, by its range. */
  lemma JsonNumberTypes(n: int)
    requires -9223372036854775808 <= n <= 18446744073709551615
    ensures JsonFormat.Document(JsonFormat.Num(n)) ==
            if -32768 <= n <= 32767 then [5] + LE(n, 2)
            else if -2147483648 <= n <= 2147483647 then [7] + LE(n, 4)
            else if n <= 9223372036854775807 then [9] + LE(n, 8)
            else [10] + LE(n, 8)
  {
    hide LE;
  }

  /** Which integers are held in their entry, and as what. */
  lemma JsonInlined(n: int)
    requires -9223372036854775808 <= n <= 18446744073709551615
    ensures JsonFormat.InlineValue(JsonFormat.Num(n)).Some? <==> -2147483648 <= n <= 2147483647
    ensures -2147483648 <= n <= 2147483647 ==>
              JsonFormat.EntryBytes(JsonFormat.Num(n), 0) == [if -32768 <= n <= 32767 then 5 else 7] + LE(n, 4)
  {
    hide LE;
  }

  lemma JsonScalars(bits: seq<Byte>)
    ensures JsonFormat.Document(JsonFormat.Null) == [4, 0]
    ensures JsonFormat.Document(JsonFormat.Bool(true)) == [4, 1] && JsonFormat.Document(JsonFormat.Bool(false)) == [4, 2]
    ensures JsonFormat.Document(JsonFormat.Num(-1)) == [5, 255, 255]
    ensures JsonFormat.Document(JsonFormat.Double(bits)) == [11] + bits
    ensures JsonFormat.Document(JsonFormat.Str([97, 98])) == [12, 2, 97, 98]
    ensures JsonFormat.Leb(300) == [172, 2]
  {
    Little(-1);
    assert JsonFormat.Leb(2) == [2];
    assert JsonFormat.Leb(300) == [172] + JsonFormat.Leb(2);
  }

  lemma EntriesCons(v: JsonFormat.Json, rest: seq<JsonFormat.Json>, offset: nat)
    ensures var body := JsonFormat.OutOfLine(v, 1);
            var more := JsonFormat.Entries(rest, 1, offset + |body|);
            JsonFormat.Entries([v] + rest, 1, offset)
            == JsonFormat.Encoded(JsonFormat.EntryBytes(v, offset) + more.entries, body + more.values)
    ensures JsonFormat.Entries([], 1, offset) == JsonFormat.Encoded([], [])
  {
    hide JsonFormat.OutOfLine, JsonFormat.EntryBytes;
    assert ([v] + rest)[1..] == rest;
  }

  lemma ArrayDocument(items: seq<JsonFormat.Json>)
    ensures var e := JsonFormat.Entries(items, 1, 8 + 5 * |items|);
            JsonFormat.Document(JsonFormat.Arr(items)) == [3] + JsonFormat.Container(|items|, [], e.entries, [], e.values)
  {
    hide JsonFormat.Entries, JsonFormat.Container, JsonFormat.Body, LE;
    JsonFormat.ArrayBody(items, 1);
  }

  lemma OneAndText()
    ensures JsonFormat.OutOfLine(JsonFormat.Num(1), 1) == [] && JsonFormat.OutOfLine(JsonFormat.Str([97]), 1) == [1, 97]
    ensures JsonFormat.EntryBytes(JsonFormat.Num(1), 18) == [5, 1, 0, 0, 0]
    ensures JsonFormat.EntryBytes(JsonFormat.Str([97]), 18) == [12, 18, 0, 0, 0]
    ensures JsonFormat.EntryBytes(JsonFormat.Null, 20) == [4, 0, 0, 0, 0] && JsonFormat.OutOfLine(JsonFormat.Null, 1) == []
  {
    hide LE;
    Little(0);
    Little(1);
    Little(18);
    assert JsonFormat.Leb(1) == [1];
  }

  lemma ContainerBytes(n: nat, ks: seq<Byte>, es: seq<Byte>, kb: seq<Byte>, vs: seq<Byte>)
    requires n < 256 && 8 + |ks| + |es| + |kb| + |vs| == 20
    ensures JsonFormat.Container(n, ks, es, kb, vs) == [n, 0, 0, 0, 20, 0, 0, 0] + (ks + es + kb + vs)
  {
    hide LE;
    Little(n);
    Little(20);
  }

  lemma OneKey()
    ensures JsonFormat.KeyBytes([[97]]) == [97] && JsonFormat.KeyEntries([[97]], 19) == [19, 0, 0, 0, 1, 0]
  {
    hide LE;
    assert [[97]][1..] == [] && [97][1..] == [];
    assert JsonFormat.CString([]) == [];
    assert JsonFormat.CString([97]) == [97];
    assert JsonFormat.KeyBytes([]) == [];
    assert JsonFormat.KeyEntries([], 20) == [];
    Little(1);
    Little(19);
  }

  lemma OneAndTextEntries()
    ensures JsonFormat.Entries([JsonFormat.Num(1), JsonFormat.Str([97])], 1, 18)
         == JsonFormat.Encoded([5, 1, 0, 0, 0, 12, 18, 0, 0, 0], [1, 97])
  {
    hide JsonFormat.Entries, JsonFormat.OutOfLine, JsonFormat.EntryBytes;
    var one, text := JsonFormat.Num(1), JsonFormat.Str([97]);
    assert [one] + [text] == [one, text] && [text] + [] == [text];
    OneAndText();
    EntriesCons(text, [], 18);
    EntriesCons(text, [], 20);
    EntriesCons(one, [text], 18);
  }

  /** [1, "a"]: count 2, size 20, an inlined integer, and a string at offset 18. */
  lemma JsonArray()
    ensures JsonFormat.Document(JsonFormat.Arr([JsonFormat.Num(1), JsonFormat.Str([97])]))
         == [3] + ([2, 0, 0, 0, 20, 0, 0, 0] + [5, 1, 0, 0, 0, 12, 18, 0, 0, 0] + [1, 97])
  {
    hide JsonFormat.Document, JsonFormat.Entries, JsonFormat.Container;
    var one, text := JsonFormat.Num(1), JsonFormat.Str([97]);
    OneAndTextEntries();
    ArrayDocument([one, text]);
    var es: seq<Byte>, vs: seq<Byte> := [5, 1, 0, 0, 0, 12, 18, 0, 0, 0], [1, 97];
    ContainerBytes(2, [], es, [], vs);
    NoKeys([2, 0, 0, 0, 20, 0, 0, 0], es, vs);
  }

  lemma NoKeys(head: seq<Byte>, es: seq<Byte>, vs: seq<Byte>)
    ensures head + ([] + es + [] + vs) == head + es + vs
  {}

  lemma ObjectDocument(keys: seq<JsonFormat.Text>, vals: seq<JsonFormat.Json>)
    ensures var fixed, kb := 8 + 11 * |keys|, JsonFormat.KeyBytes(keys);
            var e := JsonFormat.Entries(vals, 1, fixed + |kb|);
            JsonFormat.Document(JsonFormat.Obj(keys, vals))
            == [1] + JsonFormat.Container(|keys|, JsonFormat.KeyEntries(keys, fixed), e.entries, kb, e.values)
  {
    hide JsonFormat.Entries, JsonFormat.Container, JsonFormat.KeyEntries, JsonFormat.KeyBytes, JsonFormat.Body;
    JsonFormat.ObjectBody(keys, vals, 1);
  }

  /** {"a": null}: count 1, size 20, the key at offset 19 with one byte, an inlined null, the key. */
  lemma JsonObject()
    ensures JsonFormat.Document(JsonFormat.Obj([[97]], [JsonFormat.Null]))
         == [1] + ([1, 0, 0, 0, 20, 0, 0, 0] + ([19, 0, 0, 0, 1, 0] + [4, 0, 0, 0, 0] + [97] + []))
  {
    hide LE, JsonFormat.Document, JsonFormat.Entries, JsonFormat.OutOfLine, JsonFormat.EntryBytes, JsonFormat.KeyEntries,
         JsonFormat.KeyBytes, JsonFormat.Container;
    OneKey();
    OneAndText();
    assert [JsonFormat.Null] + [] == [JsonFormat.Null];
    EntriesCons(JsonFormat.Null, [], 20);
    ObjectDocument([[97]], [JsonFormat.Null]);
    var es: seq<Byte> := [4, 0, 0, 0, 0];
    assert es + [] == es;
    ContainerBytes(1, [19, 0, 0, 0, 1, 0], es, [97], []);
  }

  // ---------------------------------------------------------------- DECIMAL

  function Ten(n: nat): nat { if n == 0 then 1 else 10 * Ten(n - 1) }

  /** A group of digits takes the fewest bytes that hold its numbers and a sign bit. */
  lemma DigitsToBytesLeast(n: nat)
    requires 1 <= n <= 9
    ensures var w := DecimalFormat.DigitsToBytes(n);
            && 1 <= w && Ten(n) <= 128 * Pow(256, w - 1)
            && (w > 1 ==> Ten(n) > 128 * Pow(256, w - 2))
  {
    Pow256();
    assert Ten(3) == 1000;
    assert Ten(6) == 1000000;
    assert Ten(9) == 1000000000;
    assert Pow(256, 0) == 1;
  }

  lemma TwoDigits()
    ensures DecimalFormat.Num("12") == 12 && DecimalFormat.Num("34") == 34
  {
    assert "12"[..1] == "1" && "1"[..0] == "" && "34"[..1] == "3" && "3"[..0] == "";
    assert DecimalFormat.Num("1") == 1 && DecimalFormat.Num("3") == 3;
  }

  lemma PackTwo()
    ensures DecimalFormat.Digits([2, 2]) == 4 && DecimalFormat.Pack("1234", [2, 2]) == [12, 34]
  {
    hide BE, DecimalFormat.Num;
    assert [2, 2][1..] == [2] && [2][1..] == [];
    assert DecimalFormat.Digits([2]) == 2;
    var t := "1234";
    assert t[..2] == "12" && t[2..] == "34" && "34"[..2] == "34" && "34"[2..] == "";
    TwoDigits();
    Big(12);
    Big(34);
    assert DecimalFormat.Pack("", []) == [];
    assert DecimalFormat.Pack("34", [2]) == [34] + [];
  }

  /** 12.34 and -12.34 in a DECIMAL(4, 2). */
  lemma DecimalBytes()
    ensures DecimalEncoder.ColumnShape(4, 2) == [2, 2]
    ensures DecimalFormat.Digits([2, 2]) == 4
    ensures DecimalFormat.Encode(false, "1234", [2, 2]) == [0x8C, 0x22]
    ensures DecimalFormat.Encode(true, "1234", [2, 2]) == [0x73, 0xDD]
    ensures DecimalEncoder.ValidText("12.34", 4, 2) && DecimalEncoder.ColumnDigits("12.34", 4, 2) == "1234"
  {
    hide DecimalFormat.Pack, DecimalFormat.Digits, DecimalFormat.Size, DecimalEncoder.ValidText, DecimalEncoder.ColumnShape,
         DecimalEncoder.ColumnDigits;
    PackTwo();
    DecimalText();
    assert DecimalFormat.Complement([12, 34]) == [243, 221];
  }

  lemma DecimalText()
    ensures DecimalEncoder.ColumnShape(4, 2) == [2, 2]
    ensures DecimalEncoder.ValidText("12.34", 4, 2) && DecimalEncoder.ColumnDigits("12.34", 4, 2) == "1234"
  {
    var t := "12.34";
    assert t[0..2] == "12" && t[3..] == "34";
  }

  // ---------------------------------------------------------------- TIME and DATETIME

  lemma TimeNumbers()
    ensures TimeFormat.TimeInteger(TimeFormat.Time(false, 1, 2, 3, "")) == 0x1083
    ensures TimeFormat.TimeInteger(TimeFormat.Time(true, 1, 2, 3, "")) == -0x1083
    ensures TimeFormat.TimeInteger(TimeFormat.Time(true, 0, 0, 1, "50")) == -2
  {
    hide DecimalFormat.Num;
    Fifty();
    assert DecimalFormat.Num("") == 0 by { NoDigits(); }
  }

  lemma NoDigits()
    ensures DecimalFormat.Num("") == 0
  {}

  /** 01:02:03, its negative, and minus one and a half seconds with two digits. */
  lemma TimeBytes()
    ensures TimeFormat.EncodeTime(TimeFormat.Time(false, 1, 2, 3, ""), 0) == [0x80, 0x10, 0x83]
    ensures TimeFormat.EncodeTime(TimeFormat.Time(true, 1, 2, 3, ""), 0) == [0x7F, 0xEF, 0x7D]
    ensures TimeFormat.EncodeTime(TimeFormat.Time(true, 0, 0, 1, "50"), 2) == [0x7F, 0xFF, 0xFE, 0xCE]
  {
    hide BE, TimeFormat.TimeInteger, TimeFormat.StoredFraction;
    TimeNumbers();
    Fifty();
    NoFraction();
    Big(0x801083);
    Big(0x7FEF7D);
    Big(0x7FFFFE);
    Big(-50);
    BigStep(0, 0);
  }

  lemma NoFraction()
    ensures TimeFormat.StoredFraction("", 0) == 0
  {
    assert TimeFormat.Resize("", 0) == "";
  }

  lemma Fifty()
    ensures DecimalFormat.Num("50") == 50 && TimeFormat.StoredFraction("50", 2) == 50
  {
    assert "50"[..1] == "5" && "5"[..0] == "";
    assert DecimalFormat.Num("5") == 5;
    assert TimeFormat.Resize("50", 2) == "50";
  }

  lemma DateNumber(fraction: string)
    ensures TimeFormat.DATETIME_OFFSET + TimeFormat.DateFields(TimeFormat.DateTime(2000, 1, 1, 1, 2, 3, fraction))
         == 0x9964421083
  {}

  lemma FiveBytes()
    ensures BE(0x9964421083, 5) == [0x99, 0x64, 0x42, 0x10, 0x83]
  {
    hide BE;
    BigStep(0x9964421083, 4);
    Big(0x99644210);
  }

  /** 2000-01-01 01:02:03 without and with two fraction digits. */
  lemma DateTimeBytes()
    ensures TimeFormat.EncodeDateTime(TimeFormat.DateTime(2000, 1, 1, 1, 2, 3, ""), 0) == [0x99, 0x64, 0x42, 0x10, 0x83]
    ensures TimeFormat.EncodeDateTime(TimeFormat.DateTime(2000, 1, 1, 1, 2, 3, "50"), 2)
         == [0x99, 0x64, 0x42, 0x10, 0x83, 50]
  {
    hide BE, TimeFormat.DateFields, TimeFormat.StoredFraction;
    DateNumber("");
    DateNumber("50");
    FiveBytes();
    Big(50);
    Fifty();
    NoFraction();
    BigStep(0, 0);
  }

  // ---------------------------------------------------------------- columns

  function Col(kind: RowFormat.Kind, length: nat, precision: nat, scale: nat, charset: nat, labels: nat): RowFormat.Column {
    RowFormat.Column(kind, length, precision, scale, charset, labels)
  }

  /** The metadata and the bytes of a value in a column. */
  predicate Shows(c: RowFormat.Column, d: RowFormat.Datum, meta: seq<Byte>, bytes: seq<Byte>) {
    && RowFormat.ValidColumn(c) && RowFormat.Fits(c, d, false)
    && RowFormat.MetaBytes(c) == meta && RowFormat.Emit(c, d, false) == bytes
  }

  lemma ShortColumns()
    ensures Shows(Col(RowFormat.Tiny, 0, 0, 0, 0, 0), RowFormat.Number(-1), [], [255])
    ensures Shows(Col(RowFormat.Short, 0, 0, 0, 0, 0), RowFormat.Number(0x102), [], [2, 1])
    ensures Shows(Col(RowFormat.Int24, 0, 0, 0, 0, 0), RowFormat.Number(0x10203), [], [3, 2, 1])
  {
    hide LE;
    Little(-1);
    Little(0x102);
    Little(0x10203);
  }

  lemma LongColumns()
    ensures Shows(Col(RowFormat.Long, 0, 0, 0, 0, 0), RowFormat.Number(0x1020304), [], [4, 3, 2, 1])
    ensures Shows(Col(RowFormat.LongLong, 0, 0, 0, 0, 0), RowFormat.Number(1), [], [1, 0, 0, 0, 0, 0, 0, 0])
  {
    hide LE;
    Little(0x1020304);
    Little(0);
    Little(1);
    LittleEight(1);
  }

  lemma DayColumns()
    ensures Shows(Col(RowFormat.Year, 0, 0, 0, 0, 0), RowFormat.Number(2000), [], [100])
    ensures Shows(Col(RowFormat.Date, 0, 0, 0, 0, 0), RowFormat.Day(2000, 1, 2), [], [0x22, 0xA0, 0x0F])
  {
    hide LE;
    Little(100);
    Little(0xFA022);
  }

  lemma EnumColumns()
    ensures Shows(Col(RowFormat.Enum, 0, 0, 0, 0, 3), RowFormat.Number(1), [247, 1], [2])
    ensures Shows(Col(RowFormat.Enum, 0, 0, 0, 0, 256), RowFormat.Number(1), [247, 2], [2, 0])
  {
    hide LE;
    Little(2);
  }

  lemma BitColumns()
    ensures Shows(Col(RowFormat.Bit, 0, 9, 0, 0, 0), RowFormat.Number(0x101), [1, 1], [1, 1])
    ensures Shows(Col(RowFormat.Set, 0, 0, 0, 0, 9), RowFormat.Number(0x102), [248, 2], [2, 1])
  {
    hide LE, BE;
    Big(0x101);
    Little(0x102);
  }

  lemma CharColumns()
    ensures Shows(Col(RowFormat.Str, 10, 0, 0, 1, 0), RowFormat.Data([97]), [254, 10], [1, 97])
    ensures Shows(Col(RowFormat.Str, 100, 0, 0, 4, 0), RowFormat.Data([97]), [238, 144], [1, 0, 97])
  {
    hide LE;
    Little(1);
  }

  lemma VarcharColumns()
    ensures Shows(Col(RowFormat.VarStr, 10, 0, 0, 1, 0), RowFormat.Data([97]), [10, 0], [1, 97])
    ensures Shows(Col(RowFormat.VarStr, 100, 0, 0, 4, 0), RowFormat.Data([97]), [144, 1], [1, 0, 97])
  {
    hide LE;
    Little(1);
    Little(10);
    Little(400);
  }

  lemma SmallBlobColumns()
    ensures Shows(Col(RowFormat.TinyBlob, 0, 0, 0, 0, 0), RowFormat.Data([97]), [1], [1, 97])
    ensures Shows(Col(RowFormat.Blob, 0, 0, 0, 0, 0), RowFormat.Data([97]), [2], [1, 0, 97])
  {
    hide LE, Pow;
    Little(1);
    Pow256();
  }

  lemma LargeBlobColumns()
    ensures Shows(Col(RowFormat.MediumBlob, 0, 0, 0, 0, 0), RowFormat.Data([97]), [3], [1, 0, 0, 97])
    ensures Shows(Col(RowFormat.LongBlob, 0, 0, 0, 0, 0), RowFormat.Data([97]), [4], [1, 0, 0, 0, 97])
  {
    hide LE, Pow;
    Little(1);
    Pow256();
  }

  lemma JsonColumn()
    ensures Shows(Col(RowFormat.JsonDoc, 0, 0, 0, 0, 0), RowFormat.Json(JsonFormat.Null, []), [4], [2, 0, 0, 0, 4, 0])
  {
    hide LE, Pow, JsonFormat.Document;
    Little(2);
    Pow256();
    JsonScalars([]);
  }

  lemma FloatColumns(single: seq<Byte>, double: seq<Byte>)
    requires |single| == 4 && |double| == 8
    ensures Shows(Col(RowFormat.Float, 0, 24, 0, 0, 0), RowFormat.Floating(single, double), [4], single)
    ensures Shows(Col(RowFormat.Float, 0, 25, 0, 0, 0), RowFormat.Floating(single, double), [8], double)
    ensures Shows(Col(RowFormat.Double, 0, 0, 0, 0, 0), RowFormat.Floating(single, double), [8], double)
  {
    hide LE, BE;
  }

  lemma TimestampColumns()
    ensures Shows(Col(RowFormat.Timestamp, 0, 0, 0, 0, 0), RowFormat.Moment(1, ""), [0], [0, 0, 0, 1])
    ensures Shows(Col(RowFormat.Timestamp, 0, 0, 2, 0, 0), RowFormat.Moment(1, "50"), [2], [0, 0, 0, 1, 50])
  {
    hide BE, TimeFormat.StoredFraction;
    Big(1);
    Big(50);
    Fifty();
    NoFraction();
    BigStep(0, 0);
  }

  lemma DecimalColumn()
    ensures Shows(Col(RowFormat.Decimal, 0, 4, 2, 0, 0), RowFormat.DecimalText("12.34"), [4, 2], [0x8C, 0x22])
  {
    hide DecimalFormat.Encode, DecimalEncoder.ValidText, DecimalEncoder.ColumnShape, DecimalEncoder.ColumnDigits,
         DecimalFormat.Digits;
    DecimalBytes();
  }

  /** Ten columns, the first and the last null: bits count from the low end, and the six spare bits are set. */
  lemma NullBitmap(v: RowFormat.Datum)
    ensures var n, x := RowImage.Null, RowImage.Value(v, false);
            RowImage.NullBits([0x01, 0xFE], [n, x, x, x, x, x, x, x, x, n])
  {}

  // ---------------------------------------------------------------- packets and ranges

  /** A packet of one byte, and the two packets of a payload of 16777215 bytes. */
  lemma PacketBytes(payload: seq<Byte>)
    requires |payload| == 16777215
    ensures Packets.Split([65], 7) == [1, 0, 0, 7, 65]
    ensures Packets.Split(payload, 255) == [255, 255, 255, 255] + payload + [0, 0, 0, 0]
  {
    hide LE;
    Little(0);
    Little(1);
    Little(16777215);
    assert payload[..16777215] == payload && payload[16777215..] == [];
    assert Packets.Split([], 0) == [0, 0, 0, 0];
  }

  /** The common header, field by field. */
  lemma HeaderBytes()
    ensures PreviousGtids.EncodeHeader(PreviousGtids.Header(1, 2, 3, 4, 5, 6))
         == [1, 0, 0, 0] + [2] + [3, 0, 0, 0] + [4, 0, 0, 0] + [5, 0, 0, 0] + [6, 0]
  {
    hide LE;
    Little(1);
    Little(2);
    Little(3);
    Little(4);
    Little(5);
    Little(6);
  }

  /** The message of one server: uuid, count of ranges, range. */
  lemma MessageBytes(uuid: seq<Byte>)
    ensures PreviousGtids.EncodeMessage(PreviousGtids.Message(uuid, 1, [GtidSets.Range(1, 5)]))
         == uuid + [1, 0, 0, 0, 0, 0, 0, 0] + [1, 0, 0, 0, 0, 0, 0, 0, 6, 0, 0, 0, 0, 0, 0, 0]
  {
    hide LE, PreviousGtids.EncodeRange;
    Little(0);
    Little(1);
    LittleEight(1);
    RangeBytes();
    var r := GtidSets.Range(1, 5);
    assert [r][1..] == [];
    assert PreviousGtids.EncodeRanges([]) == [];
    assert PreviousGtids.EncodeRanges([r]) == PreviousGtids.EncodeRange(r) + [];
  }

  /** The ids one to five are stored as one and six. */
  lemma RangeBytes()
    ensures PreviousGtids.EncodeRange(GtidSets.Range(1, 5)) == [1, 0, 0, 0, 0, 0, 0, 0, 6, 0, 0, 0, 0, 0, 0, 0]
  {
    hide LE;
    Little(0);
    Little(1);
    Little(6);
    LittleEight(1);
    LittleEight(6);
  }

  /** A file is scanned only if it begins with the byte 0xFE and the letters b, i, n. */
  lemma MagicBytes(f: seq<Byte>)
    ensures RecoveryScan.MAGIC <= f <==> |f| >= 4 && f[0] == 0xFE && f[1] == 0x62 && f[2] == 0x69 && f[3] == 0x6E
  {
    if |f| >= 4 {
      assert f[..4] == [f[0], f[1], f[2], f[3]];
    }
  }
}
