/**
 * TIME and DATETIME columns: a packed big-endian integer part with an offset
 * that makes it non-negative, then the fraction in one byte per two digits of the column's scale.
 */
module TimeFormat {
  import opened Bytes
  import opened DecimalFormat

  /** Bytes of a fraction of `scale` digits. */
  function FractionBytes(scale: nat): (k: nat)
    requires scale <= 6
    ensures k <= 3 && scale <= 2 * k <= scale + 1
  {
    if scale == 0 then 0 else if scale <= 2 then 1 else if scale <= 4 then 2 else 3
  }

  function NumberLen(n: nat): (len: nat)
    ensures len >= 1
  {
    if n < 10 then 1 else 1 + NumberLen(n / 10)
  }

  /** The digit string cut or padded with zeros to exactly `n` digits. */
  function Resize(f: string, n: nat): (r: string)
    ensures |r| == n
  {
    if n <= |f| then f[..n] else f + ZeroDigits(n - |f|)
  }

  /** Digits moved left or right until the number has `target` of them. */
  function Cutout(number: nat, target: int): nat {
    var len := NumberLen(number);
    if len <= target then number * Pow(10, target - len) else number / Pow(10, len - target)
  }

  /** `cutout_or_pad_zero`. */
  method CutoutOrPadZero(number: nat, target: int) returns (result: nat)
    ensures result == Cutout(number, target)
  {
    var length := NumberLen(number);
    result := number;
    if length <= target {
      while length < target
        invariant NumberLen(number) <= length <= target
        invariant result == number * Pow(10, length - NumberLen(number))
      {
        result := result * 10;
        length := length + 1;
        assert result == number * Pow(10, length - NumberLen(number)) by {
          var p := Pow(10, length - 1 - NumberLen(number));
          assert number * p * 10 == number * (10 * p);
        }
      }
    } else {
      while length > target
        invariant target <= length <= NumberLen(number)
        invariant result == number / Pow(10, NumberLen(number) - length)
      {
        DivDiv(number, NumberLen(number) - length);
        result := result / 10;
        length := length - 1;
      }
    }
  }

  lemma MulSplit(p: nat, d: nat, q: nat, r: nat)
    requires r < d
    ensures p * (d * q + r) == (d * p) * q + p * r
    ensures p * r + p <= d * p
  {
    assert p * (d * q) == (d * p) * q;
    assert p * (d - r - 1) >= 0;
  }

  lemma DivDiv(n: nat, k: nat)
    ensures n / Pow(10, k) / 10 == n / Pow(10, k + 1)
  {
    hide Pow;
    var p := Pow(10, k);
    var q, r := n / p, n % p;
    PowTen(k + 1);
    MulSplit(p, 10, q / 10, q % 10);
    DivModUnique(n, 10 * p, q / 10, p * (q % 10) + r);
  }

  /** Zeros in front of the first significant digit, the way the source counts them: an all-zero string keeps one digit. */
  function PrefixZeros(f: string): int {
    if f == "" then 0 else |f| - NumberLen(Num(f))
  }

  /**
   * Counting prefix zeros and cutting to the remaining length scales every digit
   * string exactly: the result is the string's first `n` digits, zero-padded.
   */
  lemma {:induction false} CutoutExact(f: string, n: nat)
    ensures Cutout(Num(f), n - PrefixZeros(f)) == Num(Resize(f, n))
  {
    hide Num, ZeroDigits, NumberLen;
    if n <= |f| {
      TakeDrop(f, n);
      NumConcat(f[..n], f[n..]);
      NumBound(f[n..]);
      DivModUnique(Num(f), Pow(10, |f| - n), Num(f[..n]), Num(f[n..]));
      EmptyNum();
    } else {
      NumConcat(f, ZeroDigits(n - |f|));
      NumZeros(n - |f|);
      EmptyNum();
    }
  }

  lemma EmptyNum()
    ensures Num("") == 0 && NumberLen(0) == 1
  {}

  /** An extra factor of ten before the cut changes nothing. */
  lemma CutoutTimesTen(n: nat, target: int)
    ensures Cutout(10 * n, target) == Cutout(n, target)
  {
    hide Pow;
    if n > 0 {
      var len := NumberLen(n);
      assert NumberLen(10 * n) == len + 1;
      if len + 1 <= target {
        PowTen(target - len);
        assert 10 * n * Pow(10, target - len - 1) == n * (10 * Pow(10, target - len - 1));
      } else {
        PowTen(len + 1 - target);
        DivTen(n, Pow(10, len - target));
        if len == target { PowZero(); }
      }
    }
  }

  lemma PowTen(k: nat)
    requires k > 0
    ensures Pow(10, k) == 10 * Pow(10, k - 1)
  {}

  lemma PowZero()
    ensures Pow(10, 0) == 1
  {}

  lemma DivTen(n: nat, p: nat)
    requires p > 0
    ensures 10 * n / (10 * p) == n / p
  {
    var q, r := n / p, n % p;
    assert 10 * n == (10 * p) * q + 10 * r;
    DivModUnique(10 * n, 10 * p, q, 10 * r);
  }

  // ---------------------------------------------------------------- TIME

  const TIME_OFFSET := 0x80_0000
  const DATETIME_OFFSET := 0x80_0000_0000

  datatype Time = Time(neg: bool, hour: nat, minute: nat, second: nat, fraction: string)

  predicate ValidTime(t: Time) {
    t.hour <= 838 && t.minute < 60 && t.second < 60
  }

  /** Hours, minutes and seconds in their bit fields. */
  function TimeFields(t: Time): nat {
    t.hour * 4096 + t.minute * 64 + t.second
  }

  /** The fraction as stored: two digits to the byte. */
  function StoredFraction(f: string, scale: nat): nat
    requires scale <= 6
  {
    Num(Resize(f, 2 * FractionBytes(scale)))
  }

  /** The integer part is lowered by one when a negative time has any fraction. */
  function TimeInteger(t: Time): int {
    if !t.neg then TimeFields(t)
    else if Num(t.fraction) == 0 then 0 - TimeFields(t)
    else 0 - TimeFields(t) - 1
  }

  function EncodeTime(t: Time, scale: nat): (b: seq<Byte>)
    requires scale <= 6
    ensures |b| == 3 + FractionBytes(scale)
  {
    var c := StoredFraction(t.fraction, scale);
    BE(TIME_OFFSET + TimeInteger(t), 3) + BE(if t.neg then 0 - c else c, FractionBytes(scale))
  }

  /** `convert_binlog_time`. */
  method ConvertTime(t: Time, scale: nat) returns (bytes: seq<Byte>)
    requires scale <= 6
    ensures bytes == EncodeTime(t, scale)
  {
    hide BE, Num, Cutout, PrefixZeros, Resize;
    var k := FractionBytes(scale);
    var time: int := TimeFields(t);
    var sign: int := 1;
    if t.neg {
      time := if Num(t.fraction) == 0 then 0 - time else 0 - (time + 1);
      sign := -1;
    }
    bytes := BE(TIME_OFFSET + time, 3);
    var frac := CutoutOrPadZero(Num(t.fraction), 2 * k - PrefixZeros(t.fraction));
    CutoutExact(t.fraction, 2 * k);
    bytes := bytes + BE(sign * frac, k);
  }

  datatype DecodedTime = DecodedTime(neg: bool, hour: int, minute: int, second: int, fraction: int)

  /** One signed integer in units of the last stored byte, offset so that it is never negative. */
  function DecodeTime(b: seq<Byte>, scale: nat): DecodedTime
    requires scale <= 6 && |b| == 3 + FractionBytes(scale)
  {
    var unit := Pow(256, FractionBytes(scale));
    UnpackTime(FromBE(b) - TIME_OFFSET * unit, unit)
  }

  function UnpackTime(v: int, unit: nat): DecodedTime
    requires unit > 0
  {
    var m := if v < 0 then 0 - v else v;
    var f := m / unit;
    DecodedTime(v < 0, f / 4096, f / 64 % 64, f % 64, m % unit)
  }

  /** A negative time whose fraction is not zero but vanishes at the column's scale. */
  predicate FractionLost(t: Time, scale: nat)
    requires scale <= 6
  {
    t.neg && Num(t.fraction) != 0 && StoredFraction(t.fraction, scale) == 0
  }

  function StoredMagnitude(t: Time, scale: nat): nat
    requires scale <= 6
  {
    TimeFields(t) * Pow(256, FractionBytes(scale)) + StoredFraction(t.fraction, scale)
  }

  function StoredSigned(t: Time, scale: nat): int
    requires scale <= 6
  {
    if t.neg then 0 - StoredMagnitude(t, scale) else StoredMagnitude(t, scale)
  }

  lemma {:induction false} BEConcat(a: int, m: nat, b: int, k: nat)
    ensures BE(a, m) + BE(b, k) == BE(a * Pow(256, k) + b % Pow(256, k), m + k)
    decreases k
  {
    if k == 0 {
      assert b % 1 == 0;
      assert BE(a, m) + [] == BE(a, m);
    } else {
      var p := Pow(256, k - 1);
      ModSplit(b, p);
      var x := a * p + (b / 256) % p;
      assert a * (256 * p) == 256 * (a * p);
      DivModUnique(a * Pow(256, k) + b % Pow(256, k), 256, x, b % 256);
      BEConcat(a, m, b / 256, k - 1);
      Assoc(BE(a, m), BE(b / 256, k - 1), [b % 256]);
    }
  }

  /** A stored fraction is smaller than its decimal and its binary unit. */
  lemma {:induction false} FractionBound(f: string, scale: nat)
    requires scale <= 6
    ensures var k := FractionBytes(scale);
            StoredFraction(f, scale) < Pow(10, 2 * k) <= Pow(256, k)
  {
    hide Num;
    var k := FractionBytes(scale);
    NumBound(Resize(f, 2 * k));
    Pow256();
    assert Pow(10, 2) == 100 && Pow(10, 4) == 10000 && Pow(10, 6) == 1000000 && Pow(10, 0) == 1 && Pow(256, 0) == 1;
  }

  lemma {:induction false} ZeroFraction(f: string, n: nat)
    requires Num(f) == 0
    ensures Num(Resize(f, n)) == 0
  {
    hide Num, ZeroDigits;
    if n <= |f| {
      TakeDrop(f, n);
      NumConcat(f[..n], f[n..]);
    } else {
      NumConcat(f, ZeroDigits(n - |f|));
      NumZeros(n - |f|);
    }
  }

  /** The code is one big-endian integer: the offset plus the signed time, unless a fraction was lost. */
  lemma {:induction false} TimeIsInteger(t: Time, scale: nat)
    requires ValidTime(t) && scale <= 6
    ensures var unit := Pow(256, FractionBytes(scale));
            var lost := if FractionLost(t, scale) then unit else 0;
            var x := TIME_OFFSET * unit + StoredSigned(t, scale) - lost;
            && 0 <= x < Pow(256, 3 + FractionBytes(scale))
            && EncodeTime(t, scale) == BE(x, 3 + FractionBytes(scale))
  {
    hide Num, BE, Resize;
    var k: nat, c: int := FractionBytes(scale), StoredFraction(t.fraction, scale);
    var unit := Pow(256, k);
    FractionBound(t.fraction, scale);
    BEConcat(TIME_OFFSET + TimeInteger(t), 3, if t.neg then 0 - c else c, k);
    PowAdd(256, 3, k);
    Pow256();
    if Num(t.fraction) == 0 {
      ZeroFraction(t.fraction, 2 * k);
    }
    TimeUnits(TIME_OFFSET, TimeFields(t), c, unit, t.neg);
  }

  lemma Dist(a: int, b: int, c: int)
    ensures (a + b) * c == a * c + b * c && (a - b) * c == a * c - b * c
  {}

  lemma FractionMod(c: nat, unit: nat)
    requires c < unit
    ensures c % unit == c && (0 - c) % unit == if c == 0 then 0 else unit - c
  {
    DivModUnique(c, unit, 0, c);
    if c == 0 {
      DivModUnique(0, unit, 0, 0);
    } else {
      DivModUnique(0 - c, unit, -1, unit - c);
    }
  }

  /** Borrowing one from the integer part and storing the complement of the fraction subtracts the whole. */
  lemma TimeUnits(offset: nat, f: nat, c: nat, unit: nat, neg: bool)
    requires c < unit && f + 1 < offset
    ensures !neg ==> (offset + f) * unit + c % unit == offset * unit + (f * unit + c)
    ensures neg && c == 0 ==> (offset - f) * unit + (0 - c) % unit == offset * unit - (f * unit + c)
    ensures neg ==> (offset - f - 1) * unit + (0 - c) % unit
                    == offset * unit - (f * unit + c) - (if c == 0 then unit else 0)
    ensures 0 <= offset * unit - (f * unit + c) - unit && f * unit + c < offset * unit
  {
    FractionMod(c, unit);
    Dist(offset, f, unit);
    Dist(offset - f, 1, unit);
    Dist(offset - f, 2, unit);
    MulNonNegative(offset - f - 2, unit);
  }

  lemma MulNonNegative(a: nat, b: nat)
    ensures a * b >= 0
  {}

  /** A valid time comes back unless its fraction was lost, and then never. */
  lemma {:induction false} TimeRoundTrip(t: Time, scale: nat)
    requires ValidTime(t) && scale <= 6
    ensures DecodeTime(EncodeTime(t, scale), scale)
            == DecodedTime(t.neg && StoredMagnitude(t, scale) > 0, t.hour, t.minute, t.second,
                           StoredFraction(t.fraction, scale))
            <==> !FractionLost(t, scale)
  {
    hide Num, BE, Resize, EncodeTime, FromBE, Pow, UnpackTime, StoredFraction;
    var k, c := FractionBytes(scale), StoredFraction(t.fraction, scale);
    var unit := Pow(256, k);
    var lost := if FractionLost(t, scale) then 1 else 0;
    var x := TIME_OFFSET * unit + StoredSigned(t, scale) - (if FractionLost(t, scale) then unit else 0);
    TimeIsInteger(t, scale);
    FromBEofBE(x, 3 + k);
    DivModUnique(x, Pow(256, 3 + k), 0, x);
    FractionBound(t.fraction, scale);
    Dist(TimeFields(t), lost, unit);
    UnpackBack(t.neg, t.hour, t.minute, t.second, lost, c, unit);
  }

  /** The fields come back exactly when the integer part is theirs and not one more. */
  lemma UnpackBack(neg: bool, hour: nat, minute: nat, second: nat, lost: nat, c: nat, unit: nat)
    requires minute < 60 && second < 60 && c < unit && lost <= 1
    ensures var f := hour * 4096 + minute * 64 + second;
            var m := (f + lost) * unit + c;
            UnpackTime(if neg then 0 - m else m, unit) == DecodedTime(neg && f * unit + c > 0, hour, minute, second, c)
            <==> lost == 0
  {
    var f := hour * 4096 + minute * 64 + second;
    DivModUnique((f + lost) * unit + c, unit, f + lost, c);
    FieldsBack(hour, minute, second);
    Recompose(f + lost);
  }

  lemma FieldsBack(hour: nat, minute: nat, second: nat)
    requires minute < 60 && second < 60
    ensures var f := hour * 4096 + minute * 64 + second;
            f / 4096 == hour && f / 64 % 64 == minute && f % 64 == second
  {
    var a := hour * 64 + minute;
    DivModUnique(a * 64 + second, 64, a, second);
    DivModUnique(a, 64, hour, minute);
    DivModUnique(hour * 4096 + (minute * 64 + second), 4096, hour, minute * 64 + second);
  }

  lemma Recompose(f: nat)
    ensures f == f / 4096 * 4096 + f / 64 % 64 * 64 + f % 64
  {
    assert f / 64 / 64 == f / 4096;
  }

  /** With no more fraction digits than the column stores, nothing is lost. */
  lemma {:induction false} ColumnFractionKept(t: Time, scale: nat)
    requires scale <= 6 && |t.fraction| <= 2 * FractionBytes(scale)
    ensures !FractionLost(t, scale)
    ensures StoredFraction(t.fraction, scale) == Num(t.fraction) * Pow(10, 2 * FractionBytes(scale) - |t.fraction|)
  {
    hide Num;
    var n := 2 * FractionBytes(scale) - |t.fraction|;
    NumConcat(t.fraction, ZeroDigits(n));
    NumZeros(n);
    if n == 0 {
      assert Resize(t.fraction, |t.fraction|) == t.fraction;
    }
    if Num(t.fraction) > 0 {
      MulAway(Pow(10, n), Num(t.fraction));
    }
  }

  // ---------------------------------------------------------------- TIME order

  /** The time itself, in the smallest decimal unit the column stores. */
  function TimeValue(t: Time, scale: nat): int
    requires scale <= 6
  {
    var m: int := (t.hour * 3600 + t.minute * 60 + t.second) * Pow(10, 2 * FractionBytes(scale))
                  + StoredFraction(t.fraction, scale);
    if t.neg then 0 - m else m
  }

  lemma FieldsOrder(t: Time, u: Time)
    requires ValidTime(t) && ValidTime(u)
    ensures var s, r := t.hour * 3600 + t.minute * 60 + t.second, u.hour * 3600 + u.minute * 60 + u.second;
            && (TimeFields(t) < TimeFields(u) <==> s < r)
            && (TimeFields(t) == TimeFields(u) <==> s == r)
  {
    var a, b := t.hour * 64 + t.minute, u.hour * 64 + u.minute;
    var a', b' := t.hour * 60 + t.minute, u.hour * 60 + u.minute;
    assert (a < b <==> a' < b') && (a == b <==> a' == b');
  }

  lemma {:induction false} MagnitudeOrder(t: Time, u: Time, scale: nat)
    requires ValidTime(t) && ValidTime(u) && scale <= 6
    ensures var a, b := t.(neg := false), u.(neg := false);
            && (StoredMagnitude(t, scale) < StoredMagnitude(u, scale) <==> TimeValue(a, scale) < TimeValue(b, scale))
            && (StoredMagnitude(u, scale) < StoredMagnitude(t, scale) <==> TimeValue(b, scale) < TimeValue(a, scale))
            && (StoredMagnitude(t, scale) == 0 <==> TimeValue(a, scale) == 0)
  {
    hide Num, Resize, Pow;
    var k := FractionBytes(scale);
    var c, d := StoredFraction(t.fraction, scale), StoredFraction(u.fraction, scale);
    var s, r := t.hour * 3600 + t.minute * 60 + t.second, u.hour * 3600 + u.minute * 60 + u.second;
    FractionBound(t.fraction, scale);
    FractionBound(u.fraction, scale);
    FieldsOrder(t, u);
    FieldsOrder(u, t);
    LexArith(TimeFields(t), c, TimeFields(u), d, Pow(256, k));
    LexArith(TimeFields(u), d, TimeFields(t), c, Pow(256, k));
    LexArith(s, c, r, d, Pow(10, 2 * k));
    LexArith(r, d, s, c, Pow(10, 2 * k));
    LexArith(0, 0, TimeFields(t), c, Pow(256, k));
    LexArith(0, 0, s, c, Pow(10, 2 * k));
  }

  /** Byte order is time order, negatives and fractions included, between times that lose no fraction. */
  lemma {:induction false} TimeOrder(t: Time, u: Time, scale: nat)
    requires ValidTime(t) && ValidTime(u) && scale <= 6
    requires !FractionLost(t, scale) && !FractionLost(u, scale)
    ensures Less(EncodeTime(t, scale), EncodeTime(u, scale)) <==> TimeValue(t, scale) < TimeValue(u, scale)
  {
    hide Num, BE, Resize, EncodeTime, FractionLost, Less, StoredMagnitude;
    var n, unit := 3 + FractionBytes(scale), Pow(256, FractionBytes(scale));
    TimeIsInteger(t, scale);
    TimeIsInteger(u, scale);
    LessBE(TIME_OFFSET * unit + StoredSigned(t, scale), TIME_OFFSET * unit + StoredSigned(u, scale), n);
    MagnitudeOrder(t, u, scale);
    MagnitudeOrder(u, t, scale);
    Mirror(t, scale);
    Mirror(u, scale);
  }

  /** Byte order agrees with time order at `t`, on both sides and against every time that loses no fraction. */
  ghost predicate OrderedAt(t: Time, scale: nat)
    requires scale <= 6
  {
    forall u :: ValidTime(u) && !FractionLost(u, scale) ==>
      && (Less(EncodeTime(t, scale), EncodeTime(u, scale)) <==> TimeValue(t, scale) < TimeValue(u, scale))
      && (Less(EncodeTime(u, scale), EncodeTime(t, scale)) <==> TimeValue(u, scale) < TimeValue(t, scale))
  }

  /** Exactly the times that lose no fraction are in order. */
  lemma {:induction false} TimeOrderedIff(t: Time, scale: nat)
    requires ValidTime(t) && scale <= 6
    ensures OrderedAt(t, scale) <==> !FractionLost(t, scale)
  {
    hide EncodeTime, FractionLost, Less, TimeValue;
    if FractionLost(t, scale) {
      LostSortsLower(t, scale);
    } else {
      forall u | ValidTime(u) && !FractionLost(u, scale)
        ensures Less(EncodeTime(t, scale), EncodeTime(u, scale)) <==> TimeValue(t, scale) < TimeValue(u, scale)
        ensures Less(EncodeTime(u, scale), EncodeTime(t, scale)) <==> TimeValue(u, scale) < TimeValue(t, scale)
      {
        TimeOrder(t, u, scale);
        TimeOrder(u, t, scale);
      }
    }
  }

  /** A time with a lost fraction sorts below the same time without a fraction, which has the same value. */
  lemma {:induction false} LostSortsLower(t: Time, scale: nat)
    requires ValidTime(t) && scale <= 6 && FractionLost(t, scale)
    ensures var u := t.(fraction := "");
            && ValidTime(u) && !FractionLost(u, scale) && TimeValue(u, scale) == TimeValue(t, scale)
            && Less(EncodeTime(t, scale), EncodeTime(u, scale))
  {
    hide BE, Resize, EncodeTime, Less, Pow;
    var u := t.(fraction := "");
    var n, unit := 3 + FractionBytes(scale), Pow(256, FractionBytes(scale));
    EmptyNum();
    ZeroFraction("", 2 * FractionBytes(scale));
    TimeIsInteger(t, scale);
    TimeIsInteger(u, scale);
    LessBE(TIME_OFFSET * unit + StoredSigned(t, scale) - unit, TIME_OFFSET * unit + StoredSigned(u, scale), n);
  }

  /** Minus 1.001 seconds in a column of scale two is read as minus two seconds. */
  lemma LostFractionWitness()
    ensures var t := Time(true, 0, 0, 1, "001");
            && ValidTime(t) && FractionLost(t, 2)
            && DecodeTime(EncodeTime(t, 2), 2) == DecodedTime(true, 0, 0, 2, 0)
  {
    hide BE, FromBE, EncodeTime, Num, Resize, Pow;
    var t := Time(true, 0, 0, 1, "001");
    ThousandthDigits();
    TimeIsInteger(t, 2);
    Pow256();
    FromBEofBE(TIME_OFFSET * 256 - 512, 4);
  }

  lemma ThousandthDigits()
    ensures Num("001") == 1 && Resize("001", 2) == "00" && Num("00") == 0
  {
    assert "001"[..2] == "00" && "001"[2] == '1' && "00"[..1] == "0" && "00"[1] == '0' && "0"[..0] == "" && "0"[0] == '0';
    assert Num("0") == 0;
    assert Num("00") == 0;
  }

  lemma Mirror(t: Time, scale: nat)
    requires scale <= 6
    ensures TimeValue(t.(neg := false), scale) >= 0
    ensures TimeValue(t, scale) == if t.neg then 0 - TimeValue(t.(neg := false), scale) else TimeValue(t.(neg := false), scale)
  {}

  // ---------------------------------------------------------------- DATETIME

  datatype DateTime =
    DateTime(year: nat, month: nat, day: nat, hour: nat, minute: nat, second: nat, fraction: string)

  predicate ValidDateTime(t: DateTime) {
    t.year <= 9999 && t.month <= 12 && t.day <= 31 && t.hour < 24 && t.minute < 60 && t.second < 60
  }

  /** Year and month share 17 bits; the other fields have 5, 5, 6 and 6. */
  function DateFields(t: DateTime): nat {
    ((((t.year * 13 + t.month) * 32 + t.day) * 32 + t.hour) * 64 + t.minute) * 64 + t.second
  }

  function EncodeDateTime(t: DateTime, scale: nat): (b: seq<Byte>)
    requires scale <= 6
    ensures |b| == 5 + FractionBytes(scale)
  {
    BE(DATETIME_OFFSET + DateFields(t), 5) + BE(StoredFraction(t.fraction, scale), FractionBytes(scale))
  }

  /** `convert_binlog_datetime`, with its extra factor of ten for an odd scale. */
  method ConvertDateTime(t: DateTime, scale: nat) returns (bytes: seq<Byte>)
    requires scale <= 6
    ensures bytes == EncodeDateTime(t, scale)
  {
    hide BE, Num, Cutout, PrefixZeros, Resize;
    var k := FractionBytes(scale);
    var time := t.year * 13 + t.month;
    time := time * 32 + t.day;
    time := time * 32 + t.hour;
    time := time * 64 + t.minute;
    time := time * 64 + t.second;
    var micros := Num(t.fraction);
    if scale % 2 != 0 {
      CutoutTimesTen(micros, 2 * k - PrefixZeros(t.fraction));
      micros := micros * 10;
    }
    var frac := CutoutOrPadZero(micros, 2 * k - PrefixZeros(t.fraction));
    CutoutExact(t.fraction, 2 * k);
    bytes := BE(time + DATETIME_OFFSET, 5) + BE(frac, k);
  }

  datatype DecodedDateTime =
    DecodedDateTime(year: int, month: int, day: int, hour: int, minute: int, second: int, fraction: int)

  function DecodeDateTime(b: seq<Byte>, scale: nat): DecodedDateTime
    requires scale <= 6 && |b| == 5 + FractionBytes(scale)
  {
    var unit := Pow(256, FractionBytes(scale));
    var f, c := FromBE(b) / unit % DATETIME_OFFSET, FromBE(b) % unit;
    var yearMonth := f / (64 * 64 * 32 * 32);
    DecodedDateTime(yearMonth / 13, yearMonth % 13, f / (64 * 64 * 32) % 32, f / (64 * 64) % 32, f / 64 % 64, f % 64, c)
  }

  /** The fields stay inside their 39 bits because year * 13 + month stays below 2^17. */
  lemma DateFieldsBack(t: DateTime)
    requires ValidDateTime(t)
    ensures var f := DateFields(t);
            && f < DATETIME_OFFSET
            && f % 64 == t.second && f / 64 % 64 == t.minute && f / 4096 % 32 == t.hour && f / 131072 % 32 == t.day
            && f / 4194304 / 13 == t.year && f / 4194304 % 13 == t.month
  {
    var ym := t.year * 13 + t.month;
    assert ym < 131072;
    var d := ym * 32 + t.day;
    var h := d * 32 + t.hour;
    var m := h * 64 + t.minute;
    var f := m * 64 + t.second;
    assert f / 64 == m && m / 64 == h && h / 32 == d && d / 32 == ym;
    assert f / 4096 == h && f / 131072 == d && f / 4194304 == ym;
  }

  lemma {:induction false} DateTimeIsInteger(t: DateTime, scale: nat)
    requires ValidDateTime(t) && scale <= 6
    ensures var k := FractionBytes(scale);
            var x := (DATETIME_OFFSET + DateFields(t)) * Pow(256, k) + StoredFraction(t.fraction, scale);
            x < Pow(256, 5 + k) && EncodeDateTime(t, scale) == BE(x, 5 + k)
  {
    hide Num, BE, Resize, DateFields;
    var k, c := FractionBytes(scale), StoredFraction(t.fraction, scale);
    var unit, f := Pow(256, k), DATETIME_OFFSET + DateFields(t);
    FractionBound(t.fraction, scale);
    BEConcat(f, 5, c, k);
    FractionMod(c, unit);
    DateRange(t, c, k);
  }

  lemma {:induction false} DateRange(t: DateTime, c: nat, k: nat)
    requires ValidDateTime(t) && c < Pow(256, k)
    ensures (DATETIME_OFFSET + DateFields(t)) * Pow(256, k) + c < Pow(256, 5 + k)
  {
    hide DateFields, Pow;
    var unit, f := Pow(256, k), DATETIME_OFFSET + DateFields(t);
    DateFieldsBack(t);
    PowAdd(256, 5, k);
    Pow256();
    MulRange(f, Pow(256, 5), c, unit);
  }

  lemma MulRange(f: nat, n: nat, c: nat, unit: nat)
    requires f < n && c < unit
    ensures f * unit + c < n * unit
  {
    Dist(n, f, unit);
    MulAway(unit, n - f);
  }

  /** Every valid date and time comes back. */
  lemma {:induction false} DateTimeRoundTrip(t: DateTime, scale: nat)
    requires ValidDateTime(t) && scale <= 6
    ensures DecodeDateTime(EncodeDateTime(t, scale), scale)
         == DecodedDateTime(t.year, t.month, t.day, t.hour, t.minute, t.second, StoredFraction(t.fraction, scale))
  {
    hide Num, BE, Resize, EncodeDateTime, FromBE, Pow, DateFields, StoredFraction;
    var c, unit := StoredFraction(t.fraction, scale), Pow(256, FractionBytes(scale));
    DateTimeNumber(t, scale);
    FractionBound(t.fraction, scale);
    DateFieldsBack(t);
    SplitNumber(DateFields(t), c, unit);
  }

  lemma DateTimeNumber(t: DateTime, scale: nat)
    requires ValidDateTime(t) && scale <= 6
    ensures FromBE(EncodeDateTime(t, scale))
         == (DATETIME_OFFSET + DateFields(t)) * Pow(256, FractionBytes(scale)) + StoredFraction(t.fraction, scale)
  {
    hide Num, BE, Resize, EncodeDateTime, FromBE, Pow, DateFields, StoredFraction;
    var k, c := FractionBytes(scale), StoredFraction(t.fraction, scale);
    var x := (DATETIME_OFFSET + DateFields(t)) * Pow(256, k) + c;
    DateTimeIsInteger(t, scale);
    FromBEofBE(x, 5 + k);
    DivModUnique(x, Pow(256, 5 + k), 0, x);
  }

  lemma SplitNumber(fields: nat, c: nat, unit: nat)
    requires c < unit && fields < DATETIME_OFFSET
    ensures var x := (DATETIME_OFFSET + fields) * unit + c;
            x / unit % DATETIME_OFFSET == fields && x % unit == c
  {
    var f := DATETIME_OFFSET + fields;
    DivModUnique(f * unit + c, unit, f, c);
    DivModUnique(f, DATETIME_OFFSET, 1, fields);
  }

  /** Calendar order to the second, most significant field first. */
  predicate EarlierSecond(t: DateTime, u: DateTime) {
    || t.year < u.year
    || (t.year == u.year && t.month < u.month)
    || (t.year == u.year && t.month == u.month && t.day < u.day)
    || (t.year == u.year && t.month == u.month && t.day == u.day && t.hour < u.hour)
    || (t.year == u.year && t.month == u.month && t.day == u.day && t.hour == u.hour && t.minute < u.minute)
    || (t.year == u.year && t.month == u.month && t.day == u.day && t.hour == u.hour && t.minute == u.minute
        && t.second < u.second)
  }

  predicate SameSecond(t: DateTime, u: DateTime) {
    && t.year == u.year && t.month == u.month && t.day == u.day
    && t.hour == u.hour && t.minute == u.minute && t.second == u.second
  }

  predicate Before(t: DateTime, u: DateTime, scale: nat)
    requires scale <= 6
  {
    EarlierSecond(t, u)
    || (SameSecond(t, u) && StoredFraction(t.fraction, scale) < StoredFraction(u.fraction, scale))
  }

  lemma DateFieldsOrder(t: DateTime, u: DateTime)
    requires ValidDateTime(t) && ValidDateTime(u)
    ensures DateFields(t) < DateFields(u) <==> EarlierSecond(t, u)
    ensures DateFields(t) == DateFields(u) <==> SameSecond(t, u)
  {
    var a, b := t.year * 13 + t.month, u.year * 13 + u.month;
    var a1, b1 := a * 32 + t.day, b * 32 + u.day;
    var a2, b2 := a1 * 32 + t.hour, b1 * 32 + u.hour;
    var a3, b3 := a2 * 64 + t.minute, b2 * 64 + u.minute;
    assert a < b <==> t.year < u.year || (t.year == u.year && t.month < u.month);
    assert a1 < b1 <==> a < b || (a == b && t.day < u.day);
    assert a2 < b2 <==> a1 < b1 || (a1 == b1 && t.hour < u.hour);
    assert a3 < b3 <==> a2 < b2 || (a2 == b2 && t.minute < u.minute);
  }

  /** Byte order is calendar order. */
  lemma {:induction false} DateTimeOrder(t: DateTime, u: DateTime, scale: nat)
    requires ValidDateTime(t) && ValidDateTime(u) && scale <= 6
    ensures Less(EncodeDateTime(t, scale), EncodeDateTime(u, scale)) <==> Before(t, u, scale)
  {
    hide Num, BE, Resize, EncodeDateTime, Less, Pow, DateFields, StoredFraction;
    var k := FractionBytes(scale);
    var unit, c, d := Pow(256, k), StoredFraction(t.fraction, scale), StoredFraction(u.fraction, scale);
    var f, g := DATETIME_OFFSET + DateFields(t), DATETIME_OFFSET + DateFields(u);
    DateTimeIsInteger(t, scale);
    DateTimeIsInteger(u, scale);
    LessBE(f * unit + c, g * unit + d, 5 + k);
    FractionBound(t.fraction, scale);
    FractionBound(u.fraction, scale);
    LexArith(f, c, g, d, unit);
    DateFieldsOrder(t, u);
  }
}
