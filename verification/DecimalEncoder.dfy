/**
 * `convert_binlog_decimal` as it runs: decimal text into a byte array, sign
 * bytes in front of a short integer part, then one store per digit group.
 */
module DecimalEncoder {
  import opened Bytes
  import opened DecimalFormat

  predicate AllDigits(t: string) {
    forall i :: 0 <= i < |t| ==> '0' <= t[i] <= '9'
  }

  predicate Negative(t: string) {
    t != "" && t[0] == '-'
  }

  function SignSize(t: string): nat {
    if Negative(t) then 1 else 0
  }

  function IntLen(t: string, scale: nat): int {
    |t| - SignSize(t) - (if scale > 0 then scale + 1 else 0)
  }

  /**
   * Sign, integer digits, and exactly `scale` fraction digits after a point. A
   * column that has no integer digits still shows a single zero.
   */
  predicate ValidText(t: string, precision: nat, scale: nat) {
    && scale <= precision && 0 < precision
    && IntLen(t, scale) >= 1
    && AllDigits(IntPart(t, scale)) && AllDigits(FracPart(t, scale))
    && (scale > 0 ==> t[SignSize(t) + IntLen(t, scale)] == '.')
    && (if precision > scale then IntLen(t, scale) <= precision - scale else IntPart(t, scale) == "0")
  }

  function IntPart(t: string, scale: nat): (s: string)
    requires IntLen(t, scale) >= 1
    ensures |s| == IntLen(t, scale)
  {
    t[SignSize(t)..SignSize(t) + IntLen(t, scale)]
  }

  function FracPart(t: string, scale: nat): (s: string)
    requires IntLen(t, scale) >= 1
    ensures |s| == scale
  {
    t[|t| - scale..]
  }

  function ColumnShape(precision: nat, scale: nat): Shape
    requires scale <= precision
  {
    IntShape(precision - scale) + FracShape(scale)
  }

  /** All `precision` digits of the column, leading zeros restored. */
  function ColumnDigits(t: string, precision: nat, scale: nat): string
    requires ValidText(t, precision, scale)
  {
    IntDigits(t, precision, scale) + FracPart(t, scale)
  }

  function IntDigits(t: string, precision: nat, scale: nat): (s: string)
    requires ValidText(t, precision, scale)
    ensures |s| == precision - scale
  {
    if precision == scale then "" else ZeroDigits(precision - scale - IntLen(t, scale)) + IntPart(t, scale)
  }

  /** The number the text denotes, in units of its last digit. */
  function TextMagnitude(t: string, scale: nat): nat
    requires IntLen(t, scale) >= 1
  {
    Num(IntPart(t, scale) + FracPart(t, scale))
  }

  // ---------------------------------------------------------------- shapes

  lemma {:induction false} DigitsConcat(a: Shape, b: Shape)
    ensures Digits(a + b) == Digits(a) + Digits(b)
    ensures Size(a + b) == Size(a) + Size(b)
    decreases |a|
  {
    if a == [] {
      assert a + b == b;
    } else {
      assert (a + b)[1..] == a[1..] + b;
      DigitsConcat(a[1..], b);
    }
  }

  lemma {:induction false} NinesDigits(n: nat)
    ensures Digits(Nines(n)) == GROUP * n && Size(Nines(n)) == 4 * n
  {
    if n > 0 {
      assert Nines(n)[1..] == Nines(n - 1);
      NinesDigits(n - 1);
    }
  }

  /** Digits and bytes of the integer and the fraction side, as the source computes them. */
  lemma PartDigits(n: nat)
    ensures Digits(IntShape(n)) == n == Digits(FracShape(n))
    ensures Size(IntShape(n)) == n / GROUP * 4 + DigitsToBytes(n % GROUP) == Size(FracShape(n))
    ensures Digits(Partial(n % GROUP)) == n % GROUP && Size(Partial(n % GROUP)) == DigitsToBytes(n % GROUP)
  {
    NinesDigits(n / GROUP);
    DigitsConcat(Partial(n % GROUP), Nines(n / GROUP));
    DigitsConcat(Nines(n / GROUP), Partial(n % GROUP));
    if n % GROUP > 0 {
      assert Partial(n % GROUP)[1..] == [];
    }
  }

  lemma {:induction false} PackCons(t: string, s: Shape)
    requires |t| == Digits(s)
    ensures s == [] ==> t == "" && Pack(t, s) == []
    ensures s != [] ==> s[0] <= |t| && |t| - s[0] == Digits(s[1..])
    ensures s != [] ==> Pack(t, s) == BE(Num(t[..s[0]]), DigitsToBytes(s[0])) + Pack(t[s[0]..], s[1..])
  {
    hide BE, Num, DigitsToBytes;
  }

  lemma {:induction false} PackConcat(a: string, s: Shape, b: string, r: Shape)
    requires |a| == Digits(s) && |b| == Digits(r)
    ensures Digits(s + r) == |a + b|
    ensures Pack(a + b, s + r) == Pack(a, s) + Pack(b, r)
    decreases |s|
  {
    hide Pack, BE, Num, Digits, DigitsToBytes;
    DigitsConcat(s, r);
    PackCons(a, s);
    if s == [] {
      assert a + b == b && s + r == r && [] + Pack(b, r) == Pack(b, r);
    } else {
      PackConcat(a[s[0]..], s[1..], b, r);
      PackConcatStep(a, s, b, r);
    }
  }

  lemma PackConcatStep(a: string, s: Shape, b: string, r: Shape)
    requires |a| == Digits(s) && |b| == Digits(r) && s != [] && s[0] <= |a|
    requires |a[s[0]..]| == Digits(s[1..])
    requires Digits(s[1..] + r) == |a[s[0]..] + b|
    requires Pack(a[s[0]..] + b, s[1..] + r) == Pack(a[s[0]..], s[1..]) + Pack(b, r)
    ensures Digits(s + r) == |a + b| && Pack(a + b, s + r) == Pack(a, s) + Pack(b, r)
  {
    hide Pack, BE, Num, Digits, DigitsToBytes;
    var n, tail, rest := s[0], s[1..] + r, a[s[0]..] + b;
    PackCons(a, s);
    PackFirst(n, tail, a[..n], rest);
    FrontConcat(a, n, b);
    FrontConcat(s, 1, r);
    assert s[..1] == [n];
    Assoc(BE(Num(a[..n]), DigitsToBytes(n)), Pack(a[n..], s[1..]), Pack(b, r));
  }

  lemma PackFirst(n: nat, s: Shape, group: string, t: string)
    requires 0 < n <= GROUP && |group| == n && |t| == Digits(s)
    ensures Digits([n] + s) == n + Digits(s)
    ensures Pack(group + t, [n] + s) == BE(Num(group), DigitsToBytes(n)) + Pack(t, s)
  {
    hide BE, Num, DigitsToBytes;
    assert ([n] + s)[1..] == s;
    assert (group + t)[..n] == group && (group + t)[n..] == t;
  }

  lemma {:induction false} PackOne(t: string)
    requires 0 < |t| <= GROUP
    ensures Digits([|t|]) == |t|
    ensures Pack(t, [|t|]) == BE(Num(t), DigitsToBytes(|t|))
  {
    hide Pack, BE, Num, DigitsToBytes;
    var s: Shape := [|t|];
    assert s[1..] == [];
    assert t[..|t|] == t && t[|t|..] == "";
    PackCons(t, s);
    PackCons("", []);
  }

  lemma {:induction false} BEWiden(v: nat, w: nat)
    requires v < Pow(256, w)
    ensures BE(v, w + 1) == [0] + BE(v, w)
    decreases w
  {
    if w > 0 {
      BEWiden(v / 256, w - 1);
    } else {
      assert BE(v, 1) == BE(0, 0) + [0];
    }
  }

  /** The integer shape gains one digit in its first group, or a new first group. */
  lemma IntShapeStep(n: nat)
    ensures IntShape(n + 1) == [n % GROUP + 1] + Nines(n / GROUP)
  {
    if n % GROUP + 1 == GROUP {
      assert (n + 1) % GROUP == 0 && (n + 1) / GROUP == n / GROUP + 1;
      assert Nines(n / GROUP + 1) == [GROUP] + Nines(n / GROUP);
    } else {
      assert (n + 1) % GROUP == n % GROUP + 1 && (n + 1) / GROUP == n / GROUP;
    }
  }

  /** One more leading zero digit costs at most one zero byte in front. */
  lemma {:induction false} PackLeadingZero(t: string)
    ensures |t| == Digits(IntShape(|t|)) && |t| + 1 == Digits(IntShape(|t| + 1))
    ensures exists k: nat :: Pack("0" + t, IntShape(|t| + 1)) == Zeros(k) + Pack(t, IntShape(|t|))
  {
    hide Pack, Digits, BE, Num, Nines, DigitsToBytes, Zeros;
    var n := |t|;
    var r := n % GROUP;
    PartDigits(n);
    PartDigits(n + 1);
    NinesDigits(n / GROUP);
    var head, tail := t[..r], t[r..];
    PackConcat(head, Partial(r), tail, Nines(n / GROUP));
    TakeDrop(t, r);
    Assoc("0", head, tail);
    IntShapeStep(n);
    PackOne("0" + head);
    PackConcat("0" + head, [r + 1], tail, Nines(n / GROUP));
    var k := LeadingGroup(head);
    Assoc(Zeros(k), Pack(head, Partial(r)), Pack(tail, Nines(n / GROUP)));
  }

  lemma {:induction false} LeadingGroup(head: string) returns (k: nat)
    requires |head| < GROUP
    ensures Digits(Partial(|head|)) == |head|
    ensures BE(Num("0" + head), DigitsToBytes(|head| + 1)) == Zeros(k) + Pack(head, Partial(|head|))
  {
    hide Pack, BE, Num;
    var w, w' := DigitsToBytes(|head|), DigitsToBytes(|head| + 1);
    NumLeadingZero(head);
    NumBound(head);
    if |head| > 0 {
      PackOne(head);
      GroupFits(|head|);
    } else {
      PackCons(head, []);
      NoBytes(Num(head));
    }
    BEWiden(Num(head), w);
    k := w' - w;
    assert Zeros(0) == [] && Zeros(1) == [0];
    assert [] + BE(Num(head), w) == BE(Num(head), w);
  }

  lemma NoBytes(v: int)
    ensures BE(v, 0) == []
  {}

  lemma NumLeadingZero(t: string)
    ensures Num("0" + t) == Num(t)
  {
    NumConcat("0", t);
    assert Num("0") == 0;
  }

  lemma ZeroDigitsStep(k: nat, t: string)
    ensures k == 0 ==> ZeroDigits(k) + t == t
    ensures k > 0 ==> ZeroDigits(k) + t == "0" + (ZeroDigits(k - 1) + t)
  {}

  lemma NoZeros(b: seq<Byte>)
    ensures Zeros(0) + b == b
  {}

  /** Leading zero digits become zero bytes in front of the shorter packing. */
  lemma {:induction false} PackPadded(k: nat, t: string)
    ensures |t| == Digits(IntShape(|t|)) && k + |t| == Digits(IntShape(k + |t|))
    ensures Size(IntShape(k + |t|)) >= Size(IntShape(|t|))
    ensures Pack(ZeroDigits(k) + t, IntShape(k + |t|))
         == Zeros(Size(IntShape(k + |t|)) - Size(IntShape(|t|))) + Pack(t, IntShape(|t|))
    decreases k
  {
    hide Pack, Digits, IntShape, Size, Zeros, ZeroDigits;
    PartDigits(|t|);
    PartDigits(k + |t|);
    ZeroDigitsStep(k, t);
    if k == 0 {
      NoZeros(Pack(t, IntShape(|t|)));
    } else {
      var u := ZeroDigits(k - 1) + t;
      PackPadded(k - 1, t);
      PackLeadingZero(u);
      var m: nat :| Pack("0" + u, IntShape(|u| + 1)) == Zeros(m) + Pack(u, IntShape(|u|));
      var m' := Size(IntShape(|u|)) - Size(IntShape(|t|));
      ZerosConcat(m, m');
      Assoc(Zeros(m), Zeros(m'), Pack(t, IntShape(|t|)));
    }
  }

  // ---------------------------------------------------------------- stores

  /** Exclusive or with the sign mask, 0 or -1. */
  function MaskInt(neg: bool, v: int): int {
    if neg then -1 - v else v
  }

  lemma {:induction false} MaskStore(neg: bool, v: int, w: nat)
    ensures BE(MaskInt(neg, v), w) == Masked(neg, BE(v, w))
    decreases w
  {
    if neg && w > 0 {
      assert (-1 - v) % 256 == 255 - v % 256 && (-1 - v) / 256 == -1 - v / 256;
      MaskStore(neg, v / 256, w - 1);
    }
  }

  lemma MaskedConcat(neg: bool, a: seq<Byte>, b: seq<Byte>)
    ensures Masked(neg, a + b) == Masked(neg, a) + Masked(neg, b)
  {}

  method StoreBE(buf: array<Byte>, offset: nat, v: int, w: nat)
    requires offset + w <= buf.Length
    modifies buf
    ensures buf[..offset + w] == old(buf[..offset]) + BE(v, w)
  {
    var rest := v;
    var i := w;
    ghost var done: seq<Byte> := [];
    while i > 0
      invariant 0 <= i <= w && |done| == w - i
      invariant buf[..offset] == old(buf[..offset])
      invariant buf[offset + i..offset + w] == done
      invariant BE(rest, i) + done == BE(v, w)
    {
      i := i - 1;
      done := [rest % 256] + done;
      buf[offset + i] := rest % 256;
      assert buf[offset + i..offset + w] == [buf[offset + i]] + buf[offset + i + 1..offset + w];
      rest := rest / 256;
    }
    assert buf[..offset + w] == buf[..offset] + buf[offset..offset + w];
  }

  /** One digit group: `atoi`, sign mask, big-endian store. */
  method StoreGroup(buf: array<Byte>, offset: nat, neg: bool, group: string,
                    ghost front: seq<Byte>, ghost t: string, ghost s: Shape)
    returns (next: nat)
    requires 0 < |group| <= GROUP && offset + DigitsToBytes(|group|) <= buf.Length
    requires |t| == Digits(s) && buf[..offset] == Masked(neg, front + Pack(t, s))
    modifies buf
    ensures next == offset + DigitsToBytes(|group|)
    ensures Digits(s + [|group|]) == |t + group|
    ensures buf[..next] == Masked(neg, front + Pack(t + group, s + [|group|]))
  {
    hide Pack, BE, Num, DigitsToBytes, Masked, Digits;
    var w := DigitsToBytes(|group|);
    var value := MaskInt(neg, Num(group));
    StoreBE(buf, offset, value, w);
    next := offset + w;
    ghost var g := BE(Num(group), w);
    PackOne(group);
    PackConcat(t, s, group, [|group|]);
    MaskStore(neg, Num(group), w);
    MaskedConcat(neg, front + Pack(t, s), g);
    Assoc(front, Pack(t, s), g);
  }

  /** `count` full groups of nine digits, read from position `from`. */
  method StoreNines(buf: array<Byte>, offset: nat, neg: bool, data: string, from: nat, count: nat,
                    ghost front: seq<Byte>, ghost t: string, ghost s: Shape)
    returns (next: nat)
    requires from + GROUP * count <= |data| && offset + 4 * count <= buf.Length
    requires |t| == Digits(s) && buf[..offset] == Masked(neg, front + Pack(t, s))
    modifies buf
    ensures next == offset + 4 * count
    ensures Digits(s + Nines(count)) == |t| + GROUP * count
    ensures buf[..next] == Masked(neg, front + Pack(t + data[from..from + GROUP * count], s + Nines(count)))
  {
    hide Pack, Masked, Digits, Nines;
    next := offset;
    NoNines(t, data, from, s);
    for i := 0 to count
      invariant next == offset + 4 * i
      invariant Digits(s + Nines(i)) == |t| + GROUP * i
      invariant buf[..next] == Masked(neg, front + Pack(t + data[from..from + GROUP * i], s + Nines(i)))
    {
      var group := data[from + GROUP * i..from + GROUP * i + GROUP];
      MoreNines(t, data, from, s, i);
      next := StoreGroup(buf, next, neg, group, front, t + data[from..from + GROUP * i], s + Nines(i));
    }
  }

  lemma {:induction false} NoNines(t: string, data: string, from: nat, s: Shape)
    requires from <= |data|
    ensures s + Nines(0) == s && t + data[from..from] == t
  {}

  lemma {:induction false} MoreNines(t: string, data: string, from: nat, s: Shape, i: nat)
    requires from + GROUP * (i + 1) <= |data|
    ensures var a, b := from + GROUP * i, from + GROUP * i + GROUP;
            && t + data[from..a] + data[a..b] == t + data[from..b]
            && s + Nines(i) + [GROUP] == s + Nines(i + 1)
  {
    assert Nines(i) + [GROUP] == Nines(i + 1);
    assert data[from..from + GROUP * i] + data[from + GROUP * i..from + GROUP * (i + 1)]
        == data[from..from + GROUP * (i + 1)];
  }

  method IndexOf(t: string, c: char) returns (index: int)
    ensures index == -1 ==> c !in t
    ensures index != -1 ==> 0 <= index < |t| && t[index] == c && c !in t[..index]
  {
    for i := 0 to |t|
      invariant c !in t[..i]
    {
      if t[i] == c {
        return i;
      }
    }
    return -1;
  }

  /** The point is where the digits put it. */
  lemma PointAt(t: string, precision: nat, scale: nat, index: int)
    requires ValidText(t, precision, scale)
    requires index == -1 ==> '.' !in t
    requires index != -1 ==> 0 <= index < |t| && t[index] == '.' && '.' !in t[..index]
    ensures index == if scale > 0 then SignSize(t) + IntLen(t, scale) else -1
  {
    var point := SignSize(t) + IntLen(t, scale);
    forall i | 0 <= i < |t| && i != point
      ensures t[i] != '.'
    {
      if SignSize(t) <= i < point {
        assert t[i] == IntPart(t, scale)[i - SignSize(t)];
      } else if i > point {
        assert t[i] == FracPart(t, scale)[i - (|t| - scale)];
      }
    }
  }

  /** The short leading group and the full groups of an integer part of `n` digits. */
  method StoreDigits(bytes: array<Byte>, offset: nat, neg: bool, data: string, from: nat, n: nat, ghost front: seq<Byte>)
    returns (next: nat)
    requires from + n <= |data| && offset + Size(IntShape(n)) <= bytes.Length
    requires Digits(IntShape(n)) == n && bytes[..offset] == Masked(neg, front)
    modifies bytes
    ensures next == offset + Size(IntShape(n))
    ensures bytes[..next] == Masked(neg, front + Pack(data[from..from + n], IntShape(n)))
  {
    hide Pack, Digits, Size, Nines, Num, DigitsToBytes, Masked, BE, IntShape, Partial;
    var n0, n0x := n / GROUP, n % GROUP;
    PartDigits(n);
    PackNothing(front);
    next := offset;
    var lead := data[from..from + n0x];
    if n0x > 0 {
      next := StoreGroup(bytes, next, neg, lead, front, "", []);
    }
    LeadShape(lead);
    next := StoreNines(bytes, next, neg, data, from + n0x, n0, front, lead, Partial(n0x));
    IntegerParts(data, from, n);
  }

  /** Sign bytes in front, then the integer digits; nothing at all when the column has no integer digits. */
  method StoreInteger(bytes: array<Byte>, data: string, precision: nat, scale: nat, intg: nat) returns (offset: nat)
    requires ValidText(data, precision, scale) && intg == IntLen(data, scale)
    requires Digits(IntShape(precision - scale)) == precision - scale
    requires bytes.Length >= Size(IntShape(precision - scale))
    modifies bytes
    ensures offset == Size(IntShape(precision - scale))
    ensures bytes[..offset] ==
            Masked(Negative(data), Pack(IntDigits(data, precision, scale), IntShape(precision - scale)))
  {
    hide Pack, Digits, Size, Num, DigitsToBytes, Masked, BE, IntShape, Zeros;
    var intgMax := precision - scale;
    if intgMax == 0 {
      EmptyInteger(data, precision, scale);
      return 0;
    }
    var isize, isizeMax := PartSize(intg), PartSize(intgMax);
    PackPadded(intgMax - intg, IntPart(data, scale));
    offset := FillSign(bytes, Negative(data), isizeMax - isize);
    offset := StoreDigits(bytes, offset, Negative(data), data, SignSize(data), intg, Zeros(isizeMax - isize));
  }

  /** Bytes taken by `n` digits on either side of the point. */
  function PartSize(n: nat): (size: nat)
    ensures size == Size(IntShape(n)) == Size(FracShape(n))
  {
    PartDigits(n);
    n / GROUP * 4 + DigitsToBytes(n % GROUP)
  }

  lemma EmptyInteger(t: string, precision: nat, scale: nat)
    requires ValidText(t, precision, scale) && precision == scale
    ensures Size(IntShape(0)) == 0 == Digits(IntShape(0))
    ensures Masked(Negative(t), Pack(IntDigits(t, precision, scale), IntShape(0))) == []
  {
    assert IntShape(0) == [];
  }

  lemma PackNothing(front: seq<Byte>)
    ensures Digits([]) == 0 && front + Pack("", []) == front
  {}

  lemma LeadShape(lead: string)
    requires |lead| < GROUP
    ensures Digits(Partial(|lead|)) == |lead|
    ensures |lead| > 0 ==> [] + [|lead|] == Partial(|lead|) && "" + lead == lead
    ensures |lead| == 0 ==> Partial(|lead|) == [] && lead == ""
  {
    if |lead| > 0 {
      assert Partial(|lead|)[1..] == [];
    }
  }

  lemma IntegerParts(t: string, a: nat, n: nat)
    requires a + n <= |t|
    ensures t[a..a + n % GROUP] + t[a + n % GROUP..a + n % GROUP + GROUP * (n / GROUP)] == t[a..a + n]
    ensures Partial(n % GROUP) + Nines(n / GROUP) == IntShape(n)
  {}

  method FillSign(bytes: array<Byte>, neg: bool, count: nat) returns (offset: nat)
    requires count <= bytes.Length
    modifies bytes
    ensures offset == count && bytes[..offset] == Masked(neg, Zeros(count))
  {
    offset := 0;
    while offset < count
      invariant 0 <= offset <= count
      invariant forall i :: 0 <= i < offset ==> bytes[i] == if neg then 255 else 0
    {
      bytes[offset] := if neg then 255 else 0;
      offset := offset + 1;
    }
  }

  /** Full groups of the fraction, then its short last group, which ends exactly at the end of the buffer. */
  method StoreFraction(bytes: array<Byte>, start: nat, data: string, precision: nat, scale: nat, ghost front: seq<Byte>)
    requires ValidText(data, precision, scale)
    requires Digits(FracShape(scale)) == scale
    requires bytes.Length == start + Size(FracShape(scale))
    requires bytes[..start] == Masked(Negative(data), front)
    modifies bytes
    ensures bytes[..] == Masked(Negative(data), front + Pack(FracPart(data, scale), FracShape(scale)))
  {
    hide Pack, Masked, FracShape, Digits, Size, AllDigits;
    StoreFractionDigits(bytes, start, Negative(data), data[|data| - scale..], front);
  }

  method StoreFractionDigits(bytes: array<Byte>, start: nat, neg: bool, frac: string, ghost front: seq<Byte>)
    requires Digits(FracShape(|frac|)) == |frac|
    requires bytes.Length == start + Size(FracShape(|frac|))
    requires bytes[..start] == Masked(neg, front)
    modifies bytes
    ensures bytes[..] == Masked(neg, front + Pack(frac, FracShape(|frac|)))
  {
    hide Pack, Digits, Size, Nines, Num, DigitsToBytes, Masked, BE, Partial, FracShape;
    var frac0 := |frac| / GROUP;
    PartDigits(|frac|);
    PackNothing(front);
    FractionParts(frac);
    var offset := StoreNines(bytes, start, neg, frac, 0, frac0, front, "", []);
    if |frac| % GROUP > 0 {
      offset := StoreGroup(bytes, offset, neg, frac[GROUP * frac0..], front, frac[0..GROUP * frac0], Nines(frac0));
    }
    assert bytes[..offset] == bytes[..];
  }

  lemma FractionParts(t: string)
    ensures var n := |t| / GROUP;
            && "" + t[0..GROUP * n] == t[0..GROUP * n] && [] + Nines(n) == Nines(n)
            && t[0..GROUP * n] + t[GROUP * n..] == t
            && (|t| % GROUP > 0 ==> Nines(n) + [|t| % GROUP] == FracShape(|t|))
            && (|t| % GROUP == 0 ==> t[0..GROUP * n] == t && Nines(n) == FracShape(|t|))
  {}

  /** `convert_binlog_decimal` on every text that carries exactly the column's fraction digits. */
  method Convert(data: string, precision: nat, scale: nat) returns (bytes: array<Byte>)
    requires ValidText(data, precision, scale)
    ensures Digits(ColumnShape(precision, scale)) == |ColumnDigits(data, precision, scale)|
    ensures bytes[..] == Encode(Negative(data), ColumnDigits(data, precision, scale), ColumnShape(precision, scale))
    ensures fresh(bytes)
  {
    hide Pack, Digits, Size, Masked, IntShape, FracShape, IntPart, FracPart, AllDigits;
    var index := IndexOf(data, '.');
    PointAt(data, precision, scale, index);
    var intg := if index > 0 then index - SignSize(data) else |data| - SignSize(data);
    bytes := ConvertDigits(data, precision, scale, intg);
    ghost var packed := bytes[..];
    ShapeNotEmpty(precision, scale);
    bytes[0] := (bytes[0] as int + 128) % 256;
    assert bytes[..] == FlipTop(packed);
  }

  method ConvertDigits(data: string, precision: nat, scale: nat, intg: nat) returns (bytes: array<Byte>)
    requires ValidText(data, precision, scale) && intg == IntLen(data, scale)
    ensures Digits(ColumnShape(precision, scale)) == |ColumnDigits(data, precision, scale)|
    ensures bytes.Length == Size(ColumnShape(precision, scale))
    ensures bytes[..] ==
            Masked(Negative(data), Pack(ColumnDigits(data, precision, scale), ColumnShape(precision, scale)))
    ensures fresh(bytes)
  {
    hide Pack, Digits, Size, Masked, IntShape, FracShape, ValidText, IntDigits, FracPart, IntLen;
    ValidSizes(data, precision, scale);
    var intgMax := precision - scale;
    bytes := new Byte[PartSize(intgMax) + PartSize(scale)];
    PartDigits(intgMax);
    PartDigits(scale);
    var offset := StoreInteger(bytes, data, precision, scale, intg);
    ghost var ip, fp := IntDigits(data, precision, scale), FracPart(data, scale);
    StoreFraction(bytes, offset, data, precision, scale, Pack(ip, IntShape(intgMax)));
    PackConcat(ip, IntShape(intgMax), fp, FracShape(scale));
  }

  lemma ValidSizes(t: string, precision: nat, scale: nat)
    requires ValidText(t, precision, scale)
    ensures scale <= precision && IntLen(t, scale) >= 1
  {}

  lemma {:induction false} ShapeNotEmpty(precision: nat, scale: nat)
    requires 0 < precision && scale <= precision
    ensures ColumnShape(precision, scale) != []
    ensures Size(ColumnShape(precision, scale)) > 0
  {
    hide IntShape, FracShape;
    PartDigits(precision - scale);
    PartDigits(scale);
    DigitsConcat(IntShape(precision - scale), FracShape(scale));
  }

  // ---------------------------------------------------------------- what the bytes mean

  lemma {:induction false} ColumnNumber(t: string, precision: nat, scale: nat)
    requires ValidText(t, precision, scale)
    ensures Num(ColumnDigits(t, precision, scale)) == TextMagnitude(t, scale)
    ensures Digits(ColumnShape(precision, scale)) == |ColumnDigits(t, precision, scale)|
    ensures ColumnShape(precision, scale) != []
  {
    hide Num, ColumnShape, FracPart, IntPart, AllDigits, ZeroDigits;
    ColumnSizes(precision, scale);
    PaddedNumber(precision - scale - IntLen(t, scale), IntPart(t, scale), FracPart(t, scale));
  }

  lemma ColumnSizes(precision: nat, scale: nat)
    requires 0 < precision && scale <= precision
    ensures Digits(ColumnShape(precision, scale)) == precision && ColumnShape(precision, scale) != []
  {
    hide Digits, Size, IntShape, FracShape;
    PartDigits(precision - scale);
    PartDigits(scale);
    DigitsConcat(IntShape(precision - scale), FracShape(scale));
    ShapeNotEmpty(precision, scale);
  }

  /** Neither leading zeros nor a lone zero before the point change the number. */
  lemma {:induction false} PaddedNumber(k: int, ip: string, fp: string)
    ensures k >= 0 ==> Num(ZeroDigits(k) + ip + fp) == Num(ip + fp)
    ensures ip == "0" ==> Num("" + fp) == Num(ip + fp)
  {
    hide Num, ZeroDigits;
    NumLeadingZero(fp);
    assert "" + fp == fp;
    if k >= 0 {
      Assoc(ZeroDigits(k), ip, fp);
      NumConcat(ZeroDigits(k), ip + fp);
      NumZeros(k);
    }
  }

  /** The bytes decode to the sign and the number of the text. */
  lemma {:induction false} TextRoundTrip(t: string, precision: nat, scale: nat)
    requires ValidText(t, precision, scale)
    ensures var s := ColumnShape(precision, scale);
            && |ColumnDigits(t, precision, scale)| == Digits(s)
            && Encode(Negative(t), ColumnDigits(t, precision, scale), s) != []
            && Decode(Encode(Negative(t), ColumnDigits(t, precision, scale), s), s)
               == Decoded(Negative(t), TextMagnitude(t, scale))
  {
    hide Pack, Decode, Encode, Num, ColumnDigits, TextMagnitude;
    ColumnNumber(t, precision, scale);
    RoundTrip(Negative(t), ColumnDigits(t, precision, scale), ColumnShape(precision, scale));
  }

  function TextValue(t: string, scale: nat): int
    requires IntLen(t, scale) >= 1
  {
    Value(Negative(t), TextMagnitude(t, scale))
  }

  /** Byte order of two encodings of one column is numeric order, except for a negative zero against a zero. */
  lemma {:induction false} TextOrder(t: string, u: string, precision: nat, scale: nat)
    requires ValidText(t, precision, scale) && ValidText(u, precision, scale)
    ensures var s := ColumnShape(precision, scale);
            && |ColumnDigits(t, precision, scale)| == Digits(s) == |ColumnDigits(u, precision, scale)|
            && ((Less(Encode(Negative(t), ColumnDigits(t, precision, scale), s),
                      Encode(Negative(u), ColumnDigits(u, precision, scale), s))
                 <==> TextValue(t, scale) < TextValue(u, scale))
                <==> !(Negative(t) && !Negative(u) && TextMagnitude(t, scale) == 0 && TextMagnitude(u, scale) == 0))
  {
    hide Pack, Encode, Num, ColumnDigits, TextMagnitude;
    ColumnNumber(t, precision, scale);
    ColumnNumber(u, precision, scale);
    OrderIsNumeric(Negative(t), ColumnDigits(t, precision, scale), Negative(u), ColumnDigits(u, precision, scale),
                   ColumnShape(precision, scale));
  }

  /** The texts "-0" and "0" denote the same number, and the bytes of the first sort below those of the second. */
  lemma MinusZeroSortsLower()
    ensures ValidText("-0", 1, 0) && ValidText("0", 1, 0) && TextValue("-0", 0) == TextValue("0", 0)
    ensures var s := ColumnShape(1, 0);
            && |ColumnDigits("-0", 1, 0)| == Digits(s) == |ColumnDigits("0", 1, 0)|
            && Less(Encode(true, ColumnDigits("-0", 1, 0), s), Encode(false, ColumnDigits("0", 1, 0), s))
  {
    hide Encode, Less, ColumnShape, ColumnDigits, Digits, ValidText, TextMagnitude;
    ZeroTexts();
    TextOrder("-0", "0", 1, 0);
  }

  lemma ZeroTexts()
    ensures ValidText("-0", 1, 0) && ValidText("0", 1, 0) && TextMagnitude("-0", 0) == 0 == TextMagnitude("0", 0)
  {
    assert IntPart("-0", 0) == "0" && FracPart("-0", 0) == "" && IntPart("0", 0) == "0" && FracPart("0", 0) == "";
    assert "0" + "" == "0" && "0"[..0] == "";
    assert Num("0") == 0;
  }
}
