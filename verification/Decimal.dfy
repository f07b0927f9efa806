/**
 * DECIMAL columns. Nine decimal digits go into four big-endian
 * bytes and a shorter group into fewer; a negative number has every byte complemented; the top bit of the first byte is
 * flipped so that byte-wise comparison follows the number.
 */
module DecimalFormat {
  import opened Bytes

  const GROUP := 9

  /** Bytes of a group of `n` digits. */
  function DigitsToBytes(n: nat): (w: nat)
    requires n <= GROUP
    ensures w <= 4 && (n > 0 ==> w > 0)
  {
    [0, 1, 1, 2, 2, 3, 3, 4, 4, 4][n]
  }

  function Digit(c: char): (d: nat)
    ensures d < 10
  {
    if '0' <= c <= '9' then c as int - '0' as int else 0
  }

  /** The number a digit string denotes. */
  function Num(t: string): nat {
    if t == "" then 0 else 10 * Num(t[..|t| - 1]) + Digit(t[|t| - 1])
  }

  function ZeroDigits(n: nat): (t: string)
    ensures |t| == n
  {
    seq(n, i => '0')
  }

  /** Digit counts of the groups, most significant first. */
  type Shape = s: seq<nat> | forall i :: 0 <= i < |s| ==> 0 < s[i] <= GROUP witness []

  function Nines(n: nat): (s: Shape)
    ensures |s| == n
  {
    seq(n, i => GROUP)
  }

  function Partial(n: nat): Shape
    requires n < GROUP
  {
    if n == 0 then [] else [n]
  }

  function IntShape(n: nat): Shape {
    Partial(n % GROUP) + Nines(n / GROUP)
  }

  function FracShape(n: nat): Shape {
    Nines(n / GROUP) + Partial(n % GROUP)
  }

  function Digits(s: Shape): nat {
    if s == [] then 0 else s[0] + Digits(s[1..])
  }

  function Size(s: Shape): nat {
    if s == [] then 0 else DigitsToBytes(s[0]) + Size(s[1..])
  }

  /** The digits `t`, group by group. */
  function Pack(t: string, s: Shape): (b: seq<Byte>)
    requires |t| == Digits(s)
    ensures |b| == Size(s)
    decreases |s|
  {
    if s == [] then [] else BE(Num(t[..s[0]]), DigitsToBytes(s[0])) + Pack(t[s[0]..], s[1..])
  }

  function Complement(b: seq<Byte>): (c: seq<Byte>)
    ensures |c| == |b|
  {
    seq(|b|, i requires 0 <= i < |b| => 255 - b[i])
  }

  function Masked(neg: bool, b: seq<Byte>): (c: seq<Byte>)
    ensures |c| == |b|
  {
    if neg then Complement(b) else b
  }

  function FlipTop(b: seq<Byte>): (c: seq<Byte>)
    ensures |c| == |b|
  {
    if b == [] then [] else [(b[0] as int + 128) % 256] + b[1..]
  }

  function Encode(neg: bool, t: string, s: Shape): (b: seq<Byte>)
    requires |t| == Digits(s)
    ensures |b| == Size(s)
  {
    FlipTop(Masked(neg, Pack(t, s)))
  }

  // ---------------------------------------------------------------- reading

  function Unpack(b: seq<Byte>, s: Shape): nat
    requires |b| == Size(s)
    decreases |s|
  {
    if s == [] then 0
    else
      var w := DigitsToBytes(s[0]);
      FromBE(b[..w]) * Pow(10, Digits(s[1..])) + Unpack(b[w..], s[1..])
  }

  datatype Decoded = Decoded(neg: bool, magnitude: nat)

  /** The sign is the top bit; the magnitude is in units of the last fraction digit. */
  function Decode(b: seq<Byte>, s: Shape): Decoded
    requires |b| == Size(s) && b != []
  {
    var neg := b[0] < 128;
    Decoded(neg, Unpack(Masked(neg, FlipTop(b)), s))
  }

  // ---------------------------------------------------------------- digit strings

  lemma {:induction false} NumConcat(a: string, b: string)
    ensures Num(a + b) == Num(a) * Pow(10, |b|) + Num(b)
    decreases |b|
  {
    if b == "" {
      assert a + b == a;
    } else {
      var b' := b[..|b| - 1];
      assert (a + b)[..|a + b| - 1] == a + b';
      NumConcat(a, b');
      assert 10 * (Num(a) * Pow(10, |b'|)) == Num(a) * (10 * Pow(10, |b'|));
    }
  }

  lemma {:induction false} NumBound(t: string)
    ensures Num(t) < Pow(10, |t|)
    decreases |t|
  {
    if t != "" {
      NumBound(t[..|t| - 1]);
    }
  }

  lemma {:induction false} NumZeros(n: nat)
    ensures Num(ZeroDigits(n)) == 0
  {
    if n > 0 {
      assert ZeroDigits(n)[..n - 1] == ZeroDigits(n - 1);
      NumZeros(n - 1);
    }
  }

  /** A group fits its bytes and leaves the top bit clear. */
  lemma GroupFits(n: nat)
    requires 0 < n <= GROUP
    ensures Pow(10, n) <= 128 * Pow(256, DigitsToBytes(n) - 1)
    ensures Pow(256, DigitsToBytes(n)) == 256 * Pow(256, DigitsToBytes(n) - 1)
  {
    assert Pow(10, 1) == 10 && Pow(10, 2) == 100 && Pow(10, 3) == 1000 && Pow(10, 4) == 10000;
    assert Pow(10, 5) == 10 * Pow(10, 4) && Pow(10, 6) == 10 * Pow(10, 5) && Pow(10, 7) == 10 * Pow(10, 6);
    assert Pow(10, 8) == 10 * Pow(10, 7) && Pow(10, 9) == 10 * Pow(10, 8);
    Pow256();
  }

  // ---------------------------------------------------------------- round trip

  lemma {:induction false} ComplementTwice(b: seq<Byte>)
    ensures Complement(Complement(b)) == b
  {}

  lemma FlipTwice(b: seq<Byte>)
    ensures FlipTop(FlipTop(b)) == b
  {}

  lemma {:induction false} GroupBack(group: string)
    requires 0 < |group| <= GROUP
    ensures FromBE(BE(Num(group), DigitsToBytes(|group|))) == Num(group)
  {
    hide Num, BE, FromBE;
    var w := DigitsToBytes(|group|);
    GroupFits(|group|);
    NumBound(group);
    FromBEofBE(Num(group), w);
    DivModUnique(Num(group), Pow(256, w), 0, Num(group));
  }

  lemma {:induction false} UnpackPack(t: string, s: Shape)
    requires |t| == Digits(s)
    ensures Unpack(Pack(t, s), s) == Num(t)
    decreases |s|
  {
    if s != [] {
      var n, w := s[0], DigitsToBytes(s[0]);
      var head, tail := t[..n], t[n..];
      assert Pack(t, s)[..w] == BE(Num(head), w) && Pack(t, s)[w..] == Pack(tail, s[1..]);
      GroupBack(head);
      UnpackPack(tail, s[1..]);
      TakeDrop(t, n);
      NumConcat(head, tail);
    }
  }

  /** The first byte of the packed digits has its top bit clear. */
  lemma {:induction false} TopBitClear(t: string, s: Shape)
    requires |t| == Digits(s) && s != []
    ensures Pack(t, s) != [] && Pack(t, s)[0] < 128
  {
    var v, w := Num(t[..s[0]]), DigitsToBytes(s[0]);
    GroupFits(s[0]);
    NumBound(t[..s[0]]);
    FirstByte(v, w);
  }

  lemma {:induction false} FirstByte(v: nat, w: nat)
    requires w > 0 && v < 128 * Pow(256, w - 1)
    ensures BE(v, w)[0] < 128
    decreases w
  {
    if w == 1 {
      assert v < 128;
    } else {
      assert Pow(256, w - 1) == 256 * Pow(256, w - 2);
      FirstByte(v / 256, w - 1);
    }
  }

  /** Reading back gives the sign and the number that was written. */
  lemma {:induction false} RoundTrip(neg: bool, t: string, s: Shape)
    requires |t| == Digits(s) && s != []
    ensures Encode(neg, t, s) != []
    ensures Decode(Encode(neg, t, s), s) == Decoded(neg, Num(t))
  {
    hide Pack, Num, Unpack;
    var packed := Pack(t, s);
    TopBitClear(t, s);
    FlipTwice(Masked(neg, packed));
    ComplementTwice(packed);
    UnpackPack(t, s);
  }

  // ---------------------------------------------------------------- order

  /** Byte-wise comparison of two codes of one column. */
  predicate Less(a: seq<Byte>, b: seq<Byte>)
    requires |a| == |b|
  {
    a != [] && (a[0] < b[0] || (a[0] == b[0] && Less(a[1..], b[1..])))
  }

  lemma {:induction false} LessConcat(a: seq<Byte>, a': seq<Byte>, b: seq<Byte>, b': seq<Byte>)
    requires |a| == |b| && |a'| == |b'|
    ensures Less(a + a', b + b') <==> Less(a, b) || (a == b && Less(a', b'))
    decreases |a|
  {
    if a == [] {
      assert a + a' == a' && b + b' == b';
    } else {
      assert (a + a')[1..] == a[1..] + a' && (b + b')[1..] == b[1..] + b';
      LessConcat(a[1..], a', b[1..], b');
      assert a == b <==> a[0] == b[0] && a[1..] == b[1..] by {
        assert a == [a[0]] + a[1..] && b == [b[0]] + b[1..];
      }
    }
  }

  lemma {:induction false} LessBE(u: nat, v: nat, w: nat)
    requires u < Pow(256, w) && v < Pow(256, w)
    ensures Less(BE(u, w), BE(v, w)) <==> u < v
    ensures BE(u, w) == BE(v, w) <==> u == v
    decreases w
  {
    if w > 0 {
      LessBE(u / 256, v / 256, w - 1);
      LessConcat(BE(u / 256, w - 1), [u % 256], BE(v / 256, w - 1), [v % 256]);
      assert BE(u, w)[..w - 1] == BE(u / 256, w - 1) && BE(v, w)[..w - 1] == BE(v / 256, w - 1);
      assert BE(u, w)[w - 1] == u % 256 && BE(v, w)[w - 1] == v % 256;
      assert Less([u % 256], [v % 256]) <==> u % 256 < v % 256;
    }
  }

  lemma LexArith(a: nat, x: nat, b: nat, y: nat, p: nat)
    requires x < p && y < p
    ensures a * p + x < b * p + y <==> a < b || (a == b && x < y)
  {
    if a < b {
      assert b * p >= (a + 1) * p == a * p + p;
    } else if b < a {
      assert a * p >= (b + 1) * p == b * p + p;
    }
  }

  lemma {:induction false} LessPack(t: string, u: string, s: Shape)
    requires |t| == Digits(s) == |u|
    ensures Less(Pack(t, s), Pack(u, s)) <==> Num(t) < Num(u)
    decreases |s|
  {
    if s != [] {
      var n, w := s[0], DigitsToBytes(s[0]);
      var t1, t2, u1, u2 := t[..n], t[n..], u[..n], u[n..];
      GroupFits(n);
      NumBound(t1); NumBound(u1); NumBound(t2); NumBound(u2);
      LessBE(Num(t1), Num(u1), w);
      LessPack(t2, u2, s[1..]);
      LessConcat(BE(Num(t1), w), Pack(t2, s[1..]), BE(Num(u1), w), Pack(u2, s[1..]));
      assert t == t1 + t2 && u == u1 + u2;
      NumConcat(t1, t2);
      NumConcat(u1, u2);
      LexArith(Num(t1), Num(t2), Num(u1), Num(u2), Pow(10, |t2|));
    }
  }

  lemma {:induction false} LessComplement(a: seq<Byte>, b: seq<Byte>)
    requires |a| == |b|
    ensures Less(Complement(a), Complement(b)) <==> Less(b, a)
    decreases |a|
  {
    if a != [] {
      assert Complement(a)[1..] == Complement(a[1..]) && Complement(b)[1..] == Complement(b[1..]);
      LessComplement(a[1..], b[1..]);
    }
  }

  /** What byte order really compares: a negative magnitude counts from -1 downwards. */
  function Rank(neg: bool, magnitude: nat): int {
    if neg then -1 - magnitude else magnitude
  }

  function Value(neg: bool, magnitude: nat): int {
    if neg then 0 - magnitude else magnitude
  }

  lemma OrderIsRank(neg: bool, t: string, neg': bool, u: string, s: Shape)
    requires |t| == Digits(s) == |u| && s != []
    ensures Less(Encode(neg, t, s), Encode(neg', u, s)) <==> Rank(neg, Num(t)) < Rank(neg', Num(u))
  {
    hide Pack, Num, Less, Complement, FlipTop;
    var a, b := Pack(t, s), Pack(u, s);
    TopBitClear(t, s);
    TopBitClear(u, s);
    LessPack(t, u, s);
    LessPack(u, t, s);
    LessComplement(a, b);
    ComplementFirst(a);
    ComplementFirst(b);
    FlipLess(Masked(neg, a), Masked(neg', b));
  }

  lemma ComplementFirst(a: seq<Byte>)
    requires a != []
    ensures Complement(a)[0] == 255 - a[0]
  {}

  /** Flipping the top bit keeps the order within one sign and puts negatives below the rest. */
  lemma {:induction false} FlipLess(c: seq<Byte>, d: seq<Byte>)
    requires |c| == |d| > 0
    ensures Less(FlipTop(c), FlipTop(d)) <==>
            if (c[0] < 128) == (d[0] < 128) then Less(c, d) else d[0] < 128
  {
    hide Less;
    var c', d' := FlipTop(c), FlipTop(d);
    assert c'[1..] == c[1..] && d'[1..] == d[1..];
    assert c'[0] == (c[0] as int + 128) % 256 && d'[0] == (d[0] as int + 128) % 256;
    LessFirst(c, d);
    LessFirst(c', d');
  }

  lemma {:induction false} LessFirst(a: seq<Byte>, b: seq<Byte>)
    requires |a| == |b| > 0
    ensures Less(a, b) <==> a[0] < b[0] || (a[0] == b[0] && Less(a[1..], b[1..]))
  {}

  /**
   * Byte order is numeric order except on one family: it puts a negative zero
   * strictly below a positive zero.
   */
  lemma OrderIsNumeric(neg: bool, t: string, neg': bool, u: string, s: Shape)
    requires |t| == Digits(s) == |u| && s != []
    ensures (Less(Encode(neg, t, s), Encode(neg', u, s)) <==> Value(neg, Num(t)) < Value(neg', Num(u)))
            <==> !(neg && !neg' && Num(t) == 0 && Num(u) == 0)
  {
    OrderIsRank(neg, t, neg', u, s);
  }
}
