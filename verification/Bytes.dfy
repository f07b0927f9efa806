/**
 * Fixed-width integer codecs: the `intNstore`/`intNload` (little-endian) and
 * `be_`/`hf_` (big-endian) helpers of the byte codec header. A store keeps the low bytes of its argument, so a negative
 * argument is written in two's complement.
 */
module Bytes {
  type Byte = b: int | 0 <= b < 256

  function Pow(base: nat, n: nat): (p: nat)
    requires base > 0
    ensures p > 0
  {
    if n == 0 then 1 else base * Pow(base, n - 1)
  }

  function Zeros(n: nat): (s: seq<Byte>)
    ensures |s| == n
  {
    seq(n, i => 0)
  }

  /** Little-endian store of the low `n` bytes of `v`. */
  function LE(v: int, n: nat): (s: seq<Byte>)
    ensures |s| == n
    decreases n, v
  {
    if n == 0 then [] else [v % 256] + LE(v / 256, n - 1)
  }

  function FromLE(s: seq<Byte>): nat {
    if s == [] then 0 else s[0] + 256 * FromLE(s[1..])
  }

  /** Big-endian store of the low `n` bytes of `v`. */
  function BE(v: int, n: nat): (s: seq<Byte>)
    ensures |s| == n
    decreases n, v
  {
    if n == 0 then [] else BE(v / 256, n - 1) + [v % 256]
  }

  function FromBE(s: seq<Byte>): nat {
    if s == [] then 0 else 256 * FromBE(s[..|s| - 1]) + s[|s| - 1]
  }

  /** Two's complement reading of an unsigned value of modulus `m`. */
  function Signed(v: nat, m: nat): int {
    if 2 * v >= m then v - m else v
  }

  lemma PowAdd(base: nat, m: nat, n: nat)
    requires base > 0
    ensures Pow(base, m + n) == Pow(base, m) * Pow(base, n)
  {
    if m > 0 {
      PowAdd(base, m - 1, n);
      assert base * (Pow(base, m - 1) * Pow(base, n)) == (base * Pow(base, m - 1)) * Pow(base, n);
    }
  }

  /** Splitting a remainder at its lowest base-256 digit. */
  lemma ModSplit(v: int, p: nat)
    requires p > 0
    ensures v % (256 * p) == v % 256 + 256 * ((v / 256) % p)
  {
    var q, r := v / 256, v % 256;
    var q2, r2 := q / p, q % p;
    assert v == 256 * (p * q2 + r2) + r;
    var low := r + 256 * r2;
    assert 0 <= low < 256 * p by { assert r2 <= p - 1; }
    assert v == (256 * p) * q2 + low by { assert 256 * (p * q2) == (256 * p) * q2; }
    DivModUnique(v, 256 * p, q2, low);
  }

  lemma MulAway(m: nat, k: int)
    ensures k >= 1 ==> m * k >= m
    ensures k <= -1 ==> m * k <= 0 - m
  {}

  lemma DivModUnique(v: int, m: nat, q: int, r: int)
    requires m > 0 && v == m * q + r && 0 <= r < m
    ensures v % m == r && v / m == q
  {
    var q', r' := v / m, v % m;
    assert m * (q - q') == r' - r;
    MulAway(m, q - q');
  }

  /** A little-endian load undoes a store up to truncation, also for negative arguments. */
  lemma {:induction false} FromLEofLE(v: int, n: nat)
    ensures FromLE(LE(v, n)) == v % Pow(256, n)
    decreases n
  {
    if n > 0 {
      FromLEofLE(v / 256, n - 1);
      ModSplit(v, Pow(256, n - 1));
      assert LE(v, n)[1..] == LE(v / 256, n - 1);
    }
  }

  lemma LoadLE(v: nat, n: nat)
    requires v < Pow(256, n)
    ensures FromLE(LE(v, n)) == v
  {
    FromLEofLE(v, n);
  }

  lemma {:induction false} FromBEofBE(v: int, n: nat)
    ensures FromBE(BE(v, n)) == v % Pow(256, n)
    decreases n
  {
    if n > 0 {
      FromBEofBE(v / 256, n - 1);
      ModSplit(v, Pow(256, n - 1));
      assert BE(v, n)[..n - 1] == BE(v / 256, n - 1);
    }
  }

  lemma LoadBE(v: nat, n: nat)
    requires v < Pow(256, n)
    ensures FromBE(BE(v, n)) == v
  {
    FromBEofBE(v, n);
  }

  /** A store undoes a load, and a load of `n` bytes is below `256^n`. */
  lemma {:induction false} LEofFromLE(s: seq<Byte>)
    ensures FromLE(s) < Pow(256, |s|)
    ensures LE(FromLE(s), |s|) == s
    decreases |s|
  {
    if s != [] {
      LEofFromLE(s[1..]);
      var v, low, high := FromLE(s), s[0], FromLE(s[1..]);
      DivModUnique(v, 256, high, low);
      assert [low] + s[1..] == s;
    }
  }

  lemma Pow256()
    ensures Pow(256, 1) == 0x100
    ensures Pow(256, 2) == 0x1_0000
    ensures Pow(256, 3) == 0x100_0000
    ensures Pow(256, 4) == 0x1_0000_0000
    ensures Pow(256, 5) == 0x100_0000_0000
    ensures Pow(256, 8) == 0x1_0000_0000_0000_0000
  {
    assert Pow(256, 2) == 256 * Pow(256, 1);
    assert Pow(256, 3) == 256 * Pow(256, 2);
    assert Pow(256, 4) == 256 * Pow(256, 3);
    assert Pow(256, 5) == 256 * Pow(256, 4);
    assert Pow(256, 6) == 256 * Pow(256, 5);
    assert Pow(256, 7) == 256 * Pow(256, 6);
    assert Pow(256, 8) == 256 * Pow(256, 7);
  }

  /** The middle of a three-part concatenation. */
  lemma Middle<T>(a: seq<T>, b: seq<T>, c: seq<T>)
    ensures (a + b + c)[|a|..|a| + |b|] == b
    ensures (a + b + c)[|a|..] == b + c
    ensures (a + b + c)[|a| + |b|..] == c
  {}

  lemma Front<T>(a: seq<T>, b: seq<T>)
    ensures (a + b)[..|a|] == a && (a + b)[|a|..] == b
  {}

  /** The first `n` elements stay in front of a longer sequence. */
  lemma FrontConcat<T>(a: seq<T>, n: nat, b: seq<T>)
    requires n <= |a|
    ensures a + b == a[..n] + (a[n..] + b)
  {}

  /** A slice of a slice. */
  lemma Within<T>(c: seq<T>, at: nat, part: seq<T>, i: nat, j: nat)
    requires at + |part| <= |c| && c[at..at + |part|] == part
    requires i <= j <= |part|
    ensures c[at + i..at + j] == part[i..j]
  {
    forall k | i <= k < j
      ensures c[at + k] == part[k]
    {
      assert part[k] == c[at..at + |part|][k];
    }
  }

  lemma Assoc<T>(a: seq<T>, b: seq<T>, c: seq<T>)
    ensures a + b + c == a + (b + c)
  {}

  lemma TakeDrop<T>(s: seq<T>, i: nat)
    requires i <= |s|
    ensures s == s[..i] + s[i..]
  {}

  lemma ZerosConcat(m: nat, n: nat)
    ensures Zeros(m) + Zeros(n) == Zeros(m + n)
  {}
}
