/**
 * The smooth token bucket of the rate limiter: permits accumulate up to a
 * maximum, a request beyond them pushes the next free moment into the future, and waiting times are whole microseconds.
 */
module TokenBucket {
  /** `interval` is the time of one permit in microseconds, zero until a rate has been set. */
  datatype Bucket = Bucket(stored: real, max: real, interval: real, next: nat)

  function Min(a: real, b: real): real { if a <= b then a else b }

  predicate Valid(b: Bucket) {
    0.0 <= b.stored <= b.max && b.interval > 0.0
  }

  /** Before the first rate the division is by zero and its infinity is cut to the maximum. */
  function Resynced(b: Bucket, now: nat): Bucket {
    if now <= b.next then b
    else if b.interval == 0.0 then b.(stored := b.max, next := now)
    else b.(stored := Min(b.max, b.stored + (now - b.next) as real / b.interval), next := now)
  }

  /** Casting a non-negative double to an unsigned integer drops the fraction. */
  function Truncate(x: real): (n: nat)
    requires x >= 0.0
    ensures n as real <= x < n as real + 1.0
  {
    x.Floor
  }

  function Spent(b: Bucket, permits: nat): real { Min(permits as real, b.stored) }

  function Reserved(b: Bucket, permits: nat, now: nat): Bucket
    requires Valid(b)
  {
    var r := Resynced(b, now);
    ResyncValid(b, now);
    var spend := Spent(r, permits);
    FreshNonNegative(r, permits);
    r.(next := r.next + Truncate((permits as real - spend) * r.interval), stored := r.stored - spend)
  }

  function Rerated(b: Bucket, burst: real, rate: real, now: nat): Bucket
    requires rate > 0.0
  {
    var r := Resynced(b, now);
    Bucket(if r.max == 0.0 then 0.0 else r.stored * (burst * rate) / r.max, burst * rate, 1000000.0 / rate, r.next)
  }

  // ---------------------------------------------------------------- the bucket as an object

  class SmoothTokenBucket {
    const maxBurstSeconds: real
    var storedPermits: real
    var maxPermits: real
    var stableIntervalMicros: real
    var nextFreeTicketMicros: nat

    ghost function Abs(): Bucket
      reads this
    {
      Bucket(storedPermits, maxPermits, stableIntervalMicros, nextFreeTicketMicros)
    }

    /** `TokenBucket::create`: one burst second, then the rate. */
    constructor Create(rate: real, now: nat)
      requires rate > 0.0
      ensures maxBurstSeconds == 1.0
      ensures Abs() == Rerated(Bucket(0.0, 0.0, 0.0, 0), 1.0, rate, now)
    {
      maxBurstSeconds := 1.0;
      storedPermits, maxPermits, stableIntervalMicros, nextFreeTicketMicros := 0.0, 0.0, 0.0, 0;
      new;
      SetRate(rate, now);
    }

    method Resync(now: nat)
      modifies this
      ensures Abs() == Resynced(old(Abs()), now)
    {
      if now > nextFreeTicketMicros {
        if stableIntervalMicros == 0.0 {
          storedPermits := maxPermits;
        } else {
          var newPermits := (now - nextFreeTicketMicros) as real / stableIntervalMicros;
          storedPermits := Min(maxPermits, storedPermits + newPermits);
        }
        nextFreeTicketMicros := now;
      }
    }

    method SetRate(rate: real, now: nat)
      requires rate > 0.0
      modifies this
      ensures Abs() == Rerated(old(Abs()), maxBurstSeconds, rate, now)
    {
      Resync(now);
      stableIntervalMicros := 1000000.0 / rate;
      var oldMax := maxPermits;
      maxPermits := maxBurstSeconds * rate;
      storedPermits := if oldMax == 0.0 then 0.0 else storedPermits * maxPermits / oldMax;
    }

    /** `reserve_and_get_wait_length`: the unsigned difference never wraps. */
    method ReserveAndGetWait(permits: nat, now: nat) returns (wait: nat)
      requires Valid(Abs())
      modifies this
      ensures Abs() == Reserved(old(Abs()), permits, now) && Valid(Abs())
      ensures now + wait == Resynced(old(Abs()), now).next
    {
      ResyncValid(Abs(), now);
      ReserveValid(Abs(), permits, now);
      ghost var before := Abs();
      Resync(now);
      FreshNonNegative(Abs(), permits);
      var moment := nextFreeTicketMicros;
      var spend := Min(permits as real, storedPermits);
      var extra := permits as real - spend;
      var waitMicros := Truncate(extra * stableIntervalMicros);
      nextFreeTicketMicros := nextFreeTicketMicros + waitMicros;
      storedPermits := storedPermits - spend;
      wait := moment - now;
    }
  }

  // ---------------------------------------------------------------- one call

  lemma ResyncValid(b: Bucket, now: nat)
    requires Valid(b)
    ensures Valid(Resynced(b, now)) && Resynced(b, now).interval == b.interval && Resynced(b, now).max == b.max
    ensures Resynced(b, now).next >= now && Resynced(b, now).next >= b.next
    ensures Resynced(b, now).next == now || Resynced(b, now) == b
  {
    if now > b.next {
      DivNonNegative((now - b.next) as real, b.interval);
    }
  }

  lemma DivNonNegative(a: real, b: real)
    requires a >= 0.0 && b > 0.0
    ensures a / b >= 0.0
  {}

  lemma MulNonNegative(a: real, b: real)
    requires a >= 0.0 && b >= 0.0
    ensures a * b >= 0.0
  {}

  lemma FreshNonNegative(b: Bucket, permits: nat)
    requires Valid(b)
    ensures (permits as real - Spent(b, permits)) * b.interval >= 0.0
  {
    MulNonNegative(permits as real - Spent(b, permits), b.interval);
  }

  lemma ReserveValid(b: Bucket, permits: nat, now: nat)
    requires Valid(b)
    ensures Valid(Reserved(b, permits, now))
    ensures Reserved(b, permits, now).interval == b.interval && Reserved(b, permits, now).max == b.max
    ensures Reserved(b, permits, now).next >= Resynced(b, now).next
  {
    ResyncValid(b, now);
  }

  /** A change of rate keeps the stored permits within the new maximum, in the old proportion. */
  lemma RateChangeValid(b: Bucket, burst: real, rate: real, now: nat)
    requires rate > 0.0 && burst > 0.0
    requires Valid(b) || (b.stored == b.max == b.interval == 0.0)
    ensures Valid(Rerated(b, burst, rate, now)) && Rerated(b, burst, rate, now).max == burst * rate
    ensures Valid(b) && b.max > 0.0 ==>
              Rerated(b, burst, rate, now).stored * b.max == Resynced(b, now).stored * (burst * rate)
    ensures Rerated(b, burst, rate, now).interval * rate == 1000000.0
    ensures Rerated(b, burst, rate, now).next == Later(b.next, now)
    ensures b.max == 0.0 ==> Rerated(b, burst, rate, now).stored == 0.0
  {
    var max := burst * rate;
    assert max > 0.0;
    assert 1000000.0 / rate > 0.0;
    if Valid(b) {
      ResyncValid(b, now);
      var r := Resynced(b, now);
      if r.max > 0.0 {
        Proportion(r.stored, r.max, max);
      }
    }
  }

  lemma Proportion(x: real, m: real, n: real)
    requires 0.0 <= x <= m && m > 0.0 && n > 0.0
    ensures 0.0 <= x * n / m <= n
    ensures x * n / m * m == x * n
  {
    var y := x * n / m;
    assert y * m == x * n;
    ScaleOrder(x, m, n);
    ScaleOrder(y, n, m);
    ScaleOrder(0.0, x, n);
    ScaleOrder(0.0, y, m);
  }

  lemma ScaleOrder(a: real, b: real, c: real)
    requires c > 0.0
    ensures a <= b <==> a * c <= b * c
  {}

  // ---------------------------------------------------------------- whole runs

  datatype Request = Request(permits: nat, now: nat)

  function AfterAll(b: Bucket, rs: seq<Request>): Bucket
    requires Valid(b)
    decreases |rs|
  {
    if rs == [] then b
    else
      ReserveValid(b, rs[0].permits, rs[0].now);
      AfterAll(Reserved(b, rs[0].permits, rs[0].now), rs[1..])
  }

  function Granted(rs: seq<Request>): nat {
    if rs == [] then 0 else rs[0].permits + Granted(rs[1..])
  }

  function LatestNow(rs: seq<Request>): nat {
    if rs == [] then 0 else Later(rs[0].now, LatestNow(rs[1..]))
  }

  /** Synchronising earns at most one permit per interval of time passed. */
  lemma ResyncEarns(b: Bucket, now: nat)
    requires Valid(b)
    ensures (Resynced(b, now).stored - b.stored) * b.interval <= (Resynced(b, now).next - b.next) as real
  {
    if now > b.next {
      var d := (now - b.next) as real;
      assert d / b.interval * b.interval == d;
      ScaleOrder(Resynced(b, now).stored - b.stored, d / b.interval, b.interval);
    }
  }

  lemma Distribute(a: real, b: real, c: real)
    ensures (a + b) * c == a * c + b * c
  {}

  /** One reservation pays for its permits in time, up to the microsecond that truncation gives away. */
  lemma ReservePays(b: Bucket, permits: nat, now: nat)
    requires Valid(b)
    ensures var b' := Reserved(b, permits, now);
            (permits as real + b'.stored - b.stored) * b.interval <= (b'.next - b.next) as real + 1.0
  {
    ResyncValid(b, now);
    ResyncEarns(b, now);
    var r := Resynced(b, now);
    FreshNonNegative(r, permits);
    Distribute(permits as real - Spent(r, permits), r.stored - b.stored, b.interval);
  }

  /** What a bucket after some reservations may have charged: at most the time that passed, up to `n` microseconds. */
  predicate Paid(b: Bucket, b': Bucket, granted: nat, n: nat) {
    && Valid(b') && b'.interval == b.interval && b'.max == b.max && b'.next >= b.next
    && (granted as real + b'.stored - b.stored) * b.interval <= (b'.next - b.next) as real + n as real
  }

  lemma PaidInTurn(a: Bucket, b: Bucket, c: Bucket, g: nat, h: nat, m: nat, n: nat)
    requires Paid(a, b, g, m) && Paid(b, c, h, n)
    ensures Paid(a, c, g + h, m + n)
  {
    Distribute(g as real + b.stored - a.stored, h as real + c.stored - b.stored, a.interval);
  }

  lemma PaidNothing(b: Bucket)
    requires Valid(b)
    ensures Paid(b, b, 0, 0)
  {
    assert (0.0 + b.stored - b.stored) == 0.0;
  }

  lemma ReservePaid(b: Bucket, permits: nat, now: nat)
    requires Valid(b)
    ensures Paid(b, Reserved(b, permits, now), permits, 1)
  {
    hide Reserved, Resynced;
    ReserveValid(b, permits, now);
    ResyncValid(b, now);
    ReservePays(b, permits, now);
  }

  /**
   * The long-run bound: over any run of reservations, whatever the clock does, the permits granted and those still
   * stored are at most those stored before, one per interval of the time charged, and one truncated microsecond per
   * reservation.
   */
  lemma {:induction false} GrantsAreBounded(b: Bucket, rs: seq<Request>)
    requires Valid(b)
    ensures Paid(b, AfterAll(b, rs), Granted(rs), |rs|)
    decreases |rs|
  {
    hide Reserved, Resynced, Paid, Valid;
    if rs == [] {
      PaidNothing(b);
    } else {
      var r, rest := rs[0], rs[1..];
      var b1 := Reserved(b, r.permits, r.now);
      ReserveValid(b, r.permits, r.now);
      ReservePaid(b, r.permits, r.now);
      GrantsAreBounded(b1, rest);
      PaidInTurn(b, b1, AfterAll(b1, rest), r.permits, Granted(rest), 1, |rest|);
    }
  }

  /** Read as a rate: what was granted before a reservation that becomes available at `moment`. */
  lemma {:induction false} GrantedBefore(b: Bucket, rs: seq<Request>, now: nat)
    requires Valid(b)
    ensures Valid(AfterAll(b, rs))
    ensures var moment := Resynced(AfterAll(b, rs), now).next;
            Granted(rs) as real <= b.stored + (moment - b.next + |rs|) as real / b.interval
  {
    hide Resynced, AfterAll, Granted;
    GrantsAreBounded(b, rs);
    var b' := AfterAll(b, rs);
    ResyncValid(b', now);
    RateForm(b, b', Granted(rs), |rs|, Resynced(b', now).next);
  }

  lemma RateForm(b: Bucket, b': Bucket, granted: nat, n: nat, moment: nat)
    requires Valid(b) && Paid(b, b', granted, n) && moment >= b'.next
    ensures granted as real <= b.stored + (moment - b.next + n) as real / b.interval
  {
    var y := (moment - b.next + n) as real;
    var x := granted as real - b.stored;
    ScaleOrder(x, x + b'.stored, b.interval);
    QuotientBound(x, y, b.interval);
  }

  lemma QuotientBound(x: real, y: real, c: real)
    requires c > 0.0 && x * c <= y
    ensures x <= y / c
  {
    assert y / c * c == y;
    ScaleOrder(x, y / c, c);
  }

  /** Nobody waits for more than the time of the permits asked for so far, less those stored at the start. */
  lemma {:induction false} WaitsAreBounded(b: Bucket, rs: seq<Request>)
    requires Valid(b)
    ensures WaitedAtMost(AfterAll(b, rs).next, Later(b.next, LatestNow(rs)), Beyond(Granted(rs), b.stored), b.interval)
    decreases |rs|
  {
    hide Reserved, Resynced, Valid, WaitedAtMost, Beyond;
    if rs == [] {
      WaitedNothing(b);
    } else {
      var r, rest := rs[0], rs[1..];
      var b1 := Reserved(b, r.permits, r.now);
      ReserveValid(b, r.permits, r.now);
      ReserveCharges(b, r.permits, r.now);
      WaitsAreBounded(b1, rest);
      WaitInTurn(b, r.now, LatestNow(rest), b1, AfterAll(b1, rest).next, r.permits, Granted(rest));
    }
  }

  predicate WaitedAtMost(end: nat, start: nat, permits: real, interval: real) {
    end as real <= start as real + permits * interval
  }

  /** What is asked for beyond what is stored. */
  function Beyond(permits: nat, stored: real): real {
    if permits as real <= stored then 0.0 else permits as real - stored
  }

  lemma WaitedNothing(b: Bucket)
    requires Valid(b)
    ensures WaitedAtMost(b.next, Later(b.next, 0), Beyond(0, b.stored), b.interval)
  {}

  function Later(a: nat, b: nat): nat { if a >= b then a else b }

  /** One reservation charges for what lies beyond the stored permits, and leaves stored what it did not need. */
  predicate Charged(b: Bucket, b1: Bucket, permits: nat, now: nat) {
    && b1.interval == b.interval > 0.0
    && WaitedAtMost(b1.next, Later(b.next, now), Beyond(permits, b.stored), b.interval)
    && (b1.next == Later(b.next, now) || b1.stored == 0.0)
    && b1.stored >= b.stored - permits as real && b1.stored >= 0.0 && b.stored >= 0.0
  }

  lemma ReserveCharges(b: Bucket, permits: nat, now: nat)
    requires Valid(b)
    ensures Charged(b, Reserved(b, permits, now), permits, now)
  {
    ResyncValid(b, now);
    ResyncKeepsStored(b, now);
    var r := Resynced(b, now);
    ReserveValid(b, permits, now);
    FreshNonNegative(r, permits);
    ScaleOrder(permits as real - Spent(r, permits), Beyond(permits, b.stored), b.interval);
    if permits as real <= r.stored {
      assert (permits as real - Spent(r, permits)) * r.interval == 0.0;
    }
  }

  lemma ResyncKeepsStored(b: Bucket, now: nat)
    requires Valid(b)
    ensures Resynced(b, now).stored >= b.stored && Resynced(b, now).next == Later(b.next, now)
  {
    if now > b.next {
      DivNonNegative((now - b.next) as real, b.interval);
    }
  }

  lemma WaitInTurn(b: Bucket, now: nat, later: nat, b1: Bucket, end: nat, p: nat, g: nat)
    requires Charged(b, b1, p, now) && WaitedAtMost(end, Later(b1.next, later), Beyond(g, b1.stored), b.interval)
    ensures WaitedAtMost(end, Later(b.next, Later(now, later)), Beyond(p + g, b.stored), b.interval)
  {
    hide Beyond;
    var first, second, all := Beyond(p, b.stored), Beyond(g, b1.stored), Beyond(p + g, b.stored);
    BeyondInTurn(b.stored, b1.stored, p, g);
    if b1.next == Later(b.next, now) {
      LaterStart(end, second, all, b.interval, Later(b1.next, later));
    } else {
      Distribute(first, second, b.interval);
      MulNonNegative(first, b.interval);
      var x, y := first * b.interval, second * b.interval;
      assert (first + second) * b.interval == x + y;
      assert b1.next as real <= Later(b.next, now) as real + x;
      assert end as real <= Later(b.next, Later(now, later)) as real + (x + y);
      LaterStart(end, first + second, all, b.interval, Later(b.next, Later(now, later)));
    }
  }

  lemma BeyondInTurn(stored: real, left: real, p: nat, g: nat)
    requires stored >= 0.0 && left >= 0.0 && left >= stored - p as real
    ensures Beyond(p, stored) >= 0.0 && Beyond(g, left) <= Beyond(p + g, stored)
    ensures left == 0.0 ==> Beyond(p, stored) + Beyond(g, left) <= Beyond(p + g, stored)
  {}

  lemma LaterStart(end: nat, less: real, more: real, interval: real, start: nat)
    requires less <= more && interval > 0.0 && end as real <= start as real + less * interval
    ensures WaitedAtMost(end, start, more, interval)
  {
    ScaleOrder(less, more, interval);
  }

  // ---------------------------------------------------------------- what idle time earns

  /** After as much idle time as the maximum is worth the bucket is full, and a request within the maximum is free. */
  lemma {:induction false} IdleBucketIsFull(b: Bucket, permits: nat, now: nat)
    requires Valid(b) && now > b.next && (now - b.next) as real >= b.max * b.interval && permits as real <= b.max
    ensures Resynced(b, now) == b.(stored := b.max, next := now)
    ensures Reserved(b, permits, now) == b.(stored := b.max - permits as real, next := now)
  {
    QuotientBound(b.max, (now - b.next) as real, b.interval);
    assert b.stored + (now - b.next) as real / b.interval >= b.max;
    var extra := permits as real - permits as real;
    assert extra * b.interval == 0.0;
  }

  /** The permits earned by the time since the free moment that the maximum cuts off. */
  function CutOff(b: Bucket, now: nat): real
    requires b.interval > 0.0
  {
    if now <= b.next then 0.0
    else
      var full := b.stored + (now - b.next) as real / b.interval;
      if full > b.max then full - b.max else 0.0
  }

  function CutOffAll(b: Bucket, rs: seq<Request>): real
    requires Valid(b)
    decreases |rs|
  {
    if rs == [] then 0.0
    else
      ReserveValid(b, rs[0].permits, rs[0].now);
      CutOff(b, rs[0].now) + CutOffAll(Reserved(b, rs[0].permits, rs[0].now), rs[1..])
  }

  /** The permits granted and stored pay for all the time charged, but for what was cut off. */
  predicate Earned(b: Bucket, b': Bucket, granted: nat, cut: real) {
    (granted as real + b'.stored - b.stored + cut) * b.interval >= (b'.next - b.next) as real
  }

  lemma {:induction false} ReserveEarns(b: Bucket, permits: nat, now: nat)
    requires Valid(b)
    ensures Earned(b, Reserved(b, permits, now), permits, CutOff(b, now))
  {
    ResyncValid(b, now);
    var r, cut := Resynced(b, now), CutOff(b, now);
    ResyncExact(b, now);
    FreshNonNegative(r, permits);
    var extra := permits as real - Spent(r, permits);
    Distribute(extra, r.stored - b.stored + cut, b.interval);
    var b' := Reserved(b, permits, now);
    assert permits as real + b'.stored - b.stored + cut == extra + (r.stored - b.stored + cut);
  }

  lemma ResyncExact(b: Bucket, now: nat)
    requires Valid(b)
    ensures (Resynced(b, now).stored - b.stored + CutOff(b, now)) * b.interval == (Resynced(b, now).next - b.next) as real
  {
    if now > b.next {
      var d := (now - b.next) as real;
      assert d / b.interval * b.interval == d;
      assert Resynced(b, now).stored - b.stored + CutOff(b, now) == d / b.interval;
    } else {
      assert (b.stored - b.stored + 0.0) * b.interval == 0.0;
    }
  }

  lemma EarnedInTurn(a: Bucket, b: Bucket, c: Bucket, g: nat, h: nat, m: real, n: real)
    requires Earned(a, b, g, m) && Earned(b, c, h, n) && b.interval == a.interval
    ensures Earned(a, c, g + h, m + n)
  {
    Distribute(g as real + b.stored - a.stored + m, h as real + c.stored - b.stored + n, a.interval);
  }

  lemma EarnedNothing(b: Bucket)
    ensures Earned(b, b, 0, 0.0)
  {
    assert 0.0 + b.stored - b.stored + 0.0 == 0.0;
  }

  /**
   * The matching lower bound: over any run of reservations, whatever the clock
   * does, the permits granted and those still stored are at least those stored before and one per interval of the time
   * charged, less what the maximum cut off.
   */
  lemma {:induction false} IdleTimeIsEarned(b: Bucket, rs: seq<Request>)
    requires Valid(b)
    ensures Earned(b, AfterAll(b, rs), Granted(rs), CutOffAll(b, rs))
    decreases |rs|
  {
    hide Reserved, Resynced, Earned, Valid, CutOff;
    if rs == [] {
      EarnedNothing(b);
    } else {
      var r, rest := rs[0], rs[1..];
      var b1 := Reserved(b, r.permits, r.now);
      ReserveValid(b, r.permits, r.now);
      ReserveEarns(b, r.permits, r.now);
      IdleTimeIsEarned(b1, rest);
      PositiveInterval(b);
      EarnedInTurn(b, b1, AfterAll(b1, rest), r.permits, Granted(rest), CutOff(b, r.now), CutOffAll(b1, rest));
    }
  }

  lemma PositiveInterval(b: Bucket)
    requires Valid(b)
    ensures b.interval > 0.0
  {}
}
