/**
 * Transaction-id sets as lists of closed intervals: the merging sweep over two
 * lists one behind the other, and the subset test on merged lists.
 */
module GtidSets {
  const WORD: nat := 0x1_0000_0000_0000_0000

  datatype Range = Range(first: nat, last: nat)

  ghost predicate Has(rs: seq<Range>, x: nat) {
    exists i :: 0 <= i < |rs| && rs[i].first <= x <= rs[i].last
  }

  /** Ids start at one; a range that reaches the largest 64-bit number is treated on its own below. */
  predicate WellFormed(rs: seq<Range>) {
    forall i :: 0 <= i < |rs| ==> 1 <= rs[i].first <= rs[i].last < WORD
  }

  predicate Ascending(rs: seq<Range>) {
    forall i, j :: 0 <= i < j < |rs| ==> rs[i].first <= rs[j].first
  }

  predicate BelowTop(rs: seq<Range>) {
    forall i :: 0 <= i < |rs| ==> rs[i].last < WORD - 1
  }

  /** Sorted, disjoint and non-adjacent. */
  predicate Normal(rs: seq<Range>) {
    WellFormed(rs) && forall i, j :: 0 <= i < j < |rs| ==> rs[i].last + 1 < rs[j].first
  }

  function Max(a: nat, b: nat): nat { if a >= b then a else b }

  /** The sweep with an open range `[start, end]`; a start of zero means that none is open. */
  function Sweep(start: nat, end: nat, rs: seq<Range>): seq<Range>
    decreases |rs|
  {
    if rs == [] then (if start != 0 then [Range(start, end)] else [])
    else if start == 0 then Sweep(rs[0].first, rs[0].last, rs[1..])
    else if rs[0].first <= (end + 1) % WORD then Sweep(start, Max(end, rs[0].last), rs[1..])
    else [Range(start, end)] + Sweep(rs[0].first, rs[0].last, rs[1..])
  }

  function Merge(message: seq<Range>, target: seq<Range>): seq<Range> {
    Sweep(0, 0, message + target)
  }

  // ---------------------------------------------------------------- the message object

  class GtidMessage {
    var txnRange: seq<Range>

    constructor (ranges: seq<Range>)
      ensures txnRange == ranges
    {
      txnRange := ranges;
    }
  }

  /** Replaces the target's ranges; the message may be the target itself. */
  method MergeTxnRange(message: GtidMessage, target: GtidMessage)
    modifies target
    ensures target.txnRange == Merge(old(message.txnRange), old(target.txnRange))
  {
    var start: nat, end: nat := 0, 0;
    var merge: seq<Range> := [];
    var fullRange := message.txnRange + target.txnRange;
    var i := 0;
    while i < |fullRange|
      invariant i <= |fullRange|
      invariant merge + Sweep(start, end, fullRange[i..]) == Sweep(0, 0, fullRange)
      modifies {}
    {
      var range := fullRange[i];
      assert fullRange[i..][0] == range && fullRange[i..][1..] == fullRange[i + 1..];
      if start == 0 {
        start, end := range.first, range.last;
      } else {
        if range.first <= (end + 1) % WORD {
          end := Max(end, range.last);
        } else {
          merge := merge + [Range(start, end)];
          start, end := range.first, range.last;
        }
      }
      i := i + 1;
    }
    if start != 0 {
      merge := merge + [Range(start, end)];
    }
    target.txnRange := merge;
  }

  // ---------------------------------------------------------------- what the sweep denotes

  lemma HasCons(r: Range, rs: seq<Range>, x: nat)
    ensures Has([r] + rs, x) <==> r.first <= x <= r.last || Has(rs, x)
  {
    if r.first <= x <= r.last {
      assert ([r] + rs)[0] == r;
    }
    if Has(rs, x) {
      var i :| 0 <= i < |rs| && rs[i].first <= x <= rs[i].last;
      assert ([r] + rs)[i + 1] == rs[i];
    }
  }

  lemma HasConcat(a: seq<Range>, b: seq<Range>, x: nat)
    ensures Has(a + b, x) <==> Has(a, x) || Has(b, x)
  {
    if Has(a, x) {
      var i :| 0 <= i < |a| && a[i].first <= x <= a[i].last;
      assert (a + b)[i] == a[i];
    }
    if Has(b, x) {
      var i :| 0 <= i < |b| && b[i].first <= x <= b[i].last;
      assert (a + b)[|a| + i] == b[i];
    }
  }

  predicate Clean(rs: seq<Range>) {
    WellFormed(rs) && Ascending(rs) && BelowTop(rs)
  }

  lemma CleanTail(rs: seq<Range>, x: nat)
    requires Clean(rs) && |rs| > 0
    ensures Clean(rs[1..]) && (Has(rs[1..], x) ==> x >= rs[0].first)
    ensures 1 <= rs[0].first <= rs[0].last < WORD - 1
  {}

  lemma HasNothing(x: nat)
    ensures !Has([], x)
  {}

  lemma HasOne(r: Range, x: nat)
    ensures Has([r], x) <==> r.first <= x <= r.last
  {
    HasCons(r, [], x);
    assert [r] + [] == [r];
  }

  /** An ascending list swept into an open range: ids below the open start are dropped, all others are kept. */
  lemma {:induction false} SweepDenotes(start: nat, end: nat, rs: seq<Range>, x: nat)
    requires 1 <= start <= end < WORD - 1 && Clean(rs)
    ensures Has(Sweep(start, end, rs), x) <==> start <= x <= end || (Has(rs, x) && x >= start)
    decreases |rs|
  {
    hide Has, Clean;
    if rs == [] {
      HasOne(Range(start, end), x);
      HasNothing(x);
    } else {
      var r, rest := rs[0], rs[1..];
      CleanTail(rs, x);
      assert [r] + rest == rs;
      HasCons(r, rest, x);
      if r.first <= end + 1 {
        SweepDenotes(start, Max(end, r.last), rest, x);
      } else {
        SweepDenotes(r.first, r.last, rest, x);
        HasCons(Range(start, end), Sweep(r.first, r.last, rest), x);
      }
    }
  }

  lemma {:induction false} SweepNormal(start: nat, end: nat, rs: seq<Range>)
    requires 1 <= start <= end < WORD - 1 && Clean(rs)
    ensures Normal(Sweep(start, end, rs)) && BelowTop(Sweep(start, end, rs))
    ensures |Sweep(start, end, rs)| > 0 && Sweep(start, end, rs)[0].first == start
    decreases |rs|
  {
    hide Clean, Normal, BelowTop;
    if rs == [] {
      NormalOne(Range(start, end));
    } else {
      var r, rest := rs[0], rs[1..];
      CleanTail(rs, 0);
      if r.first <= end + 1 {
        SweepNormal(start, Max(end, r.last), rest);
      } else {
        SweepNormal(r.first, r.last, rest);
        NormalCons(Range(start, end), Sweep(r.first, r.last, rest));
      }
    }
  }

  lemma NormalOne(r: Range)
    requires 1 <= r.first <= r.last < WORD - 1
    ensures Normal([r]) && BelowTop([r])
  {}

  lemma NormalCons(r: Range, rs: seq<Range>)
    requires Normal(rs) && BelowTop(rs) && |rs| > 0
    requires 1 <= r.first <= r.last < WORD - 1 && r.last + 1 < rs[0].first
    ensures Normal([r] + rs) && BelowTop([r] + rs)
  {
    var all := [r] + rs;
    forall i, j | 0 <= i < j < |all|
      ensures all[i].last + 1 < all[j].first
    {
      assert all[j] == rs[j - 1];
      assert i > 0 ==> all[i] == rs[i - 1];
      assert j > 1 ==> rs[0].last + 1 < rs[j - 1].first;
    }
  }

  /** Sweeping one list and then another: the first list's last group is the range that stays open. */
  lemma {:induction false} SweepConcat(start: nat, end: nat, a: seq<Range>, b: seq<Range>)
    requires start >= 1 && WellFormed(a)
    ensures var s := Sweep(start, end, a);
            && |s| > 0
            && Sweep(start, end, a + b) == s[..|s| - 1] + Sweep(s[|s| - 1].first, s[|s| - 1].last, b)
    decreases |a|
  {
    hide Sweep, WellFormed;
    if a == [] {
      assert a + b == b;
      SweepNil(start, end);
    } else {
      var r, rest := a[0], a[1..];
      assert a == [r] + rest && a + b == [r] + (rest + b);
      WellFormedTail(a);
      SweepCons(start, end, r, rest);
      SweepCons(start, end, r, rest + b);
      if r.first <= (end + 1) % WORD {
        SweepConcat(start, Max(end, r.last), rest, b);
      } else {
        SweepConcat(r.first, r.last, rest, b);
        var s := Sweep(r.first, r.last, rest);
        LastBehind(Range(start, end), s, Sweep(s[|s| - 1].first, s[|s| - 1].last, b));
      }
    }
  }

  lemma WellFormedTail(a: seq<Range>)
    requires WellFormed(a) && |a| > 0
    ensures WellFormed(a[1..]) && 1 <= a[0].first <= a[0].last < WORD
  {}

  lemma SweepNil(start: nat, end: nat)
    requires start >= 1
    ensures Sweep(start, end, []) == [Range(start, end)]
  {}

  lemma SweepCons(start: nat, end: nat, r: Range, rest: seq<Range>)
    requires start >= 1
    ensures Sweep(start, end, [r] + rest)
         == if r.first <= (end + 1) % WORD then Sweep(start, Max(end, r.last), rest)
            else [Range(start, end)] + Sweep(r.first, r.last, rest)
  {
    assert ([r] + rest)[1..] == rest;
  }

  lemma LastBehind(r: Range, s: seq<Range>, t: seq<Range>)
    requires |s| > 0
    ensures var u := [r] + s; u[..|u| - 1] + t == [r] + (s[..|s| - 1] + t) && u[|u| - 1] == s[|s| - 1]
  {
    var u := [r] + s;
    assert u[..|u| - 1] == [r] + s[..|s| - 1];
  }

  /** The first id of the last group that an ascending list is merged into; zero for the empty list. */
  function LastGroup(a: seq<Range>): nat {
    var s := Sweep(0, 0, a);
    if s == [] then 0 else s[|s| - 1].first
  }

  /**
   * Merging ascending lists: the result is sorted, disjoint and non-adjacent. It denotes
   * the message's ids and those ids of the target that are not below the message's last group.
   */
  lemma MergeDenotes(a: seq<Range>, b: seq<Range>, x: nat)
    requires Clean(a) && Clean(b)
    ensures Normal(Merge(a, b))
    ensures Has(Merge(a, b), x) <==> Has(a, x) || (Has(b, x) && x >= LastGroup(a))
  {
    hide Has, Normal;
    if a == [] {
      assert a + b == b;
      MergeOne(b, x);
      HasNothing(x);
    } else {
      var r, rest := a[0], a[1..];
      assert (a + b)[1..] == rest + b;
      var s := Sweep(r.first, r.last, rest);
      SweepConcat(r.first, r.last, rest, b);
      MergeOne(a, x);
      var last := s[|s| - 1];
      LastOfNormal(s);
      SweepDenotes(last.first, last.last, b, x);
      SweepNormal(last.first, last.last, b);
      var t := Sweep(last.first, last.last, b);
      NormalConcat(s, t);
      HasConcat(s[..|s| - 1], t, x);
      HasConcat(s[..|s| - 1], [last], x);
      assert s[..|s| - 1] + [last] == s;
      HasOne(last, x);
    }
  }

  lemma MergeOne(a: seq<Range>, x: nat)
    requires Clean(a)
    ensures Normal(Sweep(0, 0, a)) && BelowTop(Sweep(0, 0, a))
    ensures Has(Sweep(0, 0, a), x) <==> Has(a, x)
  {
    if a != [] {
      var r, rest := a[0], a[1..];
      SweepDenotes(r.first, r.last, rest, x);
      SweepNormal(r.first, r.last, rest);
      assert [r] + rest == a;
      HasCons(r, rest, x);
    }
  }

  lemma LastOfNormal(s: seq<Range>)
    requires Normal(s) && BelowTop(s) && |s| > 0
    ensures 1 <= s[|s| - 1].first <= s[|s| - 1].last < WORD - 1
  {}

  /** A normal list whose last range is replaced by a normal list that starts in the same place. */
  lemma NormalConcat(s: seq<Range>, t: seq<Range>)
    requires Normal(s) && Normal(t) && |s| > 0 && |t| > 0 && t[0].first == s[|s| - 1].first
    ensures Normal(s[..|s| - 1] + t)
  {
    var n := |s| - 1;
    var all := s[..n] + t;
    forall i, j | 0 <= i < j < |all|
      ensures all[i].last + 1 < all[j].first
    {
      if i < n <= j {
        assert all[i] == s[i] && s[i].last + 1 < s[n].first;
        assert all[j] == t[j - n];
        assert j > n ==> t[0].last + 1 < t[j - n].first;
      }
    }
  }

  // ---------------------------------------------------------------- merging a list with itself

  /** Ranges that end at the largest 64-bit number. */
  function Tops(rs: seq<Range>): nat {
    if rs == [] then 0 else (if rs[0].last == WORD - 1 then 1 else 0) + Tops(rs[1..])
  }

  /** The successor of the largest number is zero, so the sweep never extends such a range. */
  lemma {:induction false} SweepKeepsTops(start: nat, end: nat, rs: seq<Range>)
    requires 1 <= start <= end < WORD && WellFormed(rs)
    ensures Tops(Sweep(start, end, rs)) == (if end == WORD - 1 then 1 else 0) + Tops(rs)
    decreases |rs|
  {
    if rs != [] {
      var r, rest := rs[0], rs[1..];
      if r.first <= (end + 1) % WORD {
        SweepKeepsTops(start, Max(end, r.last), rest);
      } else {
        SweepKeepsTops(r.first, r.last, rest);
        var s := Sweep(r.first, r.last, rest);
        assert ([Range(start, end)] + s)[1..] == s;
      }
    }
  }

  lemma {:induction false} TopsConcat(a: seq<Range>, b: seq<Range>)
    ensures Tops(a + b) == Tops(a) + Tops(b)
    decreases |a|
  {
    if a == [] {
      assert a + b == b;
    } else {
      assert (a + b)[1..] == a[1..] + b;
      TopsConcat(a[1..], b);
    }
  }

  lemma {:induction false} TopAt(rs: seq<Range>) returns (i: nat)
    requires Tops(rs) >= 1
    ensures i < |rs| && rs[i].last == WORD - 1
    ensures Tops(rs[i + 1..]) == Tops(rs) - 1
    decreases |rs|
  {
    if rs[0].last == WORD - 1 {
      i := 0;
    } else {
      i := TopAt(rs[1..]);
      assert rs[1..][i + 1..] == rs[i + 2..];
      i := i + 1;
    }
  }

  lemma {:induction false} NoTops(rs: seq<Range>)
    requires WellFormed(rs)
    ensures Tops(rs) == 0 <==> BelowTop(rs)
    decreases |rs|
  {
    if rs != [] {
      NoTops(rs[1..]);
      assert forall i :: 0 < i < |rs| ==> rs[i] == rs[1..][i - 1];
    }
  }

  lemma {:induction false} SweepWellFormed(start: nat, end: nat, rs: seq<Range>)
    requires 1 <= start <= end < WORD && WellFormed(rs)
    ensures WellFormed(Sweep(start, end, rs))
    decreases |rs|
  {
    if rs != [] {
      if rs[0].first <= (end + 1) % WORD {
        SweepWellFormed(start, Max(end, rs[0].last), rs[1..]);
      } else {
        SweepWellFormed(rs[0].first, rs[0].last, rs[1..]);
      }
    }
  }

  lemma TwoTopsOverlap(rs: seq<Range>)
    requires WellFormed(rs) && Tops(rs) >= 2
    ensures !Normal(rs)
  {
    var i := TopAt(rs);
    var j := TopAt(rs[i + 1..]);
    assert rs[i + 1 + j] == rs[i + 1..][j];
  }

  /** A sweep adds no id of its own. */
  lemma {:induction false} SweepOnly(start: nat, end: nat, rs: seq<Range>, x: nat)
    requires start >= 1 && WellFormed(rs) && Has(Sweep(start, end, rs), x)
    ensures start <= x <= end || Has(rs, x)
    decreases |rs|
  {
    hide Has, Sweep, WellFormed;
    if rs == [] {
      SweepNil(start, end);
      HasOne(Range(start, end), x);
    } else {
      var r, rest := rs[0], rs[1..];
      assert rs == [r] + rest;
      WellFormedTail(rs);
      SweepCons(start, end, r, rest);
      HasCons(r, rest, x);
      if r.first <= (end + 1) % WORD {
        SweepOnly(start, Max(end, r.last), rest, x);
      } else {
        HasCons(Range(start, end), Sweep(r.first, r.last, rest), x);
        if Has(Sweep(r.first, r.last, rest), x) {
          SweepOnly(r.first, r.last, rest, x);
        }
      }
    }
  }

  /** A sweep keeps the open range and the ids of an ascending list that begins no earlier, whatever follows. */
  lemma {:induction false} SweepKeeps(start: nat, end: nat, rs: seq<Range>, more: seq<Range>, x: nat)
    requires start >= 1 && WellFormed(rs) && WellFormed(more) && Ascending(rs) && (rs != [] ==> start <= rs[0].first)
    requires start <= x <= end || Has(rs, x)
    ensures Has(Sweep(start, end, rs + more), x)
    decreases |rs| + |more|
  {
    hide Has, Sweep, WellFormed, Ascending;
    if rs + more == [] {
      assert rs == [] && more == [];
      SweepNil(start, end);
      HasOne(Range(start, end), x);
      HasNothing(x);
    } else if rs == [] {
      assert rs + more == more;
      HasNothing(x);
      SweepKeepsOpen(start, end, more, x);
    } else {
      var r, rest := rs[0], rs[1..];
      assert rs == [r] + rest && rs + more == [r] + (rest + more);
      WellFormedTail(rs);
      SweepCons(start, end, r, rest + more);
      HasCons(r, rest, x);
      AscendingRest(rs);
      if r.first <= (end + 1) % WORD {
        SweepKeeps(start, Max(end, r.last), rest, more, x);
      } else {
        HasCons(Range(start, end), Sweep(r.first, r.last, rest + more), x);
        if r.first <= x <= r.last || Has(rest, x) {
          SweepKeeps(r.first, r.last, rest, more, x);
        }
      }
    }
  }

  lemma AscendingRest(rs: seq<Range>)
    requires Ascending(rs) && |rs| > 0
    ensures Ascending(rs[1..]) && (rs[1..] != [] ==> rs[0].first <= rs[1..][0].first)
  {}

  lemma {:induction false} SweepKeepsOpen(start: nat, end: nat, rs: seq<Range>, x: nat)
    requires 1 <= start <= x <= end && WellFormed(rs)
    ensures Has(Sweep(start, end, rs), x)
    decreases |rs|
  {
    hide Has, Sweep, WellFormed;
    if rs == [] {
      SweepNil(start, end);
      HasOne(Range(start, end), x);
    } else {
      var r, rest := rs[0], rs[1..];
      assert rs == [r] + rest;
      WellFormedTail(rs);
      SweepCons(start, end, r, rest);
      if r.first <= (end + 1) % WORD {
        SweepKeepsOpen(start, Max(end, r.last), rest, x);
      } else {
        HasCons(Range(start, end), Sweep(r.first, r.last, rest), x);
      }
    }
  }

  /** Parsing merges a list with itself. The ids of every ascending list stay exactly the same. */
  lemma {:induction false} SelfMergeKeepsIds(a: seq<Range>, x: nat)
    requires WellFormed(a) && Ascending(a)
    ensures Has(Merge(a, a), x) <==> Has(a, x)
  {
    hide Has, WellFormed, Ascending;
    if a == [] {
      assert a + a == a;
    } else {
      var r, rest := a[0], a[1..];
      assert [r] + rest == a && (a + a)[1..] == rest + a;
      assert Merge(a, a) == Sweep(r.first, r.last, rest + a);
      AscendingRest(a);
      WellFormedTail(a);
      WellFormedConcat(rest, a);
      HasCons(r, rest, x);
      HasConcat(rest, a, x);
      if Has(Merge(a, a), x) {
        SweepOnly(r.first, r.last, rest + a, x);
      }
      if Has(a, x) {
        SweepKeeps(r.first, r.last, rest, a, x);
      }
    }
  }

  lemma WellFormedConcat(a: seq<Range>, b: seq<Range>)
    requires WellFormed(a) && WellFormed(b)
    ensures WellFormed(a + b)
  {}

  /** The merged list is normal exactly when no range reaches the largest 64-bit number. */
  lemma SelfMergeNormal(a: seq<Range>)
    requires WellFormed(a) && Ascending(a)
    ensures Normal(Merge(a, a)) <==> BelowTop(a)
  {
    hide Has, Normal;
    NoTops(a);
    if BelowTop(a) {
      MergeDenotes(a, a, 0);
    } else {
      var r, rest := a[0], a[1..];
      assert (a + a)[1..] == rest + a;
      SweepKeepsTops(r.first, r.last, rest + a);
      TopsConcat(rest, a);
      SweepWellFormed(r.first, r.last, rest + a);
      TwoTopsOverlap(Merge(a, a));
    }
  }

  /** Merging is union exactly when the target has nothing new below the message's last group. */
  lemma MergeIsUnion(a: seq<Range>, b: seq<Range>)
    requires Clean(a) && Clean(b)
    ensures (forall x: nat :: Has(Merge(a, b), x) <==> Has(a, x) || Has(b, x))
       <==> (forall x: nat :: Has(b, x) && x < LastGroup(a) ==> Has(a, x))
  {
    hide Has, Normal, Merge, LastGroup;
    forall x: nat
      ensures Has(Merge(a, b), x) <==> Has(a, x) || (Has(b, x) && x >= LastGroup(a))
    {
      MergeDenotes(a, b, x);
    }
  }

  /** Two ascending lists whose merge is not their union. */
  lemma MergeDropsEarlierIds()
    ensures Merge([Range(5, 6)], [Range(1, 2)]) == [Range(5, 6)]
    ensures Has([Range(1, 2)], 1) && !Has(Merge([Range(5, 6)], [Range(1, 2)]), 1)
  {
    var a, b := Range(5, 6), Range(1, 2);
    assert Merge([a], [b]) == Sweep(5, 6, [b]) by { assert ([a] + [b])[1..] == [b]; }
    assert Sweep(5, 6, [b]) == Sweep(5, 6, []) by { assert [b][1..] == []; }
    assert [b][0].first <= 1 <= [b][0].last;
  }

  // ---------------------------------------------------------------- subset test

  /** Each range of the one lies within a single range of the other. */
  method IsSubset(sub: seq<Range>, target: seq<Range>) returns (yes: bool)
    requires WellFormed(sub) && Normal(target)
    ensures yes <==> forall x: nat :: Has(sub, x) ==> Has(target, x)
  {
    for k := 0 to |sub|
      invariant forall i :: 0 <= i < k ==> Covered(sub[i], target)
    {
      var found := false;
      for j := 0 to |target|
        invariant !found && forall i :: 0 <= i < j ==> !Inside(sub[k], target[i])
      {
        if sub[k].first >= target[j].first && sub[k].last <= target[j].last {
          found := true;
          break;
        }
      }
      if !found {
        NotCoveredIsMissing(sub[k], target);
        ghost var x :| sub[k].first <= x <= sub[k].last && !Has(target, x);
        assert Has(sub, x);
        return false;
      }
    }
    return true;
  }

  predicate Inside(r: Range, t: Range) { r.first >= t.first && r.last <= t.last }

  ghost predicate Covered(r: Range, target: seq<Range>) {
    exists i :: 0 <= i < |target| && Inside(r, target[i])
  }

  /** In a normal list no two ranges touch, so a range within the union lies within one of them. */
  lemma NotCoveredIsMissing(r: Range, target: seq<Range>)
    requires r.first <= r.last && Normal(target) && !Covered(r, target)
    ensures exists x: nat :: r.first <= x <= r.last && !Has(target, x)
  {
    if Has(target, r.first) {
      var i :| 0 <= i < |target| && target[i].first <= r.first <= target[i].last;
      assert !Inside(r, target[i]);
      var x := target[i].last + 1;
      forall j | 0 <= j < |target|
        ensures !(target[j].first <= x <= target[j].last)
      {}
      assert !Has(target, x);
    }
  }
}
