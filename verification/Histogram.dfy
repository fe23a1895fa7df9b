/** The load generator's latency histogram (bench/loadgen/histogram.cpp). */
module Histograms {
  import opened Ints
  import opened Spans

  const SUB: nat := 32
  const MAX_EXPONENT: nat := 40
  const BUCKETS: nat := 1280

  function Pow2(e: nat): (r: nat)
    ensures r > 0
  {
    if e == 0 then 1 else 2 * Pow2(e - 1)
  }

  const MAX_TRACKED: int := Pow2(MAX_EXPONENT) - 1

  /** The octave of v. */
  function HighestBit(v: nat): (e: nat)
    requires v >= 1
    ensures Pow2(e) <= v < 2 * Pow2(e)
  {
    if v == 1 then 0 else 1 + HighestBit(v / 2)
  }

  function BucketIndex(v: nat): nat
    requires v >= 1
  {
    var e := HighestBit(v);
    e * SUB + Slot(v - Pow2(e), Pow2(e))
  }

  /** The place of x within an octave of p values, on a scale of 32. */
  function Slot(x: nat, p: nat): nat
    requires p > 0
  {
    x * SUB / p
  }

  /** Where a slot begins in its octave. */
  function SlotStart(p: nat, sub: nat): nat { p * sub / SUB }

  function BucketLowerBound(b: nat): nat
  {
    var base := Pow2(b / SUB);
    base + SlotStart(base, b % SUB)
  }

  lemma {:induction false} Pow2Monotone(a: nat, b: nat)
    requires a <= b
    ensures Pow2(a) <= Pow2(b)
  {
    if a < b {
      Pow2Monotone(a, b - 1);
    }
  }

  lemma OctaveMonotone(v: nat, w: nat)
    requires 1 <= v <= w
    ensures HighestBit(v) <= HighestBit(w)
  {
    if HighestBit(v) > HighestBit(w) {
      Pow2Monotone(HighestBit(w) + 1, HighestBit(v));
      assert false;
    }
  }

  /** A sample's position in its octave: at most 32 slots, in order. */
  lemma SlotInRange(x: nat, p: nat)
    requires p > 0 && x < p
    ensures Slot(x, p) < SUB
  {
    DivBelow(x * SUB, p, SUB);
  }

  lemma DivBelow(a: nat, p: nat, k: nat)
    requires p > 0 && a < p * k
    ensures a / p < k
  {
    var q := a / p;
    assert a == q * p + a % p;
    if q >= k {
      MulMonotone(k, q, p);
      assert false;
    }
  }

  lemma DivMonotone(a: nat, b: nat, p: nat)
    requires p > 0 && a <= b
    ensures a / p <= b / p
  {
    var q := b / p;
    assert b == q * p + b % p;
    assert b < (q + 1) * p;
    DivBelow(a, p, q + 1);
  }

  /** Larger samples never land in an earlier bucket. */
  lemma IndexMonotone(v: nat, w: nat)
    requires 1 <= v <= w
    ensures BucketIndex(v) <= BucketIndex(w)
  {
    hide HighestBit, Slot, Pow2;
    OctaveMonotone(v, w);
    var e, f := HighestBit(v), HighestBit(w);
    SlotInRange(v - Pow2(e), Pow2(e));
    if e == f {
      SlotMonotone(v - Pow2(e), w - Pow2(e), Pow2(e));
    }
  }

  lemma SlotMonotone(x: nat, y: nat, p: nat)
    requires p > 0 && x <= y
    ensures Slot(x, p) <= Slot(y, p)
  {
    DivMonotone(x * SUB, y * SUB, p);
  }

  lemma IndexInRange(v: nat)
    requires 1 <= v <= MAX_TRACKED
    ensures BucketIndex(v) < BUCKETS
  {
    var e := HighestBit(v);
    if e >= MAX_EXPONENT {
      Pow2Monotone(MAX_EXPONENT, e);
      assert false;
    }
    SlotInRange(v - Pow2(e), Pow2(e));
  }

  lemma {:induction false} Pow2Add(a: nat, b: nat)
    ensures Pow2(a + b) == Pow2(a) * Pow2(b)
  {
    if b > 0 {
      Pow2Add(a, b - 1);
      assert a + b - 1 == a + (b - 1);
    }
  }

  lemma Pow2Five()
    ensures Pow2(5) == SUB
  {
    assert Pow2(2) == 4;
  }

  /** A bucket's lower bound is below its samples by less than a thirty-second of the sample. */
  lemma LowerBoundClose(v: nat)
    requires v >= 1
    ensures var lb := BucketLowerBound(BucketIndex(v)); lb <= v && 32 * (v - lb) < v
  {
    hide HighestBit, Slot, SlotStart, Pow2;
    var e := HighestBit(v);
    var x := v - Pow2(e);
    SlotInRange(x, Pow2(e));
    Position(e, Slot(x, Pow2(e)));
    OctaveClose(e, x);
  }

  lemma OctaveClose(e: nat, x: nat)
    requires x < Pow2(e)
    ensures var y := SlotStart(Pow2(e), Slot(x, Pow2(e))); y <= x && 32 * (x - y) < Pow2(e)
  {
    hide Slot, SlotStart, Pow2;
    Pow2Five();
    if e < 5 {
      Pow2Add(e, 5 - e);
      SmallOctave(x, Pow2(e), Pow2(5 - e));
    } else {
      Pow2Add(5, e - 5);
      LargeOctave(x, Pow2(e), Pow2(e - 5));
    }
  }

  lemma Position(e: nat, sub: nat)
    requires sub < SUB
    ensures (e * SUB + sub) / SUB == e && (e * SUB + sub) % SUB == sub
  {
  }

  /** With fewer than 32 values in the octave each has its own slot. */
  lemma SmallOctave(x: nat, p: nat, k: nat)
    requires p > 0 && x < p && p * k == SUB
    ensures SlotStart(p, Slot(x, p)) == x
  {
    ExactDiv(x * k, p);
    assert x * SUB == (x * k) * p by { Regroup(x, p, k); }
    ExactDiv(x, SUB);
    assert p * (x * k) == x * SUB by { Regroup(x, p, k); }
  }

  lemma Regroup(x: nat, p: nat, k: nat)
    ensures x * (p * k) == (x * k) * p && p * (x * k) == x * (p * k)
  {
  }

  lemma ExactDiv(a: nat, p: nat)
    requires p > 0
    ensures a * p / p == a
  {
    var q := a * p / p;
    assert a * p == q * p + (a * p) % p;
    if q < a {
      MulMonotone(q + 1, a, p);
    } else if q > a {
      MulMonotone(a + 1, q, p);
    }
  }

  /** Otherwise a slot is p/32 wide. */
  lemma LargeOctave(x: nat, p: nat, k: nat)
    requires k > 0 && x < p && p == SUB * k
    ensures var y := SlotStart(p, Slot(x, p)); y <= x && 32 * (x - y) < p
  {
    var sub := x * SUB / p;
    assert x * SUB == sub * p + x * SUB % p;
    assert p * sub == (k * sub) * SUB by { Regroup(sub, SUB, k); }
    ExactDiv(k * sub, SUB);
  }

  // Counting samples.

  ghost predicate Tracked(s: seq<int>)
  {
    forall i :: 0 <= i < |s| ==> 1 <= s[i] <= MAX_TRACKED
  }

  ghost function In(s: seq<int>, b: int): nat
    requires Tracked(s)
    decreases |s|
  {
    if s == [] then 0 else In(s[..|s| - 1], b) + if BucketIndex(s[|s| - 1]) == b then 1 else 0
  }

  ghost function UpTo(s: seq<int>, b: int): nat
    requires Tracked(s)
    decreases |s|
  {
    if s == [] then 0 else UpTo(s[..|s| - 1], b) + if BucketIndex(s[|s| - 1]) <= b then 1 else 0
  }

  lemma {:induction false} UpToNext(s: seq<int>, b: int)
    requires Tracked(s)
    ensures UpTo(s, b) == UpTo(s, b - 1) + In(s, b)
    decreases |s|
  {
    hide BucketIndex;
    if s != [] {
      UpToNext(s[..|s| - 1], b);
    }
  }

  lemma {:induction false} UpToEnds(s: seq<int>)
    requires Tracked(s)
    ensures UpTo(s, -1) == 0 && UpTo(s, BUCKETS - 1) == |s|
    decreases |s|
  {
    hide BucketIndex;
    if s != [] {
      UpToEnds(s[..|s| - 1]);
      IndexInRange(s[|s| - 1]);
    }
  }

  lemma {:induction false} UpToConcat(s: seq<int>, t: seq<int>, b: int)
    requires Tracked(s) && Tracked(t)
    ensures Tracked(s + t) && UpTo(s + t, b) == UpTo(s, b) + UpTo(t, b)
    decreases |t|
  {
    hide BucketIndex;
    if t == [] {
      assert s + t == s;
    } else {
      UpToConcat(s, t[..|t| - 1], b);
      assert (s + t)[..|s + t| - 1] == s + t[..|t| - 1];
    }
  }

  /** The counts do not depend on the order of the samples. */
  lemma {:induction false} UpToPermuted(s: seq<int>, t: seq<int>, b: int)
    requires Tracked(s) && Tracked(t) && multiset(s) == multiset(t)
    ensures UpTo(s, b) == UpTo(t, b)
    decreases |s|
  {
    hide BucketIndex;
    if s == [] {
      assert |multiset(t)| == 0;
      assert t == [];
    } else {
      var j := Partner(s, t);
      UpToPermuted(s[..|s| - 1], t[..j] + t[j + 1..], b);
      UpToWithout(t, j, b);
    }
  }

  lemma Partner(s: seq<int>, t: seq<int>) returns (j: nat)
    requires s != [] && multiset(s) == multiset(t)
    ensures j < |t| && t[j] == s[|s| - 1] && multiset(s[..|s| - 1]) == multiset(t[..j] + t[j + 1..])
  {
    var x := s[|s| - 1];
    assert x in multiset(s);
    assert x in multiset(t);
    j :| 0 <= j < |t| && t[j] == x;
    Without(t, j);
    LastOf(s);
    Cancel(multiset(s[..|s| - 1]), multiset(t[..j] + t[j + 1..]), multiset{x});
  }

  lemma LastOf(s: seq<int>)
    requires s != []
    ensures multiset(s) == multiset(s[..|s| - 1]) + multiset{s[|s| - 1]}
  {
    assert s == s[..|s| - 1] + [s[|s| - 1]];
  }

  lemma {:induction false} UpToWithout(t: seq<int>, j: nat, b: int)
    requires Tracked(t) && j < |t|
    ensures UpTo(t, b) == UpTo(t[..j] + t[j + 1..], b) + if BucketIndex(t[j]) <= b then 1 else 0
  {
    var u, v := t[..j], t[j + 1..];
    Without(t, j);
    UpToSnoc(u, t[j], b);
    hide BucketIndex, UpTo;
    UpToConcat(u, v, b);
    UpToConcat(u + [t[j]], v, b);
  }

  lemma {:induction false} UpToSnoc(s: seq<int>, x: int, b: int)
    requires Tracked(s) && 1 <= x <= MAX_TRACKED
    ensures Tracked(s + [x]) && UpTo(s + [x], b) == UpTo(s, b) + if BucketIndex(x) <= b then 1 else 0
  {
    hide BucketIndex;
    assert (s + [x])[..|s|] == s;
  }

  lemma Without(t: seq<int>, j: nat)
    requires j < |t|
    ensures t == t[..j] + [t[j]] + t[j + 1..]
    ensures multiset(t) == multiset(t[..j] + t[j + 1..]) + multiset{t[j]}
  {
    assert t == t[..j] + [t[j]] + t[j + 1..];
  }

  ghost predicate Sorted(s: seq<int>)
  {
    forall i, j :: 0 <= i < j < |s| ==> s[i] <= s[j]
  }

  /** In sorted order, the samples of buckets up to b come first. */
  lemma {:induction false} SortedSplit(s: seq<int>, b: int, i: nat)
    requires Tracked(s) && Sorted(s) && i < |s|
    ensures BucketIndex(s[i]) <= b <==> i < UpTo(s, b)
    decreases |s|
  {
    hide BucketIndex;
    var n := |s| - 1;
    var front := s[..n];
    UpToBound(front, b);
    if i < n {
      SortedSplit(front, b, i);
      assert front[i] == s[i];
      IndexMonotone(s[i], s[n]);
    } else if n > 0 {
      SortedSplit(front, b, n - 1);
      IndexMonotone(s[n - 1], s[n]);
    }
  }

  lemma {:induction false} UpToBound(s: seq<int>, b: int)
    requires Tracked(s)
    ensures UpTo(s, b) <= |s|
    decreases |s|
  {
    hide BucketIndex;
    if s != [] {
      UpToBound(s[..|s| - 1], b);
    }
  }

  function Clamp(v: int): (r: int)
    ensures 1 <= r <= MAX_TRACKED && (1 <= v <= MAX_TRACKED ==> r == v)
  {
    Pow2Monotone(1, MAX_EXPONENT);
    assert Pow2(1) == 2;
    if v < 1 then 1 else if v > MAX_TRACKED then MAX_TRACKED else v
  }

  ghost function Clamped(s: seq<int>): (r: seq<int>)
    ensures Tracked(r)
  {
    seq(|s|, i requires 0 <= i < |s| => Clamp(s[i]))
  }

  ghost function Sum(s: seq<int>): int
    decreases |s|
  {
    if s == [] then 0 else Sum(s[..|s| - 1]) + s[|s| - 1]
  }

  function Share(p: real, count: nat): real { p * (count as real) }

  lemma ShareBelow(p: real, count: nat)
    requires 0.0 < p < 1.0 && count > 0
    ensures 0.0 < Share(p, count) < count as real
  {
    assert (1.0 - p) * (count as real) > 0.0;
  }

  function Ceiling(x: real): (c: int)
    ensures x <= c as real < x + 1.0
  {
    if x.Floor as real == x then x.Floor else x.Floor + 1
  }

  /** What is asked of the rounding of p * count to a double: it stays between 0 and the count. */
  ghost predicate Rounds(round: real -> real, count: nat)
  {
    forall x: real :: 0.0 <= x <= count as real ==> 0.0 <= round(x) <= count as real
  }

  /** The rank a percentile asks for: the least one, and at least 1, with a share p of the samples up to it, as far as
      the rounding of that share tells. */
  function Target(p: real, count: nat, round: real -> real): (t: nat)
    requires 0.0 < p < 1.0 && count > 0 && Rounds(round, count)
    ensures 1 <= t <= count && round(Share(p, count)) <= t as real && (t == 1 || (t - 1) as real < round(Share(p, count)))
  {
    hide Share;
    ShareBelow(p, count);
    var c := Ceiling(round(Share(p, count)));
    if c < 1 then 1 else c
  }

  /** Without rounding no lower rank has the share. */
  lemma TargetExact(p: real, count: nat)
    requires 0.0 < p < 1.0 && count > 0
    ensures Rounds(x => x, count) && (Target(p, count, x => x) - 1) as real < p * (count as real) <= Target(p, count, x => x) as real
  {
    ShareBelow(p, count);
  }

  class LatencyHistogram {
    const buckets: array<nat>
    var count: nat
    var minUs: int
    var maxUs: int
    var sumUs: int
    /** Every recorded latency, in order. */
    ghost var samples: seq<int>

    ghost predicate Valid()
      reads this, buckets
    {
      && buckets.Length == BUCKETS
      && (forall b :: 0 <= b < BUCKETS ==> buckets[b] == In(Clamped(samples), b))
      && count == |samples| && sumUs == Sum(samples)
      && (count > 0 ==> minUs in samples && maxUs in samples && forall v :: v in samples ==> minUs <= v <= maxUs)
    }

    constructor ()
      ensures Valid() && samples == [] && fresh(buckets)
    {
      buckets := new nat[BUCKETS](_ => 0);
      count, minUs, maxUs, sumUs, samples := 0, 0, 0, 0, [];
    }

    method Record(v: int)
      requires Valid()
      modifies this, buckets
      ensures Valid() && samples == old(samples) + [v]
    {
      hide BucketIndex, Clamped, In;
      Stretch(v);
      sumUs, count := sumUs + v, count + 1;
      Bump(v);
      samples := samples + [v];
      assert samples[..|samples| - 1] == old(samples);
    }

    /** The extremes take in one more sample. */
    method Stretch(v: int)
      requires count == |samples|
      requires count > 0 ==> minUs in samples && maxUs in samples && forall u :: u in samples ==> minUs <= u <= maxUs
      modifies this`minUs, this`maxUs
      ensures var more := samples + [v]; minUs in more && maxUs in more && forall u :: u in more ==> minUs <= u <= maxUs
    {
      if count == 0 || v < minUs {
        minUs := v;
      }
      if count == 0 || v > maxUs {
        maxUs := v;
      }
    }

    method Bump(v: int)
      requires buckets.Length == BUCKETS && forall b :: 0 <= b < BUCKETS ==> buckets[b] == In(Clamped(samples), b)
      modifies buckets
      ensures forall b :: 0 <= b < BUCKETS ==> buckets[b] == In(Clamped(samples + [v]), b)
    {
      hide BucketIndex, Clamp;
      IndexInRange(Clamp(v));
      var b := BucketIndex(Clamp(v));
      assert Clamped(samples + [v])[..|samples|] == Clamped(samples);
      buckets[b] := buckets[b] + 1;
    }

    /** The estimate for a rank: the lower bound of the bucket holding the sample of that rank. */
    method AtRank(target: nat) returns (lb: int)
      requires Valid() && 1 <= target <= count
      ensures forall s: seq<int> | multiset(s) == multiset(Clamped(samples)) && Sorted(s) ::
                |s| == count && lb <= s[target - 1] && 32 * (s[target - 1] - lb) < s[target - 1]
    {
      hide BucketIndex, BucketLowerBound, In, UpTo, Sorted;
      ghost var all := Clamped(samples);
      UpToEnds(all);
      var cumulative := 0;
      for b := 0 to BUCKETS
        invariant cumulative == UpTo(all, b - 1) < target
      {
        UpToNext(all, b);
        cumulative := cumulative + buckets[b];
        if cumulative >= target {
          forall s: seq<int> | multiset(s) == multiset(all) && Sorted(s)
            ensures |s| == count && BucketLowerBound(b) <= s[target - 1]
            ensures 32 * (s[target - 1] - BucketLowerBound(b)) < s[target - 1]
          {
            RankInBucket(all, s, target, b);
          }
          return BucketLowerBound(b);
        }
      }
      assert false;
    }

    /** No samples: 0. The ends are exact; in between, within one part in 32 of the sample of the asked rank. */
    method Percentile(p: real, round: real -> real) returns (r: int)
      requires Valid() && Rounds(round, count)
      ensures count == 0 ==> r == 0
      ensures count > 0 && p <= 0.0 ==> r in samples && forall v :: v in samples ==> r <= v
      ensures count > 0 && p >= 1.0 ==> r in samples && forall v :: v in samples ==> v <= r
      ensures count > 0 && 0.0 < p < 1.0 ==>
                forall s: seq<int> | multiset(s) == multiset(Clamped(samples)) && Sorted(s) ::
                  var x := Target(p, count, round) - 1;
                  |s| == count && r <= s[x] && 32 * (s[x] - r) < s[x]
    {
      hide Sorted, Clamped, In;
      if count == 0 {
        return 0;
      }
      if p <= 0.0 {
        return minUs;
      }
      if p >= 1.0 {
        return maxUs;
      }
      r := AtRank(Target(p, count, round));
    }
  }

  /** The sample of rank `target` lies in the first bucket whose running total reaches it. */
  lemma RankInBucket(all: seq<int>, s: seq<int>, target: nat, b: nat)
    requires Tracked(all) && multiset(s) == multiset(all) && Sorted(s) && 1 <= target <= |all|
    requires UpTo(all, b - 1) < target <= UpTo(all, b)
    ensures |s| == |all| && s[target - 1] >= 1 && BucketLowerBound(b) <= s[target - 1]
    ensures 32 * (s[target - 1] - BucketLowerBound(b)) < s[target - 1]
  {
    hide BucketIndex, BucketLowerBound;
    assert |multiset(s)| == |s| && |multiset(all)| == |all|;
    forall i | 0 <= i < |s| ensures 1 <= s[i] <= MAX_TRACKED {
      assert s[i] in multiset(all);
    }
    UpToPermuted(all, s, b);
    UpToPermuted(all, s, b - 1);
    SortedSplit(s, b, target - 1);
    SortedSplit(s, b - 1, target - 1);
    LowerBoundClose(s[target - 1]);
  }
}
