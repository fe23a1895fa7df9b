/** What the order of a sorted set and the answers of its range commands mean, in terms of numbers and positions. */
module ZLaws {
  import opened ByteStrings
  import opened ScoreOrder
  import opened ZSets
  import opened ZRanges
  import opened ZPops

  // The order.

  /** Scores as the numbers they are. */
  lemma ScoreNumeric(a: Score, b: Score)
    ensures a.Fin? && b.Fin? ==> (ScoreLess(a, b) <==> a.x < b.x)
    ensures a.NegInf? ==> (ScoreLess(a, b) <==> b.Fin? || b.PosInf?)
    ensures a.PosInf? ==> !ScoreLess(a, b)
    ensures b.NegInf? ==> !ScoreLess(a, b)
    ensures b.PosInf? ==> (ScoreLess(a, b) <==> a.Fin? || a.NegInf?)
  {
  }

  /** At index i the strings first differ: there a ends, or has the smaller byte. */
  ghost predicate DiffersAt(a: Bytes, b: Bytes, i: int)
  {
    0 <= i <= |a| && i < |b| && (forall j :: 0 <= j < i ==> a[j] == b[j]) && (i == |a| || a[i] < b[i])
  }

  /** Members compare byte by byte, a prefix first. */
  lemma {:induction false} BytesNumeric(a: Bytes, b: Bytes)
    ensures BytesLess(a, b) <==> exists i :: DiffersAt(a, b, i)
    decreases |b|
  {
    if b != [] && a != [] && a[0] == b[0] {
      var p, q := a[1..], b[1..];
      BytesNumeric(p, q);
      if BytesLess(p, q) {
        var i :| DiffersAt(p, q, i);
        DiffersShift(a, b, i);
      }
      if i :| DiffersAt(a, b, i) {
        DiffersShift(a, b, i - 1);
      }
    } else if b != [] && (a == [] || a[0] < b[0]) {
      assert DiffersAt(a, b, 0);
    }
  }

  lemma {:induction false} DiffersShift(a: Bytes, b: Bytes, i: int)
    requires a != [] && b != [] && a[0] == b[0]
    ensures DiffersAt(a[1..], b[1..], i) <==> i >= 0 && DiffersAt(a, b, i + 1)
  {
    var p, q := a[1..], b[1..];
    if DiffersAt(p, q, i) {
      forall j | 0 <= j < i + 1 ensures a[j] == b[j] {
        assert j > 0 ==> p[j - 1] == q[j - 1];
      }
    }
    if i >= 0 && DiffersAt(a, b, i + 1) {
      forall j | 0 <= j < i ensures p[j] == q[j] {
        assert a[j + 1] == b[j + 1];
      }
    }
  }

  /** The listing of every sorted set: numerically ascending scores, -inf first and +inf last, and members of equal score
      in byte order. */
  lemma {:induction false} SortedNumerically(z: ZSet, i: nat, j: nat)
    requires z.Valid() && i < j < |z.Sorted()|
    ensures var a, b := z.Sorted()[i], z.Sorted()[j];
            && (a.score.Fin? && b.score.Fin? ==> a.score.x <= b.score.x)
            && (b.score.NegInf? ==> a.score.NegInf?) && (a.score.PosInf? ==> b.score.PosInf?)
            && (a.score == b.score ==> exists k :: DiffersAt(a.member, b.member, k))
  {
    ListingOf(z);
    var a, b := z.Sorted()[i], z.Sorted()[j];
    BytesNumeric(a.member, b.member);
  }

  // Ranges of scores.

  /** A member is in range exactly if its score is, as a number: ends included unless marked, -inf and +inf unbounded. */
  lemma RangeNumeric(e: Scored, min: ScoreBound, max: ScoreBound)
    requires e.score.Fin?
    ensures InRange(e, min, max) <==>
            && (min.value.NegInf? || (min.value.Fin? && (min.value.x < e.score.x || (min.value.x == e.score.x && !min.exclusive))))
            && (max.value.PosInf? || (max.value.Fin? && (e.score.x < max.value.x || (e.score.x == max.value.x && !max.exclusive))))
  {
  }

  /** Infinite scores are in range exactly at a bound that is the same infinity and includes it. */
  lemma RangeInfinite(e: Scored, min: ScoreBound, max: ScoreBound)
    ensures e.score.NegInf? ==> (InRange(e, min, max) <==> min.value.NegInf? && !min.exclusive && !(max.value.NegInf? && max.exclusive))
    ensures e.score.PosInf? ==> (InRange(e, min, max) <==> max.value.PosInf? && !max.exclusive && !(min.value.PosInf? && min.exclusive))
  {
  }

  /** The positions in range. */
  ghost function PositionsIn(s: seq<Scored>, n: nat, min: ScoreBound, max: ScoreBound): set<int>
    requires n <= |s|
  {
    set i | 0 <= i < n && InRange(s[i], min, max)
  }

  /** ZCOUNT counts each position in range once. */
  lemma {:induction false} CountPositions(s: seq<Scored>, n: nat, min: ScoreBound, max: ScoreBound)
    requires n <= |s|
    ensures |MatchingTo(s, n, min, max)| == |PositionsIn(s, n, min, max)|
  {
    if n > 0 {
      CountPositions(s, n - 1, min, max);
      var before, now := PositionsIn(s, n - 1, min, max), PositionsIn(s, n, min, max);
      if InRange(s[n - 1], min, max) {
        assert now == before + {n - 1};
      } else {
        assert now == before;
      }
    } else {
      assert PositionsIn(s, 0, min, max) == {};
    }
  }

  /** A range is one run of the listing: the members from some position up to another are in it and no others. */
  lemma {:induction false} RangeIsSlice(z: ZSet, min: ScoreBound, max: ScoreBound) returns (i: nat, j: nat)
    requires z.Valid()
    ensures i <= j <= |z.Sorted()| && Matching(z.Sorted(), min, max) == z.Sorted()[i..j]
    ensures forall k :: 0 <= k < |z.Sorted()| ==> (InRange(z.Sorted()[k], min, max) <==> i <= k < j)
  {
    SortedScores(z);
    i, j := SliceOf(z.Sorted(), min, max);
  }

  lemma {:induction false} SliceOf(s: seq<Scored>, min: ScoreBound, max: ScoreBound) returns (i: nat, j: nat)
    requires ScoresAscend(s)
    ensures i <= j <= |s| && Matching(s, min, max) == s[i..j]
    ensures forall k :: 0 <= k < |s| ==> (InRange(s[k], min, max) <==> i <= k < j)
  {
    i, j := 0, |s|;
    while i < |s| && !AboveMin(s[i].score, min)
      invariant i <= |s| && forall k :: 0 <= k < i ==> !AboveMin(s[k].score, min)
    {
      i := i + 1;
    }
    while j > i && !BelowMax(s[j - 1].score, max)
      invariant i <= j <= |s| && forall k :: j <= k < |s| ==> !BelowMax(s[k].score, max)
    {
      j := j - 1;
    }
    forall k | i <= k < j ensures InRange(s[k], min, max) {
      assert k == i || !ScoreLess(s[k].score, s[i].score);
      assert k == j - 1 || !ScoreLess(s[j - 1].score, s[k].score);
    }
    MatchingSlice(s, i, j, min, max);
  }

  /** LIMIT: from the offset, at most count of them; a negative offset is 0, a negative count no limit. */
  lemma LimitLaws(s: seq<Scored>, offset: int, count: int)
    ensures 0 <= offset <= |s| && 0 <= count <= |s| - offset ==> Limited(s, offset, count) == s[offset..offset + count]
    ensures 0 <= offset <= |s| && (count < 0 || count > |s| - offset) ==> Limited(s, offset, count) == s[offset..]
    ensures offset < 0 ==> Limited(s, offset, count) == Limited(s, 0, count)
    ensures offset > |s| ==> Limited(s, offset, count) == []
  {
  }

  // Windows of positions.

  /** ZRANGE between two positions: both included. */
  lemma WindowInside(s: seq<Scored>, a: int, b: int)
    requires 0 <= a <= b < |s|
    ensures Window(s, a, b) == s[a..b + 1]
  {
  }

  /** Negative indices count from the end. */
  lemma WindowNegative(s: seq<Scored>, a: int, b: int)
    ensures -|s| <= a < 0 ==> Window(s, a, b) == Window(s, a + |s|, b)
    ensures -|s| <= b < 0 ==> Window(s, a, b) == Window(s, a, b + |s|)
  {
  }

  /** Indices past either end: a start before the first is the first, a stop after the last is the last; nothing lies
      after the last or before the first. */
  lemma WindowOutside(s: seq<Scored>, a: int, b: int)
    ensures a < -|s| ==> Window(s, a, b) == Window(s, 0, b)
    ensures b >= |s| > 0 ==> Window(s, a, b) == Window(s, a, |s| - 1)
    ensures a >= |s| || b < -|s| ==> Window(s, a, b) == []
    ensures 0 <= b < a < |s| ==> Window(s, a, b) == []
  {
  }

  /** ZREVRANGE: position i from the end; a window of the reverse is the reverse of the mirrored window. */
  lemma WindowReversed(s: seq<Scored>, a: int, b: int)
    requires 0 <= a <= b < |s|
    ensures |Window(Reversed(s), a, b)| == b - a + 1
    ensures forall i :: 0 <= i <= b - a ==> Window(Reversed(s), a, b)[i] == s[|s| - 1 - (a + i)]
    ensures Window(Reversed(s), a, b) == Reversed(s[|s| - 1 - b..|s| - a])
  {
  }
}
