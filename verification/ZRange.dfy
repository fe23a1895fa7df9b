/** Range and count commands over a sorted set (src/commands/cmd_zset.cpp). */
module ZRanges {
  import opened Options
  import opened AvlShapes
  import opened AvlLinks
  import opened AvlTrees
  import opened ByteStrings
  import opened HashTables
  import opened ScoreOrder
  import opened ZSets
  import Q = AvlQueries

  datatype ScoreBound = ScoreBound(value: Score, exclusive: bool)

  predicate AboveMin(x: Score, b: ScoreBound)
  {
    if b.exclusive then ScoreLess(b.value, x) else !ScoreLess(x, b.value)
  }

  predicate BelowMax(x: Score, b: ScoreBound)
  {
    if b.exclusive then ScoreLess(x, b.value) else !ScoreLess(b.value, x)
  }

  predicate InRange(e: Scored, min: ScoreBound, max: ScoreBound)
  {
    AboveMin(e.score, min) && BelowMax(e.score, max)
  }

  /** Among the first n members, those whose score lies in the range, in order. */
  function MatchingTo(s: seq<Scored>, n: nat, min: ScoreBound, max: ScoreBound): seq<Scored>
    requires n <= |s|
  {
    if n == 0 then []
    else MatchingTo(s, n - 1, min, max) + if InRange(s[n - 1], min, max) then [s[n - 1]] else []
  }

  /** The members in range: what the commands are about. */
  function Matching(s: seq<Scored>, min: ScoreBound, max: ScoreBound): seq<Scored>
  {
    MatchingTo(s, |s|, min, max)
  }

  /** LIMIT offset count: a negative offset is 0, a negative count means all. */
  function Limited(s: seq<Scored>, offset: int, count: int): seq<Scored>
  {
    var o := if offset < 0 then 0 else if offset < |s| then offset else |s|;
    var c := |s| - o;
    var c' := if 0 <= count < c then count else c;
    s[o..o + c']
  }

  /** A negative index counts from the end. */
  function Resolve(idx: int, len: nat): int { if idx < 0 then idx + len else idx }

  function ClampStart(start: int, len: nat): nat { if Resolve(start, len) < 0 then 0 else Resolve(start, len) }

  function ClampStop(stop: int, len: nat): int { if Resolve(stop, len) >= len then len - 1 else Resolve(stop, len) }

  /** ZRANGE start stop: both ends clamped, stop included. */
  function Window(s: seq<Scored>, start: int, stop: int): seq<Scored>
  {
    var a, b := ClampStart(start, |s|), ClampStop(stop, |s|);
    if a > b then [] else s[a..b + 1]
  }

  function Reversed(s: seq<Scored>): seq<Scored>
  {
    seq(|s|, i requires 0 <= i < |s| => s[|s| - 1 - i])
  }

  /** Ascending members have non-descending scores. */
  ghost predicate ScoresAscend(s: seq<Scored>)
  {
    forall i, j :: 0 <= i < j < |s| ==> !ScoreLess(s[j].score, s[i].score)
  }

  /** Members out of range add nothing. */
  lemma {:induction false} MatchingSkip(s: seq<Scored>, i: nat, j: nat, min: ScoreBound, max: ScoreBound)
    requires i <= j <= |s| && forall k :: i <= k < j ==> !InRange(s[k], min, max)
    ensures MatchingTo(s, j, min, max) == MatchingTo(s, i, min, max)
    decreases j
  {
    if i < j {
      MatchingSkip(s, i, j - 1, min, max);
    }
  }

  /** Members in range are all kept. */
  lemma {:induction false} MatchingTake(s: seq<Scored>, i: nat, j: nat, min: ScoreBound, max: ScoreBound)
    requires i <= j <= |s| && forall k :: i <= k < j ==> InRange(s[k], min, max)
    ensures MatchingTo(s, j, min, max) == MatchingTo(s, i, min, max) + s[i..j]
    decreases j
  {
    if i < j {
      MatchingTake(s, i, j - 1, min, max);
      assert s[i..j] == s[i..j - 1] + [s[j - 1]];
    }
  }

  /** When the range is exactly the positions from i to j, the matching members are that slice. */
  lemma MatchingSlice(s: seq<Scored>, i: nat, j: nat, min: ScoreBound, max: ScoreBound)
    requires i <= |s| && j <= |s| && forall k :: 0 <= k < |s| ==> (InRange(s[k], min, max) <==> i <= k < j)
    ensures Matching(s, min, max) == if i < j then s[i..j] else []
  {
    if i < j {
      MatchingSkip(s, 0, i, min, max);
      MatchingTake(s, i, j, min, max);
      MatchingSkip(s, j, |s|, min, max);
    } else {
      MatchingSkip(s, 0, |s|, min, max);
    }
  }

  /** Which condition marks the first member counted, and the first one past the range. */
  lemma SplitPoints(s: seq<Scored>, min: ScoreBound, max: ScoreBound, i: nat, j: nat)
    requires i <= |s| && j <= |s|
    requires forall k :: 0 <= k < |s| ==> (AboveMin(s[k].score, min) <==> i <= k)
    requires forall k :: 0 <= k < |s| ==> (!BelowMax(s[k].score, max) <==> j <= k)
    ensures Matching(s, min, max) == if i < j then s[i..j] else []
  {
    MatchingSlice(s, i, j, min, max);
  }

  lemma SortedScores(z: ZSet)
    requires z.Valid()
    ensures ScoresAscend(z.Sorted())
  {
  }

  /** tree_root: from the smallest node up the parent links. */
  method TreeRoot(tree: AvlTree<Scored>) returns (r: Ref)
    requires tree.Structure()
    ensures r == tree.root
  {
    LinkedCell(tree.cells, tree.shape, NULL);
    r := Q.Select(tree, 0);
    if tree.count == 0 {
      return NULL;
    }
    InorderSize(tree.shape);
    InorderNodes(tree.shape, r);
    ghost var c, u := FindNode(Top, tree.shape, r);
    Q.ParentLink(tree.cells, c, u);
    while tree.cells[r].parent != NULL
      invariant Plug(c, u) == tree.shape && u.T? && r == u.n && r in tree.cells
      invariant tree.cells[r].parent == Owner(c, NULL) && (Owner(c, NULL) == NULL <==> c.Top?)
      decreases c
    {
      u, c := Join(c, u), c.up;
      r := tree.cells[r].parent;
      Q.ParentLink(tree.cells, c, u);
    }
  }

  function ScoreAbove(score: Score): Scored -> bool
  {
    (e: Scored) => ScoreLess(score, e.score)
  }

  lemma AboveUpward(keys: map<Ref, Scored>, s: seq<Ref>, score: Score)
    requires forall i :: 0 <= i < |s| ==> s[i] in keys
    requires ScoresAscend(KeysOf(keys, s))
    ensures Q.Upward(ScoreAbove(score), keys, s)
  {
    var r := KeysOf(keys, s);
    forall i, j | 0 <= i < j < |s| && ScoreAbove(score)(keys[s[i]]) ensures ScoreAbove(score)(keys[s[j]]) {
      assert r[i] == keys[s[i]] && r[j] == keys[s[j]];
    }
  }

  /** First node with score above `score`, whatever its member. */
  method FirstAbove(z: ZSet, root: Ref, score: Score) returns (x: Ref, ghost i: nat)
    requires z.Valid() && root == z.tree.root
    ensures i <= |z.Sorted()| && x == Q.NodeAt(Inorder(z.tree.shape), i)
    ensures forall k :: 0 <= k < |z.Sorted()| ==> (ScoreLess(score, z.Sorted()[k].score) <==> i <= k)
    ensures Q.IsFirst(z.tree, ScoreAbove(score), x)
  {
    SortedScores(z);
    AboveUpward(z.tree.keys, Inorder(z.tree.shape), score);
    x, i := Q.FirstWhere(z.tree, root, ScoreAbove(score));
    AboveSplit(z.tree.keys, Inorder(z.tree.shape), score, i);
  }

  lemma AboveSplit(keys: map<Ref, Scored>, s: seq<Ref>, score: Score, i: nat)
    requires i <= |s| && forall k :: 0 <= k < |s| ==> s[k] in keys
    requires Q.None(ScoreAbove(score), keys, s[..i]) && Q.All(ScoreAbove(score), keys, s[i..])
    ensures forall k :: 0 <= k < |s| ==> (ScoreLess(score, KeysOf(keys, s)[k].score) <==> i <= k)
  {
    forall k | 0 <= k < |s| ensures ScoreLess(score, keys[s[k]].score) <==> i <= k {
      if k < i { assert s[..i][k] == s[k]; } else { assert s[i..][k - i] == s[k]; }
    }
  }

  /** lower_bound of (score, ""): first node with score at or above `score`, because no member precedes "". */
  method FirstAtLeast(z: ZSet, score: Score) returns (x: Ref, ghost i: nat)
    requires z.Valid()
    ensures i <= |z.Sorted()| && x == Q.NodeAt(Inorder(z.tree.shape), i)
    ensures forall k :: 0 <= k < |z.Sorted()| ==> (!ScoreLess(z.Sorted()[k].score, score) <==> i <= k)
  {
    x, i := Q.LowerBound(z.tree, Scored(score, []));
    ghost var s := Inorder(z.tree.shape);
    assert forall k :: 0 <= k < i ==> s[k] == s[..i][k];
  }

  /** ZCOUNT: the difference of two ranks is the number of members in range, also when min exceeds max. */
  method ZCount(z: ZSet, min: ScoreBound, max: ScoreBound) returns (n: nat)
    requires z.Valid()
    ensures n == |Matching(z.Sorted(), min, max)|
  {
    var root := TreeRoot(z.tree);
    var rankLo := FirstCounted(z, root, min);
    var rankHi := FirstPast(z, root, max);
    SplitPoints(z.Sorted(), min, max, rankLo, rankHi);
    n := if rankHi > rankLo then rankHi - rankLo else 0;
  }

  method FirstCounted(z: ZSet, root: Ref, min: ScoreBound) returns (r: nat)
    requires z.Valid() && root == z.tree.root
    ensures r <= |z.Sorted()| && forall k :: 0 <= k < |z.Sorted()| ==> (AboveMin(z.Sorted()[k].score, min) <==> r <= k)
  {
    var lo;
    ghost var i;
    if min.exclusive {
      lo, i := FirstAbove(z, root, min.value);
    } else {
      lo, i := FirstAtLeast(z, min.value);
    }
    r := RankOrSize(z, lo, i);
  }

  method FirstPast(z: ZSet, root: Ref, max: ScoreBound) returns (r: nat)
    requires z.Valid() && root == z.tree.root
    ensures r <= |z.Sorted()| && forall k :: 0 <= k < |z.Sorted()| ==> (!BelowMax(z.Sorted()[k].score, max) <==> r <= k)
  {
    var hi;
    ghost var i;
    if max.exclusive {
      hi, i := FirstAtLeast(z, max.value);
    } else {
      hi, i := FirstAbove(z, root, max.value);
    }
    r := RankOrSize(z, hi, i);
  }

  method RankOrSize(z: ZSet, x: Ref, ghost i: nat) returns (r: nat)
    requires z.Valid() && i <= |z.Sorted()| && x == Q.NodeAt(Inorder(z.tree.shape), i)
    ensures r == i
  {
    z.SizesAgree();
    if i < |z.Sorted()| { Q.NotNull(z.tree, i); }
    if x == NULL {
      r := z.dict.Size();
    } else {
      r := Q.Rank(z.tree, x);
    }
  }

  /** ZRANK: a member's position in the listing. */
  method ZRank(z: ZSet, member: Bytes) returns (r: Option<nat>)
    requires z.Valid()
    modifies z.dict
    ensures z.Valid() && z.Sorted() == old(z.Sorted()) && z.Scores() == old(z.Scores())
    ensures r.None? <==> member !in z.Scores()
    ensures r.Some? ==> r.value < |z.Sorted()| && z.Sorted()[r.value] == Scored(z.Scores()[member], member)
  {
    hide HashTable.Valid;
    var existing := z.dict.Find(member);
    if existing.None? {
      return None;
    }
    var i := Q.Rank(z.tree, existing.value);
    r := Some(i);
  }

  /** s lists the members of the tree in order. */
  ghost predicate Lists(tree: AvlTree<Scored>, s: seq<Scored>)
    reads tree
  {
    && |s| == |Inorder(tree.shape)|
    && forall k :: 0 <= k < |s| ==> Inorder(tree.shape)[k] in tree.keys && s[k] == tree.keys[Inorder(tree.shape)[k]]
  }

  /** ZRANGEBYSCORE: the members in range, in order, cut to the LIMIT window. */
  method ZRangeByScore(z: ZSet, min: ScoreBound, max: ScoreBound, offset: int, count: int) returns (out: seq<Scored>)
    requires z.Valid()
    ensures out == Limited(Matching(z.Sorted(), min, max), offset, count)
  {
    var n;
    ghost var i;
    n, i := FirstAtLeast(z, min.value);
    SortedScores(z);
    AtEnd(z.tree, n, i);
    var matched := Walk(z.tree, n, i, z.Sorted(), min, max);
    out := Cut(matched, offset, count);
  }

  /** Walks from the first candidate with next() and stops past max. */
  method Walk(tree: AvlTree<Scored>, start: Ref, ghost lo: nat, ghost s: seq<Scored>, min: ScoreBound, max: ScoreBound)
    returns (matched: seq<Scored>)
    requires tree.Structure() && Lists(tree, s) && lo <= |s| && start == Q.NodeAt(Inorder(tree.shape), lo)
    requires start == NULL <==> lo == |s|
    requires forall k :: 0 <= k < |s| ==> (!ScoreLess(s[k].score, min.value) <==> lo <= k)
    requires ScoresAscend(s)
    ensures matched == Matching(s, min, max)
  {
    hide AvlTree.Structure, Lists;
    var n := start;
    ghost var i := lo;
    matched := [];
    MatchingSkip(s, 0, lo, min, max);
    while n != NULL
      invariant lo <= i <= |s| && n == Q.NodeAt(Inorder(tree.shape), i) && matched == MatchingTo(s, i, min, max)
      invariant n == NULL <==> i == |s|
      decreases |s| - i
    {
      var e, next := Visit(tree, n, i, s);
      if ScoreLess(max.value, e.score) || (e.score == max.value && max.exclusive) {
        break;
      }
      if !(min.exclusive && e.score == min.value) {
        matched := matched + [e];
      }
      n := next;
      i := i + 1;
    }
    MatchingSkip(s, i, |s|, min, max);
  }

  /** Reading the i-th member through its node, and stepping to the next. */
  method Visit(tree: AvlTree<Scored>, n: Ref, ghost i: nat, ghost s: seq<Scored>) returns (e: Scored, next: Ref)
    requires tree.Structure() && Lists(tree, s) && i < |s| && n == Q.NodeAt(Inorder(tree.shape), i)
    ensures e == s[i] && next == Q.NodeAt(Inorder(tree.shape), i + 1) && (next == NULL <==> i + 1 == |s|)
  {
    e := tree.keys[n];
    next := Q.NextAt(tree, n, i);
    AtEnd(tree, next, i + 1);
  }

  lemma AtEnd(tree: AvlTree<Scored>, n: Ref, i: nat)
    requires tree.Structure() && i <= |Inorder(tree.shape)| && n == Q.NodeAt(Inorder(tree.shape), i)
    ensures n == NULL <==> i == |Inorder(tree.shape)|
  {
    if i < |Inorder(tree.shape)| { Q.NotNull(tree, i); }
  }

  method Cut(matched: seq<Scored>, offset: int, count: int) returns (out: seq<Scored>)
    ensures out == Limited(matched, offset, count)
  {
    var o := if offset < 0 then 0 else if offset < |matched| then offset else |matched|;
    var c := |matched| - o;
    if count >= 0 && count < c {
      c := count;
    }
    out := [];
    for j := o to o + c
      invariant out == matched[o..j]
    {
      out := out + [matched[j]];
    }
  }

  /** ZRANGE and ZREVRANGE: select() at each clamped index gives the slice of the sorted members or of their reverse. */
  method ZRange(z: ZSet, start: int, stop: int, reverse: bool) returns (out: seq<Scored>)
    requires z.Valid()
    ensures out == Window(if reverse then Reversed(z.Sorted()) else z.Sorted(), start, stop)
  {
    z.SizesAgree();
    out := Pick(z.tree, z.dict.Size(), start, stop, reverse, z.Sorted());
  }

  method Pick(tree: AvlTree<Scored>, len: nat, start: int, stop: int, reverse: bool, ghost s: seq<Scored>)
    returns (out: seq<Scored>)
    requires tree.Structure() && Lists(tree, s) && len == |s|
    ensures out == Window(if reverse then Reversed(s) else s, start, stop)
  {
    hide AvlTree.Structure, Lists;
    var a := if start < 0 then start + len else start;
    var b := if stop < 0 then stop + len else stop;
    if a < 0 {
      a := 0;
    }
    if b >= len {
      b := len - 1;
    }
    if len == 0 || a > b {
      return [];
    }
    out := Slice(tree, len, a, b + 1 - a, reverse, s);
  }

  method Slice(tree: AvlTree<Scored>, len: nat, a: nat, count: nat, reverse: bool, ghost s: seq<Scored>)
    returns (out: seq<Scored>)
    requires tree.Structure() && Lists(tree, s) && len == |s| && a + count <= len
    ensures out == (if reverse then Reversed(s) else s)[a..a + count]
  {
    hide AvlTree.Structure, Lists;
    out := [];
    for i := 0 to count
      invariant |out| == i && forall j :: 0 <= j < i ==> out[j] == s[if reverse then len - 1 - (a + j) else a + j]
    {
      var e := MemberAt(tree, if reverse then len - 1 - (a + i) else a + i, s);
      out := out + [e];
    }
    SliceIs(out, s, a, count, reverse);
  }

  lemma SliceIs(out: seq<Scored>, s: seq<Scored>, a: nat, count: nat, reverse: bool)
    requires |out| == count && a + count <= |s|
    requires forall j :: 0 <= j < count ==> out[j] == s[if reverse then |s| - 1 - (a + j) else a + j]
    ensures out == (if reverse then Reversed(s) else s)[a..a + count]
  {
  }

  method MemberAt(tree: AvlTree<Scored>, i: nat, ghost s: seq<Scored>) returns (e: Scored)
    requires tree.Structure() && Lists(tree, s) && i < |s|
    ensures e == s[i]
  {
    var node := Q.Select(tree, i);
    e := tree.keys[node];
  }
}
