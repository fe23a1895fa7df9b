/** A sorted set's listing, and popping from its front (src/commands/cmd_zset.cpp). */
module ZPops {
  import opened AvlShapes
  import opened AvlTrees
  import opened Maps
  import opened ByteStrings
  import opened HashTables
  import opened ScoreOrder
  import opened ZSets
  import opened ZRanges

  ghost predicate Ascends(s: seq<Scored>)
  {
    forall i, j :: 0 <= i < j < |s| ==> ScoredLess(s[i], s[j])
  }

  /** s lists exactly the map, in strictly ascending order. */
  ghost predicate Listing(s: seq<Scored>, m: map<Bytes, Score>)
  {
    Ascends(s) && |s| == |m| && forall e :: e in s <==> e.member in m && m[e.member] == e.score
  }

  lemma {:induction false} ListingOf(z: ZSet)
    requires z.Valid()
    ensures Listing(z.Sorted(), z.Scores())
  {
    z.SizesAgree();
    var s, order := z.Sorted(), Inorder(z.tree.shape);
    forall e ensures e in s <==> e.member in z.Scores() && z.Scores()[e.member] == e.score {
      if e in s {
        var i :| 0 <= i < |s| && s[i] == e;
        assert order[i] in z.tree.keys;
      }
      if e.member in z.Scores() && z.Scores()[e.member] == e.score {
        var x := z.dict.M[e.member];
        InorderNodes(z.tree.shape, x);
        var i :| 0 <= i < |order| && order[i] == x;
        assert s[i] == e;
      }
    }
  }

  lemma NotBoth(a: Scored, b: Scored)
    ensures !(ScoredLess(a, b) && ScoredLess(b, a))
  {
    if a.score == b.score && BytesLess(a.member, b.member) && BytesLess(b.member, a.member) {
      BytesTransitive(a.member, b.member, a.member);
    }
    BytesIrreflexive(a.member);
  }

  /** The first member of a listing is the least. */
  lemma {:induction false} FirstOfBoth(a: seq<Scored>, b: seq<Scored>, m: map<Bytes, Score>)
    requires Listing(a, m) && Listing(b, m) && a != []
    ensures b != [] && a[0] == b[0]
  {
    assert a[0] in a && b[0] in b;
    var i :| 0 <= i < |b| && b[i] == a[0];
    var j :| 0 <= j < |a| && a[j] == b[0];
    NotBoth(a[0], b[0]);
  }

  lemma {:induction false} ListingRest(s: seq<Scored>, m: map<Bytes, Score>)
    requires Listing(s, m) && s != []
    ensures s[0].member in m && Listing(s[1..], m - {s[0].member})
  {
    var e, r := s[0], m - {s[0].member};
    assert e in s;
    assert r.Keys == m.Keys - {e.member};
    forall x ensures x in s[1..] <==> x.member in r && r[x.member] == x.score {
      RestHas(s, m, x);
    }
  }

  lemma {:induction false} RestHas(s: seq<Scored>, m: map<Bytes, Score>, x: Scored)
    requires Listing(s, m) && s != []
    ensures x in s[1..] <==> x in s && x.member != s[0].member
  {
    assert s[0] in s;
    if x in s[1..] {
      var i :| 0 <= i < |s| - 1 && s[1..][i] == x;
      assert s[i + 1] == x && x in s && ScoredLess(s[0], x);
      NotBoth(s[0], x);
    }
    if x in s && x.member != s[0].member {
      var i :| 0 <= i < |s| && s[i] == x;
      assert s[1..][i - 1] == x;
    }
  }

  /** A map has one listing. */
  lemma {:induction false} ListingUnique(a: seq<Scored>, b: seq<Scored>, m: map<Bytes, Score>)
    requires Listing(a, m) && Listing(b, m)
    ensures a == b
    decreases |a|
  {
    if a != [] {
      FirstOfBoth(a, b, m);
      ListingRest(a, m);
      ListingRest(b, m);
      ListingUnique(a[1..], b[1..], m - {a[0].member});
      assert a == [a[0]] + a[1..] && b == [b[0]] + b[1..];
    }
  }

  /** The member no other precedes. */
  ghost predicate IsLeast(m: map<Bytes, Score>, e: Scored)
  {
    e.member in m && m[e.member] == e.score && forall o :: o in m ==> !ScoredLess(Scored(m[o], o), e)
  }

  /** Taking the least member again and again. */
  ghost predicate PoppedTo(m: map<Bytes, Score>, items: seq<Scored>, r: map<Bytes, Score>)
    decreases |items|
  {
    if items == [] then r == m
    else IsLeast(m, items[0]) && PoppedTo(m - {items[0].member}, items[1..], r)
  }

  lemma {:induction false} LeastIsFirst(s: seq<Scored>, m: map<Bytes, Score>, e: Scored)
    requires Listing(s, m)
    ensures IsLeast(m, e) <==> s != [] && e == s[0]
  {
    if IsLeast(m, e) {
      assert e in s;
      var i :| 0 <= i < |s| && s[i] == e;
      assert s[0] in s && Scored(m[s[0].member], s[0].member) == s[0];
    }
    if s != [] && e == s[0] {
      assert e in s;
      forall o | o in m ensures !ScoredLess(Scored(m[o], o), e) {
        var x := Scored(m[o], o);
        assert x in s;
        var i :| 0 <= i < |s| && s[i] == x;
        BytesIrreflexive(x.member);
        NotBoth(e, x);
      }
    }
  }

  /** Popping the least takes a prefix of the listing and leaves the rest of it: all pops answer alike. */
  lemma {:induction false} PoppedListing(m: map<Bytes, Score>, items: seq<Scored>, r: map<Bytes, Score>, s: seq<Scored>)
    requires Listing(s, m) && PoppedTo(m, items, r)
    ensures |items| <= |s| && items == s[..|items|] && Listing(s[|items|..], r)
    decreases |items|
  {
    if items == [] {
      assert s[0..] == s;
    } else {
      LeastIsFirst(s, m, items[0]);
      ListingRest(s, m);
      PoppedListing(m - {items[0].member}, items[1..], r, s[1..]);
      PrefixStep(s, items);
    }
  }

  lemma {:induction false} PrefixStep(s: seq<Scored>, items: seq<Scored>)
    requires s != [] && items != [] && |items| <= |s| && items[0] == s[0] && items[1..] == s[1..][..|items| - 1]
    ensures items == s[..|items|] && s[1..][|items| - 1..] == s[|items|..]
  {
    assert items == [items[0]] + items[1..];
    assert s[..|items|] == [s[0]] + s[1..][..|items| - 1];
  }

  lemma {:induction false} PoppedSnoc(m: map<Bytes, Score>, items: seq<Scored>, r: map<Bytes, Score>, e: Scored)
    requires PoppedTo(m, items, r) && IsLeast(r, e)
    ensures PoppedTo(m, items + [e], r - {e.member})
    decreases |items|
  {
    var more := items + [e];
    if items == [] {
      assert more[1..] == [];
    } else {
      assert more[1..] == items[1..] + [e];
      PoppedSnoc(m - {items[0].member}, items[1..], r, e);
    }
  }

  /** ZPOPMIN's loop: select(0), then erase, on the tree and the dictionary. The pops are the front of the listing. */
  method ZPopMin(z: ZSet, count: nat) returns (popped: seq<Scored>)
    requires z.Valid()
    modifies z.dict, z.tree
    ensures z.Valid() && |popped| == if count < |old(z.Scores())| then count else |old(z.Scores())|
    ensures PoppedTo(old(z.Scores()), popped, z.Scores())
    ensures old(z.Sorted()) == popped + z.Sorted()
  {
    z.SizesAgree();
    ListingOf(z);
    hide HashTable.Valid, AvlTree.Valid, Agrees, ScoresOf, ZSet.Sorted, Listing, PoppedTo;
    ghost var m, s := z.Scores(), z.Sorted();
    popped := PopSome(z, if count < z.dict.Size() then count else z.dict.Size());
    Remains(z, m, popped, s);
  }

  /** What is listed after the pops is what the pops left of the listing. */
  lemma {:induction false} Remains(z: ZSet, m: map<Bytes, Score>, popped: seq<Scored>, s: seq<Scored>)
    requires z.Valid() && Listing(s, m) && PoppedTo(m, popped, z.Scores())
    ensures s == popped + z.Sorted()
  {
    hide Listing, PoppedTo;
    PoppedListing(m, popped, z.Scores(), s);
    ListingOf(z);
    ListingUnique(z.Sorted(), s[|popped|..], z.Scores());
  }

  method PopSome(z: ZSet, n: nat) returns (popped: seq<Scored>)
    requires z.Valid() && n <= |z.Scores()|
    modifies z.dict, z.tree
    ensures z.Valid() && |popped| == n && PoppedTo(old(z.Scores()), popped, z.Scores())
  {
    NothingPopped(z.Scores());
    hide ZSet.Valid, ZSet.Scores, PoppedTo, IsLeast;
    popped := [];
    for i := 0 to n
      invariant z.Valid() && |popped| == i && PoppedTo(old(z.Scores()), popped, z.Scores())
      invariant |z.Scores()| == |old(z.Scores())| - i
    {
      ghost var before := z.Scores();
      var e := PopFirst(z);
      PoppedSnoc(old(z.Scores()), popped, before, e);
      popped := popped + [e];
    }
  }

  lemma NothingPopped(m: map<Bytes, Score>)
    ensures PoppedTo(m, [], m)
  {
  }

  /** One pop. */
  method PopFirst(z: ZSet) returns (e: Scored)
    requires z.Valid() && z.Scores() != map[]
    modifies z.dict, z.tree
    ensures z.Valid() && IsLeast(old(z.Scores()), e) && z.Scores() == old(z.Scores()) - {e.member}
    ensures |z.Scores()| == |old(z.Scores())| - 1
  {
    hide ZSet.Valid, ZSet.Scores;
    e := FirstMember(z);
    RemoveShrinks(z.Scores(), e.member);
    var _ := z.Erase(e.member);
  }

  method FirstMember(z: ZSet) returns (e: Scored)
    requires z.Valid() && z.Scores() != map[]
    ensures IsLeast(z.Scores(), e)
  {
    ListingOf(z);
    e := MemberAt(z.tree, 0, z.Sorted());
    LeastIsFirst(z.Sorted(), z.Scores(), e);
  }
}
