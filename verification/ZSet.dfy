/** Scores, members and their order (src/storage/zset.h). */
module ScoreOrder {
  import opened AvlTrees
  import opened ByteStrings

  /** A score that is not NaN. */
  datatype Score = NegInf | Fin(x: real) | PosInf

  predicate ScoreLess(a: Score, b: Score)
  {
    match a
    case NegInf => b != NegInf
    case Fin(x) => b.PosInf? || (b.Fin? && x < b.x)
    case PosInf => false
  }

  /** Lexicographic order of byte strings. */
  predicate BytesLess(a: Bytes, b: Bytes)
  {
    if b == [] then false
    else if a == [] then true
    else if a[0] != b[0] then a[0] < b[0]
    else BytesLess(a[1..], b[1..])
  }

  datatype Scored = Scored(score: Score, member: Bytes)

  /** EntryLess: by score, ties by member bytes. */
  predicate ScoredLess(a: Scored, b: Scored)
  {
    if a.score != b.score then ScoreLess(a.score, b.score) else BytesLess(a.member, b.member)
  }

  lemma {:induction false} BytesIrreflexive(a: Bytes)
    ensures !BytesLess(a, a)
  {
    if a != [] { BytesIrreflexive(a[1..]); }
  }

  lemma {:induction false} BytesTotal(a: Bytes, b: Bytes)
    ensures BytesLess(a, b) || a == b || BytesLess(b, a)
  {
    if a != [] && b != [] && a[0] == b[0] {
      BytesTotal(a[1..], b[1..]);
      assert a == [a[0]] + a[1..] && b == [b[0]] + b[1..];
    }
  }

  lemma {:induction false} BytesTransitive(a: Bytes, b: Bytes, c: Bytes)
    requires BytesLess(a, b) && BytesLess(b, c)
    ensures BytesLess(a, c)
  {
    if a != [] && a[0] == b[0] && b[0] == c[0] {
      BytesTransitive(a[1..], b[1..], c[1..]);
    }
  }

  /** The tree's Compare argument is a strict total order. */
  lemma ScoredOrder()
    ensures StrictOrder(ScoredLess)
  {
    forall a: Scored ensures !ScoredLess(a, a) { BytesIrreflexive(a.member); }
    forall a: Scored, b: Scored ensures ScoredLess(a, b) || a == b || ScoredLess(b, a) {
      BytesTotal(a.member, b.member);
    }
    forall a: Scored, b: Scored, c: Scored | ScoredLess(a, b) && ScoredLess(b, c) ensures ScoredLess(a, c) {
      if a.score == b.score == c.score { BytesTransitive(a.member, b.member, c.member); }
    }
  }
}

module ZSets {
  import opened Options
  import opened HashTables
  import opened AvlShapes
  import opened AvlLinks
  import opened AvlTrees
  import opened ByteStrings
  import opened ScoreOrder
  import Q = AvlQueries

  /** Each dictionary entry points at the one live node holding its member. */
  ghost predicate Agrees(dict: map<Bytes, Ref>, keys: map<Ref, Scored>)
  {
    && (forall m :: m in dict ==> dict[m] in keys && keys[dict[m]].member == m)
    && (forall x :: x in keys ==> keys[x].member in dict && dict[keys[x].member] == x)
  }

  ghost function ScoresOf(dict: map<Bytes, Ref>, keys: map<Ref, Scored>): map<Bytes, Score>
    requires Agrees(dict, keys)
  {
    map m | m in dict :: keys[dict[m]].score
  }

  lemma AgreesInsert(dict: map<Bytes, Ref>, keys: map<Ref, Scored>, x: Ref, e: Scored)
    requires Agrees(dict, keys) && e.member !in dict && x !in keys
    ensures Agrees(dict[e.member := x], keys[x := e])
    ensures ScoresOf(dict[e.member := x], keys[x := e]) == ScoresOf(dict, keys)[e.member := e.score]
    ensures KeepsOthers(dict, keys, dict[e.member := x], keys[x := e], e.member)
  {
  }

  lemma AgreesErase(dict: map<Bytes, Ref>, keys: map<Ref, Scored>, m: Bytes)
    requires Agrees(dict, keys) && m in dict
    ensures Agrees(dict - {m}, keys - {dict[m]})
    ensures ScoresOf(dict - {m}, keys - {dict[m]}) == ScoresOf(dict, keys) - {m}
  {
  }

  lemma AgreesAbsent(dict: map<Bytes, Ref>, keys: map<Ref, Scored>, e: Scored)
    requires Agrees(dict, keys) && e.member !in dict
    ensures e !in keys.Values
  {
  }

  /** Re-scoring: the member's node is replaced, nothing else moves. */
  lemma AgreesReplace(dict: map<Bytes, Ref>, keys: map<Ref, Scored>, e: Scored)
    requires Agrees(dict, keys) && e.member in dict
    ensures e !in (keys - {dict[e.member]}).Values
    ensures forall x :: x !in keys - {dict[e.member]} ==>
              var keys' := (keys - {dict[e.member]})[x := e];
              && Agrees(dict[e.member := x], keys')
              && ScoresOf(dict[e.member := x], keys') == ScoresOf(dict, keys)[e.member := e.score]
              && KeepsOthers(dict, keys, dict[e.member := x], keys', e.member)
  {
    var m, k0, d0 := e.member, keys - {dict[e.member]}, dict - {e.member};
    AgreesErase(dict, keys, m);
    AgreesAbsent(d0, k0, e);
    forall x | x !in k0
      ensures Agrees(dict[m := x], k0[x := e]) && ScoresOf(dict[m := x], k0[x := e]) == ScoresOf(dict, keys)[m := e.score]
      ensures KeepsOthers(dict, keys, dict[m := x], k0[x := e], m)
    {
      AgreesInsert(d0, k0, x, e);
      assert d0[m := x] == dict[m := x];
      assert (ScoresOf(dict, keys) - {m})[m := e.score] == ScoresOf(dict, keys)[m := e.score];
    }
  }

  /** Node identity and key of every member but one survive. */
  ghost predicate KeepsOthers(d0: map<Bytes, Ref>, k0: map<Ref, Scored>, d1: map<Bytes, Ref>, k1: map<Ref, Scored>, m: Bytes)
  {
    forall o :: o in d0 && o != m && d0[o] in k0 ==> o in d1 && d1[o] == d0[o] && d1[o] in k1 && k1[d1[o]] == k0[d0[o]]
  }

  /** A sorted set: the tree owns the nodes, the dictionary points at them. */
  class ZSet {
    const dict: HashTable<Bytes, Ref>
    const tree: AvlTree<Scored>

    ghost predicate Valid()
      reads this, dict, tree
    {
      dict.Valid() && tree.Valid() && tree.less == ScoredLess && Agrees(dict.M, tree.keys)
    }

    /** The abstract value: member to score. */
    ghost function Scores(): map<Bytes, Score>
      requires Valid()
      reads this, dict, tree
    {
      ScoresOf(dict.M, tree.keys)
    }

    constructor (hash: Bytes -> nat)
      ensures Valid() && Scores() == map[] && fresh(dict) && fresh(tree)
    {
      ScoredOrder();
      dict := new HashTable(hash);
      tree := new AvlTree(ScoredLess);
    }

    /** Sets member's score. A changed score is an erase and an insert of that member's node alone: every other
        member keeps its node and that node its key. */
    method Upsert(member: Bytes, score: Score) returns (isNew: bool)
      requires Valid()
      modifies dict, tree
      ensures Valid() && Scores() == old(Scores())[member := score] && isNew == (member !in old(Scores()))
      ensures KeepsOthers(old(dict.M), old(tree.keys), dict.M, tree.keys, member)
    {
      hide HashTable.Valid, AvlTree.Valid;
      var existing := dict.Find(member);
      if existing.None? {
        Add(Scored(score, member));
        return true;
      }
      Change(existing.value, Scored(score, member));
      return false;
    }

    method Add(e: Scored)
      requires Valid() && e.member !in dict.M
      modifies dict, tree
      ensures Valid() && Scores() == old(Scores())[e.member := e.score]
      ensures KeepsOthers(old(dict.M), old(tree.keys), dict.M, tree.keys, e.member)
    {
      hide HashTable.Valid, AvlTree.Valid, Agrees, ScoresOf, KeepsOthers;
      AgreesAbsent(dict.M, tree.keys, e);
      var node := tree.Insert(e);
      AgreesInsert(dict.M, old(tree.keys), node, e);
      var _ := dict.InsertOrAssign(e.member, node);
    }

    method Change(oldNode: Ref, e: Scored)
      requires Valid() && e.member in dict.M && dict.M[e.member] == oldNode
      modifies dict, tree
      ensures Valid() && Scores() == old(Scores())[e.member := e.score]
      ensures KeepsOthers(old(dict.M), old(tree.keys), dict.M, tree.keys, e.member)
    {
      hide HashTable.Valid, AvlTree.Valid;
      if tree.keys[oldNode].score == e.score {
        assert Scores()[e.member := e.score] == Scores();
        return;
      }
      Move(oldNode, e);
    }

    method Move(oldNode: Ref, e: Scored)
      requires Valid() && e.member in dict.M && dict.M[e.member] == oldNode
      modifies dict, tree
      ensures Valid() && Scores() == old(Scores())[e.member := e.score]
      ensures KeepsOthers(old(dict.M), old(tree.keys), dict.M, tree.keys, e.member)
    {
      AgreesReplace(dict.M, tree.keys, e);
      assert oldNode in tree.keys;
      hide HashTable.Valid, AvlTree.Valid, Agrees, ScoresOf, KeepsOthers;
      var node := Rescore(oldNode, e);
      dict.WriteThrough(e.member, node);
    }

    method Rescore(oldNode: Ref, e: Scored) returns (node: Ref)
      requires tree.Valid() && oldNode in tree.keys && e !in (tree.keys - {oldNode}).Values
      modifies tree
      ensures tree.Valid() && node !in old(tree.keys) - {oldNode} && tree.keys == (old(tree.keys) - {oldNode})[node := e]
    {
      tree.Erase(oldNode);
      node := tree.Insert(e);
    }

    method Erase(member: Bytes) returns (removed: bool)
      requires Valid()
      modifies dict, tree
      ensures Valid() && Scores() == old(Scores()) - {member} && removed == (member in old(Scores()))
      ensures KeepsOthers(old(dict.M), old(tree.keys), dict.M, tree.keys, member)
    {
      hide HashTable.Valid, AvlTree.Valid;
      var existing := dict.Find(member);
      if existing.None? {
        assert Scores() - {member} == Scores();
        return false;
      }
      AgreesErase(dict.M, tree.keys, member);
      tree.Erase(existing.value);
      var _ := dict.Erase(member);
      return true;
    }

    method ScoreOf(member: Bytes) returns (r: Option<Score>)
      requires Valid()
      modifies dict
      ensures Valid() && Scores() == old(Scores())
      ensures r == if member in Scores() then Some(Scores()[member]) else None
    {
      var existing := dict.Find(member);
      if existing.None? {
        return None;
      }
      r := Some(tree.keys[existing.value].score);
    }

    /** The members in order, as the tree holds them. */
    ghost function Sorted(): seq<Scored>
      requires tree.Valid()
      reads tree
    {
      KeysOf(tree.keys, Inorder(tree.shape))
    }

    /** size() counts the members, in the dictionary and in the tree alike. */
    lemma SizesAgree()
      requires Valid()
      ensures dict.Size() == |Scores()| == tree.count == |Sorted()|
    {
      dict.LoadBelowOne();
      assert Scores().Keys == dict.M.Keys;
      SameSize(dict.M, tree.keys.Keys);
      InorderSize(tree.shape);
      NodesCount(tree.shape);
    }
  }

  ghost function KeysOf<K>(keys: map<Ref, K>, s: seq<Ref>): seq<K>
    requires forall i :: 0 <= i < |s| ==> s[i] in keys
  {
    seq(|s|, i requires 0 <= i < |s| => keys[s[i]])
  }

  /** An injective map onto a set has as many keys as the set has elements. */
  lemma {:induction false} SameSize(m: map<Bytes, Ref>, s: set<Ref>)
    requires forall k :: k in m ==> m[k] in s
    requires forall x :: x in s ==> exists k :: k in m && m[k] == x
    requires forall j, k :: j in m && k in m && m[j] == m[k] ==> j == k
    ensures |m| == |s|
    decreases |m|
  {
    if m == map[] {
      assert s == {};
    } else {
      var k :| k in m;
      var r := m - {k};
      forall x | x in s - {m[k]} ensures exists j :: j in r && r[j] == x {
        var j :| j in m && m[j] == x;
        assert j in r && r[j] == x;
      }
      SameSize(r, s - {m[k]});
    }
  }

  lemma {:induction false} NodesCount(t: Tree<Ref>)
    requires Sep(t)
    ensures |Nodes(t)| == Size(t)
  {
    if t.T? {
      NodesCount(t.l);
      NodesCount(t.r);
      assert |Nodes(t.l) + {t.n}| == |Nodes(t.l)| + 1;
      assert (Nodes(t.l) + {t.n}) !! Nodes(t.r);
    }
  }
}
