/** Whole runs: any sequence of operations on a fresh structure answers as its simple reference does. */
module HashTableRuns {
  import opened Options
  import opened Buckets
  import opened HashTables

  datatype Op<K, V> = Find(key: K) | Insert(key: K, value: V) | Erase(key: K) | Take(key: K) | Clear | Rehash(budget: nat)
  datatype Answer<V> = Found(value: Option<V>) | Flag(yes: bool) | Done

  function RefStep<K, V>(m: map<K, V>, op: Op<K, V>): (map<K, V>, Answer<V>)
  {
    match op
    case Find(k) => (m, Found(if k in m then Some(m[k]) else None))
    case Insert(k, v) => (m[k := v], Flag(k !in m))
    case Erase(k) => (m - {k}, Flag(k in m))
    case Take(k) => (m - {k}, Found(if k in m then Some(m[k]) else None))
    case Clear => (map[], Done)
    case Rehash(_) => (m, Done)
  }

  function RefState<K, V>(ops: seq<Op<K, V>>, n: nat): map<K, V>
    requires n <= |ops|
  {
    if n == 0 then map[] else RefStep(RefState(ops, n - 1), ops[n - 1]).0
  }

  method Step<K(!new, ==), V>(t: HashTable<K, V>, op: Op<K, V>) returns (a: Answer<V>)
    requires t.Valid()
    modifies t
    ensures t.Valid() && (t.M, a) == RefStep(old(t.M), op)
  {
    hide HashTable.Valid;
    match op
    case Find(k) => var r := t.Find(k); a := Found(r);
    case Insert(k, v) => var isNew := t.InsertOrAssign(k, v); a := Flag(isNew);
    case Erase(k) => var removed := t.Erase(k); a := Flag(removed);
    case Take(k) => var r := t.Take(k); a := Found(r);
    case Clear => t.Clear(); a := Done;
    case Rehash(budget) => t.RehashStep(budget); a := Done;
  }

  /** Any run, at any cursor position it reaches, answers as one plain finite map; the final table holds that map, is
      below load 1, and lists every entry once. */
  method Replay<K(!new, ==), V>(hash: K -> nat, ops: seq<Op<K, V>>)
    returns (answers: seq<Answer<V>>, size: nat, capacity: nat, entries: seq<Entry<K, V>>)
    ensures Answered(answers, ops, |ops|)
    ensures size == |RefState(ops, |ops|)| < capacity
    ensures multiset(entries) == multiset(EntriesOf(RefState(ops, |ops|), hash))
  {
    hide HashTable.Valid, RefStep, EntriesOf, Answered;
    var t := new HashTable(hash);
    answers := ReplayOn(t, ops);
    size, capacity, entries := Inspect(t);
  }

  /** The first n answers are the reference's. */
  ghost predicate Answered<K, V>(answers: seq<Answer<V>>, ops: seq<Op<K, V>>, n: nat)
    requires n <= |ops|
  {
    |answers| == n && forall i :: 0 <= i < n ==> answers[i] == RefStep(RefState(ops, i), ops[i]).1
  }

  lemma AnsweredNext<K, V>(answers: seq<Answer<V>>, ops: seq<Op<K, V>>, n: nat, a: Answer<V>)
    requires n < |ops| && Answered(answers, ops, n) && a == RefStep(RefState(ops, n), ops[n]).1
    ensures Answered(answers + [a], ops, n + 1)
  {
    hide RefStep, RefState;
  }

  method ReplayOn<K(!new, ==), V>(t: HashTable<K, V>, ops: seq<Op<K, V>>) returns (answers: seq<Answer<V>>)
    requires t.Valid() && t.M == map[]
    modifies t
    ensures t.Valid() && t.M == RefState(ops, |ops|) && Answered(answers, ops, |ops|)
  {
    hide HashTable.Valid, RefStep;
    answers := [];
    for i := 0 to |ops|
      invariant t.Valid() && t.M == RefState(ops, i) && Answered(answers, ops, i)
    {
      hide Answered;
      ghost var before := t.M;
      var a := Step(t, ops[i]);
      assert t.M == RefStep(before, ops[i]).0;
      AnsweredNext(answers, ops, i, a);
      answers := answers + [a];
    }
  }

  method Inspect<K(!new, ==), V>(t: HashTable<K, V>) returns (size: nat, capacity: nat, entries: seq<Entry<K, V>>)
    requires t.Valid()
    ensures size == |t.M| < capacity && multiset(entries) == multiset(EntriesOf(t.M, t.hash))
  {
    hide HashTable.Valid, EntriesOf;
    t.LoadBelowOne();
    size := t.Size();
    capacity := if t.Rehashing() then |t.newBuckets| else |t.oldBuckets|;
    entries := t.ForEach();
  }
}

module AvlRuns {
  import opened AvlShapes
  import opened AvlLinks
  import opened AvlTrees
  import Q = AvlQueries
  import Z = ZSets

  datatype Op<K> = Insert(key: K) | Erase(key: K)

  /** The reference is a set of keys; the flag says whether it changed. */
  function RefStep<K>(s: set<K>, op: Op<K>): (set<K>, bool)
  {
    match op
    case Insert(k) => (s + {k}, k !in s)
    case Erase(k) => (s - {k}, k in s)
  }

  function RefState<K>(ops: seq<Op<K>>, n: nat): set<K>
    requires n <= |ops|
  {
    if n == 0 then {} else RefStep(RefState(ops, n - 1), ops[n - 1]).0
  }

  ghost predicate Answered<K>(flags: seq<bool>, ops: seq<Op<K>>, n: nat)
    requires n <= |ops|
  {
    |flags| == n && forall i :: 0 <= i < n ==> flags[i] == RefStep(RefState(ops, i), ops[i]).1
  }

  lemma AnsweredNext<K>(flags: seq<bool>, ops: seq<Op<K>>, n: nat, f: bool)
    requires n < |ops| && Answered(flags, ops, n) && f == RefStep(RefState(ops, n), ops[n]).1
    ensures Answered(flags + [f], ops, n + 1)
  {
    hide RefStep, RefState;
  }

  /** Different nodes hold different keys. */
  lemma KeysInjective<K(!new)>(tree: AvlTree<K>, x: Ref, y: Ref)
    requires tree.Valid() && x in tree.keys && y in tree.keys && tree.keys[x] == tree.keys[y]
    ensures x == y
  {
    var s := Inorder(tree.shape);
    InorderNodes(tree.shape, x);
    InorderNodes(tree.shape, y);
    var i :| 0 <= i < |s| && s[i] == x;
    var j :| 0 <= j < |s| && s[j] == y;
  }

  lemma ValuesWithout<K(!new)>(keys: map<Ref, K>, x: Ref)
    requires x in keys && forall y :: y in keys && keys[y] == keys[x] ==> y == x
    ensures (keys - {x}).Values == keys.Values - {keys[x]}
  {
    forall v | v in keys.Values - {keys[x]} ensures v in (keys - {x}).Values {
      var y :| y in keys && keys[y] == v;
      assert y in keys - {x};
    }
  }

  method Step<K(!new, ==)>(tree: AvlTree<K>, op: Op<K>) returns (flag: bool)
    requires tree.Valid()
    modifies tree
    ensures tree.Valid() && (tree.keys.Values, flag) == RefStep(old(tree.keys.Values), op)
  {
    match op
    case Insert(k) =>
      flag := InsertKey(tree, k);
    case Erase(k) =>
      flag := EraseKey(tree, k);
  }

  method InsertKey<K(!new, ==)>(tree: AvlTree<K>, k: K) returns (flag: bool)
    requires tree.Valid()
    modifies tree
    ensures tree.Valid() && tree.keys.Values == old(tree.keys.Values) + {k} && flag == (k !in old(tree.keys.Values))
  {
    hide AvlTree.Valid, AvlTree.Structure;
    ghost var before := tree.keys;
    var x := tree.Insert(k);
    flag := x != NULL;
    if flag {
      assert tree.keys.Values == before.Values + {k} by { ValuesWith(before, x, k); }
    } else {
      assert before.Values == before.Values + {k};
    }
  }

  lemma ValuesWith<K(!new)>(keys: map<Ref, K>, x: Ref, k: K)
    requires x !in keys
    ensures keys[x := k].Values == keys.Values + {k}
  {
    forall v | v in keys.Values + {k} ensures v in keys[x := k].Values {
      if v == k {
        assert x in keys[x := k];
      } else {
        var y :| y in keys && keys[y] == v;
        assert y in keys[x := k] && keys[x := k][y] == v;
      }
    }
  }

  method EraseKey<K(!new, ==)>(tree: AvlTree<K>, k: K) returns (flag: bool)
    requires tree.Valid()
    modifies tree
    ensures tree.Valid() && tree.keys.Values == old(tree.keys.Values) - {k} && flag == (k in old(tree.keys.Values))
  {
    hide AvlTree.Valid, AvlTree.Structure;
    var x := Q.Find(tree, k);
    flag := x != NULL;
    if flag {
      forall y | y in tree.keys && tree.keys[y] == k ensures y == x {
        KeysInjective(tree, x, y);
      }
      ValuesWithout(tree.keys, x);
      tree.Erase(x);
    }
  }

  /** For every run of insert and erase, on any key type with any strict total order, the tree is the set of keys the run
      leaves: its in-order keys strictly increase, links, heights and sizes are exact, every balance factor is within
      one, and so its height is logarithmic. */
  method Replay<K(!new, ==)>(less: (K, K) -> bool, ops: seq<Op<K>>) returns (tree: AvlTree<K>, flags: seq<bool>)
    requires StrictOrder(less)
    ensures Answered(flags, ops, |ops|) && tree.Valid() && tree.less == less
    ensures tree.keys.Values == RefState(ops, |ops|)
    ensures Ascending(less, tree.keys, Inorder(tree.shape)) && Linked(tree.cells, tree.shape, NULL) && Avl(tree.shape)
    ensures Fib(Height(tree.shape) + 2) <= |RefState(ops, |ops|)| + 1
  {
    tree := new AvlTree(less);
    hide AvlTree.Valid, AvlTree.Structure, RefStep, StrictOrder, Answered, Ascending, Avl;
    Nothing(tree);
    flags := ReplayOn(tree, ops);
    Meaning(tree);
  }

  lemma Nothing<K(!new)>(tree: AvlTree<K>)
    requires tree.Valid() && tree.shape == E
    ensures tree.keys == map[]
  {
  }

  lemma Meaning<K(!new)>(tree: AvlTree<K>)
    requires tree.Valid()
    ensures Ascending(tree.less, tree.keys, Inorder(tree.shape)) && Linked(tree.cells, tree.shape, NULL) && Avl(tree.shape)
    ensures Fib(Height(tree.shape) + 2) <= |tree.keys.Values| + 1
  {
    Sizes(tree);
    HeightBound(tree.shape);
  }

  method ReplayOn<K(!new, ==)>(tree: AvlTree<K>, ops: seq<Op<K>>) returns (flags: seq<bool>)
    requires tree.Valid() && tree.keys == map[]
    modifies tree
    ensures tree.Valid() && tree.keys.Values == RefState(ops, |ops|) && Answered(flags, ops, |ops|)
  {
    hide AvlTree.Valid, AvlTree.Structure, RefStep;
    flags := [];
    assert tree.keys.Values == {};
    for i := 0 to |ops|
      invariant tree.Valid() && tree.keys.Values == RefState(ops, i) && Answered(flags, ops, i)
    {
      hide Answered;
      ghost var before := tree.keys.Values;
      var f := Step(tree, ops[i]);
      assert tree.keys.Values == RefStep(before, ops[i]).0;
      AnsweredNext(flags, ops, i, f);
      flags := flags + [f];
    }
  }

  /** The tree has as many nodes as keys. */
  lemma Sizes<K(!new)>(tree: AvlTree<K>)
    requires tree.Valid()
    ensures Size(tree.shape) == |tree.keys.Values|
  {
    forall x, y | x in tree.keys && y in tree.keys && tree.keys[x] == tree.keys[y] ensures x == y {
      KeysInjective(tree, x, y);
    }
    ValuesCard(tree.keys);
    Z.NodesCount(tree.shape);
  }

  lemma {:induction false} ValuesCard<K(!new)>(keys: map<Ref, K>)
    requires forall x, y :: x in keys && y in keys && keys[x] == keys[y] ==> x == y
    ensures |keys.Values| == |keys|
    decreases |keys|
  {
    if keys == map[] {
      assert keys.Values == {};
    } else {
      var x :| x in keys;
      ValuesWithout(keys, x);
      ValuesCard(keys - {x});
      assert keys.Values == (keys - {x}).Values + {keys[x]};
    }
  }
}

module SortedRuns {
  import opened AvlShapes
  import opened AvlLinks
  import opened AvlTrees
  import opened ByteStrings
  import opened ScoreOrder
  import opened ZSets
  import opened ZRanges
  import opened ZPops

  datatype Op = Upsert(member: Bytes, score: Score) | Erase(member: Bytes)

  function RefStep(m: map<Bytes, Score>, op: Op): (map<Bytes, Score>, bool)
  {
    match op
    case Upsert(k, s) => (m[k := s], k !in m)
    case Erase(k) => (m - {k}, k in m)
  }

  function RefState(ops: seq<Op>, n: nat): map<Bytes, Score>
    requires n <= |ops|
  {
    if n == 0 then map[] else RefStep(RefState(ops, n - 1), ops[n - 1]).0
  }

  /** After any run of upsert and erase a sorted set is a map from member to score, listed in score order, and its tree
      is balanced: Fib(height + 2) <= size + 1. */
  method Replay(hash: Bytes -> nat, ops: seq<Op>) returns (flags: seq<bool>, listing: seq<Scored>, height: nat)
    ensures |flags| == |ops| && forall i :: 0 <= i < |ops| ==> flags[i] == RefStep(RefState(ops, i), ops[i]).1
    ensures Listing(listing, RefState(ops, |ops|))
    ensures Fib(height + 2) <= |listing| + 1
  {
    hide ZSet.Valid, ZSet.Scores, Listing, RefStep;
    var z := new ZSet(hash);
    flags := [];
    for i := 0 to |ops|
      invariant fresh(z.dict) && fresh(z.tree)
      invariant z.Valid() && z.Scores() == RefState(ops, i) && |flags| == i
      invariant forall j :: 0 <= j < i ==> flags[j] == RefStep(RefState(ops, j), ops[j]).1
    {
      var f := Step(z, ops[i]);
      flags := flags + [f];
    }
    listing, height := Finish(z);
  }

  method Step(z: ZSet, op: Op) returns (flag: bool)
    requires z.Valid()
    modifies z.dict, z.tree
    ensures z.Valid() && (z.Scores(), flag) == RefStep(old(z.Scores()), op)
  {
    hide ZSet.Valid, ZSet.Scores;
    match op
    case Upsert(k, s) => flag := z.Upsert(k, s);
    case Erase(k) => flag := z.Erase(k);
  }

  method Finish(z: ZSet) returns (listing: seq<Scored>, height: nat)
    requires z.Valid()
    ensures Listing(listing, z.Scores()) && Fib(height + 2) <= |listing| + 1
  {
    hide AvlTree.Valid, Listing;
    height := TreeHeight(z);
    listing := ZRange(z, 0, -1, false);
    ListingOf(z);
    WholeWindow(z.Sorted());
  }

  method TreeHeight(z: ZSet) returns (height: nat)
    requires z.Valid()
    ensures Fib(height + 2) <= |z.Sorted()| + 1
  {
    height := z.tree.HeightOf(z.tree.root);
    LinkedCell(z.tree.cells, z.tree.shape, NULL);
    HeightBound(z.tree.shape);
    InorderSize(z.tree.shape);
  }

  lemma WholeWindow(s: seq<Scored>)
    ensures Window(s, 0, -1) == s
  {
  }
}

module DatabaseRuns {
  import opened Options
  import opened Maps
  import opened HashTables
  import opened ExpiryHeaps
  import opened TimedMaps
  import opened Databases

  datatype Op<K, V> =
    | Get(key: K) | Put(key: K, value: V) | Del(key: K) | Take(key: K) | Overwrite(key: K, value: V)
    | ExpireAt(key: K, deadline: int) | Persist(key: K) | Pttl(key: K)
    | Flush | FlushAsync | Cycle(maxKeys: nat) | Rehash(budget: nat)

  datatype Answer<V> = Found(value: Option<V>) | Flag(yes: bool) | Millis(ms: int) | Done
  datatype Call<K, V> = Call(op: Op<K, V>, now: int)

  /** The reference step on what is live at the time of the call. Cron work does nothing. */
  ghost function RefStep<K(!new), V>(l: map<K, Cell<V>>, c: Call<K, V>): (map<K, Cell<V>>, Answer<V>)
  {
    match c.op
    case Get(k) => (l, Found(RefGet(l, k)))
    case Put(k, v) => (l[k := Cell(v, None)], Done)
    case Del(k) => (l - {k}, Flag(k in l))
    case Take(k) => (l - {k}, Found(RefGet(l, k)))
    case Overwrite(k, v) => (if k in l then l[k := l[k].(value := v)] else l, Flag(k in l))
    case ExpireAt(k, d) => var r := RefExpireAt(l, k, d, c.now); (r.0, Flag(r.1))
    case Persist(k) => var r := RefPersist(l, k); (r.0, Flag(r.1))
    case Pttl(k) => (l, Millis(RefPttl(l, k, c.now)))
    case Flush => (map[], Done)
    case FlushAsync => (map[], Done)
    case Cycle(_) => (l, Done)
    case Rehash(_) => (l, Done)
  }

  /** The reference run: at each call, overdue keys are gone. */
  ghost function RefState<K(!new), V>(calls: seq<Call<K, V>>, n: nat): map<K, Cell<V>>
    requires n <= |calls|
  {
    if n == 0 then map[] else RefStep(Live(RefState(calls, n - 1), calls[n - 1].now), calls[n - 1]).0
  }

  lemma LiveSet<K(!new), V>(t: map<K, Cell<V>>, k: K, v: V, now: int)
    ensures Live(t[k := Cell(v, None)], now) == Live(t, now)[k := Cell(v, None)]
  {
    assert Live(t[k := Cell(v, None)], now).Keys == Live(t, now)[k := Cell(v, None)].Keys;
  }

  method Step<K(!new, ==), V>(db: Database<K, V>, c: Call<K, V>) returns (a: Answer<V>)
    requires db.Valid()
    modifies db, db.keyspace, db.expires, db.heap
    ensures db.Valid() && (db.View(c.now), a) == RefStep(old(db.View(c.now)), c)
    ensures db.keyspace == old(db.keyspace) || fresh(db.keyspace)
    ensures db.expires == old(db.expires) || fresh(db.expires)
    ensures db.heap == old(db.heap)
  {
    hide Database.Valid, Database.View, Live;
    match c.op
    case Get(k) => var r := db.LookupAndExpire(k, c.now); a := Found(r);
    case Put(k, v) => Store(db, k, v, c.now); a := Done;
    case Del(k) => var f := Delete(db, k, c.now); a := Flag(f);
    case Take(k) => var r := db.Take(k, c.now); a := Found(r);
    case Overwrite(k, v) => var f := db.Overwrite(k, v, c.now); a := Flag(f);
    case ExpireAt(k, d) => var f := db.ExpireAt(k, d, c.now); a := Flag(f);
    case Persist(k) => var f := db.Persist(k, c.now); a := Flag(f);
    case Pttl(k) => var ms := db.Pttl(k, c.now); a := Millis(ms);
    case Flush => Reset(db, c.now, false); a := Done;
    case FlushAsync => Reset(db, c.now, true); a := Done;
    case Cycle(n) => var _, _, _ := db.RunActiveExpirationCycle(c.now, n); a := Done;
    case Rehash(n) => Tick(db, n, c.now); a := Done;
  }

  method Store<K(!new, ==), V>(db: Database<K, V>, k: K, v: V, now: int)
    requires db.Valid()
    modifies db.keyspace, db.expires
    ensures db.Valid() && db.View(now) == old(db.View(now))[k := Cell(v, None)]
  {
    LiveSet(db.Stored(), k, v, now);
    hide Database.Valid, Live;
    db.Set(k, v);
  }

  /** DEL: guarded by a lookup, so an expired key does not count. */
  method Delete<K(!new, ==), V>(db: Database<K, V>, k: K, now: int) returns (f: bool)
    requires db.Valid()
    modifies db.keyspace, db.expires
    ensures db.Valid() && f == (k in old(db.View(now))) && db.View(now) == old(db.View(now)) - {k}
  {
    hide Database.Valid;
    var r := db.LookupAndExpire(k, now);
    f := r.Some?;
    if f {
      var _ := db.Del(k);
    }
  }

  /** DEL with its list of keys: they all go, and the reply is how many live keys that were; a repeated key counts once. */
  method DeleteAll<K(!new, ==), V>(db: Database<K, V>, keys: seq<K>, now: int) returns (count: nat)
    requires db.Valid()
    modifies db.keyspace, db.expires
    ensures db.Valid() && db.View(now) == old(db.View(now)) - Named(keys, |keys|)
    ensures count == |old(db.View(now))| - |db.View(now)|
  {
    hide Database.Valid, Database.View, Live, Named;
    count := 0;
    ghost var view := db.View(now);
    DropNone(view, keys);
    for i := 0 to |keys|
      invariant db.Valid() && db.View(now) == view - Named(keys, i) && count + |db.View(now)| == |view|
    {
      DropNext(view, keys, i);
      var f := Delete(db, keys[i], now);
      if f {
        count := count + 1;
      }
    }
  }

  method Reset<K(!new, ==), V>(db: Database<K, V>, now: int, handOff: bool)
    requires db.Valid()
    modifies db, db.keyspace, db.expires, db.heap
    ensures db.Valid() && db.View(now) == map[]
    ensures db.keyspace == old(db.keyspace) || fresh(db.keyspace)
    ensures db.expires == old(db.expires) || fresh(db.expires)
    ensures db.heap == old(db.heap)
  {
    hide Database.Valid;
    if handOff {
      var _, _ := db.TakeAll();
    } else {
      db.Clear();
    }
  }

  method Tick<K(!new, ==), V>(db: Database<K, V>, budget: nat, now: int)
    requires db.Valid()
    modifies db.keyspace
    ensures db.Valid() && db.View(now) == old(db.View(now))
  {
    hide Database.Valid, Live;
    db.RehashStep(budget);
  }

  /** For every run with a clock that does not go back, whatever cron work is interleaved, every call answers as the
      timed map that drops each key at its deadline. */
  method Replay<K(!new, ==), V>(hash: K -> nat, calls: seq<Call<K, V>>) returns (answers: seq<Answer<V>>)
    requires forall i, j :: 0 <= i < j < |calls| ==> calls[i].now <= calls[j].now
    ensures |answers| == |calls|
    ensures forall i :: 0 <= i < |calls| ==> answers[i] == RefStep(Live(RefState(calls, i), calls[i].now), calls[i]).1
  {
    hide Database.Valid, Database.View, Database.Stored, Live, RefStep;
    var db := new Database(hash);
    answers := [];
    Begin(db, if calls == [] then 0 else calls[0].now);
    for i := 0 to |calls|
      invariant fresh(db) && fresh(db.keyspace) && fresh(db.expires) && fresh(db.heap) && db.Valid() && |answers| == i
      invariant i < |calls| ==> db.View(calls[i].now) == Live(RefState(calls, i), calls[i].now)
      invariant forall j :: 0 <= j < i ==> answers[j] == RefStep(Live(RefState(calls, j), calls[j].now), calls[j]).1
    {
      var a := Step(db, calls[i]);
      answers := answers + [a];
      if i + 1 < |calls| {
        Later(db, RefState(calls, i + 1), calls[i].now, calls[i + 1].now);
      }
    }
  }

  lemma Begin<K(!new), V>(db: Database<K, V>, now: int)
    requires db.Stored() == map[]
    ensures db.View(now) == Live(map[], now)
  {
  }

  /** Agreement at one time carries over to every later time. */
  lemma Later<K(!new), V>(db: Database<K, V>, m: map<K, Cell<V>>, now: int, later: int)
    requires db.View(now) == m && now <= later
    ensures db.View(later) == Live(m, later)
  {
    LiveLater(db.Stored(), now, later);
  }
}
