/** Chains, bucket vectors and what they hold, independent of the table that owns them. */
module Buckets {
  import opened Ints
  import opened Spans

  /** One chain node. The cached hash is what the table compares before the key. */
  datatype Entry<K, V> = Entry(key: K, value: V, hash: nat)

  /** A bucket's chain, head first; the bucket owns it. */
  type Chain<K, V> = seq<Entry<K, V>>

  /** Everything held by a bucket vector. */
  ghost function Contents<K, V>(b: seq<Chain<K, V>>): multiset<Entry<K, V>>
  {
    if b == [] then multiset{} else multiset(b[0]) + Contents(b[1..])
  }

  /** The buckets one after another: the order for_each visits. */
  function Flatten<K, V>(b: seq<Chain<K, V>>): Chain<K, V>
  {
    if b == [] then [] else b[0] + Flatten(b[1..])
  }

  /** Every node sits in the bucket its hash selects (h & (n - 1) with n a power of two). */
  ghost predicate Placed<K, V>(b: seq<Chain<K, V>>)
  {
    forall i :: 0 <= i < |b| ==> InBucket(b[i], i, |b|)
  }

  ghost predicate InBucket<K, V>(c: Chain<K, V>, i: nat, n: nat)
    requires n > 0
  {
    forall j :: 0 <= j < |c| ==> Mod(c[j].hash, n) == i
  }

  /** The entries of a finite map, with their cached hashes. */
  ghost function EntriesOf<K(!new), V>(m: map<K, V>, hash: K -> nat): set<Entry<K, V>>
  {
    set k | k in m :: Entry(k, m[k], hash(k))
  }

  predicate PowerOfTwo(n: nat)
  {
    n == 1 || (n > 1 && n % 2 == 0 && PowerOfTwo(n / 2))
  }

  /** Bitwise and, digit by binary digit. */
  function And(a: nat, b: nat): nat
  {
    if a == 0 || b == 0 then 0
    else 2 * And(a / 2, b / 2) + if a % 2 == 1 && b % 2 == 1 then 1 else 0
  }

  /** Binary digit i. */
  predicate Bit(a: nat, i: nat)
  {
    if i == 0 then a % 2 == 1 else Bit(a / 2, i - 1)
  }

  /** A digit of the result is set exactly where both are. */
  lemma {:induction false} AndDigit(a: nat, b: nat, i: nat)
    ensures Bit(And(a, b), i) <==> Bit(a, i) && Bit(b, i)
    decreases i
  {
    if a == 0 || b == 0 {
      ZeroDigit(i);
    } else if i > 0 {
      AndDigit(a / 2, b / 2, i - 1);
      assert And(a, b) / 2 == And(a / 2, b / 2);
    }
  }

  lemma {:induction false} ZeroDigit(i: nat)
    ensures !Bit(0, i)
  {
    if i > 0 {
      ZeroDigit(i - 1);
    }
  }

  /** h & (n - 1), which the table computes, is h % n for a power of two: the bucket index used below. */
  lemma {:induction false} MaskIsMod(h: nat, n: nat)
    requires PowerOfTwo(n)
    ensures And(h, n - 1) == Mod(h, n)
  {
    hide Mod;
    if n == 1 {
      ModOne(h);
    } else {
      var m := n / 2;
      MaskIsMod(h / 2, m);
      ModHalves(h, m);
      AndOdd(h, m);
    }
  }

  /** The bucket that a hash selects among n. */
  function Mod(h: nat, n: nat): (r: nat)
    requires n > 0
    ensures r < n
  {
    h % n
  }

  lemma ModOne(h: nat)
    ensures Mod(h, 1) == 0 == And(h, 0)
  {
  }

  lemma AndOdd(h: nat, m: nat)
    requires m > 0
    ensures And(h, 2 * m - 1) == 2 * And(h / 2, m - 1) + h % 2
  {
    assert (2 * m - 1) / 2 == m - 1 && (2 * m - 1) % 2 == 1;
  }

  lemma ModHalves(h: nat, m: nat)
    requires m > 0
    ensures Mod(h, 2 * m) == 2 * Mod(h / 2, m) + h % 2
  {
    var q, r := (h / 2) / m, (h / 2) % m;
    assert h / 2 == q * m + r;
    assert h == q * (2 * m) + (2 * r + h % 2);
    RemainderIs(h, q, 2 * m, 2 * r + h % 2);
  }

  lemma RemainderIs(x: nat, q: nat, n: nat, r: nat)
    requires r < n && x == q * n + r
    ensures x % n == r
  {
    var p := x / n;
    assert x == p * n + x % n;
    if p < q {
      MulMonotone(p + 1, q, n);
    } else if p > q {
      MulMonotone(q + 1, p, n);
    }
  }

  lemma {:induction false} ContentsUpdate<K, V>(b: seq<Chain<K, V>>, i: nat, c: Chain<K, V>)
    requires i < |b|
    ensures Contents(b[i := c]) + multiset(b[i]) == Contents(b) + multiset(c)
  {
    if i == 0 {
      assert b[i := c][1..] == b[1..];
    } else {
      var u := b[i := c];
      assert u[0] == b[0] && b[1..][i - 1] == b[i] && u[1..] == b[1..][i - 1 := c];
      ContentsUpdate(b[1..], i - 1, c);
      calc {
        Contents(u) + multiset(b[i]);
        multiset(b[0]) + (Contents(u[1..]) + multiset(b[i]));
        multiset(b[0]) + (Contents(b[1..]) + multiset(c));
        Contents(b) + multiset(c);
      }
    }
  }

  lemma {:induction false} ContentsHas<K, V>(b: seq<Chain<K, V>>, i: nat)
    requires i < |b|
    ensures multiset(b[i]) <= Contents(b)
  {
    if i > 0 {
      ContentsHas(b[1..], i - 1);
    }
  }

  lemma {:induction false} ContentsWhere<K, V>(b: seq<Chain<K, V>>, e: Entry<K, V>) returns (i: nat)
    requires e in Contents(b)
    ensures i < |b| && e in b[i]
  {
    if e in b[0] {
      i := 0;
    } else {
      var j := ContentsWhere(b[1..], e);
      i := j + 1;
    }
  }

  /** A stored entry is found in the one bucket its hash selects, and nowhere else. */
  lemma PlacedBucket<K, V>(b: seq<Chain<K, V>>, e: Entry<K, V>)
    requires |b| > 0 && Placed(b)
    ensures e in Contents(b) <==> e in b[Mod(e.hash, |b|)]
  {
    if e in Contents(b) {
      var i := ContentsWhere(b, e);
      var j :| 0 <= j < |b[i]| && b[i][j] == e;
    }
    if e in b[Mod(e.hash, |b|)] {
      ContentsHas(b, Mod(e.hash, |b|));
      assert e in multiset(b[Mod(e.hash, |b|)]);
    }
  }

  /** Linking a node at the head of its bucket. */
  lemma PushFront<K, V>(b: seq<Chain<K, V>>, n: Entry<K, V>)
    requires |b| > 0 && Placed(b)
    ensures Placed(b[Mod(n.hash, |b|) := [n] + b[Mod(n.hash, |b|)]])
    ensures Contents(b[Mod(n.hash, |b|) := [n] + b[Mod(n.hash, |b|)]]) == Contents(b) + multiset{n}
  {
    var i := Mod(n.hash, |b|);
    var c := [n] + b[i];
    assert InBucket(c, i, |b|);
    ContentsUpdate(b, i, c);
    Cancel(Contents(b[i := c]), Contents(b) + multiset{n}, multiset(b[i]));
  }

  lemma {:induction false} ReplaceNode<K, V>(b: seq<Chain<K, V>>, i: nat, j: nat, e: Entry<K, V>)
    requires i < |b| && j < |b[i]| && Placed(b) && Mod(e.hash, |b|) == i
    ensures Placed(b[i := b[i][j := e]])
    ensures Contents(b[i := b[i][j := e]]) == Contents(b) - multiset{b[i][j]} + multiset{e}
    ensures b[i][j] in Contents(b)
  {
    var c := b[i][j := e];
    assert InBucket(c, i, |b|);
    ContentsUpdate(b, i, c);
    ContentsHas(b, i);
    assert b[i][j] in multiset(b[i]);
    assert multiset(c) == multiset(b[i]) - multiset{b[i][j]} + multiset{e};
    Cancel(Contents(b[i := c]), Contents(b) - multiset{b[i][j]} + multiset{e}, multiset(b[i]));
  }

  lemma {:induction false} DropNode<K, V>(b: seq<Chain<K, V>>, i: nat, j: nat)
    requires i < |b| && j < |b[i]| && Placed(b)
    ensures Placed(b[i := b[i][..j] + b[i][j + 1..]])
    ensures Contents(b[i := b[i][..j] + b[i][j + 1..]]) == Contents(b) - multiset{b[i][j]}
    ensures b[i][j] in Contents(b)
  {
    var c := b[i][..j] + b[i][j + 1..];
    ChainWithout(b[i], j, i, |b|);
    PlacedUpdate(b, i, c);
    hide Placed, InBucket;
    ContentsDrop(b, i, c, b[i][j]);
  }

  lemma {:induction false} ChainWithout<K, V>(c: Chain<K, V>, j: nat, i: nat, n: nat)
    requires n > 0 && j < |c| && InBucket(c, i, n)
    ensures InBucket(c[..j] + c[j + 1..], i, n)
    ensures multiset(c) == multiset{c[j]} + multiset(c[..j] + c[j + 1..])
  {
    assert c == c[..j] + [c[j]] + c[j + 1..];
  }

  lemma PlacedUpdate<K, V>(b: seq<Chain<K, V>>, i: nat, c: Chain<K, V>)
    requires i < |b| && Placed(b) && InBucket(c, i, |b|)
    ensures Placed(b[i := c])
  {
  }

  lemma {:induction false} ContentsDrop<K, V>(b: seq<Chain<K, V>>, i: nat, c: Chain<K, V>, e: Entry<K, V>)
    requires i < |b| && multiset(b[i]) == multiset{e} + multiset(c)
    ensures Contents(b[i := c]) == Contents(b) - multiset{e} && e in Contents(b)
  {
    ContentsUpdate(b, i, c);
    Cancel(Contents(b[i := c]) + multiset{e}, Contents(b), multiset(c));
  }

  lemma {:induction false} FlattenContents<K, V>(b: seq<Chain<K, V>>)
    ensures multiset(Flatten(b)) == Contents(b)
  {
    if b != [] {
      FlattenContents(b[1..]);
    }
  }

  lemma {:induction false} FlattenSnoc<K, V>(b: seq<Chain<K, V>>, c: Chain<K, V>)
    ensures Flatten(b + [c]) == Flatten(b) + c
  {
    if b == [] {
      assert [c][1..] == [];
      assert b + [c] == [c];
    } else {
      assert (b + [c])[1..] == b[1..] + [c];
      FlattenSnoc(b[1..], c);
    }
  }

  lemma {:induction false} EmptyContents<K, V>(b: seq<Chain<K, V>>)
    requires forall i :: 0 <= i < |b| ==> b[i] == []
    ensures Contents(b) == multiset{}
  {
    if b != [] {
      EmptyContents(b[1..]);
    }
  }

  lemma {:induction false} EntriesCard<K(!new), V>(m: map<K, V>, hash: K -> nat)
    ensures |EntriesOf(m, hash)| == |m|
    decreases |m|
  {
    if m != map[] {
      var k :| k in m;
      var r := m - {k};
      EntriesCard(r, hash);
      assert EntriesOf(m, hash) == EntriesOf(r, hash) + {Entry(k, m[k], hash(k))};
      assert Entry(k, m[k], hash(k)) !in EntriesOf(r, hash);
    }
  }

  lemma EntriesInsert<K(!new), V>(m: map<K, V>, hash: K -> nat, k: K, v: V)
    requires k !in m
    ensures multiset(EntriesOf(m[k := v], hash)) == multiset(EntriesOf(m, hash)) + multiset{Entry(k, v, hash(k))}
  {
    assert EntriesOf(m[k := v], hash) == EntriesOf(m, hash) + {Entry(k, v, hash(k))};
    assert Entry(k, v, hash(k)) !in EntriesOf(m, hash);
  }

  lemma EntriesRemove<K(!new), V>(m: map<K, V>, hash: K -> nat, k: K)
    requires k in m
    ensures multiset(EntriesOf(m - {k}, hash)) == multiset(EntriesOf(m, hash)) - multiset{Entry(k, m[k], hash(k))}
  {
    EntriesInsert(m - {k}, hash, k, m[k]);
    assert (m - {k})[k := m[k]] == m;
  }
}

/** The keyspace's table: two chained tables and a migration cursor (src/storage/hash_table.h). */
module HashTables {
  import opened Options
  import opened Buckets

  const INITIAL_BUCKETS: nat := 4

  /** Position of key in its chain, or -1 (find_in). */
  method FindIn<K(==), V>(b: seq<Chain<K, V>>, key: K, h: nat) returns (j: int)
    requires |b| > 0
    ensures 0 <= j ==> j < |b[Mod(h, |b|)]| && b[Mod(h, |b|)][j].key == key && b[Mod(h, |b|)][j].hash == h
    ensures j < 0 ==> forall e :: e in b[Mod(h, |b|)] ==> !(e.hash == h && e.key == key)
  {
    var c := b[Mod(h, |b|)];
    j := 0;
    while j < |c|
      invariant 0 <= j <= |c|
      invariant forall i :: 0 <= i < j ==> !(c[i].hash == h && c[i].key == key)
    {
      if c[j].hash == h && c[j].key == key {
        return;
      }
      j := j + 1;
    }
    j := -1;
  }

  /** What FindIn means: the tables together hold the map's entries. */
  lemma Found<K(!new), V>(b: seq<Chain<K, V>>, other: seq<Chain<K, V>>, m: map<K, V>, hash: K -> nat, key: K, j: nat)
    requires |b| > 0 && Contents(b) + Contents(other) == multiset(EntriesOf(m, hash))
    requires j < |b[Mod(hash(key), |b|)]| && b[Mod(hash(key), |b|)][j].key == key
    ensures key in m && b[Mod(hash(key), |b|)][j] == Entry(key, m[key], hash(key))
  {
    var i := Mod(hash(key), |b|);
    ContentsHas(b, i);
    assert b[i][j] in multiset(b[i]);
    assert b[i][j] in Contents(b) + Contents(other);
    assert b[i][j] in multiset(EntriesOf(m, hash));
  }

  lemma Missing<K(!new), V>(b: seq<Chain<K, V>>, m: map<K, V>, hash: K -> nat, key: K)
    requires |b| > 0 && Placed(b)
    requires forall e :: e in b[Mod(hash(key), |b|)] ==> !(e.hash == hash(key) && e.key == key)
    ensures key in m ==> Entry(key, m[key], hash(key)) !in Contents(b)
  {
    if key in m {
      PlacedBucket(b, Entry(key, m[key], hash(key)));
    }
  }

  /** Pushes the nodes of a chain, head first, onto the fronts of their new buckets. */
  method Spread<K, V>(c: Chain<K, V>, b: seq<Chain<K, V>>) returns (nb: seq<Chain<K, V>>, moved: nat)
    requires |b| > 0 && Placed(b)
    ensures |nb| == |b| && Placed(nb) && moved == |c|
    ensures Contents(nb) == Contents(b) + multiset(c)
  {
    nb, moved := b, 0;
    while moved < |c|
      invariant 0 <= moved <= |c| && |nb| == |b| && Placed(nb)
      invariant Contents(nb) == Contents(b) + multiset(c[..moved])
    {
      var n := c[moved];
      var idx := Mod(n.hash, |nb|);
      PushFront(nb, n);
      assert c[..moved + 1] == c[..moved] + [n];
      nb := nb[idx := [n] + nb[idx]];
      moved := moved + 1;
    }
    assert c[..moved] == c;
  }

  lemma MoveContents<K, V>(b: seq<Chain<K, V>>, i: nat, other: seq<Chain<K, V>>, grown: seq<Chain<K, V>>)
    requires i < |b| && Placed(b)
    requires Contents(grown) == Contents(other) + multiset(b[i])
    ensures Placed(b[i := []])
    ensures Contents(b[i := []]) + Contents(grown) == Contents(b) + Contents(other)
    ensures |Contents(b[i := []])| + |b[i]| == |Contents(b)|
    ensures |Contents(grown)| == |Contents(other)| + |b[i]|
  {
    ContentsUpdate(b, i, []);
    assert Contents(b[i := []]) + multiset(b[i]) == Contents(b);
    assert |multiset(b[i])| == |b[i]|;
  }

  /** Overwriting one node rewrites exactly one mapping. */
  lemma ReplaceRep<K(!new), V>(b: seq<Chain<K, V>>, other: seq<Chain<K, V>>, m: map<K, V>, hash: K -> nat,
                               key: K, value: V, j: nat)
    requires |b| > 0 && Placed(b) && key in m && j < |b[Mod(hash(key), |b|)]|
    requires Contents(b) + Contents(other) == multiset(EntriesOf(m, hash))
    requires b[Mod(hash(key), |b|)][j] == Entry(key, m[key], hash(key))
    ensures var i := Mod(hash(key), |b|);
            var b' := b[i := b[i][j := Entry(key, value, hash(key))]];
            && Placed(b') && |Contents(b')| == |Contents(b)|
            && Contents(b') + Contents(other) == Contents(other) + Contents(b')
               == multiset(EntriesOf(m[key := value], hash))
  {
    EntriesRemove(m, hash, key);
    EntriesInsert(m - {key}, hash, key, value);
    assert (m - {key})[key := value] == m[key := value];
    ReplaceNode(b, Mod(hash(key), |b|), j, Entry(key, value, hash(key)));
  }

  /** Unlinking one node drops exactly one mapping. */
  lemma DropRep<K(!new), V>(b: seq<Chain<K, V>>, other: seq<Chain<K, V>>, m: map<K, V>, hash: K -> nat,
                            key: K, j: nat)
    requires |b| > 0 && Placed(b) && key in m && j < |b[Mod(hash(key), |b|)]|
    requires Contents(b) + Contents(other) == multiset(EntriesOf(m, hash))
    requires b[Mod(hash(key), |b|)][j] == Entry(key, m[key], hash(key))
    ensures var i := Mod(hash(key), |b|);
            var b' := b[i := b[i][..j] + b[i][j + 1..]];
            && Placed(b') && |Contents(b')| + 1 == |Contents(b)|
            && Contents(b') + Contents(other) == Contents(other) + Contents(b')
               == multiset(EntriesOf(m - {key}, hash))
  {
    EntriesRemove(m, hash, key);
    DropNode(b, Mod(hash(key), |b|), j);
  }

  /** Writing to a bucket that is not empty leaves the buckets behind the cursor empty. */
  lemma StillBehind<K, V>(b: seq<Chain<K, V>>, cursor: int, i: nat, b': seq<Chain<K, V>>)
    requires cursor <= |b| && (forall k :: 0 <= k < cursor ==> b[k] == []) && i < |b| == |b'| && b[i] != []
    requires forall k :: 0 <= k < |b| && k != i ==> b'[k] == b[k]
    ensures forall k :: 0 <= k < cursor ==> b'[k] == []
  {
  }

  class HashTable<K(!new, ==), V> {
    const hash: K -> nat
    var oldBuckets: seq<Chain<K, V>>
    var oldCount: nat
    var newBuckets: seq<Chain<K, V>>
    var newCount: nat
    var rehashIdx: int
    ghost var M: map<K, V>

    predicate Rehashing()
      reads this
    {
      rehashIdx >= 0
    }

    function Size(): nat
      reads this
    {
      oldCount + newCount
    }

    /** Both tables together hold M, each entry once and in its own bucket. */
    ghost predicate Stored()
      reads this
    {
      && Placed(oldBuckets) && Placed(newBuckets)
      && oldCount == |Contents(oldBuckets)| && newCount == |Contents(newBuckets)|
      && Contents(oldBuckets) + Contents(newBuckets) == multiset(EntriesOf(M, hash))
    }

    /** Sizes are powers of two; a rehash doubles or halves; buckets behind the cursor are empty. */
    ghost predicate Sized()
      reads this
    {
      && |oldBuckets| >= INITIAL_BUCKETS && PowerOfTwo(|oldBuckets|)
      && (!Rehashing() ==> rehashIdx == -1 && newBuckets == [])
      && (Rehashing() ==>
            && rehashIdx <= |oldBuckets|
            && (|newBuckets| == 2 * |oldBuckets| || |oldBuckets| == 2 * |newBuckets|)
            && |newBuckets| >= INITIAL_BUCKETS && PowerOfTwo(|newBuckets|)
            && forall i :: 0 <= i < rehashIdx ==> oldBuckets[i] == [])
    }

    /** The amortised bound, with room for `extra` further insertions before the cursor moves again. */
    ghost predicate Bounded(extra: nat)
      reads this
    {
      if !Rehashing() then oldCount < |oldBuckets|
      else if |newBuckets| == 2 * |oldBuckets| then Size() + extra <= |oldBuckets| + rehashIdx
      else 10 * (oldCount + Size() + extra) + |oldBuckets| - rehashIdx < 3 * |oldBuckets|
    }

    ghost predicate Valid()
      reads this
    {
      Sized() && Stored() && Bounded(0) && rehashIdx < |oldBuckets|
    }

    /** Buckets still to be migrated plus ten per entry left behind: every ticking operation lowers it by ten or ends
        the rehash. */
    ghost function Work(): int
      reads this
    {
      if Rehashing() then 10 * oldCount + |oldBuckets| - rehashIdx else 0
    }

    constructor (hash: K -> nat)
      ensures Valid() && M == map[] && this.hash == hash && |oldBuckets| == 4 && !Rehashing()
    {
      this.hash := hash;
      oldBuckets := seq(INITIAL_BUCKETS, _ => []);
      oldCount := 0;
      newBuckets := [];
      newCount := 0;
      rehashIdx := -1;
      M := map[];
      new;
      EmptyContents(oldBuckets);
      assert PowerOfTwo(4) by { assert PowerOfTwo(2) by { assert PowerOfTwo(1); } }
    }

    /** Moves the chain under the cursor. */
    method MigrateBucket()
      requires Sized() && Stored() && 0 <= rehashIdx < |oldBuckets| && oldBuckets[rehashIdx] != []
      modifies this`oldBuckets, this`oldCount, this`newBuckets, this`newCount
      ensures Stored() && oldBuckets == old(oldBuckets)[rehashIdx := []]
      ensures |newBuckets| == old(|newBuckets|)
      ensures oldCount < old(oldCount) && Size() == old(Size())
    {
      var c := oldBuckets[rehashIdx];
      var nb, moved := Spread(c, newBuckets);
      MoveContents(oldBuckets, rehashIdx, newBuckets, nb);
      oldBuckets := oldBuckets[rehashIdx := []];
      oldCount := oldCount - moved;
      newBuckets := nb;
      newCount := newCount + moved;
    }

    /** Migrates up to `budget` non-empty buckets, skipping at most ten times as many empty ones. */
    method RehashStep(budget: nat)
      requires Valid()
      modifies this
      ensures Valid() && M == old(M) && Size() == old(Size())
      ensures !old(Rehashing()) ==> !Rehashing() && oldCount == old(oldCount) && oldBuckets == old(oldBuckets)
      ensures old(Rehashing()) ==>
                if Rehashing() then rehashIdx <= old(rehashIdx) + 11 * budget
                else old(|oldBuckets|) <= old(rehashIdx) + 11 * budget && |oldBuckets| == old(|newBuckets|)
      ensures budget > 0 && Rehashing() ==> Bounded(1) && Work() + 10 <= old(Work())
      ensures Rehashing() ==> |newBuckets| == old(|newBuckets|) && |oldBuckets| == old(|oldBuckets|)
    {
      if !Rehashing() || budget == 0 {
        return;
      }
      var migrated := 0;
      var skipped := 0;
      while migrated < budget && skipped < 10 * budget && rehashIdx < |oldBuckets|
        invariant Migrating() && M == old(M) && Size() == old(Size())
        invariant |newBuckets| == old(|newBuckets|) && |oldBuckets| == old(|oldBuckets|)
        invariant rehashIdx == old(rehashIdx) + migrated + skipped && oldCount + migrated <= old(oldCount)
        invariant migrated <= budget && skipped <= 10 * budget
        decreases |oldBuckets| - rehashIdx
      {
        var moved := StepCursor();
        migrated, skipped := if moved then migrated + 1 else migrated, if moved then skipped else skipped + 1;
      }
      if rehashIdx >= |oldBuckets| {
        Finish();
      }
    }

    /** A rehash under way whose cursor may have reached the end. */
    ghost predicate Migrating()
      reads this
    {
      Sized() && Stored() && Rehashing()
    }

    /** Advances the cursor over one bucket, migrating it if it is not empty. */
    method StepCursor() returns (moved: bool)
      requires Migrating() && rehashIdx < |oldBuckets|
      modifies this
      ensures Migrating() && M == old(M) && Size() == old(Size()) && rehashIdx == old(rehashIdx) + 1
      ensures |newBuckets| == old(|newBuckets|) && |oldBuckets| == old(|oldBuckets|)
      ensures moved == (old(oldBuckets[rehashIdx]) != [])
      ensures if moved then oldCount < old(oldCount) else oldCount == old(oldCount)
    {
      moved := oldBuckets[rehashIdx] != [];
      if moved {
        MigrateBucket();
      }
      rehashIdx := rehashIdx + 1;
    }

    /** The old table is empty: the new one takes its place. */
    method Finish()
      requires Migrating() && rehashIdx == |oldBuckets|
      modifies this
      ensures Sized() && Stored() && !Rehashing() && M == old(M)
      ensures Size() == old(Size()) && oldBuckets == old(newBuckets)
    {
      EmptyContents(oldBuckets);
      oldBuckets, oldCount := newBuckets, newCount;
      newBuckets, newCount := [], 0;
      rehashIdx := -1;
    }

    method MaybeRehashStep()
      requires Valid()
      modifies this
      ensures Valid() && M == old(M) && Size() == old(Size())
      ensures !old(Rehashing()) ==> !Rehashing() && oldCount == old(oldCount) && oldBuckets == old(oldBuckets)
      ensures Rehashing() ==> Bounded(1) && Work() + 10 <= old(Work())
    {
      if Rehashing() {
        RehashStep(1);
      }
    }

    /** Non-const find: ticks the rehash, then looks in the old table and, mid-rehash, in the new one. */
    method Find(key: K) returns (r: Option<V>)
      requires Valid()
      modifies this
      ensures Valid() && M == old(M)
      ensures r == if key in M then Some(M[key]) else None
      ensures rehashIdx > 0 ==> Work() + 10 <= old(Work())
    {
      MaybeRehashStep();
      r := Peek(key);
    }

    /** Const find: the same answer at any cursor position, without moving the cursor. */
    method Peek(key: K) returns (r: Option<V>)
      requires Valid()
      ensures r == if key in M then Some(M[key]) else None
    {
      var inOld, j := Locate(key);
      if j < 0 {
        r := None;
      } else if inOld {
        r := Some(oldBuckets[Mod(hash(key), |oldBuckets|)][j].value);
      } else {
        r := Some(newBuckets[Mod(hash(key), |newBuckets|)][j].value);
      }
    }

    /** The node at position j of key's chain, in the old or the new table, is key's node. */
    ghost predicate At(key: K, inOld: bool, j: int)
      requires Sized() && key in M
      reads this
    {
      && (inOld || Rehashing())
      && var b := if inOld then oldBuckets else newBuckets;
         var c := b[Mod(hash(key), |b|)];
         0 <= j < |c| && c[j] == Entry(key, M[key], hash(key))
    }

    /** Which table and chain position holds key; j < 0 exactly when the map lacks it. */
    method Locate(key: K) returns (inOld: bool, j: int)
      requires Valid()
      ensures key !in M <==> j < 0
      ensures j >= 0 ==> At(key, inOld, j)
    {
      var h := hash(key);
      inOld := true;
      j := FindIn(oldBuckets, key, h);
      if j >= 0 {
        Found(oldBuckets, newBuckets, M, hash, key, j);
        return;
      }
      Missing(oldBuckets, M, hash, key);
      if Rehashing() {
        inOld := false;
        j := FindIn(newBuckets, key, h);
        if j >= 0 {
          Found(newBuckets, oldBuckets, M, hash, key, j);
          return;
        }
        Missing(newBuckets, M, hash, key);
      }
      if key in M {
        assert Entry(key, M[key], h) in EntriesOf(M, hash);
        assert Entry(key, M[key], h) in multiset(EntriesOf(M, hash));
      }
    }

    /** Writes through the value pointer a lookup returned; the cursor does not move. */
    method Assign(key: K, value: V, inOld: bool, j: int)
      requires Valid() && key in M && At(key, inOld, j)
      modifies this
      ensures Valid() && M == old(M)[key := value] && rehashIdx == old(rehashIdx) && Work() == old(Work())
    {
      if inOld {
        AssignOld(key, value, j);
      } else {
        AssignNew(key, value, j);
      }
    }

    /** Writes through the pointer a preceding find of a present key returned. */
    method WriteThrough(key: K, value: V)
      requires Valid() && key in M
      modifies this
      ensures Valid() && M == old(M)[key := value] && rehashIdx == old(rehashIdx) && Work() == old(Work())
    {
      var inOld, j := Locate(key);
      Assign(key, value, inOld, j);
    }

    method AssignOld(key: K, value: V, j: int)
      requires Valid() && key in M && At(key, true, j)
      modifies this
      ensures Valid() && M == old(M)[key := value] && rehashIdx == old(rehashIdx) && Work() == old(Work())
    {
      var i := Mod(hash(key), |oldBuckets|);
      var b := oldBuckets[i := oldBuckets[i][j := Entry(key, value, hash(key))]];
      ReplaceRep(oldBuckets, newBuckets, M, hash, key, value, j);
      StillBehind(oldBuckets, rehashIdx, i, b);
      hide Placed, Contents, EntriesOf;
      oldBuckets := b;
      M := M[key := value];
    }

    method AssignNew(key: K, value: V, j: int)
      requires Valid() && key in M && At(key, false, j)
      modifies this
      ensures Valid() && M == old(M)[key := value] && rehashIdx == old(rehashIdx) && Work() == old(Work())
    {
      var i := Mod(hash(key), |newBuckets|);
      ReplaceRep(newBuckets, oldBuckets, M, hash, key, value, j);
      hide Placed, Contents, EntriesOf;
      newBuckets := newBuckets[i := newBuckets[i][j := Entry(key, value, hash(key))]];
      M := M[key := value];
    }

    /** Puts a node for a key the map lacks at the head of its bucket in the table new keys go into. */
    method Link(key: K, value: V)
      requires Sized() && Stored() && key !in M
      modifies this
      ensures Sized() && Stored() && M == old(M)[key := value]
      ensures rehashIdx == old(rehashIdx) && |oldBuckets| == old(|oldBuckets|) && |newBuckets| == old(|newBuckets|)
      ensures if Rehashing() then oldCount == old(oldCount) && newCount == old(newCount) + 1
              else oldCount == old(oldCount) + 1 && newCount == old(newCount)
    {
      var n := Entry(key, value, hash(key));
      EntriesInsert(M, hash, key, value);
      if Rehashing() {
        var i := Mod(n.hash, |newBuckets|);
        PushFront(newBuckets, n);
        newBuckets := newBuckets[i := [n] + newBuckets[i]];
        newCount := newCount + 1;
      } else {
        var i := Mod(n.hash, |oldBuckets|);
        PushFront(oldBuckets, n);
        oldBuckets := oldBuckets[i := [n] + oldBuckets[i]];
        oldCount := oldCount + 1;
      }
      M := M[key := value];
    }

    method StartRehash(n: nat)
      requires Sized() && Stored() && !Rehashing() && rehashIdx == -1
      requires PowerOfTwo(n) && n >= INITIAL_BUCKETS && (n == 2 * |oldBuckets| || |oldBuckets| == 2 * n)
      modifies this
      ensures Migrating() && rehashIdx == 0 && |newBuckets| == n && M == old(M)
      ensures oldBuckets == old(oldBuckets) && oldCount == old(oldCount) && newCount == 0
    {
      newBuckets := seq(n, _ => []);
      newCount := 0;
      rehashIdx := 0;
      EmptyContents(newBuckets);
    }

    /** Insert or overwrite. A new key that would bring the load to 1 first starts a doubling rehash. */
    method InsertOrAssign(key: K, value: V) returns (isNew: bool)
      requires Valid()
      modifies this
      ensures Valid() && M == old(M)[key := value] && isNew == (key !in old(M))
      ensures rehashIdx > 0 ==> Work() + 10 <= old(Work())
      ensures !old(Rehashing()) ==> (Rehashing() <==> key !in old(M) && old(oldCount) + 1 >= old(|oldBuckets|))
      ensures !old(Rehashing()) && Rehashing() ==> |newBuckets| == 2 * |oldBuckets| == 2 * old(|oldBuckets|)
    {
      MaybeRehashStep();
      var inOld, j := Locate(key);
      if j >= 0 {
        Assign(key, value, inOld, j);
        return false;
      }
      if !Rehashing() && oldCount + 1 >= |oldBuckets| {
        assert (|oldBuckets| * 2) / 2 == |oldBuckets|;
        StartRehash(|oldBuckets| * 2);
      }
      Link(key, value);
      isNew := true;
    }

    /** Unlinks the node a lookup found. */
    method Unlink(key: K, inOld: bool, j: int)
      requires Valid() && key in M && At(key, inOld, j)
      modifies this
      ensures Valid() && M == old(M) - {key} && Work() <= old(Work()) && Rehashing() == old(Rehashing())
    {
      if inOld {
        UnlinkOld(key, j);
      } else {
        UnlinkNew(key, j);
      }
    }

    method UnlinkOld(key: K, j: int)
      requires Valid() && key in M && At(key, true, j)
      modifies this
      ensures Valid() && M == old(M) - {key} && Work() <= old(Work()) && Rehashing() == old(Rehashing())
    {
      var i := Mod(hash(key), |oldBuckets|);
      assert oldBuckets[i] != [] && i >= rehashIdx;
      DropRep(oldBuckets, newBuckets, M, hash, key, j);
      var b := oldBuckets[i := oldBuckets[i][..j] + oldBuckets[i][j + 1..]];
      assert forall k :: 0 <= k < rehashIdx ==> b[k] == [];
      oldBuckets := b;
      oldCount := oldCount - 1;
      M := M - {key};
    }

    method UnlinkNew(key: K, j: int)
      requires Valid() && key in M && At(key, false, j)
      modifies this
      ensures Valid() && M == old(M) - {key} && Work() <= old(Work()) && Rehashing() == old(Rehashing())
    {
      var i := Mod(hash(key), |newBuckets|);
      DropRep(newBuckets, oldBuckets, M, hash, key, j);
      newBuckets := newBuckets[i := newBuckets[i][..j] + newBuckets[i][j + 1..]];
      newCount := newCount - 1;
      M := M - {key};
    }

    /** Halves the table once its load is below a tenth, unless it is already minimal or mid-rehash. */
    method MaybeStartShrink()
      requires Valid()
      modifies this
      ensures Valid() && M == old(M)
      ensures if old(Rehashing()) then Work() == old(Work()) else rehashIdx <= 0
      ensures Rehashing() <==> old(Rehashing()) || (|oldBuckets| > 4 && 10 * oldCount < |oldBuckets|)
      ensures Rehashing() && !old(Rehashing()) ==> rehashIdx == 0 && |oldBuckets| == 2 * |newBuckets|
    {
      if Rehashing() || |oldBuckets| <= INITIAL_BUCKETS {
        return;
      }
      if oldCount * 10 < |oldBuckets| {
        StartRehash(|oldBuckets| / 2);
      }
    }

    /** Removes key; its value is handed out (take), so erase is the same call with the value dropped. */
    method Take(key: K) returns (r: Option<V>)
      requires Valid()
      modifies this
      ensures Valid() && M == old(M) - {key}
      ensures r == if key in old(M) then Some(old(M)[key]) else None
      ensures rehashIdx > 0 ==> Work() + 10 <= old(Work())
    {
      MaybeRehashStep();
      r := Peek(key);
      var inOld, j := Locate(key);
      if j < 0 {
        return;
      }
      Unlink(key, inOld, j);
      MaybeStartShrink();
    }

    method Erase(key: K) returns (removed: bool)
      requires Valid()
      modifies this
      ensures Valid() && M == old(M) - {key} && removed == (key in old(M))
      ensures rehashIdx > 0 ==> Work() + 10 <= old(Work())
    {
      var r := Take(key);
      removed := r.Some?;
    }

    method Clear()
      modifies this
      ensures Valid() && M == map[] && |oldBuckets| == 4 && !Rehashing()
    {
      oldBuckets := seq(INITIAL_BUCKETS, _ => []);
      oldCount := 0;
      newBuckets := [];
      newCount := 0;
      rehashIdx := -1;
      M := map[];
      EmptyContents(oldBuckets);
      assert PowerOfTwo(4) by { assert PowerOfTwo(2) by { assert PowerOfTwo(1); } }
    }

    /** Visits every entry exactly once, at any cursor position; returns the visiting order. */
    method ForEach() returns (visited: seq<Entry<K, V>>)
      requires Valid()
      ensures multiset(visited) == multiset(EntriesOf(M, hash))
      ensures visited == Flatten(oldBuckets) + Flatten(newBuckets)
    {
      visited := [];
      for i := 0 to |oldBuckets|
        invariant visited == Flatten(oldBuckets[..i])
      {
        visited := visited + oldBuckets[i];
        FlattenSnoc(oldBuckets[..i], oldBuckets[i]);
        assert oldBuckets[..i + 1] == oldBuckets[..i] + [oldBuckets[i]];
      }
      assert oldBuckets[..|oldBuckets|] == oldBuckets;
      if Rehashing() {
        for i := 0 to |newBuckets|
          invariant visited == Flatten(oldBuckets) + Flatten(newBuckets[..i])
        {
          visited := visited + newBuckets[i];
          FlattenSnoc(newBuckets[..i], newBuckets[i]);
          assert newBuckets[..i + 1] == newBuckets[..i] + [newBuckets[i]];
        }
        assert newBuckets[..|newBuckets|] == newBuckets;
      }
      FlattenContents(oldBuckets);
      FlattenContents(newBuckets);
    }

    /** size() counts the map, stays strictly below the bucket count of the table new keys go into, and bucket counts
        are powers of two no smaller than four: no rehash target ever has to grow before its rehash ends. */
    lemma LoadBelowOne()
      requires Valid()
      ensures Size() == |M|
      ensures Size() < if Rehashing() then |newBuckets| else |oldBuckets|
      ensures |oldBuckets| >= 4 && PowerOfTwo(|oldBuckets|)
      ensures Rehashing() ==> |newBuckets| >= 4 && PowerOfTwo(|newBuckets|)
    {
      EntriesCard(M, hash);
      assert |Contents(oldBuckets) + Contents(newBuckets)| == Size() by {
        if !Rehashing() {
          EmptyContents(newBuckets);
        }
      }
      assert |multiset(EntriesOf(M, hash))| == |EntriesOf(M, hash)|;
    }
  }
}
