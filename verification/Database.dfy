/** The reference: a map whose entries vanish exactly at their deadline. */
module TimedMaps {
  import opened Options

  datatype Cell<V> = Cell(value: V, deadline: Option<int>)

  /** The two physical tables seen as one. */
  ghost function Joined<K(!new), V>(ks: map<K, V>, ex: map<K, int>): map<K, Cell<V>>
  {
    map k | k in ks :: Cell(ks[k], if k in ex then Some(ex[k]) else None)
  }

  predicate Overdue<V>(c: Cell<V>, now: int)
  {
    c.deadline.Some? && c.deadline.value <= now
  }

  /** What exists at time now. */
  ghost function Live<K(!new), V>(t: map<K, Cell<V>>, now: int): map<K, Cell<V>>
  {
    map k | k in t && !Overdue(t[k], now) :: t[k]
  }

  /** Dropping overdue entries early is invisible at every later time. */
  lemma LiveLater<K(!new), V>(t: map<K, Cell<V>>, now: int, later: int)
    requires now <= later
    ensures Live(Live(t, now), later) == Live(t, later)
  {
  }

  /** Lazy deletion: taking an overdue key out of both tables changes nothing that is live. */
  lemma DropOverdue<K(!new), V>(ks: map<K, V>, ex: map<K, int>, k: K, now: int)
    requires k in ex && ex[k] <= now
    ensures Live(Joined(ks - {k}, ex - {k}), now) == Live(Joined(ks, ex), now)
  {
  }

  lemma JoinedPut<K(!new), V>(ks: map<K, V>, ex: map<K, int>, k: K, v: V, d: int)
    ensures Joined(ks[k := v], ex[k := d]) == Joined(ks, ex)[k := Cell(v, Some(d))]
  {
  }

  lemma JoinedValue<K(!new), V>(ks: map<K, V>, ex: map<K, int>, k: K, v: V)
    requires ex.Keys <= ks.Keys
    ensures Joined(ks[k := v], ex) ==
            Joined(ks, ex)[k := if k in Joined(ks, ex) then Joined(ks, ex)[k].(value := v) else Cell(v, None)]
  {
  }

  lemma LiveHas<K(!new), V>(ks: map<K, V>, ex: map<K, int>, k: K, now: int)
    requires !(k in ex && ex[k] <= now)
    ensures k in ks <==> k in Live(Joined(ks, ex), now)
    ensures k in ks ==> Live(Joined(ks, ex), now)[k] == Cell(ks[k], if k in ex then Some(ex[k]) else None)
  {
  }

  lemma LiveLacks<K(!new), V>(ks: map<K, V>, ex: map<K, int>, k: K, now: int)
    requires k in ex && ex[k] <= now
    ensures k !in Live(Joined(ks, ex), now)
  {
  }

  /** A physical update of one key is the same update of what is live. */
  lemma LivePut<K(!new), V>(ks: map<K, V>, ex: map<K, int>, k: K, v: V, d: Option<int>, now: int)
    requires d.Some? ==> d.value > now
    ensures var ex' := if d.Some? then ex[k := d.value] else ex - {k};
            Live(Joined(ks[k := v], ex'), now) == Live(Joined(ks, ex), now)[k := Cell(v, d)]
  {
    var ex' := if d.Some? then ex[k := d.value] else ex - {k};
    var a, b := Live(Joined(ks[k := v], ex'), now), Live(Joined(ks, ex), now)[k := Cell(v, d)];
    assert a.Keys == b.Keys;
  }

  lemma LiveRemove<K(!new), V>(ks: map<K, V>, ex: map<K, int>, k: K, now: int)
    ensures Live(Joined(ks - {k}, ex - {k}), now) == Live(Joined(ks, ex), now) - {k}
  {
  }

  /** A sweep took exactly the keys in `gone` out of both tables, all of them overdue. */
  ghost predicate Swept<K(!new), V>(ks0: map<K, V>, ex0: map<K, int>, ks: map<K, V>, ex: map<K, int>, gone: set<K>, now: int)
  {
    (forall k :: k in gone ==> k in ex0 && ex0[k] <= now) && ks == ks0 - gone && ex == ex0 - gone
  }

  lemma NothingSwept<K(!new), V>(ks: map<K, V>, ex: map<K, int>, now: int)
    ensures Swept(ks, ex, ks, ex, {}, now)
  {
  }

  lemma SweepOne<K(!new), V>(ks0: map<K, V>, ex0: map<K, int>, ks: map<K, V>, ex: map<K, int>, gone: set<K>, now: int, k: K)
    requires Swept(ks0, ex0, ks, ex, gone, now) && k in ex && ex[k] <= now
    ensures k !in gone && Swept(ks0, ex0, ks - {k}, ex - {k}, gone + {k}, now)
  {
  }

  // The reference operations, on what is live at the time of the call.

  function RefGet<K, V>(m: map<K, Cell<V>>, k: K): Option<V>
  {
    if k in m then Some(m[k].value) else None
  }

  function RefExpireAt<K, V>(m: map<K, Cell<V>>, k: K, deadline: int, now: int): (map<K, Cell<V>>, bool)
  {
    if k !in m then (m, false)
    else if deadline <= now then (m - {k}, true)
    else (m[k := m[k].(deadline := Some(deadline))], true)
  }

  function RefPersist<K, V>(m: map<K, Cell<V>>, k: K): (map<K, Cell<V>>, bool)
  {
    if k !in m then (m, false) else (m[k := m[k].(deadline := None)], m[k].deadline.Some?)
  }

  function RefPttl<K, V>(m: map<K, Cell<V>>, k: K, now: int): int
  {
    if k !in m then -2
    else if m[k].deadline.None? then -1
    else m[k].deadline.value - now
  }
}

/** Min-heap of (deadline, key) with lazy invalidation (src/storage/expiry.h). */
module ExpiryHeaps {
  import opened Options
  import opened Buckets
  import opened HashTables

  datatype Due<K> = Due(deadline: int, key: K)

  /** One entry per live TTL. */
  ghost function DuesOf<K(!new)>(ttls: map<K, int>): set<Due<K>>
  {
    set k | k in ttls :: Due(ttls[k], k)
  }

  class ExpiryHeap<K(!new, ==)> {
    var heap: seq<Due<K>>

    /** The top is a least deadline; which of several equal ones, and the order below, is the library's business. */
    ghost predicate Valid()
      reads this
    {
      forall i :: 0 <= i < |heap| ==> heap[0].deadline <= heap[i].deadline
    }

    ghost function Entries(): multiset<Due<K>>
      reads this
    {
      multiset(heap)
    }

    constructor ()
      ensures Valid() && Entries() == multiset{}
    {
      heap := [];
    }

    method Push(deadline: int, key: K)
      requires Valid()
      modifies this
      ensures Valid() && Entries() == old(Entries()) + multiset{Due(deadline, key)}
    {
      var e := Due(deadline, key);
      heap := if heap == [] || deadline < heap[0].deadline then [e] + heap else heap + [e];
    }

    /** Least deadline of all entries. */
    method Top() returns (e: Due<K>)
      requires Valid() && heap != []
      ensures e == heap[0] && e in Entries() && forall d :: d in Entries() ==> e.deadline <= d.deadline
    {
      e := heap[0];
    }

    /** Removes the entry Top returns. */
    method Pop()
      requires Valid() && heap != []
      modifies this
      ensures Valid() && Entries() == old(Entries()) - multiset{old(heap[0])} && |heap| == old(|heap|) - 1
    {
      var rest := heap[1..];
      assert heap == [heap[0]] + rest;
      heap := LeastFirst(rest);
    }

    method Clear()
      modifies this
      ensures Valid() && Entries() == multiset{}
    {
      heap := [];
    }

    /** Discards everything and pushes one entry per live TTL. */
    method RebuildFrom(ttls: HashTable<K, int>)
      requires ttls.Valid()
      modifies this
      ensures Valid() && Entries() == multiset(DuesOf(ttls.M))
    {
      var live := ttls.ForEach();
      heap := Collect(live);
      assert live[..|live|] == live;
      DuesOfEntries(live, |live|, ttls.M, ttls.hash);
    }
  }

  /** Brings a least entry to the front. */
  method LeastFirst<K>(s: seq<Due<K>>) returns (r: seq<Due<K>>)
    ensures multiset(r) == multiset(s) && |r| == |s|
    ensures forall i :: 0 <= i < |r| ==> r[0].deadline <= r[i].deadline
  {
    if s == [] {
      return [];
    }
    var k := 0;
    for i := 0 to |s|
      invariant k < |s| && forall j :: 0 <= j < i ==> s[k].deadline <= s[j].deadline
    {
      if s[i].deadline < s[k].deadline {
        k := i;
      }
    }
    r := [s[k]] + (s[..k] + s[k + 1..]);
    ToFront(s, k);
    assert forall i :: 0 <= i < |r| ==> r[i] in multiset(r);
  }

  lemma ToFront<K>(s: seq<Due<K>>, k: nat)
    requires k < |s|
    ensures multiset([s[k]] + (s[..k] + s[k + 1..])) == multiset(s)
  {
    assert s == s[..k] + ([s[k]] + s[k + 1..]);
  }

  /** Pushing one entry per visited TTL. */
  method Collect<K>(live: seq<Entry<K, int>>) returns (heap: seq<Due<K>>)
    ensures multiset(heap) == DuesIn(live, |live|)
    ensures forall i :: 0 <= i < |heap| ==> heap[0].deadline <= heap[i].deadline
  {
    heap := [];
    for i := 0 to |live|
      invariant multiset(heap) == DuesIn(live, i)
      invariant forall j :: 0 <= j < |heap| ==> heap[0].deadline <= heap[j].deadline
    {
      var e := Due(live[i].value, live[i].key);
      heap := if heap == [] || e.deadline < heap[0].deadline then [e] + heap else heap + [e];
    }
  }

  ghost function DuesIn<K>(s: seq<Entry<K, int>>, n: nat): multiset<Due<K>>
    requires n <= |s|
  {
    if n == 0 then multiset{} else DuesIn(s, n - 1) + multiset{Due(s[n - 1].value, s[n - 1].key)}
  }

  /** Visiting every TTL once and pushing it gives one entry per TTL. */
  lemma {:induction false} DuesOfEntries<K(!new)>(s: seq<Entry<K, int>>, n: nat, m: map<K, int>, hash: K -> nat)
    requires n <= |s| && multiset(s[..n]) == multiset(EntriesOf(m, hash))
    ensures DuesIn(s, n) == multiset(DuesOf(m))
  {
    if n == 0 {
      EntriesCard(m, hash);
      assert |multiset(EntriesOf(m, hash))| == |EntriesOf(m, hash)|;
      assert m == map[];
      assert DuesOf(m) == {};
    } else {
      var e := s[n - 1];
      assert s[..n] == s[..n - 1] + [e];
      assert e in multiset(s[..n]);
      assert e in EntriesOf(m, hash);
      EntriesRemove(m, hash, e.key);
      DuesOfEntries(s, n - 1, m - {e.key}, hash);
      DuesRemove(m, e.key);
    }
  }

  lemma {:induction false} DuesCard<K(!new)>(m: map<K, int>)
    ensures |DuesOf(m)| == |m|
    decreases |m|
  {
    if m == map[] {
      assert DuesOf(m) == {};
    } else {
      var k :| k in m;
      DuesRemove(m, k);
      DuesCard(m - {k});
      assert |multiset(DuesOf(m))| == |DuesOf(m)|;
      assert |multiset(DuesOf(m - {k}))| == |DuesOf(m - {k})|;
    }
  }

  lemma DuesRemove<K(!new)>(m: map<K, int>, k: K)
    requires k in m
    ensures multiset(DuesOf(m)) == multiset(DuesOf(m - {k})) + multiset{Due(m[k], k)}
  {
    var r := m - {k};
    forall d | d in DuesOf(m) ensures d in DuesOf(r) + {Due(m[k], k)} {
      assert d.key in m && (d.key == k || d.key in r);
    }
    forall d | d in DuesOf(r) ensures d in DuesOf(m) {
      assert d.key in r && d.key in m;
    }
    assert DuesOf(m) == DuesOf(r) + {Due(m[k], k)};
    assert Due(m[k], k) !in DuesOf(r);
  }
}

/** The keyspace with lazy and active expiry (src/storage/database.cpp). */
module Databases {
  import opened Options
  import opened Ints
  import opened Buckets
  import opened HashTables
  import opened ExpiryHeaps
  import opened TimedMaps

  /** The guard is exactly "the sum does not fit". */
  predicate AddWouldOverflow(a: int, b: int): (r: bool)
    requires Int64(a) && Int64(b)
    ensures r <==> !Int64(a + b)
  {
    (b > 0 && a > INT64_MAX - b) || (b < 0 && a < INT64_MIN - b)
  }

  predicate SubWouldOverflow(a: int, b: int): (r: bool)
    requires Int64(a) && Int64(b)
    ensures r <==> !Int64(a - b)
  {
    (b > 0 && a < INT64_MIN + b) || (b < 0 && a > INT64_MAX + b)
  }

  /** A key as the snapshot sees it: its TTL is an absolute wall-clock time. */
  datatype Record<K, V> = Record(key: K, value: V, expireUnix: Option<int>)

  /** The records written for what is live: one per key, TTLs moved from the monotonic to the wall clock. */
  ghost predicate Snapshots<K(!new), V>(recs: seq<Record<K, V>>, live: map<K, Cell<V>>, nowMono: int, nowUnix: int)
  {
    && (forall i, j :: 0 <= i < j < |recs| ==> recs[i].key != recs[j].key)
    && (forall k :: k in live ==> exists i :: 0 <= i < |recs| && recs[i].key == k)
    && (forall i :: 0 <= i < |recs| ==> recs[i].key in live && recs[i] == RecordOf(recs[i].key, live[recs[i].key], nowMono, nowUnix))
  }

  function RecordOf<K, V>(k: K, c: Cell<V>, nowMono: int, nowUnix: int): Record<K, V>
  {
    Record(k, c.value, if c.deadline.None? then None else Some(nowUnix + (c.deadline.value - nowMono)))
  }

  /** The time a key has left is the same on both clocks. */
  lemma RecordRemaining<K, V>(k: K, c: Cell<V>, nowMono: int, nowUnix: int)
    ensures var r := RecordOf(k, c, nowMono, nowUnix);
            && r.key == k && r.value == c.value && (r.expireUnix.Some? <==> c.deadline.Some?)
            && (c.deadline.Some? ==> r.expireUnix.value - nowUnix == c.deadline.value - nowMono)
  {
  }

  /** The loader's verdict on a record's TTL: drop the record, or store it with a monotonic deadline or none. */
  datatype Loading = Dropped | Kept(deadline: Option<int>)

  function LoadTtl(expireUnix: Option<int>, nowMono: int, nowUnix: int): Loading
    requires Int64(nowMono) && Int64(nowUnix) && (expireUnix.Some? ==> Int64(expireUnix.value))
  {
    if expireUnix.None? then Kept(None)
    else if SubWouldOverflow(expireUnix.value, nowUnix) || AddWouldOverflow(nowMono, expireUnix.value - nowUnix) then Dropped
    else if nowMono + (expireUnix.value - nowUnix) <= nowMono then Dropped
    else Kept(Some(nowMono + (expireUnix.value - nowUnix)))
  }

  /** A record is dropped exactly if no time is left or the conversion does not fit; a kept one has the same time left. */
  lemma LoadRemaining(e: int, nowMono: int, nowUnix: int)
    requires Int64(nowMono) && Int64(nowUnix) && Int64(e)
    ensures var l := LoadTtl(Some(e), nowMono, nowUnix);
            && (l.Kept? <==> e > nowUnix && Int64(e - nowUnix) && Int64(nowMono + e - nowUnix))
            && (l.Kept? ==> l.deadline.Some? && l.deadline.value - nowMono == e - nowUnix)
    ensures LoadTtl(None, nowMono, nowUnix) == Kept(None)
  {
  }

  class Database<K(!new, ==), V> {
    var keyspace: HashTable<K, V>
    var expires: HashTable<K, int>
    var heap: ExpiryHeap<K>

    /** Every TTL belongs to a stored key, and has its entry in the heap. */
    ghost predicate Indexed()
      reads this, keyspace, expires, heap
    {
      && expires.M.Keys <= keyspace.M.Keys
      && forall k :: k in expires.M ==> Due(expires.M[k], k) in heap.Entries()
    }

    ghost predicate Valid()
      reads this, keyspace, expires, heap
    {
      && keyspace as object != expires as object
      && keyspace.Valid() && expires.Valid() && heap.Valid()
      && Indexed()
    }

    /** What is physically stored, and what of it is live. */
    ghost function Stored(): map<K, Cell<V>>
      reads this, keyspace, expires
    {
      Joined(keyspace.M, expires.M)
    }

    ghost function View(now: int): map<K, Cell<V>>
      reads this, keyspace, expires
    {
      Live(Stored(), now)
    }

    /** The key exists now and at every later time. */
    ghost predicate LivesOn(key: K, now: int)
      reads this, keyspace, expires
    {
      forall later :: now <= later ==> key in View(later)
    }

    /** From now on the key exists at exactly the times before d. */
    ghost predicate LivesUntil(key: K, now: int, d: int)
      reads this, keyspace, expires
    {
      forall later :: now <= later ==> (key in View(later) <==> later < d)
    }

    /** When a key is visible, by what the two tables hold. */
    lemma Visible(key: K)
      ensures forall t :: key in View(t) <==> key in keyspace.M && !(key in expires.M && expires.M[key] <= t)
      ensures forall t :: key in View(t) ==> View(t)[key].value == keyspace.M[key]
    {
    }

    /** A stored key lives on exactly if it has no TTL, else until its deadline. */
    lemma Future(key: K, now: int)
      requires key in keyspace.M
      ensures LivesOn(key, now) <==> key !in expires.M
      ensures key in expires.M ==> LivesUntil(key, now, expires.M[key])
    {
      Visible(key);
      if key in expires.M {
        var t := if now <= expires.M[key] then expires.M[key] else now;
        assert key !in View(t);
      }
    }

    constructor (hash: K -> nat)
      ensures Valid() && Stored() == map[]
      ensures fresh(keyspace) && fresh(expires) && fresh(heap)
    {
      keyspace := new HashTable(hash);
      expires := new HashTable(hash);
      heap := new ExpiryHeap();
    }

    /** Drops the key if its deadline has passed; the answer is the reference lookup. */
    method LookupAndExpire(key: K, now: int) returns (r: Option<V>)
      requires Valid()
      modifies keyspace, expires
      ensures Valid() && View(now) == old(View(now)) && r == RefGet(View(now), key)
      ensures r.Some? <==> key in View(now)
      ensures r.Some? ==> r.value == View(now)[key].value && key in keyspace.M && r.value == keyspace.M[key]
      ensures r.Some? ==> Stored() == old(Stored()) && keyspace.M == old(keyspace.M) && expires.M == old(expires.M)
      ensures key in expires.M ==> expires.M[key] > now
      ensures heap.heap == old(heap.heap)
    {
      hide HashTable.Valid, Live, Joined;
      var deadline := expires.Find(key);
      if deadline.Some? && deadline.value <= now {
        LiveLacks(keyspace.M, expires.M, key, now);
        DropOverdue(keyspace.M, expires.M, key, now);
        var _ := keyspace.Erase(key);
        var _ := expires.Erase(key);
        return None;
      }
      r := keyspace.Find(key);
      LiveHas(keyspace.M, expires.M, key, now);
    }

    /** Stores a value and clears any TTL. */
    method Set(key: K, v: V)
      requires Valid()
      modifies keyspace, expires
      ensures Valid() && Stored() == old(Stored())[key := Cell(v, None)]
      ensures forall now :: key in View(now) && View(now)[key].value == v
    {
      hide HashTable.Valid;
      var _ := expires.Erase(key);
      var _ := keyspace.InsertOrAssign(key, v);
      assert Stored().Keys == (old(Stored())[key := Cell(v, None)]).Keys;
    }

    /** Removes the key and its TTL, expired or not. */
    method Del(key: K) returns (present: bool)
      requires Valid()
      modifies keyspace, expires
      ensures Valid() && Stored() == old(Stored()) - {key} && present == (key in old(Stored()))
    {
      hide HashTable.Valid;
      var _ := expires.Erase(key);
      present := keyspace.Erase(key);
    }

    /** Removes a live key and hands its value out. */
    method Take(key: K, now: int) returns (r: Option<V>)
      requires Valid()
      modifies keyspace, expires
      ensures Valid() && r == RefGet(old(View(now)), key) && View(now) == old(View(now)) - {key}
    {
      hide HashTable.Valid, Live, Joined;
      var found := LookupAndExpire(key, now);
      if found.None? {
        return None;
      }
      LiveHas(keyspace.M, expires.M, key, now);
      LiveRemove(keyspace.M, expires.M, key, now);
      var _ := expires.Erase(key);
      r := keyspace.Take(key);
    }

    /** Writes through the pointer a lookup returned: the TTL stays. */
    method Overwrite(key: K, v: V, now: int) returns (found: bool)
      requires Valid()
      modifies keyspace, expires
      ensures Valid() && found == (key in old(View(now)))
      ensures View(now) == if found then old(View(now))[key := old(View(now))[key].(value := v)] else old(View(now))
      ensures found ==> forall later :: key in View(later) <==> key in old(View(later))
    {
      Visible(key);
      hide HashTable.Valid, Live, Joined;
      var r := LookupAndExpire(key, now);
      found := r.Some?;
      if found {
        LiveHas(keyspace.M, expires.M, key, now);
        var d := if key in expires.M then Some(expires.M[key]) else None;
        LivePut(keyspace.M, expires.M, key, v, d, now);
        assert d.None? ==> expires.M - {key} == expires.M;
        assert d.Some? ==> expires.M[key := d.value] == expires.M;
        keyspace.WriteThrough(key, v);
        Visible(key);
      }
    }

    /** Sets a deadline; one that is not in the future deletes the key at once. */
    method ExpireAt(key: K, deadline: int, now: int) returns (existed: bool)
      requires Valid()
      modifies keyspace, expires, heap
      ensures Valid() && (View(now), existed) == RefExpireAt(old(View(now)), key, deadline, now)
      ensures existed <==> key in old(View(now))
      ensures existed && deadline > now ==> LivesUntil(key, now, deadline)
      ensures existed && deadline > now ==> key in View(now) && View(now)[key].value == old(View(now))[key].value
      ensures existed && deadline <= now ==> key !in View(now)
      ensures View(now) - {key} == old(View(now)) - {key}
    {
      hide HashTable.Valid, Live, Joined;
      var v := LookupAndExpire(key, now);
      if v.None? {
        return false;
      }
      existed := true;
      if deadline <= now {
        LiveRemove(keyspace.M, expires.M, key, now);
        var _ := keyspace.Erase(key);
        var _ := expires.Erase(key);
      } else {
        LiveHas(keyspace.M, expires.M, key, now);
        LivePut(keyspace.M, expires.M, key, v.value, Some(deadline), now);
        assert keyspace.M[key := v.value] == keyspace.M;
        var _ := expires.InsertOrAssign(key, deadline);
        heap.Push(deadline, key);
        Future(key, now);
      }
    }

    /** Removes the TTL of a live key. */
    method Persist(key: K, now: int) returns (removed: bool)
      requires Valid()
      modifies keyspace, expires
      ensures Valid() && (View(now), removed) == RefPersist(old(View(now)), key)
      ensures removed <==> key in old(View(now)) && !old(LivesOn(key, now))
      ensures key in old(View(now)) ==> LivesOn(key, now) && View(now)[key].value == old(View(now))[key].value
      ensures View(now) - {key} == old(View(now)) - {key}
    {
      if key in keyspace.M {
        Future(key, now);
      }
      Visible(key);
      hide HashTable.Valid, Live, Joined, LivesOn, RefPersist;
      var v := LookupAndExpire(key, now);
      removed := false;
      PersistKeeps(View(now), key);
      if v.Some? {
        removed := EraseTtl(key, now);
      }
    }

    /** Apart from the key's TTL nothing changes. */
    lemma PersistKeeps(m: map<K, Cell<V>>, key: K)
      ensures RefPersist(m, key).0 - {key} == m - {key} && (key !in m ==> RefPersist(m, key) == (m, false))
      ensures key in m ==> key in RefPersist(m, key).0 && RefPersist(m, key).0[key].value == m[key].value
    {
    }

    method EraseTtl(key: K, now: int) returns (removed: bool)
      requires Valid() && key in keyspace.M && !(key in expires.M && expires.M[key] <= now)
      modifies expires
      ensures Valid() && key in old(View(now)) && (View(now), removed) == RefPersist(old(View(now)), key)
      ensures removed == (key in old(expires.M)) && LivesOn(key, now)
    {
      LiveHas(keyspace.M, expires.M, key, now);
      LivePut(keyspace.M, expires.M, key, keyspace.M[key], None, now);
      assert keyspace.M[key := keyspace.M[key]] == keyspace.M;
      hide HashTable.Valid, Live, Joined, LivesOn;
      removed := expires.Erase(key);
      Future(key, now);
    }

    /** -2 without the key, -1 without a TTL, else the remaining time, which is positive. */
    method Pttl(key: K, now: int) returns (ms: int)
      requires Valid()
      modifies keyspace, expires
      ensures Valid() && View(now) == old(View(now)) && ms == RefPttl(View(now), key, now)
      ensures ms == -2 <==> key !in View(now)
      ensures ms == -1 <==> key in View(now) && LivesOn(key, now)
      ensures ms != -2 && ms != -1 ==> ms > 0 && LivesUntil(key, now, now + ms)
    {
      hide HashTable.Valid, LivesOn, LivesUntil;
      var v := LookupAndExpire(key, now);
      if v.None? {
        return -2;
      }
      LiveHas(keyspace.M, expires.M, key, now);
      var deadline := expires.Find(key);
      Future(key, now);
      if deadline.None? {
        return -1;
      }
      var remaining := deadline.value - now;
      ms := if remaining > 0 then remaining else 0;
    }

    /** One cron cycle: pops due heap entries and deletes the keys whose TTL they still describe. The wall-clock budget
        may end the loop after any entry. `gone` is what the cycle deleted. */
    method RunActiveExpirationCycle(now: int, maxKeys: nat) returns (expired: nat, timedOut: bool, ghost gone: set<K>)
      requires Valid()
      modifies keyspace, expires, heap
      ensures Valid() && View(now) == old(View(now))
      ensures expired == |gone| <= maxKeys && Swept(old(keyspace.M), old(expires.M), keyspace.M, expires.M, gone, now)
      ensures !timedOut && expired < maxKeys ==> Stored() == View(now)
      ensures |heap.heap| <= 2 * (|expires.M| + 1024)
    {
      hide Valid, View, Stored, Swept;
      expired, timedOut, gone := SweepDue(now, maxKeys);
      if !timedOut && expired < maxKeys {
        NothingOverdue(now);
      }
      MaybeCompactExpiryHeap();
    }

    /** The cycle's loop: ends when the key budget is used, the clock says so, or nothing more is due. */
    method SweepDue(now: int, maxKeys: nat) returns (expired: nat, timedOut: bool, ghost gone: set<K>)
      requires Valid()
      modifies keyspace, expires, heap
      ensures Valid() && View(now) == old(View(now))
      ensures expired == |gone| <= maxKeys && Swept(old(keyspace.M), old(expires.M), keyspace.M, expires.M, gone, now)
      ensures !timedOut && expired < maxKeys ==> heap.heap == [] || heap.heap[0].deadline > now
    {
      hide Valid, View, Stored, Swept;
      expired, timedOut, gone := 0, false, {};
      NothingSwept(keyspace.M, expires.M, now);
      while expired < maxKeys && heap.heap != []
        invariant Valid() && !timedOut && View(now) == old(View(now)) && expired == |gone| <= maxKeys
        invariant Swept(old(keyspace.M), old(expires.M), keyspace.M, expires.M, gone, now)
        decreases |heap.heap|
      {
        var due, top := PeekDue(now);
        if !due {
          break;
        }
        ghost var ks, ex := keyspace.M, expires.M;
        var isLive := PopDue(top, now);
        if isLive {
          SweepOne(old(keyspace.M), old(expires.M), ks, ex, gone, now, top.key);
          expired, gone := expired + 1, gone + {top.key};
        }
        if * {
          timedOut := true;
          break;
        }
      }
    }

    /** The least deadline, and whether it has come. */
    method PeekDue(now: int) returns (due: bool, top: Due<K>)
      requires Valid() && heap.heap != []
      ensures top == heap.heap[0] && due == (top.deadline <= now)
    {
      top := heap.Top();
      due := top.deadline <= now;
    }

    /** Pops the top entry; if it still describes its key's TTL, the key goes. */
    method PopDue(top: Due<K>, now: int) returns (isLive: bool)
      requires Valid() && heap.heap != [] && top == heap.heap[0] && top.deadline <= now
      modifies keyspace, expires, heap
      ensures Valid() && View(now) == old(View(now)) && |heap.heap| == old(|heap.heap|) - 1
      ensures isLive == (top.key in old(expires.M) && old(expires.M)[top.key] == top.deadline)
      ensures keyspace.M == if isLive then old(keyspace.M) - {top.key} else old(keyspace.M)
      ensures expires.M == if isLive then old(expires.M) - {top.key} else old(expires.M)
    {
      hide HashTable.Valid, Live, Joined;
      heap.Pop();
      var live := expires.Find(top.key);
      isLive := live.Some? && live.value == top.deadline;
      if isLive {
        DropOverdue(keyspace.M, expires.M, top.key, now);
        var _ := keyspace.Erase(top.key);
        var _ := expires.Erase(top.key);
      }
    }

    /** An empty heap, or a top that is not due, means no stored key is overdue. */
    lemma NothingOverdue(now: int)
      requires Valid() && (heap.heap == [] || heap.heap[0].deadline > now)
      ensures Stored() == View(now)
    {
      forall k | k in expires.M ensures expires.M[k] > now {
        assert Due(expires.M[k], k) in heap.heap;
      }
    }

    method MaybeCompactExpiryHeap()
      requires Valid()
      modifies heap
      ensures Valid() && |heap.heap| <= 2 * (|expires.M| + 1024)
      ensures old(|heap.heap|) <= 2 * (|expires.M| + 1024) ==> heap.heap == old(heap.heap)
    {
      expires.LoadBelowOne();
      hide HashTable.Valid;
      if |heap.heap| > 2 * (expires.Size() + 1024) {
        heap.RebuildFrom(expires);
        DuesCard(expires.M);
        assert |heap.Entries()| == |expires.M|;
        assert forall k :: k in expires.M ==> Due(expires.M[k], k) in DuesOf(expires.M);
      }
    }

    /** FLUSHALL: both tables emptied; old heap entries stay behind as stale ones. */
    method Clear()
      requires Valid()
      modifies keyspace, expires
      ensures Valid() && Stored() == map[]
    {
      hide HashTable.Valid;
      keyspace.Clear();
      expires.Clear();
    }

    /** FLUSHALL ASYNC: the tables are handed out whole and replaced by fresh ones; nothing the worker frees is
        reachable from the database any more. */
    method TakeAll() returns (ks: HashTable<K, V>, ex: HashTable<K, int>)
      requires Valid()
      modifies this`keyspace, this`expires, heap
      ensures Valid() && Stored() == map[] && fresh(keyspace) && fresh(expires)
      ensures ks == old(keyspace) && ex == old(expires) && ks.Valid() && ex.Valid()
      ensures Joined(ks.M, ex.M) == old(Stored()) && heap.Entries() == multiset{}
    {
      hide HashTable.Valid;
      ks, ex := keyspace, expires;
      keyspace := new HashTable(ks.hash);
      expires := new HashTable(ex.hash);
      heap.Clear();
    }

    /** The cron tick's rehash of the keyspace changes nothing that is stored. */
    method RehashStep(budget: nat)
      requires Valid()
      modifies keyspace
      ensures Valid() && Stored() == old(Stored())
    {
      hide HashTable.Valid;
      keyspace.RehashStep(budget);
    }

    /** Visits every live key once for the encoder; an expired key is skipped, not deleted. */
    method ForEachForSnapshot(nowMono: int, nowUnix: int) returns (recs: seq<Record<K, V>>)
      requires Valid()
      modifies expires
      ensures Valid() && Stored() == old(Stored()) && Snapshots(recs, View(nowMono), nowMono, nowUnix)
    {
      hide HashTable.Valid, Indexed, Snapshots, RecordsTo, Live, Joined;
      var all := keyspace.ForEach();
      Visited(all, keyspace.M, keyspace.hash);
      RecordsSnapshot(all, keyspace.M, expires.M, nowMono, nowUnix);
      recs := Emit(all, nowMono, nowUnix);
    }

    method Emit(all: seq<Entry<K, V>>, nowMono: int, nowUnix: int) returns (recs: seq<Record<K, V>>)
      requires Valid()
      modifies expires
      ensures Valid() && expires.M == old(expires.M) && recs == RecordsTo(all, |all|, expires.M, nowMono, nowUnix)
    {
      hide HashTable.Valid;
      recs := [];
      for i := 0 to |all|
        invariant Valid() && expires.M == old(expires.M)
        invariant recs == RecordsTo(all, i, expires.M, nowMono, nowUnix)
      {
        var d := expires.Find(all[i].key);
        if d.None? {
          recs := recs + [Record(all[i].key, all[i].value, None)];
        } else if d.value > nowMono {
          recs := recs + [Record(all[i].key, all[i].value, Some(nowUnix + (d.value - nowMono)))];
        }
      }
    }

    /** Stores one decoded record, or drops it if its TTL has passed or does not convert. */
    method LoadKey(key: K, value: V, expireUnix: Option<int>, nowMono: int, nowUnix: int)
      requires Valid() && Int64(nowMono) && Int64(nowUnix) && (expireUnix.Some? ==> Int64(expireUnix.value))
      modifies keyspace, expires, heap
      ensures Valid()
      ensures var l := LoadTtl(expireUnix, nowMono, nowUnix);
              Stored() ==
              if l.Dropped? then old(Stored())
              else if l.deadline.None? && key in old(Stored()) then old(Stored())[key := old(Stored())[key].(value := value)]
              else old(Stored())[key := Cell(value, l.deadline)]
    {
      hide HashTable.Valid, Joined;
      if expireUnix.Some? {
        if SubWouldOverflow(expireUnix.value, nowUnix) || AddWouldOverflow(nowMono, expireUnix.value - nowUnix) {
          return;
        }
        var deadline := nowMono + (expireUnix.value - nowUnix);
        if deadline <= nowMono {
          return;
        }
        JoinedPut(keyspace.M, expires.M, key, value, deadline);
        var _ := expires.InsertOrAssign(key, deadline);
        heap.Push(deadline, key);
      }
      JoinedValue(old(keyspace.M), old(expires.M), key, value);
      var _ := keyspace.InsertOrAssign(key, value);
    }
  }

  /** What the callback emits for the first n visited entries. */
  ghost function RecordsTo<K(!new), V>(all: seq<Entry<K, V>>, n: nat, ex: map<K, int>, nowMono: int, nowUnix: int): seq<Record<K, V>>
    requires n <= |all|
  {
    if n == 0 then [] else
      var e := all[n - 1];
      RecordsTo(all, n - 1, ex, nowMono, nowUnix) +
      if e.key !in ex then [Record(e.key, e.value, None)]
      else if ex[e.key] > nowMono then [Record(e.key, e.value, Some(nowUnix + (ex[e.key] - nowMono)))]
      else []
  }

  /** Every emitted record describes a visited live entry. */
  lemma {:induction false} RecordsSound<K(!new), V>(all: seq<Entry<K, V>>, n: nat, ks: map<K, V>, ex: map<K, int>, nowMono: int, nowUnix: int, a: nat)
    requires n <= |all| && forall i :: 0 <= i < |all| ==> all[i].key in ks && all[i].value == ks[all[i].key]
    requires a < |RecordsTo(all, n, ex, nowMono, nowUnix)|
    ensures var rec, live := RecordsTo(all, n, ex, nowMono, nowUnix)[a], Live(Joined(ks, ex), nowMono);
            && rec.key in live && rec == RecordOf(rec.key, live[rec.key], nowMono, nowUnix)
            && exists j :: 0 <= j < n && all[j].key == rec.key
  {
    if a < |RecordsTo(all, n - 1, ex, nowMono, nowUnix)| {
      RecordsSound(all, n - 1, ks, ex, nowMono, nowUnix, a);
    } else {
      assert all[n - 1].key == RecordsTo(all, n, ex, nowMono, nowUnix)[a].key;
    }
  }

  /** No visited live entry is lost. */
  lemma {:induction false} RecordsComplete<K(!new), V>(all: seq<Entry<K, V>>, n: nat, ex: map<K, int>, nowMono: int, nowUnix: int, j: nat)
    returns (a: nat)
    requires j < n <= |all| && !(all[j].key in ex && ex[all[j].key] <= nowMono)
    ensures a < |RecordsTo(all, n, ex, nowMono, nowUnix)| && RecordsTo(all, n, ex, nowMono, nowUnix)[a].key == all[j].key
  {
    if j < n - 1 {
      a := RecordsComplete(all, n - 1, ex, nowMono, nowUnix, j);
    } else {
      a := |RecordsTo(all, n - 1, ex, nowMono, nowUnix)|;
    }
  }

  /** No key is emitted twice. */
  lemma {:induction false} RecordsDistinct<K(!new), V>(all: seq<Entry<K, V>>, n: nat, ks: map<K, V>, ex: map<K, int>, nowMono: int, nowUnix: int, a: nat, b: nat)
    requires n <= |all| && forall i :: 0 <= i < |all| ==> all[i].key in ks && all[i].value == ks[all[i].key]
    requires forall i, j :: 0 <= i < j < |all| ==> all[i].key != all[j].key
    requires a < b < |RecordsTo(all, n, ex, nowMono, nowUnix)|
    ensures RecordsTo(all, n, ex, nowMono, nowUnix)[a].key != RecordsTo(all, n, ex, nowMono, nowUnix)[b].key
  {
    var prev := RecordsTo(all, n - 1, ex, nowMono, nowUnix);
    if b < |prev| {
      RecordsDistinct(all, n - 1, ks, ex, nowMono, nowUnix, a, b);
    } else {
      RecordsSound(all, n - 1, ks, ex, nowMono, nowUnix, a);
      var j :| 0 <= j < n - 1 && all[j].key == prev[a].key;
    }
  }

  lemma RecordsSnapshot<K(!new), V>(all: seq<Entry<K, V>>, ks: map<K, V>, ex: map<K, int>, nowMono: int, nowUnix: int)
    requires forall i :: 0 <= i < |all| ==> all[i].key in ks && all[i].value == ks[all[i].key]
    requires forall i, j :: 0 <= i < j < |all| ==> all[i].key != all[j].key
    requires forall k :: k in ks ==> exists i :: 0 <= i < |all| && all[i].key == k
    ensures Snapshots(RecordsTo(all, |all|, ex, nowMono, nowUnix), Live(Joined(ks, ex), nowMono), nowMono, nowUnix)
  {
    var recs, live := RecordsTo(all, |all|, ex, nowMono, nowUnix), Live(Joined(ks, ex), nowMono);
    forall a | 0 <= a < |recs| ensures recs[a].key in live && recs[a] == RecordOf(recs[a].key, live[recs[a].key], nowMono, nowUnix) {
      RecordsSound(all, |all|, ks, ex, nowMono, nowUnix, a);
    }
    forall a, b | 0 <= a < b < |recs| ensures recs[a].key != recs[b].key {
      RecordsDistinct(all, |all|, ks, ex, nowMono, nowUnix, a, b);
    }
    forall k | k in live ensures exists a :: 0 <= a < |recs| && recs[a].key == k {
      var j :| 0 <= j < |all| && all[j].key == k;
      var a := RecordsComplete(all, |all|, ex, nowMono, nowUnix, j);
    }
  }

  /** for_each's order lists each stored key once. */
  lemma Visited<K(!new), V>(all: seq<Entry<K, V>>, m: map<K, V>, hash: K -> nat)
    requires multiset(all) == multiset(EntriesOf(m, hash))
    ensures forall i :: 0 <= i < |all| ==> all[i].key in m && all[i].value == m[all[i].key]
    ensures forall k :: k in m ==> exists i :: 0 <= i < |all| && all[i].key == k
    ensures forall i, j :: 0 <= i < j < |all| ==> all[i].key != all[j].key
  {
    forall i | 0 <= i < |all| ensures all[i] in EntriesOf(m, hash) {
      assert all[i] in multiset(all);
    }
    forall k | k in m ensures exists i :: 0 <= i < |all| && all[i].key == k {
      var e := Entry(k, m[k], hash(k));
      assert e in multiset(EntriesOf(m, hash));
      assert e in multiset(all);
    }
    forall i, j | 0 <= i < j < |all| ensures all[i].key != all[j].key {
      assert multiset(all)[all[i]] <= 1;
      if all[i] == all[j] {
        Twice(all, i, j);
        assert false;
      }
    }
  }

  lemma Twice<T>(s: seq<T>, i: nat, j: nat)
    requires i < j < |s| && s[i] == s[j]
    ensures multiset(s)[s[i]] >= 2
  {
    assert s == s[..i] + [s[i]] + s[i + 1..j] + [s[j]] + s[j + 1..];
  }
}
