/** Loading a snapshot and serving from it: when the loaded database is free of empty aggregates
    (src/persistence/snapshot.cpp; the pops of src/commands/cmd_list.cpp and cmd_set.cpp rely on it). */
module LoadedAggregates {
  import opened Options
  import opened Ints
  import opened ByteStrings
  import opened Values
  import opened TimedMaps
  import opened Databases
  import opened SnapshotFormat
  import opened SnapshotCodec
  import opened AggregateValues

  // What the loader builds is empty exactly when no element was read.

  lemma {:induction false} BuildKind<S>(codec: ScoreBits<S>, tag: nat, items: seq<Item>)
    requires HASH <= tag <= ZSET
    ensures TagOf(Build(codec, tag, items)) == tag
    decreases |items|
  {
    if items != [] {
      BuildKind(codec, tag, items[..|items| - 1]);
    }
  }

  lemma {:induction false} BuildEmpty<S>(codec: ScoreBits<S>, tag: nat, items: seq<Item>)
    requires HASH <= tag <= ZSET && FitItems(tag, items)
    ensures IsEmpty(Build(codec, tag, items)) <==> items == []
  {
    if items != [] {
      var n := |items| - 1;
      BuildKind(codec, tag, items[..n]);
      assert FitsItem(tag, items[n]);
      AddedNotEmpty(codec, tag, Build(codec, tag, items[..n]), items[n]);
    }
  }

  lemma AddedNotEmpty<S>(codec: ScoreBits<S>, tag: nat, v: Value<S>, it: Item)
    requires HASH <= tag <= ZSET && TagOf(v) == tag && FitsItem(tag, it)
    ensures !IsEmpty(AddItem(codec, v, it))
  {
    match v
    case Hash(m) => assert it.a in m[it.a := it.b];
    case List(s) =>
    case Set(s) => assert it.a in s + {it.a};
    case Sorted(m) => assert it.a in m[it.a := codec.score(it.bits)];
  }

  lemma PayloadEmpty<S>(codec: ScoreBits<S>, tag: nat, p: Payload)
    requires Tag(tag) && FitsPayload(tag, p)
    ensures IsEmpty(ValueOf(codec, tag, p)) <==> p == Items([])
  {
    if p.Items? {
      BuildEmpty(codec, tag, p.items);
    }
  }

  // Which record decides a key's value.

  predicate Kept(raw: Raw, m: int, u: int)
    requires Int64(m) && Int64(u) && (raw.expire.Some? ==> Int64(raw.expire.value))
  {
    LoadTtl(raw.expire, m, u).Kept?
  }

  /** Record i is the last of the first n that is kept for its key. */
  ghost predicate Decides(raws: seq<Raw>, n: nat, m: int, u: int, i: int)
    requires Int64(m) && Int64(u) && Encodable(raws) && n <= |raws|
  {
    && 0 <= i < n && Kept(raws[i], m, u)
    && forall j :: i < j < n && raws[j].key == raws[i].key ==> !Kept(raws[j], m, u)
  }

  /** A key is loaded exactly if a record for it is kept, with the value of the last one, also when keys repeat. */
  lemma {:induction false} LoadedValue<S>(codec: ScoreBits<S>, raws: seq<Raw>, n: nat, m: int, u: int, k: Bytes)
    requires Int64(m) && Int64(u) && AllFit(raws) && Encodable(raws) && n <= |raws|
    ensures k in LoadAll(codec, raws, n, m, u) ==> exists i :: Decides(raws, n, m, u, i) && raws[i].key == k
    ensures forall i :: Decides(raws, n, m, u, i) && raws[i].key == k ==>
              && k in LoadAll(codec, raws, n, m, u)
              && LoadAll(codec, raws, n, m, u)[k].value == ValueOf(codec, raws[i].tag, raws[i].payload)
  {
    hide FitsPayload, ValueOf, LoadTtl;
    if n > 0 {
      LoadedValue(codec, raws, n - 1, m, u, k);
      var last := raws[n - 1];
      if last.key == k && Kept(last, m, u) {
        assert Decides(raws, n, m, u, n - 1);
      } else {
        forall i | 0 <= i < n - 1 && raws[i].key == k
          ensures Decides(raws, n, m, u, i) <==> Decides(raws, n - 1, m, u, i)
        {
        }
      }
    }
  }

  /** The exact condition, on records a caller can look at before loading: none that decides its key's value is an
      aggregate with no elements. */
  ghost predicate NoEmptyRecord(raws: seq<Raw>, m: int, u: int)
    requires Int64(m) && Int64(u) && Encodable(raws)
  {
    forall i :: Decides(raws, |raws|, m, u, i) ==> raws[i].payload != Items([])
  }

  lemma {:induction false} LoadedNoEmpty<S>(codec: ScoreBits<S>, raws: seq<Raw>, m: int, u: int)
    requires Int64(m) && Int64(u) && AllFit(raws) && Encodable(raws)
    ensures NoEmpty(LoadAll(codec, raws, |raws|, m, u)) <==> NoEmptyRecord(raws, m, u)
  {
    hide LoadAll, ValueOf, FitsPayload, Decides;
    var t := LoadAll(codec, raws, |raws|, m, u);
    forall i | Decides(raws, |raws|, m, u, i)
      ensures 0 <= i < |raws| && raws[i].key in t && (IsEmpty(t[raws[i].key].value) <==> raws[i].payload == Items([]))
    {
      DecidesBound(raws, m, u, i);
      LoadedValue(codec, raws, |raws|, m, u, raws[i].key);
      assert Fits(raws[i]);
      PayloadEmpty(codec, raws[i].tag, raws[i].payload);
    }
    forall k | k in t ensures exists i :: Decides(raws, |raws|, m, u, i) && 0 <= i < |raws| && raws[i].key == k {
      LoadedValue(codec, raws, |raws|, m, u, k);
    }
  }

  lemma DecidesBound(raws: seq<Raw>, m: int, u: int, i: int)
    requires Int64(m) && Int64(u) && Encodable(raws) && Decides(raws, |raws|, m, u, i)
    ensures 0 <= i < |raws|
  {
  }

  /** For every accepted file: loading it gives a database without empty aggregates if and only if no deciding record is
      an aggregate with no elements. */
  lemma {:induction false} AcceptedNoEmpty<S>(codec: ScoreBits<S>, d: Bytes, m: int, u: int)
    requires Int64(m) && Int64(u) && Parse(d).Some?
    ensures var raws := Parse(d).value;
            && AllFit(raws) && Encodable(raws)
            && (NoEmpty(LoadAll(codec, raws, |raws|, m, u)) <==> NoEmptyRecord(raws, m, u))
  {
    hide Parse, Encode, LoadAll, NoEmptyRecord, AllFit;
    ParseOnlyEncoded(d);
    LoadedNoEmpty(codec, Parse(d).value, m, u);
  }

  /** The condition can fail: the loader accepts a file with one list of no elements, and stores the empty list. */
  lemma {:induction false} EmptyListLoaded<S>(codec: ScoreBits<S>, k: Bytes, m: int, u: int)
    requires |k| < TWO32 && Int64(m) && Int64(u)
    ensures var raws := [Raw(LIST, None, k, Items([]))];
            && AllFit(raws) && Encodable(raws) && Parse(Encode(raws, 0, 0)) == Some(raws)
            && LoadAll(codec, raws, 1, m, u) == map[k := Cell(List([]), None)]
            && !NoEmpty(LoadAll(codec, raws, 1, m, u))
  {
    var raws := [Raw(LIST, None, k, Items([]))];
    hide Parse, Encode;
    ParseEncode(raws, 0, 0);
    assert LoadAll(codec, raws, 0, m, u) == map[];
    assert k in map[k := Cell(Empty<S>(LIST), None)];
  }

  /** A save and load keep the property. */
  lemma ReloadedNoEmpty<S>(live: map<Bytes, Cell<Value<S>>>, m0: int, u0: int, m1: int, u1: int)
    requires NoEmpty(live)
    ensures NoEmpty(Reloaded(live, m0, u0, m1, u1))
  {
  }
}

module Restarts {
  import opened Options
  import opened Ints
  import opened ByteStrings
  import opened ScoreOrder
  import opened HashTables
  import opened TimedMaps
  import opened ExpiryHeaps
  import opened Databases
  import opened SnapshotFormat
  import opened SnapshotCodec
  import opened AggregateValues
  import opened AggregateCommands
  import opened LoadedAggregates

  lemma StoredViews(db: Store, start: int)
    requires NoEmpty(db.Stored())
    ensures NoEmpty(db.View(start))
  {
  }

  /** Starting from a file: if it is accepted and holds no deciding empty aggregate, no key ever holds one, whatever is
      served afterwards. */
  method LoadAndServe(codec: ScoreBits<Score>, d: Bytes, db: Store, m: int, u: int, cmds: seq<Timed>, lib: Library)
    returns (ok: bool)
    requires Int64(m) && Int64(u) && Served(cmds, m)
    requires Parse(d).Some? && Encodable(Parse(d).value) ==> NoEmptyRecord(Parse(d).value, m, u)
    requires Sane(lib)
    modifies db
    ensures ok == Parse(d).Some?
    ensures ok ==> db.Valid() && forall later :: LastTime(cmds, |cmds|, m) <= later ==> NoEmpty(db.View(later))
    ensures !ok ==> unchanged(db)
  {
    hide Database.Valid, Database.View, Database.Stored, Parse, LoadAll, AllFit, NoEmpty, NoEmptyRecord, Served;
    ok := DecodeSnapshot(codec, d, db, m, u);
    if ok {
      AcceptedNoEmpty(codec, d, m, u);
      StoredViews(db, m);
      ServeFrom(db, cmds, m, lib);
    }
  }

  /** A restart: saving a database without empty aggregates, loading the file at later clocks and serving from it. */
  method RestartAndServe(codec: ScoreBits<Score>, running: Store, m0: int, u0: int, db: Store, m1: int, u1: int, cmds: seq<Timed>,
                         lib: Library)
    requires running.Valid() && Int64(u0) && Int64(m1) && Int64(u1) && SaveableKeys(codec, running.View(m0), m0, u0)
    requires NoEmpty(running.View(m0)) && Served(cmds, m1)
    requires Sane(lib)
    modifies running.expires, db
    ensures db.Valid() && forall later :: LastTime(cmds, |cmds|, m1) <= later ==> NoEmpty(db.View(later))
  {
    ReloadedNoEmpty(running.View(m0), m0, u0, m1, u1);
    hide Database.Valid, Database.View, Database.Stored, SaveableKeys, Reloaded, NoEmpty, Served;
    var _ := SaveAndLoad(codec, running, m0, u0, db, m1, u1);
    StoredViews(db, m1);
    ServeFrom(db, cmds, m1, lib);
  }
}
