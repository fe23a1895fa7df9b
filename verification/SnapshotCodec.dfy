/** Saving and loading a whole database (src/persistence/snapshot.cpp). */
module SnapshotCodec {
  import opened Options
  import opened Ints
  import opened Maps
  import opened ByteStrings
  import opened Values
  import opened Crc32s
  import opened HashTables
  import opened TimedMaps
  import opened ExpiryHeaps
  import opened Databases
  import opened SnapshotFormat

  /** Scores and their 64-bit patterns. `same` is the comparison by which an upsert leaves a score alone; nothing is
      asked of it, so it may be that of doubles. */
  datatype ScoreBits<!S> = ScoreBits(bits: S -> nat, score: nat -> S, same: (S, S) -> bool)

  /** Every score held is a 64-bit value that its pattern gives back. */
  ghost predicate Exact<S>(codec: ScoreBits<S>, v: Value<S>)
  {
    v.Sorted? ==> forall k :: k in v.scores ==> codec.bits(v.scores[k]) < TWO64 && codec.score(codec.bits(v.scores[k])) == v.scores[k]
  }

  function TagOf<S>(v: Value<S>): (t: nat)
    ensures Tag(t) && (t == STRING <==> v.Str?)
  {
    match v
    case Str(_) => STRING
    case Hash(_) => HASH
    case List(_) => LIST
    case Set(_) => SET
    case Sorted(_) => ZSET
  }

  /** The type numbers of the format. */
  lemma TagNumbers<S>(v: Value<S>)
    ensures TagOf(v) == match v case Str(_) => 1 case Hash(_) => 2 case List(_) => 3 case Set(_) => 4 case Sorted(_) => 5
  {
  }

  function Count<S>(v: Value<S>): nat
    requires !v.Str?
  {
    match v
    case Hash(m) => |m|
    case List(s) => |s|
    case Set(s) => |s|
    case Sorted(m) => |m|
  }

  /** Every string and count fits its length field. */
  ghost predicate Small<S>(v: Value<S>)
  {
    match v
    case Str(s) => |s| < TWO32
    case Hash(m) => |m| < TWO32 && forall k :: k in m ==> |k| < TWO32 && |m[k]| < TWO32
    case List(s) => |s| < TWO32 && forall i :: 0 <= i < |s| ==> |s[i]| < TWO32
    case Set(s) => |s| < TWO32 && forall k :: k in s ==> |k| < TWO32
    case Sorted(m) => |m| < TWO32 && forall k :: k in m ==> |k| < TWO32
  }

  // What the loader builds from the elements it reads.

  function Empty<S>(tag: nat): Value<S>
    requires HASH <= tag <= ZSET
  {
    if tag == HASH then Hash(map[]) else if tag == LIST then List([]) else if tag == SET then Set({}) else Sorted(map[])
  }

  function AddItem<S>(codec: ScoreBits<S>, v: Value<S>, it: Item): Value<S>
  {
    match (v, it)
    case (Hash(m), Pair(a, b)) => Hash(m[a := b])
    case (List(s), One(a)) => List(s + [a])
    case (Set(s), One(a)) => Set(s + {a})
    case (Sorted(m), Scored(a, bits)) => Sorted(if a in m && codec.same(m[a], codec.score(bits)) then m else m[a := codec.score(bits)])
    case _ => v
  }

  function Build<S>(codec: ScoreBits<S>, tag: nat, items: seq<Item>): Value<S>
    requires HASH <= tag <= ZSET
    decreases |items|
  {
    if items == [] then Empty(tag) else AddItem(codec, Build(codec, tag, items[..|items| - 1]), items[|items| - 1])
  }

  lemma BuildSnoc<S>(codec: ScoreBits<S>, tag: nat, items: seq<Item>, it: Item)
    requires HASH <= tag <= ZSET
    ensures Build(codec, tag, items + [it]) == AddItem(codec, Build(codec, tag, items), it)
  {
    assert (items + [it])[..|items|] == items;
  }

  function ValueOf<S>(codec: ScoreBits<S>, tag: nat, p: Payload): Value<S>
    requires Tag(tag) && (p.Items? ==> tag != STRING)
  {
    match p
    case Text(s) => Str(s)
    case Items(items) => Build(codec, tag, items)
  }

  // Writing.

  method WriteUint(out: Bytes, v: nat, n: nat) returns (r: Bytes)
    ensures r == out + Le(v, n)
  {
    hide ByteOf;
    r := out;
    var rest := v;
    for i := 0 to n
      invariant r + Le(rest, n - i) == out + Le(v, n)
    {
      r, rest := r + [ByteOf(rest)], rest / 256;
    }
  }

  method WriteLp(out: Bytes, s: Bytes) returns (r: Bytes)
    ensures r == out + Lp(s)
  {
    hide Le;
    r := WriteUint(out, |s|, 4);
    r := r + s;
  }

  /** Each element says what the value holds: a field and then its value, a list's element of that position, a member, a
      member and the pattern of its score. */
  ghost predicate Describes<S>(codec: ScoreBits<S>, v: Value<S>, items: seq<Item>)
    requires !v.Str?
  {
    match v
    case Hash(m) => forall i :: 0 <= i < |items| ==> items[i].Pair? && items[i].a in m && m[items[i].a] == items[i].b
    case List(s) => |items| == |s| && forall i :: 0 <= i < |items| ==> items[i] == One(s[i])
    case Set(s) => forall i :: 0 <= i < |items| ==> items[i].One? && items[i].a in s
    case Sorted(m) => forall i :: 0 <= i < |items| ==> items[i].Scored? && items[i].a in m && codec.bits(m[items[i].a]) == items[i].bits
  }

  /** The container's own iteration: each element once, a list's from front to back. */
  method Enumerate<S>(codec: ScoreBits<S>, v: Value<S>) returns (items: seq<Item>)
    requires !v.Str? && Exact(codec, v)
    ensures |items| == Count(v) && Build(codec, TagOf(v), items) == v && Describes(codec, v, items)
    ensures Small(v) ==> FitItems(TagOf(v), items)
  {
    match v
    case Hash(m) => items := EnumerateHash(codec, m);
    case List(s) => items := EnumerateList(codec, s);
    case Set(s) => items := EnumerateSet(codec, s);
    case Sorted(m) => items := EnumerateSorted(codec, m);
  }

  method EnumerateHash<S>(codec: ScoreBits<S>, m: map<Bytes, Bytes>) returns (items: seq<Item>)
    ensures Describes(codec, Hash(m), items)
    ensures |items| == |m| && Build(codec, HASH, items) == Hash(m) && (Small<S>(Hash(m)) ==> FitItems(HASH, items))
  {
    items := [];
    var rest := m.Keys;
    assert m - rest == map[];
    while rest != {}
      invariant rest <= m.Keys && |items| + |rest| == |m| && Build(codec, HASH, items) == Hash(m - rest)
      invariant Describes(codec, Hash(m), items)
      invariant Small<S>(Hash(m)) ==> FitItems(HASH, items)
      decreases |rest|
    {
      var k :| k in rest;
      BuildSnoc(codec, HASH, items, Pair(k, m[k]));
      Retake(m, rest, k);
      items, rest := items + [Pair(k, m[k])], rest - {k};
    }
    assert m - {} == m;
  }

  method EnumerateSorted<S>(codec: ScoreBits<S>, m: map<Bytes, S>) returns (items: seq<Item>)
    requires Exact(codec, Sorted(m))
    ensures Describes(codec, Sorted(m), items)
    ensures |items| == |m| && Build(codec, ZSET, items) == Sorted(m) && (Small<S>(Sorted(m)) ==> FitItems(ZSET, items))
  {
    items := [];
    var rest := m.Keys;
    assert m - rest == map[];
    while rest != {}
      invariant rest <= m.Keys && |items| + |rest| == |m| && Build(codec, ZSET, items) == Sorted(m - rest)
      invariant Describes(codec, Sorted(m), items)
      invariant Small<S>(Sorted(m)) ==> FitItems(ZSET, items)
      decreases |rest|
    {
      var k :| k in rest;
      BuildSnoc(codec, ZSET, items, Scored(k, codec.bits(m[k])));
      Retake(m, rest, k);
      items, rest := items + [Scored(k, codec.bits(m[k]))], rest - {k};
    }
    assert m - {} == m;
  }

  method EnumerateSet<S>(codec: ScoreBits<S>, s: set<Bytes>) returns (items: seq<Item>)
    ensures Describes(codec, Set(s), items)
    ensures |items| == |s| && Build(codec, SET, items) == Set(s) && (Small<S>(Set(s)) ==> FitItems(SET, items))
  {
    items := [];
    var rest := s;
    while rest != {}
      invariant rest <= s && |items| + |rest| == |s| && Build(codec, SET, items) == Set(s - rest)
      invariant Describes(codec, Set(s), items)
      invariant Small<S>(Set(s)) ==> FitItems(SET, items)
      decreases |rest|
    {
      var k :| k in rest;
      BuildSnoc(codec, SET, items, One(k));
      assert (s - rest) + {k} == s - (rest - {k});
      items, rest := items + [One(k)], rest - {k};
    }
    assert s - {} == s;
  }

  method EnumerateList<S>(codec: ScoreBits<S>, s: seq<Bytes>) returns (items: seq<Item>)
    ensures Describes(codec, List(s), items)
    ensures |items| == |s| && Build(codec, LIST, items) == List(s) && (Small<S>(List(s)) ==> FitItems(LIST, items))
  {
    items := [];
    for i := 0 to |s|
      invariant |items| == i && Build(codec, LIST, items) == List(s[..i])
      invariant forall j :: 0 <= j < i ==> items[j] == One(s[j])
      invariant Small<S>(List(s)) ==> FitItems(LIST, items)
    {
      BuildSnoc(codec, LIST, items, One(s[i]));
      assert s[..i] + [s[i]] == s[..i + 1];
      items := items + [One(s[i])];
    }
    assert s[..|s|] == s;
  }

  method WriteItems(out: Bytes, items: seq<Item>) returns (r: Bytes)
    ensures r == out + EncItems(items, |items|)
  {
    hide EncItem;
    r := out;
    for i := 0 to |items|
      invariant r == out + EncItems(items, i)
    {
      r := WriteItem(r, items[i]);
    }
  }

  method WriteItem(out: Bytes, it: Item) returns (r: Bytes)
    ensures r == out + EncItem(it)
  {
    hide Lp, Le;
    r := WriteLp(out, it.a);
    match it {
      case One(_) =>
      case Pair(_, b) => r := WriteLp(r, b);
      case Scored(_, bits) => r := WriteUint(r, bits, 8);
    }
  }

  method EncodePayload<S>(codec: ScoreBits<S>, out: Bytes, v: Value<S>) returns (r: Bytes, ghost p: Payload)
    requires Exact(codec, v)
    ensures r == out + EncPayload(p) && (p.Items? ==> !v.Str?) && ValueOf(codec, TagOf(v), p) == v
    ensures Small(v) ==> FitsPayload(TagOf(v), p)
  {
    hide Lp, Le, Build, FitItems;
    if v.Str? {
      r := WriteLp(out, v.text);
      p := Text(v.text);
    } else {
      var items := Enumerate(codec, v);
      r := WriteUint(out, |items|, 4);
      r := WriteItems(r, items);
      p := Items(items);
      assert r == out + EncPayload(p);
    }
  }

  /** A stored key as written: same key, same TTL, a payload that spells its value. */
  ghost predicate Spells<S>(codec: ScoreBits<S>, raw: Raw, rec: Record<Bytes, Value<S>>)
  {
    && raw.key == rec.key && raw.expire == rec.expireUnix && raw.tag == TagOf(rec.value)
    && (raw.payload.Items? ==> raw.tag != STRING) && ValueOf(codec, raw.tag, raw.payload) == rec.value
  }

  ghost predicate SpellsAll<S>(codec: ScoreBits<S>, raws: seq<Raw>, recs: seq<Record<Bytes, Value<S>>>)
  {
    |raws| == |recs| && forall i :: 0 <= i < |raws| ==> Spells(codec, raws[i], recs[i])
  }

  ghost predicate SmallRecord<S>(rec: Record<Bytes, Value<S>>)
  {
    |rec.key| < TWO32 && Small(rec.value)
  }

  ghost predicate TtlFits<S>(rec: Record<Bytes, Value<S>>)
  {
    rec.expireUnix.Some? ==> Int64(rec.expireUnix.value)
  }

  method EncodeRecord<S>(codec: ScoreBits<S>, out: Bytes, rec: Record<Bytes, Value<S>>) returns (r: Bytes, ghost raw: Raw)
    requires TtlFits(rec) && Exact(codec, rec.value)
    ensures Spells(codec, raw, rec) && r == out + EncRecord(raw)
    ensures SmallRecord(rec) ==> Fits(raw)
  {
    hide Lp, Le, Small, FitsPayload, EncPayload, ValueOf, ByteOf, Exact;
    r := out + [ByteOf(TagOf(rec.value))];
    r := WriteTtl(r, rec.expireUnix);
    r := WriteLp(r, rec.key);
    ghost var p;
    r, p := EncodePayload(codec, r, rec.value);
    raw := Raw(TagOf(rec.value), rec.expireUnix, rec.key, p);
    Regroup(out, [ByteOf(TagOf(rec.value))], EncTtl(rec.expireUnix), Lp(rec.key), EncPayload(p));
  }

  lemma Regroup(o: Bytes, a: Bytes, b: Bytes, c: Bytes, d: Bytes)
    ensures o + a + b + c + d == o + (a + b + c + d)
  {
  }

  method WriteTtl(out: Bytes, e: Option<int>) returns (r: Bytes)
    requires e.Some? ==> Int64(e.value)
    ensures r == out + EncTtl(e)
  {
    hide Le;
    r := out + [if e.Some? then 1 else 0];
    if e.Some? {
      r := WriteUint(r, ToU64(e.value), 8);
    }
  }

  method EncodeRecords<S>(codec: ScoreBits<S>, out: Bytes, recs: seq<Record<Bytes, Value<S>>>) returns (r: Bytes, n: nat, ghost raws: seq<Raw>)
    requires forall i :: 0 <= i < |recs| ==> TtlFits(recs[i]) && Exact(codec, recs[i].value)
    ensures n == |recs| && SpellsAll(codec, raws, recs) && Encodable(raws) && r == out + EncRecords(raws)
    ensures (forall i :: 0 <= i < |recs| ==> SmallRecord(recs[i])) ==> AllFit(raws)
  {
    hide Spells, EncRecord, SmallRecord, Fits, Exact, TtlFits;
    r, n, raws := out, 0, [];
    for i := 0 to |recs|
      invariant n == i == |raws| && (forall j :: 0 <= j < i ==> Spells(codec, raws[j], recs[j]))
      invariant Encodable(raws) && r == out + EncRecords(raws)
      invariant forall j :: 0 <= j < i ==> SmallRecord(recs[j]) ==> Fits(raws[j])
    {
      ghost var raw;
      r, raw := EncodeRecord(codec, r, recs[i]);
      SpellsTtl(codec, raw, recs[i]);
      EncRecordsSnoc(raws, raw);
      raws, n := raws + [raw], n + 1;
    }
  }

  lemma SpellsTtl<S>(codec: ScoreBits<S>, raw: Raw, rec: Record<Bytes, Value<S>>)
    requires Spells(codec, raw, rec) && TtlFits(rec)
    ensures raw.expire.Some? ==> Int64(raw.expire.value)
  {
  }

  /** The deadline's wall-clock form is a 64-bit value: what a caller can check before a save. */
  predicate Convertible<V>(c: Cell<V>, nowMono: int, nowUnix: int)
  {
    c.deadline.Some? ==> c.deadline.value <= INT64_MAX - (nowUnix - nowMono)
  }

  /** For a live key the bound is exact. */
  lemma ConvertibleExact<S>(k: Bytes, c: Cell<Value<S>>, nowMono: int, nowUnix: int)
    requires Int64(nowUnix) && !Overdue(c, nowMono)
    ensures TtlFits(RecordOf(k, c, nowMono, nowUnix)) <==> Convertible(c, nowMono, nowUnix)
  {
  }

  /** PEXPIRE checks only the monotonic sum. What it accepts can be saved at the same clocks if and only if the amount
      also fits on top of the wall clock. */
  lemma PexpireConvertible<V>(v: V, amount: int, nowMono: int, nowUnix: int)
    requires Int64(amount) && amount > 0 && Int64(nowMono) && Int64(nowUnix) && !AddWouldOverflow(nowMono, amount)
    ensures Convertible(Cell(v, Some(nowMono + amount)), nowMono, nowUnix) <==> !AddWouldOverflow(nowUnix, amount)
  {
  }

  /** An hour after boot, in 2023: PEXPIRE accepts the amount, the save's conversion does not fit. */
  lemma PexpireOverflows()
    ensures var nowMono, nowUnix, amount := 3_600_000, 1_700_000_000_000, INT64_MAX - 3_600_000;
            && Int64(amount) && !AddWouldOverflow(nowMono, amount)
            && !Convertible(Cell(0, Some(nowMono + amount)), nowMono, nowUnix)
  {
  }

  /** Every live key can be written: its deadline converts and its scores are 64-bit values. */
  ghost predicate Writable<S>(codec: ScoreBits<S>, live: map<Bytes, Cell<Value<S>>>, nowMono: int, nowUnix: int)
  {
    forall k :: k in live ==> Convertible(live[k], nowMono, nowUnix) && Exact(codec, live[k].value)
  }

  lemma {:induction false} WritableRecords<S>(codec: ScoreBits<S>, recs: seq<Record<Bytes, Value<S>>>, stored: map<Bytes, Cell<Value<S>>>, nowMono: int, nowUnix: int)
    requires Int64(nowUnix) && Snapshots(recs, Live(stored, nowMono), nowMono, nowUnix) && Writable(codec, Live(stored, nowMono), nowMono, nowUnix)
    ensures forall i :: 0 <= i < |recs| ==> TtlFits(recs[i]) && Exact(codec, recs[i].value)
  {
    hide Exact;
    var live := Live(stored, nowMono);
    forall i | 0 <= i < |recs| ensures TtlFits(recs[i]) && Exact(codec, recs[i].value) {
      ConvertibleExact(recs[i].key, live[recs[i].key], nowMono, nowUnix);
    }
  }

  /** encode_snapshot: one record for each live key, in the table's order. */
  method EncodeSnapshot<S>(codec: ScoreBits<S>, db: Database<Bytes, Value<S>>, nowMono: int, nowUnix: int)
    returns (out: Bytes, ghost recs: seq<Record<Bytes, Value<S>>>, ghost raws: seq<Raw>)
    requires db.Valid() && Int64(nowUnix) && Writable(codec, db.View(nowMono), nowMono, nowUnix)
    modifies db.expires
    ensures db.Valid() && db.Stored() == old(db.Stored())
    ensures Snapshots(recs, db.View(nowMono), nowMono, nowUnix) && SpellsAll(codec, raws, recs)
    ensures Encodable(raws) && out == Encode(raws, 0, ToU64(nowUnix))
    ensures (forall i :: 0 <= i < |recs| ==> SmallRecord(recs[i])) ==> AllFit(raws)
  {
    hide Database.Valid, Spells, EncRecords, SmallRecord, Fits, CrcBytes, Le, Crc, Exact, Writable, Live, Snapshots, TtlFits;
    var visited := db.ForEachForSnapshot(nowMono, nowUnix);
    recs := visited;
    WritableRecords(codec, recs, db.Stored(), nowMono, nowUnix);
    out := WriteUint(MAGIC, 1, 2);
    out := WriteUint(out, 0, 2);
    out := WriteUint(out, ToU64(nowUnix), 8);
    var n: nat;
    out, n, raws := EncodeRecords(codec, out, visited);
    out := out + [EOF_TAG];
    out := WriteUint(out, n, 8);
    assert out == Body(raws, 0, ToU64(nowUnix));
    var crc := Crc32(out);
    out := out + CrcBytes(crc);
  }

  // Reading.

  method ReadUintAt(d: Bytes, off: nat, n: nat) returns (r: Read<nat>)
    ensures r == ReadUint(d, off, n)
  {
    hide NatOf;
    if off + n > |d| {
      return Fail;
    }
    var v, scale := 0, 1;
    for i := 0 to n
      invariant v + scale * UnLe(d, off + i, n - i) == UnLe(d, off, n)
    {
      NextDigit(v, scale, NatOf(d[off + i]), UnLe(d, off + i + 1, n - i - 1));
      v, scale := v + NatOf(d[off + i]) * scale, scale * 256;
    }
    r := Got(v, off + n);
  }

  lemma NextDigit(v: int, scale: int, low: int, high: int)
    ensures v + scale * (low + 256 * high) == (v + low * scale) + (scale * 256) * high
  {
  }

  method ReadLpAt(d: Bytes, off: nat) returns (r: Read<Bytes>)
    ensures r == ReadLp(d, off)
  {
    var len := ReadUintAt(d, off, 4);
    if len.Fail? || len.next + len.value > |d| {
      return Fail;
    }
    r := Got(d[len.next..len.next + len.value], len.next + len.value);
  }

  method ReadItemAt(d: Bytes, off: nat, tag: nat) returns (r: Read<Item>)
    requires HASH <= tag <= ZSET
    ensures r == ReadItem(d, off, tag)
  {
    hide ReadLp, ReadUint;
    var a := ReadLpAt(d, off);
    if a.Fail? {
      return Fail;
    }
    if tag == HASH {
      var b := ReadLpAt(d, a.next);
      return if b.Fail? then Fail else Got(Pair(a.value, b.value), b.next);
    }
    if tag == ZSET {
      var bits := ReadUintAt(d, a.next, 8);
      return if bits.Fail? then Fail else Got(Scored(a.value, bits.value), bits.next);
    }
    r := Got(One(a.value), a.next);
  }

  /** The loops of decode_payload: elements go into the fresh container as they are read. */
  method DecodeItems<S>(codec: ScoreBits<S>, d: Bytes, off: nat, tag: nat, n: nat) returns (ok: bool, v: Value<S>, next: nat)
    requires HASH <= tag <= ZSET
    ensures ok == ReadItems(d, off, tag, n).Got?
    ensures ok ==> ReadItems(d, off, tag, n).next == next && v == Build(codec, tag, ReadItems(d, off, tag, n).value)
  {
    hide ReadItem, AddItem;
    ok, v, next := true, Empty(tag), off;
    ghost var items := [];
    for i := 0 to n
      invariant ok && ReadItems(d, off, tag, i) == Got(items, next) && v == Build(codec, tag, items)
    {
      var it := ReadItemAt(d, next, tag);
      if it.Fail? {
        ReadItemsFail(d, off, tag, i + 1, n);
        ok := false;
        return;
      }
      BuildSnoc(codec, tag, items, it.value);
      v, next, items := AddItem(codec, v, it.value), it.next, items + [it.value];
    }
  }

  lemma {:induction false} ReadItemsFail(d: Bytes, off: nat, tag: nat, i: nat, n: nat)
    requires HASH <= tag <= ZSET && i <= n && ReadItems(d, off, tag, i).Fail?
    ensures ReadItems(d, off, tag, n).Fail?
  {
    if i < n {
      ReadItemsFail(d, off, tag, i, n - 1);
    }
  }

  method DecodePayload<S>(codec: ScoreBits<S>, d: Bytes, off: nat, tag: nat) returns (ok: bool, v: Value<S>, next: nat)
    requires Tag(tag)
    ensures ok == ReadPayload(d, off, tag).Got?
    ensures ok ==> var p := ReadPayload(d, off, tag); p.next == next && (p.value.Items? ==> tag != STRING) && v == ValueOf(codec, tag, p.value)
  {
    hide ReadLp, ReadUint, ReadItems, Build;
    if tag == STRING {
      var s := ReadLpAt(d, off);
      if s.Fail? {
        return false, Str([]), off;
      }
      return true, Str(s.value), s.next;
    }
    var n := ReadUintAt(d, off, 4);
    if n.Fail? {
      return false, Str([]), off;
    }
    ok, v, next := DecodeItems(codec, d, n.next, tag, n.value);
  }

  /** The loader's effect of one record on what is stored. */
  ghost function LoadOne<S>(codec: ScoreBits<S>, t: map<Bytes, Cell<Value<S>>>, raw: Raw, nowMono: int, nowUnix: int): map<Bytes, Cell<Value<S>>>
    requires Int64(nowMono) && Int64(nowUnix) && Fits(raw)
  {
    var l := LoadTtl(raw.expire, nowMono, nowUnix);
    var v := ValueOf(codec, raw.tag, raw.payload);
    if l.Dropped? then t
    else if l.deadline.None? && raw.key in t then t[raw.key := t[raw.key].(value := v)]
    else t[raw.key := Cell(v, l.deadline)]
  }

  ghost function LoadAll<S>(codec: ScoreBits<S>, raws: seq<Raw>, n: nat, nowMono: int, nowUnix: int): map<Bytes, Cell<Value<S>>>
    requires Int64(nowMono) && Int64(nowUnix) && AllFit(raws) && n <= |raws|
  {
    if n == 0 then map[] else LoadOne(codec, LoadAll(codec, raws, n - 1, nowMono, nowUnix), raws[n - 1], nowMono, nowUnix)
  }

  method DecodeTtl(d: Bytes, off: nat) returns (r: Read<Option<int>>)
    ensures r == ReadTtl(d, off)
  {
    hide UnLe;
    if off + 1 > |d| || (d[off] != 0 && d[off] != 1) {
      return Fail;
    }
    if d[off] == 0 {
      return Got(None, off + 1);
    }
    var bits := ReadUintAt(d, off + 1, 8);
    if bits.Fail? {
      return Fail;
    }
    UnLeSmall(d, off + 1);
    r := Got(Some(FromU64(bits.value)), bits.next);
  }

  method DecodeOneRecord<S>(codec: ScoreBits<S>, d: Bytes, off: nat, scratch: Database<Bytes, Value<S>>, nowMono: int, nowUnix: int)
    returns (ok: bool, next: nat)
    requires scratch.Valid() && Int64(nowMono) && Int64(nowUnix)
    modifies scratch.keyspace, scratch.expires, scratch.heap
    ensures scratch.Valid() && ok == ReadRecord(d, off).Got?
    ensures ok ==> ReadRecord(d, off).next == next && Fits(ReadRecord(d, off).value)
    ensures ok ==> scratch.Stored() == LoadOne(codec, old(scratch.Stored()), ReadRecord(d, off).value, nowMono, nowUnix)
  {
    hide Database.Valid, Database.Stored, ReadLp, ReadPayload, ReadTtl, NatOf, ValueOf, LoadTtl, Fits;
    ok, next := false, off;
    if off + 1 > |d| || !Tag(NatOf(d[off])) {
      return;
    }
    var ttl := DecodeTtl(d, off + 1);
    if ttl.Fail? {
      return;
    }
    var key := ReadLpAt(d, ttl.next);
    if key.Fail? {
      return;
    }
    var v;
    ok, v, next := DecodePayload(codec, d, key.next, NatOf(d[off]));
    if ok {
      ReadRecordFits(d, off);
      ReadTtlFits(d, off + 1);
      scratch.LoadKey(key.value, v, ttl.value, nowMono, nowUnix);
    }
  }

  lemma ReadTtlFits(d: Bytes, off: nat)
    requires ReadTtl(d, off).Got?
    ensures ReadTtl(d, off).value.Some? ==> Int64(ReadTtl(d, off).value.value)
  {
  }

  /** The record loop: everything up to the footer, into the scratch database. */
  method DecodeRecords<S>(codec: ScoreBits<S>, d: Bytes, stop: nat, scratch: Database<Bytes, Value<S>>, nowMono: int, nowUnix: int)
    returns (ok: bool, n: nat)
    requires scratch.Valid() && scratch.Stored() == map[] && Int64(nowMono) && Int64(nowUnix) && 16 <= stop
    modifies scratch.keyspace, scratch.expires, scratch.heap
    ensures scratch.Valid() && ok == ReadRecords(d, 16, stop).Some?
    ensures ok ==> var raws := ReadRecords(d, 16, stop).value;
                   n == |raws| && AllFit(raws) && scratch.Stored() == LoadAll(codec, raws, n, nowMono, nowUnix)
  {
    hide Database.Valid, Database.Stored, ReadRecord, Fits, LoadOne;
    var off := 16;
    ok, n := true, 0;
    ghost var raws: seq<Raw> := [];
    BeforeNothing(ReadRecords(d, 16, stop));
    while off < stop
      invariant scratch.Valid() && ok && n == |raws| && AllFit(raws)
      invariant scratch.Stored() == LoadAll(codec, raws, n, nowMono, nowUnix)
      invariant ReadRecords(d, 16, stop) == Before(raws, ReadRecords(d, off, stop))
      decreases stop - off
    {
      ghost var r := ReadRecord(d, off);
      var next;
      ok, next := DecodeOneRecord(codec, d, off, scratch, nowMono, nowUnix);
      if !ok {
        return;
      }
      ReadRecordAdvances(d, off);
      LoadSnoc(codec, raws, r.value, nowMono, nowUnix);
      BeforeMore(raws, r.value, ReadRecords(d, next, stop));
      raws, n, off := raws + [r.value], n + 1, next;
    }
    ok := off == stop;
    if ok {
      BeforeEnd(raws);
    }
  }

  lemma BeforeNothing(b: Option<seq<Raw>>)
    ensures Before([], b) == b
  {
    if b.Some? { assert [] + b.value == b.value; }
  }

  lemma BeforeMore(a: seq<Raw>, r: Raw, b: Option<seq<Raw>>)
    ensures Before(a, Before([r], b)) == Before(a + [r], b)
  {
    if b.Some? { assert a + ([r] + b.value) == a + [r] + b.value; }
  }

  lemma BeforeEnd(a: seq<Raw>)
    ensures Before(a, Some([])) == Some(a)
  {
    assert a + [] == a;
  }

  lemma LoadSnoc<S>(codec: ScoreBits<S>, raws: seq<Raw>, r: Raw, nowMono: int, nowUnix: int)
    requires Int64(nowMono) && Int64(nowUnix) && AllFit(raws) && Fits(r)
    ensures AllFit(raws + [r])
    ensures LoadAll(codec, raws + [r], |raws| + 1, nowMono, nowUnix) == LoadOne(codec, LoadAll(codec, raws, |raws|, nowMono, nowUnix), r, nowMono, nowUnix)
  {
    hide Fits, LoadOne;
    LoadFront(codec, raws, raws + [r], |raws|, nowMono, nowUnix);
  }

  lemma {:induction false} LoadFront<S>(codec: ScoreBits<S>, a: seq<Raw>, b: seq<Raw>, n: nat, nowMono: int, nowUnix: int)
    requires Int64(nowMono) && Int64(nowUnix) && AllFit(a) && AllFit(b) && n <= |a| && n <= |b|
    requires forall i :: 0 <= i < n ==> a[i] == b[i]
    ensures LoadAll(codec, a, n, nowMono, nowUnix) == LoadAll(codec, b, n, nowMono, nowUnix)
  {
    hide Fits, LoadOne;
    if n > 0 {
      LoadFront(codec, a, b, n - 1, nowMono, nowUnix);
    }
  }

  /** decode_snapshot: all or nothing. A refused file leaves the database as it was. */
  method DecodeSnapshot<S>(codec: ScoreBits<S>, d: Bytes, out: Database<Bytes, Value<S>>, nowMono: int, nowUnix: int) returns (ok: bool)
    requires Int64(nowMono) && Int64(nowUnix)
    modifies out
    ensures ok == Parse(d).Some?
    ensures !ok ==> unchanged(out)
    ensures ok ==> out.Valid() && fresh(out.keyspace) && fresh(out.expires) && fresh(out.heap) && AllFit(Parse(d).value)
    ensures ok ==> out.Stored() == LoadAll(codec, Parse(d).value, |Parse(d).value|, nowMono, nowUnix)
  {
    hide Database.Valid, ReadRecords, UnLe, Crc, Pack, LoadAll, AllFit;
    ok := false;
    if |d| < 29 || d[0] != MAGIC[0] || d[1] != MAGIC[1] || d[2] != MAGIC[2] || d[3] != MAGIC[3] {
      return;
    }
    var version := ReadUintAt(d, 4, 2);
    if version != Got(1, 6) {
      return;
    }
    var footer := |d| - 13;
    if d[footer] != EOF_TAG {
      return;
    }
    var count := ReadUintAt(d, footer + 1, 8);
    var crc := Crc32(d[..|d| - 4]);
    if crc != Pack(d[|d| - 4..]) {
      return;
    }
    var scratch := new Database(out.keyspace.hash);
    var n;
    ok, n := DecodeRecords(codec, d, footer, scratch, nowMono, nowUnix);
    ok := ok && count.Got? && n == count.value;
    if ok {
      MoveInto(scratch, out);
    }
  }

  /** Move assignment: the destination takes over the source's tables. */
  method MoveInto<S>(scratch: Database<Bytes, Value<S>>, out: Database<Bytes, Value<S>>)
    requires scratch.Valid() && scratch != out
    modifies out
    ensures out.keyspace == scratch.keyspace && out.expires == scratch.expires && out.heap == scratch.heap
    ensures out.Valid() && out.Stored() == scratch.Stored()
  {
    hide HashTable.Valid, ExpiryHeap.Valid, Joined;
    out.keyspace, out.expires, out.heap := scratch.keyspace, scratch.expires, scratch.heap;
  }

  // Saving at one pair of clocks and loading at another.

  /** When a key expires by the wall clock of the save. */
  function WallDeadline<S>(c: Cell<Value<S>>, m0: int, u0: int): int
    requires c.deadline.Some?
  {
    u0 + (c.deadline.value - m0)
  }

  /** Not yet expired by the wall clock at the load, and the remaining time and new deadline are 64-bit values. */
  predicate Survives<S>(c: Cell<Value<S>>, m0: int, u0: int, m1: int, u1: int)
  {
    c.deadline.Some? ==>
      var left := WallDeadline(c, m0, u0) - u1;
      left > 0 && Int64(left) && Int64(m1 + left)
  }

  /** Same value; the deadline moves by the difference of the clock differences. */
  function Shifted<S>(c: Cell<Value<S>>, m0: int, u0: int, m1: int, u1: int): Cell<Value<S>>
  {
    c.(deadline := if c.deadline.None? then None else Some(c.deadline.value + (m1 - m0) - (u1 - u0)))
  }

  ghost function Reloaded<S>(live: map<Bytes, Cell<Value<S>>>, m0: int, u0: int, m1: int, u1: int): map<Bytes, Cell<Value<S>>>
  {
    map k | k in live && Survives(live[k], m0, u0, m1, u1) :: Shifted(live[k], m0, u0, m1, u1)
  }

  /** Records with distinct keys are loaded independently of each other. */
  lemma {:induction false} LoadAllAt<S>(codec: ScoreBits<S>, raws: seq<Raw>, n: nat, m: int, u: int, k: Bytes)
    requires Int64(m) && Int64(u) && AllFit(raws) && n <= |raws|
    requires forall i, j :: 0 <= i < j < |raws| ==> raws[i].key != raws[j].key
    ensures k in LoadAll(codec, raws, n, m, u) ==> exists i :: 0 <= i < n && raws[i].key == k
    ensures forall i :: 0 <= i < n && raws[i].key == k ==>
              var l := LoadTtl(raws[i].expire, m, u);
              && (k in LoadAll(codec, raws, n, m, u) <==> l.Kept?)
              && (l.Kept? ==> LoadAll(codec, raws, n, m, u)[k] == Cell(ValueOf(codec, raws[i].tag, raws[i].payload), l.deadline))
  {
    hide FitsPayload, LoadTtl, ValueOf;
    if n > 0 {
      LoadAllAt(codec, raws, n - 1, m, u, k);
      if raws[n - 1].key == k {
        assert k !in LoadAll(codec, raws, n - 1, m, u);
      }
    }
  }

  lemma LoadShift<S>(c: Cell<Value<S>>, k: Bytes, m0: int, u0: int, m1: int, u1: int)
    requires Int64(m1) && Int64(u1) && TtlFits(RecordOf(k, c, m0, u0))
    ensures var l := LoadTtl(RecordOf(k, c, m0, u0).expireUnix, m1, u1);
            && (l.Kept? <==> Survives(c, m0, u0, m1, u1))
            && (l.Kept? ==> l.deadline == Shifted(c, m0, u0, m1, u1).deadline)
  {
  }

  /** What the loader makes of the records of a save. */
  lemma {:induction false} LoadOfSave<S>(codec: ScoreBits<S>, recs: seq<Record<Bytes, Value<S>>>, raws: seq<Raw>, live: map<Bytes, Cell<Value<S>>>, m0: int, u0: int, m1: int, u1: int)
    requires Int64(m1) && Int64(u1) && AllFit(raws) && SpellsAll(codec, raws, recs) && Snapshots(recs, live, m0, u0)
    ensures LoadAll(codec, raws, |raws|, m1, u1) == Reloaded(live, m0, u0, m1, u1)
  {
    hide LoadAll, LoadTtl, ValueOf, FitsPayload, Survives, Shifted;
    var got, want := LoadAll(codec, raws, |raws|, m1, u1), Reloaded(live, m0, u0, m1, u1);
    forall k: Bytes
      ensures k in got <==> k in want
      ensures k in got ==> got[k] == want[k]
    {
      SaveOne(codec, recs, raws, live, m0, u0, m1, u1, k);
    }
  }

  lemma {:induction false} SaveOne<S>(codec: ScoreBits<S>, recs: seq<Record<Bytes, Value<S>>>, raws: seq<Raw>, live: map<Bytes, Cell<Value<S>>>, m0: int, u0: int, m1: int, u1: int, k: Bytes)
    requires Int64(m1) && Int64(u1) && AllFit(raws) && SpellsAll(codec, raws, recs) && Snapshots(recs, live, m0, u0)
    ensures k in LoadAll(codec, raws, |raws|, m1, u1) <==> k in live && Survives(live[k], m0, u0, m1, u1)
    ensures k in LoadAll(codec, raws, |raws|, m1, u1) ==> LoadAll(codec, raws, |raws|, m1, u1)[k] == Shifted(live[k], m0, u0, m1, u1)
  {
    hide LoadAll, LoadTtl, ValueOf, FitsPayload, Survives;
    assert forall i :: 0 <= i < |raws| ==> raws[i].key == recs[i].key;
    LoadAllAt(codec, raws, |raws|, m1, u1, k);
    if k in live {
      var i :| 0 <= i < |recs| && recs[i].key == k;
      assert Spells(codec, raws[i], recs[i]) && Fits(raws[i]);
      LoadShift(live[k], k, m0, u0, m1, u1);
    }
  }

  lemma {:induction false} KeyCount<S>(recs: seq<Record<Bytes, Value<S>>>, keys: set<Bytes>)
    requires forall i :: 0 <= i < |recs| ==> recs[i].key in keys
    requires forall i, j :: 0 <= i < j < |recs| ==> recs[i].key != recs[j].key
    ensures |recs| <= |keys|
    decreases |recs|
  {
    if recs != [] {
      KeyCount(recs[1..], keys - {recs[0].key});
    }
  }

  /** What the format can hold: lengths and counts of their fields, and writable keys. */
  ghost predicate SaveableKeys<S>(codec: ScoreBits<S>, live: map<Bytes, Cell<Value<S>>>, m0: int, u0: int)
  {
    && |live| < TWO64 && Writable(codec, live, m0, u0)
    && forall k :: k in live ==> |k| < TWO32 && Small(live[k].value)
  }

  /** A save at (m0, u0) followed by a load at (m1, u1): the load succeeds and yields exactly the keys that have not
      expired by the wall clock, with equal values and deadlines on the new monotonic clock. */
  method SaveAndLoad<S>(codec: ScoreBits<S>, db: Database<Bytes, Value<S>>, m0: int, u0: int, out: Database<Bytes, Value<S>>, m1: int, u1: int) returns (ok: bool)
    requires db.Valid() && Int64(u0) && Int64(m1) && Int64(u1) && SaveableKeys(codec, db.View(m0), m0, u0)
    modifies db.expires, out
    ensures ok && out.Valid() && out.Stored() == Reloaded(old(db.View(m0)), m0, u0, m1, u1)
    ensures fresh(out.keyspace) && fresh(out.expires) && fresh(out.heap)
    ensures db != out ==> db.Valid() && db.Stored() == old(db.Stored())
  {
    hide Database.Valid, Database.View, Database.Stored, SaveableKeys, Parse, Reloaded, LoadAll, AllFit;
    var bytes; ghost var raws;
    bytes, raws := Save(codec, db, m0, u0, m1, u1);
    ok := DecodeSnapshot(codec, bytes, out, m1, u1);
  }

  /** A save's bytes are accepted, and whenever they are loaded they stand for the live keys of the save. */
  method Save<S>(codec: ScoreBits<S>, db: Database<Bytes, Value<S>>, m0: int, u0: int, ghost m1: int, ghost u1: int) returns (bytes: Bytes, ghost raws: seq<Raw>)
    requires db.Valid() && Int64(u0) && Int64(m1) && Int64(u1) && SaveableKeys(codec, db.View(m0), m0, u0)
    modifies db.expires
    ensures db.Valid() && db.Stored() == old(db.Stored())
    ensures Parse(bytes) == Some(raws) && AllFit(raws)
    ensures LoadAll(codec, raws, |raws|, m1, u1) == Reloaded(old(db.View(m0)), m0, u0, m1, u1)
  {
    ghost var live := db.View(m0);
    hide Database.Valid, Spells, Snapshots, Encode, Parse, Reloaded, LoadAll, AllFit, Small, TtlFits, SmallRecord, Writable;
    ghost var recs;
    bytes, recs, raws := EncodeSnapshot(codec, db, m0, u0);
    assert db.View(m0) == live;
    SavedSmall(codec, recs, live, m0, u0);
    ParseEncode(raws, 0, ToU64(u0));
    LoadOfSave(codec, recs, raws, live, m0, u0, m1, u1);
  }

  lemma SavedSmall<S>(codec: ScoreBits<S>, recs: seq<Record<Bytes, Value<S>>>, live: map<Bytes, Cell<Value<S>>>, m0: int, u0: int)
    requires SaveableKeys(codec, live, m0, u0) && Snapshots(recs, live, m0, u0)
    ensures |recs| < TWO64 && forall i :: 0 <= i < |recs| ==> SmallRecord(recs[i])
  {
    hide Small, Writable;
    KeyCount(recs, live.Keys);
  }
}
