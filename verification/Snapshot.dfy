/** The snapshot format: little-endian tagged records, a footer count and a CRC (src/persistence/snapshot.cpp). */
module SnapshotFormat {
  import opened Options
  import opened Ints
  import opened Spans
  import opened ByteStrings
  import opened Crc32s

  const MAGIC: Bytes := [0x47, 0x52, 0x44, 0x53]
  const EOF_TAG: byte := 0xFF
  const TWO32: nat := 0x1_0000_0000
  const TWO64: nat := 0x1_0000_0000_0000_0000

  // Integers and length-prefixed strings.

  /** The byte of value x, by counting up: bit-vector facts stay out of the arithmetic. */
  function ByteFrom(x: nat): byte
    requires x < 256
  {
    if x == 0 then 0 else ByteFrom(x - 1) + 1
  }

  /** Truncation to one byte. */
  function ByteOf(v: nat): byte { ByteFrom(v % 256) }

  function NatOf(b: byte): nat { b as nat }

  lemma NextByte(b: byte, x: nat)
    requires b as nat == x < 255
    ensures (b + 1) as nat == x + 1
  {
  }

  lemma SameByte(a: byte, b: byte)
    requires NatOf(a) == NatOf(b)
    ensures a == b
  {
  }

  lemma ByteBelow(b: byte)
    ensures NatOf(b) < 256
  {
  }

  lemma {:induction false} NatOfFrom(x: nat)
    requires x < 256
    ensures NatOf(ByteFrom(x)) == x
  {
    if x > 0 {
      NatOfFrom(x - 1);
      NextByte(ByteFrom(x - 1), x - 1);
    }
  }

  lemma NatOfByte(v: nat)
    ensures NatOf(ByteOf(v)) == v % 256
  {
    NatOfFrom(v % 256);
  }

  lemma ByteOfNat(b: byte)
    ensures NatOf(b) < 256 && ByteOf(NatOf(b)) == b
  {
    hide ByteOf, NatOf;
    ByteBelow(b);
    NatOfByte(NatOf(b));
    SameByte(ByteOf(NatOf(b)), b);
  }

  function Pow256(n: nat): (r: nat)
    ensures r > 0
  {
    if n == 0 then 1 else 256 * Pow256(n - 1)
  }

  lemma Widths()
    ensures Pow256(2) == 0x1_0000 && Pow256(4) == TWO32 && Pow256(8) == TWO64
  {
    assert Pow256(1) == 256 && Pow256(3) == 0x100_0000;
    assert Pow256(5) == 0x100_0000_0000 && Pow256(6) == 0x1_0000_0000_0000;
    assert Pow256(7) == 0x100_0000_0000_0000;
  }

  /** The low n bytes of v, least significant first. */
  function Le(v: nat, n: nat): (r: Bytes)
    ensures |r| == n
  {
    if n == 0 then [] else [ByteOf(v)] + Le(v / 256, n - 1)
  }

  function UnLe(d: Bytes, off: nat, n: nat): nat
    requires off + n <= |d|
    decreases n
  {
    if n == 0 then 0 else NatOf(d[off]) + 256 * UnLe(d, off + 1, n - 1)
  }

  /** Reading an n-byte integer inverts writing it, for exactly the integers that fit. */
  lemma {:induction false} UnLeExact(d: Bytes, off: nat, n: nat, v: nat)
    requires off + n <= |d|
    ensures UnLe(d, off, n) == v <==> v < Pow256(n) && HasAt(d, off, Le(v, n))
    decreases n
  {
    hide ByteOf, NatOf;
    if n > 0 {
      UnLeExact(d, off + 1, n - 1, v / 256);
      HasAtConcat(d, off, [ByteOf(v)], Le(v / 256, n - 1));
      ByteOfNat(d[off]);
      ByteOfNat(ByteOf(v));
      NatOfByte(v);
      LowByte(v, NatOf(d[off]), UnLe(d, off + 1, n - 1));
      Below(v, Pow256(n - 1));
      OneAt(d, off, ByteOf(v));
    }
  }

  lemma LowByte(v: nat, low: nat, high: nat)
    requires low < 256
    ensures v == low + 256 * high <==> v % 256 == low && v / 256 == high
  {
  }

  lemma Below(v: nat, p: nat)
    ensures v < 256 * p <==> v / 256 < p
  {
  }

  datatype Read<+T> = Fail | Got(value: T, next: nat)

  /** A read answers v exactly when v's encoding is what stands at the offset. */
  ghost predicate Exactly<T(!new)>(r: Read<T>, d: Bytes, off: nat, v: T, fits: bool, enc: Bytes, next: nat)
  {
    r == Got(v, next) <==> fits && HasAt(d, off, enc) && next == off + |enc|
  }

  function ReadUint(d: Bytes, off: nat, n: nat): Read<nat>
  {
    if off + n > |d| then Fail else Got(UnLe(d, off, n), off + n)
  }

  lemma ReadUintExact(d: Bytes, off: nat, n: nat, v: nat, next: nat)
    ensures Exactly(ReadUint(d, off, n), d, off, v, v < Pow256(n), Le(v, n), next)
  {
    if off + n <= |d| {
      UnLeExact(d, off, n, v);
    }
  }

  /** u32 length and the bytes; a longer string has its length truncated. */
  function Lp(s: Bytes): Bytes { Le(|s|, 4) + s }

  function ReadLp(d: Bytes, off: nat): (r: Read<Bytes>)
    ensures r.Got? ==> r.next <= |d|
  {
    if off + 4 > |d| then Fail else
      var len := UnLe(d, off, 4);
      if off + 4 + len > |d| then Fail else Got(d[off + 4..off + 4 + len], off + 4 + len)
  }

  lemma ReadLpExact(d: Bytes, off: nat, s: Bytes, next: nat)
    ensures Exactly(ReadLp(d, off), d, off, s, |s| < TWO32, Lp(s), next)
  {
    hide Le, UnLe;
    Widths();
    HasAtConcat(d, off, Le(|s|, 4), s);
    if off + 4 <= |d| {
      UnLeExact(d, off, 4, |s|);
      var len := UnLe(d, off, 4);
      UnLeExact(d, off, 4, len);
      if off + 4 + |s| <= |d| {
        SliceIs(d, off + 4, s);
      }
    }
  }

  // Payloads. A hash element is a pair, a zset element a member and a score's bit pattern, others one string.

  datatype Item = One(a: Bytes) | Pair(a: Bytes, b: Bytes) | Scored(a: Bytes, bits: nat)

  const STRING: nat := 1
  const HASH: nat := 2
  const LIST: nat := 3
  const SET: nat := 4
  const ZSET: nat := 5

  predicate Tag(t: nat) { STRING <= t <= ZSET }

  predicate FitsItem(tag: nat, it: Item)
  {
    |it.a| < TWO32 &&
    match it
    case One(_) => tag == LIST || tag == SET
    case Pair(_, b) => tag == HASH && |b| < TWO32
    case Scored(_, bits) => tag == ZSET && bits < TWO64
  }

  function EncItem(it: Item): Bytes
  {
    match it
    case One(a) => Lp(a)
    case Pair(a, b) => Lp(a) + Lp(b)
    case Scored(a, bits) => Lp(a) + Le(bits, 8)
  }

  function ReadItem(d: Bytes, off: nat, tag: nat): Read<Item>
    requires HASH <= tag <= ZSET
  {
    match ReadLp(d, off)
    case Fail => Fail
    case Got(a, mid) =>
      if tag == HASH then
        match ReadLp(d, mid)
        case Fail => Fail
        case Got(b, next) => Got(Pair(a, b), next)
      else if tag == ZSET then
        match ReadUint(d, mid, 8)
        case Fail => Fail
        case Got(bits, next) => Got(Scored(a, bits), next)
      else Got(One(a), mid)
  }

  lemma ReadItemExact(d: Bytes, off: nat, tag: nat, it: Item, next: nat)
    requires HASH <= tag <= ZSET
    ensures Exactly(ReadItem(d, off, tag), d, off, it, FitsItem(tag, it), EncItem(it), next)
  {
    hide Lp, Le, ReadLp, ReadUint, HasAt;
    ReadLpExact(d, off, it.a, off + |Lp(it.a)|);
    ReadLpExact(d, off, it.a, next);
    var r := ReadLp(d, off);
    if r.Got? {
      ReadLpExact(d, off, r.value, r.next);
    }
    var mid := off + |Lp(it.a)|;
    match it
    case One(a) =>
    case Pair(a, b) =>
      ReadLpExact(d, mid, b, next);
      HasAtConcat(d, off, Lp(a), Lp(b));
    case Scored(a, bits) =>
      Widths();
      ReadUintExact(d, mid, 8, bits, next);
      HasAtConcat(d, off, Lp(a), Le(bits, 8));
  }

  function EncItems(items: seq<Item>, n: nat): Bytes
    requires n <= |items|
  {
    if n == 0 then [] else EncItems(items, n - 1) + EncItem(items[n - 1])
  }

  function ReadItems(d: Bytes, off: nat, tag: nat, n: nat): (r: Read<seq<Item>>)
    requires HASH <= tag <= ZSET
    ensures r.Got? ==> |r.value| == n
  {
    if n == 0 then Got([], off) else
      match ReadItems(d, off, tag, n - 1)
      case Fail => Fail
      case Got(items, mid) =>
        match ReadItem(d, mid, tag)
        case Fail => Fail
        case Got(it, next) => Got(items + [it], next)
  }

  predicate FitItems(tag: nat, items: seq<Item>)
  {
    forall i :: 0 <= i < |items| ==> FitsItem(tag, items[i])
  }

  lemma {:induction false} ReadItemsExact(d: Bytes, off: nat, tag: nat, items: seq<Item>, next: nat)
    requires HASH <= tag <= ZSET && off <= |d|
    ensures Exactly(ReadItems(d, off, tag, |items|), d, off, items, FitItems(tag, items), EncItems(items, |items|), next)
    decreases |items|
  {
    hide ReadItem, EncItem, FitsItem, HasAt;
    var n := |items|;
    if n == 0 {
      EmptyAt(d, off);
    } else {
      var front, last := items[..n - 1], items[n - 1];
      assert items == front + [last];
      var mid := off + |EncItems(front, n - 1)|;
      EncItemsFront(items, n - 1, n - 1);
      ReadItemsExact(d, off, tag, front, mid);
      HasAtConcat(d, off, EncItems(front, n - 1), EncItem(last));
      if HasAt(d, off, EncItems(front, n - 1)) {
        HasAtBound(d, off, EncItems(front, n - 1));
      }
      ReadItemExact(d, mid, tag, last, next);
      var r := ReadItems(d, off, tag, n - 1);
      if r.Got? && r.value == front {
        ReadItemsExact(d, off, tag, front, r.next);
      }
      assert FitItems(tag, items) <==> FitItems(tag, front) && FitsItem(tag, last);
    }
  }

  lemma {:induction false} EncItemsFront(items: seq<Item>, k: nat, n: nat)
    requires n <= k <= |items|
    ensures EncItems(items[..k], n) == EncItems(items, n)
  {
    hide EncItem;
    if n > 0 {
      EncItemsFront(items, k, n - 1);
    }
  }

  datatype Payload = Text(s: Bytes) | Items(items: seq<Item>)

  predicate FitsPayload(tag: nat, p: Payload)
  {
    match p
    case Text(s) => tag == STRING && |s| < TWO32
    case Items(items) => HASH <= tag <= ZSET && |items| < TWO32 && FitItems(tag, items)
  }

  function EncPayload(p: Payload): Bytes
  {
    match p
    case Text(s) => Lp(s)
    case Items(items) => Le(|items|, 4) + EncItems(items, |items|)
  }

  function ReadPayload(d: Bytes, off: nat, tag: nat): Read<Payload>
    requires Tag(tag)
  {
    if tag == STRING then
      match ReadLp(d, off)
      case Fail => Fail
      case Got(s, next) => Got(Text(s), next)
    else
      match ReadUint(d, off, 4)
      case Fail => Fail
      case Got(n, mid) =>
        match ReadItems(d, mid, tag, n)
        case Fail => Fail
        case Got(items, next) => Got(Items(items), next)
  }

  lemma ReadPayloadExact(d: Bytes, off: nat, tag: nat, p: Payload, next: nat)
    requires Tag(tag)
    ensures Exactly(ReadPayload(d, off, tag), d, off, p, FitsPayload(tag, p), EncPayload(p), next)
  {
    hide Lp, Le, ReadLp, HasAt, FitItems, UnLe;
    match p
    case Text(s) =>
      ReadLpExact(d, off, s, next);
    case Items(items) =>
      var n, mid := |items|, off + 4;
      Widths();
      ReadUintExact(d, off, 4, n, mid);
      HasAtConcat(d, off, Le(n, 4), EncItems(items, n));
      if tag == STRING {
      } else if mid <= |d| {
        ReadItemsExact(d, mid, tag, items, next);
      } else if HasAt(d, off, Le(n, 4)) {
        HasAtBound(d, off, Le(n, 4));
        assert false;
      }
  }

  // Records.

  function ToU64(x: int): (r: nat)
    requires Int64(x)
    ensures r < TWO64
  {
    if x < 0 then x + TWO64 else x
  }

  function FromU64(v: nat): (r: int)
    requires v < TWO64
    ensures Int64(r) && ToU64(r) == v
  {
    if v >= 0x8000_0000_0000_0000 then v - TWO64 else v
  }

  datatype Raw = Raw(tag: nat, expire: Option<int>, key: Bytes, payload: Payload)

  predicate Fits(r: Raw)
  {
    && Tag(r.tag) && (r.expire.Some? ==> Int64(r.expire.value))
    && |r.key| < TWO32 && FitsPayload(r.tag, r.payload)
  }

  function EncTtl(e: Option<int>): Bytes
    requires e.Some? ==> Int64(e.value)
  {
    if e.None? then [0] else [1] + Le(ToU64(e.value), 8)
  }

  function ReadTtl(d: Bytes, off: nat): (r: Read<Option<int>>)
    ensures r.Got? ==> r.next > off && (r.value.Some? ==> Int64(r.value.value))
  {
    if off + 1 > |d| || (d[off] != 0 && d[off] != 1) then Fail
    else if d[off] == 0 then Got(None, off + 1)
    else if off + 9 > |d| then Fail
    else
      UnLeSmall(d, off + 1);
      Got(Some(FromU64(UnLe(d, off + 1, 8))), off + 9)
  }

  lemma UnLeSmall(d: Bytes, off: nat)
    requires off + 8 <= |d|
    ensures UnLe(d, off, 8) < TWO64
  {
    Widths();
    UnLeExact(d, off, 8, UnLe(d, off, 8));
  }

  lemma ReadTtlExact(d: Bytes, off: nat, e: Option<int>, next: nat)
    requires e.Some? ==> Int64(e.value)
    ensures Exactly(ReadTtl(d, off), d, off, e, true, EncTtl(e), next)
  {
    hide Le, UnLe;
    OneAt(d, off, 0);
    OneAt(d, off, 1);
    if e.Some? {
      Widths();
      HasAtConcat(d, off, [1], Le(ToU64(e.value), 8));
      if off + 9 <= |d| {
        UnLeExact(d, off + 1, 8, ToU64(e.value));
        UnLeSmall(d, off + 1);
        assert FromU64(UnLe(d, off + 1, 8)) == e.value <==> UnLe(d, off + 1, 8) == ToU64(e.value);
      }
    }
  }

  function EncRecord(r: Raw): Bytes
    requires r.expire.Some? ==> Int64(r.expire.value)
  {
    [ByteOf(r.tag)] + EncTtl(r.expire) + Lp(r.key) + EncPayload(r.payload)
  }

  function ReadTag(d: Bytes, off: nat): Read<nat>
  {
    if off + 1 > |d| || !Tag(NatOf(d[off])) then Fail else Got(NatOf(d[off]), off + 1)
  }

  lemma ReadTagExact(d: Bytes, off: nat, tag: nat, next: nat)
    ensures Exactly(ReadTag(d, off), d, off, tag, Tag(tag), [ByteOf(tag)], next)
  {
    hide ByteOf, NatOf, HasAt;
    OneAt(d, off, ByteOf(tag));
    NatOfByte(tag);
    if off < |d| {
      ByteOfNat(d[off]);
    }
  }

  function ReadRecord(d: Bytes, off: nat): Read<Raw>
  {
    match ReadTag(d, off)
    case Fail => Fail
    case Got(tag, p) =>
      match ReadTtl(d, p)
      case Fail => Fail
      case Got(expire, q) =>
        match ReadLp(d, q)
        case Fail => Fail
        case Got(key, s) =>
          match ReadPayload(d, s, tag)
          case Fail => Fail
          case Got(payload, next) => Got(Raw(tag, expire, key, payload), next)
  }

  lemma ReadRecordFits(d: Bytes, off: nat)
    requires ReadRecord(d, off).Got?
    ensures Fits(ReadRecord(d, off).value)
  {
    hide ByteOf, NatOf, ReadLp, ReadPayload, FitsPayload, HasAt;
    var p := ReadTag(d, off).next;
    var q := ReadTtl(d, p).next;
    var k := ReadLp(d, q);
    var y := ReadPayload(d, k.next, ReadTag(d, off).value);
    ReadLpExact(d, q, k.value, k.next);
    ReadPayloadExact(d, k.next, ReadTag(d, off).value, y.value, y.next);
  }

  /** A record is read back from exactly its own encoding. */
  lemma ReadRecordExact(d: Bytes, off: nat, r: Raw, next: nat)
    requires r.expire.Some? ==> Int64(r.expire.value)
    ensures Exactly(ReadRecord(d, off), d, off, r, Fits(r), EncRecord(r), next)
  {
    hide ByteOf, NatOf, Lp, EncPayload, FitsPayload, HasAt, EncTtl, ReadTag, ReadTtl, ReadLp, ReadPayload;
    var a, b, c, e := [ByteOf(r.tag)], EncTtl(r.expire), Lp(r.key), EncPayload(r.payload);
    var p, q, s := off + |a|, off + |a + b|, off + |a + b + c|;
    HasAtConcat(d, off, a + b + c, e);
    HasAtConcat(d, off, a + b, c);
    HasAtConcat(d, off, a, b);
    ReadTagExact(d, off, r.tag, p);
    ReadTtlExact(d, p, r.expire, q);
    ReadLpExact(d, q, r.key, s);
    if Tag(r.tag) {
      ReadPayloadExact(d, s, r.tag, r.payload, next);
    }
    if ReadRecord(d, off) == Got(r, next) {
      ReadTagExact(d, off, r.tag, ReadTag(d, off).next);
      ReadTtlExact(d, p, r.expire, ReadTtl(d, p).next);
      ReadLpExact(d, q, r.key, ReadLp(d, q).next);
    }
  }

  function EncRecords(raws: seq<Raw>): Bytes
    requires Encodable(raws)
  {
    if raws == [] then [] else EncRecord(raws[0]) + EncRecords(raws[1..])
  }

  /** The deadlines to write are 64-bit values. */
  predicate Encodable(raws: seq<Raw>)
  {
    forall i :: 0 <= i < |raws| ==> raws[i].expire.Some? ==> Int64(raws[i].expire.value)
  }

  predicate AllFit(raws: seq<Raw>)
  {
    forall i :: 0 <= i < |raws| ==> Fits(raws[i])
  }

  lemma {:induction false} EncRecordsSnoc(raws: seq<Raw>, r: Raw)
    requires Encodable(raws) && (r.expire.Some? ==> Int64(r.expire.value))
    ensures Encodable(raws + [r]) && EncRecords(raws + [r]) == EncRecords(raws) + EncRecord(r)
    decreases |raws|
  {
    hide EncRecord;
    var all := raws + [r];
    if raws == [] {
      assert all[1..] == [];
    } else {
      assert all[1..] == raws[1..] + [r];
      EncRecordsSnoc(raws[1..], r);
    }
  }

  lemma ReadRecordAdvances(d: Bytes, off: nat)
    requires ReadRecord(d, off).Got?
    ensures ReadRecord(d, off).next > off
  {
    var r := ReadRecord(d, off);
    ReadRecordFits(d, off);
    ReadRecordExact(d, off, r.value, r.next);
    hide ReadRecord, Fits, HasAt, ByteOf, EncTtl, Lp, EncPayload;
  }

  /** Records up to the footer. A record may read into the footer; its end then misses `stop`. */
  function ReadRecords(d: Bytes, off: nat, stop: nat): Option<seq<Raw>>
    decreases stop - off
  {
    if off >= stop then (if off == stop then Some([]) else None)
    else
      match ReadRecord(d, off)
      case Fail => None
      case Got(r, next) =>
        ReadRecordAdvances(d, off);
        Before([r], ReadRecords(d, next, stop))
  }

  function Before(a: seq<Raw>, b: Option<seq<Raw>>): Option<seq<Raw>>
  {
    if b.None? then None else Some(a + b.value)
  }

  lemma {:induction false} ReadRecordsFit(d: Bytes, off: nat, stop: nat)
    requires ReadRecords(d, off, stop).Some?
    ensures AllFit(ReadRecords(d, off, stop).value)
    decreases stop - off
  {
    hide ReadRecord, Fits;
    if off < stop {
      ReadRecordAdvances(d, off);
      ReadRecordFits(d, off);
      ReadRecordsFit(d, ReadRecord(d, off).next, stop);
    }
  }

  lemma {:induction false} ReadRecordsExact(d: Bytes, off: nat, stop: nat, raws: seq<Raw>)
    requires stop <= |d| && Encodable(raws)
    ensures ReadRecords(d, off, stop) == Some(raws) <==>
            AllFit(raws) && HasAt(d, off, EncRecords(raws)) && off + |EncRecords(raws)| == stop
    decreases |raws|
  {
    hide ReadRecord, EncRecord, Fits, HasAt;
    if raws == [] {
      if off <= |d| { EmptyAt(d, off); }
    } else {
      var r, rest := raws[0], raws[1..];
      var enc := EncRecord(r);
      var next := off + |enc|;
      assert raws == [r] + rest;
      RecordNonempty(r);
      ReadRecordExact(d, off, r, next);
      HasAtConcat(d, off, enc, EncRecords(rest));
      ReadRecordsExact(d, next, stop, rest);
      assert AllFit(raws) <==> Fits(r) && AllFit(rest);
      if off < stop && ReadRecord(d, off).Got? {
        var g := ReadRecord(d, off);
        ReadRecordAdvances(d, off);
        if ReadRecords(d, off, stop) == Some(raws) {
          HeadIs(g.value, r, rest, ReadRecords(d, g.next, stop));
          ReadRecordExact(d, off, r, g.next);
        }
      }
    }
  }

  lemma HeadIs(g: Raw, r: Raw, rest: seq<Raw>, b: Option<seq<Raw>>)
    requires Before([g], b) == Some([r] + rest)
    ensures g == r && b == Some(rest)
  {
    assert ([g] + b.value)[0] == g && ([g] + b.value)[1..] == b.value;
    assert ([r] + rest)[0] == r && ([r] + rest)[1..] == rest;
  }

  lemma RecordNonempty(r: Raw)
    requires r.expire.Some? ==> Int64(r.expire.value)
    ensures |EncRecord(r)| > 0
  {
    hide ByteOf, EncTtl, Lp, EncPayload;
  }

  // Files.

  /** The checksum, least significant byte first. */
  function CrcBytes(c: bv32): Bytes
  {
    [(c & 0xFF) as bv8, ((c >> 8) & 0xFF) as bv8, ((c >> 16) & 0xFF) as bv8, ((c >> 24) & 0xFF) as bv8]
  }

  lemma CrcBits(c: bv32)
    ensures PackRaw((c & 0xFF) as bv8, ((c >> 8) & 0xFF) as bv8, ((c >> 16) & 0xFF) as bv8, ((c >> 24) & 0xFF) as bv8) == c
  {
  }

  lemma PackCrc(c: bv32)
    ensures Pack(CrcBytes(c)) == c
  {
    CrcBits(c);
    hide Pack, PackRaw;
    PackIs(CrcBytes(c));
  }

  lemma PackIsCrc(w: Bytes, c: bv32)
    requires |w| == 4
    ensures Pack(w) == c <==> w == CrcBytes(c)
  {
    PackCrc(c);
    hide Pack, CrcBytes;
    if Pack(w) == c {
      CrcLength(c);
      PackInjective(w, CrcBytes(c));
    }
  }

  lemma CrcLength(c: bv32)
    ensures |CrcBytes(c)| == 4
  {
  }

  function Header(flags: nat, unix: nat): Bytes
  {
    MAGIC + Le(1, 2) + Le(flags, 2) + Le(unix, 8)
  }

  /** Everything the checksum covers. */
  function Body(raws: seq<Raw>, flags: nat, unix: nat): Bytes
    requires Encodable(raws)
  {
    Header(flags, unix) + EncRecords(raws) + ([EOF_TAG] + Le(|raws|, 8))
  }

  function Encode(raws: seq<Raw>, flags: nat, unix: nat): Bytes
    requires Encodable(raws)
  {
    Body(raws, flags, unix) + CrcBytes(Crc(Body(raws, flags, unix)))
  }

  /** The loader's checks in its order: size, magic, version, end tag, checksum, records, boundary, count. */
  function Parse(d: Bytes): Option<seq<Raw>>
  {
    if |d| < 29 || d[0] != MAGIC[0] || d[1] != MAGIC[1] || d[2] != MAGIC[2] || d[3] != MAGIC[3] then None
    else if UnLe(d, 4, 2) != 1 then None
    else if d[|d| - 13] != EOF_TAG then None
    else if Crc(d[..|d| - 4]) != Pack(d[|d| - 4..]) then None
    else
      match ReadRecords(d, 16, |d| - 13)
      case None => None
      case Some(raws) => if |raws| != UnLe(d, |d| - 12, 8) then None else Some(raws)
  }

  lemma HeaderLength(flags: nat, unix: nat)
    ensures |Header(flags, unix)| == 16
  {
    hide Le;
  }

  /** What the header check reads is the header. */
  lemma HeaderExact(d: Bytes, flags: nat, unix: nat)
    requires |d| >= 29
    ensures HasAt(d, 0, Header(flags, unix)) && flags < 0x1_0000 && unix < TWO64 <==>
            && d[0] == MAGIC[0] && d[1] == MAGIC[1] && d[2] == MAGIC[2] && d[3] == MAGIC[3]
            && UnLe(d, 4, 2) == 1 && UnLe(d, 6, 2) == flags && UnLe(d, 8, 8) == unix
  {
    MagicAt(d);
    hide Le, UnLe, HasAt;
    Widths();
    FourParts(d, MAGIC, Le(1, 2), Le(flags, 2), Le(unix, 8));
    UnLeExact(d, 4, 2, 1);
    UnLeExact(d, 6, 2, flags);
    UnLeExact(d, 8, 8, unix);
  }

  lemma FourParts(d: Bytes, p: Bytes, q: Bytes, r: Bytes, s: Bytes)
    ensures HasAt(d, 0, p + q + r + s) <==>
            HasAt(d, 0, p) && HasAt(d, |p|, q) && HasAt(d, |p| + |q|, r) && HasAt(d, |p| + |q| + |r|, s)
  {
    hide HasAt;
    HasAtConcat(d, 0, p + q + r, s);
    HasAtConcat(d, 0, p + q, r);
    HasAtConcat(d, 0, p, q);
  }

  lemma MagicAt(d: Bytes)
    requires |d| >= 4
    ensures HasAt(d, 0, MAGIC) <==> d[0] == MAGIC[0] && d[1] == MAGIC[1] && d[2] == MAGIC[2] && d[3] == MAGIC[3]
  {
  }

  lemma FooterExact(d: Bytes, off: nat, n: nat)
    requires off + 9 <= |d|
    ensures HasAt(d, off, [EOF_TAG] + Le(n, 8)) && n < TWO64 <==> d[off] == EOF_TAG && UnLe(d, off + 1, 8) == n
  {
    hide Le, UnLe, HasAt;
    Widths();
    OneAt(d, off, EOF_TAG);
    HasAtConcat(d, off, [EOF_TAG], Le(n, 8));
    UnLeExact(d, off + 1, 8, n);
  }

  /** The structural checks of the loader, checksum aside. */
  lemma ParseShape(d: Bytes, raws: seq<Raw>, flags: nat, unix: nat)
    requires |d| >= 29 && Encodable(raws) && |Body(raws, flags, unix)| == |d| - 4
    ensures HasAt(d, 0, Body(raws, flags, unix)) && flags < 0x1_0000 && unix < TWO64 && |raws| < TWO64 && AllFit(raws) <==>
            && d[0] == MAGIC[0] && d[1] == MAGIC[1] && d[2] == MAGIC[2] && d[3] == MAGIC[3]
            && UnLe(d, 4, 2) == 1 && UnLe(d, 6, 2) == flags && UnLe(d, 8, 8) == unix
            && d[|d| - 13] == EOF_TAG && ReadRecords(d, 16, |d| - 13) == Some(raws) && UnLe(d, |d| - 12, 8) == |raws|
  {
    hide Le, UnLe, HasAt, AllFit, Header, EncRecords, ReadRecords;
    HeaderLength(flags, unix);
    var h, e := Header(flags, unix), EncRecords(raws);
    var f := [EOF_TAG] + Le(|raws|, 8);
    HeaderExact(d, flags, unix);
    ReadRecordsExact(d, 16, |d| - 13, raws);
    FooterExact(d, |d| - 13, |raws|);
    HasAtConcat(d, 0, h + e, f);
    HasAtConcat(d, 0, h, e);
  }

  predicate Saveable(raws: seq<Raw>)
  {
    |raws| < TWO64 && AllFit(raws)
  }

  lemma SaveableEncodable(raws: seq<Raw>)
    requires AllFit(raws)
    ensures Encodable(raws)
  {
    hide FitsPayload;
  }

  lemma BodyLength(raws: seq<Raw>, flags: nat, unix: nat)
    requires Encodable(raws)
    ensures |Body(raws, flags, unix)| == 25 + |EncRecords(raws)|
  {
    hide Le, Header, EncRecords;
    HeaderLength(flags, unix);
  }

  /** What is written is read back record for record if and only if every length and count fits its field. */
  lemma {:induction false} ParseEncode(raws: seq<Raw>, flags: nat, unix: nat)
    requires Encodable(raws) && flags < 0x1_0000 && unix < TWO64
    ensures Parse(Encode(raws, flags, unix)) == Some(raws) <==> Saveable(raws)
  {
    hide Parse, Encode, AllFit;
    if Saveable(raws) {
      SavedParses(raws, flags, unix);
    }
    if Parse(Encode(raws, flags, unix)) == Some(raws) {
      ParseOnlyEncoded(Encode(raws, flags, unix));
    }
  }

  lemma SavedParses(raws: seq<Raw>, flags: nat, unix: nat)
    requires Saveable(raws) && Encodable(raws) && flags < 0x1_0000 && unix < TWO64
    ensures Parse(Encode(raws, flags, unix)) == Some(raws)
  {
    hide Body, Crc, Pack, CrcBytes, AllFit, ReadRecords, UnLe, EncRecords;
    var b := Body(raws, flags, unix);
    var tail := CrcBytes(Crc(b));
    var d := Encode(raws, flags, unix);
    CrcLength(Crc(b));
    PackCrc(Crc(b));
    BodyLength(raws, flags, unix);
    Ends(b, tail);
    ParseShape(d, raws, flags, unix);
  }

  lemma Ends(a: Bytes, b: Bytes)
    ensures (a + b)[..|a|] == a && (a + b)[|a|..] == b && HasAt(a + b, 0, a)
  {
  }

  /** The loader accepts nothing else: an accepted file is, byte for byte, the saving of the records it yields. */
  lemma ParseOnlyEncoded(d: Bytes)
    requires Parse(d).Some?
    ensures var raws := Parse(d).value; Saveable(raws) && Encodable(raws) && d == Encode(raws, UnLe(d, 6, 2), UnLe(d, 8, 8))
  {
    hide Body, Crc, Pack, CrcBytes, ReadRecords, AllFit, UnLe, EncRecords;
    var raws, flags, unix := Parse(d).value, UnLe(d, 6, 2), UnLe(d, 8, 8);
    ReadRecordsFit(d, 16, |d| - 13);
    SaveableEncodable(raws);
    ReadRecordsExact(d, 16, |d| - 13, raws);
    BodyLength(raws, flags, unix);
    ParseShape(d, raws, flags, unix);
    var b := Body(raws, flags, unix);
    SliceIs(d, 0, b);
    assert d[..|d| - 4] == b;
    PackIsCrc(d[|d| - 4..], Crc(b));
    assert d == d[..|d| - 4] + d[|d| - 4..];
  }

  /** An accepted file with up to four consecutive bytes changed, wherever they stand, is refused. */
  lemma CorruptionDetected(d: Bytes, e: Bytes, i: nat)
    requires Parse(d).Some?
    requires |d| == |e| && i + 4 <= |d| && d[..i] == e[..i] && d[i + 4..] == e[i + 4..] && d != e
    ensures Parse(e).None?
  {
    hide FeedAll, Steps, Pack, Crc, UnLe, ReadRecords;
    var n := |d| - 4;
    assert d == d[..n] + d[n..] && e == e[..n] + e[n..];
    Residue(d[..n], d[n..]);
    Residue(e[..n], e[n..]);
    BurstChanges(ONES, d, e, i);
  }

  /** In particular, one changed byte. */
  lemma OneByteDetected(d: Bytes, j: nat, b: byte)
    requires Parse(d).Some? && j < |d| && b != d[j]
    ensures Parse(d[j := b]).None?
  {
    var i := if j + 4 <= |d| then j else |d| - 4;
    hide Crc, Pack, UnLe, ReadRecords;
    var e := d[j := b];
    assert d[..i] == e[..i] && d[i + 4..] == e[i + 4..];
    assert d[j] != e[j];
    CorruptionDetected(d, e, i);
  }

  // The bytes themselves.

  /** Byte i of a little-endian integer is digit i to the base 256. */
  lemma {:induction false} LeDigit(v: nat, n: nat, i: nat)
    requires i < n
    ensures NatOf(Le(v, n)[i]) == (v / Pow256(i)) % 256
    decreases n
  {
    hide NatOf, ByteOf;
    if i == 0 {
      NatOfByte(v);
    } else {
      LeDigit(v / 256, n - 1, i - 1);
      DivDiv(v, Pow256(i - 1));
    }
  }

  lemma DivDiv(v: nat, p: nat)
    requires p > 0
    ensures (v / 256) / p == v / (256 * p)
  {
    var q, r := (v / 256) / p, (v / 256) % p;
    assert v / 256 == q * p + r;
    assert v == q * (256 * p) + (256 * r + v % 256);
    QuotientIs(v, q, 256 * p, 256 * r + v % 256);
  }

  lemma QuotientIs(x: nat, q: nat, n: nat, r: nat)
    requires r < n && x == q * n + r
    ensures x / n == q
  {
    var p := x / n;
    assert x == p * n + x % n;
    if p < q {
      MulMonotone(p + 1, q, n);
    } else if p > q {
      MulMonotone(q + 1, p, n);
    }
  }

  /** Negative times are written in two's complement. */
  lemma TwosComplement(x: int)
    requires Int64(x)
    ensures x >= 0 ==> ToU64(x) == x
    ensures x < 0 ==> ToU64(x) == x + 0x1_0000_0000_0000_0000
    ensures FromU64(ToU64(x)) == x
  {
  }

  /** Where the fields of a file stand: magic, version 1, flags and time in the first 16 bytes, then the records, then
      the end tag, the number of records and the checksum in the last 13. */
  lemma {:induction false} FileLayout(raws: seq<Raw>, flags: nat, unix: nat)
    requires Encodable(raws)
    ensures var d := Encode(raws, flags, unix);
            && |d| == 29 + |EncRecords(raws)|
            && HasAt(d, 0, [0x47, 0x52, 0x44, 0x53]) && HasAt(d, 4, Le(1, 2)) && HasAt(d, 6, Le(flags, 2)) && HasAt(d, 8, Le(unix, 8))
            && HasAt(d, 16, EncRecords(raws)) && HasAt(d, |d| - 13, [0xFF]) && HasAt(d, |d| - 12, Le(|raws|, 8))
            && HasAt(d, |d| - 4, CrcBytes(Crc(d[..|d| - 4])))
  {
    hide Le, HasAt, CrcBytes, Crc, EncRecords;
    var b, h, e, f := Body(raws, flags, unix), Header(flags, unix), EncRecords(raws), [EOF_TAG] + Le(|raws|, 8);
    var d := Encode(raws, flags, unix);
    var c := CrcBytes(Crc(b));
    BodyLength(raws, flags, unix);
    HeaderLength(flags, unix);
    CrcLength(Crc(b));
    Ends(b, c);
    WholeAt(d);
    HasAtConcat(d, 0, b, c);
    HasAtConcat(d, 0, h + e, f);
    HasAtConcat(d, 0, h, e);
    FourParts(d, MAGIC, Le(1, 2), Le(flags, 2), Le(unix, 8));
    HasAtConcat(d, 16 + |e|, [EOF_TAG], Le(|raws|, 8));
  }

  lemma WholeAt(d: Bytes)
    ensures HasAt(d, 0, d)
  {
  }

  /** A record begins with its type's number and a byte that says whether a time follows; then the time, the key and the
      payload. */
  lemma {:induction false} RecordLayout(r: Raw)
    requires Fits(r)
    ensures var e, o := EncRecord(r), if r.expire.Some? then 10 else 2;
            && |e| >= 2 && NatOf(e[0]) == r.tag && NatOf(e[1]) == (if r.expire.Some? then 1 else 0)
            && (r.expire.Some? ==> HasAt(e, 2, Le(ToU64(r.expire.value), 8)))
            && HasAt(e, o, Lp(r.key)) && HasAt(e, o + |Lp(r.key)|, EncPayload(r.payload))
  {
    hide ByteOf, Le, EncPayload, FitsPayload, HasAt, Lp;
    NatOfByte(r.tag);
    var e, a, b, c, p := EncRecord(r), [ByteOf(r.tag)], EncTtl(r.expire), Lp(r.key), EncPayload(r.payload);
    WholeAt(e);
    HasAtConcat(e, 0, a + b + c, p);
    HasAtConcat(e, 0, a + b, c);
    HasAtConcat(e, 0, a, b);
    OneAt(e, 0, ByteOf(r.tag));
    if r.expire.Some? {
      HasAtConcat(e, 1, [1], Le(ToU64(r.expire.value), 8));
      OneAt(e, 1, 1);
    } else {
      OneAt(e, 1, 0);
    }
    FlagValues();
  }

  lemma FlagValues()
    ensures NatOf(0) == 0 && NatOf(1) == 1
  {
  }

  /** A string is its length and then its bytes; a container its number of elements and then the elements in turn; a hash
      element its field and then its value, a sorted set's its member and then the score's pattern. */
  lemma {:induction false} PayloadLayout(s: Bytes, items: seq<Item>, a: Bytes, b: Bytes, bits: nat)
    ensures EncPayload(Text(s)) == Lp(s) && HasAt(Lp(s), 0, Le(|s|, 4)) && HasAt(Lp(s), 4, s)
    ensures HasAt(EncPayload(Items(items)), 0, Le(|items|, 4)) && HasAt(EncPayload(Items(items)), 4, EncItems(items, |items|))
    ensures HasAt(EncItem(Pair(a, b)), 0, Lp(a)) && HasAt(EncItem(Pair(a, b)), |Lp(a)|, Lp(b))
    ensures HasAt(EncItem(Scored(a, bits)), 0, Lp(a)) && HasAt(EncItem(Scored(a, bits)), |Lp(a)|, Le(bits, 8)) && EncItem(One(a)) == Lp(a)
  {
    hide Le, EncItems;
  }

  /** The checksum's low byte comes first. */
  lemma CrcOrder()
    ensures CrcBytes(0x04030201) == [0x01, 0x02, 0x03, 0x04]
  {
  }
}
