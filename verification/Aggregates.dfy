/** Commands on hashes, lists, sets and sorted sets (src/commands/cmd_hash.cpp, cmd_list.cpp, cmd_set.cpp,
    cmd_zset.cpp): a key holds an aggregate exactly while the aggregate has elements. */
module AggregateValues {
  import opened Options
  import opened Ints
  import opened Maps
  import opened ByteStrings
  import opened Values
  import opened ScoreOrder
  import opened ZPops
  import opened TimedMaps

  type Held = Value<Score>
  type View = map<Bytes, Cell<Held>>

  datatype Kind = OfHash | OfList | OfSet | OfSorted

  function EmptyOf(k: Kind): Held
  {
    match k
    case OfHash => Hash(map[])
    case OfList => List([])
    case OfSet => Set({})
    case OfSorted => Sorted(map[])
  }

  predicate Is(v: Held, k: Kind)
  {
    match k
    case OfHash => v.Hash?
    case OfList => v.List?
    case OfSet => v.Set?
    case OfSorted => v.Sorted?
  }

  predicate IsEmpty<S>(v: Value<S>)
  {
    match v
    case Str(_) => false
    case Hash(m) => |m| == 0
    case List(s) => |s| == 0
    case Set(s) => |s| == 0
    case Sorted(m) => |m| == 0
  }

  ghost predicate NoEmpty<S>(view: map<Bytes, Cell<Value<S>>>)
  {
    forall k :: k in view ==> !IsEmpty(view[k].value)
  }

  /** What a command on an aggregate works on: a missing key counts as an empty one, a key of another type is an error. */
  ghost function Current(view: View, key: Bytes, kind: Kind): Option<Held>
  {
    if key !in view then Some(EmptyOf(kind))
    else if Is(view[key].value, kind) then Some(view[key].value)
    else None
  }

  /** What a command leaves: an aggregate without elements is a missing key; a TTL stays. */
  ghost function PutBack(view: View, key: Bytes, v: Held): View
  {
    if IsEmpty(v) then view - {key}
    else view[key := Cell(v, if key in view then view[key].deadline else None)]
  }

  lemma PutBackKeeps(view: View, key: Bytes, v: Held)
    requires NoEmpty(view)
    ensures NoEmpty(PutBack(view, key, v))
  {
  }

  /** Reading after writing: what was put back, empty or not, is what the next command works on. */
  lemma PutBackReads(view: View, key: Bytes, v: Held, kind: Kind, other: Bytes, otherKind: Kind)
    requires Is(v, kind)
    ensures Current(PutBack(view, key, v), key, kind) == Some(v)
    ensures other != key ==> Current(PutBack(view, key, v), other, otherKind) == Current(view, other, otherKind)
    ensures PutBack(view, key, v) - {key} == view - {key}
    ensures key in view && !IsEmpty(v) ==> PutBack(view, key, v)[key].deadline == view[key].deadline
    ensures key !in view && !IsEmpty(v) ==> PutBack(view, key, v)[key].deadline == None
  {
    if IsEmpty(v) {
      assert v == EmptyOf(kind);
    }
  }

  // Hashes.

  /** Fields set by the first n pairs, later pairs winning. */
  function FieldsAfter(m: map<Bytes, Bytes>, args: seq<Bytes>, n: nat): map<Bytes, Bytes>
    requires 2 * n <= |args|
  {
    if n == 0 then m else FieldsAfter(m, args, n - 1)[args[2 * n - 2] := args[2 * n - 1]]
  }

  /** The i-th pair of arguments: a field and then its value. */
  function FieldArg(args: seq<Bytes>, i: nat): Bytes
    requires 2 * i + 1 < |args|
  {
    args[2 * i]
  }

  function ValueArg(args: seq<Bytes>, i: nat): Bytes
    requires 2 * i + 1 < |args|
  {
    args[2 * i + 1]
  }

  ghost predicate NamesField(args: seq<Bytes>, n: nat, f: Bytes)
    requires 2 * n <= |args|
  {
    exists i :: 0 <= i < n && FieldArg(args, i) == f
  }

  /** Pair i is the last of the first n that names the field. */
  ghost predicate NamesLast(args: seq<Bytes>, n: nat, f: Bytes, i: int)
    requires 2 * n <= |args|
  {
    0 <= i < n && FieldArg(args, i) == f && forall j :: i < j < n ==> FieldArg(args, j) != f
  }

  /** A field has the value of the last pair that names it, else its old value; no field disappears. */
  lemma {:induction false} FieldsAfterAt(m: map<Bytes, Bytes>, args: seq<Bytes>, n: nat, f: Bytes)
    requires 2 * n <= |args|
    ensures f in FieldsAfter(m, args, n) <==> f in m || NamesField(args, n, f)
    ensures forall i :: NamesLast(args, n, f, i) ==> f in FieldsAfter(m, args, n) && FieldsAfter(m, args, n)[f] == ValueArg(args, i)
    ensures f in m && !NamesField(args, n, f) ==> f in FieldsAfter(m, args, n) && FieldsAfter(m, args, n)[f] == m[f]
  {
    if n > 0 {
      FieldsAfterAt(m, args, n - 1, f);
      FieldsNext(m, args, n);
      hide FieldArg, ValueArg, FieldsAfter;
      if FieldArg(args, n - 1) == f {
        assert forall i :: NamesLast(args, n, f, i) ==> i == n - 1;
      } else {
        assert forall i :: NamesLast(args, n, f, i) ==> NamesLast(args, n - 1, f, i);
      }
    }
  }

  lemma FieldsNext(m: map<Bytes, Bytes>, args: seq<Bytes>, n: nat)
    requires 0 < n && 2 * n <= |args|
    ensures FieldsAfter(m, args, n) == FieldsAfter(m, args, n - 1)[FieldArg(args, n - 1) := ValueArg(args, n - 1)]
  {
  }

  method SetFields(m: map<Bytes, Bytes>, args: seq<Bytes>) returns (r: map<Bytes, Bytes>, added: nat)
    requires |args| % 2 == 0
    ensures r == FieldsAfter(m, args, |args| / 2) && |r| == |m| + added
    ensures args != [] ==> r != map[]
  {
    r, added := m, 0;
    for i := 0 to |args| / 2
      invariant r == FieldsAfter(m, args, i) && |r| == |m| + added && (i > 0 ==> r != map[])
    {
      var k := args[2 * i];
      if k !in r {
        added := added + 1;
        InsertGrows(r, k, args[2 * i + 1]);
      } else {
        UpdateSize(r, k, args[2 * i + 1]);
      }
      r := r[k := args[2 * i + 1]];
      assert k in r;
    }
  }

  /** HDEL and ZREM: the named keys go; the count is what was lost. */
  method DropKeys<V>(m: map<Bytes, V>, args: seq<Bytes>) returns (r: map<Bytes, V>, removed: nat)
    ensures r == m - Named(args, |args|) && |m| == |r| + removed
  {
    hide Named;
    r, removed := m, 0;
    DropNone(m, args);
    for i := 0 to |args|
      invariant r == m - Named(args, i) && |m| == |r| + removed
    {
      DropNext(m, args, i);
      if args[i] in r {
        removed := removed + 1;
      }
      r := r - {args[i]};
    }
  }

  // Sets.

  method AddMembers(s: set<Bytes>, args: seq<Bytes>) returns (r: set<Bytes>, added: nat)
    ensures r == s + Named(args, |args|) && |r| == |s| + added
    ensures args != [] ==> r != {}
  {
    r, added := s, 0;
    for i := 0 to |args|
      invariant r == s + Named(args, i) && |r| == |s| + added && (i > 0 ==> args[0] in r)
    {
      NamedNext(args, i);
      CardAdd(r, args[i]);
      if args[i] !in r {
        added := added + 1;
      }
      r := r + {args[i]};
    }
  }

  method DropMembers(s: set<Bytes>, args: seq<Bytes>) returns (r: set<Bytes>, removed: nat)
    ensures r == s - Named(args, |args|) && |s| == |r| + removed
  {
    r, removed := s, 0;
    for i := 0 to |args|
      invariant r == s - Named(args, i) && |s| == |r| + removed
    {
      NamedNext(args, i);
      CardDrop(r, args[i]);
      if args[i] in r {
        removed := removed + 1;
      }
      r := r - {args[i]};
    }
  }

  lemma CardAdd(s: set<Bytes>, x: Bytes)
    ensures |s + {x}| == |s| + if x in s then 0 else 1
  {
    if x in s {
      assert s + {x} == s;
    }
  }

  lemma CardDrop(s: set<Bytes>, x: Bytes)
    ensures |s - {x}| == |s| - if x in s then 1 else 0
  {
    if x !in s {
      assert s - {x} == s;
    }
  }

  ghost predicate DistinctItems(items: seq<Bytes>)
  {
    forall i, j :: 0 <= i < j < |items| ==> items[i] != items[j]
  }

  /** SPOP: any n different members. Each pick needs a member to be left. */
  method PickMembers(s: set<Bytes>, n: nat) returns (items: seq<Bytes>, r: set<Bytes>)
    requires n <= |s|
    ensures |items| == n && DistinctItems(items) && Named(items, n) <= s && r == s - Named(items, n) && |r| == |s| - n
  {
    NoneNamed(s);
    hide Named, DistinctItems;
    items, r := [], s;
    for i := 0 to n
      invariant |items| == i && DistinctItems(items) && Named(items, i) <= s && r == s - Named(items, i) && |r| == |s| - i
    {
      CardPositive(r, n - i);
      var m :| m in r;
      PickNext(items, s, m);
      CardDrop(r, m);
      items, r := items + [m], r - {m};
    }
  }

  lemma CardPositive(r: set<Bytes>, k: nat)
    requires 0 < k <= |r|
    ensures r != {}
  {
  }

  lemma NoneNamed(s: set<Bytes>)
    ensures Named([], 0) <= s && s - Named([], 0) == s && DistinctItems([])
  {
  }

  lemma {:induction false} PickNext(items: seq<Bytes>, s: set<Bytes>, m: Bytes)
    requires DistinctItems(items) && Named(items, |items|) <= s && m in s - Named(items, |items|)
    ensures DistinctItems(items + [m]) && Named(items + [m], |items| + 1) <= s
    ensures s - Named(items + [m], |items| + 1) == (s - Named(items, |items|)) - {m}
  {
    assert forall j :: 0 <= j < |items| ==> items[j] in Named(items, |items|);
    NamedSnoc(items, m);
  }

  lemma NamedSnoc(items: seq<Bytes>, m: Bytes)
    ensures Named(items + [m], |items| + 1) == Named(items, |items|) + {m}
  {
    var more := items + [m];
    forall x | x in Named(items, |items|) + {m} ensures x in Named(more, |more|) {
      if x == m {
        assert more[|items|] == m;
      } else {
        var i :| 0 <= i < |items| && items[i] == x;
        assert more[i] == x;
      }
    }
  }

  // Lists.

  function Backwards(s: seq<Bytes>): (r: seq<Bytes>)
    ensures |r| == |s| && forall i :: 0 <= i < |s| ==> r[i] == s[|s| - 1 - i]
  {
    seq(|s|, i requires 0 <= i < |s| => s[|s| - 1 - i])
  }

  method PushAll(s: seq<Bytes>, args: seq<Bytes>, front: bool) returns (r: seq<Bytes>)
    ensures r == if front then Backwards(args) + s else s + args
  {
    r := s;
    for i := 0 to |args|
      invariant r == if front then Backwards(args[..i]) + s else s + args[..i]
    {
      assert args[..i + 1] == args[..i] + [args[i]];
      assert Backwards(args[..i + 1]) == [args[i]] + Backwards(args[..i]);
      r := if front then [args[i]] + r else r + [args[i]];
    }
    assert args[..|args|] == args;
  }

  /** LPOP and RPOP of n elements, one at a time; each pop needs a first or last element. */
  method PopMany(s: seq<Bytes>, n: nat, front: bool) returns (items: seq<Bytes>, r: seq<Bytes>)
    requires n <= |s|
    ensures front ==> items == s[..n] && r == s[n..]
    ensures !front ==> items == Backwards(s[|s| - n..]) && r == s[..|s| - n]
  {
    items, r := [], s;
    for i := 0 to n
      invariant |items| == i
      invariant front ==> items == s[..i] && r == s[i..]
      invariant !front ==> r == s[..|s| - i] && forall j :: 0 <= j < i ==> items[j] == s[|s| - 1 - j]
    {
      if front {
        items, r := items + [r[0]], r[1..];
      } else {
        items, r := items + [r[|r| - 1]], r[..|r| - 1];
      }
    }
  }

  // Sorted sets.

  /** One pair of ZADD: NX skips members that exist, XX those that do not. */
  function ZAddOne(m: map<Bytes, Score>, member: Bytes, score: Score, nx: bool, xx: bool): map<Bytes, Score>
  {
    if (nx && member in m) || (xx && member !in m) then m else m[member := score]
  }

  datatype ScorePair = ScorePair(score: Score, member: Bytes)

  function ZAddAfter(m: map<Bytes, Score>, pairs: seq<ScorePair>, n: nat, nx: bool, xx: bool): map<Bytes, Score>
    requires n <= |pairs|
  {
    if n == 0 then m else ZAddOne(ZAddAfter(m, pairs, n - 1, nx, xx), pairs[n - 1].member, pairs[n - 1].score, nx, xx)
  }

  ghost predicate NamedBy(pairs: seq<ScorePair>, n: nat, k: Bytes)
    requires n <= |pairs|
  {
    exists i :: 0 <= i < n && pairs[i].member == k
  }

  /** ZADD without options: a member has the score of the last pair that names it. */
  lemma {:induction false} ZAddPlain(m: map<Bytes, Score>, pairs: seq<ScorePair>, n: nat, k: Bytes)
    requires n <= |pairs|
    ensures var r := ZAddAfter(m, pairs, n, false, false);
            && (k in r <==> k in m || NamedBy(pairs, n, k))
            && (k in m && !NamedBy(pairs, n, k) ==> r[k] == m[k])
            && forall i :: 0 <= i < n && pairs[i].member == k && (forall j :: i < j < n ==> pairs[j].member != k) ==>
                 k in r && r[k] == pairs[i].score
  {
    if n > 0 {
      ZAddPlain(m, pairs, n - 1, k);
    }
  }

  /** NX: members that exist keep their score, a new one has the score of the first pair that names it. */
  lemma {:induction false} ZAddNx(m: map<Bytes, Score>, pairs: seq<ScorePair>, n: nat, k: Bytes)
    requires n <= |pairs|
    ensures var r := ZAddAfter(m, pairs, n, true, false);
            && (k in r <==> k in m || NamedBy(pairs, n, k)) && (k in m ==> r[k] == m[k])
            && forall i :: k !in m && 0 <= i < n && pairs[i].member == k && (forall j :: 0 <= j < i ==> pairs[j].member != k) ==>
                 k in r && r[k] == pairs[i].score
  {
    if n > 0 {
      ZAddNx(m, pairs, n - 1, k);
    }
  }

  /** XX: no member is added, one that exists has the score of the last pair that names it. */
  lemma {:induction false} ZAddXx(m: map<Bytes, Score>, pairs: seq<ScorePair>, n: nat, k: Bytes)
    requires n <= |pairs|
    ensures var r := ZAddAfter(m, pairs, n, false, true);
            && (k in r <==> k in m) && (k in m && !NamedBy(pairs, n, k) ==> r[k] == m[k])
            && forall i :: k in m && 0 <= i < n && pairs[i].member == k && (forall j :: i < j < n ==> pairs[j].member != k) ==>
                 r[k] == pairs[i].score
  {
    if n > 0 {
      ZAddXx(m, pairs, n - 1, k);
    }
  }

  /** How many of the first n pairs changed the sorted set. */
  ghost function ZAddEffects(m: map<Bytes, Score>, pairs: seq<ScorePair>, n: nat, nx: bool, xx: bool): nat
    requires n <= |pairs|
  {
    if n == 0 then 0
    else ZAddEffects(m, pairs, n - 1, nx, xx) +
         if ZAddAfter(m, pairs, n, nx, xx) != ZAddAfter(m, pairs, n - 1, nx, xx) then 1 else 0
  }

  method ZAddAll(m: map<Bytes, Score>, pairs: seq<ScorePair>, nx: bool, xx: bool) returns (r: map<Bytes, Score>, added: nat, changed: nat)
    requires pairs != [] && !(nx && xx) && (xx ==> m != map[])
    ensures r == ZAddAfter(m, pairs, |pairs|, nx, xx) && |r| == |m| + added
    ensures added + changed == ZAddEffects(m, pairs, |pairs|, nx, xx)
    ensures r != map[] && m.Keys <= r.Keys && (xx ==> added == 0) && (nx ==> changed == 0 && forall k :: k in m ==> r[k] == m[k])
  {
    hide ZAddOne;
    r, added, changed := m, 0, 0;
    for i := 0 to |pairs|
      invariant r == ZAddAfter(m, pairs, i, nx, xx) && |r| == |m| + added && m.Keys <= r.Keys
      invariant added + changed == ZAddEffects(m, pairs, i, nx, xx)
      invariant (i > 0 ==> r != map[]) && (xx ==> added == 0 && r != map[])
      invariant nx ==> changed == 0 && forall k :: k in m ==> r[k] == m[k]
    {
      var isNew, isChange;
      r, isNew, isChange := ZAddPair(r, pairs[i], nx, xx);
      added := if isNew then added + 1 else added;
      changed := if isChange then changed + 1 else changed;
    }
  }

  /** One pair: at most one of "new" and "changed", and one of them exactly if the sorted set is different afterwards. */
  method ZAddPair(m: map<Bytes, Score>, p: ScorePair, nx: bool, xx: bool) returns (r: map<Bytes, Score>, isNew: bool, isChange: bool)
    requires !(nx && xx)
    ensures r == ZAddOne(m, p.member, p.score, nx, xx) && |r| == |m| + (if isNew then 1 else 0) && m.Keys <= r.Keys
    ensures !(isNew && isChange) && (isNew || isChange <==> r != m) && (xx ==> !isNew) && (!xx ==> r != map[])
    ensures nx ==> !isChange && forall k :: k in m ==> r[k] == m[k]
  {
    var present := p.member in m;
    if (nx && present) || (xx && !present) {
      return m, false, false;
    }
    r := m[p.member := p.score];
    assert p.member in r;
    if present {
      UpdateSize(m, p.member, p.score);
      isNew, isChange := false, m[p.member] != p.score;
      assert !isChange ==> r == m;
    } else {
      InsertGrows(m, p.member, p.score);
      isNew, isChange := true, false;
    }
  }

  /** Adding scores: a finite sum is rounded, possibly to an infinity; infinities of opposite sign have no sum. */
  function Plus(a: Score, b: Score, round: real -> Score): Option<Score>
  {
    match (a, b)
    case (Fin(x), Fin(y)) => Some(round(x + y))
    case (NegInf, PosInf) => None
    case (PosInf, NegInf) => None
    case (Fin(_), _) => Some(b)
    case (_, _) => Some(a)
  }

  /** A sum fails exactly for infinities of opposite sign; an infinity absorbs any finite score; finite scores add up as
      numbers before they are rounded. */
  lemma PlusLaws(a: Score, b: Score, x: real, y: real, round: real -> Score)
    ensures Plus(a, b, round).None? <==> (a.PosInf? && b.NegInf?) || (a.NegInf? && b.PosInf?)
    ensures Plus(a, b, round) == Plus(b, a, round)
    ensures Plus(Fin(x), PosInf, round) == Plus(PosInf, PosInf, round) == Some(PosInf)
    ensures Plus(Fin(x), NegInf, round) == Plus(NegInf, NegInf, round) == Some(NegInf)
    ensures Plus(Fin(x), Fin(y), r => Fin(r)) == Some(Fin(x + y)) && Plus(Fin(x), Fin(y), round) == Some(round(x + y))
  {
  }

  /** The first member in score order, if there is a member. */
  method Least(m: map<Bytes, Score>) returns (e: Scored)
    requires m != map[]
    ensures IsLeast(m, e)
  {
    ScoredOrder();
    var k :| k in m;
    var rest := m.Keys - {k};
    while rest != {}
      invariant k in m && k !in rest && rest <= m.Keys
      invariant forall o :: o in m && o !in rest ==> !ScoredLess(Scored(m[o], o), Scored(m[k], k))
      decreases |rest|
    {
      var o :| o in rest;
      rest := rest - {o};
      if ScoredLess(Scored(m[o], o), Scored(m[k], k)) {
        k := o;
      }
    }
    e := Scored(m[k], k);
  }

  method PopLeast(m: map<Bytes, Score>, n: nat) returns (items: seq<Scored>, r: map<Bytes, Score>)
    requires n <= |m|
    ensures |items| == n && PoppedTo(m, items, r) && |r| == |m| - n
  {
    items, r := [], m;
    for i := 0 to n
      invariant |items| == i && PoppedTo(m, items, r) && |r| == |m| - i
    {
      assert r != map[];
      var e := Least(r);
      PoppedSnoc(m, items, r, e);
      RemoveShrinks(r, e.member);
      items, r := items + [e], r - {e.member};
    }
  }
}

module AggregateCommands {
  import opened Options
  import opened Ints
  import opened Maps
  import opened ByteStrings
  import opened Values
  import opened ScoreOrder
  import opened ZPops
  import opened HashTables
  import opened TimedMaps
  import opened ExpiryHeaps
  import opened Databases
  import opened AggregateValues
  import Runs = DatabaseRuns

  type Store = Database<Bytes, Held>

  /** The standard library's conversions and rounding, whatever they are. */
  datatype Library = Library(parse: Bytes -> Option<int>, show: int -> Bytes, round: real -> Score)

  /** What parses is a 64-bit integer. */
  ghost predicate Sane(lib: Library)
  {
    forall s :: lib.parse(s).Some? ==> Int64(lib.parse(s).value)
  }

  datatype Reply =
    | Number(n: int)
    | Item(item: Option<Bytes>)
    | Items(items: seq<Bytes>)
    | ScoredItems(pairs: seq<Scored>)
    | NullItems
    | NewScore(score: Score)
    | WrongType
    | WrongArity
    | Invalid

  /** The aggregate at a key, made empty in the keyspace first if the key is missing. None: another type is there. */
  method GetOrCreate(db: Store, key: Bytes, kind: Kind, now: int) returns (r: Option<Held>)
    requires db.Valid()
    modifies db.keyspace, db.expires
    ensures db.Valid() && r == Current(old(db.View(now)), key, kind)
    ensures r.None? || key in old(db.View(now)) ==> db.View(now) == old(db.View(now))
    ensures key !in old(db.View(now)) ==> db.View(now) == old(db.View(now))[key := Cell(EmptyOf(kind), None)]
  {
    hide Database.Valid, Database.View, Live, Is, EmptyOf;
    var v := db.LookupAndExpire(key, now);
    if v.Some? {
      return if Is(v.value, kind) then v else None;
    }
    Runs.Store(db, key, EmptyOf(kind), now);
    r := Some(EmptyOf(kind));
  }

  /** Writing through the pointer that a lookup returned. */
  method WriteBack(db: Store, key: Bytes, v: Held, now: int, ghost before: View)
    requires db.Valid() && key in db.View(now) && !IsEmpty(v)
    requires db.View(now) == before || (key !in before && exists c :: db.View(now) == before[key := Cell(c, None)])
    modifies db.keyspace, db.expires
    ensures db.Valid() && db.View(now) == PutBack(before, key, v) && (NoEmpty(before) ==> NoEmpty(db.View(now)))
  {
    if NoEmpty(before) {
      PutBackKeeps(before, key, v);
    }
    hide NoEmpty, Database.Valid, Database.View, Live, IsEmpty;
    var _ := db.Overwrite(key, v, now);
  }

  method Drop(db: Store, key: Bytes, now: int)
    requires db.Valid()
    modifies db.keyspace, db.expires
    ensures db.Valid() && db.View(now) == old(db.View(now)) - {key}
  {
    LiveWithout(db.Stored(), key, now);
    hide Database.Valid, Live;
    var _ := db.Del(key);
  }

  lemma LiveWithout(t: View, key: Bytes, now: int)
    ensures Live(t - {key}, now) == Live(t, now) - {key}
  {
  }

  /** After a removal: an aggregate without elements takes its key with it. */
  method WriteOrDelete(db: Store, key: Bytes, v: Held, now: int)
    requires db.Valid() && key in db.View(now)
    modifies db.keyspace, db.expires
    ensures db.Valid() && db.View(now) == PutBack(old(db.View(now)), key, v)
    ensures NoEmpty(old(db.View(now))) ==> NoEmpty(db.View(now))
  {
    if NoEmpty(db.View(now)) {
      PutBackKeeps(db.View(now), key, v);
    }
    hide NoEmpty, Database.Valid, Database.View, Live, IsEmpty;
    if IsEmpty(v) {
      Drop(db, key, now);
    } else {
      var _ := db.Overwrite(key, v, now);
    }
  }

  // Each command has its effect stated as a relation between the live keys before, those after, and the reply.

  ghost predicate DidHSet(view: View, key: Bytes, args: seq<Bytes>, view': View, reply: Reply)
  {
    var h := Current(view, key, OfHash);
    if |args| < 2 || |args| % 2 != 0 then reply == WrongArity && view' == view
    else if h.None? then reply == WrongType && view' == view
    else var after := FieldsAfter(h.value.fields, args, |args| / 2);
         view' == PutBack(view, key, Hash(after)) && reply == Number(|after| - |h.value.fields|)
  }

  /** HSET. */
  method HSet(db: Store, key: Bytes, args: seq<Bytes>, now: int) returns (reply: Reply)
    requires db.Valid()
    modifies db.keyspace, db.expires
    ensures db.Valid() && DidHSet(old(db.View(now)), key, args, db.View(now), reply)
    ensures NoEmpty(old(db.View(now))) ==> NoEmpty(db.View(now))
  {
    hide Database.Valid, Database.View, Live, PutBack, FieldsAfter;
    if |args| < 2 || |args| % 2 != 0 {
      return WrongArity;
    }
    ghost var before := db.View(now);
    var h := GetOrCreate(db, key, OfHash, now);
    if h.None? {
      return WrongType;
    }
    var fields, added := SetFields(h.value.fields, args);
    WriteBack(db, key, Hash(fields), now, before);
    reply := Number(added);
  }

  ghost predicate DidHIncrBy(view: View, key: Bytes, field: Bytes, delta: Option<int>, lib: Library, view': View, reply: Reply)
  {
    var h := Current(view, key, OfHash);
    if delta.None? then reply == Invalid && view' == view
    else if h.None? then reply == WrongType && view' == view
    else
      var m := h.value.fields;
      var current := if field in m then lib.parse(m[field]) else Some(0);
      if current.None? || !Int64(current.value + delta.value) then reply == Invalid && view' == view
      else
        && reply == Number(current.value + delta.value)
        && view' == PutBack(view, key, Hash(m[field := lib.show(current.value + delta.value)]))
  }

  /** HINCRBY: a field that is missing counts as 0, to which no delta can overflow, so a hash made for the command never
      stays empty. */
  method HIncrBy(db: Store, key: Bytes, field: Bytes, delta: Option<int>, lib: Library, now: int)
    returns (reply: Reply)
    requires db.Valid() && (delta.Some? ==> Int64(delta.value)) && Sane(lib)
    modifies db.keyspace, db.expires
    ensures db.Valid() && DidHIncrBy(old(db.View(now)), key, field, delta, lib, db.View(now), reply)
    ensures NoEmpty(old(db.View(now))) ==> NoEmpty(db.View(now))
  {
    hide Database.Valid, Database.View, Live, PutBack;
    if delta.None? {
      return Invalid;
    }
    ghost var before := db.View(now);
    var h := GetOrCreate(db, key, OfHash, now);
    if h.None? {
      return WrongType;
    }
    var m := h.value.fields;
    var current := if field in m then lib.parse(m[field]) else Some(0);
    if current.None? || AddWouldOverflow(current.value, delta.value) {
      return Invalid;
    }
    var after := m[field := lib.show(current.value + delta.value)];
    assert field in after;
    WriteBack(db, key, Hash(after), now, before);
    reply := Number(current.value + delta.value);
  }

  ghost predicate DidHDel(view: View, key: Bytes, args: seq<Bytes>, view': View, reply: Reply)
  {
    var h := Current(view, key, OfHash);
    if h.None? then reply == WrongType && view' == view
    else var after := h.value.fields - Named(args, |args|);
         view' == PutBack(view, key, Hash(after)) && reply == Number(|h.value.fields| - |after|)
  }

  /** HDEL. */
  method HDel(db: Store, key: Bytes, args: seq<Bytes>, now: int) returns (reply: Reply)
    requires db.Valid()
    modifies db.keyspace, db.expires
    ensures db.Valid() && DidHDel(old(db.View(now)), key, args, db.View(now), reply)
    ensures NoEmpty(old(db.View(now))) ==> NoEmpty(db.View(now))
  {
    hide Database.Valid, Database.View, Live, PutBack;
    ghost var before := db.View(now);
    var v := db.LookupAndExpire(key, now);
    if v.None? {
      MissingStays(before, key, OfHash);
      DropFromNone<Bytes>(args);
      return Number(0);
    }
    if !v.value.Hash? {
      return WrongType;
    }
    var fields, removed := DropKeys(v.value.fields, args);
    WriteOrDelete(db, key, Hash(fields), now);
    reply := Number(removed);
  }

  lemma DropFromNone<V>(args: seq<Bytes>)
    ensures var none: map<Bytes, V> := map[]; none - Named(args, |args|) == none
  {
  }

  lemma MissingStays(view: View, key: Bytes, kind: Kind)
    requires key !in view
    ensures PutBack(view, key, EmptyOf(kind)) == view
  {
    assert view - {key} == view;
  }

  ghost predicate DidPush(view: View, key: Bytes, args: seq<Bytes>, front: bool, view': View, reply: Reply)
  {
    var l := Current(view, key, OfList);
    if args == [] then reply == WrongArity && view' == view
    else if l.None? then reply == WrongType && view' == view
    else var after := if front then Backwards(args) + l.value.elements else l.value.elements + args;
         view' == PutBack(view, key, List(after)) && reply == Number(|after|)
  }

  /** LPUSH and RPUSH. */
  method Push(db: Store, key: Bytes, args: seq<Bytes>, front: bool, now: int) returns (reply: Reply)
    requires db.Valid()
    modifies db.keyspace, db.expires
    ensures db.Valid() && DidPush(old(db.View(now)), key, args, front, db.View(now), reply)
    ensures NoEmpty(old(db.View(now))) ==> NoEmpty(db.View(now))
  {
    hide Database.Valid, Database.View, Live, PutBack;
    if args == [] {
      return WrongArity;
    }
    ghost var before := db.View(now);
    var l := GetOrCreate(db, key, OfList, now);
    if l.None? {
      return WrongType;
    }
    var after := PushAll(l.value.elements, args, front);
    WriteBack(db, key, List(after), now, before);
    reply := Number(|after|);
  }

  function Fewer(a: nat, b: nat): nat { if a <= b then a else b }

  ghost predicate DidPop(view: View, key: Bytes, count: Option<int>, front: bool, view': View, reply: Reply)
  {
    if count.Some? && count.value < 0 then reply == Invalid && view' == view
    else if key !in view then view' == view && reply == if count.Some? then NullItems else Item(None)
    else if !view[key].value.List? then reply == WrongType && view' == view
    else
      var s := view[key].value.elements;
      var n := if count.None? then 1 else Fewer(count.value, |s|);
      && n <= |s|
      && view' == PutBack(view, key, List(if front then s[n..] else s[..|s| - n]))
      && (count.None? ==> reply == Item(Some(if front then s[0] else s[|s| - 1])))
      && (count.Some? ==> reply == Items(if front then s[..n] else Backwards(s[|s| - n..])))
  }

  /** LPOP and RPOP, without a count (one element) or with one. The front or back taken without a check is there because
      no key holds an empty list. */
  method Pop(db: Store, key: Bytes, count: Option<int>, front: bool, now: int) returns (reply: Reply)
    requires db.Valid() && NoEmpty(db.View(now))
    modifies db.keyspace, db.expires
    ensures db.Valid() && DidPop(old(db.View(now)), key, count, front, db.View(now), reply)
    ensures NoEmpty(db.View(now))
  {
    hide Database.Valid, Database.View, Live, PutBack;
    if count.Some? && count.value < 0 {
      return Invalid;
    }
    var v := db.LookupAndExpire(key, now);
    if v.None? {
      return if count.Some? then NullItems else Item(None);
    }
    if !v.value.List? {
      return WrongType;
    }
    var s := v.value.elements;
    assert s != [];
    if count.None? {
      var item := if front then s[0] else s[|s| - 1];
      WriteOrDelete(db, key, List(if front then s[1..] else s[..|s| - 1]), now);
      return Item(Some(item));
    }
    var items, rest := PopMany(s, Fewer(count.value, |s|), front);
    WriteOrDelete(db, key, List(rest), now);
    reply := Items(items);
  }

  ghost predicate DidSAdd(view: View, key: Bytes, args: seq<Bytes>, view': View, reply: Reply)
  {
    var s := Current(view, key, OfSet);
    if args == [] then reply == WrongArity && view' == view
    else if s.None? then reply == WrongType && view' == view
    else var after := s.value.members + Named(args, |args|);
         view' == PutBack(view, key, Set(after)) && reply == Number(|after| - |s.value.members|)
  }

  /** SADD. */
  method SAdd(db: Store, key: Bytes, args: seq<Bytes>, now: int) returns (reply: Reply)
    requires db.Valid()
    modifies db.keyspace, db.expires
    ensures db.Valid() && DidSAdd(old(db.View(now)), key, args, db.View(now), reply)
    ensures NoEmpty(old(db.View(now))) ==> NoEmpty(db.View(now))
  {
    hide Database.Valid, Database.View, Live, PutBack, Named;
    if args == [] {
      return WrongArity;
    }
    ghost var before := db.View(now);
    var s := GetOrCreate(db, key, OfSet, now);
    if s.None? {
      return WrongType;
    }
    var members, added := AddMembers(s.value.members, args);
    WriteBack(db, key, Set(members), now, before);
    reply := Number(added);
  }

  ghost predicate DidSRem(view: View, key: Bytes, args: seq<Bytes>, view': View, reply: Reply)
  {
    var s := Current(view, key, OfSet);
    if s.None? then reply == WrongType && view' == view
    else var after := s.value.members - Named(args, |args|);
         view' == PutBack(view, key, Set(after)) && reply == Number(|s.value.members| - |after|)
  }

  /** SREM. */
  method SRem(db: Store, key: Bytes, args: seq<Bytes>, now: int) returns (reply: Reply)
    requires db.Valid()
    modifies db.keyspace, db.expires
    ensures db.Valid() && DidSRem(old(db.View(now)), key, args, db.View(now), reply)
    ensures NoEmpty(old(db.View(now))) ==> NoEmpty(db.View(now))
  {
    hide Database.Valid, Database.View, Live, PutBack, Named;
    ghost var before := db.View(now);
    var v := db.LookupAndExpire(key, now);
    if v.None? {
      MissingStays(before, key, OfSet);
      assert {} - Named(args, |args|) == {};
      return Number(0);
    }
    if !v.value.Set? {
      return WrongType;
    }
    var members, removed := DropMembers(v.value.members, args);
    WriteOrDelete(db, key, Set(members), now);
    reply := Number(removed);
  }

  ghost predicate DidSPop(view: View, key: Bytes, count: Option<int>, view': View, reply: Reply, picked: seq<Bytes>)
  {
    if count.Some? && count.value < 0 then reply == Invalid && view' == view
    else if key !in view then view' == view && reply == if count.Some? then Items([]) else Item(None)
    else if !view[key].value.Set? then reply == WrongType && view' == view
    else
      var s := view[key].value.members;
      && |picked| == (if count.None? then 1 else Fewer(count.value, |s|))
      && DistinctItems(picked) && Named(picked, |picked|) <= s
      && view' == PutBack(view, key, Set(s - Named(picked, |picked|)))
      && reply == if count.None? then Item(Some(picked[0])) else Items(picked)
  }

  /** SPOP: the picks are different members of the set, any of them; there is always one to pick. */
  method SPop(db: Store, key: Bytes, count: Option<int>, now: int) returns (reply: Reply, ghost picked: seq<Bytes>)
    requires db.Valid() && NoEmpty(db.View(now))
    modifies db.keyspace, db.expires
    ensures db.Valid() && DidSPop(old(db.View(now)), key, count, db.View(now), reply, picked)
    ensures NoEmpty(db.View(now))
  {
    hide Database.Valid, Database.View, Live, PutBack, Named, DistinctItems;
    picked := [];
    if count.Some? && count.value < 0 {
      reply := Invalid;
      return;
    }
    var v := db.LookupAndExpire(key, now);
    if v.None? {
      reply := if count.Some? then Items([]) else Item(None);
      return;
    }
    if !v.value.Set? {
      reply := WrongType;
      return;
    }
    var s := v.value.members;
    assert s != {};
    var items, rest := PickMembers(s, if count.None? then 1 else Fewer(count.value, |s|));
    picked := items;
    WriteOrDelete(db, key, Set(rest), now);
    reply := if count.None? then Item(Some(items[0])) else Items(items);
  }

  ghost predicate DidZAdd(view: View, key: Bytes, pairs: Option<seq<ScorePair>>, nx: bool, xx: bool, ch: bool, view': View, reply: Reply)
  {
    var z := Current(view, key, OfSorted);
    if (nx && xx) || pairs == Some([]) then reply == WrongArity && view' == view
    else if pairs.None? then reply == Invalid && view' == view
    else if xx && key !in view then reply == Number(0) && view' == view
    else if z.None? then reply == WrongType && view' == view
    else var after := ZAddAfter(z.value.scores, pairs.value, |pairs.value|, nx, xx);
         && view' == PutBack(view, key, Sorted(after)) && after != map[]
         && reply == Number(if ch then ZAddEffects(z.value.scores, pairs.value, |pairs.value|, nx, xx)
                            else |after| - |z.value.scores|)
  }

  /** ZADD, its scores parsed: a bad one refuses the whole command. XX on a missing key creates nothing. */
  method ZAdd(db: Store, key: Bytes, pairs: Option<seq<ScorePair>>, nx: bool, xx: bool, ch: bool, now: int) returns (reply: Reply)
    requires db.Valid() && NoEmpty(db.View(now))
    modifies db.keyspace, db.expires
    ensures db.Valid() && DidZAdd(old(db.View(now)), key, pairs, nx, xx, ch, db.View(now), reply)
    ensures NoEmpty(db.View(now))
  {
    hide Database.Valid, Database.View, Live, PutBack, ZAddAfter, ZAddEffects;
    if (nx && xx) || pairs == Some([]) {
      return WrongArity;
    }
    if pairs.None? {
      return Invalid;
    }
    ghost var before := db.View(now);
    var existing := db.LookupAndExpire(key, now);
    if existing.None? && xx {
      return Number(0);
    }
    var z := GetOrCreate(db, key, OfSorted, now);
    if z.None? {
      return WrongType;
    }
    assert xx ==> z.value.scores != map[];
    var scores, added, changed := ZAddAll(z.value.scores, pairs.value, nx, xx);
    WriteBack(db, key, Sorted(scores), now, before);
    reply := Number(if ch then added + changed else added);
  }

  ghost predicate DidZIncrBy(view: View, key: Bytes, member: Bytes, delta: Option<Score>, lib: Library, view': View, reply: Reply)
  {
    var z := Current(view, key, OfSorted);
    if delta.None? then reply == Invalid && view' == view
    else if z.None? then reply == WrongType && view' == view
    else
      var m := z.value.scores;
      var sum := Plus(if member in m then m[member] else Fin(0.0), delta.value, lib.round);
      if sum.None? then reply == Invalid && view' == view
      else reply == NewScore(sum.value) && view' == PutBack(view, key, Sorted(m[member := sum.value]))
  }

  /** ZINCRBY: a member that is missing counts as 0, whose sum with any score exists. */
  method ZIncrBy(db: Store, key: Bytes, member: Bytes, delta: Option<Score>, lib: Library, now: int) returns (reply: Reply)
    requires db.Valid()
    modifies db.keyspace, db.expires
    ensures db.Valid() && DidZIncrBy(old(db.View(now)), key, member, delta, lib, db.View(now), reply)
    ensures NoEmpty(old(db.View(now))) ==> NoEmpty(db.View(now))
  {
    hide Database.Valid, Database.View, Live, PutBack;
    if delta.None? {
      return Invalid;
    }
    ghost var before := db.View(now);
    var z := GetOrCreate(db, key, OfSorted, now);
    if z.None? {
      return WrongType;
    }
    var m := z.value.scores;
    var sum := Plus(if member in m then m[member] else Fin(0.0), delta.value, lib.round);
    if sum.None? {
      return Invalid;
    }
    var after := m[member := sum.value];
    assert member in after;
    WriteBack(db, key, Sorted(after), now, before);
    reply := NewScore(sum.value);
  }

  ghost predicate DidZRem(view: View, key: Bytes, args: seq<Bytes>, view': View, reply: Reply)
  {
    var z := Current(view, key, OfSorted);
    if z.None? then reply == WrongType && view' == view
    else var after := z.value.scores - Named(args, |args|);
         view' == PutBack(view, key, Sorted(after)) && reply == Number(|z.value.scores| - |after|)
  }

  /** ZREM. */
  method ZRem(db: Store, key: Bytes, args: seq<Bytes>, now: int) returns (reply: Reply)
    requires db.Valid()
    modifies db.keyspace, db.expires
    ensures db.Valid() && DidZRem(old(db.View(now)), key, args, db.View(now), reply)
    ensures NoEmpty(old(db.View(now))) ==> NoEmpty(db.View(now))
  {
    hide Database.Valid, Database.View, Live, PutBack;
    ghost var before := db.View(now);
    var v := db.LookupAndExpire(key, now);
    if v.None? {
      MissingStays(before, key, OfSorted);
      DropFromNone<Score>(args);
      return Number(0);
    }
    if !v.value.Sorted? {
      return WrongType;
    }
    var scores, removed := DropKeys(v.value.scores, args);
    WriteOrDelete(db, key, Sorted(scores), now);
    reply := Number(removed);
  }

  ghost predicate DidZPopMin(view: View, key: Bytes, count: Option<int>, view': View, reply: Reply, rest: map<Bytes, Score>)
  {
    if count.Some? && count.value < 0 then reply == Invalid && view' == view
    else if key !in view then view' == view && reply == ScoredItems([])
    else if !view[key].value.Sorted? then reply == WrongType && view' == view
    else
      var m := view[key].value.scores;
      && reply.ScoredItems? && |reply.pairs| == Fewer(if count.None? then 1 else count.value, |m|)
      && PoppedTo(m, reply.pairs, rest) && |rest| == |m| - |reply.pairs|
      && view' == PutBack(view, key, Sorted(rest))
  }

  /** ZPOPMIN: the least members, least first. */
  method ZPopMin(db: Store, key: Bytes, count: Option<int>, now: int) returns (reply: Reply, ghost rest: map<Bytes, Score>)
    requires db.Valid() && NoEmpty(db.View(now))
    modifies db.keyspace, db.expires
    ensures db.Valid() && DidZPopMin(old(db.View(now)), key, count, db.View(now), reply, rest)
    ensures NoEmpty(db.View(now))
  {
    hide Database.Valid, Database.View, Live, PutBack, PoppedTo;
    rest := map[];
    if count.Some? && count.value < 0 {
      reply := Invalid;
      return;
    }
    var v := db.LookupAndExpire(key, now);
    if v.None? {
      reply := ScoredItems([]);
      return;
    }
    if !v.value.Sorted? {
      reply := WrongType;
      return;
    }
    var m := v.value.scores;
    var items, left := PopLeast(m, Fewer(if count.None? then 1 else count.value, |m|));
    rest := left;
    WriteOrDelete(db, key, Sorted(left), now);
    reply := ScoredItems(items);
  }

  ghost predicate DidIncrBy(view: View, key: Bytes, delta: int, lib: Library, view': View, reply: Reply)
  {
    if key in view && !view[key].value.Str? then reply == WrongType && view' == view
    else
      var current := if key in view then lib.parse(view[key].value.text) else Some(0);
      if current.None? || !Int64(current.value + delta) then reply == Invalid && view' == view
      else
        && reply == Number(current.value + delta)
        && view' == PutBack(view, key, Str(lib.show(current.value + delta)))
  }

  /** INCR, DECR, INCRBY, DECRBY: an existing string is overwritten in place and keeps its TTL. */
  method IncrBy(db: Store, key: Bytes, delta: int, lib: Library, now: int) returns (reply: Reply)
    requires db.Valid() && Int64(delta) && Sane(lib)
    modifies db.keyspace, db.expires
    ensures db.Valid() && DidIncrBy(old(db.View(now)), key, delta, lib, db.View(now), reply)
    ensures NoEmpty(old(db.View(now))) ==> NoEmpty(db.View(now))
  {
    hide Database.Valid, Database.View, Live, PutBack, NoEmpty;
    var v := db.LookupAndExpire(key, now);
    if v.Some? && !v.value.Str? {
      return WrongType;
    }
    var current := if v.Some? then lib.parse(v.value.text) else Some(0);
    if current.None? || AddWouldOverflow(current.value, delta) {
      return Invalid;
    }
    WriteString(db, key, lib.show(current.value + delta), v.Some?, now);
    reply := Number(current.value + delta);
  }

  ghost predicate DidAppend(view: View, key: Bytes, text: Bytes, view': View, reply: Reply)
  {
    if key in view && !view[key].value.Str? then reply == WrongType && view' == view
    else
      var after := if key in view then view[key].value.text + text else text;
      reply == Number(|after|) && view' == PutBack(view, key, Str(after))
  }

  /** APPEND: in place, keeping the TTL. */
  method Append(db: Store, key: Bytes, text: Bytes, now: int) returns (reply: Reply)
    requires db.Valid()
    modifies db.keyspace, db.expires
    ensures db.Valid() && DidAppend(old(db.View(now)), key, text, db.View(now), reply)
    ensures NoEmpty(old(db.View(now))) ==> NoEmpty(db.View(now))
  {
    hide Database.Valid, Database.View, Live, PutBack, NoEmpty;
    var v := db.LookupAndExpire(key, now);
    if v.Some? && !v.value.Str? {
      return WrongType;
    }
    var after := if v.Some? then v.value.text + text else text;
    WriteString(db, key, after, v.Some?, now);
    reply := Number(|after|);
  }

  /** Through the pointer if the key was found, else as a new key. */
  method WriteString(db: Store, key: Bytes, text: Bytes, found: bool, now: int)
    requires db.Valid() && found == (key in db.View(now))
    modifies db.keyspace, db.expires
    ensures db.Valid() && db.View(now) == PutBack(old(db.View(now)), key, Str(text))
    ensures NoEmpty(old(db.View(now))) ==> NoEmpty(db.View(now))
  {
    if NoEmpty(db.View(now)) {
      PutBackKeeps(db.View(now), key, Str(text));
    }
    hide NoEmpty, Database.Valid, Database.View, Live;
    if found {
      var _ := db.Overwrite(key, Str(text), now);
    } else {
      Runs.Store(db, key, Str(text), now);
    }
  }

  // Any sequence of commands.

  /** Commands that may create an aggregate. */
  datatype Adding =
    | HSetCmd(key: Bytes, args: seq<Bytes>)
    | HIncrByCmd(key: Bytes, field: Bytes, delta: Option<int>)
    | PushCmd(key: Bytes, args: seq<Bytes>, front: bool)
    | SAddCmd(key: Bytes, args: seq<Bytes>)
    | ZAddCmd(key: Bytes, pairs: Option<seq<ScorePair>>, nx: bool, xx: bool, ch: bool)
    | ZIncrByCmd(key: Bytes, member: Bytes, change: Option<Score>)

  /** Commands that may take an aggregate's last element. */
  datatype Removing =
    | HDelCmd(key: Bytes, args: seq<Bytes>)
    | PopCmd(key: Bytes, count: Option<int>, front: bool)
    | SRemCmd(key: Bytes, args: seq<Bytes>)
    | SPopCmd(key: Bytes, count: Option<int>)
    | ZRemCmd(key: Bytes, args: seq<Bytes>)
    | ZPopMinCmd(key: Bytes, count: Option<int>)

  datatype Command =
    | Add(adding: Adding)
    | Remove(removing: Removing)
    | SetString(key: Bytes, text: Bytes)          // SET, which drops the TTL
    | Incr(key: Bytes, delta: int)                // INCR, DECR, INCRBY, DECRBY
    | AppendTo(key: Bytes, text: Bytes)
    | OnKeys(op: Runs.Op<Bytes, Held>)            // lookups, in-place string writes, DEL, UNLINK, TTLs, FLUSHALL, cron

  datatype Timed = Timed(cmd: Command, now: int)

  /** The only value written to a key as such is a string, in place and keeping the TTL as INCR and APPEND do; an integer
      argument is a 64-bit one. */
  predicate WellFormed(c: Command)
  {
    && (c.OnKeys? ==> !c.op.Put? && (c.op.Overwrite? ==> c.op.value.Str?))
    && (c.Incr? ==> Int64(c.delta))
    && (c.Add? && c.adding.HIncrByCmd? && c.adding.delta.Some? ==> Int64(c.adding.delta.value))
  }

  /** One command keeps every aggregate non-empty. */
  method Execute(db: Store, c: Command, lib: Library, now: int)
    requires db.Valid() && NoEmpty(db.View(now)) && WellFormed(c)
    requires Sane(lib)
    modifies db, db.keyspace, db.expires, db.heap
    ensures db.Valid() && NoEmpty(db.View(now))
    ensures db.keyspace == old(db.keyspace) || fresh(db.keyspace)
    ensures db.expires == old(db.expires) || fresh(db.expires)
    ensures db.heap == old(db.heap)
  {
    ghost var view := db.View(now);
    hide Database.Valid, Database.View, Live, NoEmpty, Runs.RefStep, DidIncrBy, DidAppend;
    match c
    case Add(a) => ExecuteAdding(db, a, lib, now);
    case Remove(r) => ExecuteRemoving(db, r, now);
    case SetString(k, text) =>
      KeptBySet(view, k, text);
      Runs.Store(db, k, Str(text), now);
    case Incr(k, d) => var _ := IncrBy(db, k, d, lib, now);
    case AppendTo(k, text) => var _ := Append(db, k, text, now);
    case OnKeys(op) =>
      KeptByOp(view, op, now);
      var _ := Runs.Step(db, Runs.Call(op, now));
  }

  method ExecuteAdding(db: Store, c: Adding, lib: Library, now: int)
    requires db.Valid() && NoEmpty(db.View(now)) && WellFormed(Add(c))
    requires Sane(lib)
    modifies db.keyspace, db.expires
    ensures db.Valid() && NoEmpty(db.View(now))
  {
    hide Database.Valid, Database.View, Live, NoEmpty, DidHSet, DidHIncrBy, DidPush, DidSAdd, DidZAdd, DidZIncrBy;
    match c
    case HSetCmd(k, args) => var _ := HSet(db, k, args, now);
    case HIncrByCmd(k, f, d) => var _ := HIncrBy(db, k, f, d, lib, now);
    case PushCmd(k, args, front) => var _ := Push(db, k, args, front, now);
    case SAddCmd(k, args) => var _ := SAdd(db, k, args, now);
    case ZAddCmd(k, pairs, nx, xx, ch) => var _ := ZAdd(db, k, pairs, nx, xx, ch, now);
    case ZIncrByCmd(k, m, d) => var _ := ZIncrBy(db, k, m, d, lib, now);
  }

  method ExecuteRemoving(db: Store, c: Removing, now: int)
    requires db.Valid() && NoEmpty(db.View(now))
    modifies db.keyspace, db.expires
    ensures db.Valid() && NoEmpty(db.View(now))
  {
    hide Database.Valid, Database.View, Live, NoEmpty, DidHDel, DidPop, DidSRem, DidSPop, DidZRem, DidZPopMin;
    match c
    case HDelCmd(k, args) => var _ := HDel(db, k, args, now);
    case PopCmd(k, n, front) => var _ := Pop(db, k, n, front, now);
    case SRemCmd(k, args) => var _ := SRem(db, k, args, now);
    case SPopCmd(k, n) => var _, _ := SPop(db, k, n, now);
    case ZRemCmd(k, args) => var _ := ZRem(db, k, args, now);
    case ZPopMinCmd(k, n) => var _, _ := ZPopMin(db, k, n, now);
  }

  lemma KeptBySet(view: View, key: Bytes, text: Bytes)
    requires NoEmpty(view)
    ensures NoEmpty(view[key := Cell(Str(text), None)])
  {
  }

  lemma KeptByOp(view: View, op: Runs.Op<Bytes, Held>, now: int)
    requires NoEmpty(view) && !op.Put? && (op.Overwrite? ==> op.value.Str?)
    ensures NoEmpty(Runs.RefStep(view, Runs.Call(op, now)).0)
  {
  }

  /** From any database without empty aggregates, whatever commands are served and whenever keys expire, no key ever
      holds an aggregate without elements. */
  method ServeFrom(db: Store, cmds: seq<Timed>, start: int, lib: Library)
    requires db.Valid() && NoEmpty(db.View(start)) && Served(cmds, start)
    requires Sane(lib)
    modifies db, db.keyspace, db.expires, db.heap
    ensures db.Valid() && forall later :: LastTime(cmds, |cmds|, start) <= later ==> NoEmpty(db.View(later))
  {
    hide Database.Valid, Database.View, Database.Stored, NoEmpty, WellFormed;
    LaterKept(db, start);
    for i := 0 to |cmds|
      invariant db.Valid() && forall later :: LastTime(cmds, i, start) <= later ==> NoEmpty(db.View(later))
      invariant db.keyspace == old(db.keyspace) || fresh(db.keyspace)
      invariant db.expires == old(db.expires) || fresh(db.expires)
      invariant db.heap == old(db.heap)
    {
      Execute(db, cmds[i].cmd, lib, cmds[i].now);
      LaterKept(db, cmds[i].now);
    }
  }

  /** Commands with a clock that does not go back. */
  ghost predicate Served(cmds: seq<Timed>, start: int)
  {
    && (forall i :: 0 <= i < |cmds| ==> WellFormed(cmds[i].cmd) && start <= cmds[i].now)
    && forall i, j :: 0 <= i < j < |cmds| ==> cmds[i].now <= cmds[j].now
  }

  ghost function LastTime(cmds: seq<Timed>, n: nat, start: int): int
    requires n <= |cmds|
  {
    if n == 0 then start else cmds[n - 1].now
  }

  /** In particular from an empty database. */
  method ServeAll(hash: Bytes -> nat, cmds: seq<Timed>, start: int, lib: Library) returns (db: Store)
    requires Served(cmds, start)
    requires Sane(lib)
    ensures db.Valid() && forall later :: LastTime(cmds, |cmds|, start) <= later ==> NoEmpty(db.View(later))
  {
    db := new Database(hash);
    EmptyKept(db);
    hide Database.Valid, Database.View, Database.Stored, NoEmpty, Served;
    ServeFrom(db, cmds, start, lib);
  }

  lemma EmptyKept(db: Store)
    requires db.Stored() == map[]
    ensures forall later :: NoEmpty(db.View(later))
  {
  }

  lemma LaterKept(db: Store, now: int)
    requires NoEmpty(db.View(now))
    ensures forall later :: now <= later ==> NoEmpty(db.View(later))
  {
    forall later | now <= later ensures NoEmpty(db.View(later)) {
      LiveLater(db.Stored(), now, later);
      assert forall k :: k in db.View(later) ==> k in db.View(now) && db.View(later)[k] == db.View(now)[k];
    }
  }
}
