/** Values shared by every component. */
module Options {
  datatype Option<+T> = None | Some(value: T)
}

/** Binary strings: keys, members and file contents. */
module ByteStrings {
  type byte = bv8
  type Bytes = seq<byte>
}

/** What a key can hold; S is whatever a sorted set's scores are taken to be. */
module Values {
  import opened ByteStrings

  datatype Value<S> =
    | Str(text: Bytes)
    | Hash(fields: map<Bytes, Bytes>)
    | List(elements: seq<Bytes>)
    | Set(members: set<Bytes>)
    | Sorted(scores: map<Bytes, S>)
}

/** 64-bit signed integers. */
module Ints {
  const INT64_MAX: int := 0x7fff_ffff_ffff_ffff
  const INT64_MIN: int := -0x8000_0000_0000_0000

  predicate Int64(x: int) { INT64_MIN <= x <= INT64_MAX }

  lemma MulMonotone(a: nat, b: nat, n: nat)
    requires a <= b
    ensures a * n <= b * n
  {
  }
}

/** What stands where in a sequence, and counting with multisets. */
module Spans {
  /** b is what d holds at off. */
  ghost predicate HasAt<T>(d: seq<T>, off: nat, b: seq<T>)
  {
    off + |b| <= |d| && forall i :: 0 <= i < |b| ==> d[off + i] == b[i]
  }

  lemma HasAtConcat<T>(d: seq<T>, off: nat, a: seq<T>, b: seq<T>)
    ensures HasAt(d, off, a + b) <==> HasAt(d, off, a) && HasAt(d, off + |a|, b)
  {
    if HasAt(d, off, a) && HasAt(d, off + |a|, b) {
      forall i | 0 <= i < |a + b| ensures d[off + i] == (a + b)[i] {
        if i >= |a| {
          assert d[off + |a| + (i - |a|)] == b[i - |a|];
        }
      }
    }
    if HasAt(d, off, a + b) {
      forall i | 0 <= i < |b| ensures d[off + |a| + i] == b[i] {
        assert d[off + (|a| + i)] == (a + b)[|a| + i];
      }
      forall i | 0 <= i < |a| ensures d[off + i] == a[i] {
        assert (a + b)[i] == a[i];
      }
    }
  }

  lemma SliceIs<T>(d: seq<T>, off: nat, s: seq<T>)
    requires off + |s| <= |d|
    ensures d[off..off + |s|] == s <==> HasAt(d, off, s)
  {
    if HasAt(d, off, s) {
      assert d[off..off + |s|] == s;
    }
    if d[off..off + |s|] == s {
      forall i | 0 <= i < |s| ensures d[off + i] == s[i] {
        assert d[off + i] == d[off..off + |s|][i];
      }
    }
  }

  lemma EmptyAt<T>(d: seq<T>, off: nat)
    requires off <= |d|
    ensures HasAt(d, off, [])
  {
  }

  lemma HasAtBound<T>(d: seq<T>, off: nat, b: seq<T>)
    requires HasAt(d, off, b)
    ensures off + |b| <= |d|
  {
  }

  lemma OneAt<T>(d: seq<T>, off: nat, b: T)
    ensures HasAt(d, off, [b]) <==> off < |d| && d[off] == b
  {
    if HasAt(d, off, [b]) {
      assert d[off + 0] == [b][0];
    }
  }

  lemma Cancel<T>(x: multiset<T>, y: multiset<T>, z: multiset<T>)
    requires x + z == y + z
    ensures x == y
  {
    assert x == (x + z) - z;
    assert y == (y + z) - z;
  }
}

/** Maps: how updates change their size, and removing a list of keys one after the other. */
module Maps {
  lemma InsertGrows<K, V>(m: map<K, V>, k: K, v: V)
    requires k !in m
    ensures |m[k := v]| == |m| + 1
  {
    assert m[k := v].Keys == m.Keys + {k};
  }

  lemma UpdateSize<K, V>(m: map<K, V>, k: K, v: V)
    requires k in m
    ensures |m[k := v]| == |m|
  {
    assert m[k := v].Keys == m.Keys;
  }

  lemma RemoveShrinks<K, V>(m: map<K, V>, k: K)
    requires k in m
    ensures |m - {k}| == |m| - 1
  {
    assert (m - {k}).Keys == m.Keys - {k};
  }

  lemma DropSize<K, V>(r: map<K, V>, k: K)
    ensures |r - {k}| == |r| - if k in r then 1 else 0
  {
    if k in r {
      RemoveShrinks(r, k);
    } else {
      assert r - {k} == r;
    }
  }

  /** Moving one key from what is left out to what is in. */
  lemma Retake<K, V>(m: map<K, V>, rest: set<K>, k: K)
    requires k in rest && k in m
    ensures (m - rest)[k := m[k]] == m - (rest - {k}) && k !in m - rest
  {
  }

  lemma DropBoth<K, V>(m: map<K, V>, a: set<K>, b: set<K>)
    ensures m - (a + b) == (m - a) - b
  {
  }

  /** The keys among the first n arguments. */
  ghost function Named<K(!new)>(args: seq<K>, n: nat): set<K>
    requires n <= |args|
  {
    set i | 0 <= i < n :: args[i]
  }

  lemma NamedNext<K(!new)>(args: seq<K>, n: nat)
    requires n < |args|
    ensures Named(args, n + 1) == Named(args, n) + {args[n]}
  {
  }

  lemma DropNone<K(!new), V>(m: map<K, V>, args: seq<K>)
    ensures m - Named(args, 0) == m
  {
  }

  lemma DropNext<K(!new), V>(m: map<K, V>, args: seq<K>, i: nat)
    requires i < |args|
    ensures var r := m - Named(args, i);
            && m - Named(args, i + 1) == r - {args[i]}
            && |r - {args[i]}| == |r| - if args[i] in r then 1 else 0
  {
    hide Named;
    NamedNext(args, i);
    DropBoth(m, Named(args, i), {args[i]});
    DropSize(m - Named(args, i), args[i]);
  }
}
