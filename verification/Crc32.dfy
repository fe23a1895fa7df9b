/** CRC-32, reflected polynomial 0xEDB88320 (src/util/crc32.cpp; section 8 of RFC 1952). */
module Crc32s {
  import opened ByteStrings

  const POLY: bv32 := 0xEDB88320
  const ONES: bv32 := 0xFFFFFFFF

  function Xor(a: bv32, b: bv32): bv32 { a ^ b }

  function Word(b: byte): bv32 { b as bv32 }

  /** Dividing out one bit: the definition of the code. */
  function Step(c: bv32): bv32
  {
    if c & 1 == 1 then POLY ^ (c >> 1) else c >> 1
  }

  function Steps(c: bv32, n: nat): bv32
  {
    if n == 0 then c else Step(Steps(c, n - 1))
  }

  /** One byte, bit at a time. */
  function Feed(c: bv32, b: byte): bv32
  {
    Steps(Xor(c, Word(b)), 8)
  }

  function FeedAll(c: bv32, s: Bytes): bv32
    decreases |s|
  {
    if s == [] then c else Feed(FeedAll(c, s[..|s| - 1]), s[|s| - 1])
  }

  /** The reference checksum. */
  function Crc(s: Bytes): bv32
  {
    Xor(FeedAll(ONES, s), ONES)
  }

  /** The part of a step that depends on the bit shifted out. */
  function Mask(c: bv32): bv32 { if c & 1 == 1 then POLY else 0 }

  lemma StepForm(c: bv32)
    ensures Step(c) == Xor(Mask(c), c >> 1)
  {
    if c & 1 == 1 {
      calc {
        Step(c);
        POLY ^ (c >> 1);
        Xor(POLY, c >> 1);
        Xor(Mask(c), c >> 1);
      }
    } else {
      calc {
        Step(c);
        c >> 1;
        { ZeroXor(c >> 1); }
        Xor(0, c >> 1);
        Xor(Mask(c), c >> 1);
      }
    }
  }

  lemma ZeroXor(x: bv32)
    ensures Xor(0, x) == x
  {
  }

  lemma ShiftXorBits(a: bv32, b: bv32)
    ensures (a ^ b) >> 1 == (a >> 1) ^ (b >> 1)
  {
  }

  lemma ShiftXor(a: bv32, b: bv32)
    ensures Xor(a, b) >> 1 == Xor(a >> 1, b >> 1)
  {
    calc {
      Xor(a, b) >> 1;
      (a ^ b) >> 1;
      { ShiftXorBits(a, b); }
      (a >> 1) ^ (b >> 1);
      Xor(a >> 1, b >> 1);
    }
  }

  lemma MaskXor(a: bv32, b: bv32)
    ensures Mask(Xor(a, b)) == Xor(Mask(a), Mask(b))
  {
    LowXor(a, b);
  }

  lemma LowXor(a: bv32, b: bv32)
    ensures (a ^ b) & 1 == (a & 1) ^ (b & 1)
    ensures (a & 1 == 0 || a & 1 == 1) && (b & 1 == 0 || b & 1 == 1)
  {
  }

  lemma XorAssocBits(a: bv32, b: bv32, c: bv32, ab: bv32, bc: bv32)
    requires ab == a ^ b && bc == b ^ c
    ensures ab ^ c == a ^ bc
  {
  }

  lemma XorAssoc(a: bv32, b: bv32, c: bv32)
    ensures Xor(Xor(a, b), c) == Xor(a, Xor(b, c))
  {
    XorAssocBits(a, b, c, Xor(a, b), Xor(b, c));
  }

  lemma XorComm(a: bv32, b: bv32)
    ensures Xor(a, b) == Xor(b, a)
  {
  }

  lemma XorSwap(x: bv32, y: bv32, u: bv32, v: bv32)
    ensures Xor(Xor(x, y), Xor(u, v)) == Xor(Xor(x, u), Xor(y, v))
  {
    hide Xor;
    calc {
      Xor(Xor(x, y), Xor(u, v));
      { XorAssoc(x, y, Xor(u, v)); }
      Xor(x, Xor(y, Xor(u, v)));
      { XorAssoc(y, u, v); XorComm(y, u); XorAssoc(u, y, v); }
      Xor(x, Xor(u, Xor(y, v)));
      { XorAssoc(x, u, Xor(y, v)); }
      Xor(Xor(x, u), Xor(y, v));
    }
  }

  /** The code is linear over bits. */
  lemma StepLinear(a: bv32, b: bv32)
    ensures Step(Xor(a, b)) == Xor(Step(a), Step(b))
  {
    StepForm(a);
    StepForm(b);
    StepForm(Xor(a, b));
    ShiftXor(a, b);
    MaskXor(a, b);
    XorSwap(Mask(a), Mask(b), a >> 1, b >> 1);
    hide Step, Mask, Xor;
  }

  /** No information is lost: the polynomial's top bit tells which branch a step took. */
  lemma StepInjective(a: bv32, b: bv32)
    requires Step(a) == Step(b)
    ensures a == b
  {
  }

  lemma {:induction false} StepsLinear(a: bv32, b: bv32, n: nat)
    ensures Steps(Xor(a, b), n) == Xor(Steps(a, n), Steps(b, n))
  {
    hide Step, Xor;
    if n > 0 {
      StepsLinear(a, b, n - 1);
      StepLinear(Steps(a, n - 1), Steps(b, n - 1));
    }
  }

  lemma {:induction false} StepsInjective(a: bv32, b: bv32, n: nat)
    requires Steps(a, n) == Steps(b, n)
    ensures a == b
  {
    hide Step;
    if n > 0 {
      StepInjective(Steps(a, n - 1), Steps(b, n - 1));
      StepsInjective(a, b, n - 1);
    }
  }

  lemma {:induction false} StepsAdd(c: bv32, m: nat, n: nat)
    ensures Steps(Steps(c, m), n) == Steps(c, m + n)
  {
    hide Step;
    if n > 0 {
      StepsAdd(c, m, n - 1);
    }
  }

  lemma StepDouble(y: bv32)
    requires y & 0x80000000 == 0
    ensures Step(y << 1) == y
  {
  }

  lemma StepsDown(c: bv32, n: nat, d: bv32)
    requires Steps(c, n) == d << 1 && d & 0x80000000 == 0
    ensures Steps(c, n + 1) == d
  {
    StepDouble(d);
    hide Step;
  }

  function Double(y: bv32): bv32 { y << 1 }
  function TopFree(y: bv32): bool { y & 0x80000000 == 0 }

  lemma StepsDouble(c: bv32, n: nat, d: bv32)
    requires Steps(c, n) == Double(d) && TopFree(d)
    ensures Steps(c, n + 1) == d
  {
    StepsDown(c, n, d);
  }

  /** A word whose low byte is zero is only shifted by eight steps. */
  lemma StepsShift(z: bv32)
    requires z & 0xFF000000 == 0
    ensures Steps(z << 8, 8) == z
  {
    var y7 := Double(z);
    var y6 := Double(y7);
    var y5 := Double(y6);
    var y4 := Double(y5);
    var y3 := Double(y4);
    var y2 := Double(y3);
    var y1 := Double(y2);
    var y0 := Double(y1);
    EightDoubles(z, y0, y1, y2, y3, y4, y5, y6, y7);
    hide Step, Double, TopFree;
    assert Steps(y0, 0) == y0;
    StepsDouble(y0, 0, y1);
    StepsDouble(y0, 1, y2);
    StepsDouble(y0, 2, y3);
    StepsDouble(y0, 3, y4);
    StepsDouble(y0, 4, y5);
    StepsDouble(y0, 5, y6);
    StepsDouble(y0, 6, y7);
    StepsDouble(y0, 7, z);
  }

  lemma EightDoubles(z: bv32, y0: bv32, y1: bv32, y2: bv32, y3: bv32, y4: bv32, y5: bv32, y6: bv32, y7: bv32)
    requires z & 0xFF000000 == 0
    requires y7 == Double(z) && y6 == Double(y7) && y5 == Double(y6) && y4 == Double(y5)
    requires y3 == Double(y4) && y2 == Double(y3) && y1 == Double(y2) && y0 == Double(y1)
    ensures y0 == z << 8 && TopFree(y1) && TopFree(y2) && TopFree(y3) && TopFree(y4)
    ensures TopFree(y5) && TopFree(y6) && TopFree(y7) && TopFree(z)
  {
  }

  function Low(x: bv32): bv32 { x & 0xFF }
  function High(x: bv32): bv32 { x >> 8 }
  function Up8(x: bv32): bv32 { x << 8 }

  lemma SplitBits(x: bv32)
    ensures x == (x & 0xFF) ^ ((x >> 8) << 8) && (x >> 8) & 0xFF000000 == 0
  {
  }

  lemma SplitWord(x: bv32)
    ensures x == Xor(Low(x), Up8(High(x))) && High(x) & 0xFF000000 == 0
  {
    SplitBits(x);
  }

  lemma ShiftUp(z: bv32)
    requires z & 0xFF000000 == 0
    ensures Steps(Up8(z), 8) == z
  {
    StepsShift(z);
  }

  /** Eight steps of any word: the table value of its low byte, and the rest shifted down. */
  lemma TableIdentity(x: bv32)
    ensures Steps(x, 8) == Xor(Steps(Low(x), 8), High(x))
  {
    SplitWord(x);
    StepsLinear(Low(x), Up8(High(x)), 8);
    ShiftUp(High(x));
  }

  lemma HighOfFeed(c: bv32, b: byte)
    ensures (c ^ (b as bv32)) >> 8 == c >> 8
  {
  }

  lemma IndexRoundTrip(x: bv32)
    requires x < 256
    ensures 0 <= x as int < 256 && (x as int) as bv32 == x
  {
  }

  lemma LowSmall(x: bv32)
    ensures Low(x) < 256
  {
  }

  /** The lookup table: eight steps of every byte. */
  method CrcTable() returns (t: seq<bv32>)
    ensures IsTable(t)
  {
    hide Steps;
    t := [];
    for i := 0 to 256
      invariant |t| == i && forall j :: 0 <= j < i ==> t[j] == Steps(j as bv32, 8)
    {
      var c := EightSteps(i as bv32);
      t := t + [c];
    }
  }

  method EightSteps(b: bv32) returns (c: bv32)
    ensures c == Steps(b, 8)
  {
    c := b;
    for k := 0 to 8
      invariant c == Steps(b, k)
    {
      c := if c & 1 == 1 then POLY ^ (c >> 1) else c >> 1;
    }
  }

  ghost predicate IsTable(t: seq<bv32>)
  {
    |t| == 256 && forall i :: 0 <= i < 256 ==> t[i] == Steps(i as bv32, 8)
  }

  /** The table-driven update of one byte is the bit-at-a-time one. */
  method Update(t: seq<bv32>, c: bv32, b: byte) returns (r: bv32)
    requires IsTable(t)
    ensures r == Feed(c, b)
  {
    var x := Xor(c, Word(b));
    TableIdentity(x);
    HighXor(c, b);
    LowSmall(x);
    hide Steps, Xor, Low, High, Word, IsTable;
    TableEntry(t, Low(x));
    r := Xor(t[Low(x) as int], High(c));
  }

  lemma HighXor(c: bv32, b: byte)
    ensures High(Xor(c, Word(b))) == High(c)
  {
    calc {
      High(Xor(c, Word(b)));
      (c ^ (b as bv32)) >> 8;
      { HighOfFeed(c, b); }
      c >> 8;
      High(c);
    }
  }

  lemma TableEntry(t: seq<bv32>, x: bv32)
    requires IsTable(t) && x < 256
    ensures 0 <= x as int < |t| && t[x as int] == Steps(x, 8)
  {
    IndexRoundTrip(x);
  }

  /** crc32(): equals the bit-at-a-time checksum on every byte string. */
  method Crc32(data: Bytes) returns (r: bv32)
    ensures r == Crc(data)
  {
    hide Steps, Feed, IsTable;
    var t := CrcTable();
    var c := ONES;
    for i := 0 to |data|
      invariant c == FeedAll(ONES, data[..i])
    {
      c := Update(t, c, data[i]);
      FeedLast(ONES, data, i);
    }
    assert data[..|data|] == data;
    r := Xor(c, ONES);
  }

  lemma FeedLast(c: bv32, s: Bytes, i: nat)
    requires i < |s|
    ensures FeedAll(c, s[..i + 1]) == Feed(FeedAll(c, s[..i]), s[i])
  {
    hide Feed;
    assert s[..i + 1][..i] == s[..i];
  }

  // What a checksum over a whole file detects.

  lemma {:induction false} FeedConcat(c: bv32, a: Bytes, b: Bytes)
    ensures FeedAll(c, a + b) == FeedAll(FeedAll(c, a), b)
    decreases |b|
  {
    hide Feed;
    if b == [] {
      assert a + b == a;
    } else {
      var n := |b| - 1;
      FeedConcat(c, a, b[..n]);
      assert (a + b)[..|a + b| - 1] == a + b[..n];
    }
  }

  lemma XorCancel(a: bv32, b: bv32, c: bv32)
    requires Xor(a, c) == Xor(b, c) || Xor(c, a) == Xor(c, b)
    ensures a == b
  {
  }

  lemma {:induction false} FeedAllInjective(c: bv32, d: bv32, s: Bytes)
    requires FeedAll(c, s) == FeedAll(d, s)
    ensures c == d
    decreases |s|
  {
    hide Xor, Steps;
    if s != [] {
      var n := |s| - 1;
      var x, y := FeedAll(c, s[..n]), FeedAll(d, s[..n]);
      StepsInjective(Xor(x, Word(s[n])), Xor(y, Word(s[n])), 8);
      XorCancel(x, y, Word(s[n]));
      FeedAllInjective(c, d, s[..n]);
    }
  }

  function Up16(x: bv32): bv32 { x << 16 }
  function Up24(x: bv32): bv32 { x << 24 }

  lemma UpSplit(b: byte)
    ensures Up24(Word(b)) == Up8(Up16(Word(b))) && Up16(Word(b)) == Up8(Up8(Word(b)))
    ensures Word(b) & 0xFF000000 == 0 && Up8(Word(b)) & 0xFF000000 == 0 && Up16(Word(b)) & 0xFF000000 == 0
  {
  }

  lemma StepsUp(b: byte)
    ensures Steps(Up8(Word(b)), 8) == Word(b) && Steps(Up16(Word(b)), 16) == Word(b) && Steps(Up24(Word(b)), 24) == Word(b)
  {
    UpSplit(b);
    ShiftUp(Word(b));
    ShiftUp(Up8(Word(b)));
    ShiftUp(Up16(Word(b)));
    hide Step, Up8, Up16, Up24, Word;
    StepsAdd(Up16(Word(b)), 8, 8);
    StepsAdd(Up24(Word(b)), 8, 16);
  }

  /** Four bytes as one little-endian word. */
  function Pack(w: Bytes): bv32
    requires |w| == 4
  {
    Xor(Xor(Xor(Word(w[0]), Up8(Word(w[1]))), Up16(Word(w[2]))), Up24(Word(w[3])))
  }

  /** Feeding a byte after k bytes is feeding it, shifted, before them. */
  lemma FeedDeferred(a: bv32, k: nat, up: bv32, b: byte)
    requires Steps(up, k) == Word(b)
    ensures Feed(Steps(a, k), b) == Steps(Xor(a, up), k + 8)
  {
    hide Step, Xor, Word;
    StepsLinear(a, up, k);
    StepsAdd(Xor(a, up), k, 8);
  }

  /** Feeding four bytes is thirty-two steps of the state xor their word. */
  lemma FeedWord(c: bv32, w: Bytes)
    requires |w| == 4
    ensures FeedAll(c, w) == Steps(Xor(c, Pack(w)), 32)
  {
    var a0 := Xor(c, Word(w[0]));
    var a1 := Xor(a0, Up8(Word(w[1])));
    var a2 := Xor(a1, Up16(Word(w[2])));
    var a3 := Xor(a2, Up24(Word(w[3])));
    FourFeeds(c, w);
    StepsUp(w[1]);
    StepsUp(w[2]);
    StepsUp(w[3]);
    FeedDeferred(a0, 8, Up8(Word(w[1])), w[1]);
    FeedDeferred(a1, 16, Up16(Word(w[2])), w[2]);
    FeedDeferred(a2, 24, Up24(Word(w[3])), w[3]);
    PackXor(c, Word(w[0]), Up8(Word(w[1])), Up16(Word(w[2])), Up24(Word(w[3])));
    hide Step, Steps, Xor, Word, Up8, Up16, Up24;
  }

  lemma PackXor(c: bv32, p: bv32, q: bv32, r: bv32, s: bv32)
    ensures Xor(Xor(Xor(Xor(c, p), q), r), s) == Xor(c, Xor(Xor(Xor(p, q), r), s))
  {
    XorAssoc(c, p, q);
    XorAssoc(c, Xor(p, q), r);
    XorAssoc(c, Xor(Xor(p, q), r), s);
    hide Xor;
  }

  lemma FourFeeds(c: bv32, w: Bytes)
    requires |w| == 4
    ensures FeedAll(c, w) == Feed(Feed(Feed(Feed(c, w[0]), w[1]), w[2]), w[3])
  {
    hide Feed;
    FeedLast(c, w, 0);
    FeedLast(c, w, 1);
    FeedLast(c, w, 2);
    FeedLast(c, w, 3);
    assert w[..0] == [] && w[..4] == w;
  }

  lemma PackBits(a: byte, b: byte, c: byte, d: byte, a': byte, b': byte, c': byte, d': byte)
    requires PackRaw(a, b, c, d) == PackRaw(a', b', c', d')
    ensures a == a' && b == b' && c == c' && d == d'
  {
  }

  function PackRaw(a: byte, b: byte, c: byte, d: byte): bv32
  {
    (((a as bv32) ^ ((b as bv32) << 8)) ^ ((c as bv32) << 16)) ^ ((d as bv32) << 24)
  }

  lemma PackIs(w: Bytes)
    requires |w| == 4
    ensures Pack(w) == PackRaw(w[0], w[1], w[2], w[3])
  {
  }

  lemma PackInjective(w: Bytes, v: Bytes)
    requires |w| == |v| == 4 && Pack(w) == Pack(v)
    ensures w == v
  {
    hide Pack, PackRaw;
    PackIs(w);
    PackIs(v);
    PackBits(w[0], w[1], w[2], w[3], v[0], v[1], v[2], v[3]);
  }

  /** Two byte strings that differ only within four consecutive bytes never reach the same state: a burst of up to 32
      bits always changes the checksum. */
  lemma BurstChanges(c: bv32, d: Bytes, e: Bytes, i: nat)
    requires |d| == |e| && i + 4 <= |d| && d[..i] == e[..i] && d[i + 4..] == e[i + 4..] && d != e
    ensures FeedAll(c, d) != FeedAll(c, e)
  {
    var w, v, rest := d[i..i + 4], e[i..i + 4], d[i + 4..];
    assert d == d[..i] + (w + rest) && e == d[..i] + (v + rest);
    var s := FeedAll(c, d[..i]);
    FeedConcat(c, d[..i], w + rest);
    FeedConcat(c, d[..i], v + rest);
    FeedConcat(s, w, rest);
    FeedConcat(s, v, rest);
    FeedWord(s, w);
    FeedWord(s, v);
    hide Feed, Xor, Steps, Pack;
    if FeedAll(c, d) == FeedAll(c, e) {
      FeedAllInjective(FeedAll(s, w), FeedAll(s, v), rest);
      StepsInjective(Xor(s, Pack(w)), Xor(s, Pack(v)), 32);
      XorCancel(Pack(w), Pack(v), s);
      PackInjective(w, v);
      assert false;
    }
  }

  // The published values of this code.

  lemma Residue1()
    ensures Steps(0xFFFFFFFF, 8) == 0x2DFD1072
  {
    assert Steps(0xFFFFFFFF, 1) == 0x92477CDF && Steps(0xFFFFFFFF, 2) == 0xA49B3D4F && Steps(0xFFFFFFFF, 3) == 0xBFF51D87 && Steps(0xFFFFFFFF, 4) == 0xB2420DE3;
    assert Steps(0xFFFFFFFF, 5) == 0xB49985D1 && Steps(0xFFFFFFFF, 6) == 0xB7F441C8 && Steps(0xFFFFFFFF, 7) == 0x5BFA20E4 && Steps(0xFFFFFFFF, 8) == 0x2DFD1072;
  }

  lemma Residue2()
    ensures Steps(0x2DFD1072, 8) == 0xBE26ED00
  {
    assert Steps(0x2DFD1072, 1) == 0x16FE8839 && Steps(0x2DFD1072, 2) == 0xE6C7C73C && Steps(0x2DFD1072, 3) == 0x7363E39E && Steps(0x2DFD1072, 4) == 0x39B1F1CF;
    assert Steps(0x2DFD1072, 5) == 0xF1607BC7 && Steps(0x2DFD1072, 6) == 0x9508BEC3 && Steps(0x2DFD1072, 7) == 0xA73CDC41 && Steps(0x2DFD1072, 8) == 0xBE26ED00;
  }

  lemma Residue3()
    ensures Steps(0xBE26ED00, 8) == 0x00BE26ED
  {
    assert Steps(0xBE26ED00, 1) == 0x5F137680 && Steps(0xBE26ED00, 2) == 0x2F89BB40 && Steps(0xBE26ED00, 3) == 0x17C4DDA0 && Steps(0xBE26ED00, 4) == 0x0BE26ED0;
    assert Steps(0xBE26ED00, 5) == 0x05F13768 && Steps(0xBE26ED00, 6) == 0x02F89BB4 && Steps(0xBE26ED00, 7) == 0x017C4DDA && Steps(0xBE26ED00, 8) == 0x00BE26ED;
  }

  lemma Residue4()
    ensures Steps(0x00BE26ED, 8) == 0xDEBB20E3
  {
    assert Steps(0x00BE26ED, 1) == 0xEDE79056 && Steps(0x00BE26ED, 2) == 0x76F3C82B && Steps(0x00BE26ED, 3) == 0xD6C16735 && Steps(0x00BE26ED, 4) == 0x86D830BA;
    assert Steps(0x00BE26ED, 5) == 0x436C185D && Steps(0x00BE26ED, 6) == 0xCC0E8F0E && Steps(0x00BE26ED, 7) == 0x66074787 && Steps(0x00BE26ED, 8) == 0xDEBB20E3;
  }

  lemma ResidueValue()
    ensures Steps(ONES, 32) == 0xDEBB20E3
  {
    Residue1();
    Residue2();
    Residue3();
    Residue4();
    StepsAdd(ONES, 8, 8);
    StepsAdd(ONES, 16, 8);
    StepsAdd(ONES, 24, 8);
    hide Step, Steps;
  }

  lemma Check1()
    ensures Feed(0xFFFFFFFF, 0x31) == 0x7C231048
  {
    assert Xor(0xFFFFFFFF, Word(0x31)) == 0xFFFFFFCE;
    assert Steps(0xFFFFFFCE, 1) == 0x7FFFFFE7 && Steps(0xFFFFFFCE, 2) == 0xD2477CD3 && Steps(0xFFFFFFCE, 3) == 0x849B3D49 && Steps(0xFFFFFFCE, 4) == 0xAFF51D84;
    assert Steps(0xFFFFFFCE, 5) == 0x57FA8EC2 && Steps(0xFFFFFFCE, 6) == 0x2BFD4761 && Steps(0xFFFFFFCE, 7) == 0xF8462090 && Steps(0xFFFFFFCE, 8) == 0x7C231048;
  }

  lemma Check2()
    ensures Feed(0x7C231048, 0x32) == 0xB0ACBB32
  {
    assert Xor(0x7C231048, Word(0x32)) == 0x7C23107A;
    assert Steps(0x7C23107A, 1) == 0x3E11883D && Steps(0x7C23107A, 2) == 0xF2B0473E && Steps(0x7C23107A, 3) == 0x7958239F && Steps(0x7C23107A, 4) == 0xD11492EF;
    assert Steps(0x7C23107A, 5) == 0x8532CA57 && Steps(0x7C23107A, 6) == 0xAF21E60B && Steps(0x7C23107A, 7) == 0xBA287025 && Steps(0x7C23107A, 8) == 0xB0ACBB32;
  }

  lemma Check3()
    ensures Feed(0xB0ACBB32, 0x33) == 0x77B79C2D
  {
    assert Xor(0xB0ACBB32, Word(0x33)) == 0xB0ACBB01;
    assert Steps(0xB0ACBB01, 1) == 0xB5EEDEA0 && Steps(0xB0ACBB01, 2) == 0x5AF76F50 && Steps(0xB0ACBB01, 3) == 0x2D7BB7A8 && Steps(0xB0ACBB01, 4) == 0x16BDDBD4;
    assert Steps(0xB0ACBB01, 5) == 0x0B5EEDEA && Steps(0xB0ACBB01, 6) == 0x05AF76F5 && Steps(0xB0ACBB01, 7) == 0xEF6F385A && Steps(0xB0ACBB01, 8) == 0x77B79C2D;
  }

  lemma Check4()
    ensures Feed(0x77B79C2D, 0x34) == 0x641C1F5C
  {
    assert Xor(0x77B79C2D, Word(0x34)) == 0x77B79C19;
    assert Steps(0x77B79C19, 1) == 0xD6634D2C && Steps(0x77B79C19, 2) == 0x6B31A696 && Steps(0x77B79C19, 3) == 0x3598D34B && Steps(0x77B79C19, 4) == 0xF774EA85;
    assert Steps(0x77B79C19, 5) == 0x9602F662 && Steps(0x77B79C19, 6) == 0x4B017B31 && Steps(0x77B79C19, 7) == 0xC8383EB8 && Steps(0x77B79C19, 8) == 0x641C1F5C;
  }

  lemma Check5()
    ensures Feed(0x641C1F5C, 0x35) == 0x340AC5E3
  {
    assert Xor(0x641C1F5C, Word(0x35)) == 0x641C1F69;
    assert Steps(0x641C1F69, 1) == 0xDFB68C94 && Steps(0x641C1F69, 2) == 0x6FDB464A && Steps(0x641C1F69, 3) == 0x37EDA325 && Steps(0x641C1F69, 4) == 0xF64E52B2;
    assert Steps(0x641C1F69, 5) == 0x7B272959 && Steps(0x641C1F69, 6) == 0xD02B178C && Steps(0x641C1F69, 7) == 0x68158BC6 && Steps(0x641C1F69, 8) == 0x340AC5E3;
  }

  lemma Check6()
    ensures Feed(0x340AC5E3, 0x36) == 0xF68D2C9E
  {
    assert Xor(0x340AC5E3, Word(0x36)) == 0x340AC5D5;
    assert Steps(0x340AC5D5, 1) == 0xF7BDE1CA && Steps(0x340AC5D5, 2) == 0x7BDEF0E5 && Steps(0x340AC5D5, 3) == 0xD057FB52 && Steps(0x340AC5D5, 4) == 0x682BFDA9;
    assert Steps(0x340AC5D5, 5) == 0xD9AD7DF4 && Steps(0x340AC5D5, 6) == 0x6CD6BEFA && Steps(0x340AC5D5, 7) == 0x366B5F7D && Steps(0x340AC5D5, 8) == 0xF68D2C9E;
  }

  lemma Check7()
    ensures Feed(0xF68D2C9E, 0x37) == 0xAFFC9660
  {
    assert Xor(0xF68D2C9E, Word(0x37)) == 0xF68D2CA9;
    assert Steps(0xF68D2CA9, 1) == 0x96FE1574 && Steps(0xF68D2CA9, 2) == 0x4B7F0ABA && Steps(0xF68D2CA9, 3) == 0x25BF855D && Steps(0xF68D2CA9, 4) == 0xFF67418E;
    assert Steps(0xF68D2CA9, 5) == 0x7FB3A0C7 && Steps(0xF68D2CA9, 6) == 0xD2615343 && Steps(0xF68D2CA9, 7) == 0x84882A81 && Steps(0xF68D2CA9, 8) == 0xAFFC9660;
  }

  lemma Check8()
    ensures Feed(0xAFFC9660, 0x38) == 0x651F2550
  {
    assert Xor(0xAFFC9660, Word(0x38)) == 0xAFFC9658;
    assert Steps(0xAFFC9658, 1) == 0x57FE4B2C && Steps(0xAFFC9658, 2) == 0x2BFF2596 && Steps(0xAFFC9658, 3) == 0x15FF92CB && Steps(0xAFFC9658, 4) == 0xE7474A45;
    assert Steps(0xAFFC9658, 5) == 0x9E1B2602 && Steps(0xAFFC9658, 6) == 0x4F0D9301 && Steps(0xAFFC9658, 7) == 0xCA3E4AA0 && Steps(0xAFFC9658, 8) == 0x651F2550;
  }

  lemma Check9()
    ensures Feed(0x651F2550, 0x39) == 0x340BC6D9
  {
    assert Xor(0x651F2550, Word(0x39)) == 0x651F2569;
    assert Steps(0x651F2569, 1) == 0xDF371194 && Steps(0x651F2569, 2) == 0x6F9B88CA && Steps(0x651F2569, 3) == 0x37CDC465 && Steps(0x651F2569, 4) == 0xF65E6112;
    assert Steps(0x651F2569, 5) == 0x7B2F3089 && Steps(0x651F2569, 6) == 0xD02F1B64 && Steps(0x651F2569, 7) == 0x68178DB2 && Steps(0x651F2569, 8) == 0x340BC6D9;
  }

  /** The check value of the code: the checksum of the ASCII digits 1 to 9 is 0xCBF43926, that of nothing 0. */
  lemma CheckValue()
    ensures Crc([0x31, 0x32, 0x33, 0x34, 0x35, 0x36, 0x37, 0x38, 0x39]) == 0xCBF43926 && Crc([]) == 0
  {
    DigitsFed();
    hide FeedAll;
    assert Xor(0x340BC6D9, ONES) == 0xCBF43926;
    EmptyCrc();
  }

  lemma EmptyCrc()
    ensures Crc([]) == 0
  {
  }

  lemma DigitsFed()
    ensures FeedAll(ONES, [0x31, 0x32, 0x33, 0x34, 0x35, 0x36, 0x37, 0x38, 0x39]) == 0x340BC6D9
  {
    hide Feed, Xor;
    var s: Bytes := [0x31, 0x32, 0x33, 0x34, 0x35, 0x36, 0x37, 0x38, 0x39];
    assert s[..0] == [] && FeedAll(ONES, []) == ONES;
    hide FeedAll;
    Check1();
    FeedLast(ONES, s, 0);
    Check2();
    FeedLast(ONES, s, 1);
    Check3();
    FeedLast(ONES, s, 2);
    Check4();
    FeedLast(ONES, s, 3);
    Check5();
    FeedLast(ONES, s, 4);
    Check6();
    FeedLast(ONES, s, 5);
    Check7();
    FeedLast(ONES, s, 6);
    Check8();
    FeedLast(ONES, s, 7);
    Check9();
    FeedLast(ONES, s, 8);
    assert s[..9] == s;
  }

  /** A file ends with the checksum of everything before it exactly when feeding the whole file leaves the residue. */
  lemma Residue(body: Bytes, tail: Bytes)
    requires |tail| == 4
    ensures Pack(tail) == Crc(body) <==> FeedAll(ONES, body + tail) == 0xDEBB20E3
  {
    ResidueValue();
    hide Feed, Xor, Steps, Pack;
    var s := FeedAll(ONES, body);
    FeedConcat(ONES, body, tail);
    FeedWord(s, tail);
    XorTwice(s, ONES);
    if Pack(tail) == Xor(s, ONES) {
      assert Xor(s, Pack(tail)) == ONES;
    }
    if FeedAll(ONES, body + tail) == Steps(ONES, 32) {
      StepsInjective(Xor(s, Pack(tail)), ONES, 32);
      XorCancel(Pack(tail), Xor(s, ONES), s);
    }
  }

  lemma XorTwice(a: bv32, b: bv32)
    ensures Xor(a, Xor(a, b)) == b
  {
  }
}
