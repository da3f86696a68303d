/** What the hash of src/arpc/highway_hash.cpp keeps apart.  Every step of it can be undone, given
    the bytes it read or the state it started from: so messages of the same length that differ
    within one block of 32 bytes, and keys that differ at all, lead to different states up to the
    last sum that makes the hash of the state. */
module HighwaySeparate {
  import opened Streams
  import opened HighwayHash
  import opened Octets

  // ----- Words -----

  function Less(sum: bv64, x: bv64): bv64 {
    sum - x
  }

  lemma AddLess(a: bv64, x: bv64)
    ensures Less(a + x, x) == a
  {
  }

  lemma PlusLess(a: bv64, x: bv64)
    ensures Less(Plus(a, x), x) == a
  {
    hide Less;
    AddLess(a, x);
  }

  lemma SumCancels(a: Word, b: Word, x: Word)
    requires Sum2(a, x) == Sum2(b, x)
    ensures a == b
  {
    hide Plus, Less;
    PlusLess(a.bits, x.bits);
    PlusLess(b.bits, x.bits);
  }

  lemma SumCommutes(a: Word, x: Word)
    ensures Sum2(a, x) == Sum2(x, a)
  {
  }

  lemma XorBack(a: Word, x: Word)
    ensures Xor(Xor(a, x), x) == a
  {
  }

  lemma XorCancels(a: Word, b: Word, x: Word)
    requires Xor(a, x) == Xor(b, x)
    ensures a == b
  {
    hide Xor;
    XorBack(a, x);
    XorBack(b, x);
  }

  lemma MulCancels(a: Word, b: Word, low: Word, high: Word)
    requires MixMul(a, low, high) == MixMul(b, low, high)
    ensures a == b
  {
    hide Xor, Product;
    XorCancels(a, b, Product(low, high));
  }

  /** The lane that went into a sum, or the word that it was added to. */
  lemma Sum3Cancels(v1: Word, mul0: Word, lane: Word, v1': Word, lane': Word)
    requires Sum3(v1, mul0, lane) == Sum3(v1', mul0, lane')
    ensures v1 == v1' ==> lane == lane'
    ensures lane == lane' ==> v1 == v1'
  {
    hide Sum2;
    if lane == lane' {
      SumCancels(v1, v1', Sum2(mul0, lane));
    }
    if v1 == v1' {
      SumCommutes(v1, Sum2(mul0, lane));
      SumCommutes(v1, Sum2(mul0, lane'));
      SumCancels(Sum2(mul0, lane), Sum2(mul0, lane'), v1);
      SumCommutes(mul0, lane);
      SumCommutes(mul0, lane');
      SumCancels(lane, lane', mul0);
    }
  }

  lemma SwapTwice(a: Word)
    ensures Swapped(Swapped(a)) == a
  {
  }

  lemma RotateBack1(h: bv64, c: bv64)
    requires h <= LOW32 && 1 <= c <= 4
    ensures RotatedHalf(RotatedHalf(h, c), 32 - c) == h
  {
  }

  lemma RotateBack5(h: bv64, c: bv64)
    requires h <= LOW32 && 5 <= c <= 8
    ensures RotatedHalf(RotatedHalf(h, c), 32 - c) == h
  {
  }

  lemma RotateBack9(h: bv64, c: bv64)
    requires h <= LOW32 && 9 <= c <= 12
    ensures RotatedHalf(RotatedHalf(h, c), 32 - c) == h
  {
  }

  lemma RotateBack13(h: bv64, c: bv64)
    requires h <= LOW32 && 13 <= c <= 16
    ensures RotatedHalf(RotatedHalf(h, c), 32 - c) == h
  {
  }

  lemma RotateBack17(h: bv64, c: bv64)
    requires h <= LOW32 && 17 <= c <= 20
    ensures RotatedHalf(RotatedHalf(h, c), 32 - c) == h
  {
  }

  lemma RotateBack21(h: bv64, c: bv64)
    requires h <= LOW32 && 21 <= c <= 24
    ensures RotatedHalf(RotatedHalf(h, c), 32 - c) == h
  {
  }

  lemma RotateBack25(h: bv64, c: bv64)
    requires h <= LOW32 && 25 <= c <= 28
    ensures RotatedHalf(RotatedHalf(h, c), 32 - c) == h
  {
  }

  lemma RotateBack29(h: bv64, c: bv64)
    requires h <= LOW32 && 29 <= c <= 31
    ensures RotatedHalf(RotatedHalf(h, c), 32 - c) == h
  {
  }

  /** Rotating on by as much as is left to 32 brings every bit back. */
  lemma RotateBack(h: bv64, c: bv64)
    requires h <= LOW32 && 1 <= c <= 31
    ensures RotatedHalf(RotatedHalf(h, c), 32 - c) == h
  {
    hide RotatedHalf;
    if c <= 4 {
      RotateBack1(h, c);
    } else if c <= 8 {
      RotateBack5(h, c);
    } else if c <= 12 {
      RotateBack9(h, c);
    } else if c <= 16 {
      RotateBack13(h, c);
    } else if c <= 20 {
      RotateBack17(h, c);
    } else if c <= 24 {
      RotateBack21(h, c);
    } else if c <= 28 {
      RotateBack25(h, c);
    } else {
      RotateBack29(h, c);
    }
  }

  lemma BothApart(lo: bv64, hi: bv64, lo': bv64, hi': bv64)
    requires lo <= LOW32 && hi <= LOW32 && lo' <= LOW32 && hi' <= LOW32 && Both(lo, hi) == Both(lo', hi')
    ensures lo == lo' && hi == hi'
  {
  }

  lemma HalvesOf(x: Word)
    ensures x.bits & LOW32 <= LOW32 && x.bits >> 32 <= LOW32 && Both(x.bits & LOW32, x.bits >> 32) == x
  {
  }

  lemma HalfFits(h: bv64, c: bv64)
    requires 1 <= c <= 31
    ensures RotatedHalf(h, c) <= LOW32
  {
  }

  lemma HalfCancels(h: bv64, k: bv64, c: bv64)
    requires h <= LOW32 && k <= LOW32 && 1 <= c <= 31 && RotatedHalf(h, c) == RotatedHalf(k, c)
    ensures h == k
  {
    hide RotatedHalf;
    RotateBack(h, c);
    RotateBack(k, c);
  }

  lemma BothCancel(lo: bv64, hi: bv64, lo': bv64, hi': bv64, c: bv64)
    requires lo <= LOW32 && hi <= LOW32 && lo' <= LOW32 && hi' <= LOW32 && 1 <= c <= 31
    requires Both(RotatedHalf(lo, c), RotatedHalf(hi, c)) == Both(RotatedHalf(lo', c), RotatedHalf(hi', c))
    ensures lo == lo' && hi == hi'
  {
    hide RotatedHalf, Both;
    HalfFits(lo, c);
    HalfFits(hi, c);
    HalfFits(lo', c);
    HalfFits(hi', c);
    BothApart(RotatedHalf(lo, c), RotatedHalf(hi, c), RotatedHalf(lo', c), RotatedHalf(hi', c));
    HalfCancels(lo, lo', c);
    HalfCancels(hi, hi', c);
  }

  lemma RotatedCancels(a: Word, b: Word, n: nat)
    requires 1 <= n <= 31 && Rotated(a, n) == Rotated(b, n)
    ensures a == b
  {
    hide RotatedHalf, Both;
    HalvesOf(a);
    HalvesOf(b);
    BothCancel(a.bits & LOW32, a.bits >> 32, b.bits & LOW32, b.bits >> 32, n as bv64);
  }

  // ----- Bytes -----

  lemma Narrow(a: bv8, b: bv8)
    requires a as bv64 == b as bv64
    ensures a == b
  {
  }

  lemma SameByte(x: byte, y: byte)
    requires Bits(x) == Bits(y)
    ensures x == y
  {
    hide Octet;
    Narrow(Octet(x), Octet(y));
    OctetExactly(x, y);
  }

  lemma ByteFits(x: byte)
    ensures Bits(x) < 256
  {
    hide Octet;
    Widened(Octet(x));
  }

  lemma Widened(a: bv8)
    ensures a as bv64 < 256
  {
  }

  /** Eight bytes side by side in a word. */
  lemma SidesCancel(a0: bv64, a1: bv64, a2: bv64, a3: bv64, a4: bv64, a5: bv64, a6: bv64, a7: bv64,
                    b0: bv64, b1: bv64, b2: bv64, b3: bv64, b4: bv64, b5: bv64, b6: bv64, b7: bv64)
    requires a0 < 256 && a1 < 256 && a2 < 256 && a3 < 256 && a4 < 256 && a5 < 256 && a6 < 256 && a7 < 256
    requires b0 < 256 && b1 < 256 && b2 < 256 && b3 < 256 && b4 < 256 && b5 < 256 && b6 < 256 && b7 < 256
    requires Side8(a0, a1, a2, a3, a4, a5, a6, a7) == Side8(b0, b1, b2, b3, b4, b5, b6, b7)
    ensures a0 == b0 && a1 == b1 && a2 == b2 && a3 == b3 && a4 == b4 && a5 == b5 && a6 == b6 && a7 == b7
  {
  }

  /** Different bytes are different words. */
  lemma Read64Separates(a: seq<byte>, b: seq<byte>)
    requires |a| == |b| == 8 && Read64(a) == Read64(b)
    ensures a == b
  {
    hide Side8, Bits;
    forall i | 0 <= i < 8 ensures Bits(a[i]) < 256 && Bits(b[i]) < 256 {
      ByteFits(a[i]);
      ByteFits(b[i]);
    }
    SidesCancel(Bits(a[0]), Bits(a[1]), Bits(a[2]), Bits(a[3]), Bits(a[4]), Bits(a[5]), Bits(a[6]), Bits(a[7]),
                Bits(b[0]), Bits(b[1]), Bits(b[2]), Bits(b[3]), Bits(b[4]), Bits(b[5]), Bits(b[6]), Bits(b[7]));
    forall i | 0 <= i < 8 ensures a[i] == b[i] {
      SameByte(a[i], b[i]);
    }
  }

  // ----- One update -----

  lemma ZippedCancels(a: Quad, b: Quad, from: Quad)
    requires Zipped(a, from) == Zipped(b, from)
    ensures a == b
  {
    hide Sum2, Zip0, Zip1;
    SumCancels(a.a, b.a, Zip0(from.b, from.a));
    SumCancels(a.b, b.b, Zip1(from.b, from.a));
    SumCancels(a.c, b.c, Zip0(from.d, from.c));
    SumCancels(a.d, b.d, Zip1(from.d, from.c));
  }

  /** What one lane comes out of. */
  lemma MixLaneCancels(v0: Word, v1: Word, mul0: Word, mul1: Word, lane: Word,
                       w0: Word, w1: Word, nul0: Word, nul1: Word, other: Word)
    requires MixLane(v0, v1, mul0, mul1, lane) == MixLane(w0, w1, nul0, nul1, other)
    ensures v0 == w0 && mul0 == nul0 && mul1 == nul1
    ensures v1 == w1 ==> lane == other
    ensures lane == other ==> v1 == w1
  {
    hide Sum2, Sum3, MixMul;
    var m := MixLane(v0, v1, mul0, mul1, lane);
    MulCancels(mul1, nul1, m.0, m.1);
    SumCancels(v0, w0, mul1);
    MulCancels(mul0, nul0, m.1, v0);
    Sum3Cancels(v1, mul0, lane, w1, other);
  }

  lemma MixedCancels(s: Lanes, q: Quad, t: Lanes, r: Quad)
    requires Mixed(s, q) == Mixed(t, r)
    ensures s.v0 == t.v0 && s.mul0 == t.mul0 && s.mul1 == t.mul1
    ensures s.v1 == t.v1 ==> q == r
    ensures q == r ==> s.v1 == t.v1
  {
    hide MixLane;
    MixLaneCancels(s.v0.a, s.v1.a, s.mul0.a, s.mul1.a, q.a, t.v0.a, t.v1.a, t.mul0.a, t.mul1.a, r.a);
    MixLaneCancels(s.v0.b, s.v1.b, s.mul0.b, s.mul1.b, q.b, t.v0.b, t.v1.b, t.mul0.b, t.mul1.b, r.b);
    MixLaneCancels(s.v0.c, s.v1.c, s.mul0.c, s.mul1.c, q.c, t.v0.c, t.v1.c, t.mul0.c, t.mul1.c, r.c);
    MixLaneCancels(s.v0.d, s.v1.d, s.mul0.d, s.mul1.d, q.d, t.v0.d, t.v1.d, t.mul0.d, t.mul1.d, r.d);
  }

  /** An update can be undone: what comes out of it determines all of the old state but v1, and v1
      together with the lanes: one of them from the other. */
  lemma UpdateSeparates(s: Lanes, q: Quad, t: Lanes, r: Quad)
    requires Update(s, q) == Update(t, r)
    ensures s.v0 == t.v0 && (q == r <==> s == t)
  {
    hide Mixed, Zipped;
    var m, n, u := Mixed(s, q), Mixed(t, r), Update(s, q);
    ZippedCancels(m.v1, n.v1, u.v0);
    ZippedCancels(m.v0, n.v0, m.v1);
    MixedCancels(s, q, t, r);
  }

  // ----- Blocks -----

  lemma PacketWordsSeparate(a: seq<byte>, b: seq<byte>)
    requires |a| == |b| == 32 && PacketWords(a) == PacketWords(b)
    ensures a == b
  {
    hide Read64;
    Read64Separates(a[..8], b[..8]);
    Read64Separates(a[8..16], b[8..16]);
    Read64Separates(a[16..24], b[16..24]);
    Read64Separates(a[24..], b[24..]);
    assert a == a[..8] + a[8..16] + a[16..24] + a[24..] && b == b[..8] + b[8..16] + b[16..24] + b[24..];
  }

  /** Absorbing one packet loses nothing: neither the packet, given the state before, nor the
      state, given the packet. */
  lemma PacketSeparates(s: Lanes, a: seq<byte>, t: Lanes, b: seq<byte>)
    requires |a| == |b| == 32 && UpdatePacket(s, a) == UpdatePacket(t, b)
    ensures s == t <==> a == b
  {
    hide Update, PacketWords;
    UpdateSeparates(s, PacketWords(a), t, PacketWords(b));
    if s == t {
      PacketWordsSeparate(a, b);
    }
  }

  /** Where byte `k` of a tail of length `n` stands in the packet made of it. */
  function Place(n: nat, k: nat): (p: nat)
    requires k < n < 32
    ensures p < 32
  {
    if k < n - n % 4 then k
    else if n >= 16 then 28 + k + 4 - n
    else if k == n - n % 4 then 16
    else if k == n - 1 then 18
    else 17
  }

  lemma PaddedHolds(tail: seq<byte>, k: nat)
    requires 0 < |tail| < 32 && k < |tail|
    ensures Padded(tail)[Place(|tail|, k)] == tail[k]
  {
  }

  /** No byte of the tail is lost. */
  lemma PaddedSeparates(a: seq<byte>, b: seq<byte>)
    requires 0 < |a| == |b| < 32 && Padded(a) == Padded(b)
    ensures a == b
  {
    hide Padded, Place;
    forall k | 0 <= k < |a| ensures a[k] == b[k] {
      PaddedHolds(a, k);
      PaddedHolds(b, k);
    }
  }

  lemma SizedCancels(a: Quad, b: Quad, n: nat)
    requires n < 32 && Sized(a, n) == Sized(b, n)
    ensures a == b
  {
    hide Sum2, SizeWord;
    SumCancels(a.a, b.a, SizeWord(n));
    SumCancels(a.b, b.b, SizeWord(n));
    SumCancels(a.c, b.c, SizeWord(n));
    SumCancels(a.d, b.d, SizeWord(n));
  }

  lemma RotatedQuadCancels(a: Quad, b: Quad, n: nat)
    requires 1 <= n <= 31 && RotatedQuad(a, n) == RotatedQuad(b, n)
    ensures a == b
  {
    hide Rotated;
    RotatedCancels(a.a, b.a, n);
    RotatedCancels(a.b, b.b, n);
    RotatedCancels(a.c, b.c, n);
    RotatedCancels(a.d, b.d, n);
  }

  /** The same of the last bytes of a message. */
  lemma RemainderSeparates(s: Lanes, a: seq<byte>, t: Lanes, b: seq<byte>)
    requires 0 < |a| == |b| < 32 && Remainder(s, a) == Remainder(t, b)
    ensures s == t <==> a == b
  {
    hide UpdatePacket, Padded, Sized, RotatedQuad;
    var n := |a|;
    PacketSeparates(s.(v0 := Sized(s.v0, n), v1 := RotatedQuad(s.v1, n)), Padded(a),
                    t.(v0 := Sized(t.v0, n), v1 := RotatedQuad(t.v1, n)), Padded(b));
    if a == b {
      SizedCancels(s.v0, t.v0, n);
      RotatedQuadCancels(s.v1, t.v1, n);
    }
    if s == t {
      PaddedSeparates(a, b);
    }
  }

  // ----- Whole messages -----

  lemma AbsorbedFirst(s: Lanes, m: seq<byte>)
    requires |m| >= 32
    ensures Absorbed(s, m) == Absorbed(UpdatePacket(s, m[..32]), m[32..])
  {
    hide UpdatePacket, Remainder, Tail;
    TailDrop(m);
  }

  lemma AbsorbedShort(s: Lanes, m: seq<byte>)
    requires |m| < 32
    ensures Absorbed(s, m) == if m == [] then s else Remainder(s, m)
  {
    hide UpdatePacket, Remainder, Tail;
    TailShort(m);
  }

  /** The same message on different states. */
  lemma {:induction false} AbsorbedSeparates(s: Lanes, t: Lanes, m: seq<byte>)
    requires s != t
    ensures Absorbed(s, m) != Absorbed(t, m)
    decreases |m|
  {
    hide Absorbed, UpdatePacket, Remainder;
    if |m| < 32 {
      AbsorbedShort(s, m);
      AbsorbedShort(t, m);
      if m != [] && Remainder(s, m) == Remainder(t, m) {
        RemainderSeparates(s, m, t, m);
      }
    } else {
      AbsorbedFirst(s, m);
      AbsorbedFirst(t, m);
      if UpdatePacket(s, m[..32]) == UpdatePacket(t, m[..32]) {
        PacketSeparates(s, m[..32], t, m[..32]);
      }
      AbsorbedSeparates(UpdatePacket(s, m[..32]), UpdatePacket(t, m[..32]), m[32..]);
    }
  }

  /** Whole packets in front. */
  lemma AbsorbedSplit(s: Lanes, p: seq<byte>, m: seq<byte>)
    requires |p| % 32 == 0
    ensures Absorbed(s, p + m) == Absorbed(Packets(s, p), m)
  {
    hide Packets, Remainder;
    PacketsSplit(s, p, m);
    assert Tail(p) == [] && [] + m == m;
  }

  /** Messages of the same length that differ within one block, and only there: `x` and `y` are that
      block, 32 bytes or the rest of the message, behind `p` and in front of `q`. */
  lemma BlockSeparates(s: Lanes, p: seq<byte>, x: seq<byte>, y: seq<byte>, q: seq<byte>)
    requires |p| % 32 == 0 && x != y && |x| == |y| <= 32 && (|x| < 32 ==> q == [])
    ensures Absorbed(s, p + x + q) != Absorbed(s, p + y + q)
  {
    hide Absorbed, UpdatePacket, Packets, Remainder;
    var t := Packets(s, p);
    assert p + x + q == p + (x + q) && p + y + q == p + (y + q);
    AbsorbedSplit(s, p, x + q);
    AbsorbedSplit(s, p, y + q);
    if |x| == 32 {
      assert (x + q)[..32] == x && (x + q)[32..] == q && (y + q)[..32] == y && (y + q)[32..] == q;
      AbsorbedFirst(t, x + q);
      AbsorbedFirst(t, y + q);
      if UpdatePacket(t, x) == UpdatePacket(t, y) {
        PacketSeparates(t, x, t, y);
      }
      AbsorbedSeparates(UpdatePacket(t, x), UpdatePacket(t, y), q);
    } else {
      assert x + q == x && y + q == y;
      AbsorbedShort(t, x);
      AbsorbedShort(t, y);
      if Remainder(t, x) == Remainder(t, y) {
        RemainderSeparates(t, x, t, y);
      }
    }
  }

  /** The rounds at the end can be undone as well, although the lanes they mix in come from the
      state itself. */
  lemma {:induction false} RoundsSeparate(s: Lanes, t: Lanes, n: nat)
    requires s != t
    ensures Rounds(s, n) != Rounds(t, n)
    decreases n
  {
    hide Update, Permuted;
    if n > 0 {
      if Update(s, Permuted(s.v0)) == Update(t, Permuted(t.v0)) {
        UpdateSeparates(s, Permuted(s.v0), t, Permuted(t.v0));
      }
      RoundsSeparate(Update(s, Permuted(s.v0)), Update(t, Permuted(t.v0)), n - 1);
    }
  }

  /** Under one key, two messages of the same length that differ within one block end in different
      states, after any number of rounds: no byte of a message is ignored. */
  lemma MessagesSeparate(key: Quad, p: seq<byte>, x: seq<byte>, y: seq<byte>, q: seq<byte>, n: nat)
    requires |p| % 32 == 0 && x != y && |x| == |y| <= 32 && (|x| < 32 ==> q == [])
    ensures Rounds(Absorbed(Initial(key), p + x + q), n) != Rounds(Absorbed(Initial(key), p + y + q), n)
  {
    hide Absorbed, Rounds, Initial;
    BlockSeparates(Initial(key), p, x, y, q);
    RoundsSeparate(Absorbed(Initial(key), p + x + q), Absorbed(Initial(key), p + y + q), n);
  }

  lemma InitialSeparates(a: Quad, b: Quad)
    requires Initial(a) == Initial(b)
    ensures a == b
  {
    hide Xor, Swapped;
    var m := MUL0;
    XorOther(m.a, a.a, b.a);
    XorOther(m.b, a.b, b.b);
    XorOther(m.c, a.c, b.c);
    XorOther(m.d, a.d, b.d);
  }

  lemma XorOther(x: Word, a: Word, b: Word)
    requires Xor(x, a) == Xor(x, b)
    ensures a == b
  {
    hide Xor;
    XorCommutes(x, a);
    XorCommutes(x, b);
    XorCancels(a, b, x);
  }

  lemma XorCommutes(a: Word, b: Word)
    ensures Xor(a, b) == Xor(b, a)
  {
  }

  /** Different keys end in different states, for every message. */
  lemma KeysSeparate(a: Quad, b: Quad, message: seq<byte>, n: nat)
    requires a != b
    ensures Rounds(Absorbed(Initial(a), message), n) != Rounds(Absorbed(Initial(b), message), n)
  {
    hide Absorbed, Rounds, Initial;
    if Initial(a) == Initial(b) {
      InitialSeparates(a, b);
    }
    AbsorbedSeparates(Initial(a), Initial(b), message);
    RoundsSeparate(Absorbed(Initial(a), message), Absorbed(Initial(b), message), n);
  }
}
