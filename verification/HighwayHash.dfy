/** The keyed hash of src/arpc/highway_hash.cpp: hashing in chunks gives what hashing at once
    gives.  The mixing steps are here bit for bit; what they keep apart is the subject of
    HighwaySeparate, and of their strength beyond that nothing is claimed. */
module HighwayHash {
  import opened Octets
  import opened Streams

  // ----- Mixing, on 64-bit words -----

  /** A 64-bit word. */
  datatype Word = W(bits: bv64)

  const LOW32: bv64 := 0xffff_ffff

  /** Eight bytes side by side, the lowest first. */
  function Side8(b0: bv64, b1: bv64, b2: bv64, b3: bv64, b4: bv64, b5: bv64, b6: bv64, b7: bv64): Word {
    W(b0 | (b1 << 8) | (b2 << 16) | (b3 << 24) | (b4 << 32) | (b5 << 40) | (b6 << 48) | (b7 << 56))
  }

  function Bits(b: byte): bv64 {
    Octet(b) as bv64
  }

  function Read64(b: seq<byte>): Word
    requires |b| == 8
  {
    Side8(Bits(b[0]), Bits(b[1]), Bits(b[2]), Bits(b[3]), Bits(b[4]), Bits(b[5]), Bits(b[6]), Bits(b[7]))
  }

  function Plus(a: bv64, b: bv64): bv64 {
    a + b
  }

  function Sum2(a: Word, b: Word): Word {
    W(Plus(a.bits, b.bits))
  }

  function Sum3(a: Word, b: Word, c: Word): Word {
    Sum2(a, Sum2(b, c))
  }

  function Sum4(a: Word, b: Word, c: Word, d: Word): Word {
    W(a.bits + b.bits + c.bits + d.bits)
  }

  function Xor(x: Word, y: Word): Word {
    W(x.bits ^ y.bits)
  }

  function Product(low: Word, high: Word): Word {
    W((low.bits & LOW32) * (high.bits >> 32))
  }

  function MixMul(mul: Word, low: Word, high: Word): Word {
    Xor(mul, Product(low, high))
  }

  /** What zipper_merge_and_add adds to add0 and to add1. */
  function Zip0(w1: Word, w0: Word): Word {
    var (v1, v0) := (w1.bits, w0.bits);
    W((((v0 & 0xff000000) | (v1 & 0xff00000000)) >> 24)
      | (((v0 & 0xff0000000000) | (v1 & 0xff000000000000)) >> 16)
      | (v0 & 0xff0000) | ((v0 & 0xff00) << 32) | ((v1 & 0xff00000000000000) >> 8) | (v0 << 56))
  }

  function Zip1(w1: Word, w0: Word): Word {
    var (v1, v0) := (w1.bits, w0.bits);
    W((((v1 & 0xff000000) | (v0 & 0xff00000000)) >> 24)
      | (v1 & 0xff0000) | ((v1 & 0xff0000000000) >> 16) | ((v1 & 0xff00) << 24) | ((v0 & 0xff000000000000) >> 8)
      | ((v1 & 0xff) << 48) | (v0 & 0xff00000000000000))
  }

  function Swapped(v: Word): Word {
    W((v.bits >> 32) | (v.bits << 32))
  }

  /** Half a word, on 32 bits.  A shift by 32 would be undefined, so the count must be between 1
      and 31. */
  function RotatedHalf(half: bv64, count: bv64): bv64
    requires 1 <= count <= 31
  {
    ((half << count) | (half >> (32 - count))) & LOW32
  }

  function Both(low: bv64, high: bv64): Word {
    W(low | (high << 32))
  }

  /** rotate32by on one lane: both halves by `count`. */
  function Rotated(lane: Word, count: nat): Word
    requires 1 <= count <= 31
  {
    Both(RotatedHalf(lane.bits & LOW32, count as bv64), RotatedHalf(lane.bits >> 32, count as bv64))
  }

  function Reduced1(a3: Word, a2: Word, a1: Word): Word {
    var a := a3.bits & 0x3FFF_FFFF_FFFF_FFFF;
    W(a1.bits ^ ((a << 1) | (a2.bits >> 63)) ^ ((a << 2) | (a2.bits >> 62)))
  }

  function Reduced0(a2: Word, a0: Word): Word {
    W(a0.bits ^ (a2.bits << 1) ^ (a2.bits << 2))
  }

  function SizeWord(n: nat): Word
    requires n < 32
  {
    W(((n as bv64) << 32) + (n as bv64))
  }

  // ----- The state -----

  datatype Quad = Quad(a: Word, b: Word, c: Word, d: Word) {
    function At(i: nat): Word
      requires i < 4
    {
      if i == 0 then a else if i == 1 then b else if i == 2 then c else d
    }
  }

  datatype Lanes = Lanes(v0: Quad, v1: Quad, mul0: Quad, mul1: Quad)

  const MUL0 := Quad(W(0xdbe6d5d5fe4cce2f), W(0xa4093822299f31d0), W(0x13198a2e03707344), W(0x243f6a8885a308d3))
  const MUL1 := Quad(W(0x3bd39e10cb0ef593), W(0xc0acf169b5f18a8c), W(0xbe5466cf34e90c6c), W(0x452821e638d01377))

  function Map2(f: (Word, Word) -> Word, x: Quad, y: Quad): Quad {
    Quad(f(x.a, y.a), f(x.b, y.b), f(x.c, y.c), f(x.d, y.d))
  }

  function SwappedQuad(q: Quad): Quad {
    Quad(Swapped(q.a), Swapped(q.b), Swapped(q.c), Swapped(q.d))
  }

  function Initial(key: Quad): Lanes {
    Lanes(Map2(Xor, MUL0, key), Map2(Xor, MUL1, SwappedQuad(key)), MUL0, MUL1)
  }

  /** One lane of update's loop: (v0, v1, mul0, mul1). */
  function MixLane(v0: Word, v1: Word, mul0: Word, mul1: Word, lane: Word): (Word, Word, Word, Word) {
    var v1' := Sum3(v1, mul0, lane);
    var mul0' := MixMul(mul0, v1', v0);
    var v0' := Sum2(v0, mul1);
    (v0', v1', mul0', MixMul(mul1, v0', v1'))
  }

  function MixedAt(s: Lanes, q: Quad, i: nat): (Word, Word, Word, Word)
    requires i < 4
  {
    MixLane(s.v0.At(i), s.v1.At(i), s.mul0.At(i), s.mul1.At(i), q.At(i))
  }

  function Mixed(s: Lanes, q: Quad): Lanes {
    var (m0, m1, m2, m3) := (MixedAt(s, q, 0), MixedAt(s, q, 1), MixedAt(s, q, 2), MixedAt(s, q, 3));
    Lanes(Quad(m0.0, m1.0, m2.0, m3.0), Quad(m0.1, m1.1, m2.1, m3.1),
          Quad(m0.2, m1.2, m2.2, m3.2), Quad(m0.3, m1.3, m2.3, m3.3))
  }

  /** The four zipper merges: those into v0 first, then those into v1 from the new v0. */
  function Zipped(into: Quad, from: Quad): Quad {
    Quad(Sum2(into.a, Zip0(from.b, from.a)), Sum2(into.b, Zip1(from.b, from.a)),
         Sum2(into.c, Zip0(from.d, from.c)), Sum2(into.d, Zip1(from.d, from.c)))
  }

  function Update(s: Lanes, q: Quad): Lanes {
    var m := Mixed(s, q);
    var v0 := Zipped(m.v0, m.v1);
    m.(v0 := v0, v1 := Zipped(m.v1, v0))
  }

  function PacketWords(packet: seq<byte>): Quad
    requires |packet| == 32
  {
    Quad(Read64(packet[..8]), Read64(packet[8..16]), Read64(packet[16..24]), Read64(packet[24..]))
  }

  function UpdatePacket(s: Lanes, packet: seq<byte>): Lanes
    requires |packet| == 32
  {
    Update(s, PacketWords(packet))
  }

  /** All whole packets of a message. */
  function Packets(s: Lanes, message: seq<byte>): Lanes
    decreases |message|
  {
    if |message| < 32 then s else Packets(UpdatePacket(s, message[..32]), message[32..])
  }

  function Tail(message: seq<byte>): (t: seq<byte>)
    ensures |t| == |message| % 32
  {
    message[|message| - |message| % 32..]
  }

  /** Byte `i` of the packet that update_remainder builds from the last `|tail|` bytes. */
  function PaddedAt(tail: seq<byte>, i: nat): byte
    requires 0 < |tail| < 32 && i < 32
  {
    var n := |tail|;
    var mod4 := n % 4;
    if i < n - mod4 then tail[i]
    else if n >= 16 then if i >= 28 then tail[n - 4 + (i - 28)] else 0
    else if mod4 == 0 then 0
    else if i == 16 then tail[n - mod4]
    else if i == 17 then tail[n - mod4 + mod4 / 2]
    else if i == 18 then tail[n - 1]
    else 0
  }

  function Padded(tail: seq<byte>): (packet: seq<byte>)
    requires 0 < |tail| < 32
    ensures |packet| == 32
  {
    seq(32, i requires 0 <= i < 32 => PaddedAt(tail, i))
  }

  function Sized(v0: Quad, n: nat): Quad
    requires n < 32
  {
    Quad(Sum2(v0.a, SizeWord(n)), Sum2(v0.b, SizeWord(n)), Sum2(v0.c, SizeWord(n)), Sum2(v0.d, SizeWord(n)))
  }

  function RotatedQuad(q: Quad, n: nat): Quad
    requires 1 <= n <= 31
  {
    Quad(Rotated(q.a, n), Rotated(q.b, n), Rotated(q.c, n), Rotated(q.d, n))
  }

  function Remainder(s: Lanes, tail: seq<byte>): Lanes
    requires 0 < |tail| < 32
  {
    UpdatePacket(s.(v0 := Sized(s.v0, |tail|), v1 := RotatedQuad(s.v1, |tail|)), Padded(tail))
  }

  /** The state when a whole message has been absorbed. */
  function Absorbed(s: Lanes, message: seq<byte>): Lanes {
    if |message| % 32 == 0 then Packets(s, message) else Remainder(Packets(s, message), Tail(message))
  }

  function Permuted(q: Quad): Quad {
    Quad(Swapped(q.c), Swapped(q.d), Swapped(q.a), Swapped(q.b))
  }

  function Rounds(s: Lanes, n: nat): Lanes
    decreases n
  {
    if n == 0 then s else Rounds(Update(s, Permuted(s.v0)), n - 1)
  }

  datatype Width = Bits64 | Bits128 | Bits256

  function Finalized(s: Lanes, w: Width): seq<Word> {
    match w
    case Bits64 =>
      var f := Rounds(s, 4);
      [Sum4(f.v0.a, f.v1.a, f.mul0.a, f.mul1.a)]
    case Bits128 =>
      var f := Rounds(s, 6);
      [Sum4(f.v0.a, f.mul0.a, f.v1.c, f.mul1.c), Sum4(f.v0.b, f.mul0.b, f.v1.d, f.mul1.d)]
    case Bits256 =>
      var f := Rounds(s, 10);
      var (s0, s1, s2, s3) := (Sum2(f.v0.a, f.mul0.a), Sum2(f.v0.b, f.mul0.b), Sum2(f.v0.c, f.mul0.c), Sum2(f.v0.d, f.mul0.d));
      var (t0, t1, t2, t3) := (Sum2(f.v1.a, f.mul1.a), Sum2(f.v1.b, f.mul1.b), Sum2(f.v1.c, f.mul1.c), Sum2(f.v1.d, f.mul1.d));
      [Reduced0(t0, s0), Reduced1(t1, t0, s1), Reduced0(t2, s2), Reduced1(t3, t2, s3)]
  }

  /** The one-shot hash. */
  function HashOf(key: Quad, message: seq<byte>, w: Width): seq<Word> {
    Finalized(Absorbed(Initial(key), message), w)
  }

  // ----- Streaming -----

  /** The streaming state: lanes, and the bytes buffered in packet_. */
  datatype Stream = Stream(lanes: Lanes, buffer: seq<byte>)

  /** append: top up the buffer first, then whole packets, then buffer what is left. */
  function Append(s: Stream, bytes: seq<byte>): Stream
    requires |s.buffer| < 32
  {
    var fill := if s.buffer == [] then 0 else if |bytes| > 32 - |s.buffer| then 32 - |s.buffer| else |bytes|;
    var topped := s.buffer + bytes[..fill];
    var rest := bytes[fill..];
    if |topped| == 32 then Stream(Packets(UpdatePacket(s.lanes, topped), rest), Tail(rest))
    else Stream(Packets(s.lanes, rest), topped + Tail(rest))
  }

  function AppendAll(s: Stream, chunks: seq<seq<byte>>): Stream
    requires |s.buffer| < 32
    decreases |chunks|
  {
    if chunks == [] then s
    else
      AppendMeans(s, chunks[0]);
      AppendAll(Append(s, chunks[0]), chunks[1..])
  }

  function Concat(chunks: seq<seq<byte>>): seq<byte> {
    if chunks == [] then [] else chunks[0] + Concat(chunks[1..])
  }

  function Finish(s: Stream, w: Width): seq<Word>
    requires |s.buffer| < 32
  {
    Finalized(if s.buffer == [] then s.lanes else Remainder(s.lanes, s.buffer), w)
  }

  lemma TailShort(m: seq<byte>)
    requires |m| < 32
    ensures Tail(m) == m
  {
    assert m[0..] == m;
  }

  lemma {:induction false} TailDrop(m: seq<byte>)
    requires |m| >= 32
    ensures Tail(m) == Tail(m[32..])
  {
  }

  lemma AppendToNothing(s: Stream, bytes: seq<byte>)
    requires s.buffer == []
    ensures Append(s, bytes) == Stream(Packets(s.lanes, bytes), Tail(bytes))
  {
    hide Packets, Tail, UpdatePacket;
    assert bytes[0..] == bytes && [] + bytes[..0] == [];
    assert [] + Tail(bytes) == Tail(bytes);
  }

  lemma AppendShort(s: Stream, bytes: seq<byte>)
    requires s.buffer != [] && |s.buffer + bytes| < 32
    ensures Append(s, bytes) == Stream(s.lanes, s.buffer + bytes)
  {
    hide UpdatePacket, Packets, Tail;
    assert bytes[..|bytes|] == bytes && bytes[|bytes|..] == [];
    NothingLeft(s.lanes);
    assert s.buffer + bytes + [] == s.buffer + bytes;
  }

  lemma NothingLeft(s: Lanes)
    ensures Packets(s, []) == s && Tail([]) == []
  {
    TailShort([]);
  }

  lemma AppendFull(s: Stream, bytes: seq<byte>)
    requires 0 < |s.buffer| < 32 <= |s.buffer + bytes|
    ensures var all := s.buffer + bytes;
      Append(s, bytes) == Stream(Packets(UpdatePacket(s.lanes, all[..32]), all[32..]), Tail(all[32..]))
  {
    hide Packets, Tail, UpdatePacket;
    var all, fill := s.buffer + bytes, 32 - |s.buffer|;
    assert all[..32] == s.buffer + bytes[..fill] && all[32..] == bytes[fill..];
  }

  /** Appending to a buffer amounts to absorbing the buffered and the new bytes together. */
  lemma AppendMeans(s: Stream, bytes: seq<byte>)
    requires |s.buffer| < 32
    ensures Append(s, bytes) == Stream(Packets(s.lanes, s.buffer + bytes), Tail(s.buffer + bytes))
    ensures |Append(s, bytes).buffer| < 32
  {
    hide UpdatePacket, Append;
    var all := s.buffer + bytes;
    if s.buffer == [] {
      assert all == bytes;
      AppendToNothing(s, bytes);
    } else if |all| < 32 {
      AppendShort(s, bytes);
      TailShort(all);
    } else {
      AppendFull(s, bytes);
      TailDrop(all);
    }
  }

  lemma {:induction false} PacketsSplit(s: Lanes, a: seq<byte>, b: seq<byte>)
    ensures Packets(s, a + b) == Packets(Packets(s, a), Tail(a) + b)
    ensures Tail(a + b) == Tail(Tail(a) + b)
    decreases |a|
  {
    hide UpdatePacket;
    if |a| < 32 {
      TailShort(a);
    } else {
      assert (a + b)[..32] == a[..32] && (a + b)[32..] == a[32..] + b;
      PacketsSplit(UpdatePacket(s, a[..32]), a[32..], b);
      TailDrop(a);
      TailDrop(a + b);
    }
  }

  lemma {:induction false} AppendAllMeans(key: Quad, done: seq<byte>, chunks: seq<seq<byte>>)
    ensures AppendAll(Stream(Packets(Initial(key), done), Tail(done)), chunks)
         == Stream(Packets(Initial(key), done + Concat(chunks)), Tail(done + Concat(chunks)))
    decreases |chunks|
  {
    hide Packets, Initial, Append;
    var s := Stream(Packets(Initial(key), done), Tail(done));
    if chunks == [] {
      assert done + [] == done;
    } else {
      AppendMeans(s, chunks[0]);
      PacketsSplit(Initial(key), done, chunks[0]);
      AppendAllMeans(key, done + chunks[0], chunks[1..]);
      assert done + chunks[0] + Concat(chunks[1..]) == done + Concat(chunks);
    }
  }

  /** However a message is cut into chunks, appending them and finishing gives the one-shot hash. */
  lemma ChunksHashAlike(key: Quad, chunks: seq<seq<byte>>, w: Width)
    ensures |AppendAll(Stream(Initial(key), []), chunks).buffer| < 32
    ensures Finish(AppendAll(Stream(Initial(key), []), chunks), w) == HashOf(key, Concat(chunks), w)
  {
    hide Initial, Finalized, Remainder, UpdatePacket;
    TailShort([]);
    AppendAllMeans(key, [], chunks);
    assert [] + Concat(chunks) == Concat(chunks);
  }

  // ----- The hash object -----

  ghost function QuadOf(a: array<Word>): Quad
    reads a
    requires a.Length == 4
  {
    Quad(a[0], a[1], a[2], a[3])
  }

  /** `x` in the first `i` lanes, `y` in the others: how far a loop over the lanes has come. */
  function Part(i: nat, x: Quad, y: Quad): Quad {
    Quad(if i > 0 then x.a else y.a, if i > 1 then x.b else y.b, if i > 2 then x.c else y.c, if i > 3 then x.d else y.d)
  }

  function PartLanes(i: nat, x: Lanes, y: Lanes): Lanes {
    Lanes(Part(i, x.v0, y.v0), Part(i, x.v1, y.v1), Part(i, x.mul0, y.mul0), Part(i, x.mul1, y.mul1))
  }

  class Hasher {
    const v0: array<Word>
    const v1: array<Word>
    const mul0: array<Word>
    const mul1: array<Word>
    const packet: array<byte>
    var bufferedBytes: nat

    ghost predicate Shape() {
      && v0.Length == 4 && v1.Length == 4 && mul0.Length == 4 && mul1.Length == 4 && packet.Length == 32
      && v0 != v1 && v0 != mul0 && v0 != mul1 && v1 != mul0 && v1 != mul1 && mul0 != mul1
    }

    ghost predicate Valid()
      reads this
    {
      Shape() && bufferedBytes < 32
    }

    ghost function State(): Lanes
      reads v0, v1, mul0, mul1
      requires Shape()
    {
      Lanes(QuadOf(v0), QuadOf(v1), QuadOf(mul0), QuadOf(mul1))
    }

    /** The state seen from outside: what has been appended so far. */
    ghost function Streamed(): Stream
      reads this, v0, v1, mul0, mul1, packet
      requires Valid()
    {
      Stream(State(), packet[..bufferedBytes])
    }

    constructor (key: Quad)
      ensures Valid() && Streamed() == Stream(Initial(key), [])
      ensures fresh(v0) && fresh(v1) && fresh(mul0) && fresh(mul1) && fresh(packet)
    {
      v0, v1, mul0, mul1 := new Word[4], new Word[4], new Word[4], new Word[4];
      packet := new byte[32];
      bufferedBytes := 0;
      new;
      Reset(key);
    }

    method Reset(key: Quad)
      requires Shape()
      modifies this, v0, v1, mul0, mul1, packet
      ensures Valid() && Streamed() == Stream(Initial(key), [])
    {
      hide Swapped, Xor;
      bufferedBytes := 0;
      for i := 0 to 32
        invariant bufferedBytes == 0
      {
        packet[i] := 0;
      }
      ghost var s := State();
      for i := 0 to 4
        invariant bufferedBytes == 0 && State() == PartLanes(i, Initial(key), s)
      {
        mul0[i] := MUL0.At(i);
        mul1[i] := MUL1.At(i);
        v0[i] := Xor(mul0[i], key.At(i));
        v1[i] := Xor(mul1[i], Swapped(key.At(i)));
      }
    }

    /** Another object with the same state. */
    method Copy() returns (copy: Hasher)
      requires Valid()
      ensures fresh(copy) && fresh(copy.v0) && fresh(copy.v1) && fresh(copy.mul0) && fresh(copy.mul1) && fresh(copy.packet)
      ensures copy.Valid() && copy.Streamed() == Streamed()
    {
      copy := new Hasher(Quad(W(0), W(0), W(0), W(0)));
      copy.CopyLanes(this);
      copy.CopyPacket(this);
    }

    method CopyLanes(from: Hasher)
      requires Shape() && from.Shape() && {from.v0, from.v1, from.mul0, from.mul1} !! {v0, v1, mul0, mul1}
      modifies v0, v1, mul0, mul1
      ensures State() == from.State()
    {
      ghost var s := State();
      for i := 0 to 4
        invariant State() == PartLanes(i, from.State(), s)
      {
        v0[i] := from.v0[i];
        v1[i] := from.v1[i];
        mul0[i] := from.mul0[i];
        mul1[i] := from.mul1[i];
      }
    }

    method CopyPacket(from: Hasher)
      requires Shape() && from.Valid() && from.packet != packet && from != this
      modifies this`bufferedBytes, packet
      ensures Valid() && bufferedBytes == from.bufferedBytes && packet[..bufferedBytes] == from.packet[..bufferedBytes]
    {
      for i := 0 to 32
        invariant forall k: nat :: k < i ==> packet[k] == from.packet[k]
      {
        packet[i] := from.packet[i];
      }
      bufferedBytes := from.bufferedBytes;
    }

    method UpdateLanes(lanes: Quad)
      requires Shape()
      modifies v0, v1, mul0, mul1
      ensures State() == Update(old(State()), lanes)
    {
      hide Zipped, Mixed;
      MixLanes(lanes);
      ghost var m := State();
      Zip(v1, v0);
      Zip(v0, v1);
    }

    /** The loop of update. */
    method MixLanes(lanes: Quad)
      requires Shape()
      modifies v0, v1, mul0, mul1
      ensures State() == Mixed(old(State()), lanes)
    {
      hide Sum3, Sum2, MixMul;
      ghost var s := State();
      ghost var m := Mixed(s, lanes);
      for i := 0 to 4
        invariant State() == PartLanes(i, m, s)
      {
        v1[i] := Sum3(v1[i], mul0[i], lanes.At(i));
        mul0[i] := MixMul(mul0[i], v1[i], v0[i]);
        v0[i] := Sum2(v0[i], mul1[i]);
        mul1[i] := MixMul(mul1[i], v0[i], v1[i]);
      }
    }

    /** Two merges: the lower pair of lanes, then the upper pair. */
    method Zip(from: array<Word>, into: array<Word>)
      requires from.Length == 4 && into.Length == 4 && from != into
      modifies into
      ensures QuadOf(into) == Zipped(old(QuadOf(into)), QuadOf(from))
    {
      hide Sum2, Zip0, Zip1;
      ZipperMerge(from, into, 0);
      ZipperMerge(from, into, 2);
    }

    /** zipper_merge_and_add(from[i + 1], from[i], into[i + 1], into[i]). */
    method ZipperMerge(from: array<Word>, into: array<Word>, i: nat)
      requires from.Length == 4 && into.Length == 4 && from != into && i < 3
      modifies into
      ensures into[i] == Sum2(old(into[i]), Zip0(from[i + 1], from[i]))
      ensures into[i + 1] == Sum2(old(into[i + 1]), Zip1(from[i + 1], from[i]))
      ensures forall k :: 0 <= k < 4 && k != i && k != i + 1 ==> into[k] == old(into[k])
    {
      hide Sum2, Zip0, Zip1;
      into[i] := Sum2(into[i], Zip0(from[i + 1], from[i]));
      into[i + 1] := Sum2(into[i + 1], Zip1(from[i + 1], from[i]));
    }

    method UpdateFrom(bytes: seq<byte>)
      requires Shape() && |bytes| == 32
      modifies v0, v1, mul0, mul1
      ensures State() == UpdatePacket(old(State()), bytes)
    {
      hide Read64, Update;
      UpdateLanes(Quad(Read64(bytes[..8]), Read64(bytes[8..16]), Read64(bytes[16..24]), Read64(bytes[24..])));
    }

    method AppendBytes(bytes: seq<byte>)
      requires Valid()
      modifies this`bufferedBytes, v0, v1, mul0, mul1, packet
      ensures Valid() && Streamed() == Append(old(Streamed()), bytes)
    {
      hide UpdatePacket, State, Tail, Packets;
      ghost var s := Streamed();
      var start: nat := 0;
      if bufferedBytes != 0 {
        start := if |bytes| > 32 - bufferedBytes then 32 - bufferedBytes else |bytes|;
        FillPacket(bytes[..start]);
        bufferedBytes := bufferedBytes + start;
        if bufferedBytes == 32 {
          assert packet[..] == packet[..32];
          UpdateFrom(packet[..]);
          bufferedBytes := 0;
        }
      } else {
        assert s.buffer + bytes[..0] == packet[..0];
      }
      var rest := bytes[start..];
      UpdateWhole(rest);
      TailIs(rest);
      FillPacket(Tail(rest));
      bufferedBytes := bufferedBytes + |rest| % 32;
      assert [] + Tail(rest) == Tail(rest);
    }

    /** Copies bytes into packet_ behind what is buffered. */
    method FillPacket(bytes: seq<byte>)
      requires Valid() && bufferedBytes + |bytes| <= 32
      modifies packet
      ensures packet[..bufferedBytes + |bytes|] == old(packet[..bufferedBytes]) + bytes
    {
      for i := 0 to |bytes|
        invariant forall k: nat :: k < bufferedBytes ==> packet[k] == old(packet[k])
        invariant forall k: nat :: k < i ==> packet[bufferedBytes + k] == bytes[k]
      {
        packet[bufferedBytes + i] := bytes[i];
      }
    }

    /** The loop over whole packets, of append and process_all. */
    method UpdateWhole(data: seq<byte>)
      requires Shape()
      modifies v0, v1, mul0, mul1
      ensures State() == Packets(old(State()), data)
    {
      hide UpdatePacket, State;
      var i: nat := 0;
      assert data[0..] == data;
      while i + 32 <= |data|
        invariant i <= |data|
        invariant Packets(old(State()), data) == Packets(State(), data[i..])
      {
        assert data[i..][..32] == data[i..i + 32] && data[i..][32..] == data[i + 32..];
        UpdateFrom(data[i..i + 32]);
        i := i + 32;
      }
    }

    method UpdateRemainder(bytes: seq<byte>)
      requires Shape() && 0 < |bytes| < 32
      modifies v0, v1, mul0, mul1, packet
      ensures State() == Remainder(old(State()), bytes)
    {
      hide UpdatePacket, Sized, RotatedQuad, PaddedAt;
      AddSize(|bytes|);
      Rotate32By(|bytes|);
      PadPacket(bytes);
      UpdateFrom(packet[..]);
    }

    method AddSize(size: nat)
      requires Shape() && size < 32
      modifies v0
      ensures QuadOf(v0) == Sized(old(QuadOf(v0)), size)
    {
      hide Sum2, SizeWord;
      ghost var q := QuadOf(v0);
      for i := 0 to 4
        invariant QuadOf(v0) == Part(i, Sized(q, size), q)
      {
        v0[i] := Sum2(v0[i], SizeWord(size));
      }
    }

    method PadPacket(bytes: seq<byte>)
      requires Shape() && 0 < |bytes| < 32
      modifies packet
      ensures packet[..] == Padded(bytes)
    {
      var size := |bytes|;
      var sizeMod4 := size % 4;
      var whole := size - sizeMod4;
      for i := 0 to 32
        invariant forall k: nat :: k < i ==> packet[k] == 0
      {
        packet[i] := 0;
      }
      for i := 0 to whole
        invariant forall k: nat :: k < i ==> packet[k] == bytes[k]
        invariant forall k: nat :: i <= k < 32 ==> packet[k] == 0
      {
        packet[i] := bytes[i];
      }
      if size >= 16 {
        for i := 0 to 4
          invariant forall k: nat :: k < whole ==> packet[k] == bytes[k]
          invariant forall k: nat :: whole <= k < 28 ==> packet[k] == 0
          invariant forall k: nat :: 28 <= k < 28 + i ==> packet[k] == bytes[size - 32 + k]
        {
          packet[28 + i] := bytes[whole + i + sizeMod4 - 4];
        }
      } else if sizeMod4 != 0 {
        packet[16] := bytes[whole];
        packet[17] := bytes[whole + sizeMod4 / 2];
        packet[18] := bytes[whole + sizeMod4 - 1];
      }
    }

    method Rotate32By(count: nat)
      requires Shape() && 1 <= count <= 31
      modifies v1
      ensures QuadOf(v1) == RotatedQuad(old(QuadOf(v1)), count)
    {
      hide Rotated;
      ghost var q := QuadOf(v1);
      for i := 0 to 4
        invariant QuadOf(v1) == Part(i, RotatedQuad(q, count), q)
      {
        v1[i] := Rotated(v1[i], count);
      }
    }

    method PermuteAndUpdate(rounds: nat)
      requires Shape()
      modifies v0, v1, mul0, mul1
      ensures State() == Rounds(old(State()), rounds)
    {
      hide Update, Swapped;
      for i := 0 to rounds
        invariant Rounds(old(State()), rounds) == Rounds(State(), rounds - i)
      {
        UpdateLanes(Quad(Swapped(v0[2]), Swapped(v0[3]), Swapped(v0[0]), Swapped(v0[1])));
      }
    }

    method Finalize(w: Width) returns (hash: seq<Word>)
      requires Shape()
      modifies v0, v1, mul0, mul1
      ensures hash == Finalized(old(State()), w)
      // Four, six or ten rounds, and then sums of the words, for the widest hash reduced in pairs.
      ensures w.Bits64? ==>
        var f := Rounds(old(State()), 4);
        hash == [Sum4(f.v0.a, f.v1.a, f.mul0.a, f.mul1.a)]
      ensures w.Bits128? ==>
        var f := Rounds(old(State()), 6);
        hash == [Sum4(f.v0.a, f.mul0.a, f.v1.c, f.mul1.c), Sum4(f.v0.b, f.mul0.b, f.v1.d, f.mul1.d)]
      ensures w.Bits256? ==>
        var f := Rounds(old(State()), 10);
        hash == [Reduced0(Sum2(f.v1.a, f.mul1.a), Sum2(f.v0.a, f.mul0.a)),
                 Reduced1(Sum2(f.v1.b, f.mul1.b), Sum2(f.v1.a, f.mul1.a), Sum2(f.v0.b, f.mul0.b)),
                 Reduced0(Sum2(f.v1.c, f.mul1.c), Sum2(f.v0.c, f.mul0.c)),
                 Reduced1(Sum2(f.v1.d, f.mul1.d), Sum2(f.v1.c, f.mul1.c), Sum2(f.v0.d, f.mul0.d))]
    {
      hide Rounds, Sum2, Sum4, Reduced0, Reduced1;
      match w
      case Bits64 =>
        PermuteAndUpdate(4);
        hash := [Sum4(v0[0], v1[0], mul0[0], mul1[0])];
      case Bits128 =>
        PermuteAndUpdate(6);
        hash := [Sum4(v0[0], mul0[0], v1[2], mul1[2]), Sum4(v0[1], mul0[1], v1[3], mul1[3])];
      case Bits256 =>
        PermuteAndUpdate(10);
        hash := [Reduced0(Sum2(v1[0], mul1[0]), Sum2(v0[0], mul0[0])),
                 Reduced1(Sum2(v1[1], mul1[1]), Sum2(v1[0], mul1[0]), Sum2(v0[1], mul0[1])),
                 Reduced0(Sum2(v1[2], mul1[2]), Sum2(v0[2], mul0[2])),
                 Reduced1(Sum2(v1[3], mul1[3]), Sum2(v1[2], mul1[2]), Sum2(v0[3], mul0[3]))];
    }

    /** finish64, finish128, finish256: work on a copy, so that more can be appended. */
    method FinishCopy(w: Width) returns (hash: seq<Word>)
      requires Valid()
      ensures hash == Finish(Streamed(), w)
    {
      hide Finalized, Remainder, State, Rounds, Sum2, Sum4, Reduced0, Reduced1;
      var copy := Copy();
      if bufferedBytes != 0 {
        copy.UpdateRemainder(packet[..bufferedBytes]);
      }
      hash := copy.Finalize(w);
    }

    method ProcessAll(data: seq<byte>)
      requires Shape()
      modifies v0, v1, mul0, mul1, packet
      ensures State() == Absorbed(old(State()), data)
    {
      hide Packets, Remainder, State;
      UpdateWhole(data);
      if |data| % 32 != 0 {
        UpdateRemainder(Tail(data));
      }
    }
  }

  lemma TailIs(m: seq<byte>)
    ensures |Tail(m)| == |m| % 32 && Tail(m) == m[|m| - |m| % 32..]
  {
  }

  /** hash64, hash128, hash256. */
  method Hash(data: seq<byte>, key: Quad, w: Width) returns (hash: seq<Word>)
    ensures hash == HashOf(key, data, w)
  {
    hide Absorbed, Initial, Finalized, Rounds, Sum2, Sum4, Reduced0, Reduced1;
    var state := new Hasher(key);
    state.ProcessAll(data);
    hash := state.Finalize(w);
  }
}
