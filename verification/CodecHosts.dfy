/** Hosts of different byte order (src/arpc/binary_codecs.h): a value that one host saved is read
    by the other as the same value in its own memory layout, scalar by scalar the mirror image of
    the bytes, and so is a whole graph of objects.  Also what the bytes on the stream are. */
module CodecHosts {
  import opened Results
  import opened Streams
  import opened Variant
  import opened Codec
  import opened CodecRoundTrip
  import opened CodecNumbers
  import opened CodecGraph
  import FlatTree

  // ----- Scalars -----

  function Mirrored(b: seq<byte>): (m: seq<byte>)
    ensures |m| == |b| && forall k :: 0 <= k < |b| ==> m[k] == b[|b| - 1 - k]
  {
    seq(|b|, k requires 0 <= k < |b| => b[|b| - 1 - k])
  }

  /** What stands on the stream for a scalar, byte by byte. */
  lemma {:induction false} WireAt(rev: bool, b: seq<byte>, k: nat)
    requires k < |b|
    ensures Wire(rev, b)[k] == if rev then b[|b| - 1 - k] else b[k]
  {
    if rev && k < |b| - 1 {
      WireAt(true, b[1..], k);
    }
  }

  lemma WireIs(rev: bool, b: seq<byte>)
    ensures Wire(rev, b) == if rev then Mirrored(b) else b
  {
    forall k | 0 <= k < |b| ensures Wire(rev, b)[k] == if rev then b[|b| - 1 - k] else b[k] {
      WireAt(rev, b, k);
    }
  }

  /** Between hosts: a scalar of `n` bytes, saved by an encoder and loaded by a decoder, comes out
      byte by byte as it was if both reverse or neither does, and as its mirror image otherwise,
      and nothing of what follows is touched. */
  lemma ScalarBetweenHosts(e: Encoder, d: Decoder, st: EncState, ds: DecState, b: seq<byte>, rest: seq<byte>)
    ensures var r := d.Load(ds, Scalar(|b|), e.Save(st, Scalar(|b|), Bits(b)).1 + rest);
      && r.Ok? && r.value.0 == ds && r.value.2 == rest && r.value.1.Bits? && |r.value.1.bytes| == |b|
      && forall k :: 0 <= k < |b| ==>
           r.value.1.bytes[k] == if e.rev == d.rev then b[k] else b[|b| - 1 - k]
  {
    hide Wire;
    var w := Wire(e.rev, b);
    assert e.Save(st, Scalar(|b|), Bits(b)).1 == w;
    assert (w + rest)[..|b|] == w && (w + rest)[|b|..] == rest;
    WireIs(e.rev, b);
    WireIs(d.rev, w);
  }

  // ----- Values in the memory of the other host -----

  function Mirror(v: Val): Val
    decreases v, 1
  {
    match v
    case Bits(b) => Bits(Mirrored(b))
    case Items(vs) => Items(MirrorAll(vs))
    case Object(c, x) => Object(c, Mirror(x))
    case _ => v
  }

  function MirrorAll(vs: seq<Val>): (r: seq<Val>)
    ensures |r| == |vs| && forall i :: 0 <= i < |vs| ==> r[i] == Mirror(vs[i])
    decreases vs, 0
  {
    seq(|vs|, i requires 0 <= i < |vs| => Mirror(vs[i]))
  }

  function MirrorMemory(heap: seq<Cell>): (r: seq<Cell>)
    ensures |r| == |heap| && forall a :: 0 <= a < |heap| ==> r[a] == Cell(heap[a].tid, Mirror(heap[a].x))
  {
    seq(|heap|, a requires 0 <= a < |heap| => Cell(heap[a].tid, Mirror(heap[a].x)))
  }

  function MirrorState(ds: DecState): DecState {
    DecState(ds.objs, ds.classes, MirrorMemory(ds.heap))
  }

  function MirrorOne(r: Decoded<Val>): Decoded<Val> {
    match r case Ok((ds, v, rest)) => Ok((MirrorState(ds), Mirror(v), rest)) case Err(e) => Err(e)
  }

  function MirrorMany(r: Decoded<seq<Val>>): Decoded<seq<Val>> {
    match r case Ok((ds, vs, rest)) => Ok((MirrorState(ds), MirrorAll(vs), rest)) case Err(e) => Err(e)
  }

  function MirrorClass(r: Decoded<Name>): Decoded<Name> {
    match r case Ok((ds, c, rest)) => Ok((MirrorState(ds), c, rest)) case Err(e) => Err(e)
  }

  /** The same program on hosts of different byte order: the same classes, whose hashes lie in
      memory the other way round, and comparators that see the same numbers. */
  ghost predicate OtherHost(d: Decoder, d': Decoder) {
    && d'.rd == d.rd && d'.rev == !d.rev
    && d'.env.types == d.env.types && d'.env.subclasses == d.env.subclasses && d'.env.hashes.Keys == d.env.hashes.Keys
    && (forall c :: c in d.env.hashes ==> d'.env.hashes[c] == Mirrored(d.env.hashes[c]))
    && (forall o, x, y :: d'.env.orders(o)(Mirror(x), Mirror(y)) == d.env.orders(o)(x, y))
  }

  lemma WireOther(rev: bool, b: seq<byte>)
    ensures Wire(!rev, b) == Mirrored(Wire(rev, b))
  {
    hide Wire;
    WireIs(rev, b);
    WireIs(!rev, b);
    MirroredTwice(b);
  }

  lemma MirroredTwice(b: seq<byte>)
    ensures Mirrored(Mirrored(b)) == b
  {
  }

  lemma MirrorAllCons(v: Val, vs: seq<Val>)
    ensures MirrorAll([v] + vs) == [Mirror(v)] + MirrorAll(vs)
    ensures MirrorAll([]) == []
  {
    hide Mirror;
    var r := MirrorAll([v] + vs);
    forall i | 0 <= i < |r| ensures r[i] == ([Mirror(v)] + MirrorAll(vs))[i] {
      if i > 0 {
        assert ([v] + vs)[i] == vs[i - 1];
      }
    }
  }

  lemma MirrorAllOne(v: Val)
    ensures MirrorAll([v]) == [Mirror(v)] && MirrorAll([]) == []
  {
  }

  // ----- Insertion commutes with mirroring -----

  ghost predicate SameOrder(less: (Val, Val) -> bool, less': (Val, Val) -> bool) {
    forall x, y :: less'(Mirror(x), Mirror(y)) == less(x, y)
  }

  lemma {:induction false} LowerBoundMirrors(less: (Val, Val) -> bool, less': (Val, Val) -> bool, s: seq<Val>, x: Val)
    requires SameOrder(less, less')
    ensures FlatTree.LowerBoundIndex(less', MirrorAll(s), Mirror(x)) == FlatTree.LowerBoundIndex(less, s, x)
    decreases |s|
  {
    hide Mirror;
    if s != [] {
      assert MirrorAll(s)[1..] == MirrorAll(s[1..]);
      LowerBoundMirrors(less, less', s[1..], x);
    }
  }

  lemma InsertMirrors(less: (Val, Val) -> bool, less': (Val, Val) -> bool, s: seq<Val>, x: Val)
    requires SameOrder(less, less')
    ensures FlatTree.InsertUnique(less', MirrorAll(s), Mirror(x)) == MirrorAll(FlatTree.InsertUnique(less, s, x))
  {
    hide Mirror, FlatTree.LowerBoundIndex;
    LowerBoundMirrors(less, less', s, x);
    var i := FlatTree.LowerBoundIndex(less, s, x);
    assert FlatTree.InsertAt(MirrorAll(s), i, Mirror(x)) == MirrorAll(FlatTree.InsertAt(s, i, x));
  }

  lemma {:induction false} InsertAllMirrors(less: (Val, Val) -> bool, less': (Val, Val) -> bool, acc: seq<Val>, vs: seq<Val>)
    requires SameOrder(less, less')
    ensures InsertAll(less', MirrorAll(acc), MirrorAll(vs)) == MirrorAll(InsertAll(less, acc, vs))
    decreases |vs|
  {
    hide Mirror, FlatTree.InsertUnique, SameOrder;
    if vs != [] {
      assert MirrorAll(vs)[1..] == MirrorAll(vs[1..]);
      InsertMirrors(less, less', acc, vs[0]);
      InsertAllMirrors(less, less', FlatTree.InsertUnique(less, acc, vs[0]), vs[1..]);
    }
  }

  // ----- Decoding on the other host -----

  lemma NewClassMirrors(d: Decoder, d': Decoder, ds: DecState, bs: seq<byte>)
    requires OtherHost(d, d')
    ensures match d.LoadNewClass(ds, bs)
      case Ok((ds1, rest)) => d'.LoadNewClass(MirrorState(ds), bs) == Ok((MirrorState(ds1), rest))
      case Err(e) => d'.LoadNewClass(MirrorState(ds), bs) == Err(e)
  {
    hide ReadText, CString, Wire, MirrorMemory;
    var r := ReadText(d.rd, bs);
    if r.Ok? {
      var (text, rest) := r.value;
      var h := Take(rest, 4);
      if h.Ok? {
        var hash, c := h.value.0, CString(text);
        WireOther(d.rev, hash);
        if c in d.env.hashes {
          MirroredTwice(Wire(d.rev, hash));
          MirroredTwice(d.env.hashes[c]);
        }
      }
    }
  }

  lemma ClassMirrors(d: Decoder, d': Decoder, ds: DecState, p: Pointee, bs: seq<byte>)
    requires OtherHost(d, d')
    ensures d'.LoadClass(MirrorState(ds), p, bs) == MirrorClass(d.LoadClass(ds, p, bs))
  {
    hide ReadVariant, Decoder.LoadNewClass, MirrorMemory, OtherHost;
    OtherBasics(d, d');
    if p.Dynamic? {
      ReadVariantShape(d.rd, bs);
      var r := ReadVariant(d.rd, bs);
      if r.Ok? {
        NewClassMirrors(d, d', ds, r.value.1);
      }
    }
  }

  lemma OtherBasics(d: Decoder, d': Decoder)
    requires OtherHost(d, d')
    ensures d'.rd == d.rd && d'.env.types == d.env.types && d'.env.subclasses == d.env.subclasses
    ensures forall o :: SameOrder(d.env.orders(o), d'.env.orders(o))
  {
  }

  lemma CompatibleMirrors(d: Decoder, d': Decoder, heap: seq<Cell>, info: ObjInfo, p: Pointee)
    requires OtherHost(d, d')
    ensures Compatible(d'.env, MirrorMemory(heap), info, p) == Compatible(d.env, heap, info, p)
  {
  }

  lemma BuiltMirrors(p: Pointee, c: Name, v: Val)
    ensures Mirror(Built(p, c, v)) == Built(p, c, Mirror(v))
  {
  }

  lemma PublishMirrors(d: Decoder, d': Decoder, ds: DecState, p: Pointee, c: Name)
    ensures d'.Publish(MirrorState(ds), p, c) == MirrorState(d.Publish(ds, p, c))
  {
    assert NewCell(p, c) == Cell(NewCell(p, c).tid, Mirror(NewCell(p, c).x));
    assert MirrorMemory(ds.heap + [NewCell(p, c)]) == MirrorMemory(ds.heap) + [NewCell(p, c)];
  }

  lemma FillMirrors(d: Decoder, d': Decoder, ds: DecState, ptr: Addr, x: Val)
    ensures d'.Fill(MirrorState(ds), ptr, Mirror(x)) == MirrorState(d.Fill(ds, ptr, x))
  {
    hide Mirror;
    if ptr < |ds.heap| {
      var c := ds.heap[ptr];
      assert MirrorMemory(ds.heap[ptr := c.(x := x)]) == MirrorMemory(ds.heap)[ptr := Cell(c.tid, Mirror(x))];
    }
  }

  /** On any bytes, the other host decodes the mirror image of what this one decodes, or refuses
      them with the same error. */
  lemma {:induction false} LoadMirrors(d: Decoder, d': Decoder, ds: DecState, t: Ty, bs: seq<byte>)
    requires OtherHost(d, d')
    ensures d'.Load(MirrorState(ds), t, bs) == MirrorOne(d.Load(ds, t, bs))
    decreases |bs|, 1, t, 0
  {
    hide ReadVariant, Decoder.LoadElems, Decoder.LoadTuple, Decoder.LoadClass, Wire, Compatible, InsertAll,
      Decoder.Publish, Decoder.Fill, Built, OtherHost, MirrorMemory, Mirrored;
    OtherBasics(d, d');
    match t
    case Scalar(n) => ScalarMirrors(d, d', ds, n, bs);
    case Array(n, e) => ElemsMirror(d, d', ds, Inline(e), n, bs);
    case Sequence(e) => CountedMirrors(d, d', ds, e, 0, bs);
    case Assoc(e, o) => CountedMirrors(d, d', ds, e, o, bs);
    case Tuple(ts) => TupleMirrors(d, d', ds, ts, bs);
    case Optional(e) =>
      var r := Take(bs, 1);
      MirrorAllOne(Hole);
      if r.Ok? {
        LoadMirrors(d, d', ds, e, r.value.1);
        var v := d.Load(ds, e, r.value.1);
        if v.Ok? {
          MirrorAllOne(v.value.1);
        }
      }
    case Unique(p) => UniqueMirrors(d, d', ds, p, bs);
    case Shared(p) => SharedMirrors(d, d', ds, p, bs);
  }

  lemma ScalarMirrors(d: Decoder, d': Decoder, ds: DecState, n: nat, bs: seq<byte>)
    requires OtherHost(d, d')
    ensures d'.Load(MirrorState(ds), Scalar(n), bs) == MirrorOne(d.Load(ds, Scalar(n), bs))
  {
    hide Wire, MirrorMemory;
    if n <= |bs| {
      WireOther(d.rev, bs[..n]);
    }
  }

  lemma {:induction false} CountedMirrors(d: Decoder, d': Decoder, ds: DecState, e: Elem, o: Order, bs: seq<byte>)
    requires OtherHost(d, d')
    ensures d'.Load(MirrorState(ds), Sequence(e), bs) == MirrorOne(d.Load(ds, Sequence(e), bs))
    ensures d'.Load(MirrorState(ds), Assoc(e, o), bs) == MirrorOne(d.Load(ds, Assoc(e, o), bs))
    decreases |bs|, 0, Scalar(0), 0
  {
    hide ReadVariant, Decoder.LoadElems, InsertAll, OtherHost, MirrorMemory, Mirrored, SameOrder;
    OtherBasics(d, d');
    ReadVariantShape(d.rd, bs);
    var r := ReadVariant(d.rd, bs);
    if r.Ok? {
      ElemsMirror(d, d', ds, e, r.value.0, r.value.1);
      var l := d.LoadElems(ds, e, r.value.0, r.value.1);
      if l.Ok? {
        MirrorAllOne(Hole);
        InsertAllMirrors(d.env.orders(o), d'.env.orders(o), [], l.value.1);
      }
    }
  }

  lemma {:induction false} UniqueMirrors(d: Decoder, d': Decoder, ds: DecState, p: Pointee, bs: seq<byte>)
    requires OtherHost(d, d')
    ensures d'.Load(MirrorState(ds), Unique(p), bs) == MirrorOne(d.Load(ds, Unique(p), bs))
    decreases |bs|, 0, Scalar(0), 0
  {
    hide Decoder.LoadClass, Built, OtherHost, MirrorMemory, Mirrored;
    OtherBasics(d, d');
    MirrorAllOne(Hole);
    var r := Take(bs, 1);
    if r.Ok? && r.value.0[0] != 0 {
      ClassMirrors(d, d', ds, p, r.value.1);
      var c := d.LoadClass(ds, p, r.value.1);
      if c.Ok? && c.value.1 in d.env.types {
        LoadMirrors(d, d', c.value.0, d.env.types[c.value.1], c.value.2);
        var v := d.Load(c.value.0, d.env.types[c.value.1], c.value.2);
        if v.Ok? {
          BuiltMirrors(p, c.value.1, v.value.1);
          MirrorAllOne(Built(p, c.value.1, v.value.1));
        }
      }
    }
  }

  lemma {:induction false} SharedMirrors(d: Decoder, d': Decoder, ds: DecState, p: Pointee, bs: seq<byte>)
    requires OtherHost(d, d')
    ensures d'.Load(MirrorState(ds), Shared(p), bs) == MirrorOne(d.Load(ds, Shared(p), bs))
    decreases |bs|, 0, Scalar(0), 1
  {
    hide ReadVariant, Decoder.LoadClass, Compatible, Decoder.Publish, Decoder.Fill, Built, OtherHost, MirrorMemory, Mirrored;
    OtherBasics(d, d');
    ReadVariantShape(d.rd, bs);
    var r := ReadVariant(d.rd, bs);
    if r.Ok? {
      var (id, rest) := r.value;
      if 0 < id < |ds.objs| {
        CompatibleMirrors(d, d', ds.heap, ds.objs[id], p);
      } else if id == |ds.objs| {
        ClassMirrors(d, d', ds, p, rest);
        var c := d.LoadClass(ds, p, rest);
        if c.Ok? && c.value.1 in d.env.types {
          CreatedMirrors(d, d', c.value.0, p, c.value.1, c.value.2, bs);
        }
      }
    }
  }

  /** The object that a shared pointer creates. */
  lemma {:induction false} CreatedMirrors(d: Decoder, d': Decoder, ds1: DecState, p: Pointee, c: Name, bs: seq<byte>, whole: seq<byte>)
    requires OtherHost(d, d') && c in d.env.types && c in d'.env.types && |bs| < |whole|
    ensures var ptr := |ds1.heap|;
      var l, l' := d.Load(d.Publish(ds1, p, c), d.env.types[c], bs),
                   d'.Load(d'.Publish(MirrorState(ds1), p, c), d'.env.types[c], bs);
      && |MirrorState(ds1).heap| == ptr && l' == MirrorOne(l)
      && (l.Ok? ==> d'.Fill(l'.value.0, ptr, Built(p, c, l'.value.1)) == MirrorState(d.Fill(l.value.0, ptr, Built(p, c, l.value.1))))
    decreases |whole|, 0, Scalar(0), 0
  {
    hide Decoder.Publish, Decoder.Fill, Built, OtherHost, Mirrored, Decoder.Load;
    OtherBasics(d, d');
    PublishMirrors(d, d', ds1, p, c);
    LoadMirrors(d, d', d.Publish(ds1, p, c), d.env.types[c], bs);
    var l := d.Load(d.Publish(ds1, p, c), d.env.types[c], bs);
    if l.Ok? {
      BuiltMirrors(p, c, l.value.1);
      FillMirrors(d, d', l.value.0, |ds1.heap|, Built(p, c, l.value.1));
    }
  }

  lemma {:induction false} ElemsMirror(d: Decoder, d': Decoder, ds: DecState, e: Elem, n: nat, bs: seq<byte>)
    requires OtherHost(d, d')
    ensures d'.LoadElems(MirrorState(ds), e, n, bs) == MirrorMany(d.LoadElems(ds, e, n, bs))
    decreases |bs|, if e.Named? then 2 else 1, if e.Named? then Scalar(0) else e.t, n + 1
  {
    hide Decoder.Load, OtherHost, MirrorMemory, Mirror;
    OtherBasics(d, d');
    MirrorAllOne(Hole);
    if n > 0 && (e.Named? ==> e.c in d.env.types) {
      var t := ElemType(d.env, e);
      LoadMirrors(d, d', ds, t, bs);
      var r := d.Load(ds, t, bs);
      if r.Ok? {
        ElemsMirror(d, d', r.value.0, e, n - 1, r.value.2);
        var l := d.LoadElems(r.value.0, e, n - 1, r.value.2);
        if l.Ok? {
          MirrorAllCons(r.value.1, l.value.1);
        }
      }
    }
  }

  lemma {:induction false} TupleMirrors(d: Decoder, d': Decoder, ds: DecState, ts: seq<Ty>, bs: seq<byte>)
    requires OtherHost(d, d')
    ensures d'.LoadTuple(MirrorState(ds), ts, bs) == MirrorMany(d.LoadTuple(ds, ts, bs))
    decreases |bs|, 1, ts, 0
  {
    hide Decoder.Load, OtherHost, MirrorMemory, Mirror;
    MirrorAllOne(Hole);
    if ts != [] {
      LoadMirrors(d, d', ds, ts[0], bs);
      var r := d.Load(ds, ts[0], bs);
      if r.Ok? {
        TupleMirrors(d, d', r.value.0, ts[1..], r.value.2);
        var l := d.LoadTuple(r.value.0, ts[1..], r.value.2);
        if l.Ok? {
          MirrorAllCons(r.value.1, l.value.1);
        }
      }
    }
  }

  /** A graph between hosts: what an encoder on one host wrote, a decoder on a host of the other
      byte order rebuilds as an isomorphic graph, with the same sharing, in which every scalar
      is the mirror image of the bytes it was. */
  lemma GraphBetweenHosts(e: Encoder, d': Decoder, part: Heap, ts: seq<Ty>, vs: seq<Val>, memory: seq<Cell>, tail: seq<byte>)
    returns (phi: Renaming, ds: DecState)
    requires SubHeap(part, e.h) && Setting(On(e, part)) && OtherHost(DecoderFor(e, d'.rd), d')
    requires |ts| == |vs| && TypedTuple(e.env, KindsOf(part), ts, vs)
    requires ClearTuple(On(e, part), d'.rd, NewEncoder, ts, vs)
    ensures var bs := e.SaveTuple(NewEncoder, ts, vs).1;
      d'.LoadTuple(NewDecoder(MirrorMemory(memory)), ts, bs + tail)
        == Ok((MirrorState(ds), MirrorAll(RenameAll(phi, vs)), tail))
    ensures IsomorphicCopy(e.h, phi, memory, ds.heap) && ClosedUnder(e.h, vs, phi.Keys)
  {
    hide Setting, Encoder.SaveTuple, Decoder.LoadTuple, ClearTuple, TypedTuple, SubHeap, KindsOf, IsomorphicCopy, ClosedUnder,
      OtherHost, Mirror;
    phi, ds := GraphRoundTrip(e, d'.rd, part, ts, vs, memory, tail);
    var d := DecoderFor(e, d'.rd);
    TupleMirrors(d, d', NewDecoder(memory), ts, e.SaveTuple(NewEncoder, ts, vs).1 + tail);
  }
}
