/** What the decoder does with any input: cutting the input short changes nothing but the point
    where it runs out, and whatever it accepts is a well-typed object graph. */
module CodecInput {
  import opened Results
  import opened Streams
  import opened Variant
  import opened Codec
  import opened CodecRoundTrip
  import opened CodecGraph
  import FlatTree

  // ----- Truncated input -----

  function Short(bs: seq<byte>, drop: nat): seq<byte> {
    if drop <= |bs| then bs[..|bs| - drop] else []
  }

  /** What reading makes of an input whose last `drop` bytes are missing, compared with the full
      input: the same, unless it would have read into the missing part; then Eof. */
  ghost predicate CutReads<T>(drop: nat, full: Result<(T, seq<byte>)>, cut: Result<(T, seq<byte>)>) {
    match full
    case Ok((x, rest)) => cut == if drop <= |rest| then Ok((x, Short(rest, drop))) else Err(Eof)
    case Err(_) => cut == full || cut == Err(Eof)
  }

  ghost predicate CutLoads<T>(drop: nat, full: Decoded<T>, cut: Decoded<T>) {
    match full
    case Ok((ds, x, rest)) => cut == if drop <= |rest| then Ok((ds, x, Short(rest, drop))) else Err(Eof)
    case Err(_) => cut == full || cut == Err(Eof)
  }

  lemma {:induction false} FoldCut(rd: Reader, bs: seq<byte>, acc: nat, w: nat, drop: nat)
    requires drop <= |bs|
    ensures CutReads(drop, Fold(rd, bs, acc, w), Fold(rd, Short(bs, drop), acc, w))
    decreases bs
  {
    hide Step, Wrap;
    if drop < |bs| {
      assert Short(bs, drop)[1..] == Short(bs[1..], drop);
      if bs[0] >= 128 {
        FoldCut(rd, bs[1..], Step(rd, acc, w, bs[0]), Wrap(w * 128), drop);
      }
    } else {
      FoldShape(rd, bs, acc, w);
    }
  }

  lemma ReadVariantCut(rd: Reader, bs: seq<byte>, drop: nat)
    requires drop <= |bs|
    ensures CutReads(drop, ReadVariant(rd, bs), ReadVariant(rd, Short(bs, drop)))
    ensures var r := ReadVariant(rd, bs); r.Ok? ==> |r.value.1| < |bs|
  {
    FoldCut(rd, bs, 0, 1, drop);
    ReadVariantShape(rd, bs);
  }

  lemma TakeCut(bs: seq<byte>, n: nat, drop: nat)
    requires drop <= |bs|
    ensures CutReads(drop, Take(bs, n), Take(Short(bs, drop), n))
  {
    if n <= |bs| - drop {
      assert Short(bs, drop)[..n] == bs[..n];
      assert Short(bs, drop)[n..] == Short(bs[n..], drop);
    }
  }

  lemma ReadTextCut(rd: Reader, bs: seq<byte>, drop: nat)
    requires drop <= |bs|
    ensures CutReads(drop, ReadText(rd, bs), ReadText(rd, Short(bs, drop)))
  {
    hide ReadVariant;
    ReadVariantCut(rd, bs, drop);
    var r := ReadVariant(rd, bs);
    if r.Ok? && drop <= |r.value.1| {
      TakeCut(r.value.1, r.value.0, drop);
    }
  }

  lemma NewClassCut(d: Decoder, ds: DecState, bs: seq<byte>, drop: nat)
    requires drop <= |bs|
    ensures CutReads(drop, d.LoadNewClass(ds, bs), d.LoadNewClass(ds, Short(bs, drop)))
  {
    hide ReadText, Take, Wire;
    ReadTextCut(d.rd, bs, drop);
    var r := ReadText(d.rd, bs);
    if r.Ok? {
      TextShorter(d.rd, bs);
      if drop <= |r.value.1| {
        TakeCut(r.value.1, 4, drop);
      }
      TakeShorter(r.value.1, 4);
    }
  }

  lemma TakeShorter(bs: seq<byte>, n: nat)
    ensures var r := Take(bs, n); r.Ok? ==> |r.value.0| == n && |r.value.1| == |bs| - n
  {
  }

  lemma TextShorter(rd: Reader, bs: seq<byte>)
    ensures var r := ReadText(rd, bs); r.Ok? ==> |r.value.1| <= |bs|
  {
    hide ReadVariant;
    ReadVariantShape(rd, bs);
  }

  lemma ClassCut(d: Decoder, ds: DecState, p: Pointee, bs: seq<byte>, drop: nat)
    requires drop <= |bs|
    ensures CutLoads(drop, d.LoadClass(ds, p, bs), d.LoadClass(ds, p, Short(bs, drop)))
  {
    hide ReadVariant, Decoder.LoadNewClass, Short;
    if p.Dynamic? {
      ReadVariantCut(d.rd, bs, drop);
      var r := ReadVariant(d.rd, bs);
      if r.Ok? && drop <= |r.value.1| {
        NewClassCut(d, ds, r.value.1, drop);
      }
    }
  }

  /** Decoding a cut-off input.  With `drop` larger than what the full input left unread, this
      says that every proper prefix of what was consumed ends in Eof. */
  lemma {:induction false} LoadCut(d: Decoder, ds: DecState, t: Ty, bs: seq<byte>, drop: nat)
    requires drop <= |bs|
    ensures CutLoads(drop, d.Load(ds, t, bs), d.Load(ds, t, Short(bs, drop)))
    decreases |bs|, 1, t, 0
  {
    hide ReadVariant, Take, Short, Decoder.LoadElems, Decoder.LoadTuple, Decoder.LoadClass, Wire, Compatible, InsertAll,
      Decoder.Publish, Decoder.Fill, Built;
    match t
    case Scalar(n) => TakeCut(bs, n, drop);
    case Array(n, e) => ElemsCut(d, ds, Inline(e), n, bs, drop);
    case Sequence(e) => CountedCut(d, ds, e, 0, bs, drop);
    case Assoc(e, o) => CountedCut(d, ds, e, o, bs, drop);
    case Tuple(ts) => TupleCut(d, ds, ts, bs, drop);
    case Optional(e) =>
      TakeCut(bs, 1, drop);
      TakeShorter(bs, 1);
      var r := Take(bs, 1);
      if r.Ok? && drop <= |r.value.1| {
        LoadCut(d, ds, e, r.value.1, drop);
      }
    case Unique(p) =>
      TakeCut(bs, 1, drop);
      TakeShorter(bs, 1);
      var r := Take(bs, 1);
      if r.Ok? && drop <= |r.value.1| {
        OwnedCut(d, ds, p, r.value.1, drop, bs);
      }
    case Shared(p) => SharedCut(d, ds, p, bs, drop);
  }

  lemma {:induction false} CountedCut(d: Decoder, ds: DecState, e: Elem, o: Order, bs: seq<byte>, drop: nat)
    requires drop <= |bs|
    ensures CutLoads(drop, d.Load(ds, Sequence(e), bs), d.Load(ds, Sequence(e), Short(bs, drop)))
    ensures CutLoads(drop, d.Load(ds, Assoc(e, o), bs), d.Load(ds, Assoc(e, o), Short(bs, drop)))
    decreases |bs|, 0, Scalar(0), 0
  {
    hide ReadVariant, Short, Decoder.LoadElems, InsertAll;
    ReadVariantCut(d.rd, bs, drop);
    var r := ReadVariant(d.rd, bs);
    if r.Ok? && drop <= |r.value.1| {
      ElemsCut(d, ds, e, r.value.0, r.value.1, drop);
    }
  }

  /** The content of a unique pointer after its flag. */
  lemma {:induction false} OwnedCut(d: Decoder, ds: DecState, p: Pointee, bs: seq<byte>, drop: nat, whole: seq<byte>)
    requires drop <= |bs| < |whole|
    ensures CutLoads(drop, d.LoadClass(ds, p, bs), d.LoadClass(ds, p, Short(bs, drop)))
    ensures var r := d.LoadClass(ds, p, bs);
      r.Ok? && r.value.1 in d.env.types && drop <= |r.value.2| ==>
        CutLoads(drop, d.Load(r.value.0, d.env.types[r.value.1], r.value.2),
                 d.Load(r.value.0, d.env.types[r.value.1], Short(r.value.2, drop)))
    decreases |whole|, 0, Scalar(0), 0
  {
    hide Decoder.LoadClass, Short, Decoder.Load;
    ClassCut(d, ds, p, bs, drop);
    var r := d.LoadClass(ds, p, bs);
    if r.Ok? && r.value.1 in d.env.types && drop <= |r.value.2| {
      LoadCut(d, r.value.0, d.env.types[r.value.1], r.value.2, drop);
    }
  }

  lemma {:induction false} SharedCut(d: Decoder, ds: DecState, p: Pointee, bs: seq<byte>, drop: nat)
    requires drop <= |bs|
    ensures CutLoads(drop, d.Load(ds, Shared(p), bs), d.Load(ds, Shared(p), Short(bs, drop)))
    decreases |bs|, 0, Scalar(0), 0
  {
    hide ReadVariant, Short, Decoder.LoadClass, Compatible, Decoder.Publish, Decoder.Fill, Built;
    ReadVariantCut(d.rd, bs, drop);
    var r := ReadVariant(d.rd, bs);
    if r.Ok? && drop <= |r.value.1| && r.value.0 == |ds.objs| {
      ClassCut(d, ds, p, r.value.1, drop);
      var h := d.LoadClass(ds, p, r.value.1);
      if h.Ok? && h.value.1 in d.env.types && drop <= |h.value.2| {
        LoadCut(d, d.Publish(h.value.0, p, h.value.1), d.env.types[h.value.1], h.value.2, drop);
      }
    }
  }

  lemma {:induction false} ElemsCut(d: Decoder, ds: DecState, e: Elem, n: nat, bs: seq<byte>, drop: nat)
    requires drop <= |bs|
    ensures CutLoads(drop, d.LoadElems(ds, e, n, bs), d.LoadElems(ds, e, n, Short(bs, drop)))
    decreases |bs|, if e.Named? then 2 else 1, if e.Named? then Scalar(0) else e.t, n + 1
  {
    hide Short, Decoder.Load;
    if n > 0 && (e.Named? ==> e.c in d.env.types) {
      var t := ElemType(d.env, e);
      LoadCut(d, ds, t, bs, drop);
      var r := d.Load(ds, t, bs);
      if r.Ok? && drop <= |r.value.2| {
        ElemsCut(d, r.value.0, e, n - 1, r.value.2, drop);
      }
    }
  }

  lemma {:induction false} TupleCut(d: Decoder, ds: DecState, ts: seq<Ty>, bs: seq<byte>, drop: nat)
    requires drop <= |bs|
    ensures CutLoads(drop, d.LoadTuple(ds, ts, bs), d.LoadTuple(ds, ts, Short(bs, drop)))
    decreases |bs|, 1, ts, 0
  {
    hide Short, Decoder.Load;
    if ts != [] {
      LoadCut(d, ds, ts[0], bs, drop);
      var r := d.Load(ds, ts[0], bs);
      if r.Ok? && drop <= |r.value.2| {
        TupleCut(d, r.value.0, ts[1..], r.value.2, drop);
      }
    }
  }

  /** Every proper prefix of an encoding ends in Eof. */
  lemma ProperPrefixIsEof(e: Encoder, rd: Reader, part: Heap, ts: seq<Ty>, vs: seq<Val>, memory: seq<Cell>, k: nat)
    requires SubHeap(part, e.h) && Setting(On(e, part))
    requires |ts| == |vs| && TypedTuple(e.env, KindsOf(part), ts, vs)
    requires ClearTuple(On(e, part), rd, NewEncoder, ts, vs)
    requires k < |e.SaveTuple(NewEncoder, ts, vs).1|
    ensures DecoderFor(e, rd).LoadTuple(NewDecoder(memory), ts, e.SaveTuple(NewEncoder, ts, vs).1[..k]) == Err(Eof)
  {
    hide Setting, Encoder.SaveTuple, Decoder.LoadTuple, ClearTuple, TypedTuple, KindsOf, SubHeap, IsomorphicCopy, ClosedUnder,
      RenameAll;
    var bs := e.SaveTuple(NewEncoder, ts, vs).1;
    var phi, ds := GraphRoundTrip(e, rd, part, ts, vs, memory, []);
    assert bs + [] == bs;
    TupleCut(DecoderFor(e, rd), NewDecoder(memory), ts, bs, |bs| - k);
  }

  // ----- Whatever is accepted is well typed -----

  /** The kinds of the objects in a decoder's memory. */
  function KindsIn(heap: seq<Cell>): Kinds {
    map a: nat | a < |heap| :: KindOf(heap[a])
  }

  /** Memory grew, and what was there is unchanged. */
  ghost predicate Extends(heap: seq<Cell>, heap': seq<Cell>) {
    heap <= heap'
  }

  ghost predicate CellTyped(env: Env, heap: seq<Cell>, a: Addr)
    requires a < |heap|
  {
    match KindOf(heap[a])
    case StaticKind(c) => c in env.types && Typed(env, KindsIn(heap), env.types[c], heap[a].x)
    case DynamicKind(c) => c in env.types && Typed(env, KindsIn(heap), env.types[c], heap[a].x.v)
    case BadKind => false
  }

  /** Everything from address `from` on is a finished, well-typed object. */
  ghost predicate TypedFrom(env: Env, heap: seq<Cell>, from: Addr) {
    forall a :: from <= a < |heap| ==> CellTyped(env, heap, a)
  }

  /** The object table points into memory, at objects of the recorded kind. */
  ghost predicate TableOk(env: Env, ds: DecState) {
    && |ds.objs| > 0
    && (forall i :: 0 < i < |ds.objs| ==> EntryOk(ds, i))
    && (forall i :: 0 <= i < |ds.classes| ==> ds.classes[i] in env.types)
  }

  ghost predicate EntryOk(ds: DecState, i: nat)
    requires i < |ds.objs|
  {
    ds.objs[i].ptr < |ds.heap| && ds.heap[ds.objs[i].ptr].tid == ds.objs[i].tid
  }

  ghost predicate SubKinds(ks: Kinds, ks': Kinds) {
    forall a :: a in ks ==> a in ks' && ks'[a] == ks[a]
  }

  lemma {:induction false} TypedMonotone(env: Env, ks: Kinds, ks': Kinds, t: Ty, v: Val)
    requires SubKinds(ks, ks') && Typed(env, ks, t, v)
    ensures Typed(env, ks', t, v)
    decreases v, 1
  {
    hide SubKinds;
    match t
    case Array(_, e) => TypedElemsMonotone(env, ks, ks', Inline(e), v.vs);
    case Sequence(e) => TypedElemsMonotone(env, ks, ks', e, v.vs);
    case Assoc(e, _) => TypedElemsMonotone(env, ks, ks', e, v.vs);
    case Tuple(ts) => TypedTupleMonotone(env, ks, ks', ts, v.vs);
    case Optional(e) => if v.vs != [] { TypedMonotone(env, ks, ks', e, v.vs[0]); }
    case Unique(p) => if v.vs != [] { TypedTargetMonotone(env, ks, ks', p, v.vs[0]); }
    case Shared(p) => if v.Ref? { SubKindsAt(ks, ks', v.a); }
    case _ =>
  }

  lemma SubKindsAt(ks: Kinds, ks': Kinds, a: Addr)
    requires SubKinds(ks, ks') && a in ks
    ensures a in ks' && ks'[a] == ks[a]
  {
  }

  lemma {:induction false} TypedElemsMonotone(env: Env, ks: Kinds, ks': Kinds, e: Elem, vs: seq<Val>)
    requires SubKinds(ks, ks') && TypedElems(env, ks, e, vs)
    ensures TypedElems(env, ks', e, vs)
    decreases vs, 0
  {
    if vs != [] {
      TypedMonotone(env, ks, ks', ElemType(env, e), vs[0]);
      TypedElemsMonotone(env, ks, ks', e, vs[1..]);
    }
  }

  lemma {:induction false} TypedTupleMonotone(env: Env, ks: Kinds, ks': Kinds, ts: seq<Ty>, vs: seq<Val>)
    requires SubKinds(ks, ks') && |ts| == |vs| && TypedTuple(env, ks, ts, vs)
    ensures TypedTuple(env, ks', ts, vs)
    decreases vs, 0
  {
    if vs != [] {
      TypedMonotone(env, ks, ks', ts[0], vs[0]);
      TypedTupleMonotone(env, ks, ks', ts[1..], vs[1..]);
    }
  }

  lemma {:induction false} TypedTargetMonotone(env: Env, ks: Kinds, ks': Kinds, p: Pointee, x: Val)
    requires SubKinds(ks, ks') && TypedTarget(env, ks, p, x)
    ensures TypedTarget(env, ks', p, x)
    decreases x, 2
  {
    match p
    case Static(c) => TypedMonotone(env, ks, ks', env.types[c], x);
    case Dynamic(_) => TypedMonotone(env, ks, ks', env.types[x.cls], x.v);
  }

  // Associative containers: insertion keeps them strictly ascending and adds nothing foreign.

  lemma {:induction false} InsertAllSafe(env: Env, o: Order, ks: Kinds, e: Elem, acc: seq<Val>, vs: seq<Val>)
    requires FlatTree.StrictWeakOrder(env.orders(o)) && StrictlyAscending(env.orders(o), acc)
    requires TypedElems(env, ks, e, acc) && TypedElems(env, ks, e, vs)
    ensures var r := InsertAll(env.orders(o), acc, vs);
      StrictlyAscending(env.orders(o), r) && TypedElems(env, ks, e, r)
    decreases |vs|
  {
    hide Typed, FlatTree.InsertUnique, FlatTree.StrictWeakOrder;
    if vs != [] {
      InsertSafe(env, o, ks, e, acc, vs[0]);
      InsertAllSafe(env, o, ks, e, FlatTree.InsertUnique(env.orders(o), acc, vs[0]), vs[1..]);
    }
  }

  lemma InsertSafe(env: Env, o: Order, ks: Kinds, e: Elem, s: seq<Val>, x: Val)
    requires FlatTree.StrictWeakOrder(env.orders(o)) && StrictlyAscending(env.orders(o), s)
    requires TypedElems(env, ks, e, s)
    requires (e.Named? ==> e.c in env.types) && Typed(env, ks, ElemType(env, e), x)
    ensures var r := FlatTree.InsertUnique(env.orders(o), s, x);
      StrictlyAscending(env.orders(o), r) && TypedElems(env, ks, e, r)
  {
    hide Typed, TypedElems, FlatTree.InsertUnique, FlatTree.StrictWeakOrder, FlatTree.LowerBoundIndex;
    FlatTree.InsertUniqueAscending(env.orders(o), s, x);
    var i := FlatTree.LowerBoundIndex(env.orders(o), s, x);
    assert s == s[..i] + s[i..];
    TypedElemsConcat(env, ks, e, s[..i], s[i..]);
    TypedElemsOne(env, ks, e, x);
    TypedElemsConcat(env, ks, e, s[..i], [x]);
    TypedElemsConcat(env, ks, e, s[..i] + [x], s[i..]);
  }

  lemma TypedElemsOne(env: Env, ks: Kinds, e: Elem, x: Val)
    requires (e.Named? ==> e.c in env.types) && Typed(env, ks, ElemType(env, e), x)
    ensures TypedElems(env, ks, e, [x])
  {
    hide Typed;
    assert [x][1..] == [];
    assert TypedElems(env, ks, e, []);
  }

  lemma {:induction false} TypedElemsConcat(env: Env, ks: Kinds, e: Elem, a: seq<Val>, b: seq<Val>)
    ensures TypedElems(env, ks, e, a + b) <==> TypedElems(env, ks, e, a) && TypedElems(env, ks, e, b)
  {
    hide Typed;
    if a == [] {
      assert a + b == b;
    } else {
      assert (a + b)[1..] == a[1..] + b;
      TypedElemsConcat(env, ks, e, a[1..], b);
    }
  }

  // What one decoding step must keep.

  ghost predicate Safe(env: Env, ds: DecState, ds': DecState) {
    TableOk(env, ds') && Extends(ds.heap, ds'.heap) && TypedFrom(env, ds'.heap, |ds.heap|)
  }

  lemma SafeNothing(env: Env, ds: DecState)
    requires TableOk(env, ds)
    ensures Safe(env, ds, ds)
  {
  }

  lemma KindsExtend(heap: seq<Cell>, heap': seq<Cell>)
    requires Extends(heap, heap')
    ensures SubKinds(KindsIn(heap), KindsIn(heap'))
  {
    hide KindOf;
  }

  lemma CellMonotone(env: Env, heap: seq<Cell>, heap': seq<Cell>, a: Addr)
    requires a < |heap| && a < |heap'| && heap'[a] == heap[a] && SubKinds(KindsIn(heap), KindsIn(heap'))
    requires CellTyped(env, heap, a)
    ensures CellTyped(env, heap', a)
  {
    hide Typed, KindsIn, SubKinds;
    match KindOf(heap[a])
    case StaticKind(c) => TypedMonotone(env, KindsIn(heap), KindsIn(heap'), env.types[c], heap[a].x);
    case DynamicKind(c) => TypedMonotone(env, KindsIn(heap), KindsIn(heap'), env.types[c], heap[a].x.v);
    case BadKind =>
  }

  lemma SafeTransitive(env: Env, ds0: DecState, ds1: DecState, ds2: DecState)
    requires Safe(env, ds0, ds1) && Safe(env, ds1, ds2)
    ensures Safe(env, ds0, ds2)
  {
    hide CellTyped, TableOk, KindsIn;
    KindsExtend(ds1.heap, ds2.heap);
    forall a | |ds0.heap| <= a < |ds2.heap| ensures CellTyped(env, ds2.heap, a) {
      if a < |ds1.heap| {
        CellMonotone(env, ds1.heap, ds2.heap, a);
      }
    }
  }

  ghost predicate Good(d: Decoder) {
    d.env.Valid() && forall o :: FlatTree.StrictWeakOrder(d.env.orders(o))
  }

  /** Decoding any bytes at all: if it succeeds, the value has the requested type, every object
      created on the way is finished and has the type its table entry records, every reference
      points to an object the pointer may hold, and memory that was there is untouched. */
  lemma {:induction false} LoadSafe(d: Decoder, ds: DecState, t: Ty, bs: seq<byte>)
    requires Good(d) && d.env.Closed(t) && TableOk(d.env, ds)
    ensures match d.Load(ds, t, bs)
      case Ok((ds', v, _)) => Safe(d.env, ds, ds') && Typed(d.env, KindsIn(ds'.heap), t, v)
      case Err(_) => true
    decreases |bs|, 1, t, 0
  {
    hide Good, Safe, TableOk, ReadVariant, Take, Decoder.LoadElems, Decoder.LoadTuple, Decoder.LoadClass, Wire, Compatible,
      Decoder.Publish, Decoder.Fill, Built, TypedElems, TypedTuple, TypedTarget, InsertAll, StrictlyAscending, Holds, KindOf;
    match t
    case Scalar(n) =>
      SafeNothing(d.env, ds);
      TakeShorter(bs, n);
    case Array(n, e) =>
      ElemsSafe(d, ds, Inline(e), n, bs);
    case Sequence(e) =>
      CountedSafe(d, ds, e, 0, bs);
    case Assoc(e, o) =>
      CountedSafe(d, ds, e, o, bs);
    case Tuple(ts) =>
      TupleSafe(d, ds, ts, bs);
    case Optional(e) =>
      SafeNothing(d.env, ds);
      TakeShorter(bs, 1);
      var r := Take(bs, 1);
      if r.Ok? {
        LoadSafe(d, ds, e, r.value.1);
      }
    case Unique(p) =>
      SafeNothing(d.env, ds);
      TakeShorter(bs, 1);
      var r := Take(bs, 1);
      if r.Ok? {
        OwnedSafe(d, ds, p, r.value.1, bs);
      }
    case Shared(p) =>
      SharedSafe(d, ds, p, bs);
  }

  lemma {:induction false} CountedSafe(d: Decoder, ds: DecState, e: Elem, o: Order, bs: seq<byte>)
    requires Good(d) && d.env.ClosedElem(e) && TableOk(d.env, ds)
    ensures match d.Load(ds, Sequence(e), bs)
      case Ok((ds', v, _)) => Safe(d.env, ds, ds') && Typed(d.env, KindsIn(ds'.heap), Sequence(e), v)
      case Err(_) => true
    ensures match d.Load(ds, Assoc(e, o), bs)
      case Ok((ds', v, _)) => Safe(d.env, ds, ds') && Typed(d.env, KindsIn(ds'.heap), Assoc(e, o), v)
      case Err(_) => true
    decreases |bs|, 0, Scalar(0), 0
  {
    hide Good, Safe, TableOk, ReadVariant, Decoder.LoadElems, InsertAll, TypedElems, StrictlyAscending, KindOf, KindsIn;
    ReadVariantShape(d.rd, bs);
    var r := ReadVariant(d.rd, bs);
    if r.Ok? {
      ElemsSafe(d, ds, e, r.value.0, r.value.1);
      var l := d.LoadElems(ds, e, r.value.0, r.value.1);
      if l.Ok? {
        var vs := l.value.1;
        NothingAscends(d, o, KindsIn(l.value.0.heap), e);
        InsertAllSafe(d.env, o, KindsIn(l.value.0.heap), e, [], vs);
      }
    }
  }

  lemma NothingAscends(d: Decoder, o: Order, ks: Kinds, e: Elem)
    requires Good(d)
    ensures StrictlyAscending(d.env.orders(o), []) && TypedElems(d.env, ks, e, []) && FlatTree.StrictWeakOrder(d.env.orders(o))
  {
    hide FlatTree.StrictWeakOrder;
  }

  lemma {:induction false} ElemsSafe(d: Decoder, ds: DecState, e: Elem, n: nat, bs: seq<byte>)
    requires Good(d) && d.env.ClosedElem(e) && TableOk(d.env, ds)
    ensures match d.LoadElems(ds, e, n, bs)
      case Ok((ds', vs, _)) => Safe(d.env, ds, ds') && TypedElems(d.env, KindsIn(ds'.heap), e, vs)
      case Err(_) => true
    decreases |bs|, if e.Named? then 2 else 1, if e.Named? then Scalar(0) else e.t, n + 1
  {
    hide Safe, TableOk, Decoder.Load, Typed, Env.Valid, KindsIn, FlatTree.StrictWeakOrder;
    if n == 0 {
      SafeNothing(d.env, ds);
    } else {
      ElemClosed(d.env, e);
      var t := ElemType(d.env, e);
      LoadSafe(d, ds, t, bs);
      var r := d.Load(ds, t, bs);
      if r.Ok? {
        SafeTable(d.env, ds, r.value.0);
        ElemsSafe(d, r.value.0, e, n - 1, r.value.2);
        var l := d.LoadElems(r.value.0, e, n - 1, r.value.2);
        if l.Ok? {
          StaysTyped(d.env, ds, r.value.0, l.value.0, t, r.value.1);
          assert ([r.value.1] + l.value.1)[1..] == l.value.1;
        }
      }
    }
  }

  lemma ElemClosed(env: Env, e: Elem)
    requires env.Valid() && env.ClosedElem(e)
    ensures (e.Named? ==> e.c in env.types) && env.Closed(ElemType(env, e))
  {
  }

  lemma SafeTable(env: Env, ds: DecState, ds': DecState)
    requires Safe(env, ds, ds')
    ensures TableOk(env, ds')
  {
    hide TableOk;
  }

  /** A value keeps its type while more is decoded. */
  lemma StaysTyped(env: Env, ds0: DecState, ds1: DecState, ds2: DecState, t: Ty, v: Val)
    requires Safe(env, ds0, ds1) && Safe(env, ds1, ds2) && Typed(env, KindsIn(ds1.heap), t, v)
    ensures Safe(env, ds0, ds2) && Typed(env, KindsIn(ds2.heap), t, v)
  {
    hide TableOk, TypedFrom, Typed, KindsIn;
    SafeTransitive(env, ds0, ds1, ds2);
    KindsExtend(ds1.heap, ds2.heap);
    TypedMonotone(env, KindsIn(ds1.heap), KindsIn(ds2.heap), t, v);
  }

  lemma {:induction false} TupleSafe(d: Decoder, ds: DecState, ts: seq<Ty>, bs: seq<byte>)
    requires Good(d) && (forall i :: 0 <= i < |ts| ==> d.env.Closed(ts[i])) && TableOk(d.env, ds)
    ensures match d.LoadTuple(ds, ts, bs)
      case Ok((ds', vs, _)) => Safe(d.env, ds, ds') && TypedTuple(d.env, KindsIn(ds'.heap), ts, vs)
      case Err(_) => true
    decreases |bs|, 1, ts, 0
  {
    hide Good, Safe, TableOk, Decoder.Load, Typed, KindsIn, Env.Closed;
    if ts == [] {
      SafeNothing(d.env, ds);
    } else {
      LoadSafe(d, ds, ts[0], bs);
      var r := d.Load(ds, ts[0], bs);
      if r.Ok? {
        SafeTable(d.env, ds, r.value.0);
        TupleSafe(d, r.value.0, ts[1..], r.value.2);
        var l := d.LoadTuple(r.value.0, ts[1..], r.value.2);
        if l.Ok? {
          StaysTyped(d.env, ds, r.value.0, l.value.0, ts[0], r.value.1);
          assert ([r.value.1] + l.value.1)[1..] == l.value.1;
        }
      }
    }
  }

  /** A class that LoadClass returns can be created behind a pointer to `p`. */
  lemma ClassSafe(d: Decoder, ds: DecState, p: Pointee, bs: seq<byte>)
    requires TableOk(d.env, ds)
    ensures match d.LoadClass(ds, p, bs)
      case Ok((ds1, c, _)) =>
        && TableOk(d.env, ds1) && ds1.heap == ds.heap && ds1.objs == ds.objs
        && (match p case Static(c') => c == c' case Dynamic(base) => (base, c) in d.env.subclasses && c in d.env.types)
      case Err(_) => true
  {
    hide ReadVariant, Decoder.LoadNewClass;
    if p.Dynamic? {
      var r := ReadVariant(d.rd, bs);
      if r.Ok? && r.value.0 == |ds.classes| {
        NewClassSafe(d, ds, r.value.1);
      }
    }
  }

  lemma NewClassSafe(d: Decoder, ds: DecState, bs: seq<byte>)
    requires TableOk(d.env, ds)
    ensures var r := d.LoadNewClass(ds, bs); r.Ok? ==> TableOk(d.env, r.value.0)
  {
    hide ReadText, Take, Wire;
    var r := d.LoadNewClass(ds, bs);
    if r.Ok? {
      forall i | 0 < i < |ds.objs| ensures EntryOk(r.value.0, i) {
        assert EntryOk(ds, i);
      }
    }
  }

  lemma {:induction false} OwnedSafe(d: Decoder, ds: DecState, p: Pointee, bs: seq<byte>, whole: seq<byte>)
    requires Good(d) && TableOk(d.env, ds) && |bs| < |whole|
    ensures var h := d.LoadClass(ds, p, bs);
      h.Ok? && h.value.1 in d.env.types ==>
        match d.Load(h.value.0, d.env.types[h.value.1], h.value.2)
        case Ok((ds', v, _)) => Safe(d.env, ds, ds') && TypedTarget(d.env, KindsIn(ds'.heap), p, Built(p, h.value.1, v))
        case Err(_) => true
    decreases |whole|, 0, Scalar(0), 0
  {
    hide TableOk, Decoder.LoadClass, Decoder.Load, Typed, KindsIn, Extends, TypedFrom, FlatTree.StrictWeakOrder, Env.Closed;
    ClassSafe(d, ds, p, bs);
    var h := d.LoadClass(ds, p, bs);
    if h.Ok? && h.value.1 in d.env.types {
      LoadSafe(d, h.value.0, d.env.types[h.value.1], h.value.2);
    }
  }

  lemma {:induction false} SharedSafe(d: Decoder, ds: DecState, p: Pointee, bs: seq<byte>)
    requires Good(d) && TableOk(d.env, ds)
    ensures match d.Load(ds, Shared(p), bs)
      case Ok((ds', v, _)) => Safe(d.env, ds, ds') && Typed(d.env, KindsIn(ds'.heap), Shared(p), v)
      case Err(_) => true
    decreases |bs|, 0, Scalar(0), 0
  {
    hide TableOk, ReadVariant, Decoder.LoadClass, Compatible, Decoder.Publish, Decoder.Fill, Built, KindsIn, Safe, Holds,
      FlatTree.StrictWeakOrder, Env.Closed;
    SafeNothing(d.env, ds);
    ReadVariantShape(d.rd, bs);
    var r := ReadVariant(d.rd, bs);
    if r.Ok? {
      var id, rest := r.value.0, r.value.1;
      if 0 < id < |ds.objs| && Compatible(d.env, ds.heap, ds.objs[id], p) {
        CompatibleHolds(d.env, ds, id, p);
      } else if id == |ds.objs| {
        ClassSafe(d, ds, p, rest);
        var h := d.LoadClass(ds, p, rest);
        if h.Ok? && h.value.1 in d.env.types {
          var ds1, c := h.value.0, h.value.1;
          var ds2 := d.Publish(ds1, p, c);
          PublishSafe(d, ds1, p, c);
          LoadSafe(d, ds2, d.env.types[c], h.value.2);
          var l := d.Load(ds2, d.env.types[c], h.value.2);
          if l.Ok? {
            FillSafe(d, ds1, ds2, l.value.0, p, c, l.value.1);
            SafeFrom(d.env, ds, ds1, d.Fill(l.value.0, |ds1.heap|, Built(p, c, l.value.1)));
          }
        }
      }
    }
  }

  lemma SafeFrom(env: Env, ds: DecState, ds1: DecState, ds': DecState)
    requires Safe(env, ds1, ds') && ds1.heap == ds.heap
    ensures Safe(env, ds, ds')
  {
    hide TableOk, Extends, TypedFrom;
  }

  lemma CompatibleHolds(env: Env, ds: DecState, id: nat, p: Pointee)
    requires TableOk(env, ds) && 0 < id < |ds.objs| && Compatible(env, ds.heap, ds.objs[id], p)
    ensures Typed(env, KindsIn(ds.heap), Shared(p), Ref(ds.objs[id].ptr))
  {
    assert EntryOk(ds, id);
  }

  lemma PublishSafe(d: Decoder, ds: DecState, p: Pointee, c: Name)
    requires TableOk(d.env, ds) && (p.Static? ==> p.c == c)
    ensures var ds2 := d.Publish(ds, p, c);
      TableOk(d.env, ds2) && ds2.heap == ds.heap + [NewCell(p, c)]
  {
    var ds2 := d.Publish(ds, p, c);
    forall i | 0 < i < |ds2.objs| ensures EntryOk(ds2, i) {
      if i < |ds.objs| {
        assert EntryOk(ds, i);
      }
    }
  }

  /** Storing the content of a published object finishes it, and changes no object's kind. */
  lemma FillSafe(d: Decoder, ds1: DecState, ds2: DecState, ds3: DecState, p: Pointee, c: Name, v: Val)
    requires ds2 == d.Publish(ds1, p, c) && Safe(d.env, ds2, ds3) && c in d.env.types
    requires match p case Static(c') => c == c' case Dynamic(base) => (base, c) in d.env.subclasses
    requires Typed(d.env, KindsIn(ds3.heap), d.env.types[c], v)
    ensures var ds4 := d.Fill(ds3, |ds1.heap|, Built(p, c, v));
      Safe(d.env, ds1, ds4) && Typed(d.env, KindsIn(ds4.heap), Shared(p), Ref(|ds1.heap|))
  {
    hide Typed, Safe, TableOk;
    var ptr := |ds1.heap|;
    var ds4 := d.Fill(ds3, ptr, Built(p, c, v));
    SafeParts(d.env, ds2, ds3);
    assert ds2.heap[ptr] == NewCell(p, c) == ds3.heap[ptr];
    FillKinds(d, ds3, ptr, p, c, v);
    FillTable(d, ds3, ds4, ptr, p, c, v);
    hide KindsIn, Decoder.Publish, Decoder.Fill, Holds;
    forall a | ptr <= a < |ds4.heap| ensures CellTyped(d.env, ds4.heap, a) {
      if a != ptr {
        CellMonotone(d.env, ds3.heap, ds4.heap, a);
      }
    }
    SafeIf(d.env, ds1, ds4);
    SharedIsTyped(d.env, ds4.heap, p, ptr, c);
  }

  lemma SharedIsTyped(env: Env, heap: seq<Cell>, p: Pointee, ptr: Addr, c: Name)
    requires ptr < |heap| && KindOf(heap[ptr]) == (if p.Static? then StaticKind(c) else DynamicKind(c))
    requires match p case Static(c') => c == c' case Dynamic(base) => (base, c) in env.subclasses
    ensures Typed(env, KindsIn(heap), Shared(p), Ref(ptr))
  {
  }

  lemma SafeIf(env: Env, ds: DecState, ds': DecState)
    requires TableOk(env, ds') && Extends(ds.heap, ds'.heap) && TypedFrom(env, ds'.heap, |ds.heap|)
    ensures Safe(env, ds, ds')
  {
  }

  lemma SafeParts(env: Env, ds: DecState, ds': DecState)
    requires Safe(env, ds, ds')
    ensures TableOk(env, ds') && Extends(ds.heap, ds'.heap) && TypedFrom(env, ds'.heap, |ds.heap|)
  {
  }

  lemma FillKinds(d: Decoder, ds3: DecState, ptr: Addr, p: Pointee, c: Name, v: Val)
    requires ptr < |ds3.heap| && ds3.heap[ptr] == NewCell(p, c)
    ensures var ds4 := d.Fill(ds3, ptr, Built(p, c, v));
      KindsIn(ds4.heap) == KindsIn(ds3.heap)
  {
    var ds4 := d.Fill(ds3, ptr, Built(p, c, v));
    forall a: nat | a < |ds3.heap| ensures KindOf(ds4.heap[a]) == KindOf(ds3.heap[a]) {
    }
  }

  lemma FillTable(d: Decoder, ds3: DecState, ds4: DecState, ptr: Addr, p: Pointee, c: Name, v: Val)
    requires TableOk(d.env, ds3) && ptr < |ds3.heap| && ds4 == d.Fill(ds3, ptr, Built(p, c, v))
    ensures TableOk(d.env, ds4)
  {
    forall i | 0 < i < |ds4.objs| ensures EntryOk(ds4, i) {
      assert EntryOk(ds3, i);
    }
  }

  /** A fresh decoder on arbitrary bytes. */
  lemma AcceptedIsWellTyped(d: Decoder, ts: seq<Ty>, memory: seq<Cell>, bs: seq<byte>)
    requires Good(d) && forall i :: 0 <= i < |ts| ==> d.env.Closed(ts[i])
    ensures match d.LoadTuple(NewDecoder(memory), ts, bs)
      case Ok((ds', vs, _)) =>
        && TypedTuple(d.env, KindsIn(ds'.heap), ts, vs)
        && memory <= ds'.heap && TypedFrom(d.env, ds'.heap, |memory|)
      case Err(_) => true
  {
    hide Good, Decoder.LoadTuple, TypedTuple, KindsIn, TypedFrom;
    TupleSafe(d, NewDecoder(memory), ts, bs);
  }
}
