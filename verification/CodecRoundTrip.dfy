/** Decoding what was encoded yields an isomorphic object graph.

    `Phi` maps every object the encoder has numbered to the object the decoder created for
    that number.  The main induction shows that encoder and decoder stay in step. */
module CodecRoundTrip {
  import opened Results
  import opened Streams
  import opened Variant
  import opened Codec
  import FlatTree

  // ----- Well-typed values -----

  /** The part of a heap that typing depends on. */
  datatype Kind = StaticKind(c: Name) | DynamicKind(cls: Name) | BadKind

  function KindOf(c: Cell): Kind {
    match c.tid
    case StaticType(n) => StaticKind(n)
    case DynamicType => if c.x.Object? then DynamicKind(c.x.cls) else BadKind
  }

  /** A pointer to `p` may hold an object of this kind. */
  predicate Holds(env: Env, p: Pointee, k: Kind) {
    match p
    case Static(c) => k == StaticKind(c)
    case Dynamic(base) => k.DynamicKind? && (base, k.cls) in env.subclasses
  }

  ghost predicate StrictlyAscending(less: (Val, Val) -> bool, vs: seq<Val>) {
    forall i, j :: 0 <= i < j < |vs| ==> less(vs[i], vs[j])
  }

  type Kinds = map<Addr, Kind>

  function KindsOf(h: Heap): Kinds {
    map a | a in h :: KindOf(h[a])
  }

  /** `v` is a value of type `t` in a memory with objects of the given kinds. */
  ghost predicate Typed(env: Env, ks: Kinds, t: Ty, v: Val)
    decreases v, 1
  {
    match (t, v)
    case (Scalar(n), Bits(b)) => |b| == n
    case (Array(n, e), Items(vs)) => |vs| == n && TypedElems(env, ks, Inline(e), vs)
    case (Sequence(e), Items(vs)) => TypedElems(env, ks, e, vs)
    case (Assoc(e, o), Items(vs)) => TypedElems(env, ks, e, vs) && StrictlyAscending(env.orders(o), vs)
    case (Tuple(ts), Items(vs)) => |ts| == |vs| && TypedTuple(env, ks, ts, vs)
    case (Optional(e), Items(vs)) => vs == [] || (|vs| == 1 && Typed(env, ks, e, vs[0]))
    case (Unique(p), Items(vs)) => vs == [] || (|vs| == 1 && TypedTarget(env, ks, p, vs[0]))
    case (Shared(_), Null) => true
    case (Shared(p), Ref(a)) => a in ks && Holds(env, p, ks[a])
    case _ => false
  }

  ghost predicate TypedElems(env: Env, ks: Kinds, e: Elem, vs: seq<Val>)
    decreases vs, 0
  {
    vs == [] ||
    (&& (e.Named? ==> e.c in env.types)
     && Typed(env, ks, ElemType(env, e), vs[0])
     && TypedElems(env, ks, e, vs[1..]))
  }

  ghost predicate TypedTuple(env: Env, ks: Kinds, ts: seq<Ty>, vs: seq<Val>)
    requires |ts| == |vs|
    decreases vs, 0
  {
    vs == [] || (Typed(env, ks, ts[0], vs[0]) && TypedTuple(env, ks, ts[1..], vs[1..]))
  }

  /** An object that a pointer to `p` owns. */
  ghost predicate TypedTarget(env: Env, ks: Kinds, p: Pointee, x: Val)
    decreases x, 2
  {
    match (p, x)
    case (Static(c), _) => c in env.types && Typed(env, ks, env.types[c], x)
    case (Dynamic(base), Object(c, v)) =>
      c in env.types && (base, c) in env.subclasses && Typed(env, ks, env.types[c], v)
    case _ => false
  }

  /** The encoder's memory is well typed. */
  ghost predicate HeapOk(env: Env, h: Heap) {
    forall a :: a in h ==> CellOk(env, h, a)
  }

  ghost predicate CellOk(env: Env, h: Heap, a: Addr)
    requires a in h
  {
    match KindOf(h[a])
    case StaticKind(c) => c in env.types && Typed(env, KindsOf(h), env.types[c], h[a].x)
    case DynamicKind(c) => c in env.types && Typed(env, KindsOf(h), env.types[c], h[a].x.v)
    case BadKind => false
  }

  // ----- Numbers on the wire -----

  /** Every number and name that Save writes survives the reader: container sizes, object ids, class
      ids, and the names of classes.  This follows Save step by step. */
  ghost predicate Clear(e: Encoder, rd: Reader, st: EncState, t: Ty, v: Val)
    decreases e.h.Keys - st.objs.Keys, v, 1
  {
    match (t, v)
    case (Array(_, el), Items(vs)) => ClearElems(e, rd, st, Inline(el), vs)
    case (Sequence(el), Items(vs)) => Readable(rd, |vs|) && ClearElems(e, rd, st, el, vs)
    case (Assoc(el, _), Items(vs)) => Readable(rd, |vs|) && ClearElems(e, rd, st, el, vs)
    case (Tuple(ts), Items(vs)) => ClearTuple(e, rd, st, ts, vs)
    case (Optional(el), Items(vs)) => vs == [] || Clear(e, rd, st, el, vs[0])
    case (Unique(p), Items(vs)) => vs == [] || ClearTarget(e, rd, st, p, vs[0])
    case (Shared(p), Ref(a)) =>
      if a in st.objs then Readable(rd, st.objs[a])
      else if a !in e.h then true
      else
        var id := |st.objs| + 1;
        var st1 := st.(objs := st.objs[a := id]);
        assert a in e.h.Keys - st.objs.Keys && a !in e.h.Keys - st1.objs.Keys;
        Readable(rd, id) && ClearTarget(e, rd, st1, p, e.h[a].x)
    case _ => true
  }

  ghost predicate ClearElems(e: Encoder, rd: Reader, st: EncState, el: Elem, vs: seq<Val>)
    decreases e.h.Keys - st.objs.Keys, vs, 0
  {
    vs == [] || (el.Named? && el.c !in e.env.types) ||
    (&& Clear(e, rd, st, ElemType(e.env, el), vs[0])
     && ClearElems(e, rd, e.Save(st, ElemType(e.env, el), vs[0]).0, el, vs[1..]))
  }

  ghost predicate ClearTuple(e: Encoder, rd: Reader, st: EncState, ts: seq<Ty>, vs: seq<Val>)
    decreases e.h.Keys - st.objs.Keys, vs, 0
  {
    vs == [] || ts == [] ||
    (Clear(e, rd, st, ts[0], vs[0]) && ClearTuple(e, rd, e.Save(st, ts[0], vs[0]).0, ts[1..], vs[1..]))
  }

  ghost predicate ClearTarget(e: Encoder, rd: Reader, st: EncState, p: Pointee, x: Val)
    decreases e.h.Keys - st.objs.Keys, x, 2
  {
    match (p, x)
    case (Static(c), _) => c in e.env.types ==> Clear(e, rd, st, e.env.types[c], x)
    case (Dynamic(_), Object(c, v)) =>
      c in e.env.types && c in e.env.hashes ==>
        ClearClass(rd, st, c) && Clear(e, rd, e.SaveClass(st, c).0, e.env.types[c], v)
    case _ => true
  }

  /** The name of a class is found again: the reader can read its length, and no zero byte ends it
      early. */
  predicate NameSurvives(rd: Reader, c: Name) {
    Readable(rd, |c|) && 0 !in c
  }

  predicate ClearClass(rd: Reader, st: EncState, c: Name) {
    if c in st.classes then Readable(rd, st.classes[c]) else Readable(rd, |st.classes|) && NameSurvives(rd, c)
  }

  // ----- Renaming -----

  type Renaming = map<Addr, Addr>

  /** `v` with every reference replaced by its image. */
  function Rename(phi: Renaming, v: Val): Val {
    match v
    case Ref(a) => if a in phi then Ref(phi[a]) else Hole
    case Items(vs) => Items(RenameAll(phi, vs))
    case Object(c, x) => Object(c, Rename(phi, x))
    case _ => v
  }

  function RenameAll(phi: Renaming, vs: seq<Val>): (r: seq<Val>)
    ensures |r| == |vs|
  {
    if vs == [] then [] else [Rename(phi, vs[0])] + RenameAll(phi, vs[1..])
  }

  /** All references in `v` are in `s`. */
  ghost predicate RefsIn(v: Val, s: set<Addr>) {
    match v
    case Ref(a) => a in s
    case Items(vs) => forall i :: 0 <= i < |vs| ==> RefsIn(vs[i], s)
    case Object(_, x) => RefsIn(x, s)
    case _ => true
  }

  ghost predicate RefsInAll(vs: seq<Val>, s: set<Addr>) {
    forall i :: 0 <= i < |vs| ==> RefsIn(vs[i], s)
  }

  ghost predicate SubMap(phi: Renaming, psi: Renaming) {
    phi.Keys <= psi.Keys && forall a :: a in phi ==> phi[a] == psi[a]
  }

  lemma {:induction false} RefsInMonotone(v: Val, s: set<Addr>, s': set<Addr>)
    requires RefsIn(v, s) && s <= s'
    ensures RefsIn(v, s')
  {
    match v
    case Items(vs) =>
      forall i | 0 <= i < |vs| ensures RefsIn(vs[i], s') {
        RefsInMonotone(vs[i], s, s');
      }
    case Object(_, x) => RefsInMonotone(x, s, s');
    case _ =>
  }

  lemma {:induction false} RenameStable(phi: Renaming, psi: Renaming, v: Val)
    requires SubMap(phi, psi) && RefsIn(v, phi.Keys)
    ensures Rename(phi, v) == Rename(psi, v)
    decreases v, 1
  {
    match v
    case Items(vs) => RenameAllStable(phi, psi, vs);
    case Object(_, x) => RenameStable(phi, psi, x);
    case _ =>
  }

  lemma {:induction false} RenameAllStable(phi: Renaming, psi: Renaming, vs: seq<Val>)
    requires SubMap(phi, psi) && RefsInAll(vs, phi.Keys)
    ensures RenameAll(phi, vs) == RenameAll(psi, vs)
    decreases vs, 0
  {
    if vs != [] {
      RenameStable(phi, psi, vs[0]);
      RenameAllStable(phi, psi, vs[1..]);
    }
  }

  // ----- Encoder and decoder in step -----

  /** The object that the decoder created for each object the encoder numbered. */
  function Phi(st: EncState, ds: DecState): Renaming {
    map a | a in st.objs && st.objs[a] < |ds.objs| :: ds.objs[st.objs[a]].ptr
  }

  /** Both numberings agree: ids are 1, 2, ... in both tables, class ids 0, 1, ..., and the
      object behind an id has the right kind. */
  ghost predicate InStep(e: Encoder, st: EncState, ds: DecState) {
    && |ds.objs| == |st.objs| + 1
    && st.objs.Keys <= e.h.Keys
    && ObjsInStep(e, st, ds)
    && DistinctInStep(st, ds)
    && ClassesInStep(e.env, st.classes, ds.classes)
  }

  ghost predicate ObjsInStep(e: Encoder, st: EncState, ds: DecState) {
    forall a :: a in st.objs ==> a in e.h && ObjInStep(e, st, ds, a)
  }

  ghost predicate DistinctInStep(st: EncState, ds: DecState) {
    forall a, b :: a in st.objs && b in st.objs && a != b ==> Distinct(st, ds, a, b)
  }

  ghost predicate Distinct(st: EncState, ds: DecState, a: Addr, b: Addr)
    requires a in st.objs && b in st.objs
  {
    && st.objs[a] != st.objs[b]
    && (st.objs[a] < |ds.objs| && st.objs[b] < |ds.objs| ==> ds.objs[st.objs[a]].ptr != ds.objs[st.objs[b]].ptr)
  }

  ghost predicate ClassesInStep(env: Env, classes: map<Name, nat>, vec: seq<Name>) {
    && |vec| == |classes|
    && (forall c :: c in classes ==> c in env.types && classes[c] < |vec| && vec[classes[c]] == c)
  }

  ghost predicate ObjInStep(e: Encoder, st: EncState, ds: DecState, a: Addr)
    requires a in st.objs && a in e.h
  {
    && 0 < st.objs[a] < |ds.objs|
    && var info := ds.objs[st.objs[a]];
    && info.tid == e.h[a].tid
    && info.ptr < |ds.heap|
    && KindOf(ds.heap[info.ptr]) == KindOf(e.h[a])
  }

  /** Tables and memory only grow, and existing memory is untouched. */
  ghost predicate Grows(st: EncState, ds: DecState, st': EncState, ds': DecState) {
    && st.objs.Keys <= st'.objs.Keys
    && (forall a :: a in st.objs ==> st'.objs[a] == st.objs[a])
    && ds.objs <= ds'.objs
    && ds.heap <= ds'.heap
    && |ds'.heap| - |ds.heap| == |st'.objs| - |st.objs|
  }

  /** The decoded copy of object `a` is finished and is its image. */
  ghost predicate Done(e: Encoder, st: EncState, ds: DecState, a: Addr)
    requires a in e.h
  {
    var phi := Phi(st, ds);
    && a in phi && phi[a] < |ds.heap|
    && RefsIn(e.h[a].x, st.objs.Keys)
    && ds.heap[phi[a]] == Cell(e.h[a].tid, Rename(phi, e.h[a].x))
  }

  /** Objects numbered between the two states are finished in the second. */
  ghost predicate NewDone(e: Encoder, st: EncState, st': EncState, ds': DecState) {
    forall a :: a in st'.objs && a !in st.objs && a in e.h ==> Done(e, st', ds', a)
  }

  /** Objects numbered between the two states live in memory allocated between them. */
  ghost predicate NewMemory(st: EncState, ds: DecState, st': EncState, ds': DecState) {
    forall a :: a in Phi(st', ds') && a !in st.objs ==> Phi(st', ds')[a] >= |ds.heap|
  }

  ghost predicate Advance(e: Encoder, st: EncState, ds: DecState, st': EncState, ds': DecState) {
    InStep(e, st', ds') && Grows(st, ds, st', ds') && NewDone(e, st, st', ds') && NewMemory(st, ds, st', ds')
  }

  lemma PhiDomain(e: Encoder, st: EncState, ds: DecState)
    requires InStep(e, st, ds)
    ensures Phi(st, ds).Keys == st.objs.Keys
  {
    forall a | a in st.objs ensures a in Phi(st, ds) {
      assert ObjInStep(e, st, ds, a);
    }
  }

  lemma PhiGrows(e: Encoder, st: EncState, ds: DecState, st': EncState, ds': DecState)
    requires InStep(e, st, ds) && InStep(e, st', ds') && Grows(st, ds, st', ds')
    ensures SubMap(Phi(st, ds), Phi(st', ds'))
  {
    PhiDomain(e, st, ds);
    PhiDomain(e, st', ds');
    forall a | a in st.objs ensures Phi(st, ds)[a] == Phi(st', ds')[a] {
      assert ObjInStep(e, st, ds, a);
    }
  }

  lemma DoneStable(e: Encoder, st: EncState, ds: DecState, st': EncState, ds': DecState, a: Addr)
    requires InStep(e, st, ds) && InStep(e, st', ds') && Grows(st, ds, st', ds')
    requires a in e.h && Done(e, st, ds, a)
    ensures Done(e, st', ds', a)
  {
    PhiGrows(e, st, ds, st', ds');
    PhiDomain(e, st, ds);
    RenameStable(Phi(st, ds), Phi(st', ds'), e.h[a].x);
    RefsInMonotone(e.h[a].x, st.objs.Keys, st'.objs.Keys);
  }

  lemma AdvanceTransitive(e: Encoder, st0: EncState, ds0: DecState, st1: EncState, ds1: DecState,
                          st2: EncState, ds2: DecState)
    requires Advance(e, st0, ds0, st1, ds1) && Advance(e, st1, ds1, st2, ds2)
    ensures Advance(e, st0, ds0, st2, ds2)
  {
    hide InStep, Done, Phi;
    forall a | a in st2.objs && a !in st0.objs && a in e.h ensures Done(e, st2, ds2, a) {
      if a in st1.objs {
        DoneStable(e, st1, ds1, st2, ds2, a);
      }
    }
    PhiGrows(e, st1, ds1, st2, ds2);
    PhiDomain(e, st1, ds1);
  }

  lemma AdvanceNothing(e: Encoder, st: EncState, ds: DecState)
    requires InStep(e, st, ds)
    ensures Advance(e, st, ds, st, ds)
  {
    PhiDomain(e, st, ds);
  }

  // ----- The induction -----

  ghost predicate Setting(e: Encoder) {
    e.env.Valid() && HeapOk(e.env, e.h) && OrderIgnoresAddresses(e.env)
  }

  /** Containers are not ordered by the addresses that their elements hold. */
  ghost predicate OrderIgnoresAddresses(env: Env) {
    forall o, phi: Renaming, a, b :: env.orders(o)(a, b) ==> env.orders(o)(Rename(phi, a), Rename(phi, b))
  }

  function DecoderFor(e: Encoder, rd: Reader): Decoder {
    Decoder(e.env, rd, e.rev)
  }

  ghost predicate TypedHere(e: Encoder, t: Ty, v: Val) {
    Typed(e.env, KindsOf(e.h), t, v)
  }

  lemma CardinalityBelow<T>(a: set<T>, b: set<T>, x: T)
    requires a <= b && x in b && x !in a
    ensures |a| < |b|
  {
    assert b == (b - a) + a;
    assert x in b - a;
  }

  lemma {:induction false} BackwardsTwice(b: seq<byte>)
    ensures Backwards(Backwards(b)) == b
  {
    if b != [] {
      BackwardsSnoc(Backwards(b[1..]), b[0]);
      BackwardsTwice(b[1..]);
    }
  }

  lemma {:induction false} BackwardsSnoc(b: seq<byte>, x: byte)
    ensures Backwards(b + [x]) == [x] + Backwards(b)
  {
    if b == [] {
      assert b + [x] == [x];
    } else {
      assert (b + [x])[1..] == b[1..] + [x];
      BackwardsSnoc(b[1..], x);
    }
  }

  lemma WireTwice(rev: bool, b: seq<byte>)
    ensures Wire(rev, Wire(rev, b)) == b
  {
    BackwardsTwice(b);
  }

  lemma TakeFront(a: seq<byte>, b: seq<byte>)
    ensures Take(a + b, |a|) == Ok((a, b))
  {
    assert (a + b)[..|a|] == a && (a + b)[|a|..] == b;
  }

  lemma TextRoundTrip(rd: Reader, s: seq<byte>, tail: seq<byte>)
    requires Readable(rd, |s|)
    ensures ReadText(rd, TextBytes(s) + tail) == Ok((s, tail))
  {
    hide VariantBytes, ReadVariant;
    assert TextBytes(s) + tail == VariantBytes(|s|) + (s + tail);
    ReadableRoundTrip(rd, |s|, s + tail);
    TakeFront(s, tail);
  }

  // ----- Class references -----

  /** A class reference is read back as the class it names, and the tables stay in step. */
  lemma ClassRoundTrip(e: Encoder, rd: Reader, st: EncState, ds: DecState, base: Name, c: Name, tail: seq<byte>)
    requires e.env.Valid() && ClassesInStep(e.env, st.classes, ds.classes) && ClearClass(rd, st, c)
    requires c in e.env.types && c in e.env.hashes && (base, c) in e.env.subclasses
    ensures var (st1, bs) := e.SaveClass(st, c);
      && st1.classes.Keys == st.classes.Keys + {c}
      && var vec := if c in st.classes then ds.classes else ds.classes + [c];
      && ClassesInStep(e.env, st1.classes, vec)
      && DecoderFor(e, rd).LoadClass(ds, Dynamic(base), bs + tail) == Ok((ds.(classes := vec), c, tail))
  {
    hide Decoder.LoadClass, VariantBytes, TextBytes, Wire, Readable, Env.Valid;
    if c in st.classes {
      SeenClassRoundTrip(e, rd, st, ds, base, c, tail);
    } else {
      FirstClassRoundTrip(e, rd, st, ds, base, c, tail);
    }
  }

  lemma SeenClassRoundTrip(e: Encoder, rd: Reader, st: EncState, ds: DecState, base: Name, c: Name, tail: seq<byte>)
    requires ClassesInStep(e.env, st.classes, ds.classes)
    requires c in st.classes && (base, c) in e.env.subclasses && Readable(rd, st.classes[c])
    ensures DecoderFor(e, rd).LoadClass(ds, Dynamic(base), VariantBytes(st.classes[c]) + tail)
         == Ok((ds.(classes := ds.classes), c, tail))
  {
    hide VariantBytes, ReadVariant, Readable;
    ReadableRoundTrip(rd, st.classes[c], tail);
  }

  lemma FirstClassRoundTrip(e: Encoder, rd: Reader, st: EncState, ds: DecState, base: Name, c: Name, tail: seq<byte>)
    requires e.env.Valid() && ClassesInStep(e.env, st.classes, ds.classes)
    requires c in e.env.hashes && c in e.env.types && c !in st.classes && (base, c) in e.env.subclasses
    requires Readable(rd, |st.classes|) && NameSurvives(rd, c)
    ensures var (st1, bs) := e.SaveClass(st, c);
      && DecoderFor(e, rd).LoadClass(ds, Dynamic(base), bs + tail)
           == Ok((ds.(classes := ds.classes + [c]), c, tail))
  {
    hide VariantBytes, ReadVariant, Readable, Env.Valid, TextBytes, Wire, Decoder.LoadNewClass;
    var id := |st.classes|;
    var hash := Wire(e.rev, e.env.hashes[c]);
    var more := TextBytes(c) + (hash + tail);
    ReadableRoundTrip(rd, id, more);
    NewClassRoundTrip(e, rd, ds, c, tail);
    var (st1, bs) := e.SaveClass(st, c);
    assert bs + tail == VariantBytes(id) + more;
    assert (ds.classes + [c])[id] == c;
  }

  lemma CardinalityLeq<T>(a: set<T>, b: set<T>)
    requires a <= b
    ensures |a| <= |b|
  {
    assert b == (b - a) + a;
  }

  lemma NewClassRoundTrip(e: Encoder, rd: Reader, ds: DecState, c: Name, tail: seq<byte>)
    requires e.env.Valid() && c in e.env.types && NameSurvives(rd, c)
    ensures DecoderFor(e, rd).LoadNewClass(ds, TextBytes(c) + (Wire(e.rev, e.env.hashes[c]) + tail))
         == Ok((ds.(classes := ds.classes + [c]), tail))
  {
    hide TextBytes, ReadText, Readable, CString;
    var hash := Wire(e.rev, e.env.hashes[c]);
    TextRoundTrip(rd, c, hash + tail);
    TakeFront(hash, tail);
    WireTwice(e.rev, e.env.hashes[c]);
  }

  // ----- Targets of pointers -----

  function ClassOf(p: Pointee, x: Val): Name {
    match p case Static(c) => c case Dynamic(_) => if x.Object? then x.cls else []
  }

  function Inner(p: Pointee, x: Val): Val {
    if p.Dynamic? && x.Object? then x.v else x
  }

  /** What precedes the content of a pointer target: nothing, or a class reference. */
  function SaveHeader(e: Encoder, st: EncState, p: Pointee, x: Val): (EncState, seq<byte>) {
    if p.Dynamic? && ClassOf(p, x) in e.env.hashes then e.SaveClass(st, ClassOf(p, x)) else (st, [])
  }

  function ClassesAfter(st: EncState, ds: DecState, p: Pointee, x: Val): seq<Name> {
    if p.Dynamic? && ClassOf(p, x) !in st.classes then ds.classes + [ClassOf(p, x)] else ds.classes
  }

  lemma TargetParts(e: Encoder, st: EncState, p: Pointee, x: Val)
    requires e.env.Valid() && TypedTarget(e.env, KindsOf(e.h), p, x)
    ensures ClassOf(p, x) in e.env.types
    ensures TypedHere(e, e.env.types[ClassOf(p, x)], Inner(p, x))
    ensures Built(p, ClassOf(p, x), Inner(p, x)) == x
    ensures var (st1, hb) := SaveHeader(e, st, p, x);
      var (st2, b) := e.Save(st1, e.env.types[ClassOf(p, x)], Inner(p, x));
      e.SaveTarget(st, p, x) == (st2, hb + b)
  {
    hide Encoder.Save, Encoder.SaveClass, Typed;
    if p.Static? {
      var (st2, b) := e.Save(st, e.env.types[p.c], x);
      assert [] + b == b;
    }
  }

  lemma HeaderRoundTrip(e: Encoder, rd: Reader, st: EncState, ds: DecState, p: Pointee, x: Val, tail: seq<byte>)
    requires e.env.Valid() && ClassesInStep(e.env, st.classes, ds.classes)
    requires TypedTarget(e.env, KindsOf(e.h), p, x) && ClearHeader(rd, st, p, x)
    ensures DecoderFor(e, rd).LoadClass(ds, p, SaveHeader(e, st, p, x).1 + tail)
         == Ok((ds.(classes := ClassesAfter(st, ds, p, x)), ClassOf(p, x), tail))
  {
    hide Encoder.SaveClass, Typed, ClearClass;
    if p.Dynamic? {
      hide Decoder.LoadClass;
      ClassRoundTrip(e, rd, st, ds, p.base, x.cls, tail);
    } else {
      assert [] + tail == tail;
    }
  }

  /** The class tables stay in step over the header, whatever the reader makes of it. */
  lemma HeaderInStep(e: Encoder, st: EncState, ds: DecState, p: Pointee, x: Val)
    requires e.env.Valid() && ClassesInStep(e.env, st.classes, ds.classes)
    requires TypedTarget(e.env, KindsOf(e.h), p, x)
    ensures var st1 := SaveHeader(e, st, p, x).0;
      st1.objs == st.objs && ClassesInStep(e.env, st1.classes, ClassesAfter(st, ds, p, x))
  {
    hide Typed;
  }

  /** The class id in front of a dynamic object is readable, and the name of a new class survives. */
  predicate ClearHeader(rd: Reader, st: EncState, p: Pointee, x: Val) {
    p.Dynamic? ==> ClearClass(rd, st, ClassOf(p, x))
  }

  lemma ClearParts(e: Encoder, rd: Reader, st: EncState, p: Pointee, x: Val)
    requires e.env.Valid() && TypedTarget(e.env, KindsOf(e.h), p, x)
    ensures ClassOf(p, x) in e.env.types
    ensures ClearTarget(e, rd, st, p, x) <==>
      ClearHeader(rd, st, p, x) && Clear(e, rd, SaveHeader(e, st, p, x).0, e.env.types[ClassOf(p, x)], Inner(p, x))
  {
    hide Clear, ClearClass, Typed, Encoder.SaveClass;
  }

  // ----- Saving then loading -----

  ghost predicate RoundTrips(e: Encoder, rd: Reader, st: EncState, ds: DecState, t: Ty, v: Val,
                             tail: seq<byte>, ds': DecState) {
    var (st', bs) := e.Save(st, t, v);
    && Advance(e, st, ds, st', ds')
    && RefsIn(v, st'.objs.Keys)
    && DecoderFor(e, rd).Load(ds, t, bs + tail) == Ok((ds', Rename(Phi(st', ds'), v), tail))
  }

  ghost predicate RoundTripsElems(e: Encoder, rd: Reader, st: EncState, ds: DecState, el: Elem, vs: seq<Val>,
                                  tail: seq<byte>, ds': DecState) {
    var (st', bs) := e.SaveElems(st, el, vs);
    && Advance(e, st, ds, st', ds')
    && RefsInAll(vs, st'.objs.Keys)
    && DecoderFor(e, rd).LoadElems(ds, el, |vs|, bs + tail) == Ok((ds', RenameAll(Phi(st', ds'), vs), tail))
  }

  ghost predicate RoundTripsTuple(e: Encoder, rd: Reader, st: EncState, ds: DecState, ts: seq<Ty>, vs: seq<Val>,
                                  tail: seq<byte>, ds': DecState) {
    var (st', bs) := e.SaveTuple(st, ts, vs);
    && Advance(e, st, ds, st', ds')
    && RefsInAll(vs, st'.objs.Keys)
    && DecoderFor(e, rd).LoadTuple(ds, ts, bs + tail) == Ok((ds', RenameAll(Phi(st', ds'), vs), tail))
  }

  /** The first of several values keeps its image while the rest is processed. */
  lemma FirstStays(e: Encoder, st0: EncState, ds0: DecState, st1: EncState, ds1: DecState,
                   st2: EncState, ds2: DecState, v: Val)
    requires InStep(e, st0, ds0)
    requires Advance(e, st0, ds0, st1, ds1) && Advance(e, st1, ds1, st2, ds2)
    requires RefsIn(v, st1.objs.Keys)
    ensures Advance(e, st0, ds0, st2, ds2)
    ensures RefsIn(v, st2.objs.Keys) && Rename(Phi(st1, ds1), v) == Rename(Phi(st2, ds2), v)
  {
    AdvanceTransitive(e, st0, ds0, st1, ds1, st2, ds2);
    PhiGrows(e, st1, ds1, st2, ds2);
    PhiDomain(e, st1, ds1);
    RenameStable(Phi(st1, ds1), Phi(st2, ds2), v);
    RefsInMonotone(v, st1.objs.Keys, st2.objs.Keys);
  }

  lemma ConsRoundTrips(e: Encoder, rd: Reader, st: EncState, ds: DecState, el: Elem, vs: seq<Val>,
                       tail: seq<byte>, ds1: DecState, ds': DecState)
    requires InStep(e, st, ds) && vs != [] && (el.Named? ==> el.c in e.env.types)
    requires var (st1, b1) := e.Save(st, ElemType(e.env, el), vs[0]);
      var (st2, b2) := e.SaveElems(st1, el, vs[1..]);
      RoundTrips(e, rd, st, ds, ElemType(e.env, el), vs[0], b2 + tail, ds1)
      && RoundTripsElems(e, rd, st1, ds1, el, vs[1..], tail, ds')
    ensures RoundTripsElems(e, rd, st, ds, el, vs, tail, ds')
  {
    hide InStep, Advance, Encoder.Save, Decoder.Load, Rename, RefsIn, Phi;
    var (st1, b1) := e.Save(st, ElemType(e.env, el), vs[0]);
    var (st2, b2) := e.SaveElems(st1, el, vs[1..]);
    FirstStays(e, st, ds, st1, ds1, st2, ds', vs[0]);
    assert b1 + b2 + tail == b1 + (b2 + tail);
  }

  lemma ConsRoundTripsTuple(e: Encoder, rd: Reader, st: EncState, ds: DecState, ts: seq<Ty>, vs: seq<Val>,
                            tail: seq<byte>, ds1: DecState, ds': DecState)
    requires InStep(e, st, ds) && vs != [] && ts != []
    requires var (st1, b1) := e.Save(st, ts[0], vs[0]);
      var (st2, b2) := e.SaveTuple(st1, ts[1..], vs[1..]);
      RoundTrips(e, rd, st, ds, ts[0], vs[0], b2 + tail, ds1)
      && RoundTripsTuple(e, rd, st1, ds1, ts[1..], vs[1..], tail, ds')
    ensures RoundTripsTuple(e, rd, st, ds, ts, vs, tail, ds')
  {
    hide InStep, Advance, Encoder.Save, Decoder.Load, Rename, RefsIn, Phi;
    var (st1, b1) := e.Save(st, ts[0], vs[0]);
    var (st2, b2) := e.SaveTuple(st1, ts[1..], vs[1..]);
    FirstStays(e, st, ds, st1, ds1, st2, ds', vs[0]);
    assert b1 + b2 + tail == b1 + (b2 + tail);
  }

  lemma NilRoundTrips(e: Encoder, rd: Reader, st: EncState, ds: DecState, el: Elem, tail: seq<byte>)
    requires InStep(e, st, ds)
    ensures RoundTripsElems(e, rd, st, ds, el, [], tail, ds)
    ensures RoundTripsTuple(e, rd, st, ds, [], [], tail, ds)
  {
    hide InStep, Advance;
    AdvanceNothing(e, st, ds);
    assert [] + tail == tail;
  }

  lemma {:induction false} ElemsThenLoad(e: Encoder, rd: Reader, st: EncState, ds: DecState, el: Elem, vs: seq<Val>,
                                         tail: seq<byte>) returns (ds': DecState)
    requires Setting(e) && InStep(e, st, ds)
    requires TypedElems(e.env, KindsOf(e.h), el, vs) && ClearElems(e, rd, st, el, vs)
    ensures RoundTripsElems(e, rd, st, ds, el, vs, tail, ds')
    decreases e.h.Keys - st.objs.Keys, vs, 0
  {
    hide Setting, InStep, Encoder.Save, Encoder.SaveElems, Typed, Clear, RoundTrips, RoundTripsElems;
    if vs == [] {
      ds' := ds;
      NilRoundTrips(e, rd, st, ds, el, tail);
    } else {
      var (st1, b1) := e.Save(st, ElemType(e.env, el), vs[0]);
      var (st2, b2) := e.SaveElems(st1, el, vs[1..]);
      var ds1 := SaveThenLoad(e, rd, st, ds, ElemType(e.env, el), vs[0], b2 + tail);
      RoundTripsInStep(e, rd, st, ds, ElemType(e.env, el), vs[0], b2 + tail, ds1);
      ds' := ElemsThenLoad(e, rd, st1, ds1, el, vs[1..], tail);
      ConsRoundTrips(e, rd, st, ds, el, vs, tail, ds1, ds');
    }
  }

  lemma RoundTripsInStep(e: Encoder, rd: Reader, st: EncState, ds: DecState, t: Ty, v: Val, tail: seq<byte>, ds': DecState)
    requires RoundTrips(e, rd, st, ds, t, v, tail, ds')
    ensures InStep(e, e.Save(st, t, v).0, ds')
  {
    hide InStep, Encoder.Save, Decoder.Load;
  }

  lemma {:induction false} TupleThenLoad(e: Encoder, rd: Reader, st: EncState, ds: DecState, ts: seq<Ty>, vs: seq<Val>,
                                         tail: seq<byte>) returns (ds': DecState)
    requires Setting(e) && InStep(e, st, ds)
    requires |ts| == |vs| && TypedTuple(e.env, KindsOf(e.h), ts, vs) && ClearTuple(e, rd, st, ts, vs)
    ensures RoundTripsTuple(e, rd, st, ds, ts, vs, tail, ds')
    decreases e.h.Keys - st.objs.Keys, vs, 0
  {
    hide Setting, InStep, Encoder.Save, Encoder.SaveTuple, Typed, Clear, RoundTrips, RoundTripsTuple;
    if vs == [] {
      ds' := ds;
      NilRoundTrips(e, rd, st, ds, Named([]), tail);
    } else {
      var (st1, b1) := e.Save(st, ts[0], vs[0]);
      var (st2, b2) := e.SaveTuple(st1, ts[1..], vs[1..]);
      var ds1 := SaveThenLoad(e, rd, st, ds, ts[0], vs[0], b2 + tail);
      RoundTripsInStep(e, rd, st, ds, ts[0], vs[0], b2 + tail, ds1);
      ds' := TupleThenLoad(e, rd, st1, ds1, ts[1..], vs[1..], tail);
      ConsRoundTripsTuple(e, rd, st, ds, ts, vs, tail, ds1, ds');
    }
  }

  // ----- One lemma per kind of value -----

  /** A size followed by the elements; a container of unique keys is rebuilt in order. */
  lemma CountedRoundTrips(e: Encoder, rd: Reader, st: EncState, ds: DecState, el: Elem, o: Order, vs: seq<Val>,
                          tail: seq<byte>, ds': DecState)
    requires RoundTripsElems(e, rd, st, ds, el, vs, tail, ds') && Readable(rd, |vs|)
    ensures RoundTrips(e, rd, st, ds, Sequence(el), Items(vs), tail, ds')
    ensures StrictlyAscending(e.env.orders(o), vs) && OrderIgnoresAddresses(e.env) ==>
      RoundTrips(e, rd, st, ds, Assoc(el, o), Items(vs), tail, ds')
  {
    hide Advance, Encoder.SaveElems, Decoder.LoadElems, VariantBytes, ReadVariant, Readable, RenameAll, Phi;
    var (st', bs) := e.SaveElems(st, el, vs);
    ReadableRoundTrip(rd, |vs|, bs + tail);
    assert VariantBytes(|vs|) + bs + tail == VariantBytes(|vs|) + (bs + tail);
    if StrictlyAscending(e.env.orders(o), vs) && OrderIgnoresAddresses(e.env) {
      RebuildAscending(e.env, o, Phi(st', ds'), vs);
    }
  }

  lemma {:induction false} RenameAllAt(phi: Renaming, vs: seq<Val>, i: nat)
    requires i < |vs|
    ensures RenameAll(phi, vs)[i] == Rename(phi, vs[i])
  {
    if i > 0 {
      RenameAllAt(phi, vs[1..], i - 1);
    }
  }

  lemma RebuildAscending(env: Env, o: Order, phi: Renaming, vs: seq<Val>)
    requires StrictlyAscending(env.orders(o), vs) && OrderIgnoresAddresses(env)
    ensures InsertAll(env.orders(o), [], RenameAll(phi, vs)) == RenameAll(phi, vs)
  {
    hide RenameAll, InsertAll, Rename;
    var image := RenameAll(phi, vs);
    forall i, j | 0 <= i < j < |image| ensures env.orders(o)(image[i], image[j]) {
      RenameAllAt(phi, vs, i);
      RenameAllAt(phi, vs, j);
      assert env.orders(o)(vs[i], vs[j]);
    }
    assert [] + image == image;
    InsertAscending(env.orders(o), [], image);
  }

  lemma {:induction false} InsertAscending(less: (Val, Val) -> bool, acc: seq<Val>, vs: seq<Val>)
    requires StrictlyAscending(less, acc + vs)
    ensures InsertAll(less, acc, vs) == acc + vs
    decreases |vs|
  {
    if vs == [] {
      assert acc + vs == acc;
    } else {
      assert (acc + vs)[|acc|] == vs[0];
      forall i | 0 <= i < |acc| ensures less(acc[i], vs[0]) {
        assert (acc + vs)[i] == acc[i];
      }
      FlatTree.InsertUniqueAppends(less, acc, vs[0]);
      assert acc + [vs[0]] + vs[1..] == acc + vs;
      InsertAscending(less, acc + [vs[0]], vs[1..]);
    }
  }

  lemma ArrayRoundTrips(e: Encoder, rd: Reader, st: EncState, ds: DecState, t: Ty, vs: seq<Val>,
                        tail: seq<byte>, ds': DecState)
    requires RoundTripsElems(e, rd, st, ds, Inline(t), vs, tail, ds')
    ensures RoundTrips(e, rd, st, ds, Array(|vs|, t), Items(vs), tail, ds')
  {
    hide Advance, Encoder.SaveElems, Decoder.LoadElems, RenameAll, Phi;
  }

  lemma ClassRoundTrips(e: Encoder, rd: Reader, st: EncState, ds: DecState, ts: seq<Ty>, vs: seq<Val>,
                        tail: seq<byte>, ds': DecState)
    requires RoundTripsTuple(e, rd, st, ds, ts, vs, tail, ds')
    ensures RoundTrips(e, rd, st, ds, Tuple(ts), Items(vs), tail, ds')
  {
    hide Advance, Encoder.SaveTuple, Decoder.LoadTuple, RenameAll, Phi;
  }

  lemma ScalarRoundTrips(e: Encoder, rd: Reader, st: EncState, ds: DecState, b: seq<byte>, tail: seq<byte>)
    requires InStep(e, st, ds)
    ensures RoundTrips(e, rd, st, ds, Scalar(|b|), Bits(b), tail, ds)
  {
    hide InStep, Advance;
    AdvanceNothing(e, st, ds);
    TakeFront(Wire(e.rev, b), tail);
    WireTwice(e.rev, b);
  }

  lemma RenameOne(phi: Renaming, v: Val)
    ensures Rename(phi, Items([v])) == Items([Rename(phi, v)])
    ensures Rename(phi, Items([])) == Items([])
  {
    assert RenameAll(phi, [v]) == [Rename(phi, v)] + RenameAll(phi, [v][1..]);
    assert [v][1..] == [] && RenameAll(phi, []) == [];
    assert [Rename(phi, v)] + [] == [Rename(phi, v)];
  }

  lemma AbsentRoundTrips(e: Encoder, rd: Reader, st: EncState, ds: DecState, t: Ty, p: Pointee, tail: seq<byte>)
    requires InStep(e, st, ds)
    ensures RoundTrips(e, rd, st, ds, Optional(t), Items([]), tail, ds)
    ensures RoundTrips(e, rd, st, ds, Unique(p), Items([]), tail, ds)
  {
    hide InStep, Advance;
    AdvanceNothing(e, st, ds);
    TakeFront([0], tail);
    RenameOne(Phi(st, ds), Null);
  }

  lemma PresentUnfolds(e: Encoder, d: Decoder, st: EncState, ds: DecState, t: Ty, v: Val, bs: seq<byte>)
    ensures e.Save(st, Optional(t), Items([v])) == (e.Save(st, t, v).0, [1] + e.Save(st, t, v).1)
    ensures d.Load(ds, t, bs).Ok? ==>
      d.Load(ds, Optional(t), [1] + bs)
        == Ok((d.Load(ds, t, bs).value.0, Items([d.Load(ds, t, bs).value.1]), d.Load(ds, t, bs).value.2))
  {
    TakeFront([1], bs);
  }

  lemma PresentRoundTrips(e: Encoder, rd: Reader, st: EncState, ds: DecState, t: Ty, v: Val, tail: seq<byte>, ds': DecState)
    requires RoundTrips(e, rd, st, ds, t, v, tail, ds')
    ensures RoundTrips(e, rd, st, ds, Optional(t), Items([v]), tail, ds')
  {
    hide Advance, Encoder.Save, Decoder.Load, Rename, Phi;
    var (st', bs) := e.Save(st, t, v);
    PresentUnfolds(e, DecoderFor(e, rd), st, ds, t, v, bs + tail);
    assert [1] + bs + tail == [1] + (bs + tail);
    RenameOne(Phi(st', ds'), v);
    RefsInOne(v, st'.objs.Keys);
  }

  lemma RefsInOne(v: Val, s: set<Addr>)
    ensures RefsIn(v, s) ==> RefsIn(Items([v]), s)
  {
  }

  // ----- Unique pointers -----

  lemma HeaderAdvances(e: Encoder, st: EncState, ds: DecState, st1: EncState, ds1: DecState)
    requires InStep(e, st, ds) && st1.objs == st.objs
    requires ds1 == ds.(classes := ds1.classes) && ClassesInStep(e.env, st1.classes, ds1.classes)
    ensures Advance(e, st, ds, st1, ds1)
  {
    hide ClassesInStep, KindOf, Done;
    assert ObjsInStep(e, st1, ds1) by {
      hide DistinctInStep;
      forall a | a in st1.objs ensures a in e.h && ObjInStep(e, st1, ds1, a) {
        assert ObjInStep(e, st, ds, a);
      }
    }
    hide ObjInStep, ObjsInStep;
    assert DistinctInStep(st1, ds1) by {
      forall a, b | a in st1.objs && b in st1.objs && a != b ensures Distinct(st1, ds1, a, b) {
        assert Distinct(st, ds, a, b);
      }
    }
    hide DistinctInStep;
    PhiDomain(e, st1, ds1);
  }

  lemma AdvanceInStep(e: Encoder, st: EncState, ds: DecState, st': EncState, ds': DecState)
    requires Advance(e, st, ds, st', ds')
    ensures InStep(e, st', ds')
  {
  }

  lemma InStepClasses(e: Encoder, st: EncState, ds: DecState)
    requires InStep(e, st, ds)
    ensures ClassesInStep(e.env, st.classes, ds.classes)
  {
  }

  lemma OwnedUnfolds(e: Encoder, d: Decoder, st: EncState, ds: DecState, p: Pointee, x: Val, bs: seq<byte>)
    ensures e.Save(st, Unique(p), Items([x])) == (e.SaveTarget(st, p, x).0, [1] + e.SaveTarget(st, p, x).1)
    ensures var h := d.LoadClass(ds, p, bs);
      h.Ok? && h.value.1 in d.env.types && d.Load(h.value.0, d.env.types[h.value.1], h.value.2).Ok? ==>
        var r := d.Load(h.value.0, d.env.types[h.value.1], h.value.2).value;
        d.Load(ds, Unique(p), [1] + bs) == Ok((r.0, Items([Built(p, h.value.1, r.1)]), r.2))
  {
    hide Encoder.SaveTarget, Decoder.LoadClass;
    TakeFront([1], bs);
  }

  /** The bytes of an owned object, and what loading them does, in terms of its content. */
  lemma OwnedBytes(e: Encoder, rd: Reader, st: EncState, ds: DecState, p: Pointee, x: Val, tail: seq<byte>,
                   ds': DecState, v: Val)
    requires Setting(e) && ClassesInStep(e.env, st.classes, ds.classes)
    requires TypedTarget(e.env, KindsOf(e.h), p, x) && ClassOf(p, x) in e.env.types && ClearHeader(rd, st, p, x)
    requires var t := e.env.types[ClassOf(p, x)];
      DecoderFor(e, rd).Load(ds.(classes := ClassesAfter(st, ds, p, x)), t,
                             e.Save(SaveHeader(e, st, p, x).0, t, Inner(p, x)).1 + tail) == Ok((ds', v, tail))
    ensures var t := e.env.types[ClassOf(p, x)];
      e.Save(st, Unique(p), Items([x])).0 == e.Save(SaveHeader(e, st, p, x).0, t, Inner(p, x)).0
    ensures DecoderFor(e, rd).Load(ds, Unique(p), e.Save(st, Unique(p), Items([x])).1 + tail)
         == Ok((ds', Items([Built(p, ClassOf(p, x), v)]), tail))
  {
    hide Setting, Encoder.Save, Encoder.SaveTarget, Decoder.Load, Decoder.LoadClass, SaveHeader, Typed, TypedTarget,
      ClassesAfter, ClassesInStep, Built, ClassOf, Inner, ClearHeader;
    var c := ClassOf(p, x);
    SettingValid(e);
    TargetParts(e, st, p, x);
    var (st1, hb) := SaveHeader(e, st, p, x);
    var (st2, b) := e.Save(st1, e.env.types[c], Inner(p, x));
    HeaderRoundTrip(e, rd, st, ds, p, x, b + tail);
    OwnedUnfolds(e, DecoderFor(e, rd), st, ds, p, x, hb + (b + tail));
    assert [1] + (hb + b) + tail == [1] + (hb + (b + tail));
  }

  lemma OwnedRoundTrips(e: Encoder, rd: Reader, st: EncState, ds: DecState, p: Pointee, x: Val,
                        tail: seq<byte>, ds': DecState)
    requires Setting(e) && InStep(e, st, ds) && TypedTarget(e.env, KindsOf(e.h), p, x)
    requires ClassOf(p, x) in e.env.types && ClearHeader(rd, st, p, x)
    requires RoundTrips(e, rd, SaveHeader(e, st, p, x).0, ds.(classes := ClassesAfter(st, ds, p, x)),
                        e.env.types[ClassOf(p, x)], Inner(p, x), tail, ds')
    ensures RoundTrips(e, rd, st, ds, Unique(p), Items([x]), tail, ds')
  {
    hide Setting, InStep, Advance, Encoder.Save, Decoder.Load, Rename, RefsIn, Phi, SaveHeader, Typed, TypedTarget,
      ClassesAfter, ClassesInStep, Built, ClassOf, Inner, ClearHeader;
    SettingValid(e);
    TargetParts(e, st, p, x);
    InStepClasses(e, st, ds);
    HeaderInStep(e, st, ds, p, x);
    var st1, ds1 := SaveHeader(e, st, p, x).0, ds.(classes := ClassesAfter(st, ds, p, x));
    var (st2, b) := e.Save(st1, e.env.types[ClassOf(p, x)], Inner(p, x));
    HeaderAdvances(e, st, ds, st1, ds1);
    AdvanceTransitive(e, st, ds, st1, ds1, st2, ds');
    OwnedBytes(e, rd, st, ds, p, x, tail, ds', Rename(Phi(st2, ds'), Inner(p, x)));
    RenameOne(Phi(st2, ds'), x);
    RenameBuilt(Phi(st2, ds'), p, x);
    RefsInInner(p, x, st2.objs.Keys);
    RefsInOne(x, st2.objs.Keys);
  }

  lemma SettingValid(e: Encoder)
    requires Setting(e)
    ensures e.env.Valid()
  {
  }

  lemma RenameBuilt(phi: Renaming, p: Pointee, x: Val)
    requires Built(p, ClassOf(p, x), Inner(p, x)) == x
    ensures Built(p, ClassOf(p, x), Rename(phi, Inner(p, x))) == Rename(phi, x)
  {
  }

  lemma RefsInInner(p: Pointee, x: Val, s: set<Addr>)
    requires RefsIn(Inner(p, x), s) && Built(p, ClassOf(p, x), Inner(p, x)) == x
    ensures RefsIn(x, s)
  {
  }

  // ----- Shared pointers -----

  lemma ZeroReadable(rd: Reader)
    ensures Readable(rd, 0)
  {
    SmallestFailure([]);
  }

  lemma InStepObj(e: Encoder, st: EncState, ds: DecState, a: Addr)
    requires InStep(e, st, ds)
    ensures |ds.objs| == |st.objs| + 1 && st.objs.Keys <= e.h.Keys
    ensures a in st.objs ==>
      && a in e.h && 0 < st.objs[a] < |ds.objs| && a in Phi(st, ds)
      && Phi(st, ds)[a] == ds.objs[st.objs[a]].ptr < |ds.heap|
      && ds.objs[st.objs[a]].tid == e.h[a].tid
      && KindOf(ds.heap[ds.objs[st.objs[a]].ptr]) == KindOf(e.h[a])
  {
    if a in st.objs {
      assert ObjInStep(e, st, ds, a);
    }
  }

  lemma HeldIsCompatible(env: Env, heap: seq<Cell>, info: ObjInfo, p: Pointee, cell: Cell)
    requires Holds(env, p, KindOf(cell)) && info.tid == cell.tid
    requires info.ptr < |heap| && KindOf(heap[info.ptr]) == KindOf(cell)
    ensures Compatible(env, heap, info, p)
  {
  }

  lemma BackReferenceUnfolds(e: Encoder, d: Decoder, st: EncState, ds: DecState, p: Pointee, a: Addr, bs: seq<byte>,
                             id: nat, rest: seq<byte>)
    requires a in st.objs && ReadVariant(d.rd, bs) == Ok((id, rest)) && 0 < id < |ds.objs|
    requires Compatible(d.env, ds.heap, ds.objs[id], p)
    ensures e.Save(st, Shared(p), Ref(a)) == (st, VariantBytes(st.objs[a]))
    ensures d.Load(ds, Shared(p), bs) == Ok((ds, Ref(ds.objs[id].ptr), rest))
  {
    hide VariantBytes, ReadVariant, Compatible;
  }

  lemma KnownRoundTrips(e: Encoder, rd: Reader, st: EncState, ds: DecState, p: Pointee, a: Addr, tail: seq<byte>)
    requires InStep(e, st, ds)
    requires a in st.objs && a in e.h && Holds(e.env, p, KindOf(e.h[a])) && Readable(rd, st.objs[a])
    ensures RoundTrips(e, rd, st, ds, Shared(p), Ref(a), tail, ds)
  {
    hide InStep, Advance, VariantBytes, ReadVariant, Readable, Encoder.Save, Decoder.Load, Compatible, Holds, KindOf, Phi;
    InStepObj(e, st, ds, a);
    HeldIsCompatible(e.env, ds.heap, ds.objs[st.objs[a]], p, e.h[a]);
    AdvanceNothing(e, st, ds);
    ReadableRoundTrip(rd, st.objs[a], tail);
    BackReferenceUnfolds(e, DecoderFor(e, rd), st, ds, p, a, VariantBytes(st.objs[a]) + tail, st.objs[a], tail);
  }

  lemma NullUnfolds(e: Encoder, d: Decoder, st: EncState, ds: DecState, p: Pointee, bs: seq<byte>, rest: seq<byte>)
    requires ReadVariant(d.rd, bs) == Ok((0, rest))
    ensures e.Save(st, Shared(p), Null) == (st, VariantBytes(0))
    ensures d.Load(ds, Shared(p), bs) == Ok((ds, Null, rest))
  {
    hide VariantBytes, ReadVariant;
  }

  lemma NullRoundTrips(e: Encoder, rd: Reader, st: EncState, ds: DecState, p: Pointee, tail: seq<byte>)
    requires InStep(e, st, ds)
    ensures RoundTrips(e, rd, st, ds, Shared(p), Null, tail, ds)
  {
    hide InStep, Advance, VariantBytes, ReadVariant, Readable, Encoder.Save, Decoder.Load, Phi;
    AdvanceNothing(e, st, ds);
    ZeroReadable(rd);
    ReadableRoundTrip(rd, 0, tail);
    NullUnfolds(e, DecoderFor(e, rd), st, ds, p, VariantBytes(0) + tail, tail);
  }

  /** A new object: numbered by the encoder, created and published by the decoder. */
  ghost predicate Published(e: Encoder, st: EncState, ds: DecState, st1: EncState, ds2: DecState, a: Addr, cell: Cell)
    requires a in e.h
  {
    && a !in st.objs
    && st1.objs == st.objs[a := |st.objs| + 1]
    && ds2.objs == ds.objs + [ObjInfo(|ds.heap|, e.h[a].tid)]
    && ds2.heap == ds.heap + [cell]
    && KindOf(cell) == KindOf(e.h[a])
    && ClassesInStep(e.env, st1.classes, ds2.classes)
  }

  lemma PublishedObj(e: Encoder, st: EncState, ds: DecState, st1: EncState, ds2: DecState, a: Addr, cell: Cell, b: Addr)
    requires InStep(e, st, ds) && a in e.h && Published(e, st, ds, st1, ds2, a, cell)
    requires b in st1.objs
    ensures b in e.h && ObjInStep(e, st1, ds2, b)
    ensures b != a ==> b in st.objs && st1.objs[b] == st.objs[b] < st1.objs[a] && st1.objs[b] < |ds.objs|
                       && ds2.objs[st1.objs[b]] == ds.objs[st.objs[b]] && ds2.objs[st1.objs[b]].ptr < |ds.heap|
    ensures b == a ==> st1.objs[b] == |ds.objs| && ds2.objs[st1.objs[b]].ptr == |ds.heap|
  {
    hide InStep, KindOf, ClassesInStep;
    InStepObj(e, st, ds, b);
  }

  lemma PublishedDistinct(e: Encoder, st: EncState, ds: DecState, st1: EncState, ds2: DecState, a: Addr, cell: Cell,
                          b: Addr, c: Addr)
    requires InStep(e, st, ds) && a in e.h && Published(e, st, ds, st1, ds2, a, cell)
    requires b in st1.objs && c in st1.objs && b != c
    ensures Distinct(st1, ds2, b, c)
  {
    hide KindOf, ObjInStep, Published, ObjsInStep, ClassesInStep;
    PublishedObj(e, st, ds, st1, ds2, a, cell, b);
    PublishedObj(e, st, ds, st1, ds2, a, cell, c);
    if b != a && c != a {
      assert Distinct(st, ds, b, c);
    }
  }

  lemma MapInsert<K, V>(m: map<K, V>, m': map<K, V>, k: K, v: V)
    requires k !in m && m' == m[k := v]
    ensures m'.Keys == m.Keys + {k} && |m'| == |m| + 1
    ensures forall a :: a in m ==> m'[a] == m[a]
  {
  }

  lemma PublishedKeys(e: Encoder, st: EncState, ds: DecState, st1: EncState, ds2: DecState, a: Addr, cell: Cell)
    requires a in e.h && Published(e, st, ds, st1, ds2, a, cell)
    ensures a in st1.objs && st1.objs.Keys == st.objs.Keys + {a} && |st1.objs| == |st.objs| + 1
    ensures Grows(st, ds, st1, ds2) && |ds2.objs| == |ds.objs| + 1 && |ds2.heap| == |ds.heap| + 1
    ensures ClassesInStep(e.env, st1.classes, ds2.classes)
  {
    hide KindOf, ClassesInStep, Grows;
    MapInsert(st.objs, st1.objs, a, |st.objs| + 1);
    PrefixAppend(ds.objs, ds2.objs, ObjInfo(|ds.heap|, e.h[a].tid));
    PrefixAppend(ds.heap, ds2.heap, cell);
    GrowsIf(st, ds, st1, ds2);
  }

  lemma GrowsIf(st: EncState, ds: DecState, st': EncState, ds': DecState)
    requires st.objs.Keys <= st'.objs.Keys
    requires forall a :: a in st.objs ==> st'.objs[a] == st.objs[a]
    requires ds.objs <= ds'.objs && ds.heap <= ds'.heap
    requires |ds'.heap| - |ds.heap| == |st'.objs| - |st.objs|
    ensures Grows(st, ds, st', ds')
  {
  }

  lemma PrefixAppend<T>(s: seq<T>, s': seq<T>, x: T)
    requires s' == s + [x]
    ensures s <= s' && |s'| == |s| + 1
  {
  }

  lemma PublishInStep(e: Encoder, st: EncState, ds: DecState, st1: EncState, ds2: DecState, a: Addr, cell: Cell)
    requires InStep(e, st, ds) && a in e.h && Published(e, st, ds, st1, ds2, a, cell)
    ensures InStep(e, st1, ds2) && Grows(st, ds, st1, ds2)
    ensures a in Phi(st1, ds2) && Phi(st1, ds2)[a] == |ds.heap| < |ds2.heap|
  {
    hide ObjInStep, Published, Distinct, ClassesInStep, Grows;
    PublishedKeys(e, st, ds, st1, ds2, a, cell);
    assert ObjsInStep(e, st1, ds2) by {
      hide InStep;
      forall b | b in st1.objs ensures b in e.h && ObjInStep(e, st1, ds2, b) {
        PublishedObj(e, st, ds, st1, ds2, a, cell, b);
      }
    }
    assert DistinctInStep(st1, ds2) by {
      hide InStep;
      forall b, c | b in st1.objs && c in st1.objs && b != c ensures Distinct(st1, ds2, b, c) {
        PublishedDistinct(e, st, ds, st1, ds2, a, cell, b, c);
      }
    }
    hide ObjsInStep, DistinctInStep;
    PublishedObj(e, st, ds, st1, ds2, a, cell, a);
    InStepObj(e, st1, ds2, a);
  }

  lemma PublishDoes(e: Encoder, rd: Reader, st: EncState, ds: DecState, st1: EncState, ds1: DecState, p: Pointee, a: Addr)
    requires a in e.h && a !in st.objs && Holds(e.env, p, KindOf(e.h[a]))
    requires st1.objs == st.objs[a := |st.objs| + 1] && ClassesInStep(e.env, st1.classes, ds1.classes)
    requires ds1.objs == ds.objs && ds1.heap == ds.heap
    ensures var c := ClassOf(p, e.h[a].x);
      Published(e, st, ds, st1, DecoderFor(e, rd).Publish(ds1, p, c), a, NewCell(p, c))
  {
    hide ClassesInStep;
  }

  /** When its content has been decoded, the new object is finished: `ds4` is `ds3` with the
      image of object `a` in place. */
  ghost predicate Filled(e: Encoder, st3: EncState, ds3: DecState, ds4: DecState, a: Addr, ptr: Addr)
    requires a in e.h
  {
    && ptr < |ds3.heap|
    && ds4 == ds3.(heap := ds3.heap[ptr := Cell(e.h[a].tid, Rename(Phi(st3, ds3), e.h[a].x))])
  }

  lemma KindOfRenamed(c: Cell, phi: Renaming)
    ensures KindOf(Cell(c.tid, Rename(phi, c.x))) == KindOf(c)
  {
  }

  lemma KindDeterminesTid(c: Cell, d: Cell)
    requires KindOf(c) == KindOf(d)
    ensures c.tid == d.tid
  {
  }

  lemma FillInStep(e: Encoder, st3: EncState, ds3: DecState, ds4: DecState, a: Addr, ptr: Addr)
    requires InStep(e, st3, ds3) && a in st3.objs && a in e.h
    requires ds3.objs[st3.objs[a]].ptr == ptr && Filled(e, st3, ds3, ds4, a, ptr)
    ensures InStep(e, st3, ds4) && Phi(st3, ds4) == Phi(st3, ds3)
  {
    hide Rename, KindOf;
    KindOfRenamed(e.h[a], Phi(st3, ds3));
    forall b | b in st3.objs ensures ObjInStep(e, st3, ds4, b) {
      InStepObj(e, st3, ds3, b);
    }
  }

  lemma FillGrows(e: Encoder, st: EncState, ds: DecState, st1: EncState, ds2: DecState,
                  st3: EncState, ds3: DecState, ds4: DecState, a: Addr)
    requires Grows(st, ds, st1, ds2) && Grows(st1, ds2, st3, ds3)
    requires a in e.h && Filled(e, st3, ds3, ds4, a, |ds.heap|)
    ensures Grows(st, ds, st3, ds4)
  {
    hide Rename, Phi;
  }

  lemma FillDone(e: Encoder, st3: EncState, ds3: DecState, ds4: DecState, a: Addr, ptr: Addr, b: Addr)
    requires InStep(e, st3, ds3) && a in st3.objs && a in e.h && b in st3.objs && b in e.h
    requires ds3.objs[st3.objs[a]].ptr == ptr && Filled(e, st3, ds3, ds4, a, ptr)
    requires Phi(st3, ds4) == Phi(st3, ds3)
    requires if b == a then RefsIn(e.h[a].x, st3.objs.Keys) else Done(e, st3, ds3, b)
    ensures Done(e, st3, ds4, b)
  {
    hide Rename, RefsIn, Phi;
    InStepObj(e, st3, ds3, b);
    InStepObj(e, st3, ds3, a);
  }

  lemma FillAdvances(e: Encoder, st: EncState, ds: DecState, st1: EncState, ds2: DecState,
                     st3: EncState, ds3: DecState, ds4: DecState, a: Addr)
    requires InStep(e, st1, ds2) && Grows(st, ds, st1, ds2)
    requires a in e.h && st1.objs.Keys == st.objs.Keys + {a}
    requires Advance(e, st1, ds2, st3, ds3) && RefsIn(e.h[a].x, st3.objs.Keys)
    requires a in Phi(st1, ds2) && Phi(st1, ds2)[a] == |ds.heap|
    requires Filled(e, st3, ds3, ds4, a, |ds.heap|)
    ensures Advance(e, st, ds, st3, ds4) && Phi(st3, ds4) == Phi(st3, ds3)
    ensures a in Phi(st3, ds4) && Phi(st3, ds4)[a] == |ds.heap|
  {
    hide InStep, Rename, RefsIn, Phi, Grows, Done, Filled;
    PhiGrows(e, st1, ds2, st3, ds3);
    GrowsKeys(st1, ds2, st3, ds3);
    InStepObj(e, st3, ds3, a);
    FillInStep(e, st3, ds3, ds4, a, |ds.heap|);
    FillGrows(e, st, ds, st1, ds2, st3, ds3, ds4, a);
    forall b | b in st3.objs && b !in st.objs && b in e.h ensures Done(e, st3, ds4, b) {
      FillDone(e, st3, ds3, ds4, a, |ds.heap|, b);
    }
    GrowsKeys(st, ds, st1, ds2);
  }

  lemma GrowsKeys(st: EncState, ds: DecState, st': EncState, ds': DecState)
    requires Grows(st, ds, st', ds')
    ensures st.objs.Keys <= st'.objs.Keys && |ds.heap| <= |ds'.heap|
  {
  }

  lemma FillDoes(e: Encoder, rd: Reader, st3: EncState, ds3: DecState, a: Addr, ptr: Addr)
    requires InStep(e, st3, ds3) && a in e.h && a in st3.objs && ds3.objs[st3.objs[a]].ptr == ptr
    ensures Filled(e, st3, ds3, DecoderFor(e, rd).Fill(ds3, ptr, Rename(Phi(st3, ds3), e.h[a].x)), a, ptr)
  {
    hide InStep, KindOf, Rename;
    InStepObj(e, st3, ds3, a);
    KindDeterminesTid(ds3.heap[ptr], e.h[a]);
  }

  lemma NewObjectUnfolds(d: Decoder, ds: DecState, p: Pointee, bs: seq<byte>, rest: seq<byte>,
                         ds1: DecState, c: Name, rest1: seq<byte>, ds3: DecState, v: Val, rest3: seq<byte>)
    requires ReadVariant(d.rd, bs) == Ok((|ds.objs|, rest)) && |ds.objs| > 0
    requires d.LoadClass(ds, p, rest) == Ok((ds1, c, rest1)) && c in d.env.types
    requires d.Load(d.Publish(ds1, p, c), d.env.types[c], rest1) == Ok((ds3, v, rest3))
    ensures d.Load(ds, Shared(p), bs) == Ok((d.Fill(ds3, |ds1.heap|, Built(p, c, v)), Ref(|ds1.heap|), rest3))
  {
    hide ReadVariant, Decoder.LoadClass, Decoder.Publish, Decoder.Fill, Built;
  }

  lemma NewObjectSaves(e: Encoder, st: EncState, p: Pointee, a: Addr, st0: EncState, id: nat)
    requires a in e.h && a !in st.objs && id == |st.objs| + 1
    requires st0 == st.(objs := st.objs[a := id])
    ensures e.Save(st, Shared(p), Ref(a))
         == (e.SaveTarget(st0, p, e.h[a].x).0, VariantBytes(id) + e.SaveTarget(st0, p, e.h[a].x).1)
  {
    hide VariantBytes, Encoder.SaveTarget;
  }

  /** The first visit of object `a` up to its content: encoder and decoder states at the point
      where the content begins. */
  ghost function StartEnc(e: Encoder, st: EncState, p: Pointee, a: Addr): EncState
    requires a in e.h
  {
    SaveHeader(e, st.(objs := st.objs[a := |st.objs| + 1]), p, e.h[a].x).0
  }

  ghost function StartDec(e: Encoder, rd: Reader, st: EncState, ds: DecState, p: Pointee, a: Addr): DecState
    requires a in e.h
  {
    DecoderFor(e, rd).Publish(ds.(classes := ClassesAfter(st, ds, p, e.h[a].x)), p, ClassOf(p, e.h[a].x))
  }

  lemma StartInStep(e: Encoder, rd: Reader, st: EncState, ds: DecState, p: Pointee, a: Addr)
    requires Setting(e) && InStep(e, st, ds)
    requires a in e.h && a !in st.objs && Holds(e.env, p, KindOf(e.h[a]))
    requires TypedTarget(e.env, KindsOf(e.h), p, e.h[a].x)
    ensures var st1, ds2 := StartEnc(e, st, p, a), StartDec(e, rd, st, ds, p, a);
      && st1.objs == st.objs[a := |st.objs| + 1]
      && InStep(e, st1, ds2) && Grows(st, ds, st1, ds2)
      && a in Phi(st1, ds2) && Phi(st1, ds2)[a] == |ds.heap|
  {
    hide Setting, InStep, Grows, Phi, Typed, TypedTarget, ClassesInStep, ClassOf, Holds, KindOf, SaveHeader, ClassesAfter,
      Decoder.LoadClass, Decoder.Publish, Published;
    var x := e.h[a].x;
    var st0 := st.(objs := st.objs[a := |st.objs| + 1]);
    InStepClasses(e, st, ds);
    SettingValid(e);
    HeaderInStep(e, st0, ds, p, x);
    ClassesAfterSame(st0, st, ds, p, x);
    var ds1 := ds.(classes := ClassesAfter(st, ds, p, x));
    PublishDoes(e, rd, st, ds, StartEnc(e, st, p, a), ds1, p, a);
    PublishInStep(e, st, ds, StartEnc(e, st, p, a), StartDec(e, rd, st, ds, p, a), a, NewCell(p, ClassOf(p, x)));
  }

  lemma ClassesAfterSame(st0: EncState, st: EncState, ds: DecState, p: Pointee, x: Val)
    requires st0.classes == st.classes
    ensures ClassesAfter(st0, ds, p, x) == ClassesAfter(st, ds, p, x)
  {
  }

  /** The id and the header of a first visit are readable. */
  predicate ClearFirst(rd: Reader, st: EncState, p: Pointee, a: Addr, x: Val) {
    Readable(rd, |st.objs| + 1) && ClearHeader(rd, st.(objs := st.objs[a := |st.objs| + 1]), p, x)
  }

  /** The bytes behind the id of a new object: its header, its content, and what follows. */
  ghost function AfterId(e: Encoder, st: EncState, p: Pointee, a: Addr, tail: seq<byte>): seq<byte>
    requires a in e.h && ClassOf(p, e.h[a].x) in e.env.types
  {
    var (st1, hb) := SaveHeader(e, st.(objs := st.objs[a := |st.objs| + 1]), p, e.h[a].x);
    hb + (e.Save(st1, e.env.types[ClassOf(p, e.h[a].x)], Inner(p, e.h[a].x)).1 + tail)
  }

  lemma NewBytes(e: Encoder, st: EncState, p: Pointee, a: Addr, tail: seq<byte>)
    requires e.env.Valid() && a in e.h && a !in st.objs && TypedTarget(e.env, KindsOf(e.h), p, e.h[a].x)
    ensures ClassOf(p, e.h[a].x) in e.env.types
    ensures Built(p, ClassOf(p, e.h[a].x), Inner(p, e.h[a].x)) == e.h[a].x
    ensures e.Save(st, Shared(p), Ref(a)).1 + tail == VariantBytes(|st.objs| + 1) + AfterId(e, st, p, a, tail)
  {
    hide Encoder.Save, Encoder.SaveTarget, SaveHeader, Typed, TypedTarget, Built, ClassOf, Inner, Env.Valid, VariantBytes;
    var x, id := e.h[a].x, |st.objs| + 1;
    var st0 := st.(objs := st.objs[a := id]);
    TargetParts(e, st0, p, x);
    NewObjectSaves(e, st, p, a, st0, id);
    var (st1, hb) := SaveHeader(e, st0, p, x);
    var b := e.Save(st1, e.env.types[ClassOf(p, x)], Inner(p, x)).1;
    assert VariantBytes(id) + (hb + b) + tail == VariantBytes(id) + (hb + (b + tail));
  }

  lemma StartEncSaves(e: Encoder, st: EncState, p: Pointee, a: Addr)
    requires e.env.Valid() && a in e.h && a !in st.objs && TypedTarget(e.env, KindsOf(e.h), p, e.h[a].x)
    ensures ClassOf(p, e.h[a].x) in e.env.types
    ensures e.Save(st, Shared(p), Ref(a)).0
         == e.Save(StartEnc(e, st, p, a), e.env.types[ClassOf(p, e.h[a].x)], Inner(p, e.h[a].x)).0
  {
    hide Encoder.Save, Encoder.SaveTarget, Typed, TypedTarget, SaveHeader, ClassOf, Inner;
    var st0 := st.(objs := st.objs[a := |st.objs| + 1]);
    NewObjectSaves(e, st, p, a, st0, |st.objs| + 1);
    TargetParts(e, st0, p, e.h[a].x);
  }

  /** The bytes of a first visit, and what loading them does, in terms of the content. */
  lemma NewObjectBytes(e: Encoder, rd: Reader, st: EncState, ds: DecState, p: Pointee, a: Addr, tail: seq<byte>,
                       ds3: DecState, v: Val)
    requires Setting(e) && InStep(e, st, ds)
    requires a in e.h && a !in st.objs && TypedTarget(e.env, KindsOf(e.h), p, e.h[a].x)
    requires ClassOf(p, e.h[a].x) in e.env.types && ClearFirst(rd, st, p, a, e.h[a].x)
    requires var t, x := e.env.types[ClassOf(p, e.h[a].x)], Inner(p, e.h[a].x);
      DecoderFor(e, rd).Load(StartDec(e, rd, st, ds, p, a), t, e.Save(StartEnc(e, st, p, a), t, x).1 + tail) == Ok((ds3, v, tail))
    ensures var t, x := e.env.types[ClassOf(p, e.h[a].x)], Inner(p, e.h[a].x);
      e.Save(st, Shared(p), Ref(a)).0 == e.Save(StartEnc(e, st, p, a), t, x).0
    ensures DecoderFor(e, rd).Load(ds, Shared(p), e.Save(st, Shared(p), Ref(a)).1 + tail)
         == Ok((DecoderFor(e, rd).Fill(ds3, |ds.heap|, Built(p, ClassOf(p, e.h[a].x), v)), Ref(|ds.heap|), tail))
  {
    hide Setting, InStep, Encoder.Save, Decoder.Load, Decoder.LoadClass, Decoder.Fill, Decoder.Publish, SaveHeader, TypedTarget,
      ClassesAfter, ClassesInStep, Built, ClassOf, Inner, ClearHeader, VariantBytes, ReadVariant, Readable, AfterId;
    var x, id := e.h[a].x, |st.objs| + 1;
    var st0 := st.(objs := st.objs[a := id]);
    SettingValid(e);
    InStepClasses(e, st, ds);
    InStepObj(e, st, ds, a);
    NewBytes(e, st, p, a, tail);
    var more := AfterId(e, st, p, a, tail);
    ReadableRoundTrip(rd, id, more);
    NewHeader(e, rd, st, ds, p, a, tail);
    StartEncSaves(e, st, p, a);
    var c := ClassOf(p, x);
    NewObjectUnfolds(DecoderFor(e, rd), ds, p, VariantBytes(id) + more, more, ds.(classes := ClassesAfter(st, ds, p, x)), c,
                     e.Save(StartEnc(e, st, p, a), e.env.types[c], Inner(p, x)).1 + tail, ds3, v, tail);
  }

  lemma NewHeader(e: Encoder, rd: Reader, st: EncState, ds: DecState, p: Pointee, a: Addr, tail: seq<byte>)
    requires e.env.Valid() && ClassesInStep(e.env, st.classes, ds.classes) && a in e.h
    requires TypedTarget(e.env, KindsOf(e.h), p, e.h[a].x) && ClassOf(p, e.h[a].x) in e.env.types
    requires ClearHeader(rd, st.(objs := st.objs[a := |st.objs| + 1]), p, e.h[a].x)
    ensures DecoderFor(e, rd).LoadClass(ds, p, AfterId(e, st, p, a, tail))
         == Ok((ds.(classes := ClassesAfter(st, ds, p, e.h[a].x)), ClassOf(p, e.h[a].x),
                e.Save(StartEnc(e, st, p, a), e.env.types[ClassOf(p, e.h[a].x)], Inner(p, e.h[a].x)).1 + tail))
  {
    hide Encoder.Save, Decoder.LoadClass, SaveHeader, TypedTarget, ClassesAfter, ClassesInStep, ClassOf, Inner, ClearHeader,
      Env.Valid;
    var x, st0 := e.h[a].x, st.(objs := st.objs[a := |st.objs| + 1]);
    var (st1, hb) := SaveHeader(e, st0, p, x);
    HeaderRoundTrip(e, rd, st0, ds, p, x, e.Save(st1, e.env.types[ClassOf(p, x)], Inner(p, x)).1 + tail);
    ClassesAfterSame(st0, st, ds, p, x);
  }

  /** The whole first visit of an object, given that its content round-trips into `ds3`. */
  lemma NewObjectRoundTrips(e: Encoder, rd: Reader, st: EncState, ds: DecState, p: Pointee, a: Addr,
                            tail: seq<byte>, ds3: DecState) returns (ds4: DecState)
    requires Setting(e) && InStep(e, st, ds)
    requires a in e.h && a !in st.objs && Holds(e.env, p, KindOf(e.h[a]))
    requires TypedTarget(e.env, KindsOf(e.h), p, e.h[a].x)
    requires ClassOf(p, e.h[a].x) in e.env.types && ClearFirst(rd, st, p, a, e.h[a].x)
    requires RoundTrips(e, rd, StartEnc(e, st, p, a), StartDec(e, rd, st, ds, p, a),
                        e.env.types[ClassOf(p, e.h[a].x)], Inner(p, e.h[a].x), tail, ds3)
    ensures RoundTrips(e, rd, st, ds, Shared(p), Ref(a), tail, ds4)
  {
    hide Setting, InStep, Advance, Grows, Encoder.Save, Decoder.Load, Decoder.Fill, Rename, RefsIn, Phi,
      Typed, TypedTarget, Built, ClassOf, Inner, Holds, KindOf, StartEnc, StartDec, Filled;
    var x, c := e.h[a].x, ClassOf(p, e.h[a].x);
    var st1, ds2 := StartEnc(e, st, p, a), StartDec(e, rd, st, ds, p, a);
    var (st3, b) := e.Save(st1, e.env.types[c], Inner(p, x));
    SettingValid(e);
    TargetParts(e, st, p, x);
    StartInStep(e, rd, st, ds, p, a);
    NewObjectBytes(e, rd, st, ds, p, a, tail, ds3, Rename(Phi(st3, ds3), Inner(p, x)));
    RenameBuilt(Phi(st3, ds3), p, x);
    RefsInInner(p, x, st3.objs.Keys);
    AdvanceInStep(e, st1, ds2, st3, ds3);
    PhiGrowsAdvance(e, st1, ds2, st3, ds3);
    InStepObj(e, st3, ds3, a);
    FillDoes(e, rd, st3, ds3, a, |ds.heap|);
    ds4 := DecoderFor(e, rd).Fill(ds3, |ds.heap|, Rename(Phi(st3, ds3), x));
    FillAdvances(e, st, ds, st1, ds2, st3, ds3, ds4, a);
    RefInKeys(e, a, st3, ds4);
  }

  lemma PhiGrowsAdvance(e: Encoder, st: EncState, ds: DecState, st': EncState, ds': DecState)
    requires InStep(e, st, ds) && Advance(e, st, ds, st', ds')
    ensures SubMap(Phi(st, ds), Phi(st', ds')) && st.objs.Keys <= st'.objs.Keys
  {
    hide InStep;
    PhiGrows(e, st, ds, st', ds');
  }

  lemma RefInKeys(e: Encoder, a: Addr, st: EncState, ds: DecState)
    requires a in Phi(st, ds)
    ensures RefsIn(Ref(a), st.objs.Keys) && Rename(Phi(st, ds), Ref(a)) == Ref(Phi(st, ds)[a])
  {
  }

  lemma TargetOfHeap(e: Encoder, p: Pointee, a: Addr)
    requires Setting(e) && a in e.h && Holds(e.env, p, KindOf(e.h[a]))
    ensures TypedTarget(e.env, KindsOf(e.h), p, e.h[a].x)
  {
    assert CellOk(e.env, e.h, a);
  }

  lemma ClearStart(e: Encoder, rd: Reader, st: EncState, p: Pointee, a: Addr)
    requires e.env.Valid() && a in e.h && a !in st.objs && TypedTarget(e.env, KindsOf(e.h), p, e.h[a].x)
    ensures ClassOf(p, e.h[a].x) in e.env.types
    ensures Clear(e, rd, st, Shared(p), Ref(a)) <==>
      && ClearFirst(rd, st, p, a, e.h[a].x)
      && Clear(e, rd, StartEnc(e, st, p, a), e.env.types[ClassOf(p, e.h[a].x)], Inner(p, e.h[a].x))
  {
    hide ClearTarget, ClearHeader, SaveHeader, Typed, TypedTarget, Readable;
    ClearParts(e, rd, st.(objs := st.objs[a := |st.objs| + 1]), p, e.h[a].x);
  }

  lemma {:induction false} SharedThenLoad(e: Encoder, rd: Reader, st: EncState, ds: DecState, p: Pointee, a: Addr,
                                          tail: seq<byte>) returns (ds': DecState)
    requires Setting(e) && InStep(e, st, ds)
    requires a in e.h && Holds(e.env, p, KindOf(e.h[a])) && Clear(e, rd, st, Shared(p), Ref(a))
    ensures RoundTrips(e, rd, st, ds, Shared(p), Ref(a), tail, ds')
    decreases e.h.Keys - st.objs.Keys, Ref(a), 0
  {
    hide Setting, InStep, Encoder.Save, Encoder.SaveClass, Typed, TypedTarget, ClearTarget, RoundTrips, Holds, KindOf,
      ClassOf, Inner, Grows, Phi, Built, StartEnc, StartDec;
    if a in st.objs {
      ds' := ds;
      KnownRoundTrips(e, rd, st, ds, p, a, tail);
    } else {
      var x := e.h[a].x;
      TargetOfHeap(e, p, a);
      SettingValid(e);
      TargetParts(e, st, p, x);
      StartInStep(e, rd, st, ds, p, a);
      ClearStart(e, rd, st, p, a);
      hide Clear;
      assert a in e.h.Keys - st.objs.Keys && a !in e.h.Keys - StartEnc(e, st, p, a).objs.Keys;
      var ds3 := SaveThenLoad(e, rd, StartEnc(e, st, p, a), StartDec(e, rd, st, ds, p, a),
                              e.env.types[ClassOf(p, x)], Inner(p, x), tail);
      ds' := NewObjectRoundTrips(e, rd, st, ds, p, a, tail, ds3);
    }
  }

  lemma {:induction false} OwnedThenLoad(e: Encoder, rd: Reader, st: EncState, ds: DecState, p: Pointee, x: Val,
                                         tail: seq<byte>) returns (ds': DecState)
    requires Setting(e) && InStep(e, st, ds)
    requires TypedTarget(e.env, KindsOf(e.h), p, x) && ClearTarget(e, rd, st, p, x)
    ensures RoundTrips(e, rd, st, ds, Unique(p), Items([x]), tail, ds')
    decreases e.h.Keys - st.objs.Keys, x, 2
  {
    hide Setting, InStep, Encoder.Save, Encoder.SaveClass, Typed, TypedTarget, RoundTrips, SaveHeader, ClassesAfter, ClassesInStep,
      Decoder.LoadClass, Advance, Clear, ClearTarget, ClearHeader;
    SettingValid(e);
    TargetParts(e, st, p, x);
    ClearParts(e, rd, st, p, x);
    InStepClasses(e, st, ds);
    HeaderInStep(e, st, ds, p, x);
    var st1 := SaveHeader(e, st, p, x).0;
    var ds1 := ds.(classes := ClassesAfter(st, ds, p, x));
    HeaderAdvances(e, st, ds, st1, ds1);
    AdvanceInStep(e, st, ds, st1, ds1);
    ds' := SaveThenLoad(e, rd, st1, ds1, e.env.types[ClassOf(p, x)], Inner(p, x), tail);
    OwnedRoundTrips(e, rd, st, ds, p, x, tail, ds');
  }

  lemma {:induction false} SaveThenLoad(e: Encoder, rd: Reader, st: EncState, ds: DecState, t: Ty, v: Val,
                                        tail: seq<byte>) returns (ds': DecState)
    requires Setting(e) && InStep(e, st, ds)
    requires TypedHere(e, t, v) && Clear(e, rd, st, t, v)
    ensures RoundTrips(e, rd, st, ds, t, v, tail, ds')
    decreases e.h.Keys - st.objs.Keys, v, 1
  {
    hide Setting, InStep, Encoder.Save, TypedElems, TypedTuple, TypedTarget, RoundTrips, RoundTripsElems, RoundTripsTuple,
      Holds, KindOf, Readable, ClearElems, ClearTuple, ClearTarget;
    match t {
      case Scalar(_) =>
        ds' := ds;
        ScalarRoundTrips(e, rd, st, ds, v.bytes, tail);
      case Array(_, t') =>
        ds' := ElemsThenLoad(e, rd, st, ds, Inline(t'), v.vs, tail);
        ArrayRoundTrips(e, rd, st, ds, t', v.vs, tail, ds');
      case Sequence(el) =>
        ds' := ElemsThenLoad(e, rd, st, ds, el, v.vs, tail);
        CountedRoundTrips(e, rd, st, ds, el, 0, v.vs, tail, ds');
      case Assoc(el, o) =>
        ds' := ElemsThenLoad(e, rd, st, ds, el, v.vs, tail);
        SettingOrder(e);
        CountedRoundTrips(e, rd, st, ds, el, o, v.vs, tail, ds');
      case Tuple(ts) =>
        ds' := TupleThenLoad(e, rd, st, ds, ts, v.vs, tail);
        ClassRoundTrips(e, rd, st, ds, ts, v.vs, tail, ds');
      case Optional(t') =>
        if v.vs == [] {
          ds' := ds;
          AbsentRoundTrips(e, rd, st, ds, t', Static([]), tail);
        } else {
          assert v.vs == [v.vs[0]];
          ds' := SaveThenLoad(e, rd, st, ds, t', v.vs[0], tail);
          PresentRoundTrips(e, rd, st, ds, t', v.vs[0], tail, ds');
        }
      case Unique(p) =>
        if v.vs == [] {
          ds' := ds;
          AbsentRoundTrips(e, rd, st, ds, Scalar(0), p, tail);
        } else {
          assert v.vs == [v.vs[0]];
          ds' := OwnedThenLoad(e, rd, st, ds, p, v.vs[0], tail);
        }
      case Shared(p) =>
        if v.Null? {
          ds' := ds;
          NullRoundTrips(e, rd, st, ds, p, tail);
        } else {
          ds' := SharedThenLoad(e, rd, st, ds, p, v.a, tail);
        }
    }
  }

  lemma SettingOrder(e: Encoder)
    requires Setting(e)
    ensures OrderIgnoresAddresses(e.env)
  {
  }
}
