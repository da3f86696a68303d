/** The graph theorem for whole streams: whatever several calls on one encoder wrote, the same
    calls on one decoder rebuild as an isomorphic graph, with the same sharing. */
module CodecGraph {
  import opened Results
  import opened Streams
  import opened Variant
  import opened Codec
  import opened CodecRoundTrip
  import opened CodecNumbers

  // ----- The part of memory that matters -----

  /** `s` contains the roots and everything its objects refer to. */
  ghost predicate ClosedUnder(h: Heap, vs: seq<Val>, s: set<Addr>) {
    && RefsInAll(vs, s)
    && (forall a :: a in s ==> a in h && RefsIn(h[a].x, s))
  }

  ghost predicate SubHeap(part: Heap, h: Heap) {
    forall a :: a in part ==> a in h && h[a] == part[a]
  }

  ghost predicate SelfContained(part: Heap) {
    forall a :: a in part ==> RefsIn(part[a].x, part.Keys)
  }

  function On(e: Encoder, part: Heap): Encoder {
    Encoder(e.env, part, e.rev)
  }

  lemma {:induction false} TypedRefs(env: Env, ks: Kinds, t: Ty, v: Val)
    requires Typed(env, ks, t, v)
    ensures RefsIn(v, ks.Keys)
    decreases v, 1
  {
    match v
    case Items(vs) =>
      match t {
        case Array(_, e) => TypedElemsRefs(env, ks, Inline(e), vs);
        case Sequence(e) => TypedElemsRefs(env, ks, e, vs);
        case Assoc(e, _) => TypedElemsRefs(env, ks, e, vs);
        case Tuple(ts) => TypedTupleRefs(env, ks, ts, vs);
        case Optional(e) => if vs != [] { TypedRefs(env, ks, e, vs[0]); }
        case Unique(p) => if vs != [] { TypedTargetRefs(env, ks, p, vs[0]); }
      }
    case _ =>
  }

  lemma {:induction false} TypedElemsRefs(env: Env, ks: Kinds, e: Elem, vs: seq<Val>)
    requires TypedElems(env, ks, e, vs)
    ensures RefsInAll(vs, ks.Keys)
    decreases vs, 0
  {
    if vs != [] {
      TypedRefs(env, ks, ElemType(env, e), vs[0]);
      TypedElemsRefs(env, ks, e, vs[1..]);
      RefsInCons(vs, ks.Keys);
    }
  }

  lemma {:induction false} TypedTupleRefs(env: Env, ks: Kinds, ts: seq<Ty>, vs: seq<Val>)
    requires |ts| == |vs| && TypedTuple(env, ks, ts, vs)
    ensures RefsInAll(vs, ks.Keys)
    decreases vs, 0
  {
    if vs != [] {
      TypedRefs(env, ks, ts[0], vs[0]);
      TypedTupleRefs(env, ks, ts[1..], vs[1..]);
      RefsInCons(vs, ks.Keys);
    }
  }

  lemma {:induction false} TypedTargetRefs(env: Env, ks: Kinds, p: Pointee, x: Val)
    requires TypedTarget(env, ks, p, x)
    ensures RefsIn(x, ks.Keys)
    decreases x, 2
  {
    match p
    case Static(c) => TypedRefs(env, ks, env.types[c], x);
    case Dynamic(_) => TypedRefs(env, ks, env.types[x.cls], x.v);
  }

  lemma RefsInCons(vs: seq<Val>, s: set<Addr>)
    requires vs != []
    ensures RefsInAll(vs, s) <==> RefsIn(vs[0], s) && RefsInAll(vs[1..], s)
  {
    hide RefsIn;
    if RefsIn(vs[0], s) && RefsInAll(vs[1..], s) {
      forall i | 0 <= i < |vs| ensures RefsIn(vs[i], s) {
        if i > 0 {
          assert vs[i] == vs[1..][i - 1];
        }
      }
    }
  }

  // ----- Encoding looks at nothing but the reachable part -----

  // What encoding a compound value comes to in terms of its parts.

  lemma SaveCounted(e: Encoder, st: EncState, el: Elem, o: Order, n: nat, vs: seq<Val>)
    ensures var r := e.SaveElems(st, el, vs);
      && e.Save(st, Sequence(el), Items(vs)) == (r.0, VariantBytes(|vs|) + r.1)
      && e.Save(st, Assoc(el, o), Items(vs)) == (r.0, VariantBytes(|vs|) + r.1)
      && (el.Inline? ==> e.Save(st, Array(n, el.t), Items(vs)) == r)
  {
    hide VariantBytes, Encoder.SaveElems;
  }

  lemma SaveClassValue(e: Encoder, st: EncState, ts: seq<Ty>, vs: seq<Val>)
    ensures e.Save(st, Tuple(ts), Items(vs)) == e.SaveTuple(st, ts, vs)
  {
    hide Encoder.SaveTuple;
  }

  lemma SaveUnique(e: Encoder, st: EncState, p: Pointee, vs: seq<Val>)
    requires vs != []
    ensures e.Save(st, Unique(p), Items(vs)) == (e.SaveTarget(st, p, vs[0]).0, [1] + e.SaveTarget(st, p, vs[0]).1)
  {
    hide Encoder.SaveTarget;
  }

  /** Values without parts do not touch memory. */
  lemma SaveSimple(e: Encoder, part: Heap, st: EncState, t: Ty, v: Val)
    requires match t
      case Scalar(_) => true
      case Optional(_) => v == Items([]) || !v.Items?
      case Unique(_) => v == Items([]) || !v.Items?
      case Shared(_) => !v.Ref?
      case _ => !v.Items?
    ensures On(e, part).Save(st, t, v) == e.Save(st, t, v) && e.Save(st, t, v).0 == st
  {
    hide VariantBytes, Wire;
  }

  /** Encoding a value whose references lie in a self-contained part visits that part only,
      and gives the same bytes as if the rest of memory were absent. */
  lemma {:induction false} SaveLocal(e: Encoder, part: Heap, st: EncState, t: Ty, v: Val)
    requires SubHeap(part, e.h) && SelfContained(part) && RefsIn(v, part.Keys)
    ensures On(e, part).Save(st, t, v) == e.Save(st, t, v)
    ensures e.Save(st, t, v).0.objs.Keys <= st.objs.Keys + part.Keys
    decreases part.Keys - st.objs.Keys, v, 1
  {
    hide Encoder.Save, Encoder.SaveElems, Encoder.SaveTuple, Encoder.SaveTarget, SubHeap, SelfContained, VariantBytes;
    match t
    case Array(n, el) =>
      if v.Items? {
        ElemsLocal(e, part, st, Inline(el), v.vs);
        SaveCounted(e, st, Inline(el), 0, n, v.vs);
        SaveCounted(On(e, part), st, Inline(el), 0, n, v.vs);
      } else {
        SaveSimple(e, part, st, t, v);
      }
    case Sequence(el) => CountedLocal(e, part, st, el, 0, v);
    case Assoc(el, o) => CountedLocal(e, part, st, el, o, v);
    case Tuple(ts) =>
      if v.Items? {
        TupleLocal(e, part, st, ts, v.vs);
        SaveClassValue(e, st, ts, v.vs);
        SaveClassValue(On(e, part), st, ts, v.vs);
      } else {
        SaveSimple(e, part, st, t, v);
      }
    case Optional(el) =>
      if v.Items? && v.vs != [] {
        SaveLocal(e, part, st, el, v.vs[0]);
        SaveOptional(e, st, el, v.vs);
        SaveOptional(On(e, part), st, el, v.vs);
      } else {
        SaveSimple(e, part, st, t, v);
      }
    case Unique(p) =>
      if v.Items? && v.vs != [] {
        TargetLocal(e, part, st, p, v.vs[0]);
        SaveUnique(e, st, p, v.vs);
        SaveUnique(On(e, part), st, p, v.vs);
      } else {
        SaveSimple(e, part, st, t, v);
      }
    case Shared(p) =>
      if v.Ref? {
        RefLocal(e, part, st, p, v.a);
      } else {
        SaveSimple(e, part, st, t, v);
      }
    case Scalar(_) => SaveSimple(e, part, st, t, v);
  }

  lemma {:induction false} CountedLocal(e: Encoder, part: Heap, st: EncState, el: Elem, o: Order, v: Val)
    requires SubHeap(part, e.h) && SelfContained(part) && RefsIn(v, part.Keys)
    ensures On(e, part).Save(st, Sequence(el), v) == e.Save(st, Sequence(el), v)
    ensures On(e, part).Save(st, Assoc(el, o), v) == e.Save(st, Assoc(el, o), v)
    ensures e.Save(st, Sequence(el), v).0.objs.Keys <= st.objs.Keys + part.Keys
    ensures e.Save(st, Assoc(el, o), v).0.objs.Keys <= st.objs.Keys + part.Keys
    decreases part.Keys - st.objs.Keys, v, 0
  {
    hide Encoder.Save, Encoder.SaveElems, SubHeap, SelfContained, VariantBytes;
    if v.Items? {
      ElemsLocal(e, part, st, el, v.vs);
      SaveCounted(e, st, el, o, 0, v.vs);
      SaveCounted(On(e, part), st, el, o, 0, v.vs);
    } else {
      SaveSimple(e, part, st, Sequence(el), v);
      SaveSimple(e, part, st, Assoc(el, o), v);
    }
  }

  lemma SaveOptional(e: Encoder, st: EncState, t: Ty, vs: seq<Val>)
    requires vs != []
    ensures e.Save(st, Optional(t), Items(vs)) == (e.Save(st, t, vs[0]).0, [1] + e.Save(st, t, vs[0]).1)
  {
  }

  lemma {:induction false} RefLocal(e: Encoder, part: Heap, st: EncState, p: Pointee, a: Addr)
    requires SubHeap(part, e.h) && SelfContained(part) && a in part.Keys
    ensures On(e, part).Save(st, Shared(p), Ref(a)) == e.Save(st, Shared(p), Ref(a))
    ensures e.Save(st, Shared(p), Ref(a)).0.objs.Keys <= st.objs.Keys + part.Keys
    decreases part.Keys - st.objs.Keys, Ref(a), 0
  {
    hide Encoder.SaveTarget, VariantBytes, RefsIn;
    if a !in st.objs {
      var st1 := st.(objs := st.objs[a := |st.objs| + 1]);
      assert a in part.Keys - st.objs.Keys && a !in part.Keys - st1.objs.Keys;
      TargetLocal(e, part, st1, p, part[a].x);
    }
  }

  lemma {:induction false} ElemsLocal(e: Encoder, part: Heap, st: EncState, el: Elem, vs: seq<Val>)
    requires SubHeap(part, e.h) && SelfContained(part) && RefsInAll(vs, part.Keys)
    ensures On(e, part).SaveElems(st, el, vs) == e.SaveElems(st, el, vs)
    ensures e.SaveElems(st, el, vs).0.objs.Keys <= st.objs.Keys + part.Keys
    decreases part.Keys - st.objs.Keys, vs, 0
  {
    hide Encoder.Save;
    if vs != [] && (el.Named? ==> el.c in e.env.types) {
      RefsInCons(vs, part.Keys);
      var t := ElemType(e.env, el);
      SaveLocal(e, part, st, t, vs[0]);
      ElemsLocal(e, part, e.Save(st, t, vs[0]).0, el, vs[1..]);
    }
  }

  lemma {:induction false} TupleLocal(e: Encoder, part: Heap, st: EncState, ts: seq<Ty>, vs: seq<Val>)
    requires SubHeap(part, e.h) && SelfContained(part) && RefsInAll(vs, part.Keys)
    ensures On(e, part).SaveTuple(st, ts, vs) == e.SaveTuple(st, ts, vs)
    ensures e.SaveTuple(st, ts, vs).0.objs.Keys <= st.objs.Keys + part.Keys
    decreases part.Keys - st.objs.Keys, vs, 0
  {
    hide Encoder.Save;
    if vs != [] && ts != [] {
      RefsInCons(vs, part.Keys);
      SaveLocal(e, part, st, ts[0], vs[0]);
      TupleLocal(e, part, e.Save(st, ts[0], vs[0]).0, ts[1..], vs[1..]);
    }
  }

  lemma {:induction false} TargetLocal(e: Encoder, part: Heap, st: EncState, p: Pointee, x: Val)
    requires SubHeap(part, e.h) && SelfContained(part) && RefsIn(x, part.Keys)
    ensures On(e, part).SaveTarget(st, p, x) == e.SaveTarget(st, p, x)
    ensures e.SaveTarget(st, p, x).0.objs.Keys <= st.objs.Keys + part.Keys
    decreases part.Keys - st.objs.Keys, x, 2
  {
    hide Encoder.Save;
    match p
    case Static(c) => if c in e.env.types { SaveLocal(e, part, st, e.env.types[c], x); }
    case Dynamic(_) =>
      if x.Object? && x.cls in e.env.types && x.cls in e.env.hashes {
        SaveLocal(e, part, e.SaveClass(st, x.cls).0, e.env.types[x.cls], x.v);
      }
  }

  // ----- The theorem -----

  ghost predicate Injective(phi: Renaming) {
    forall a, b :: a in phi && b in phi && a != b ==> phi[a] != phi[b]
  }

  /** `memory'` is `memory` with exactly one new object for every object in phi's domain: its
      image, which refers to images. */
  ghost predicate IsomorphicCopy(h: Heap, phi: Renaming, memory: seq<Cell>, memory': seq<Cell>) {
    && Injective(phi)
    && memory <= memory' && |memory'| == |memory| + |phi|
    && forall a :: a in phi ==>
         a in h && |memory| <= phi[a] < |memory'| && memory'[phi[a]] == Cell(h[a].tid, Rename(phi, h[a].x))
  }

  /** What a typed, self-contained part of memory gives. */
  lemma PartIsSelfContained(e: Encoder)
    requires Setting(e)
    ensures SelfContained(e.h)
  {
    hide OrderIgnoresAddresses, Typed;
    assert KindsOf(e.h).Keys == e.h.Keys;
    forall a | a in e.h ensures RefsIn(e.h[a].x, e.h.Keys) {
      assert CellOk(e.env, e.h, a);
      var x := e.h[a].x;
      match KindOf(e.h[a])
      case StaticKind(c) => TypedRefs(e.env, KindsOf(e.h), e.env.types[c], x);
      case DynamicKind(c) => TypedRefs(e.env, KindsOf(e.h), e.env.types[c], x.v);
      case BadKind =>
    }
  }

  lemma StartsInStep(e: Encoder, memory: seq<Cell>)
    ensures InStep(e, NewEncoder, NewDecoder(memory))
  {
  }

  lemma PhiInjective(e: Encoder, st: EncState, ds: DecState)
    requires InStep(e, st, ds)
    ensures Injective(Phi(st, ds))
  {
    hide ObjsInStep, ClassesInStep;
    forall a, b | a in Phi(st, ds) && b in Phi(st, ds) && a != b ensures Phi(st, ds)[a] != Phi(st, ds)[b] {
      assert Distinct(st, ds, a, b);
    }
  }

  lemma AdvanceFromStart(e: Encoder, st: EncState, ds: DecState, memory: seq<Cell>)
    requires Advance(e, NewEncoder, NewDecoder(memory), st, ds)
    ensures var phi := Phi(st, ds);
      phi.Keys == st.objs.Keys && IsomorphicCopy(e.h, phi, memory, ds.heap)
    ensures forall a :: a in st.objs ==> RefsIn(e.h[a].x, st.objs.Keys)
  {
    hide InStep, Phi, Rename, RefsIn, NewMemory, Injective;
    AdvanceInStep(e, NewEncoder, NewDecoder(memory), st, ds);
    PhiDomain(e, st, ds);
    PhiInjective(e, st, ds);
    SameSize(Phi(st, ds), st.objs);
    forall a | a in st.objs ensures a in e.h && Done(e, st, ds, a) && Phi(st, ds)[a] >= |memory| {
      InStepObj(e, st, ds, a);
      NewMemoryAt(NewEncoder, NewDecoder(memory), st, ds, a);
    }
  }

  lemma NewMemoryAt(st: EncState, ds: DecState, st': EncState, ds': DecState, a: Addr)
    requires NewMemory(st, ds, st', ds') && a in Phi(st', ds') && a !in st.objs
    ensures Phi(st', ds')[a] >= |ds.heap|
  {
  }

  lemma SameSize<K, V, W>(m: map<K, V>, n: map<K, W>)
    requires m.Keys == n.Keys
    ensures |m| == |n|
  {
    assert |m.Keys| == |m| && |n.Keys| == |n|;
  }

  /** The graph theorem.  `part` is a typed, self-contained part of the encoder's memory, and the
      reader can read every number that is written.  Decoding what was encoded from typed roots
      in the part succeeds, leaves whatever followed, and gives an isomorphic copy of exactly
      the reachable objects; the decoded roots are the images of the roots. */
  lemma GraphRoundTrip(e: Encoder, rd: Reader, part: Heap, ts: seq<Ty>, vs: seq<Val>, memory: seq<Cell>,
                       tail: seq<byte>) returns (phi: Renaming, ds: DecState)
    requires SubHeap(part, e.h) && Setting(On(e, part))
    requires |ts| == |vs| && TypedTuple(e.env, KindsOf(part), ts, vs)
    requires ClearTuple(On(e, part), rd, NewEncoder, ts, vs)
    ensures var bs := e.SaveTuple(NewEncoder, ts, vs).1;
      DecoderFor(e, rd).LoadTuple(NewDecoder(memory), ts, bs + tail) == Ok((ds, RenameAll(phi, vs), tail))
    ensures IsomorphicCopy(e.h, phi, memory, ds.heap)
    ensures ClosedUnder(e.h, vs, phi.Keys)
    ensures forall s :: ClosedUnder(e.h, vs, s) ==> phi.Keys <= s
  {
    hide Setting, InStep, Encoder.SaveTuple, ClearTuple, Typed, TypedTuple, RefsIn, SubHeap, SelfContained, KindsOf,
      RoundTripsTuple, IsomorphicCopy, ClosedUnder;
    var e' := On(e, part);
    StartsInStep(e', memory);
    ds := TupleThenLoad(e', rd, NewEncoder, NewDecoder(memory), ts, vs, tail);
    phi := Phi(e'.SaveTuple(NewEncoder, ts, vs).0, ds);
    CopyOfPart(e', rd, ts, vs, memory, tail, ds);
    PartIsSelfContained(e');
    TypedTupleRefs(e.env, KindsOf(part), ts, vs);
    KindsKeys(part);
    TupleLocal(e, part, NewEncoder, ts, vs);
    CopyInWhole(part, e.h, phi, memory, ds.heap);
    ClosedInWhole(part, e.h, vs, phi);
    forall s | ClosedUnder(e.h, vs, s) ensures phi.Keys <= s {
      VisitedIsLeast(e, s, ts, vs);
    }
  }

  lemma KindsKeys(h: Heap)
    ensures KindsOf(h).Keys == h.Keys
  {
  }

  lemma CopyOfPart(e: Encoder, rd: Reader, ts: seq<Ty>, vs: seq<Val>, memory: seq<Cell>, tail: seq<byte>, ds: DecState)
    requires RoundTripsTuple(e, rd, NewEncoder, NewDecoder(memory), ts, vs, tail, ds)
    ensures var (st, bs) := e.SaveTuple(NewEncoder, ts, vs);
      var phi := Phi(st, ds);
      && DecoderFor(e, rd).LoadTuple(NewDecoder(memory), ts, bs + tail) == Ok((ds, RenameAll(phi, vs), tail))
      && IsomorphicCopy(e.h, phi, memory, ds.heap)
      && ClosedUnder(e.h, vs, phi.Keys) && phi.Keys == st.objs.Keys
  {
    hide Encoder.SaveTuple, Decoder.LoadTuple, Advance, Phi, RenameAll, RefsIn, IsomorphicCopy;
    var st := e.SaveTuple(NewEncoder, ts, vs).0;
    AdvanceFromStart(e, st, ds, memory);
    AdvanceInStep(e, NewEncoder, NewDecoder(memory), st, ds);
    InStepObj(e, st, ds, 0);
  }

  lemma ClosedInWhole(part: Heap, h: Heap, vs: seq<Val>, phi: Renaming)
    requires SubHeap(part, h) && ClosedUnder(part, vs, phi.Keys)
    ensures ClosedUnder(h, vs, phi.Keys)
  {
    hide RefsIn;
  }

  lemma CopyInWhole(part: Heap, h: Heap, phi: Renaming, memory: seq<Cell>, memory': seq<Cell>)
    requires SubHeap(part, h) && IsomorphicCopy(part, phi, memory, memory')
    ensures IsomorphicCopy(h, phi, memory, memory')
  {
    hide Rename, Injective;
  }

  /** Everything an encoder numbers lies in every closed set around the roots. */
  lemma VisitedIsLeast(e: Encoder, s: set<Addr>, ts: seq<Ty>, vs: seq<Val>)
    requires ClosedUnder(e.h, vs, s)
    ensures e.SaveTuple(NewEncoder, ts, vs).0.objs.Keys <= s
  {
    hide Encoder.SaveTuple, RefsIn;
    var part := map a | a in s :: e.h[a];
    assert part.Keys == s;
    TupleLocal(e, part, NewEncoder, ts, vs);
  }

  // ----- An instance -----

  const NODE: Name := [78]

  /** A class whose one field is a shared pointer to the class itself. */
  function NodeType(): Ty {
    Tuple([Shared(Static(NODE))])
  }

  function CycleEncoder(): Encoder {
    Encoder(Env(map[NODE := NodeType()], map[NODE := [1, 2, 3, 4]], {}, o => (a, b) => false),
            map[7 := Cell(StaticType(NODE), Items([Ref(9)])), 9 := Cell(StaticType(NODE), Items([Ref(7)]))], false)
  }

  function CycleRoots(): seq<Ty> {
    [Shared(Static(NODE)), Shared(Static(NODE))]
  }

  lemma CycleEnv()
    ensures CycleEncoder().env.Valid()
    ensures OrderIgnoresAddresses(CycleEncoder().env)
  {
  }

  lemma CycleKinds()
    ensures KindsOf(CycleEncoder().h) == map[7 := StaticKind(NODE), 9 := StaticKind(NODE)]
  {
  }

  lemma CyclePointer(a: Addr)
    requires a == 7 || a == 9
    ensures Typed(CycleEncoder().env, KindsOf(CycleEncoder().h), Shared(Static(NODE)), Ref(a))
  {
    CycleKinds();
  }

  lemma CycleCell(a: Addr)
    requires a == 7 || a == 9
    ensures CellOk(CycleEncoder().env, CycleEncoder().h, a)
  {
    hide KindsOf, Holds;
    var b := 16 - a;
    CyclePointer(b);
    hide Typed;
    CyclePointerField(b);
  }

  lemma CyclePointerField(b: Addr)
    requires Typed(CycleEncoder().env, KindsOf(CycleEncoder().h), Shared(Static(NODE)), Ref(b))
    ensures Typed(CycleEncoder().env, KindsOf(CycleEncoder().h), NodeType(), Items([Ref(b)]))
  {
    hide KindsOf, Holds;
    var env, ks, field := CycleEncoder().env, KindsOf(CycleEncoder().h), [Shared(Static(NODE))];
    assert TypedTuple(env, ks, field, [Ref(b)]) by {
      hide Typed;
      assert [Ref(b)][1..] == [] && field[1..] == [];
    }
    hide TypedTuple;
    assert Typed(env, ks, Tuple(field), Items([Ref(b)])) == TypedTuple(env, ks, field, [Ref(b)]);
  }

  lemma CycleRootsTyped()
    ensures TypedTuple(CycleEncoder().env, KindsOf(CycleEncoder().h), CycleRoots(), [Ref(7), Ref(9)])
  {
    hide Typed, KindsOf;
    CyclePointer(7);
    CyclePointer(9);
    assert [Ref(7), Ref(9)][1..] == [Ref(9)] && [Ref(9)][1..] == [];
    assert CycleRoots()[1..] == [Shared(Static(NODE))] && CycleRoots()[1..][1..] == [];
  }

  /** The example meets every condition of the theorem. */
  lemma CycleSetting()
    ensures Setting(CycleEncoder())
  {
    hide CellOk, OrderIgnoresAddresses, Env.Valid;
    CycleEnv();
    CycleCell(7);
    CycleCell(9);
  }

  lemma CycleField(e: Encoder, st: EncState, b: Addr)
    requires e.env == CycleEncoder().env
    ensures ClearTarget(e, AsWritten, st, Static(NODE), Items([Ref(b)])) == Clear(e, AsWritten, st, Shared(Static(NODE)), Ref(b))
    ensures e.SaveTarget(st, Static(NODE), Items([Ref(b)])).0 == e.Save(st, Shared(Static(NODE)), Ref(b)).0
  {
    var ts, vs := [Shared(Static(NODE))], [Ref(b)];
    assert ts[1..] == [] && vs[1..] == [];
    var st1 := e.Save(st, ts[0], vs[0]).0;
    assert ClearTuple(e, AsWritten, st1, [], []) && e.SaveTuple(st1, [], []) == (st1, []);
    hide Encoder.Save, Clear;
    assert ClearTuple(e, AsWritten, st, ts, vs) == Clear(e, AsWritten, st, ts[0], vs[0]);
    assert e.SaveTuple(st, ts, vs).0 == st1;
    CycleObject(e, st, vs);
  }

  lemma CycleObject(e: Encoder, st: EncState, vs: seq<Val>)
    requires e.env == CycleEncoder().env
    ensures ClearTarget(e, AsWritten, st, Static(NODE), Items(vs)) == ClearTuple(e, AsWritten, st, NodeType().ts, vs)
    ensures e.SaveTarget(st, Static(NODE), Items(vs)) == e.SaveTuple(st, NodeType().ts, vs)
  {
    hide ClearTuple, Encoder.SaveTuple;
    assert Clear(e, AsWritten, st, NodeType(), Items(vs)) == ClearTuple(e, AsWritten, st, NodeType().ts, vs);
    assert e.Save(st, NodeType(), Items(vs)) == e.SaveTuple(st, NodeType().ts, vs);
  }

  /** Three ids are written: 1 and 2 where the objects begin, and 1 where the second refers back,
      then 2 for the second root. */
  lemma CycleClear()
    ensures ClearTuple(CycleEncoder(), AsWritten, NewEncoder, CycleRoots(), [Ref(7), Ref(9)])
  {
    hide Clear, Encoder.Save, ClearTarget, Encoder.SaveTarget, Readable;
    var e, t := CycleEncoder(), Shared(Static(NODE));
    var st1, st2 := EncState(map[7 := 1], map[]), EncState(map[7 := 1, 9 := 2], map[]);
    SmallestFailure([]);
    SharedKnown(e, AsWritten, st2, Static(NODE), 7);
    SharedKnown(e, AsWritten, st2, Static(NODE), 9);
    CycleField(e, st2, 7);
    SharedFirst(e, AsWritten, st1, Static(NODE), 9);
    assert st1.objs[9 := 2] == st2.objs;
    CycleField(e, st1, 9);
    SharedFirst(e, AsWritten, NewEncoder, Static(NODE), 7);
    assert NewEncoder.objs[7 := 1] == st1.objs;
    var vs := [Ref(7), Ref(9)];
    assert vs[1..] == [Ref(9)] && CycleRoots()[1..] == [t] && [Ref(9)][1..] == [] && [t][1..] == [];
    assert ClearTuple(e, AsWritten, st2, [t], [Ref(9)]);
  }

  /** Two objects that point to each other, with a pointer to each: decoded into empty memory,
      they are two new objects that point to each other. */
  lemma TwoObjectCycle() returns (phi: Renaming, ds: DecState)
    ensures var bs := CycleEncoder().SaveTuple(NewEncoder, CycleRoots(), [Ref(7), Ref(9)]).1;
      DecoderFor(CycleEncoder(), AsWritten).LoadTuple(NewDecoder([]), CycleRoots(), bs)
        == Ok((ds, RenameAll(phi, [Ref(7), Ref(9)]), []))
    ensures phi.Keys == {7, 9} && |ds.heap| == 2 && phi[7] < 2 && phi[9] < 2 && phi[7] != phi[9]
    ensures ds.heap[phi[7]] == Cell(StaticType(NODE), Items([Ref(phi[9])]))
    ensures ds.heap[phi[9]] == Cell(StaticType(NODE), Items([Ref(phi[7])]))
  {
    hide Setting, Encoder.SaveTuple, Decoder.LoadTuple, TypedTuple, KindsOf, RenameAll, ClearTuple, RefsIn, ClosedUnder;
    var e, vs := CycleEncoder(), [Ref(7), Ref(9)];
    CycleSetting();
    CycleRootsTyped();
    CycleClear();
    phi, ds := GraphRoundTrip(e, AsWritten, e.h, CycleRoots(), vs, [], []);
    var bs := e.SaveTuple(NewEncoder, CycleRoots(), vs).1;
    assert bs + [] == bs;
    CycleClosed(phi.Keys);
    assert phi.Keys == {7, 9};
    assert |phi| == |phi.Keys|;
    RenameOne(phi, Ref(7));
    RenameOne(phi, Ref(9));
  }

  lemma CycleClosed(s: set<Addr>)
    ensures ClosedUnder(CycleEncoder().h, [Ref(7), Ref(9)], {7, 9})
    ensures ClosedUnder(CycleEncoder().h, [Ref(7), Ref(9)], s) ==> 7 in s && 9 in s
  {
    var vs := [Ref(7), Ref(9)];
    assert vs[0] == Ref(7) && vs[1] == Ref(9);
  }

  // ----- Values without shared pointers -----

  lemma {:induction false} RenameNothing(phi: Renaming, v: Val)
    requires RefsIn(v, {})
    ensures Rename(phi, v) == v
    decreases v, 1
  {
    match v
    case Items(vs) => RenameNothingAll(phi, vs);
    case Object(_, x) => RenameNothing(phi, x);
    case _ =>
  }

  lemma {:induction false} RenameNothingAll(phi: Renaming, vs: seq<Val>)
    requires RefsInAll(vs, {})
    ensures RenameAll(phi, vs) == vs
    decreases vs, 0
  {
    if vs != [] {
      RefsInCons(vs, {});
      RenameNothing(phi, vs[0]);
      RenameNothingAll(phi, vs[1..]);
      assert [vs[0]] + vs[1..] == vs;
    }
  }

  /** Without shared pointers, decoding returns the very values and allocates nothing shared. */
  lemma PlainRoundTrip(e: Encoder, rd: Reader, ts: seq<Ty>, vs: seq<Val>, memory: seq<Cell>, tail: seq<byte>)
    returns (ds: DecState)
    requires Setting(On(e, map[]))
    requires |ts| == |vs| && TypedTuple(e.env, map[], ts, vs)
    requires ClearTuple(On(e, map[]), rd, NewEncoder, ts, vs)
    ensures var bs := e.SaveTuple(NewEncoder, ts, vs).1;
      DecoderFor(e, rd).LoadTuple(NewDecoder(memory), ts, bs + tail) == Ok((ds, vs, tail)) && ds.heap == memory
  {
    hide Setting, Encoder.SaveTuple, Decoder.LoadTuple, Rename, RenameAll, ClearTuple, Typed, TypedTuple, RefsIn;
    var phi: Renaming;
    assert KindsOf(map[]) == map[];
    phi, ds := GraphRoundTrip(e, rd, map[], ts, vs, memory, tail);
    var none: Kinds := map[];
    TypedTupleRefs(e.env, none, ts, vs);
    assert none.Keys == {};
    RenameNothingAll(phi, vs);
    assert ClosedUnder(e.h, vs, {});
    assert phi.Keys == {};
    assert |phi| == |phi.Keys|;
  }

  // ----- Ids that are not readable -----

  /** The 128th object of a stream is lost with the reader as written, whatever it is and
      whatever came before: its id reads back as 1.  The decoder then takes it for the first
      object, so two objects become one, or reports a mismatch. */
  lemma Object128IsLost(e: Encoder, st: EncState, ds: DecState, p: Pointee, a: Addr, tail: seq<byte>)
    requires InStep(e, st, ds) && |st.objs| == 127 && a in e.h && a !in st.objs
    ensures match DecoderFor(e, AsWritten).Load(ds, Shared(p), e.Save(st, Shared(p), Ref(a)).1 + tail)
      case Err(error) => error == DataMismatch
      case Ok((ds', v, _)) =>
        ds' == ds && exists b :: b in st.objs && b != a && b in Phi(st, ds) && v == Ref(Phi(st, ds)[b])
  {
    hide InStep, Phi, VariantBytes, ReadVariant, Encoder.SaveTarget, Compatible;
    var body := e.SaveTarget(st.(objs := st.objs[a := 128]), p, e.h[a].x).1;
    InStepObj(e, st, ds, a);
    NewObjectSaves(e, st, p, a, st.(objs := st.objs[a := 128]), 128);
    SmallestFailure(body + tail);
    assert VariantBytes(128) + body + tail == VariantBytes(128) + (body + tail);
    SomeObjectHasId(e, st, ds, 1);
  }

  /** Ids are a bijection: every number up to the table size belongs to an object. */
  lemma SomeObjectHasId(e: Encoder, st: EncState, ds: DecState, id: nat)
    requires InStep(e, st, ds) && 0 < id <= |st.objs|
    ensures exists b :: b in st.objs && b in Phi(st, ds) && st.objs[b] == id && Phi(st, ds)[b] == ds.objs[id].ptr
  {
    hide ClassesInStep, KindOf, Phi;
    if forall b :: b in st.objs ==> st.objs[b] != id {
      forall a, b | a in st.objs && b in st.objs && a != b ensures st.objs[a] != st.objs[b] {
        assert Distinct(st, ds, a, b);
      }
      forall a | a in st.objs ensures 0 < st.objs[a] <= |st.objs| {
        InStepObj(e, st, ds, a);
      }
      Pigeonhole(st.objs, |st.objs|, id);
      assert false;
    }
    var b :| b in st.objs && st.objs[b] == id;
    InStepObj(e, st, ds, b);
  }

  lemma {:induction false} Pigeonhole<K>(m: map<K, nat>, n: nat, missing: nat)
    requires forall a, b :: a in m && b in m && a != b ==> m[a] != m[b]
    requires forall a :: a in m ==> 0 < m[a] <= n && m[a] != missing
    requires missing <= n
    ensures if missing == 0 then |m| <= n else |m| < n
    decreases n
  {
    if n == 0 {
      assert m.Keys == {};
      assert |m| == |m.Keys|;
    } else {
      var less := if missing == n then 0 else missing;
      if a :| a in m && m[a] == n {
        var rest := m - {a};
        assert m.Keys == rest.Keys + {a};
        assert |m.Keys| == |rest.Keys| + 1;
        assert |m.Keys| == |m| && |rest.Keys| == |rest|;
        Pigeonhole(rest, n - 1, less);
      } else {
        Pigeonhole(m, n - 1, less);
      }
    }
  }
}
