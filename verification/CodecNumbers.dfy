/** Which numbers and names a stream contains: the ids of the objects and dynamic classes that it
    visits, those classes' names, and the sizes of the containers of variable size.  The stream is
    clear for a reader exactly when that reader can read all these numbers and the lengths of the
    names, and no name has a zero byte. */
module CodecNumbers {
  import opened Streams
  import opened Variant
  import opened Codec
  import opened CodecRoundTrip

  // ----- Container sizes -----

  /** The sizes that are written for a value; those of arrays and classes are not. */
  ghost predicate SizesReadable(env: Env, rd: Reader, t: Ty, v: Val)
    decreases v, 1
  {
    match (t, v)
    case (Array(_, e), Items(vs)) => SizesReadableElems(env, rd, Inline(e), vs)
    case (Sequence(e), Items(vs)) => Readable(rd, |vs|) && SizesReadableElems(env, rd, e, vs)
    case (Assoc(e, _), Items(vs)) => Readable(rd, |vs|) && SizesReadableElems(env, rd, e, vs)
    case (Tuple(ts), Items(vs)) => SizesReadableTuple(env, rd, ts, vs)
    case (Optional(e), Items(vs)) => vs == [] || SizesReadable(env, rd, e, vs[0])
    case (Unique(p), Items(vs)) => vs == [] || SizesReadableTarget(env, rd, p, vs[0])
    case _ => true
  }

  ghost predicate SizesReadableElems(env: Env, rd: Reader, e: Elem, vs: seq<Val>)
    decreases vs, 0
  {
    vs == [] || (e.Named? && e.c !in env.types) ||
    (SizesReadable(env, rd, ElemType(env, e), vs[0]) && SizesReadableElems(env, rd, e, vs[1..]))
  }

  ghost predicate SizesReadableTuple(env: Env, rd: Reader, ts: seq<Ty>, vs: seq<Val>)
    decreases vs, 0
  {
    vs == [] || ts == [] || (SizesReadable(env, rd, ts[0], vs[0]) && SizesReadableTuple(env, rd, ts[1..], vs[1..]))
  }

  ghost predicate SizesReadableTarget(env: Env, rd: Reader, p: Pointee, x: Val)
    decreases x, 2
  {
    ClassOf(p, x) in env.types ==> SizesReadable(env, rd, env.types[ClassOf(p, x)], Inner(p, x))
  }

  /** The sizes inside an object of the heap. */
  ghost predicate ObjectSizesReadable(e: Encoder, rd: Reader, a: Addr)
    requires a in e.h
  {
    match KindOf(e.h[a])
    case StaticKind(c) => c in e.env.types ==> SizesReadable(e.env, rd, e.env.types[c], e.h[a].x)
    case DynamicKind(c) => c in e.env.types ==> SizesReadable(e.env, rd, e.env.types[c], e.h[a].x.v)
    case BadKind => true
  }

  // ----- Encoder states -----

  /** Ids are at most the table sizes. */
  ghost predicate Numbered(e: Encoder, st: EncState) {
    && (forall a :: a in st.objs ==> a in e.h && 0 < st.objs[a] <= |st.objs|)
    && (forall c :: c in st.classes ==> st.classes[c] < |st.classes|)
  }

  ghost predicate Extends(st: EncState, st': EncState) {
    && st.objs.Keys <= st'.objs.Keys && |st.objs| <= |st'.objs|
    && st.classes.Keys <= st'.classes.Keys && |st.classes| <= |st'.classes|
  }

  ghost predicate RangeReadable(rd: Reader, from: nat, to: nat) {
    forall n: nat :: from <= n < to ==> Readable(rd, n)
  }

  ghost predicate NamesReadable(rd: Reader, names: set<Name>) {
    forall c :: c in names ==> NameSurvives(rd, c)
  }

  ghost predicate ObjectsReadable(e: Encoder, rd: Reader, objects: set<Addr>) {
    forall a :: a in objects && a in e.h ==> ObjectSizesReadable(e, rd, a)
  }

  /** Everything numbered so far is readable. */
  ghost predicate KnownReadable(rd: Reader, st: EncState) {
    RangeReadable(rd, 0, |st.objs| + 1) && RangeReadable(rd, 0, |st.classes|)
  }

  /** Everything numbered between two states is readable, with the sizes inside the objects, and the
      names of the classes survive. */
  ghost predicate StepReadable(e: Encoder, rd: Reader, st: EncState, st': EncState) {
    && RangeReadable(rd, |st.objs| + 1, |st'.objs| + 1)
    && RangeReadable(rd, |st.classes|, |st'.classes|)
    && NamesReadable(rd, st'.classes.Keys - st.classes.Keys)
    && ObjectsReadable(e, rd, st'.objs.Keys - st.objs.Keys)
  }

  lemma RangeSplit(rd: Reader, from: nat, mid: nat, to: nat)
    requires from <= mid <= to
    ensures RangeReadable(rd, from, to) <==> RangeReadable(rd, from, mid) && RangeReadable(rd, mid, to)
  {
    hide Readable;
  }

  lemma RangeOne(rd: Reader, n: nat)
    ensures RangeReadable(rd, n, n + 1) <==> Readable(rd, n)
    ensures RangeReadable(rd, n, n)
  {
    hide Readable;
  }

  lemma RangeAt(rd: Reader, from: nat, to: nat, n: nat)
    requires RangeReadable(rd, from, to) && from <= n < to
    ensures Readable(rd, n)
  {
    hide Readable;
  }

  lemma NamesSplit(rd: Reader, a: set<Name>, b: set<Name>, c: set<Name>)
    requires a <= b <= c
    ensures NamesReadable(rd, c - a) <==> NamesReadable(rd, b - a) && NamesReadable(rd, c - b)
  {
    hide Readable;
    assert c - a == (b - a) + (c - b);
  }

  lemma ObjectsSplit(e: Encoder, rd: Reader, a: set<Addr>, b: set<Addr>, c: set<Addr>)
    requires a <= b <= c
    ensures ObjectsReadable(e, rd, c - a) <==> ObjectsReadable(e, rd, b - a) && ObjectsReadable(e, rd, c - b)
  {
    hide ObjectSizesReadable;
    assert c - a == (b - a) + (c - b);
  }

  lemma NamesOne(rd: Reader, a: set<Name>, c: Name)
    requires c !in a
    ensures NamesReadable(rd, (a + {c}) - a) <==> NameSurvives(rd, c)
    ensures NamesReadable(rd, a - a)
  {
    hide Readable;
    assert (a + {c}) - a == {c};
  }

  lemma ObjectsOne(e: Encoder, rd: Reader, s: set<Addr>, a: Addr)
    requires a !in s && a in e.h
    ensures ObjectsReadable(e, rd, (s + {a}) - s) <==> ObjectSizesReadable(e, rd, a)
    ensures ObjectsReadable(e, rd, s - s)
  {
    hide ObjectSizesReadable;
    assert (s + {a}) - s == {a};
  }

  lemma StepSplit(e: Encoder, rd: Reader, st: EncState, st1: EncState, st2: EncState)
    requires Extends(st, st1) && Extends(st1, st2)
    ensures Extends(st, st2)
    ensures StepReadable(e, rd, st, st2) <==> StepReadable(e, rd, st, st1) && StepReadable(e, rd, st1, st2)
  {
    hide RangeReadable, NamesReadable, ObjectsReadable;
    RangeSplit(rd, |st.objs| + 1, |st1.objs| + 1, |st2.objs| + 1);
    RangeSplit(rd, |st.classes|, |st1.classes|, |st2.classes|);
    NamesSplit(rd, st.classes.Keys, st1.classes.Keys, st2.classes.Keys);
    ObjectsSplit(e, rd, st.objs.Keys, st1.objs.Keys, st2.objs.Keys);
  }

  lemma StepKnown(e: Encoder, rd: Reader, st: EncState, st': EncState)
    requires KnownReadable(rd, st) && StepReadable(e, rd, st, st') && Extends(st, st')
    ensures KnownReadable(rd, st')
  {
    hide RangeReadable, NamesReadable, ObjectsReadable;
    RangeSplit(rd, 0, |st.objs| + 1, |st'.objs| + 1);
    RangeSplit(rd, 0, |st.classes|, |st'.classes|);
  }

  lemma StepNothing(e: Encoder, rd: Reader, st: EncState)
    ensures Extends(st, st) && StepReadable(e, rd, st, st)
  {
    hide Readable, ObjectSizesReadable;
  }

  // ----- The induction -----

  /** What Save does to the encoder's tables, and when what it writes is clear. */
  ghost predicate Counts(e: Encoder, rd: Reader, st: EncState, st': EncState, clear: bool, sizes: bool) {
    && Extends(st, st') && Numbered(e, st')
    && (KnownReadable(rd, st) ==> (clear <==> StepReadable(e, rd, st, st') && sizes))
  }

  lemma CountsNothing(e: Encoder, rd: Reader, st: EncState)
    requires Numbered(e, st)
    ensures Counts(e, rd, st, st, true, true)
  {
    hide Readable;
    StepNothing(e, rd, st);
  }

  lemma CountsBoth(e: Encoder, rd: Reader, st: EncState, st1: EncState, st2: EncState, c1: bool, s1: bool, c2: bool, s2: bool)
    requires Counts(e, rd, st, st1, c1, s1) && Counts(e, rd, st1, st2, c2, s2)
    ensures Counts(e, rd, st, st2, c1 && c2, s1 && s2)
  {
    hide KnownReadable, StepReadable, Extends, Numbered;
    StepSplit(e, rd, st, st1, st2);
    if KnownReadable(rd, st) && StepReadable(e, rd, st, st1) {
      StepKnown(e, rd, st, st1);
    }
  }

  lemma {:induction false} CountsSave(e: Encoder, rd: Reader, st: EncState, t: Ty, v: Val)
    requires e.env.Valid() && HeapOk(e.env, e.h) && Numbered(e, st) && TypedHere(e, t, v)
    ensures Counts(e, rd, st, e.Save(st, t, v).0, Clear(e, rd, st, t, v), SizesReadable(e.env, rd, t, v))
    decreases e.h.Keys - st.objs.Keys, v, 1
  {
    hide HeapOk, Numbered, Counts, Encoder.SaveElems, Encoder.SaveTuple, Encoder.SaveTarget, TypedElems, TypedTuple, TypedTarget,
      ClearElems, ClearTuple, ClearTarget, SizesReadableElems, SizesReadableTuple, SizesReadableTarget, Readable, VariantBytes,
      Holds, KindOf;
    match t {
      case Scalar(_) => CountsNothing(e, rd, st);
      case Array(_, t') => CountsElems(e, rd, st, Inline(t'), v.vs);
      case Sequence(el) =>
        CountsElems(e, rd, st, el, v.vs);
        CountsSize(e, rd, st, e.SaveElems(st, el, v.vs).0, ClearElems(e, rd, st, el, v.vs),
                   SizesReadableElems(e.env, rd, el, v.vs), Readable(rd, |v.vs|));
      case Assoc(el, _) =>
        CountsElems(e, rd, st, el, v.vs);
        CountsSize(e, rd, st, e.SaveElems(st, el, v.vs).0, ClearElems(e, rd, st, el, v.vs),
                   SizesReadableElems(e.env, rd, el, v.vs), Readable(rd, |v.vs|));
      case Tuple(ts) => CountsTuple(e, rd, st, ts, v.vs);
      case Optional(t') =>
        if v.vs == [] {
          CountsNothing(e, rd, st);
        } else {
          CountsSave(e, rd, st, t', v.vs[0]);
          CountsOptional(e, rd, st, t', v.vs);
        }
      case Unique(p) =>
        if v.vs == [] {
          CountsNothing(e, rd, st);
        } else {
          CountsTarget(e, rd, st, p, v.vs[0]);
        }
      case Shared(p) =>
        if v.Null? {
          CountsNothing(e, rd, st);
        } else {
          CountsShared(e, rd, st, p, v.a);
        }
    }
  }

  lemma CountsSize(e: Encoder, rd: Reader, st: EncState, st': EncState, clear: bool, sizes: bool, size: bool)
    requires Counts(e, rd, st, st', clear, sizes)
    ensures Counts(e, rd, st, st', size && clear, size && sizes)
  {
    hide KnownReadable, StepReadable, Extends, Numbered;
  }

  lemma CountsOptional(e: Encoder, rd: Reader, st: EncState, t: Ty, vs: seq<Val>)
    requires vs != []
    ensures e.Save(st, Optional(t), Items(vs)).0 == e.Save(st, t, vs[0]).0
    ensures Clear(e, rd, st, Optional(t), Items(vs)) == Clear(e, rd, st, t, vs[0])
    ensures SizesReadable(e.env, rd, Optional(t), Items(vs)) == SizesReadable(e.env, rd, t, vs[0])
  {
  }

  lemma {:induction false} CountsElems(e: Encoder, rd: Reader, st: EncState, el: Elem, vs: seq<Val>)
    requires e.env.Valid() && HeapOk(e.env, e.h) && Numbered(e, st) && TypedElems(e.env, KindsOf(e.h), el, vs)
    ensures Counts(e, rd, st, e.SaveElems(st, el, vs).0, ClearElems(e, rd, st, el, vs), SizesReadableElems(e.env, rd, el, vs))
    decreases e.h.Keys - st.objs.Keys, vs, 0
  {
    hide HeapOk, Encoder.Save, Typed, Clear, SizesReadable, KnownReadable, StepReadable, Extends;
    if vs == [] {
      CountsNothing(e, rd, st);
    } else {
      var t := ElemType(e.env, el);
      var st1 := e.Save(st, t, vs[0]).0;
      CountsSave(e, rd, st, t, vs[0]);
      CountsElems(e, rd, st1, el, vs[1..]);
      CountsBoth(e, rd, st, st1, e.SaveElems(st1, el, vs[1..]).0, Clear(e, rd, st, t, vs[0]), SizesReadable(e.env, rd, t, vs[0]),
                 ClearElems(e, rd, st1, el, vs[1..]), SizesReadableElems(e.env, rd, el, vs[1..]));
    }
  }

  lemma {:induction false} CountsTuple(e: Encoder, rd: Reader, st: EncState, ts: seq<Ty>, vs: seq<Val>)
    requires e.env.Valid() && HeapOk(e.env, e.h) && Numbered(e, st) && |ts| == |vs| && TypedTuple(e.env, KindsOf(e.h), ts, vs)
    ensures Counts(e, rd, st, e.SaveTuple(st, ts, vs).0, ClearTuple(e, rd, st, ts, vs), SizesReadableTuple(e.env, rd, ts, vs))
    decreases e.h.Keys - st.objs.Keys, vs, 0
  {
    hide HeapOk, Encoder.Save, Typed, Clear, SizesReadable, KnownReadable, StepReadable, Extends;
    if vs == [] {
      CountsNothing(e, rd, st);
    } else {
      var st1 := e.Save(st, ts[0], vs[0]).0;
      CountsSave(e, rd, st, ts[0], vs[0]);
      CountsTuple(e, rd, st1, ts[1..], vs[1..]);
      CountsBoth(e, rd, st, st1, e.SaveTuple(st1, ts[1..], vs[1..]).0,
                 Clear(e, rd, st, ts[0], vs[0]), SizesReadable(e.env, rd, ts[0], vs[0]),
                 ClearTuple(e, rd, st1, ts[1..], vs[1..]), SizesReadableTuple(e.env, rd, ts[1..], vs[1..]));
    }
  }

  lemma OneClass(e: Encoder, rd: Reader, st: EncState, st1: EncState, c: Name)
    requires c !in st.classes && st1.objs == st.objs
    requires st1.classes.Keys == st.classes.Keys + {c} && |st1.classes| == |st.classes| + 1
    ensures Extends(st, st1)
    ensures StepReadable(e, rd, st, st1) <==> Readable(rd, |st.classes|) && NameSurvives(rd, c)
  {
    hide Readable, RangeReadable, NamesReadable, ObjectsReadable;
    RangeOne(rd, |st.classes|);
    RangeOne(rd, |st.objs| + 1);
    NamesOne(rd, st.classes.Keys, c);
    NoObjects(e, rd, st.objs.Keys);
  }

  lemma NoObjects(e: Encoder, rd: Reader, s: set<Addr>)
    ensures ObjectsReadable(e, rd, s - s)
  {
    hide ObjectSizesReadable;
  }

  lemma NumberedClass(e: Encoder, st: EncState, st1: EncState, c: Name)
    requires Numbered(e, st) && c !in st.classes && st1.objs == st.objs
    requires st1.classes == st.classes[c := |st.classes|] && |st1.classes| == |st.classes| + 1
    ensures Numbered(e, st1)
  {
  }

  lemma CountsHeader(e: Encoder, rd: Reader, st: EncState, p: Pointee, x: Val)
    requires e.env.Valid() && Numbered(e, st) && TypedTarget(e.env, KindsOf(e.h), p, x)
    ensures SaveHeader(e, st, p, x).0.objs == st.objs
    ensures Counts(e, rd, st, SaveHeader(e, st, p, x).0, ClearHeader(rd, st, p, x), true)
  {
    hide Readable, Typed, StepReadable, Extends, Numbered, VariantBytes;
    var c := ClassOf(p, x);
    if p.Dynamic? && c !in st.classes {
      MapInsert(st.classes, SaveHeader(e, st, p, x).0.classes, c, |st.classes|);
      OneClass(e, rd, st, SaveHeader(e, st, p, x).0, c);
      NumberedClass(e, st, SaveHeader(e, st, p, x).0, c);
    } else {
      CountsNothing(e, rd, st);
      if p.Dynamic? {
        KnownClass(e, rd, st, c);
      }
    }
  }

  lemma KnownClass(e: Encoder, rd: Reader, st: EncState, c: Name)
    requires Numbered(e, st) && c in st.classes
    ensures KnownReadable(rd, st) ==> Readable(rd, st.classes[c])
  {
    hide Readable, RangeReadable;
    if KnownReadable(rd, st) {
      RangeAt(rd, 0, |st.classes|, st.classes[c]);
    }
  }

  lemma {:induction false} CountsTarget(e: Encoder, rd: Reader, st: EncState, p: Pointee, x: Val)
    requires e.env.Valid() && HeapOk(e.env, e.h) && Numbered(e, st) && TypedTarget(e.env, KindsOf(e.h), p, x)
    ensures Counts(e, rd, st, e.SaveTarget(st, p, x).0, ClearTarget(e, rd, st, p, x), SizesReadableTarget(e.env, rd, p, x))
    decreases e.h.Keys - st.objs.Keys, x, 2
  {
    hide HeapOk, Encoder.Save, Typed, TypedTarget, Clear, ClearTarget, SizesReadable, KnownReadable, StepReadable, Extends, Numbered,
      SaveHeader, ClearHeader;
    TargetParts(e, st, p, x);
    ClearParts(e, rd, st, p, x);
    CountsHeader(e, rd, st, p, x);
    var st1, t := SaveHeader(e, st, p, x).0, e.env.types[ClassOf(p, x)];
    CountsSave(e, rd, st1, t, Inner(p, x));
    CountsBoth(e, rd, st, st1, e.Save(st1, t, Inner(p, x)).0, ClearHeader(rd, st, p, x), true,
               Clear(e, rd, st1, t, Inner(p, x)), SizesReadable(e.env, rd, t, Inner(p, x)));
  }

  lemma {:induction false} CountsShared(e: Encoder, rd: Reader, st: EncState, p: Pointee, a: Addr)
    requires e.env.Valid() && HeapOk(e.env, e.h) && Numbered(e, st) && a in e.h && Holds(e.env, p, KindOf(e.h[a]))
    ensures Counts(e, rd, st, e.Save(st, Shared(p), Ref(a)).0, Clear(e, rd, st, Shared(p), Ref(a)), true)
    decreases e.h.Keys - st.objs.Keys, Ref(a), 0
  {
    hide HeapOk, Encoder.Save, Encoder.SaveTarget, Clear, ClearTarget, TypedTarget, Readable, SizesReadableTarget,
      Counts, ObjectSizesReadable, Numbered, Holds, KindOf;
    if a in st.objs {
      SharedKnown(e, rd, st, p, a);
      CountsKnown(e, rd, st, a);
    } else {
      var st1 := st.(objs := st.objs[a := |st.objs| + 1]);
      assert a in e.h.Keys - st.objs.Keys && a !in e.h.Keys - st1.objs.Keys;
      MapInsert(st.objs, st1.objs, a, |st.objs| + 1);
      SharedFirst(e, rd, st, p, a);
      HeapTarget(e, p, a);
      NumberedNew(e, st, st1, a);
      CountsTarget(e, rd, st1, p, e.h[a].x);
      TargetSizes(e, rd, p, a);
      CountsNew(e, rd, st, st1, e.SaveTarget(st1, p, e.h[a].x).0, a, ClearTarget(e, rd, st1, p, e.h[a].x),
                SizesReadableTarget(e.env, rd, p, e.h[a].x));
    }
  }

  lemma CountsKnown(e: Encoder, rd: Reader, st: EncState, a: Addr)
    requires Numbered(e, st) && a in st.objs
    ensures Counts(e, rd, st, st, Readable(rd, st.objs[a]), true)
  {
    hide Readable, RangeReadable;
    StepNothing(e, rd, st);
    if KnownReadable(rd, st) {
      RangeAt(rd, 0, |st.objs| + 1, st.objs[a]);
    }
  }

  lemma HeapTarget(e: Encoder, p: Pointee, a: Addr)
    requires HeapOk(e.env, e.h) && a in e.h && Holds(e.env, p, KindOf(e.h[a]))
    ensures TypedTarget(e.env, KindsOf(e.h), p, e.h[a].x)
  {
    assert CellOk(e.env, e.h, a);
  }

  lemma TargetSizes(e: Encoder, rd: Reader, p: Pointee, a: Addr)
    requires a in e.h && Holds(e.env, p, KindOf(e.h[a]))
    ensures SizesReadableTarget(e.env, rd, p, e.h[a].x) == ObjectSizesReadable(e, rd, a)
  {
    hide SizesReadable;
  }

  lemma NumberedNew(e: Encoder, st: EncState, st1: EncState, a: Addr)
    requires Numbered(e, st) && a in e.h && a !in st.objs && st1 == st.(objs := st.objs[a := |st.objs| + 1])
    ensures Numbered(e, st1)
  {
    MapInsert(st.objs, st1.objs, a, |st.objs| + 1);
  }

  lemma OneObject(e: Encoder, rd: Reader, st: EncState, st1: EncState, a: Addr)
    requires a in e.h && a !in st.objs && st1.classes == st.classes
    requires st1.objs.Keys == st.objs.Keys + {a} && |st1.objs| == |st.objs| + 1
    ensures Extends(st, st1)
    ensures StepReadable(e, rd, st, st1) <==> Readable(rd, |st.objs| + 1) && ObjectSizesReadable(e, rd, a)
  {
    hide Readable, ObjectSizesReadable, RangeReadable, NamesReadable, ObjectsReadable;
    RangeOne(rd, |st.objs| + 1);
    RangeOne(rd, |st.classes|);
    ObjectsOne(e, rd, st.objs.Keys, a);
    NoNames(rd, st.classes.Keys);
  }

  lemma NoNames(rd: Reader, s: set<Name>)
    ensures NamesReadable(rd, s - s)
  {
    hide Readable;
  }

  /** A first visit: one more id, and the sizes inside the object. */
  lemma CountsNew(e: Encoder, rd: Reader, st: EncState, st1: EncState, st2: EncState, a: Addr, clear: bool, sizes: bool)
    requires a in e.h && a !in st.objs && st1.classes == st.classes
    requires st1.objs.Keys == st.objs.Keys + {a} && |st1.objs| == |st.objs| + 1
    requires Counts(e, rd, st1, st2, clear, sizes) && sizes == ObjectSizesReadable(e, rd, a)
    ensures Counts(e, rd, st, st2, Readable(rd, |st.objs| + 1) && clear, true)
  {
    hide Readable, ObjectSizesReadable, Numbered, StepReadable, KnownReadable, Extends;
    OneObject(e, rd, st, st1, a);
    StepSplit(e, rd, st, st1, st2);
    OneKnown(rd, st, st1);
  }

  lemma OneKnown(rd: Reader, st: EncState, st1: EncState)
    requires st1.classes == st.classes && |st1.objs| == |st.objs| + 1
    ensures KnownReadable(rd, st) && Readable(rd, |st.objs| + 1) ==> KnownReadable(rd, st1)
  {
    hide Readable, RangeReadable;
    RangeSplit(rd, 0, |st.objs| + 1, |st1.objs| + 1);
    RangeOne(rd, |st.objs| + 1);
  }

  lemma SharedFirst(e: Encoder, rd: Reader, st: EncState, p: Pointee, a: Addr)
    requires a in e.h && a !in st.objs
    ensures var st1 := st.(objs := st.objs[a := |st.objs| + 1]);
      && e.Save(st, Shared(p), Ref(a)).0 == e.SaveTarget(st1, p, e.h[a].x).0
      && (Clear(e, rd, st, Shared(p), Ref(a)) <==> Readable(rd, |st.objs| + 1) && ClearTarget(e, rd, st1, p, e.h[a].x))
  {
    hide Encoder.SaveTarget, ClearTarget, Readable, VariantBytes;
  }

  lemma SharedKnown(e: Encoder, rd: Reader, st: EncState, p: Pointee, a: Addr)
    requires a in st.objs
    ensures e.Save(st, Shared(p), Ref(a)).0 == st
    ensures Clear(e, rd, st, Shared(p), Ref(a)) == Readable(rd, st.objs[a])
  {
    hide Encoder.SaveTarget, ClearTarget, Readable, VariantBytes;
  }

  // ----- What it comes to -----

  /** All numbers of the streams that end in encoder state `st`. */
  ghost predicate AllReadable(e: Encoder, rd: Reader, st: EncState, ts: seq<Ty>, vs: seq<Val>) {
    && (forall n: nat :: n <= |st.objs| ==> Readable(rd, n))
    && (forall n: nat :: n < |st.classes| ==> Readable(rd, n))
    && (forall c :: c in st.classes ==> NameSurvives(rd, c))
    && SizesReadableTuple(e.env, rd, ts, vs)
    && (forall a :: a in st.objs && a in e.h ==> ObjectSizesReadable(e, rd, a))
  }

  /** A stream is clear if and only if the ids of the visited objects and classes and the written
      sizes in the roots and visited objects are readable, and the names of the visited classes
      have readable lengths and no zero byte. */
  lemma ClearExactly(e: Encoder, rd: Reader, ts: seq<Ty>, vs: seq<Val>)
    requires e.env.Valid() && HeapOk(e.env, e.h) && |ts| == |vs| && TypedTuple(e.env, KindsOf(e.h), ts, vs)
    ensures ClearTuple(e, rd, NewEncoder, ts, vs) <==> AllReadable(e, rd, e.SaveTuple(NewEncoder, ts, vs).0, ts, vs)
  {
    hide Readable, Encoder.SaveTuple, ClearTuple, SizesReadableTuple, HeapOk, TypedTuple, ObjectSizesReadable;
    ZeroReadable(rd);
    assert KnownReadable(rd, NewEncoder) && Numbered(e, NewEncoder);
    CountsTuple(e, rd, NewEncoder, ts, vs);
  }

  /** For the reader as written the ids are readable if and only if fewer than 128 objects and at
      most 128 classes are visited. */
  lemma ClearAsWritten(e: Encoder, ts: seq<Ty>, vs: seq<Val>)
    requires e.env.Valid() && HeapOk(e.env, e.h) && |ts| == |vs| && TypedTuple(e.env, KindsOf(e.h), ts, vs)
    ensures var st := e.SaveTuple(NewEncoder, ts, vs).0;
      ClearTuple(e, AsWritten, NewEncoder, ts, vs) <==>
        && |st.objs| < 128 && |st.classes| <= 128 && (forall c :: c in st.classes ==> NameSurvives(AsWritten, c))
        && SizesReadableTuple(e.env, AsWritten, ts, vs)
        && (forall a :: a in st.objs && a in e.h ==> ObjectSizesReadable(e, AsWritten, a))
  {
    hide Readable, Encoder.SaveTuple, ClearTuple, SizesReadableTuple, HeapOk, TypedTuple, ObjectSizesReadable, VariantBytes, ReadVariant;
    ClearExactly(e, AsWritten, ts, vs);
    SmallestFailure([]);
  }
}
