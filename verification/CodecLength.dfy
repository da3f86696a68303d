/** No input is shorter than the encoding of what it is decoded into.  On any bytes, and even where
    the decoder has read other names and more classes than were written, decoding that yields the
    image of a value without associative containers consumes at least as many bytes as encoding
    the value writes. */
module CodecLength {
  import opened Results
  import opened Streams
  import opened Variant
  import opened Codec
  import opened CodecRoundTrip
  import opened CodecGraph
  import CodecHashes

  // ----- Values without associative containers -----

  ghost predicate AssocFree(env: Env, t: Ty, v: Val)
    decreases v, 1
  {
    match (t, v)
    case (Array(_, e), Items(vs)) => AssocFreeElems(env, Inline(e), vs)
    case (Sequence(e), Items(vs)) => AssocFreeElems(env, e, vs)
    case (Assoc(_, _), _) => false
    case (Tuple(ts), Items(vs)) => AssocFreeTuple(env, ts, vs)
    case (Optional(e), Items(vs)) => vs == [] || AssocFree(env, e, vs[0])
    case (Unique(p), Items(vs)) => vs == [] || AssocFreeTarget(env, p, vs[0])
    case _ => true
  }

  ghost predicate AssocFreeElems(env: Env, e: Elem, vs: seq<Val>)
    decreases vs, 0
  {
    vs == [] || (e.Named? && e.c !in env.types) ||
    (AssocFree(env, ElemType(env, e), vs[0]) && AssocFreeElems(env, e, vs[1..]))
  }

  ghost predicate AssocFreeTuple(env: Env, ts: seq<Ty>, vs: seq<Val>)
    decreases vs, 0
  {
    vs == [] || ts == [] || (AssocFree(env, ts[0], vs[0]) && AssocFreeTuple(env, ts[1..], vs[1..]))
  }

  ghost predicate AssocFreeTarget(env: Env, p: Pointee, x: Val)
    decreases x, 2
  {
    ClassOf(p, x) in env.types ==> AssocFree(env, env.types[ClassOf(p, x)], Inner(p, x))
  }

  ghost predicate AssocFreeHeap(env: Env, h: Heap) {
    forall a :: a in h ==> AssocFreeCell(env, h[a])
  }

  ghost predicate AssocFreeCell(env: Env, cell: Cell) {
    match KindOf(cell)
    case StaticKind(c) => c in env.types ==> AssocFree(env, env.types[c], cell.x)
    case DynamicKind(c) => c in env.types ==> AssocFree(env, env.types[c], cell.x.v)
    case BadKind => true
  }

  lemma TargetAssocFree(env: Env, h: Heap, p: Pointee, a: Addr)
    requires AssocFreeHeap(env, h) && a in h && Holds(env, p, KindOf(h[a]))
    ensures AssocFreeTarget(env, p, h[a].x)
  {
    hide AssocFree;
    assert AssocFreeCell(env, h[a]);
  }

  // ----- The memory that decoding ends with -----

  /** `memory` is a final memory that holds the image of every object. */
  ghost predicate HoldsImages(e: Encoder, phi: Renaming, memory: seq<Cell>) {
    && Injective(phi)
    && forall a :: a in phi && a in e.h ==> phi[a] < |memory| && memory[phi[a]].x == Rename(phi, e.h[a].x)
  }

  /** What lies in `heap` from `from` on is as it is in the final memory. */
  ghost predicate Final(heap: seq<Cell>, from: nat, memory: seq<Cell>) {
    |heap| <= |memory| && forall i :: from <= i < |heap| ==> memory[i] == heap[i]
  }

  lemma SplitFinal(h0: seq<Cell>, h1: seq<Cell>, h2: seq<Cell>, memory: seq<Cell>)
    requires h0 <= h1 && h1 <= h2 && Final(h2, |h0|, memory)
    ensures Final(h1, |h0|, memory) && Final(h2, |h1|, memory)
  {
    forall i | |h0| <= i < |h1| ensures memory[i] == h1[i] {
      assert h1[i] == h2[i];
    }
  }

  /** Loading leaves earlier memory alone. */
  lemma HeapGrows(d: Decoder, ds: DecState, t: Ty, bs: seq<byte>)
    requires d.env.Valid() && d.Load(ds, t, bs).Ok?
    ensures ds.heap <= d.Load(ds, t, bs).value.0.heap
  {
    hide Decoder.Load, CodecHashes.ClassesIn, CodecHashes.Attested, Env.Valid;
    CodecHashes.LoadAttests(d, ds, t, bs);
  }

  lemma ElemsGrow(d: Decoder, ds: DecState, el: Elem, n: nat, bs: seq<byte>)
    requires d.env.Valid() && d.LoadElems(ds, el, n, bs).Ok?
    ensures ds.heap <= d.LoadElems(ds, el, n, bs).value.0.heap
  {
    hide Decoder.LoadElems, CodecHashes.ClassesIn, CodecHashes.Attested, Env.Valid;
    CodecHashes.ElemsAttest(d, ds, el, n, bs);
  }

  lemma TupleGrows(d: Decoder, ds: DecState, ts: seq<Ty>, bs: seq<byte>)
    requires d.env.Valid() && d.LoadTuple(ds, ts, bs).Ok?
    ensures ds.heap <= d.LoadTuple(ds, ts, bs).value.0.heap
  {
    hide Decoder.LoadTuple, CodecHashes.ClassesIn, CodecHashes.Attested, Env.Valid;
    CodecHashes.TupleAttests(d, ds, ts, bs);
  }

  ghost predicate Whole(e: Encoder, phi: Renaming, memory: seq<Cell>) {
    Setting(e) && AssocFreeHeap(e.env, e.h) && HoldsImages(e, phi, memory)
  }

  lemma WholeValid(e: Encoder, phi: Renaming, memory: seq<Cell>)
    requires Whole(e, phi, memory)
    ensures e.env.Valid()
  {
  }

  lemma WholeInjective(e: Encoder, phi: Renaming, memory: seq<Cell>)
    requires Whole(e, phi, memory)
    ensures Injective(phi)
  {
  }

  lemma ConsImages(phi: Renaming, vs: seq<Val>, v: Val, rest: seq<Val>)
    requires vs != [] && [v] + rest == RenameAll(phi, vs)
    ensures v == Rename(phi, vs[0]) && rest == RenameAll(phi, vs[1..])
  {
    hide Rename;
    var images := [Rename(phi, vs[0])] + RenameAll(phi, vs[1..]);
    assert ([v] + rest)[0] == images[0] && ([v] + rest)[1..] == images[1..];
  }

  /** The image of a target determines the class that was read and the content. */
  lemma BuiltIs(phi: Renaming, p: Pointee, x: Val, c: Name, v: Val)
    requires Built(p, c, v) == Rename(phi, x) && Built(p, ClassOf(p, x), Inner(p, x)) == x && (p.Static? ==> c == p.c)
    ensures c == ClassOf(p, x) && v == Rename(phi, Inner(p, x))
  {
  }

  lemma RefImage(phi: Renaming, a: Addr, ptr: Addr)
    requires Rename(phi, Ref(a)) == Ref(ptr)
    ensures a in phi && phi[a] == ptr
  {
  }

  /** The finished object lies in the final memory, so it is the image of `a`; what was created
      while its content was read is final too. */
  lemma FilledImage(e: Encoder, d: Decoder, ds: DecState, ds1: DecState, ds3: DecState, p: Pointee, c: Name, v: Val,
                    a: Addr, phi: Renaming, memory: seq<Cell>)
    requires Whole(e, phi, memory) && a in e.h && a in phi && phi[a] == |ds.heap|
    requires ds1.heap == ds.heap && d.Publish(ds1, p, c).heap <= ds3.heap
    requires Final(d.Fill(ds3, |ds.heap|, Built(p, c, v)).heap, |ds.heap|, memory)
    ensures Built(p, c, v) == Rename(phi, e.h[a].x)
    ensures Final(ds3.heap, |d.Publish(ds1, p, c).heap|, memory)
    ensures var ds' := d.Fill(ds3, |ds.heap|, Built(p, c, v)); ds'.objs == ds3.objs && ds'.classes == ds3.classes
  {
    hide Setting, AssocFreeHeap, Built, NewCell, Rename, Injective;
    var heap' := d.Fill(ds3, |ds.heap|, Built(p, c, v)).heap;
    assert heap'[|ds.heap|].x == Built(p, c, v);
  }

  // ----- What loading does, in terms of its parts -----

  /** Loading a pointer either refers to a known object or creates one. */
  lemma SharedLoads(d: Decoder, ds: DecState, p: Pointee, bs: seq<byte>)
    requires d.Load(ds, Shared(p), bs).Ok?
    ensures ReadVariant(d.rd, bs).Ok?
    ensures var (id, rest) := ReadVariant(d.rd, bs).value;
      var r := d.Load(ds, Shared(p), bs);
      && (id == 0 ==> r.value == (ds, Null, rest))
      && (0 < id < |ds.objs| ==> r.value == (ds, Ref(ds.objs[id].ptr), rest))
      && id <= |ds.objs|
  {
    hide ReadVariant, Decoder.LoadClass, Compatible, Decoder.Publish, Decoder.Fill, Built;
  }

  lemma CreatingLoads(d: Decoder, ds: DecState, p: Pointee, bs: seq<byte>, rest: seq<byte>)
    requires d.Load(ds, Shared(p), bs).Ok? && ReadVariant(d.rd, bs) == Ok((|ds.objs|, rest)) && |ds.objs| > 0
    ensures var h := d.LoadClass(ds, p, rest);
      && h.Ok? && h.value.1 in d.env.types && (p.Static? ==> h.value.1 == p.c) && h.value.0.heap == ds.heap
      && var l := d.Load(d.Publish(h.value.0, p, h.value.1), d.env.types[h.value.1], h.value.2);
      && l.Ok?
      && d.Load(ds, Shared(p), bs)
           == Ok((d.Fill(l.value.0, |ds.heap|, Built(p, h.value.1, l.value.1)), Ref(|ds.heap|), l.value.2))
  {
    hide ReadVariant, Decoder.LoadNewClass, Decoder.Publish, Decoder.Fill, Built;
  }

  /** An owned object is a flag, a class and a content. */
  lemma OwnedLoads(d: Decoder, ds: DecState, p: Pointee, bs: seq<byte>)
    requires d.Load(ds, Unique(p), bs).Ok? && d.Load(ds, Unique(p), bs).value.1 != Items([])
    ensures bs != []
    ensures var h := d.LoadClass(ds, p, bs[1..]);
      && h.Ok? && h.value.1 in d.env.types && (p.Static? ==> h.value.1 == p.c)
      && var l := d.Load(h.value.0, d.env.types[h.value.1], h.value.2);
      && l.Ok? && d.Load(ds, Unique(p), bs) == Ok((l.value.0, Items([Built(p, h.value.1, l.value.1)]), l.value.2))
  {
    hide ReadVariant, Decoder.LoadNewClass;
  }

  lemma OptionalLoads(d: Decoder, ds: DecState, t: Ty, bs: seq<byte>)
    requires d.Load(ds, Optional(t), bs).Ok? && d.Load(ds, Optional(t), bs).value.1 != Items([])
    ensures bs != []
    ensures var l := d.Load(ds, t, bs[1..]);
      l.Ok? && d.Load(ds, Optional(t), bs) == Ok((l.value.0, Items([l.value.1]), l.value.2))
  {
  }

  lemma AbsentLoads(d: Decoder, ds: DecState, t: Ty, p: Pointee, bs: seq<byte>)
    ensures var r := d.Load(ds, Optional(t), bs);
      r.Ok? && r.value.1 == Items([]) ==> bs != [] && r.value.0 == ds && r.value.2 == bs[1..]
    ensures var r := d.Load(ds, Unique(p), bs);
      r.Ok? && r.value.1 == Items([]) ==> bs != [] && r.value.0 == ds && r.value.2 == bs[1..]
  {
    hide Decoder.LoadClass;
  }

  // ----- Numbers -----

  lemma Pow128Step(n: nat)
    ensures Pow128(n + 1) == 128 * Pow128(n) && Pow128(0) == 1
  {
  }

  lemma StepBound(rd: Reader, acc: nat, w: nat, b: byte, n: nat)
    requires acc < Pow128(n) && w <= Pow128(n)
    ensures Variant.Step(rd, acc, w, b) < Pow128(n + 1) && Wrap(w * 128) <= Pow128(n + 1)
  {
    Pow128Step(n);
    hide Pow128;
    WrapLess(acc * 128 + b % 128);
    WrapLess(w * 128);
    assert b % 128 * w <= 127 * w;
    WrapLess(acc + b % 128 * w);
  }

  lemma WrapLess(x: nat)
    ensures Wrap(x) <= x
  {
  }

  lemma {:induction false} FoldBound(rd: Reader, bs: seq<byte>, acc: nat, w: nat, n: nat)
    requires acc < Pow128(n) && w <= Pow128(n) && Fold(rd, bs, acc, w).Ok?
    ensures var (v, rest) := Fold(rd, bs, acc, w).value;
      |rest| < |bs| && v < Pow128(n + (|bs| - |rest|))
    decreases |bs|
  {
    hide Pow128, Variant.Step, Wrap;
    StepBound(rd, acc, w, bs[0], n);
    if bs[0] >= 128 {
      FoldBound(rd, bs[1..], Variant.Step(rd, acc, w, bs[0]), Wrap(w * 128), n + 1);
    }
  }

  lemma {:induction false} VariantFits(l: nat, n: nat)
    requires l < Pow128(n) && n > 0
    ensures |VariantBytes(l)| <= n
    decreases l
  {
    Pow128Step(n - 1);
    Pow128Step(0);
    hide Pow128;
    if l >= 128 {
      assert n > 1;
      VariantFits(l / 128, n - 1);
    }
  }

  /** Reading a number takes at least as many bytes as writing it. */
  lemma ReadsEnough(rd: Reader, bs: seq<byte>)
    requires ReadVariant(rd, bs).Ok?
    ensures var (v, rest) := ReadVariant(rd, bs).value; |bs| >= |VariantBytes(v)| + |rest|
  {
    Pow128Step(0);
    hide Pow128;
    FoldBound(rd, bs, 0, 1, 0);
    var (v, rest) := ReadVariant(rd, bs).value;
    VariantFits(v, |bs| - |rest|);
  }

  /** Greater numbers are not shorter. */
  lemma {:induction false} GreaterNotShorter(a: nat, b: nat)
    requires a <= b
    ensures |VariantBytes(a)| <= |VariantBytes(b)|
    decreases b
  {
    if a >= 128 {
      GreaterNotShorter(a / 128, b / 128);
    }
  }

  // ----- Tables -----

  /** The decoder's class table holds all classes that the encoder numbered and no others, none of
      them before its number; some may be there more than once. */
  ghost predicate ClassesCovered(classes: map<Name, nat>, vec: seq<Name>) {
    && |classes| <= |vec|
    && (forall c :: c in classes ==> c in vec)
    && (forall i :: 0 <= i < |vec| ==> vec[i] in classes && classes[vec[i]] <= i)
  }

  /** The decoder's object table holds the images of the objects that the encoder numbered. */
  ghost predicate ObjectsCovered(st: EncState, ds: DecState, phi: Renaming) {
    && |ds.objs| == |st.objs| + 1
    && (forall a :: a in st.objs ==> ObjectCovered(st, ds, phi, a))
    && (forall i :: 0 < i < |ds.objs| ==> Numbers(st, i))
  }

  ghost predicate ObjectCovered(st: EncState, ds: DecState, phi: Renaming, a: Addr)
    requires a in st.objs
  {
    0 < st.objs[a] < |ds.objs| && a in phi && ds.objs[st.objs[a]].ptr == phi[a] && phi[a] < |ds.heap|
  }

  ghost predicate Numbers(st: EncState, i: nat) {
    exists a :: a in st.objs && st.objs[a] == i
  }

  ghost predicate Covers(st: EncState, ds: DecState, phi: Renaming) {
    ClassesCovered(st.classes, ds.classes) && ObjectsCovered(st, ds, phi)
  }

  /** Every entry of the decoder's class table belongs to the class with that number. */
  lemma ClassHasNumber(env: Env, classes: map<Name, nat>, vec: seq<Name>, i: nat)
    requires ClassesInStep(env, classes, vec) && i < |vec|
    ensures vec[i] in classes && classes[vec[i]] == i
  {
    if forall c :: c in classes ==> classes[c] != i {
      var ids := map c | c in classes :: classes[c] + 1;
      assert ids.Keys == classes.Keys;
      assert |ids| == |ids.Keys| && |classes| == |classes.Keys|;
      Pigeonhole(ids, |vec|, i + 1);
      assert false;
    }
  }

  /** States in step cover each other. */
  lemma InStepCovers(e: Encoder, st: EncState, ds: DecState, phi: Renaming)
    requires InStep(e, st, ds) && SubMap(Phi(st, ds), phi)
    ensures Covers(st, ds, phi)
  {
    hide InStep, Phi;
    InStepClasses(e, st, ds);
    ClassesInStepCovered(e.env, st.classes, ds.classes);
    hide ClassesInStep, ClassesCovered;
    InStepObj(e, st, ds, 0);
    forall a | a in st.objs ensures ObjectCovered(st, ds, phi, a) {
      InStepObj(e, st, ds, a);
    }
    forall i | 0 < i < |ds.objs| ensures Numbers(st, i) {
      SomeObjectHasId(e, st, ds, i);
    }
  }

  lemma ClassesInStepCovered(env: Env, classes: map<Name, nat>, vec: seq<Name>)
    requires ClassesInStep(env, classes, vec)
    ensures ClassesCovered(classes, vec)
  {
    forall i | 0 <= i < |vec| ensures vec[i] in classes && classes[vec[i]] <= i {
      ClassHasNumber(env, classes, vec, i);
    }
  }

  /** The object behind an id below the table size is the image of the object with that id. */
  lemma WhoseImage(st: EncState, ds: DecState, phi: Renaming, a: Addr, id: nat)
    requires ObjectsCovered(st, ds, phi) && Injective(phi) && a in phi
    requires 0 < id < |ds.objs| && ds.objs[id].ptr == phi[a]
    ensures a in st.objs && st.objs[a] == id
  {
    assert Numbers(st, id);
    var b :| b in st.objs && st.objs[b] == id;
    assert ObjectCovered(st, ds, phi, b);
  }

  // ----- Headers -----

  /** Any text that is cut to `c` is at least as long. */
  lemma TextEnough(rd: Reader, bs: seq<byte>, c: Name)
    requires ReadText(rd, bs).Ok? && CString(ReadText(rd, bs).value.0) == c
    ensures |bs| >= |TextBytes(c)| + |ReadText(rd, bs).value.1|
  {
    hide ReadVariant, VariantBytes;
    ReadsEnough(rd, bs);
    var (n, rest) := ReadVariant(rd, bs).value;
    assert ReadText(rd, bs) == Take(rest, n);
    GreaterNotShorter(|c|, n);
  }

  lemma NewClassEnough(d: Decoder, ds: DecState, bs: seq<byte>, c: Name)
    requires d.LoadNewClass(ds, bs).Ok? && d.LoadNewClass(ds, bs).value.0.classes[|ds.classes|] == c
    ensures d.LoadNewClass(ds, bs).value.0.classes == ds.classes + [c]
    ensures |bs| >= |TextBytes(c)| + 4 + |d.LoadNewClass(ds, bs).value.1|
  {
    hide ReadText, CString, TextBytes, Wire;
    TextEnough(d.rd, bs, c);
  }

  /** The class table after a class was read again or for the first time. */
  lemma CoveredMore(classes: map<Name, nat>, vec: seq<Name>, c: Name)
    requires ClassesCovered(classes, vec)
    ensures c in classes ==> ClassesCovered(classes, vec + [c]) && classes[c] < |vec|
    ensures c !in classes ==> ClassesCovered(classes[c := |classes|], vec + [c])
  {
    if c in classes {
      var i :| 0 <= i < |vec| && vec[i] == c;
      assert classes[vec[i]] <= i;
    } else {
      MapInsert(classes, classes[c := |classes|], c, |classes|);
    }
    forall x | x in classes ensures x in vec + [c] {
      assert x in vec;
    }
    assert (vec + [c])[|vec|] == c;
  }

  lemma HeaderEnough(e: Encoder, rd: Reader, st: EncState, ds: DecState, p: Pointee, x: Val, bs: seq<byte>)
    requires e.env.Valid() && ClassesCovered(st.classes, ds.classes) && TypedTarget(e.env, KindsOf(e.h), p, x)
    requires DecoderFor(e, rd).LoadClass(ds, p, bs).Ok? && DecoderFor(e, rd).LoadClass(ds, p, bs).value.1 == ClassOf(p, x)
    ensures var (ds1, c, rest) := DecoderFor(e, rd).LoadClass(ds, p, bs).value;
      && |bs| >= |SaveHeader(e, st, p, x).1| + |rest|
      && ClassesCovered(SaveHeader(e, st, p, x).0.classes, ds1.classes)
      && SaveHeader(e, st, p, x).0.objs == st.objs
  {
    hide VariantBytes, TextBytes, Wire, Typed, Env.Valid;
    if p.Dynamic? {
      var c := ClassOf(p, x);
      TargetRegistered(e, p, x);
      hide ClassesCovered;
      ClassEnough(e, rd, st, ds, p.base, c, bs);
    }
  }

  lemma TargetRegistered(e: Encoder, p: Pointee, x: Val)
    requires e.env.Valid() && TypedTarget(e.env, KindsOf(e.h), p, x)
    ensures ClassOf(p, x) in e.env.types && ClassOf(p, x) in e.env.hashes && |e.env.hashes[ClassOf(p, x)]| == 4
  {
    hide Typed;
  }

  lemma ClassEnough(e: Encoder, rd: Reader, st: EncState, ds: DecState, base: Name, c: Name, bs: seq<byte>)
    requires ClassesCovered(st.classes, ds.classes) && c in e.env.hashes && |e.env.hashes[c]| == 4
    requires DecoderFor(e, rd).LoadClass(ds, Dynamic(base), bs).Ok?
    requires DecoderFor(e, rd).LoadClass(ds, Dynamic(base), bs).value.1 == c
    ensures var (ds1, _, rest) := DecoderFor(e, rd).LoadClass(ds, Dynamic(base), bs).value;
      && |bs| >= |e.SaveClass(st, c).1| + |rest|
      && ClassesCovered(e.SaveClass(st, c).0.classes, ds1.classes)
  {
    hide ReadVariant, VariantBytes, TextBytes, Wire, Decoder.LoadNewClass;
    var d := DecoderFor(e, rd);
    var (id, after) := ReadVariant(rd, bs).value;
    ReadsEnough(rd, bs);
    CoveredMore(st.classes, ds.classes, c);
    if id == |ds.classes| {
      NewClassEnough(d, ds, after, c);
    }
    GreaterNotShorter(if c in st.classes then st.classes[c] else |st.classes|, id);
  }

  // ----- The induction -----

  ghost predicate Loads(e: Encoder, rd: Reader, ds: DecState, t: Ty, v: Val, bs: seq<byte>, phi: Renaming, memory: seq<Cell>,
                        ds': DecState, rest: seq<byte>) {
    DecoderFor(e, rd).Load(ds, t, bs) == Ok((ds', Rename(phi, v), rest)) && Final(ds'.heap, |ds.heap|, memory)
  }

  ghost predicate LoadsElems(e: Encoder, rd: Reader, ds: DecState, el: Elem, vs: seq<Val>, bs: seq<byte>, phi: Renaming,
                             memory: seq<Cell>, ds': DecState, rest: seq<byte>) {
    && DecoderFor(e, rd).LoadElems(ds, el, |vs|, bs) == Ok((ds', RenameAll(phi, vs), rest))
    && Final(ds'.heap, |ds.heap|, memory)
  }

  ghost predicate LoadsTuple(e: Encoder, rd: Reader, ds: DecState, ts: seq<Ty>, vs: seq<Val>, bs: seq<byte>, phi: Renaming,
                             memory: seq<Cell>, ds': DecState, rest: seq<byte>) {
    && DecoderFor(e, rd).LoadTuple(ds, ts, bs) == Ok((ds', RenameAll(phi, vs), rest))
    && Final(ds'.heap, |ds.heap|, memory)
  }

  lemma LoadsIf(e: Encoder, rd: Reader, ds: DecState, t: Ty, v: Val, bs: seq<byte>, phi: Renaming, memory: seq<Cell>,
                ds': DecState, rest: seq<byte>)
    requires DecoderFor(e, rd).Load(ds, t, bs) == Ok((ds', Rename(phi, v), rest)) && Final(ds'.heap, |ds.heap|, memory)
    ensures Loads(e, rd, ds, t, v, bs, phi, memory, ds', rest)
  {
    hide Decoder.Load, Rename, Final;
  }

  lemma LoadsMeans(e: Encoder, rd: Reader, ds: DecState, t: Ty, v: Val, bs: seq<byte>, phi: Renaming, memory: seq<Cell>,
                   ds': DecState, rest: seq<byte>)
    requires Loads(e, rd, ds, t, v, bs, phi, memory, ds', rest)
    ensures DecoderFor(e, rd).Load(ds, t, bs) == Ok((ds', Rename(phi, v), rest)) && Final(ds'.heap, |ds.heap|, memory)
  {
    hide Decoder.Load, Rename, Final;
  }

  /** Loading several values, taken apart. */
  lemma ElemsSplit(e: Encoder, rd: Reader, ds: DecState, el: Elem, vs: seq<Val>, bs: seq<byte>, phi: Renaming,
                   memory: seq<Cell>, ds': DecState, rest: seq<byte>) returns (ds1: DecState, rest1: seq<byte>)
    requires e.env.Valid() && vs != [] && (el.Named? ==> el.c in e.env.types)
    requires LoadsElems(e, rd, ds, el, vs, bs, phi, memory, ds', rest)
    ensures Loads(e, rd, ds, ElemType(e.env, el), vs[0], bs, phi, memory, ds1, rest1)
    ensures LoadsElems(e, rd, ds1, el, vs[1..], rest1, phi, memory, ds', rest)
  {
    hide Decoder.Load, Rename, RenameAll, Final, Loads, Env.Valid;
    var d, t := DecoderFor(e, rd), ElemType(e.env, el);
    var first := d.Load(ds, t, bs);
    ds1, rest1 := first.value.0, first.value.2;
    var more := d.LoadElems(ds1, el, |vs| - 1, rest1);
    HeapGrows(d, ds, t, bs);
    ElemsGrow(d, ds1, el, |vs| - 1, rest1);
    ConsImages(phi, vs, first.value.1, more.value.1);
    SplitFinal(ds.heap, ds1.heap, ds'.heap, memory);
    LoadsIf(e, rd, ds, t, vs[0], bs, phi, memory, ds1, rest1);
  }

  lemma TupleSplit(e: Encoder, rd: Reader, ds: DecState, ts: seq<Ty>, vs: seq<Val>, bs: seq<byte>, phi: Renaming,
                   memory: seq<Cell>, ds': DecState, rest: seq<byte>) returns (ds1: DecState, rest1: seq<byte>)
    requires e.env.Valid() && vs != [] && |ts| == |vs|
    requires LoadsTuple(e, rd, ds, ts, vs, bs, phi, memory, ds', rest)
    ensures Loads(e, rd, ds, ts[0], vs[0], bs, phi, memory, ds1, rest1)
    ensures LoadsTuple(e, rd, ds1, ts[1..], vs[1..], rest1, phi, memory, ds', rest)
  {
    hide Decoder.Load, Rename, RenameAll, Final, Loads, Env.Valid;
    var d := DecoderFor(e, rd);
    var first := d.Load(ds, ts[0], bs);
    ds1, rest1 := first.value.0, first.value.2;
    var more := d.LoadTuple(ds1, ts[1..], rest1);
    HeapGrows(d, ds, ts[0], bs);
    TupleGrows(d, ds1, ts[1..], rest1);
    ConsImages(phi, vs, first.value.1, more.value.1);
    SplitFinal(ds.heap, ds1.heap, ds'.heap, memory);
    LoadsIf(e, rd, ds, ts[0], vs[0], bs, phi, memory, ds1, rest1);
  }

  lemma {:induction false} ElemsEnough(e: Encoder, rd: Reader, st: EncState, ds: DecState, el: Elem, vs: seq<Val>,
                                       bs: seq<byte>, phi: Renaming, memory: seq<Cell>, ds': DecState, rest: seq<byte>)
    requires Whole(e, phi, memory) && Covers(st, ds, phi) && AssocFreeElems(e.env, el, vs)
    requires TypedElems(e.env, KindsOf(e.h), el, vs)
    requires LoadsElems(e, rd, ds, el, vs, bs, phi, memory, ds', rest)
    ensures |bs| >= |e.SaveElems(st, el, vs).1| + |rest| && Covers(e.SaveElems(st, el, vs).0, ds', phi)
    decreases e.h.Keys - st.objs.Keys, vs, 0
  {
    hide Whole, Covers, Encoder.Save, Decoder.Load, Typed, Loads, AssocFree, Env.Valid;
    if vs != [] {
      hide LoadsElems;
      WholeValid(e, phi, memory);
      var t := ElemType(e.env, el);
      var ds1, rest1 := ElemsSplit(e, rd, ds, el, vs, bs, phi, memory, ds', rest);
      LoadsEnough(e, rd, st, ds, t, vs[0], bs, phi, memory, ds1, rest1);
      ElemsEnough(e, rd, e.Save(st, t, vs[0]).0, ds1, el, vs[1..], rest1, phi, memory, ds', rest);
    }
  }

  lemma {:induction false} TupleEnough(e: Encoder, rd: Reader, st: EncState, ds: DecState, ts: seq<Ty>, vs: seq<Val>,
                                       bs: seq<byte>, phi: Renaming, memory: seq<Cell>, ds': DecState, rest: seq<byte>)
    requires Whole(e, phi, memory) && Covers(st, ds, phi) && AssocFreeTuple(e.env, ts, vs)
    requires |ts| == |vs| && TypedTuple(e.env, KindsOf(e.h), ts, vs)
    requires LoadsTuple(e, rd, ds, ts, vs, bs, phi, memory, ds', rest)
    ensures |bs| >= |e.SaveTuple(st, ts, vs).1| + |rest| && Covers(e.SaveTuple(st, ts, vs).0, ds', phi)
    decreases e.h.Keys - st.objs.Keys, vs, 0
  {
    hide Whole, Covers, Encoder.Save, Decoder.Load, Typed, Loads, AssocFree, Env.Valid;
    if vs != [] {
      hide LoadsTuple;
      WholeValid(e, phi, memory);
      var ds1, rest1 := TupleSplit(e, rd, ds, ts, vs, bs, phi, memory, ds', rest);
      LoadsEnough(e, rd, st, ds, ts[0], vs[0], bs, phi, memory, ds1, rest1);
      TupleEnough(e, rd, e.Save(st, ts[0], vs[0]).0, ds1, ts[1..], vs[1..], rest1, phi, memory, ds', rest);
    }
  }

  // Containers and classes.

  lemma SequenceSplit(e: Encoder, rd: Reader, st: EncState, ds: DecState, el: Elem, vs: seq<Val>, bs: seq<byte>, phi: Renaming,
                      memory: seq<Cell>, ds': DecState, rest: seq<byte>) returns (after: seq<byte>)
    requires Loads(e, rd, ds, Sequence(el), Items(vs), bs, phi, memory, ds', rest)
    ensures LoadsElems(e, rd, ds, el, vs, after, phi, memory, ds', rest)
    ensures |bs| >= |VariantBytes(|vs|)| + |after|
    ensures e.Save(st, Sequence(el), Items(vs)).0 == e.SaveElems(st, el, vs).0
    ensures |e.Save(st, Sequence(el), Items(vs)).1| == |VariantBytes(|vs|)| + |e.SaveElems(st, el, vs).1|
  {
    hide VariantBytes, ReadVariant, Encoder.SaveElems, Decoder.LoadElems, RenameAll, Final;
    ReadsEnough(rd, bs);
    after := ReadVariant(rd, bs).value.1;
  }

  lemma ArraySplit(e: Encoder, rd: Reader, st: EncState, ds: DecState, t: Ty, vs: seq<Val>, bs: seq<byte>, phi: Renaming,
                   memory: seq<Cell>, ds': DecState, rest: seq<byte>)
    requires Loads(e, rd, ds, Array(|vs|, t), Items(vs), bs, phi, memory, ds', rest)
    ensures LoadsElems(e, rd, ds, Inline(t), vs, bs, phi, memory, ds', rest)
    ensures e.Save(st, Array(|vs|, t), Items(vs)) == e.SaveElems(st, Inline(t), vs)
  {
    hide Encoder.SaveElems, Decoder.LoadElems, RenameAll, Final;
  }

  lemma ClassSplit(e: Encoder, rd: Reader, st: EncState, ds: DecState, ts: seq<Ty>, vs: seq<Val>, bs: seq<byte>, phi: Renaming,
                   memory: seq<Cell>, ds': DecState, rest: seq<byte>)
    requires Loads(e, rd, ds, Tuple(ts), Items(vs), bs, phi, memory, ds', rest)
    ensures LoadsTuple(e, rd, ds, ts, vs, bs, phi, memory, ds', rest)
    ensures e.Save(st, Tuple(ts), Items(vs)) == e.SaveTuple(st, ts, vs)
  {
    hide Encoder.SaveTuple, Decoder.LoadTuple, RenameAll, Final;
  }

  lemma OptionalSplit(e: Encoder, rd: Reader, st: EncState, ds: DecState, t: Ty, v: Val, bs: seq<byte>, phi: Renaming,
                      memory: seq<Cell>, ds': DecState, rest: seq<byte>)
    requires Loads(e, rd, ds, Optional(t), Items([v]), bs, phi, memory, ds', rest)
    ensures bs != [] && Loads(e, rd, ds, t, v, bs[1..], phi, memory, ds', rest)
    ensures e.Save(st, Optional(t), Items([v])).0 == e.Save(st, t, v).0
    ensures |e.Save(st, Optional(t), Items([v])).1| == 1 + |e.Save(st, t, v).1|
  {
    hide Decoder.Load, Rename, Final;
    RenameOne(phi, v);
    OptionalLoads(DecoderFor(e, rd), ds, t, bs);
    SaveOptional(e, st, t, [v]);
  }

  /** Values without parts. */
  lemma LeafEnough(e: Encoder, rd: Reader, st: EncState, ds: DecState, t: Ty, v: Val, bs: seq<byte>, phi: Renaming,
                   memory: seq<Cell>, ds': DecState, rest: seq<byte>)
    requires TypedHere(e, t, v) && Loads(e, rd, ds, t, v, bs, phi, memory, ds', rest) && |ds.objs| > 0
    requires t.Scalar? || (t.Optional? && v == Items([])) || (t.Unique? && v == Items([])) || (t.Shared? && v.Null?)
    ensures |bs| >= |e.Save(st, t, v).1| + |rest| && e.Save(st, t, v).0 == st
    ensures ds'.objs == ds.objs && ds'.classes == ds.classes && ds'.heap == ds.heap
  {
    hide ReadVariant, Final, Holds, KindOf, Decoder.LoadClass;
    match t
    case Scalar(n) =>
    case Optional(t') =>
      RenameOne(phi, Null);
      AbsentLoads(DecoderFor(e, rd), ds, t', Static([]), bs);
    case Unique(p) =>
      RenameOne(phi, Null);
      AbsentLoads(DecoderFor(e, rd), ds, Scalar(0), p, bs);
    case Shared(p) =>
      NullLoads(DecoderFor(e, rd), ds, p, bs);
  }

  lemma NullLoads(d: Decoder, ds: DecState, p: Pointee, bs: seq<byte>)
    requires d.Load(ds, Shared(p), bs).Ok? && d.Load(ds, Shared(p), bs).value.1 == Null && |ds.objs| > 0
    ensures d.Load(ds, Shared(p), bs).value.0 == ds
    ensures |bs| >= |VariantBytes(0)| + |d.Load(ds, Shared(p), bs).value.2|
  {
    hide ReadVariant, Decoder.Load, Decoder.LoadClass, Decoder.Publish, Decoder.Fill, Built;
    SharedLoads(d, ds, p, bs);
    ReadsEnough(d.rd, bs);
    var (id, rest) := ReadVariant(d.rd, bs).value;
    if id == |ds.objs| {
      CreatingLoads(d, ds, p, bs, rest);
    }
  }

  // Owned objects.

  lemma CoversHeader(st: EncState, ds: DecState, st1: EncState, ds1: DecState, phi: Renaming)
    requires Covers(st, ds, phi) && st1.objs == st.objs && ds1.objs == ds.objs && ds1.heap == ds.heap
    requires ClassesCovered(st1.classes, ds1.classes)
    ensures Covers(st1, ds1, phi)
  {
    hide ClassesCovered;
    forall a | a in st1.objs ensures ObjectCovered(st1, ds1, phi, a) {
      assert ObjectCovered(st, ds, phi, a);
    }
    forall i | 0 < i < |ds1.objs| ensures Numbers(st1, i) {
      assert Numbers(st, i);
    }
  }

  lemma OwnedSplit(e: Encoder, rd: Reader, st: EncState, ds: DecState, p: Pointee, x: Val, bs: seq<byte>, phi: Renaming,
                   memory: seq<Cell>, ds': DecState, rest: seq<byte>) returns (ds1: DecState, rest1: seq<byte>)
    requires e.env.Valid() && Covers(st, ds, phi) && TypedTarget(e.env, KindsOf(e.h), p, x)
    requires Loads(e, rd, ds, Unique(p), Items([x]), bs, phi, memory, ds', rest)
    ensures ClassOf(p, x) in e.env.types && Covers(SaveHeader(e, st, p, x).0, ds1, phi)
    ensures bs != [] && DecoderFor(e, rd).LoadClass(ds, p, bs[1..]) == Ok((ds1, ClassOf(p, x), rest1))
    ensures |bs| >= 1 + |SaveHeader(e, st, p, x).1| + |rest1|
    ensures Loads(e, rd, ds1, e.env.types[ClassOf(p, x)], Inner(p, x), rest1, phi, memory, ds', rest)
  {
    hide Encoder.Save, Decoder.Load, Decoder.LoadClass, Rename, Final, SaveHeader, Typed, TypedTarget, ClassesCovered, Built,
      ClassOf, Inner, Env.Valid, Loads;
    var d := DecoderFor(e, rd);
    TargetParts(e, st, p, x);
    LoadsMeans(e, rd, ds, Unique(p), Items([x]), bs, phi, memory, ds', rest);
    RenameOne(phi, x);
    OwnedLoads(d, ds, p, bs);
    var h := d.LoadClass(ds, p, bs[1..]);
    ds1, rest1 := h.value.0, h.value.2;
    var l := d.Load(ds1, d.env.types[h.value.1], rest1);
    BuiltIs(phi, p, x, h.value.1, l.value.1);
    HeaderEnough(e, rd, st, ds, p, x, bs[1..]);
    CoversHeader(st, ds, SaveHeader(e, st, p, x).0, ds1, phi);
    LoadsIf(e, rd, ds1, e.env.types[ClassOf(p, x)], Inner(p, x), rest1, phi, memory, ds', rest);
  }

  lemma {:induction false} OwnedEnough(e: Encoder, rd: Reader, st: EncState, ds: DecState, p: Pointee, x: Val,
                                       bs: seq<byte>, phi: Renaming, memory: seq<Cell>, ds': DecState, rest: seq<byte>)
    requires Whole(e, phi, memory) && Covers(st, ds, phi) && TypedTarget(e.env, KindsOf(e.h), p, x)
    requires AssocFreeTarget(e.env, p, x)
    requires Loads(e, rd, ds, Unique(p), Items([x]), bs, phi, memory, ds', rest)
    ensures |bs| >= |e.Save(st, Unique(p), Items([x])).1| + |rest| && Covers(e.Save(st, Unique(p), Items([x])).0, ds', phi)
    decreases e.h.Keys - st.objs.Keys, x, 2
  {
    hide Whole, Covers, Loads, Encoder.Save, Encoder.SaveTarget, Decoder.Load, Typed, TypedTarget, SaveHeader, Env.Valid, AssocFree,
      VariantBytes;
    WholeValid(e, phi, memory);
    var ds1, rest1 := OwnedSplit(e, rd, st, ds, p, x, bs, phi, memory, ds', rest);
    TargetParts(e, st, p, x);
    SaveUnique(e, st, p, [x]);
    HeaderKeeps(e, st, p, x);
    LoadsEnough(e, rd, SaveHeader(e, st, p, x).0, ds1, e.env.types[ClassOf(p, x)], Inner(p, x), rest1, phi, memory, ds', rest);
  }

  lemma HeaderKeeps(e: Encoder, st: EncState, p: Pointee, x: Val)
    ensures SaveHeader(e, st, p, x).0.objs == st.objs
  {
    hide VariantBytes, TextBytes, Wire;
  }

  // Shared objects.

  /** A known object is not created anew: its id is read. */
  lemma KnownEnough(e: Encoder, rd: Reader, st: EncState, ds: DecState, p: Pointee, a: Addr, bs: seq<byte>, phi: Renaming,
                    memory: seq<Cell>, ds': DecState, rest: seq<byte>)
    requires Covers(st, ds, phi) && Injective(phi) && a in st.objs
    requires Loads(e, rd, ds, Shared(p), Ref(a), bs, phi, memory, ds', rest)
    ensures |bs| >= |VariantBytes(st.objs[a])| + |rest| && ds' == ds
  {
    hide ReadVariant, VariantBytes, Decoder.Load, Decoder.LoadClass, Decoder.Publish, Decoder.Fill, Built, ClassesCovered, Injective,
      ObjectsCovered;
    var d := DecoderFor(e, rd);
    SharedLoads(d, ds, p, bs);
    ReadsEnough(rd, bs);
    CoversObject(st, ds, phi, a);
    RefImage(phi, a, phi[a]);
    var (id, after) := ReadVariant(rd, bs).value;
    if id == |ds.objs| {
      CreatingLoads(d, ds, p, bs, after);
    } else if id > 0 {
      WhoseImage(st, ds, phi, a, id);
    }
  }

  lemma CoversObject(st: EncState, ds: DecState, phi: Renaming, a: Addr)
    requires ObjectsCovered(st, ds, phi)
    ensures |ds.objs| == |st.objs| + 1
    ensures a in st.objs ==> a in phi && phi[a] < |ds.heap|
  {
    if a in st.objs {
      assert ObjectCovered(st, ds, phi, a);
    }
  }

  /** The id that is read for a new object is the next one. */
  lemma NewIdRead(e: Encoder, rd: Reader, st: EncState, ds: DecState, p: Pointee, a: Addr, bs: seq<byte>, phi: Renaming,
                  memory: seq<Cell>, ds': DecState, rest: seq<byte>)
    requires Covers(st, ds, phi) && Injective(phi) && a !in st.objs
    requires Loads(e, rd, ds, Shared(p), Ref(a), bs, phi, memory, ds', rest)
    ensures ReadVariant(rd, bs).Ok? && ReadVariant(rd, bs).value.0 == |ds.objs| == |st.objs| + 1
    ensures a in phi && phi[a] == |ds.heap|
  {
    hide ReadVariant, Decoder.Load, Decoder.LoadClass, Decoder.Publish, Decoder.Fill, Built, ClassesCovered, Injective,
      ObjectsCovered;
    var d := DecoderFor(e, rd);
    SharedLoads(d, ds, p, bs);
    CoversObject(st, ds, phi, a);
    var (id, after) := ReadVariant(rd, bs).value;
    if 0 < id < |ds.objs| {
      OtherPtr(st, ds, phi, a, id);
    }
    assert id == |ds.objs|;
    CreatingLoads(d, ds, p, bs, after);
  }

  lemma OtherPtr(st: EncState, ds: DecState, phi: Renaming, a: Addr, id: nat)
    requires ObjectsCovered(st, ds, phi) && Injective(phi) && a !in st.objs && 0 < id < |ds.objs|
    ensures Rename(phi, Ref(a)) != Ref(ds.objs[id].ptr)
  {
    hide ObjectsCovered, Injective;
    if a in phi && ds.objs[id].ptr == phi[a] {
      WhoseImage(st, ds, phi, a, id);
    }
  }

  /** What remains of loading a new object once its id was read. */
  lemma NewSplit(e: Encoder, rd: Reader, st: EncState, ds: DecState, p: Pointee, a: Addr, bs: seq<byte>, phi: Renaming,
                 memory: seq<Cell>, ds': DecState, rest: seq<byte>) returns (ds2: DecState, ds3: DecState, rest1: seq<byte>)
    requires Whole(e, phi, memory) && Covers(st, ds, phi) && a in e.h && a !in st.objs
    requires TypedTarget(e.env, KindsOf(e.h), p, e.h[a].x)
    requires Loads(e, rd, ds, Shared(p), Ref(a), bs, phi, memory, ds', rest)
    ensures ClassOf(p, e.h[a].x) in e.env.types && Covers(StartEnc(e, st, p, a), ds2, phi)
    ensures var hb := SaveHeader(e, st.(objs := st.objs[a := |st.objs| + 1]), p, e.h[a].x).1;
      |bs| >= |VariantBytes(|st.objs| + 1)| + |hb| + |rest1|
    ensures Loads(e, rd, ds2, e.env.types[ClassOf(p, e.h[a].x)], Inner(p, e.h[a].x), rest1, phi, memory, ds3, rest)
    ensures ds'.objs == ds3.objs && ds'.classes == ds3.classes && |ds'.heap| == |ds3.heap|
  {
    hide Whole, Covers, Encoder.Save, Decoder.Load, Decoder.LoadClass, Decoder.Publish, Decoder.Fill, Rename, Final, SaveHeader,
      Typed, TypedTarget, Built, ClassOf, Inner, Env.Valid, Loads, ReadVariant, VariantBytes, StartEnc;
    var d, x := DecoderFor(e, rd), e.h[a].x;
    var st0 := st.(objs := st.objs[a := |st.objs| + 1]);
    WholeValid(e, phi, memory);
    WholeInjective(e, phi, memory);
    TargetParts(e, st0, p, x);
    NewIdRead(e, rd, st, ds, p, a, bs, phi, memory, ds', rest);
    ReadsEnough(rd, bs);
    var after := ReadVariant(rd, bs).value.1;
    LoadsMeans(e, rd, ds, Shared(p), Ref(a), bs, phi, memory, ds', rest);
    CreatingLoads(d, ds, p, bs, after);
    var h := d.LoadClass(ds, p, after);
    ds2, rest1 := d.Publish(h.value.0, p, h.value.1), h.value.2;
    var l := d.Load(ds2, e.env.types[h.value.1], rest1);
    ds3 := l.value.0;
    NewContent(e, rd, ds, p, a, phi, memory, h, l);
    NewHeaderCovers(e, rd, st, ds, p, a, after, phi);
    LoadsIf(e, rd, ds2, e.env.types[ClassOf(p, x)], Inner(p, x), rest1, phi, memory, ds3, rest);
  }

  /** The class and the content of a new object, given that its id was read as the next one. */
  lemma NewContent(e: Encoder, rd: Reader, ds: DecState, p: Pointee, a: Addr, phi: Renaming, memory: seq<Cell>,
                   h: Decoded<Name>, l: Decoded<Val>)
    requires Whole(e, phi, memory) && a in e.h && a in phi && phi[a] == |ds.heap|
    requires Built(p, ClassOf(p, e.h[a].x), Inner(p, e.h[a].x)) == e.h[a].x
    requires h.Ok? && h.value.1 in e.env.types && (p.Static? ==> h.value.1 == p.c) && h.value.0.heap == ds.heap
    requires var d := DecoderFor(e, rd);
      && l == d.Load(d.Publish(h.value.0, p, h.value.1), e.env.types[h.value.1], h.value.2) && l.Ok?
      && Final(d.Fill(l.value.0, |ds.heap|, Built(p, h.value.1, l.value.1)).heap, |ds.heap|, memory)
    ensures var d := DecoderFor(e, rd);
      && h.value.1 == ClassOf(p, e.h[a].x) && l.value.1 == Rename(phi, Inner(p, e.h[a].x))
      && Final(l.value.0.heap, |d.Publish(h.value.0, p, h.value.1).heap|, memory)
      && var ds' := d.Fill(l.value.0, |ds.heap|, Built(p, h.value.1, l.value.1));
         ds'.objs == l.value.0.objs && ds'.classes == l.value.0.classes && |ds'.heap| == |l.value.0.heap|
  {
    hide Whole, Decoder.Load, Decoder.Publish, Rename, Final, Built, ClassOf, Inner, Env.Valid;
    var d := DecoderFor(e, rd);
    WholeValid(e, phi, memory);
    HeapGrows(d, d.Publish(h.value.0, p, h.value.1), e.env.types[h.value.1], h.value.2);
    FilledImage(e, d, ds, h.value.0, l.value.0, p, h.value.1, l.value.1, a, phi, memory);
    BuiltIs(phi, p, e.h[a].x, h.value.1, l.value.1);
  }

  lemma NewHeaderCovers(e: Encoder, rd: Reader, st: EncState, ds: DecState, p: Pointee, a: Addr, after: seq<byte>, phi: Renaming)
    requires e.env.Valid() && Covers(st, ds, phi) && a in e.h && a !in st.objs && a in phi && phi[a] == |ds.heap|
    requires TypedTarget(e.env, KindsOf(e.h), p, e.h[a].x)
    requires DecoderFor(e, rd).LoadClass(ds, p, after).Ok?
    requires DecoderFor(e, rd).LoadClass(ds, p, after).value.1 == ClassOf(p, e.h[a].x)
    ensures var (ds1, c, rest1) := DecoderFor(e, rd).LoadClass(ds, p, after).value;
      && |after| >= |SaveHeader(e, st.(objs := st.objs[a := |st.objs| + 1]), p, e.h[a].x).1| + |rest1|
      && Covers(StartEnc(e, st, p, a), DecoderFor(e, rd).Publish(ds1, p, c), phi)
  {
    hide Decoder.LoadClass, SaveHeader, Typed, TypedTarget, ClassesCovered, ClassOf, Env.Valid, ObjectsCovered;
    var st0 := st.(objs := st.objs[a := |st.objs| + 1]);
    HeaderEnough(e, rd, st0, ds, p, e.h[a].x, after);
    var (ds1, c, rest1) := DecoderFor(e, rd).LoadClass(ds, p, after).value;
    PublishCovers(st, ds, StartEnc(e, st, p, a), DecoderFor(e, rd).Publish(ds1, p, c), a, phi);
  }

  lemma PublishCovers(st: EncState, ds: DecState, st1: EncState, ds2: DecState, a: Addr, phi: Renaming)
    requires ObjectsCovered(st, ds, phi) && a !in st.objs && a in phi && phi[a] == |ds.heap|
    requires st1.objs == st.objs[a := |st.objs| + 1] && |ds2.heap| == |ds.heap| + 1
    requires |ds2.objs| == |ds.objs| + 1 && ds2.objs[..|ds.objs|] == ds.objs && ds2.objs[|ds.objs|].ptr == |ds.heap|
    ensures ObjectsCovered(st1, ds2, phi)
  {
    MapInsert(st.objs, st1.objs, a, |st.objs| + 1);
    forall b | b in st1.objs ensures ObjectCovered(st1, ds2, phi, b) {
      if b != a {
        assert ObjectCovered(st, ds, phi, b);
        assert ds2.objs[..|ds.objs|][st.objs[b]] == ds2.objs[st.objs[b]];
      }
    }
    forall i | 0 < i < |ds2.objs| ensures Numbers(st1, i) {
      if i < |ds.objs| {
        assert Numbers(st, i);
        var b :| b in st.objs && st.objs[b] == i;
        assert st1.objs[b] == i;
      } else {
        assert st1.objs[a] == i;
      }
    }
  }

  lemma {:induction false} SharedEnough(e: Encoder, rd: Reader, st: EncState, ds: DecState, p: Pointee, a: Addr,
                                        bs: seq<byte>, phi: Renaming, memory: seq<Cell>, ds': DecState, rest: seq<byte>)
    requires Whole(e, phi, memory) && Covers(st, ds, phi) && a in e.h && Holds(e.env, p, KindOf(e.h[a]))
    requires Loads(e, rd, ds, Shared(p), Ref(a), bs, phi, memory, ds', rest)
    ensures |bs| >= |e.Save(st, Shared(p), Ref(a)).1| + |rest| && Covers(e.Save(st, Shared(p), Ref(a)).0, ds', phi)
    decreases e.h.Keys - st.objs.Keys, Ref(a), 0
  {
    hide Setting, Covers, Loads, Encoder.Save, Decoder.Load, Typed, TypedTarget, Env.Valid, AssocFree, HoldsImages, SaveHeader,
      Holds, KindOf, ClassOf, Inner, AssocFreeHeap, VariantBytes;
    WholeInjective(e, phi, memory);
    if a in st.objs {
      KnownEnough(e, rd, st, ds, p, a, bs, phi, memory, ds', rest);
      KnownSaves(e, st, p, a);
    } else {
      var x := e.h[a].x;
      TargetOfHeap(e, p, a);
      SettingValid(e);
      var ds2, ds3, rest1 := NewSplit(e, rd, st, ds, p, a, bs, phi, memory, ds', rest);
      TargetParts(e, st, p, x);
      TargetAssocFree(e.env, e.h, p, a);
      StartEncSaves(e, st, p, a);
      NewLength(e, st, p, a);
      assert a in e.h.Keys - st.objs.Keys && a !in e.h.Keys - StartEnc(e, st, p, a).objs.Keys;
      LoadsEnough(e, rd, StartEnc(e, st, p, a), ds2, e.env.types[ClassOf(p, x)], Inner(p, x), rest1, phi, memory, ds3, rest);
      CoversByTables(e.Save(st, Shared(p), Ref(a)).0, ds3, ds', phi);
    }
  }

  lemma KnownSaves(e: Encoder, st: EncState, p: Pointee, a: Addr)
    requires a in st.objs
    ensures e.Save(st, Shared(p), Ref(a)) == (st, VariantBytes(st.objs[a]))
  {
    hide VariantBytes, Encoder.SaveTarget;
  }

  lemma NewLength(e: Encoder, st: EncState, p: Pointee, a: Addr)
    requires e.env.Valid() && a in e.h && a !in st.objs && TypedTarget(e.env, KindsOf(e.h), p, e.h[a].x)
    ensures ClassOf(p, e.h[a].x) in e.env.types
    ensures |e.Save(st, Shared(p), Ref(a)).1| == |VariantBytes(|st.objs| + 1)|
      + |SaveHeader(e, st.(objs := st.objs[a := |st.objs| + 1]), p, e.h[a].x).1|
      + |e.Save(StartEnc(e, st, p, a), e.env.types[ClassOf(p, e.h[a].x)], Inner(p, e.h[a].x)).1|
    ensures StartEnc(e, st, p, a).objs == st.objs[a := |st.objs| + 1]
  {
    hide VariantBytes, Encoder.Save, SaveHeader, Typed, TypedTarget, ClassOf, Inner, Env.Valid;
    NewBytes(e, st, p, a, []);
    HeaderKeeps(e, st.(objs := st.objs[a := |st.objs| + 1]), p, e.h[a].x);
  }

  lemma CoversByTables(st: EncState, ds: DecState, ds': DecState, phi: Renaming)
    requires Covers(st, ds, phi) && ds'.objs == ds.objs && ds'.classes == ds.classes && |ds'.heap| == |ds.heap|
    ensures Covers(st, ds', phi)
  {
    hide ClassesCovered;
    forall a | a in st.objs ensures ObjectCovered(st, ds', phi, a) {
      assert ObjectCovered(st, ds, phi, a);
    }
  }

  /** If loading any bytes gives the image of a value, it consumed at least the length of the
      value's encoding, and the tables cover each other again. */
  lemma {:induction false} LoadsEnough(e: Encoder, rd: Reader, st: EncState, ds: DecState, t: Ty, v: Val, bs: seq<byte>,
                                       phi: Renaming, memory: seq<Cell>, ds': DecState, rest: seq<byte>)
    requires Whole(e, phi, memory) && Covers(st, ds, phi) && AssocFree(e.env, t, v) && TypedHere(e, t, v)
    requires Loads(e, rd, ds, t, v, bs, phi, memory, ds', rest)
    ensures |bs| >= |e.Save(st, t, v).1| + |rest| && Covers(e.Save(st, t, v).0, ds', phi)
    decreases e.h.Keys - st.objs.Keys, v, 1
  {
    hide Whole, Covers, Loads, LoadsElems, LoadsTuple, Encoder.Save, TypedElems, TypedTuple, TypedTarget, AssocFreeElems,
      AssocFreeTuple, AssocFreeTarget, Holds, KindOf, VariantBytes;
    CoversNonempty(st, ds, phi);
    match t {
      case Scalar(_) =>
        LeafEnough(e, rd, st, ds, t, v, bs, phi, memory, ds', rest);
        CoversByTables(st, ds, ds', phi);
      case Array(_, t') =>
        ArraySplit(e, rd, st, ds, t', v.vs, bs, phi, memory, ds', rest);
        ElemsEnough(e, rd, st, ds, Inline(t'), v.vs, bs, phi, memory, ds', rest);
      case Sequence(el) =>
        var after := SequenceSplit(e, rd, st, ds, el, v.vs, bs, phi, memory, ds', rest);
        ElemsEnough(e, rd, st, ds, el, v.vs, after, phi, memory, ds', rest);
      case Tuple(ts) =>
        ClassSplit(e, rd, st, ds, ts, v.vs, bs, phi, memory, ds', rest);
        TupleEnough(e, rd, st, ds, ts, v.vs, bs, phi, memory, ds', rest);
      case Optional(t') =>
        if v.vs == [] {
          LeafEnough(e, rd, st, ds, t, v, bs, phi, memory, ds', rest);
          CoversByTables(st, ds, ds', phi);
        } else {
          assert v.vs == [v.vs[0]];
          OptionalSplit(e, rd, st, ds, t', v.vs[0], bs, phi, memory, ds', rest);
          LoadsEnough(e, rd, st, ds, t', v.vs[0], bs[1..], phi, memory, ds', rest);
        }
      case Unique(p) =>
        if v.vs == [] {
          LeafEnough(e, rd, st, ds, t, v, bs, phi, memory, ds', rest);
          CoversByTables(st, ds, ds', phi);
        } else {
          assert v.vs == [v.vs[0]];
          OwnedEnough(e, rd, st, ds, p, v.vs[0], bs, phi, memory, ds', rest);
        }
      case Shared(p) =>
        if v.Null? {
          LeafEnough(e, rd, st, ds, t, v, bs, phi, memory, ds', rest);
          CoversByTables(st, ds, ds', phi);
        } else {
          SharedEnough(e, rd, st, ds, p, v.a, bs, phi, memory, ds', rest);
        }
    }
  }

  lemma CoversNonempty(st: EncState, ds: DecState, phi: Renaming)
    requires Covers(st, ds, phi)
    ensures |ds.objs| > 0
  {
    hide ClassesCovered;
  }
}
