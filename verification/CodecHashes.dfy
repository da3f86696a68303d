/** Where the classes of decoded objects come from: on any input, the decoder gives an object a
    dynamic class only if the stream holds a text whose part before its first zero byte is that
    class's name, followed by the very structure hash under which the class is registered here. */
module CodecHashes {
  import opened Results
  import opened Streams
  import opened Variant
  import opened Codec
  import CodecRoundTrip
  import FlatTree

  ghost predicate IsSuffix(rest: seq<byte>, bs: seq<byte>) {
    |rest| <= |bs| && rest == bs[|bs| - |rest|..]
  }

  lemma SuffixTransitive(a: seq<byte>, b: seq<byte>, c: seq<byte>)
    requires IsSuffix(a, b) && IsSuffix(b, c)
    ensures IsSuffix(a, c)
  {
  }

  lemma TakeSuffix(bs: seq<byte>, n: nat)
    ensures var r := Take(bs, n); r.Ok? ==> IsSuffix(r.value.1, bs)
  {
  }

  /** `bs` begins with a text that names `c`, followed by the hash of `c` and then `rest`. */
  ghost predicate TextThenHash(d: Decoder, bs: seq<byte>, c: Name, text: seq<byte>, rest: seq<byte>) {
    && c in d.env.types && c in d.env.hashes
    && CString(text) == c && ReadText(d.rd, bs) == Ok((text, Wire(d.rev, d.env.hashes[c]) + rest))
  }

  ghost predicate BeginsWithClass(d: Decoder, bs: seq<byte>, c: Name) {
    exists text, rest :: TextThenHash(d, bs, c, text, rest)
  }

  /** Somewhere in `bs` a text that names `c` is followed by the hash of `c`. */
  ghost predicate Attested(d: Decoder, bs: seq<byte>, c: Name) {
    exists part :: IsSuffix(part, bs) && BeginsWithClass(d, part, c)
  }

  lemma AttestedInWhole(d: Decoder, rest: seq<byte>, bs: seq<byte>, c: Name)
    requires Attested(d, rest, c) && IsSuffix(rest, bs)
    ensures Attested(d, bs, c)
  {
    hide IsSuffix, BeginsWithClass;
    var part :| IsSuffix(part, rest) && BeginsWithClass(d, part, c);
    SuffixTransitive(part, rest, bs);
  }

  lemma WireBack(rev: bool, a: seq<byte>, b: seq<byte>)
    ensures Wire(rev, a) == b <==> Wire(rev, b) == a
  {
    CodecRoundTrip.WireTwice(rev, a);
    CodecRoundTrip.WireTwice(rev, b);
  }

  /** A class that is new to a stream is accepted if and only if it is registered here and what was
      read is a text that names it, up to a zero byte or the end, followed by the hash of the
      registered class. */
  lemma NewClassExactly(d: Decoder, ds: DecState, bs: seq<byte>, c: Name, rest: seq<byte>)
    requires c in d.env.hashes ==> |d.env.hashes[c]| == 4
    ensures d.LoadNewClass(ds, bs) == Ok((ds.(classes := ds.classes + [c]), rest))
       <==> exists text :: TextThenHash(d, bs, c, text, rest)
  {
    hide ReadText, Wire, CString;
    var read := ReadText(d.rd, bs);
    if d.LoadNewClass(ds, bs) == Ok((ds.(classes := ds.classes + [c]), rest)) {
      var name, after := CString(read.value.0), read.value.1;
      assert (ds.classes + [name])[|ds.classes|] == name && (ds.classes + [c])[|ds.classes|] == c;
      assert after == after[..4] + after[4..];
      WireBack(d.rev, after[..4], d.env.hashes[c]);
      assert TextThenHash(d, bs, c, read.value.0, rest);
    }
    if text :| TextThenHash(d, bs, c, text, rest) {
      var hash := Wire(d.rev, d.env.hashes[c]);
      assert (hash + rest)[..4] == hash && (hash + rest)[4..] == rest;
      WireBack(d.rev, hash, d.env.hashes[c]);
    }
  }

  /** When a class is accepted, the text that was read is the class's own name if and only if the
      text has no zero byte. */
  lemma OwnNameExactly(d: Decoder, ds: DecState, bs: seq<byte>)
    requires d.LoadNewClass(ds, bs).Ok?
    ensures ReadText(d.rd, bs).Ok? && |d.LoadNewClass(ds, bs).value.0.classes| == |ds.classes| + 1
    ensures d.LoadNewClass(ds, bs).value.0.classes[|ds.classes|] == ReadText(d.rd, bs).value.0
       <==> 0 !in ReadText(d.rd, bs).value.0
  {
    hide ReadText, Wire, CString;
  }

  /** A class whose name is one byte, here 65, is also found under that byte, a zero and an 88: the
      input holds a name that is not the class's, and is accepted. */
  lemma LongerNameAccepted(d: Decoder, ds: DecState, hash: seq<byte>, rest: seq<byte>)
    requires [65] in d.env.types && [65] in d.env.hashes && d.env.hashes[[65]] == hash && |hash| == 4
    ensures d.LoadNewClass(ds, [3, 65, 0, 88] + Wire(d.rev, hash) + rest)
         == Ok((ds.(classes := ds.classes + [[65]]), rest))
  {
    hide Wire, ReadVariant, CString;
    var text := [65, 0, 88];
    var after := Wire(d.rev, hash) + rest;
    var bs := [3, 65, 0, 88] + Wire(d.rev, hash) + rest;
    assert VariantBytes(3) == [3];
    SmallestFailure([]);
    assert Readable(d.rd, 3);
    assert bs == VariantBytes(3) + (text + after);
    ReadableRoundTrip(d.rd, 3, text + after);
    assert (text + after)[..3] == text && (text + after)[3..] == after;
    CutAtZero([65], [88]);
    assert TextThenHash(d, bs, [65], text, rest);
    NewClassExactly(d, ds, bs, [65], rest);
  }

  lemma CutAtZero(name: seq<byte>, more: seq<byte>)
    requires 0 !in name
    ensures CString(name + [0] + more) == name
  {
    var text := name + [0] + more;
    var cut := CString(text);
    assert text[|name|] == 0 && text[..|name|] == name;
  }

  // ----- Any input -----

  /** Every dynamic object inside `v` has one of these classes. */
  ghost predicate ClassesIn(v: Val, names: seq<Name>) {
    match v
    case Items(vs) => forall i :: 0 <= i < |vs| ==> ClassesIn(vs[i], names)
    case Object(c, x) => c in names && ClassesIn(x, names)
    case _ => true
  }

  ghost predicate AllClassesIn(vs: seq<Val>, names: seq<Name>) {
    forall i :: 0 <= i < |vs| ==> ClassesIn(vs[i], names)
  }

  ghost predicate HeapClassesIn(heap: seq<Cell>, from: nat, names: seq<Name>) {
    forall a :: from <= a < |heap| ==> ClassesIn(heap[a].x, names)
  }

  lemma {:induction false} ClassesStay(v: Val, names: seq<Name>, more: seq<Name>)
    requires ClassesIn(v, names) && names <= more
    ensures ClassesIn(v, more)
  {
    match v
    case Items(vs) =>
      forall i | 0 <= i < |vs| ensures ClassesIn(vs[i], more) {
        ClassesStay(vs[i], names, more);
      }
    case Object(c, x) =>
      var i :| 0 <= i < |names| && names[i] == c;
      assert more[i] == c;
      ClassesStay(x, names, more);
    case _ =>
  }

  lemma AllClassesStay(vs: seq<Val>, names: seq<Name>, more: seq<Name>)
    requires AllClassesIn(vs, names) && names <= more
    ensures AllClassesIn(vs, more)
  {
    hide ClassesIn;
    forall i | 0 <= i < |vs| ensures ClassesIn(vs[i], more) {
      ClassesStay(vs[i], names, more);
    }
  }

  /** What one decoding step must keep: the class table grows by classes that the input names with
      their hashes, and new memory holds objects of classes in the table. */
  ghost predicate Attests(d: Decoder, ds: DecState, bs: seq<byte>, ds': DecState, rest: seq<byte>) {
    && IsSuffix(rest, bs) && ds.classes <= ds'.classes && ds.heap <= ds'.heap
    && (forall i :: |ds.classes| <= i < |ds'.classes| ==> Attested(d, bs, ds'.classes[i]))
    && HeapClassesIn(ds'.heap, |ds.heap|, ds'.classes)
  }

  lemma AttestsNothing(d: Decoder, ds: DecState, bs: seq<byte>, rest: seq<byte>)
    requires IsSuffix(rest, bs)
    ensures Attests(d, ds, bs, ds, rest)
  {
  }

  lemma AttestsTransitive(d: Decoder, ds: DecState, bs: seq<byte>, ds1: DecState, bs1: seq<byte>, ds2: DecState, bs2: seq<byte>)
    requires Attests(d, ds, bs, ds1, bs1) && Attests(d, ds1, bs1, ds2, bs2)
    ensures Attests(d, ds, bs, ds2, bs2)
  {
    hide IsSuffix, Attested, ClassesIn;
    SuffixTransitive(bs2, bs1, bs);
    forall i | |ds.classes| <= i < |ds2.classes| ensures Attested(d, bs, ds2.classes[i]) {
      if i >= |ds1.classes| {
        AttestedInWhole(d, bs1, bs, ds2.classes[i]);
      }
    }
    forall a | |ds.heap| <= a < |ds2.heap| ensures ClassesIn(ds2.heap[a].x, ds2.classes) {
      if a < |ds1.heap| {
        ClassesStay(ds1.heap[a].x, ds1.classes, ds2.classes);
      }
    }
  }

  lemma AttestsParts(d: Decoder, ds: DecState, bs: seq<byte>, ds': DecState, rest: seq<byte>)
    requires Attests(d, ds, bs, ds', rest)
    ensures ds.classes <= ds'.classes && IsSuffix(rest, bs)
  {
  }

  lemma NumberRead(d: Decoder, bs: seq<byte>)
    ensures var r := ReadVariant(d.rd, bs); r.Ok? ==> IsSuffix(r.value.1, bs) && |r.value.1| < |bs|
  {
    ReadVariantShape(d.rd, bs);
  }

  /** The class of a new object is in the table, and new there only if the input attests it. */
  lemma ClassAttests(d: Decoder, ds: DecState, p: Pointee, bs: seq<byte>)
    requires d.env.Valid()
    ensures match d.LoadClass(ds, p, bs)
      case Ok((ds1, c, rest)) =>
        Attests(d, ds, bs, ds1, rest) && ds1.heap == ds.heap && (p.Dynamic? ==> c in ds1.classes)
      case Err(_) => true
  {
    hide ReadVariant, Decoder.LoadNewClass, Attested, IsSuffix, Env.Valid;
    if p.Dynamic? {
      NumberRead(d, bs);
      var r := ReadVariant(d.rd, bs);
      if r.Ok? && r.value.0 == |ds.classes| {
        NewClassAttests(d, ds, r.value.1);
        var n := d.LoadNewClass(ds, r.value.1);
        if n.Ok? {
          SuffixTransitive(n.value.1, r.value.1, bs);
          AttestedInWhole(d, r.value.1, bs, n.value.0.classes[|ds.classes|]);
        }
      }
    } else {
      WholeIsSuffix(bs);
    }
  }

  lemma WholeIsSuffix(bs: seq<byte>)
    ensures IsSuffix(bs, bs)
  {
  }

  lemma NewClassAttests(d: Decoder, ds: DecState, bs: seq<byte>)
    requires d.env.Valid()
    ensures match d.LoadNewClass(ds, bs)
      case Ok((ds1, rest)) =>
        && IsSuffix(rest, bs) && |ds1.classes| == |ds.classes| + 1 && ds.classes <= ds1.classes
        && ds1.heap == ds.heap && Attested(d, bs, ds1.classes[|ds.classes|])
      case Err(_) => true
  {
    hide ReadText, Wire, IsSuffix, CString, TextThenHash;
    var r := d.LoadNewClass(ds, bs);
    if r.Ok? {
      var c := CString(ReadText(d.rd, bs).value.0);
      NewClassExactly(d, ds, bs, c, r.value.1);
      var text :| TextThenHash(d, bs, c, text, r.value.1);
      assert BeginsWithClass(d, bs, c);
      WholeIsSuffix(bs);
      TextSuffix(d, bs);
      TakeSuffix(ReadText(d.rd, bs).value.1, 4);
      SuffixTransitive(r.value.1, ReadText(d.rd, bs).value.1, bs);
    }
  }

  lemma TextSuffix(d: Decoder, bs: seq<byte>)
    ensures var r := ReadText(d.rd, bs); r.Ok? ==> IsSuffix(r.value.1, bs)
  {
    hide ReadVariant, IsSuffix;
    NumberRead(d, bs);
    var r := ReadVariant(d.rd, bs);
    if r.Ok? {
      TakeSuffix(r.value.1, r.value.0);
      var t := Take(r.value.1, r.value.0);
      if t.Ok? {
        SuffixTransitive(t.value.1, r.value.1, bs);
      }
    }
  }

  lemma {:induction false} InsertAllFrom(less: (Val, Val) -> bool, acc: seq<Val>, vs: seq<Val>, names: seq<Name>)
    requires AllClassesIn(acc, names) && AllClassesIn(vs, names)
    ensures AllClassesIn(InsertAll(less, acc, vs), names)
    decreases |vs|
  {
    hide ClassesIn, FlatTree.InsertUnique;
    if vs != [] {
      InsertOneFrom(less, acc, vs[0], names);
      InsertAllFrom(less, FlatTree.InsertUnique(less, acc, vs[0]), vs[1..], names);
    }
  }

  lemma InsertOneFrom(less: (Val, Val) -> bool, s: seq<Val>, x: Val, names: seq<Name>)
    requires AllClassesIn(s, names) && ClassesIn(x, names)
    ensures AllClassesIn(FlatTree.InsertUnique(less, s, x), names)
  {
    hide ClassesIn, FlatTree.LowerBoundIndex;
  }

  lemma ItemsIn(vs: seq<Val>, names: seq<Name>)
    ensures ClassesIn(Items(vs), names) == AllClassesIn(vs, names)
  {
  }

  lemma OneItem(v: Val, names: seq<Name>)
    ensures AllClassesIn([v], names) == ClassesIn(v, names)
  {
    hide ClassesIn;
    assert [v][0] == v;
  }

  lemma {:induction false} LoadAttests(d: Decoder, ds: DecState, t: Ty, bs: seq<byte>)
    requires d.env.Valid()
    ensures match d.Load(ds, t, bs)
      case Ok((ds', v, rest)) => Attests(d, ds, bs, ds', rest) && ClassesIn(v, ds'.classes)
      case Err(_) => true
    decreases |bs|, 1, t, 0
  {
    hide ReadVariant, Take, Decoder.LoadElems, Decoder.LoadTuple, Decoder.LoadClass, Wire, Compatible, Decoder.Publish,
      Decoder.Fill, Built, InsertAll, Attests, ClassesIn, AllClassesIn, IsSuffix, Env.Valid;
    var r := d.Load(ds, t, bs);
    match t
    case Scalar(n) =>
      TakeSuffix(bs, n);
      if r.Ok? {
        AttestsNothing(d, ds, bs, r.value.2);
        PlainValue(r.value.1, ds.classes);
      }
    case Array(n, e) =>
      ElemsAttest(d, ds, Inline(e), n, bs);
      if r.Ok? {
        ItemsIn(r.value.1.vs, r.value.0.classes);
      }
    case Sequence(e) => CountedAttests(d, ds, e, 0, bs);
    case Assoc(e, o) => CountedAttests(d, ds, e, o, bs);
    case Tuple(ts) =>
      TupleAttests(d, ds, ts, bs);
      if r.Ok? {
        ItemsIn(r.value.1.vs, r.value.0.classes);
      }
    case Optional(e) => OptionalAttests(d, ds, e, bs);
    case Unique(p) => OwnedAttests(d, ds, p, bs);
    case Shared(p) => SharedAttests(d, ds, p, bs);
  }

  lemma PlainValue(v: Val, names: seq<Name>)
    ensures v.Bits? || v.Null? || v.Ref? || v.Hole? ==> ClassesIn(v, names)
    ensures v == Items([]) ==> ClassesIn(v, names)
  {
  }

  lemma {:induction false} OptionalAttests(d: Decoder, ds: DecState, e: Ty, bs: seq<byte>)
    requires d.env.Valid()
    ensures match d.Load(ds, Optional(e), bs)
      case Ok((ds', v, rest)) => Attests(d, ds, bs, ds', rest) && ClassesIn(v, ds'.classes)
      case Err(_) => true
    decreases |bs|, 0, Optional(e), 0
  {
    hide Take, Attests, ClassesIn, AllClassesIn, IsSuffix, Env.Valid;
    var flag := Take(bs, 1);
    TakeOne(bs);
    if flag.Ok? {
      var rest := flag.value.1;
      AttestsNothing(d, ds, bs, rest);
      PlainValue(Items([]), ds.classes);
      if flag.value.0[0] != 0 {
        LoadAttests(d, ds, e, rest);
        var l := d.Load(ds, e, rest);
        if l.Ok? {
          AttestsTransitive(d, ds, bs, ds, rest, l.value.0, l.value.2);
          OneItem(l.value.1, l.value.0.classes);
          ItemsIn([l.value.1], l.value.0.classes);
        }
      }
    }
  }

  lemma TakeOne(bs: seq<byte>)
    ensures var r := Take(bs, 1); r.Ok? ==> |r.value.0| == 1 && |r.value.1| < |bs| && IsSuffix(r.value.1, bs)
  {
  }

  lemma {:induction false} CountedAttests(d: Decoder, ds: DecState, e: Elem, o: Order, bs: seq<byte>)
    requires d.env.Valid()
    ensures match d.Load(ds, Sequence(e), bs)
      case Ok((ds', v, rest)) => Attests(d, ds, bs, ds', rest) && ClassesIn(v, ds'.classes)
      case Err(_) => true
    ensures match d.Load(ds, Assoc(e, o), bs)
      case Ok((ds', v, rest)) => Attests(d, ds, bs, ds', rest) && ClassesIn(v, ds'.classes)
      case Err(_) => true
    decreases |bs|, 0, Scalar(0), 0
  {
    hide ReadVariant, Decoder.LoadElems, InsertAll, Attests, ClassesIn, AllClassesIn, IsSuffix, Env.Valid;
    NumberRead(d, bs);
    ReadVariantShape(d.rd, bs);
    var r := ReadVariant(d.rd, bs);
    if r.Ok? {
      ElemsAttest(d, ds, e, r.value.0, r.value.1);
      var l := d.LoadElems(ds, e, r.value.0, r.value.1);
      if l.Ok? {
        var names := l.value.0.classes;
        AttestsNothing(d, ds, bs, r.value.1);
        AttestsTransitive(d, ds, bs, ds, r.value.1, l.value.0, l.value.2);
        NoItems(names);
        InsertAllFrom(d.env.orders(o), [], l.value.1, names);
        ItemsIn(l.value.1, names);
        ItemsIn(InsertAll(d.env.orders(o), [], l.value.1), names);
      }
    }
  }

  lemma NoItems(names: seq<Name>)
    ensures AllClassesIn([], names)
  {
  }

  lemma {:induction false} ElemsAttest(d: Decoder, ds: DecState, e: Elem, n: nat, bs: seq<byte>)
    requires d.env.Valid()
    ensures match d.LoadElems(ds, e, n, bs)
      case Ok((ds', vs, rest)) => Attests(d, ds, bs, ds', rest) && AllClassesIn(vs, ds'.classes)
      case Err(_) => true
    decreases |bs|, if e.Named? then 2 else 1, if e.Named? then Scalar(0) else e.t, n + 1
  {
    hide Decoder.Load, Attests, ClassesIn, AllClassesIn, IsSuffix, Env.Valid;
    if n == 0 {
      WholeIsSuffix(bs);
      AttestsNothing(d, ds, bs, bs);
      NoItems(ds.classes);
    } else if e.Inline? || e.c in d.env.types {
      var t := ElemType(d.env, e);
      LoadAttests(d, ds, t, bs);
      var r := d.Load(ds, t, bs);
      if r.Ok? {
        ElemsAttest(d, r.value.0, e, n - 1, r.value.2);
        var l := d.LoadElems(r.value.0, e, n - 1, r.value.2);
        if l.Ok? {
          BothAttest(d, ds, bs, r.value.0, r.value.2, l.value.0, l.value.2, r.value.1, l.value.1);
        }
      }
    }
  }

  lemma BothAttest(d: Decoder, ds: DecState, bs: seq<byte>, ds1: DecState, bs1: seq<byte>, ds2: DecState, bs2: seq<byte>,
                   v: Val, vs: seq<Val>)
    requires Attests(d, ds, bs, ds1, bs1) && ClassesIn(v, ds1.classes)
    requires Attests(d, ds1, bs1, ds2, bs2) && AllClassesIn(vs, ds2.classes)
    ensures Attests(d, ds, bs, ds2, bs2) && AllClassesIn([v] + vs, ds2.classes)
  {
    hide Attests, ClassesIn, IsSuffix;
    AttestsTransitive(d, ds, bs, ds1, bs1, ds2, bs2);
    AttestsParts(d, ds1, bs1, ds2, bs2);
    ClassesStay(v, ds1.classes, ds2.classes);
  }

  lemma {:induction false} TupleAttests(d: Decoder, ds: DecState, ts: seq<Ty>, bs: seq<byte>)
    requires d.env.Valid()
    ensures match d.LoadTuple(ds, ts, bs)
      case Ok((ds', vs, rest)) => Attests(d, ds, bs, ds', rest) && AllClassesIn(vs, ds'.classes)
      case Err(_) => true
    decreases |bs|, 1, ts, 0
  {
    hide Decoder.Load, Attests, ClassesIn, AllClassesIn, IsSuffix, Env.Valid;
    if ts == [] {
      WholeIsSuffix(bs);
      AttestsNothing(d, ds, bs, bs);
      NoItems(ds.classes);
    } else {
      LoadAttests(d, ds, ts[0], bs);
      var r := d.Load(ds, ts[0], bs);
      if r.Ok? {
        TupleAttests(d, r.value.0, ts[1..], r.value.2);
        var l := d.LoadTuple(r.value.0, ts[1..], r.value.2);
        if l.Ok? {
          BothAttest(d, ds, bs, r.value.0, r.value.2, l.value.0, l.value.2, r.value.1, l.value.1);
        }
      }
    }
  }

  lemma {:induction false} OwnedAttests(d: Decoder, ds: DecState, p: Pointee, bs: seq<byte>)
    requires d.env.Valid()
    ensures match d.Load(ds, Unique(p), bs)
      case Ok((ds', v, rest)) => Attests(d, ds, bs, ds', rest) && ClassesIn(v, ds'.classes)
      case Err(_) => true
    decreases |bs|, 0, Scalar(0), 0
  {
    hide Take, Decoder.LoadClass, Built, Attests, ClassesIn, AllClassesIn, IsSuffix, Env.Valid;
    TakeOne(bs);
    var flag := Take(bs, 1);
    if flag.Ok? {
      var rest := flag.value.1;
      AttestsNothing(d, ds, bs, rest);
      PlainValue(Items([]), ds.classes);
      ClassAttests(d, ds, p, rest);
      var h := d.LoadClass(ds, p, rest);
      if flag.value.0[0] != 0 && h.Ok? && h.value.1 in d.env.types {
        LoadAttests(d, h.value.0, d.env.types[h.value.1], h.value.2);
        var l := d.Load(h.value.0, d.env.types[h.value.1], h.value.2);
        if l.Ok? {
          AttestsTransitive(d, ds, bs, ds, rest, h.value.0, h.value.2);
          AttestsTransitive(d, ds, bs, h.value.0, h.value.2, l.value.0, l.value.2);
          AttestsParts(d, h.value.0, h.value.2, l.value.0, l.value.2);
          BuiltIn(p, h.value.1, l.value.1, h.value.0.classes, l.value.0.classes);
          OneItem(Built(p, h.value.1, l.value.1), l.value.0.classes);
          ItemsIn([Built(p, h.value.1, l.value.1)], l.value.0.classes);
        }
      }
    }
  }

  lemma BuiltIn(p: Pointee, c: Name, v: Val, names: seq<Name>, more: seq<Name>)
    requires names <= more && (p.Dynamic? ==> c in names) && ClassesIn(v, more)
    ensures ClassesIn(Built(p, c, v), more)
  {
    if p.Dynamic? {
      var i :| 0 <= i < |names| && names[i] == c;
      assert more[i] == c;
    }
  }

  lemma {:induction false} SharedAttests(d: Decoder, ds: DecState, p: Pointee, bs: seq<byte>)
    requires d.env.Valid()
    ensures match d.Load(ds, Shared(p), bs)
      case Ok((ds', v, rest)) => Attests(d, ds, bs, ds', rest) && ClassesIn(v, ds'.classes)
      case Err(_) => true
    decreases |bs|, 0, Scalar(0), 0
  {
    hide ReadVariant, Decoder.LoadClass, Compatible, Decoder.Publish, Decoder.Fill, Built, Attests, ClassesIn, IsSuffix, Env.Valid;
    NumberRead(d, bs);
    ReadVariantShape(d.rd, bs);
    var r := ReadVariant(d.rd, bs);
    if r.Ok? {
      var id, rest := r.value.0, r.value.1;
      AttestsNothing(d, ds, bs, rest);
      PlainValue(Null, ds.classes);
      if id < |ds.objs| {
        PlainValue(Ref(ds.objs[id].ptr), ds.classes);
      } else if id == |ds.objs| && id > 0 {
        ClassAttests(d, ds, p, rest);
        var h := d.LoadClass(ds, p, rest);
        if h.Ok? && h.value.1 in d.env.types {
          var ds1, c := h.value.0, h.value.1;
          LoadAttests(d, d.Publish(ds1, p, c), d.env.types[c], h.value.2);
          var l := d.Load(d.Publish(ds1, p, c), d.env.types[c], h.value.2);
          if l.Ok? {
            FillAttests(d, ds1, p, c, h.value.2, l.value.0, l.value.1, l.value.2);
            var ds4 := d.Fill(l.value.0, |ds1.heap|, Built(p, c, l.value.1));
            AttestsTransitive(d, ds, bs, ds, rest, ds1, h.value.2);
            AttestsTransitive(d, ds, bs, ds1, h.value.2, ds4, l.value.2);
            PlainValue(Ref(|ds1.heap|), ds4.classes);
          }
        }
      }
    }
  }

  lemma FillAttests(d: Decoder, ds1: DecState, p: Pointee, c: Name, bs: seq<byte>, ds3: DecState, v: Val, rest: seq<byte>)
    requires Attests(d, d.Publish(ds1, p, c), bs, ds3, rest) && ClassesIn(v, ds3.classes)
    requires p.Dynamic? ==> c in ds1.classes
    ensures Attests(d, ds1, bs, d.Fill(ds3, |ds1.heap|, Built(p, c, v)), rest)
  {
    hide Attested, ClassesIn, IsSuffix, Built, NewCell;
    var ds4 := d.Fill(ds3, |ds1.heap|, Built(p, c, v));
    BuiltIn(p, c, v, ds1.classes, ds3.classes);
    forall a | |ds1.heap| <= a < |ds4.heap| ensures ClassesIn(ds4.heap[a].x, ds4.classes) {
    }
  }

  /** A fresh decoder on any bytes: every class in its table is one that the input names, followed by
      its hash, and every dynamic object that it made, owned or shared, is of a class in the table. */
  lemma OnlyAttestedClasses(d: Decoder, ts: seq<Ty>, memory: seq<Cell>, bs: seq<byte>)
    requires d.env.Valid()
    ensures match d.LoadTuple(NewDecoder(memory), ts, bs)
      case Ok((ds', vs, _)) =>
        && (forall i :: 0 <= i < |ds'.classes| ==> Attested(d, bs, ds'.classes[i]))
        && AllClassesIn(vs, ds'.classes) && HeapClassesIn(ds'.heap, |memory|, ds'.classes)
      case Err(_) => true
  {
    hide Decoder.LoadTuple, Attested, ClassesIn, IsSuffix, Env.Valid;
    TupleAttests(d, NewDecoder(memory), ts, bs);
  }
}
