/** Exactly when a stream is decoded into what was encoded.  For values without associative
    containers, decoding gives an isomorphic copy of the graph and leaves exactly what followed if
    and only if the reader can read every number and name that was written. */
module CodecExact {
  import opened Results
  import opened Streams
  import opened Variant
  import opened Codec
  import opened CodecRoundTrip
  import opened CodecNumbers
  import opened CodecGraph
  import opened CodecLength
  import CodecHashes

  // ----- One number -----

  /** A number that is read back as itself is readable. */
  lemma ReadsItself(rd: Reader, l: nat, more: seq<byte>)
    requires ReadVariant(rd, VariantBytes(l) + more).Ok? && ReadVariant(rd, VariantBytes(l) + more).value.0 == l
    ensures Readable(rd, l)
  {
    hide VariantBytes, ReadVariant, Digits, Palindrome;
    ReadVariantShape(rd, VariantBytes(l) + more);
    if rd.AsWritten? {
      RoundTripExactlyPalindromes(l, more);
      ReadBackIsDigitReversal(l, more);
    }
  }

  lemma {:induction false} FoldConsumes(rd: Reader, l: nat, more: seq<byte>, acc: nat, w: nat)
    ensures var r := Fold(rd, VariantBytes(l) + more, acc, w); r.Ok? && r.value.1 == more
    decreases l
  {
    hide Variant.Step, Wrap;
    var bs := VariantBytes(l) + more;
    if l >= 128 {
      VariantBytesStep(l, more);
      FoldConsumes(rd, l / 128, more, Variant.Step(rd, acc, w, bs[0]), Wrap(w * 128));
    } else {
      assert bs[1..] == more;
    }
  }

  /** Whatever a number is read as, exactly its bytes are read. */
  lemma VariantConsumes(rd: Reader, l: nat, more: seq<byte>)
    ensures var r := ReadVariant(rd, VariantBytes(l) + more); r.Ok? && r.value.1 == more
  {
    hide Fold, VariantBytes;
    FoldConsumes(rd, l, more, 0, 1);
  }

  // ----- Names that run on -----

  /** A name whose length is read as too great runs on into the hash behind it.  It is cut to the
      right name again exactly if the hash begins with a zero byte. */
  ghost predicate NoNameRunsOn(e: Encoder, rd: Reader, names: set<Name>) {
    forall c :: c in names && c in e.env.hashes && !Readable(rd, |c|) ==> !BeginsWithZero(Wire(e.rev, e.env.hashes[c]))
  }

  predicate BeginsWithZero(bs: seq<byte>) {
    bs != [] && bs[0] == 0
  }

  /** What the theorem asks of a decoding: that it leaves no less than what followed the stream, or
      else that no name among those written can run on. */
  ghost predicate Careful(e: Encoder, rd: Reader, names: set<Name>, tail: seq<byte>, rest: seq<byte>) {
    |rest| >= |tail| || NoNameRunsOn(e, rd, names)
  }

  /** It holds of a first part, when the second part consumed at least its own length. */
  lemma CarefulFirst(e: Encoder, rd: Reader, names: set<Name>, all: set<Name>, b: seq<byte>, tail: seq<byte>,
                     rest1: seq<byte>, rest: seq<byte>)
    requires Careful(e, rd, all, tail, rest) && names <= all && |rest1| >= |b| + |rest|
    ensures Careful(e, rd, names, b + tail, rest1)
  {
    hide Readable, Wire;
  }

  /** The text that is cut to `c` is `c` itself. */
  lemma NameExact(e: Encoder, rd: Reader, c: Name, more: seq<byte>, rest: seq<byte>)
    requires c in e.env.hashes && |e.env.hashes[c]| == 4 && Careful(e, rd, {c}, more, rest)
    requires var r := ReadText(rd, TextBytes(c) + (Wire(e.rev, e.env.hashes[c]) + more));
      r.Ok? && CString(r.value.0) == c && |r.value.1| == 4 + |rest|
    ensures NameSurvives(rd, c)
  {
    hide VariantBytes, ReadVariant, Readable, Wire, CString;
    var hash := Wire(e.rev, e.env.hashes[c]);
    var after := c + (hash + more);
    assert TextBytes(c) + (hash + more) == VariantBytes(|c|) + after;
    VariantConsumes(rd, |c|, after);
    var n := ReadVariant(rd, VariantBytes(|c|) + after).value.0;
    var text := after[..n];
    assert ReadText(rd, TextBytes(c) + (hash + more)) == Ok((text, after[n..]));
    NameOf(text);
    if n > |c| {
      assert text[|c|] == hash[0];
    } else {
      ReadsItself(rd, |c|, after);
    }
  }

  lemma NameOf(text: seq<byte>)
    ensures var name := CString(text);
      0 !in name && |name| <= |text| && (|name| < |text| ==> text[|name|] == 0)
  {
    hide CString;
  }

  // ----- Class references -----

  /** A header that is read as the class it was written for is clear. */
  lemma HeaderExact(e: Encoder, rd: Reader, st: EncState, ds: DecState, p: Pointee, x: Val, more: seq<byte>)
    requires e.env.Valid() && ClassesInStep(e.env, st.classes, ds.classes) && KnownReadable(rd, st)
    requires TypedTarget(e.env, KindsOf(e.h), p, x)
    requires var r := DecoderFor(e, rd).LoadClass(ds, p, SaveHeader(e, st, p, x).1 + more);
      r.Ok? && r.value.1 == ClassOf(p, x) && Careful(e, rd, SaveHeader(e, st, p, x).0.classes.Keys, more, r.value.2)
    ensures ClearHeader(rd, st, p, x)
  {
    hide KnownReadable, Decoder.LoadClass, VariantBytes, TextBytes, Readable, Wire, Typed, ClassesInStep, Env.Valid, NoNameRunsOn;
    if p.Dynamic? {
      var c := ClassOf(p, x);
      if c in st.classes {
        SeenReadable(e.env, rd, st, ds, c);
      } else {
        TargetRegistered(e, p, x);
        var hash := Wire(e.rev, e.env.hashes[c]);
        assert VariantBytes(|st.classes|) + TextBytes(c) + hash + more == VariantBytes(|st.classes|) + (TextBytes(c) + (hash + more));
        var rest := DecoderFor(e, rd).LoadClass(ds, p, SaveHeader(e, st, p, x).1 + more).value.2;
        CarefulOne(e, rd, SaveHeader(e, st, p, x).0.classes.Keys, c, more, rest);
        FirstClassExact(e, rd, st, ds, p.base, c, more);
      }
    }
  }

  lemma CarefulOne(e: Encoder, rd: Reader, names: set<Name>, c: Name, tail: seq<byte>, rest: seq<byte>)
    requires Careful(e, rd, names, tail, rest) && c in names
    ensures Careful(e, rd, {c}, tail, rest)
  {
    hide Readable, Wire;
  }

  lemma SeenReadable(env: Env, rd: Reader, st: EncState, ds: DecState, c: Name)
    requires ClassesInStep(env, st.classes, ds.classes) && KnownReadable(rd, st) && c in st.classes
    ensures Readable(rd, st.classes[c])
  {
    hide Readable, RangeReadable;
    RangeAt(rd, 0, |st.classes|, st.classes[c]);
  }

  lemma FirstClassExact(e: Encoder, rd: Reader, st: EncState, ds: DecState, base: Name, c: Name, more: seq<byte>)
    requires ClassesInStep(e.env, st.classes, ds.classes) && c !in st.classes && c in e.env.hashes && |e.env.hashes[c]| == 4
    requires var r := DecoderFor(e, rd).LoadClass(ds, Dynamic(base),
                        VariantBytes(|st.classes|) + (TextBytes(c) + (Wire(e.rev, e.env.hashes[c]) + more)));
      r.Ok? && r.value.1 == c && Careful(e, rd, {c}, more, r.value.2)
    ensures Readable(rd, |st.classes|) && NameSurvives(rd, c)
  {
    hide VariantBytes, TextBytes, ReadVariant, Readable, Wire, ClassesInStep, Decoder.LoadNewClass, Careful, NameSurvives;
    var id, after := |st.classes|, TextBytes(c) + (Wire(e.rev, e.env.hashes[c]) + more);
    var read := ReadVariant(rd, VariantBytes(id) + after).value;
    TableSize(e.env, st, ds);
    if read.0 < |ds.classes| {
      ClassHasNumber(e.env, st.classes, ds.classes, read.0);
    }
    assert read.0 == id;
    ReadsItself(rd, id, after);
    ReadableRoundTrip(rd, id, after);
    NewClassReads(DecoderFor(e, rd), ds, after, c);
    NameExact(e, rd, c, more, DecoderFor(e, rd).LoadNewClass(ds, after).value.1);
  }

  lemma NewClassReads(d: Decoder, ds: DecState, bs: seq<byte>, c: Name)
    requires d.LoadNewClass(ds, bs).Ok? && d.LoadNewClass(ds, bs).value.0.classes[|ds.classes|] == c
    ensures var r := ReadText(d.rd, bs);
      r.Ok? && CString(r.value.0) == c && |r.value.1| == 4 + |d.LoadNewClass(ds, bs).value.1|
  {
    hide ReadText, CString, Wire;
  }

  lemma TableSize(env: Env, st: EncState, ds: DecState)
    requires ClassesInStep(env, st.classes, ds.classes)
    ensures |ds.classes| == |st.classes|
  {
  }

  // ----- The states that a faithful decoding goes through -----

  /** Encoder and decoder are in step, all numbers so far are readable, and the objects created so
      far are the images under `phi`. */
  ghost predicate OnTrack(e: Encoder, rd: Reader, st: EncState, ds: DecState, phi: Renaming) {
    InStep(e, st, ds) && KnownReadable(rd, st) && SubMap(Phi(st, ds), phi)
  }

  lemma OnTrackInStep(e: Encoder, rd: Reader, st: EncState, ds: DecState, phi: Renaming)
    requires OnTrack(e, rd, st, ds, phi)
    ensures InStep(e, st, ds) && KnownReadable(rd, st)
  {
    hide InStep, KnownReadable, Phi;
  }

  lemma OnTrackCovers(e: Encoder, rd: Reader, st: EncState, ds: DecState, phi: Renaming)
    requires OnTrack(e, rd, st, ds, phi)
    ensures Covers(st, ds, phi)
  {
    hide InStep, KnownReadable, Phi, Covers;
    InStepCovers(e, st, ds, phi);
  }

  // ----- The induction -----

  /** Loading the bytes of `v`, with `tail` behind them, gives its image in state `ds'`. */
  ghost predicate GivesImage(e: Encoder, rd: Reader, st: EncState, ds: DecState, t: Ty, v: Val, tail: seq<byte>,
                             phi: Renaming, memory: seq<Cell>, ds': DecState, rest: seq<byte>) {
    && Loads(e, rd, ds, t, v, e.Save(st, t, v).1 + tail, phi, memory, ds', rest)
    && Careful(e, rd, e.Save(st, t, v).0.classes.Keys, tail, rest)
  }

  /** Then what was written is clear, exactly `tail` is left, and the states stay on track. */
  ghost predicate StaysOnTrack(e: Encoder, rd: Reader, st: EncState, t: Ty, v: Val, tail: seq<byte>, phi: Renaming,
                               ds': DecState, rest: seq<byte>) {
    Clear(e, rd, st, t, v) && rest == tail && OnTrack(e, rd, e.Save(st, t, v).0, ds', phi)
  }

  ghost predicate GivesImages(e: Encoder, rd: Reader, st: EncState, ds: DecState, el: Elem, vs: seq<Val>, tail: seq<byte>,
                              phi: Renaming, memory: seq<Cell>, ds': DecState, rest: seq<byte>) {
    && LoadsElems(e, rd, ds, el, vs, e.SaveElems(st, el, vs).1 + tail, phi, memory, ds', rest)
    && Careful(e, rd, e.SaveElems(st, el, vs).0.classes.Keys, tail, rest)
  }

  ghost predicate ElemsStayOnTrack(e: Encoder, rd: Reader, st: EncState, el: Elem, vs: seq<Val>, tail: seq<byte>,
                                   phi: Renaming, ds': DecState, rest: seq<byte>) {
    ClearElems(e, rd, st, el, vs) && rest == tail && OnTrack(e, rd, e.SaveElems(st, el, vs).0, ds', phi)
  }

  ghost predicate GivesTuple(e: Encoder, rd: Reader, st: EncState, ds: DecState, ts: seq<Ty>, vs: seq<Val>, tail: seq<byte>,
                             phi: Renaming, memory: seq<Cell>, ds': DecState, rest: seq<byte>) {
    && LoadsTuple(e, rd, ds, ts, vs, e.SaveTuple(st, ts, vs).1 + tail, phi, memory, ds', rest)
    && Careful(e, rd, e.SaveTuple(st, ts, vs).0.classes.Keys, tail, rest)
  }

  ghost predicate TupleStaysOnTrack(e: Encoder, rd: Reader, st: EncState, ts: seq<Ty>, vs: seq<Val>, tail: seq<byte>,
                                    phi: Renaming, ds': DecState, rest: seq<byte>) {
    ClearTuple(e, rd, st, ts, vs) && rest == tail && OnTrack(e, rd, e.SaveTuple(st, ts, vs).0, ds', phi)
  }

  lemma GivesImageIf(e: Encoder, rd: Reader, st: EncState, ds: DecState, t: Ty, v: Val, tail: seq<byte>,
                     phi: Renaming, memory: seq<Cell>, ds': DecState, rest: seq<byte>)
    requires Loads(e, rd, ds, t, v, e.Save(st, t, v).1 + tail, phi, memory, ds', rest)
    requires Careful(e, rd, e.Save(st, t, v).0.classes.Keys, tail, rest)
    ensures GivesImage(e, rd, st, ds, t, v, tail, phi, memory, ds', rest)
  {
    hide Encoder.Save, Loads, Careful;
  }

  lemma StaysOnTrackMeans(e: Encoder, rd: Reader, st: EncState, t: Ty, v: Val, tail: seq<byte>, phi: Renaming,
                          ds': DecState, rest: seq<byte>)
    requires StaysOnTrack(e, rd, st, t, v, tail, phi, ds', rest)
    ensures Clear(e, rd, st, t, v) && rest == tail && OnTrack(e, rd, e.Save(st, t, v).0, ds', phi)
  {
    hide Clear, OnTrack, Encoder.Save;
  }

  /** Loading several values that give images, taken apart. */
  lemma ElemsApart(e: Encoder, rd: Reader, st: EncState, ds: DecState, el: Elem, vs: seq<Val>, tail: seq<byte>,
                   phi: Renaming, memory: seq<Cell>, ds': DecState, rest: seq<byte>)
    returns (ds1: DecState, rest1: seq<byte>)
    requires Whole(e, phi, memory) && OnTrack(e, rd, st, ds, phi) && AssocFreeElems(e.env, el, vs)
    requires TypedElems(e.env, KindsOf(e.h), el, vs) && vs != []
    requires GivesImages(e, rd, st, ds, el, vs, tail, phi, memory, ds', rest)
    ensures var t := ElemType(e.env, el);
      var st1 := e.Save(st, t, vs[0]).0;
      var b2 := e.SaveElems(st1, el, vs[1..]).1;
      && GivesImage(e, rd, st, ds, t, vs[0], b2 + tail, phi, memory, ds1, rest1)
      && (rest1 == b2 + tail ==> GivesImages(e, rd, st1, ds1, el, vs[1..], tail, phi, memory, ds', rest))
  {
    hide Whole, OnTrack, Encoder.Save, Typed, AssocFree, Loads, LoadsElems, Careful, GivesImage, Env.Valid, Covers;
    WholeValid(e, phi, memory);
    OnTrackCovers(e, rd, st, ds, phi);
    var t := ElemType(e.env, el);
    var (st1, b1) := e.Save(st, t, vs[0]);
    var (st2, b2) := e.SaveElems(st1, el, vs[1..]);
    assert b1 + b2 + tail == b1 + (b2 + tail);
    ds1, rest1 := ElemsSplit(e, rd, ds, el, vs, b1 + (b2 + tail), phi, memory, ds', rest);
    LoadsEnough(e, rd, st, ds, t, vs[0], b1 + (b2 + tail), phi, memory, ds1, rest1);
    ElemsEnough(e, rd, st1, ds1, el, vs[1..], rest1, phi, memory, ds', rest);
    CarefulFirst(e, rd, st1.classes.Keys, st2.classes.Keys, b2, tail, rest1, rest);
    GivesImageIf(e, rd, st, ds, t, vs[0], b2 + tail, phi, memory, ds1, rest1);
  }

  lemma TupleApart(e: Encoder, rd: Reader, st: EncState, ds: DecState, ts: seq<Ty>, vs: seq<Val>, tail: seq<byte>,
                   phi: Renaming, memory: seq<Cell>, ds': DecState, rest: seq<byte>)
    returns (ds1: DecState, rest1: seq<byte>)
    requires Whole(e, phi, memory) && OnTrack(e, rd, st, ds, phi) && AssocFreeTuple(e.env, ts, vs)
    requires |ts| == |vs| && TypedTuple(e.env, KindsOf(e.h), ts, vs) && vs != []
    requires GivesTuple(e, rd, st, ds, ts, vs, tail, phi, memory, ds', rest)
    ensures var st1 := e.Save(st, ts[0], vs[0]).0;
      var b2 := e.SaveTuple(st1, ts[1..], vs[1..]).1;
      && GivesImage(e, rd, st, ds, ts[0], vs[0], b2 + tail, phi, memory, ds1, rest1)
      && (rest1 == b2 + tail ==> GivesTuple(e, rd, st1, ds1, ts[1..], vs[1..], tail, phi, memory, ds', rest))
  {
    hide Whole, OnTrack, Encoder.Save, Typed, AssocFree, Loads, LoadsTuple, Careful, GivesImage, Env.Valid, Covers;
    WholeValid(e, phi, memory);
    OnTrackCovers(e, rd, st, ds, phi);
    var (st1, b1) := e.Save(st, ts[0], vs[0]);
    var (st2, b2) := e.SaveTuple(st1, ts[1..], vs[1..]);
    assert b1 + b2 + tail == b1 + (b2 + tail);
    ds1, rest1 := TupleSplit(e, rd, ds, ts, vs, b1 + (b2 + tail), phi, memory, ds', rest);
    LoadsEnough(e, rd, st, ds, ts[0], vs[0], b1 + (b2 + tail), phi, memory, ds1, rest1);
    TupleEnough(e, rd, st1, ds1, ts[1..], vs[1..], rest1, phi, memory, ds', rest);
    CarefulFirst(e, rd, st1.classes.Keys, st2.classes.Keys, b2, tail, rest1, rest);
    GivesImageIf(e, rd, st, ds, ts[0], vs[0], b2 + tail, phi, memory, ds1, rest1);
  }

  lemma {:induction false} ElemsExact(e: Encoder, rd: Reader, st: EncState, ds: DecState, el: Elem, vs: seq<Val>,
                                      tail: seq<byte>, phi: Renaming, memory: seq<Cell>, ds': DecState, rest: seq<byte>)
    requires Whole(e, phi, memory) && OnTrack(e, rd, st, ds, phi) && AssocFreeElems(e.env, el, vs)
    requires TypedElems(e.env, KindsOf(e.h), el, vs)
    requires GivesImages(e, rd, st, ds, el, vs, tail, phi, memory, ds', rest)
    ensures ElemsStayOnTrack(e, rd, st, el, vs, tail, phi, ds', rest)
    decreases e.h.Keys - st.objs.Keys, vs, 0
  {
    hide Whole, OnTrack, Encoder.Save, Decoder.Load, Typed, Clear, GivesImage, Rename, Final, AssocFree, Env.Valid,
      AssocFreeHeap, StaysOnTrack;
    if vs == [] {
      assert [] + tail == tail;
    } else {
      hide GivesImages;
      WholeValid(e, phi, memory);
      var t := ElemType(e.env, el);
      var ds1, rest1 := ElemsApart(e, rd, st, ds, el, vs, tail, phi, memory, ds', rest);
      var st1 := e.Save(st, t, vs[0]).0;
      ExactSave(e, rd, st, ds, t, vs[0], e.SaveElems(st1, el, vs[1..]).1 + tail, phi, memory, ds1, rest1);
      StaysOnTrackMeans(e, rd, st, t, vs[0], e.SaveElems(st1, el, vs[1..]).1 + tail, phi, ds1, rest1);
      ElemsExact(e, rd, st1, ds1, el, vs[1..], tail, phi, memory, ds', rest);
    }
  }

  lemma {:induction false} TupleExact(e: Encoder, rd: Reader, st: EncState, ds: DecState, ts: seq<Ty>, vs: seq<Val>,
                                      tail: seq<byte>, phi: Renaming, memory: seq<Cell>, ds': DecState, rest: seq<byte>)
    requires Whole(e, phi, memory) && OnTrack(e, rd, st, ds, phi) && AssocFreeTuple(e.env, ts, vs)
    requires |ts| == |vs| && TypedTuple(e.env, KindsOf(e.h), ts, vs)
    requires GivesTuple(e, rd, st, ds, ts, vs, tail, phi, memory, ds', rest)
    ensures TupleStaysOnTrack(e, rd, st, ts, vs, tail, phi, ds', rest)
    decreases e.h.Keys - st.objs.Keys, vs, 0
  {
    hide Whole, OnTrack, Encoder.Save, Decoder.Load, Typed, Clear, GivesImage, Rename, Final, AssocFree, Env.Valid,
      AssocFreeHeap, StaysOnTrack;
    if vs == [] {
      assert [] + tail == tail;
    } else {
      hide GivesTuple;
      WholeValid(e, phi, memory);
      var ds1, rest1 := TupleApart(e, rd, st, ds, ts, vs, tail, phi, memory, ds', rest);
      var st1 := e.Save(st, ts[0], vs[0]).0;
      ExactSave(e, rd, st, ds, ts[0], vs[0], e.SaveTuple(st1, ts[1..], vs[1..]).1 + tail, phi, memory, ds1, rest1);
      StaysOnTrackMeans(e, rd, st, ts[0], vs[0], e.SaveTuple(st1, ts[1..], vs[1..]).1 + tail, phi, ds1, rest1);
      TupleExact(e, rd, st1, ds1, ts[1..], vs[1..], tail, phi, memory, ds', rest);
    }
  }

  // One lemma per kind of value, as for the round trip.

  /** Where the value round-trips without any condition, nothing can go astray. */
  lemma StaysIfRoundTrips(e: Encoder, rd: Reader, st: EncState, ds: DecState, t: Ty, v: Val, tail: seq<byte>,
                          phi: Renaming, memory: seq<Cell>, ds': DecState, rest: seq<byte>)
    requires OnTrack(e, rd, st, ds, phi) && RoundTrips(e, rd, st, ds, t, v, tail, ds) && Clear(e, rd, st, t, v)
    requires GivesImage(e, rd, st, ds, t, v, tail, phi, memory, ds', rest) && e.Save(st, t, v).0 == st
    ensures StaysOnTrack(e, rd, st, t, v, tail, phi, ds', rest)
  {
    hide Careful, OnTrack, Advance, Clear, Encoder.Save, Decoder.Load, Rename, Final, Phi, RefsIn;
  }

  lemma SequenceApart(e: Encoder, rd: Reader, st: EncState, ds: DecState, el: Elem, vs: seq<Val>, tail: seq<byte>,
                      phi: Renaming, memory: seq<Cell>, ds': DecState, rest: seq<byte>)
    requires GivesImage(e, rd, st, ds, Sequence(el), Items(vs), tail, phi, memory, ds', rest)
    ensures Readable(rd, |vs|) && GivesImages(e, rd, st, ds, el, vs, tail, phi, memory, ds', rest)
  {
    hide Careful, VariantBytes, ReadVariant, Readable, Encoder.SaveElems, Decoder.LoadElems, RenameAll, Final;
    var bs := e.SaveElems(st, el, vs).1 + tail;
    assert VariantBytes(|vs|) + e.SaveElems(st, el, vs).1 + tail == VariantBytes(|vs|) + bs;
    ReadsItself(rd, |vs|, bs);
    ReadableRoundTrip(rd, |vs|, bs);
  }

  lemma SequenceStays(e: Encoder, rd: Reader, st: EncState, el: Elem, vs: seq<Val>, tail: seq<byte>, phi: Renaming,
                      ds': DecState, rest: seq<byte>)
    requires Readable(rd, |vs|) && ElemsStayOnTrack(e, rd, st, el, vs, tail, phi, ds', rest)
    ensures StaysOnTrack(e, rd, st, Sequence(el), Items(vs), tail, phi, ds', rest)
  {
    hide OnTrack, Readable, Encoder.SaveElems, ClearElems, VariantBytes;
  }

  lemma ArrayApart(e: Encoder, rd: Reader, st: EncState, ds: DecState, t: Ty, vs: seq<Val>, tail: seq<byte>,
                   phi: Renaming, memory: seq<Cell>, ds': DecState, rest: seq<byte>)
    requires GivesImage(e, rd, st, ds, Array(|vs|, t), Items(vs), tail, phi, memory, ds', rest)
    ensures GivesImages(e, rd, st, ds, Inline(t), vs, tail, phi, memory, ds', rest)
  {
    hide Careful, Encoder.SaveElems, Decoder.LoadElems, RenameAll, Final;
  }

  lemma ArrayStays(e: Encoder, rd: Reader, st: EncState, t: Ty, vs: seq<Val>, tail: seq<byte>, phi: Renaming,
                   ds': DecState, rest: seq<byte>)
    requires ElemsStayOnTrack(e, rd, st, Inline(t), vs, tail, phi, ds', rest)
    ensures StaysOnTrack(e, rd, st, Array(|vs|, t), Items(vs), tail, phi, ds', rest)
  {
    hide OnTrack, Encoder.SaveElems, ClearElems;
  }

  lemma ClassApart(e: Encoder, rd: Reader, st: EncState, ds: DecState, ts: seq<Ty>, vs: seq<Val>, tail: seq<byte>,
                   phi: Renaming, memory: seq<Cell>, ds': DecState, rest: seq<byte>)
    requires GivesImage(e, rd, st, ds, Tuple(ts), Items(vs), tail, phi, memory, ds', rest)
    ensures GivesTuple(e, rd, st, ds, ts, vs, tail, phi, memory, ds', rest)
  {
    hide Careful, Encoder.SaveTuple, Decoder.LoadTuple, RenameAll, Final;
  }

  lemma ClassStays(e: Encoder, rd: Reader, st: EncState, ts: seq<Ty>, vs: seq<Val>, tail: seq<byte>, phi: Renaming,
                   ds': DecState, rest: seq<byte>)
    requires TupleStaysOnTrack(e, rd, st, ts, vs, tail, phi, ds', rest)
    ensures StaysOnTrack(e, rd, st, Tuple(ts), Items(vs), tail, phi, ds', rest)
  {
    hide OnTrack, Encoder.SaveTuple, ClearTuple;
  }

  lemma OptionalApart(e: Encoder, rd: Reader, st: EncState, ds: DecState, t: Ty, v: Val, tail: seq<byte>,
                      phi: Renaming, memory: seq<Cell>, ds': DecState, rest: seq<byte>)
    requires GivesImage(e, rd, st, ds, Optional(t), Items([v]), tail, phi, memory, ds', rest)
    ensures GivesImage(e, rd, st, ds, t, v, tail, phi, memory, ds', rest)
  {
    hide Careful, Encoder.Save, Decoder.Load, Rename, Final;
    var bs := e.Save(st, t, v).1;
    OptionalBytes(e, DecoderFor(e, rd), st, ds, t, v, bs + tail);
    assert [1] + bs + tail == [1] + (bs + tail);
    RenameOne(phi, v);
  }

  lemma OptionalBytes(e: Encoder, d: Decoder, st: EncState, ds: DecState, t: Ty, v: Val, bs: seq<byte>)
    ensures e.Save(st, Optional(t), Items([v])) == (e.Save(st, t, v).0, [1] + e.Save(st, t, v).1)
    ensures d.Load(ds, Optional(t), [1] + bs) ==
      match d.Load(ds, t, bs) case Ok((ds', v', rest)) => Ok((ds', Items([v']), rest)) case Err(error) => Err(error)
  {
    TakeFront([1], bs);
  }

  lemma OptionalStays(e: Encoder, rd: Reader, st: EncState, t: Ty, v: Val, tail: seq<byte>, phi: Renaming,
                      ds': DecState, rest: seq<byte>)
    requires StaysOnTrack(e, rd, st, t, v, tail, phi, ds', rest)
    ensures StaysOnTrack(e, rd, st, Optional(t), Items([v]), tail, phi, ds', rest)
  {
    hide OnTrack;
  }

  // Owned objects.

  /** What an owned object's image says about its header and its content. */
  lemma OwnedApart(e: Encoder, rd: Reader, st: EncState, ds: DecState, p: Pointee, x: Val, tail: seq<byte>,
                   phi: Renaming, memory: seq<Cell>, ds': DecState, rest: seq<byte>)
    requires Whole(e, phi, memory) && OnTrack(e, rd, st, ds, phi) && TypedTarget(e.env, KindsOf(e.h), p, x)
    requires AssocFreeTarget(e.env, p, x)
    requires GivesImage(e, rd, st, ds, Unique(p), Items([x]), tail, phi, memory, ds', rest)
    ensures ClassOf(p, x) in e.env.types && ClearHeader(rd, st, p, x)
    ensures GivesImage(e, rd, SaveHeader(e, st, p, x).0, ds.(classes := ClassesAfter(st, ds, p, x)),
                       e.env.types[ClassOf(p, x)], Inner(p, x), tail, phi, memory, ds', rest)
  {
    hide Whole, OnTrack, InStep, KnownReadable, Encoder.Save, Encoder.SaveTarget, Decoder.Load, Decoder.LoadClass, SaveHeader, Typed,
      TypedTarget, ClassesAfter, ClassesInStep, ClassOf, Inner, ClearHeader, Env.Valid, Loads, Careful, Covers, AssocFree;
    WholeValid(e, phi, memory);
    OnTrackInStep(e, rd, st, ds, phi);
    OnTrackCovers(e, rd, st, ds, phi);
    TargetParts(e, st, p, x);
    InStepClasses(e, st, ds);
    var (st1, hb) := SaveHeader(e, st, p, x);
    var t := e.env.types[ClassOf(p, x)];
    var (st2, b) := e.Save(st1, t, Inner(p, x));
    SaveUnique(e, st, p, [x]);
    var bs := [1] + (hb + (b + tail));
    assert [1] + (hb + b) + tail == bs && bs[1..] == hb + (b + tail);
    var ds1, rest1 := OwnedSplit(e, rd, st, ds, p, x, bs, phi, memory, ds', rest);
    HeaderKeeps(e, st, p, x);
    LoadsEnough(e, rd, st1, ds1, t, Inner(p, x), rest1, phi, memory, ds', rest);
    CarefulFirst(e, rd, st1.classes.Keys, st2.classes.Keys, b, tail, rest1, rest);
    HeaderExact(e, rd, st, ds, p, x, b + tail);
    HeaderRoundTrip(e, rd, st, ds, p, x, b + tail);
    GivesImageIf(e, rd, st1, ds1, t, Inner(p, x), tail, phi, memory, ds', rest);
  }

  /** Over a clear header the states stay on track. */
  lemma HeaderOnTrack(e: Encoder, rd: Reader, st: EncState, ds: DecState, p: Pointee, x: Val, phi: Renaming)
    requires e.env.Valid() && OnTrack(e, rd, st, ds, phi) && TypedTarget(e.env, KindsOf(e.h), p, x) && ClearHeader(rd, st, p, x)
    ensures SaveHeader(e, st, p, x).0.objs == st.objs
    ensures OnTrack(e, rd, SaveHeader(e, st, p, x).0, ds.(classes := ClassesAfter(st, ds, p, x)), phi)
  {
    hide InStep, KnownReadable, Typed, TypedTarget, ClassesInStep, SaveHeader, ClassesAfter, ClearHeader, Env.Valid, Advance;
    InStepClasses(e, st, ds);
    HeaderInStep(e, st, ds, p, x);
    var st1, ds1 := SaveHeader(e, st, p, x).0, ds.(classes := ClassesAfter(st, ds, p, x));
    HeaderAdvances(e, st, ds, st1, ds1);
    AdvanceInStep(e, st, ds, st1, ds1);
    HeaderKnown(e, rd, st, p, x);
    assert Phi(st1, ds1) == Phi(st, ds);
  }

  lemma HeaderKnown(e: Encoder, rd: Reader, st: EncState, p: Pointee, x: Val)
    requires KnownReadable(rd, st) && ClearHeader(rd, st, p, x)
    ensures KnownReadable(rd, SaveHeader(e, st, p, x).0)
  {
    hide Readable, RangeReadable, VariantBytes, TextBytes, Wire;
    var c, st1 := ClassOf(p, x), SaveHeader(e, st, p, x).0;
    if p.Dynamic? && c in e.env.hashes && c !in st.classes {
      MapInsert(st.classes, st1.classes, c, |st.classes|);
      RangeSplit(rd, 0, |st.classes|, |st1.classes|);
      RangeOne(rd, |st.classes|);
    }
  }

  lemma OwnedStays(e: Encoder, rd: Reader, st: EncState, p: Pointee, x: Val, tail: seq<byte>, phi: Renaming,
                   ds': DecState, rest: seq<byte>)
    requires e.env.Valid() && TypedTarget(e.env, KindsOf(e.h), p, x) && ClearHeader(rd, st, p, x)
    requires ClassOf(p, x) in e.env.types
    requires StaysOnTrack(e, rd, SaveHeader(e, st, p, x).0, e.env.types[ClassOf(p, x)], Inner(p, x), tail, phi, ds', rest)
    ensures StaysOnTrack(e, rd, st, Unique(p), Items([x]), tail, phi, ds', rest)
  {
    hide OnTrack, Encoder.Save, Encoder.SaveTarget, Clear, ClearTarget, Typed, TypedTarget, SaveHeader, ClearHeader, ClassOf, Inner,
      Env.Valid;
    TargetParts(e, st, p, x);
    ClearParts(e, rd, st, p, x);
    UniqueUnfolds(e, rd, st, p, x);
  }

  lemma UniqueUnfolds(e: Encoder, rd: Reader, st: EncState, p: Pointee, x: Val)
    ensures e.Save(st, Unique(p), Items([x])).0 == e.SaveTarget(st, p, x).0
    ensures Clear(e, rd, st, Unique(p), Items([x])) == ClearTarget(e, rd, st, p, x)
  {
    hide Encoder.SaveTarget, ClearTarget;
  }

  lemma {:induction false} OwnedExact(e: Encoder, rd: Reader, st: EncState, ds: DecState, p: Pointee, x: Val,
                                      tail: seq<byte>, phi: Renaming, memory: seq<Cell>, ds': DecState, rest: seq<byte>)
    requires Whole(e, phi, memory) && OnTrack(e, rd, st, ds, phi) && TypedTarget(e.env, KindsOf(e.h), p, x)
    requires AssocFreeTarget(e.env, p, x)
    requires GivesImage(e, rd, st, ds, Unique(p), Items([x]), tail, phi, memory, ds', rest)
    ensures StaysOnTrack(e, rd, st, Unique(p), Items([x]), tail, phi, ds', rest)
    decreases e.h.Keys - st.objs.Keys, x, 2
  {
    hide Whole, OnTrack, InStep, KnownReadable, GivesImage, StaysOnTrack, Typed, TypedTarget, SaveHeader, ClassesAfter, ClearHeader,
      Env.Valid, AssocFree, ClassesInStep;
    WholeValid(e, phi, memory);
    OwnedApart(e, rd, st, ds, p, x, tail, phi, memory, ds', rest);
    HeaderOnTrack(e, rd, st, ds, p, x, phi);
    TargetParts(e, st, p, x);
    var st1, ds1 := SaveHeader(e, st, p, x).0, ds.(classes := ClassesAfter(st, ds, p, x));
    ExactSave(e, rd, st1, ds1, e.env.types[ClassOf(p, x)], Inner(p, x), tail, phi, memory, ds', rest);
    OwnedStays(e, rd, st, p, x, tail, phi, ds', rest);
  }

  // Shared objects.

  lemma SharedKnownExact(e: Encoder, rd: Reader, st: EncState, ds: DecState, p: Pointee, a: Addr, tail: seq<byte>,
                         phi: Renaming, memory: seq<Cell>, ds': DecState, rest: seq<byte>)
    requires OnTrack(e, rd, st, ds, phi) && a in st.objs && a in e.h && Holds(e.env, p, KindOf(e.h[a]))
    requires GivesImage(e, rd, st, ds, Shared(p), Ref(a), tail, phi, memory, ds', rest)
    ensures StaysOnTrack(e, rd, st, Shared(p), Ref(a), tail, phi, ds', rest)
  {
    hide OnTrack, InStep, KnownReadable, GivesImage, StaysOnTrack, RoundTrips, Encoder.Save, Clear, Readable, Holds, KindOf;
    OnTrackInStep(e, rd, st, ds, phi);
    InStepObj(e, st, ds, a);
    ObjectReadable(rd, st, a);
    KnownRoundTrips(e, rd, st, ds, p, a, tail);
    SharedKnown(e, rd, st, p, a);
    StaysIfRoundTrips(e, rd, st, ds, Shared(p), Ref(a), tail, phi, memory, ds', rest);
  }

  lemma ObjectReadable(rd: Reader, st: EncState, a: Addr)
    requires KnownReadable(rd, st) && a in st.objs && st.objs[a] <= |st.objs|
    ensures Readable(rd, st.objs[a])
  {
    hide Readable, RangeReadable;
    RangeAt(rd, 0, |st.objs| + 1, st.objs[a]);
  }

  lemma OtherImage(e: Encoder, st: EncState, ds: DecState, phi: Renaming, a: Addr, id: nat)
    requires InStep(e, st, ds) && SubMap(Phi(st, ds), phi) && Injective(phi) && a !in st.objs && 0 < id <= |st.objs|
    ensures id < |ds.objs| && Rename(phi, Ref(a)) != Ref(ds.objs[id].ptr)
  {
    hide InStep, Phi;
    InStepObj(e, st, ds, a);
    SomeObjectHasId(e, st, ds, id);
    var b :| b in st.objs && b in Phi(st, ds) && st.objs[b] == id && Phi(st, ds)[b] == ds.objs[id].ptr;
    assert phi[b] == ds.objs[id].ptr;
  }

  /** The id of a new object is read as itself: any smaller one belongs to another object. */
  lemma NewIdExact(e: Encoder, rd: Reader, st: EncState, ds: DecState, p: Pointee, a: Addr, more: seq<byte>, phi: Renaming)
    requires OnTrack(e, rd, st, ds, phi) && Injective(phi) && a !in st.objs
    requires var r := DecoderFor(e, rd).Load(ds, Shared(p), VariantBytes(|st.objs| + 1) + more);
      r.Ok? && r.value.1 == Rename(phi, Ref(a))
    ensures Readable(rd, |st.objs| + 1)
  {
    hide InStep, KnownReadable, VariantBytes, ReadVariant, Readable, Decoder.Load, Phi;
    var bs := VariantBytes(|st.objs| + 1) + more;
    SharedLoads(DecoderFor(e, rd), ds, p, bs);
    InStepObj(e, st, ds, a);
    var id := ReadVariant(rd, bs).value.0;
    if 0 < id <= |st.objs| {
      OtherImage(e, st, ds, phi, a, id);
    }
    assert id == |st.objs| + 1;
    ReadsItself(rd, |st.objs| + 1, more);
  }

  /** What a new object's image says about its id: what follows it is read as a new object. */
  lemma NewIdApart(e: Encoder, rd: Reader, st: EncState, ds: DecState, p: Pointee, a: Addr, more: seq<byte>,
                   phi: Renaming, ds': DecState, rest: seq<byte>)
    requires OnTrack(e, rd, st, ds, phi) && Injective(phi) && a in e.h && a !in st.objs
    requires DecoderFor(e, rd).Load(ds, Shared(p), VariantBytes(|st.objs| + 1) + more) == Ok((ds', Rename(phi, Ref(a)), rest))
    ensures Readable(rd, |st.objs| + 1) && a in phi && phi[a] == |ds.heap|
    ensures var d := DecoderFor(e, rd);
      var h := d.LoadClass(ds, p, more);
      && h.Ok? && h.value.1 in e.env.types && (p.Static? ==> h.value.1 == p.c) && h.value.0.heap == ds.heap
      && var l := d.Load(d.Publish(h.value.0, p, h.value.1), e.env.types[h.value.1], h.value.2);
      && l.Ok? && l.value.2 == rest && ds' == d.Fill(l.value.0, |ds.heap|, Built(p, h.value.1, l.value.1))
  {
    hide OnTrack, InStep, Decoder.Load, Decoder.LoadClass, Decoder.Publish, Decoder.Fill, Rename, Built, VariantBytes, ReadVariant,
      Readable, Injective;
    var id := |st.objs| + 1;
    OnTrackInStep(e, rd, st, ds, phi);
    InStepObj(e, st, ds, a);
    NewIdExact(e, rd, st, ds, p, a, more, phi);
    ReadableRoundTrip(rd, id, more);
    CreatingLoads(DecoderFor(e, rd), ds, p, VariantBytes(id) + more, more);
    RefImage(phi, a, |ds.heap|);
  }

  lemma NewApart(e: Encoder, rd: Reader, st: EncState, ds: DecState, p: Pointee, a: Addr, tail: seq<byte>,
                 phi: Renaming, memory: seq<Cell>, ds': DecState, rest: seq<byte>) returns (ds3: DecState)
    requires Whole(e, phi, memory) && OnTrack(e, rd, st, ds, phi) && a in e.h && a !in st.objs
    requires TypedTarget(e.env, KindsOf(e.h), p, e.h[a].x) && AssocFreeTarget(e.env, p, e.h[a].x)
    requires GivesImage(e, rd, st, ds, Shared(p), Ref(a), tail, phi, memory, ds', rest)
    ensures ClassOf(p, e.h[a].x) in e.env.types && ClearFirst(rd, st, p, a, e.h[a].x)
    ensures a in phi && phi[a] == |ds.heap|
    ensures GivesImage(e, rd, StartEnc(e, st, p, a), StartDec(e, rd, st, ds, p, a),
                       e.env.types[ClassOf(p, e.h[a].x)], Inner(p, e.h[a].x), tail, phi, memory, ds3, rest)
    ensures ds'.objs == ds3.objs && ds'.classes == ds3.classes
  {
    hide Whole, OnTrack, InStep, KnownReadable, Encoder.Save, Decoder.Load, Decoder.LoadClass, Decoder.Publish, Decoder.Fill, Rename,
      Final, SaveHeader, Typed, TypedTarget, ClassesAfter, Built, ClassOf, Inner, ClearFirst, Env.Valid, VariantBytes, Readable,
      GivesImage, Injective, AfterId, StartEnc, StartDec, Loads, Careful, AssocFreeTarget;
    var d, x := DecoderFor(e, rd), e.h[a].x;
    WholeValid(e, phi, memory);
    OnTrackInStep(e, rd, st, ds, phi);
    NewBytes(e, st, p, a, tail);
    var more := AfterId(e, st, p, a, tail);
    ImageLoads(e, rd, st, ds, Shared(p), Ref(a), tail, phi, memory, ds', rest);
    WholeInjective(e, phi, memory);
    NewIdApart(e, rd, st, ds, p, a, more, phi, ds', rest);
    var h := d.LoadClass(ds, p, more);
    var ds2 := d.Publish(h.value.0, p, h.value.1);
    var l := d.Load(ds2, e.env.types[h.value.1], h.value.2);
    NewContent(e, rd, ds, p, a, phi, memory, h, l);
    ds3 := l.value.0;
    LoadsIf(e, rd, ds2, e.env.types[ClassOf(p, x)], Inner(p, x), h.value.2, phi, memory, ds3, rest);
    NewCareful(e, rd, st, ds, p, a, tail, phi, memory, h, ds3, rest);
    NewStarts(e, rd, st, ds, p, a, tail, h);
    StartEncSaves(e, st, p, a);
    GivesImageIf(e, rd, StartEnc(e, st, p, a), StartDec(e, rd, st, ds, p, a), e.env.types[ClassOf(p, x)], Inner(p, x), tail,
                 phi, memory, ds3, rest);
  }

  /** The content of a new object consumed at least its own length, so the header no more than its. */
  lemma NewCareful(e: Encoder, rd: Reader, st: EncState, ds: DecState, p: Pointee, a: Addr, tail: seq<byte>,
                   phi: Renaming, memory: seq<Cell>, h: Decoded<Name>, ds3: DecState, rest: seq<byte>)
    requires Whole(e, phi, memory) && OnTrack(e, rd, st, ds, phi) && a in e.h && a !in st.objs && a in phi && phi[a] == |ds.heap|
    requires TypedTarget(e.env, KindsOf(e.h), p, e.h[a].x) && AssocFreeTarget(e.env, p, e.h[a].x)
    requires ClassOf(p, e.h[a].x) in e.env.types
    requires h == DecoderFor(e, rd).LoadClass(ds, p, AfterId(e, st, p, a, tail)) && h.Ok? && h.value.1 == ClassOf(p, e.h[a].x)
    requires Loads(e, rd, DecoderFor(e, rd).Publish(h.value.0, p, h.value.1), e.env.types[ClassOf(p, e.h[a].x)],
                   Inner(p, e.h[a].x), h.value.2, phi, memory, ds3, rest)
    requires Careful(e, rd, e.Save(st, Shared(p), Ref(a)).0.classes.Keys, tail, rest)
    ensures Careful(e, rd, StartEnc(e, st, p, a).classes.Keys,
                    e.Save(StartEnc(e, st, p, a), e.env.types[ClassOf(p, e.h[a].x)], Inner(p, e.h[a].x)).1 + tail, h.value.2)
  {
    hide Whole, OnTrack, Encoder.Save, Decoder.LoadClass, Decoder.Publish, SaveHeader, Typed, TypedTarget, ClassOf, Inner, Env.Valid,
      Loads, Careful, Covers, AssocFree, AfterId, StartEnc;
    var x := e.h[a].x;
    WholeValid(e, phi, memory);
    OnTrackCovers(e, rd, st, ds, phi);
    NewHeaderCovers(e, rd, st, ds, p, a, AfterId(e, st, p, a, tail), phi);
    TargetParts(e, st, p, x);
    StartEncSaves(e, st, p, a);
    var st1, t := StartEnc(e, st, p, a), e.env.types[ClassOf(p, x)];
    LoadsEnough(e, rd, st1, DecoderFor(e, rd).Publish(h.value.0, p, h.value.1), t, Inner(p, x), h.value.2, phi, memory, ds3, rest);
    CarefulFirst(e, rd, st1.classes.Keys, e.Save(st1, t, Inner(p, x)).0.classes.Keys, e.Save(st1, t, Inner(p, x)).1, tail,
                 h.value.2, rest);
  }

  lemma NewStarts(e: Encoder, rd: Reader, st: EncState, ds: DecState, p: Pointee, a: Addr, tail: seq<byte>, h: Decoded<Name>)
    requires e.env.Valid() && InStep(e, st, ds) && KnownReadable(rd, st) && a in e.h && a !in st.objs
    requires TypedTarget(e.env, KindsOf(e.h), p, e.h[a].x) && Readable(rd, |st.objs| + 1) && ClassOf(p, e.h[a].x) in e.env.types
    requires h == DecoderFor(e, rd).LoadClass(ds, p, AfterId(e, st, p, a, tail)) && h.Ok? && h.value.1 == ClassOf(p, e.h[a].x)
    requires Careful(e, rd, StartEnc(e, st, p, a).classes.Keys,
                     e.Save(StartEnc(e, st, p, a), e.env.types[ClassOf(p, e.h[a].x)], Inner(p, e.h[a].x)).1 + tail, h.value.2)
    ensures ClearFirst(rd, st, p, a, e.h[a].x)
    ensures DecoderFor(e, rd).Publish(h.value.0, p, h.value.1) == StartDec(e, rd, st, ds, p, a)
    ensures h.value.2 == e.Save(StartEnc(e, st, p, a), e.env.types[ClassOf(p, e.h[a].x)], Inner(p, e.h[a].x)).1 + tail
  {
    hide InStep, KnownReadable, Encoder.Save, Decoder.LoadClass, Decoder.Publish, SaveHeader, TypedTarget, ClassesAfter, ClassOf,
      Inner, ClearFirst, Env.Valid, Readable, Careful;
    NewHeaderExact(e, rd, st, ds, p, a,
                   e.Save(StartEnc(e, st, p, a), e.env.types[ClassOf(p, e.h[a].x)], Inner(p, e.h[a].x)).1 + tail);
  }

  lemma NewHeaderExact(e: Encoder, rd: Reader, st: EncState, ds: DecState, p: Pointee, a: Addr, more: seq<byte>)
    requires e.env.Valid() && InStep(e, st, ds) && KnownReadable(rd, st) && a in e.h && a !in st.objs
    requires TypedTarget(e.env, KindsOf(e.h), p, e.h[a].x) && Readable(rd, |st.objs| + 1)
    requires var st0 := st.(objs := st.objs[a := |st.objs| + 1]);
      var r := DecoderFor(e, rd).LoadClass(ds, p, SaveHeader(e, st0, p, e.h[a].x).1 + more);
      && r.Ok? && r.value.1 == ClassOf(p, e.h[a].x)
      && Careful(e, rd, SaveHeader(e, st0, p, e.h[a].x).0.classes.Keys, more, r.value.2)
    ensures ClearFirst(rd, st, p, a, e.h[a].x)
    ensures var st0 := st.(objs := st.objs[a := |st.objs| + 1]);
      DecoderFor(e, rd).LoadClass(ds, p, SaveHeader(e, st0, p, e.h[a].x).1 + more)
        == Ok((ds.(classes := ClassesAfter(st, ds, p, e.h[a].x)), ClassOf(p, e.h[a].x), more))
  {
    hide InStep, KnownReadable, Decoder.LoadClass, SaveHeader, TypedTarget, ClassesAfter, ClassesInStep, ClassOf, ClearHeader,
      Env.Valid, Readable, Careful;
    var st0, x := st.(objs := st.objs[a := |st.objs| + 1]), e.h[a].x;
    MapInsert(st.objs, st0.objs, a, |st.objs| + 1);
    InStepClasses(e, st, ds);
    KnownSame(rd, st, st0);
    HeaderExact(e, rd, st0, ds, p, x, more);
    HeaderRoundTrip(e, rd, st0, ds, p, x, more);
    ClassesAfterSame(st0, st, ds, p, x);
  }

  lemma ImageLoads(e: Encoder, rd: Reader, st: EncState, ds: DecState, t: Ty, v: Val, tail: seq<byte>,
                   phi: Renaming, memory: seq<Cell>, ds': DecState, rest: seq<byte>)
    requires GivesImage(e, rd, st, ds, t, v, tail, phi, memory, ds', rest)
    ensures DecoderFor(e, rd).Load(ds, t, e.Save(st, t, v).1 + tail) == Ok((ds', Rename(phi, v), rest))
    ensures Final(ds'.heap, |ds.heap|, memory) && Careful(e, rd, e.Save(st, t, v).0.classes.Keys, tail, rest)
  {
    hide Encoder.Save, Decoder.Load, Rename, Final, Careful;
  }

  lemma KnownSame(rd: Reader, st: EncState, st0: EncState)
    requires KnownReadable(rd, st) && st0.classes == st.classes && |st0.objs| == |st.objs| + 1 && Readable(rd, |st.objs| + 1)
    ensures KnownReadable(rd, st0)
  {
    hide Readable, RangeReadable;
    OneKnown(rd, st, st0);
  }

  /** At the beginning of the content the states are on track again. */
  lemma StartOnTrack(e: Encoder, rd: Reader, st: EncState, ds: DecState, p: Pointee, a: Addr, phi: Renaming)
    requires Setting(e) && OnTrack(e, rd, st, ds, phi) && a in e.h && a !in st.objs && Holds(e.env, p, KindOf(e.h[a]))
    requires TypedTarget(e.env, KindsOf(e.h), p, e.h[a].x) && ClearFirst(rd, st, p, a, e.h[a].x)
    requires a in phi && phi[a] == |ds.heap|
    ensures StartEnc(e, st, p, a).objs == st.objs[a := |st.objs| + 1]
    ensures OnTrack(e, rd, StartEnc(e, st, p, a), StartDec(e, rd, st, ds, p, a), phi)
  {
    hide Setting, InStep, KnownReadable, Grows, Phi, Typed, TypedTarget, Holds, KindOf, SaveHeader, ClearHeader, Readable, StartDec;
    var st0 := st.(objs := st.objs[a := |st.objs| + 1]);
    var st1, ds2 := StartEnc(e, st, p, a), StartDec(e, rd, st, ds, p, a);
    StartInStep(e, rd, st, ds, p, a);
    PhiGrows(e, st, ds, st1, ds2);
    PhiDomain(e, st, ds);
    PhiDomain(e, st1, ds2);
    MapInsert(st.objs, st0.objs, a, |st.objs| + 1);
    KnownSame(rd, st, st0);
    HeaderKnown(e, rd, st0, p, e.h[a].x);
  }

  lemma NewStays(e: Encoder, rd: Reader, st: EncState, ds: DecState, p: Pointee, a: Addr, tail: seq<byte>,
                 phi: Renaming, memory: seq<Cell>, ds3: DecState, ds': DecState, rest: seq<byte>)
    requires Setting(e) && InStep(e, st, ds) && a in e.h && a !in st.objs && Holds(e.env, p, KindOf(e.h[a]))
    requires TypedTarget(e.env, KindsOf(e.h), p, e.h[a].x)
    requires ClassOf(p, e.h[a].x) in e.env.types && ClearFirst(rd, st, p, a, e.h[a].x)
    requires StaysOnTrack(e, rd, StartEnc(e, st, p, a), e.env.types[ClassOf(p, e.h[a].x)], Inner(p, e.h[a].x), tail, phi, ds3, rest)
    requires GivesImage(e, rd, st, ds, Shared(p), Ref(a), tail, phi, memory, ds', rest)
    requires ds'.objs == ds3.objs
    ensures StaysOnTrack(e, rd, st, Shared(p), Ref(a), tail, phi, ds', rest)
  {
    hide Careful, Setting, InStep, KnownReadable, Encoder.Save, Decoder.Load, Clear, Typed, TypedTarget, Holds, KindOf, StartEnc, ClassOf,
      Inner, Rename, Final, ClearFirst, RoundTrips, Phi;
    SettingValid(e);
    ClearStart(e, rd, st, p, a);
    var ds4 := SharedThenLoad(e, rd, st, ds, p, a, tail);
    SameResult(e, rd, st, ds, Shared(p), Ref(a), tail, ds4);
    StartEncSaves(e, st, p, a);
    PhiByObjects(e.Save(st, Shared(p), Ref(a)).0, ds3, ds');
  }

  lemma SameResult(e: Encoder, rd: Reader, st: EncState, ds: DecState, t: Ty, v: Val, tail: seq<byte>, ds': DecState)
    requires RoundTrips(e, rd, st, ds, t, v, tail, ds')
    ensures DecoderFor(e, rd).Load(ds, t, e.Save(st, t, v).1 + tail).Ok?
    ensures DecoderFor(e, rd).Load(ds, t, e.Save(st, t, v).1 + tail).value.0 == ds'
    ensures InStep(e, e.Save(st, t, v).0, ds')
  {
    hide InStep, Encoder.Save, Decoder.Load;
  }

  lemma PhiByObjects(st: EncState, ds: DecState, ds': DecState)
    requires ds.objs == ds'.objs
    ensures Phi(st, ds) == Phi(st, ds')
  {
  }

  lemma {:induction false} SharedExact(e: Encoder, rd: Reader, st: EncState, ds: DecState, p: Pointee, a: Addr,
                                       tail: seq<byte>, phi: Renaming, memory: seq<Cell>, ds': DecState, rest: seq<byte>)
    requires Whole(e, phi, memory) && OnTrack(e, rd, st, ds, phi) && a in e.h && Holds(e.env, p, KindOf(e.h[a]))
    requires GivesImage(e, rd, st, ds, Shared(p), Ref(a), tail, phi, memory, ds', rest)
    ensures StaysOnTrack(e, rd, st, Shared(p), Ref(a), tail, phi, ds', rest)
    decreases e.h.Keys - st.objs.Keys, Ref(a), 0
  {
    hide Setting, OnTrack, InStep, KnownReadable, GivesImage, StaysOnTrack, Typed, TypedTarget, Env.Valid, AssocFree, HoldsImages,
      StartEnc, StartDec, ClearFirst, Holds, KindOf, ClassOf, Inner, AssocFreeHeap;
    if a in st.objs {
      SharedKnownExact(e, rd, st, ds, p, a, tail, phi, memory, ds', rest);
    } else {
      var x := e.h[a].x;
      TargetOfHeap(e, p, a);
      TargetAssocFree(e.env, e.h, p, a);
      OnTrackInStep(e, rd, st, ds, phi);
      var ds3 := NewApart(e, rd, st, ds, p, a, tail, phi, memory, ds', rest);
      StartOnTrack(e, rd, st, ds, p, a, phi);
      SettingValid(e);
      TargetParts(e, st, p, x);
      assert a in e.h.Keys - st.objs.Keys && a !in e.h.Keys - StartEnc(e, st, p, a).objs.Keys;
      ExactSave(e, rd, StartEnc(e, st, p, a), StartDec(e, rd, st, ds, p, a), e.env.types[ClassOf(p, x)], Inner(p, x), tail,
                phi, memory, ds3, rest);
      NewStays(e, rd, st, ds, p, a, tail, phi, memory, ds3, ds', rest);
    }
  }

  /** If loading what was saved gives the image of the value, and leaves no less than what followed,
      or else no written name can run on, then every number and name in it was readable, exactly
      its own bytes were read, and both sides are in step. */
  lemma {:induction false} ExactSave(e: Encoder, rd: Reader, st: EncState, ds: DecState, t: Ty, v: Val, tail: seq<byte>,
                                     phi: Renaming, memory: seq<Cell>, ds': DecState, rest: seq<byte>)
    requires Whole(e, phi, memory) && OnTrack(e, rd, st, ds, phi) && AssocFree(e.env, t, v) && TypedHere(e, t, v)
    requires GivesImage(e, rd, st, ds, t, v, tail, phi, memory, ds', rest)
    ensures StaysOnTrack(e, rd, st, t, v, tail, phi, ds', rest)
    decreases e.h.Keys - st.objs.Keys, v, 1
  {
    hide Whole, OnTrack, InStep, KnownReadable, GivesImage, GivesImages, GivesTuple, StaysOnTrack, ElemsStayOnTrack,
      TupleStaysOnTrack, TypedElems, TypedTuple, TypedTarget, RoundTrips, AssocFreeElems, AssocFreeTuple, AssocFreeTarget, Holds,
      KindOf, Encoder.Save, Readable, Clear;
    OnTrackInStep(e, rd, st, ds, phi);
    match t {
      case Scalar(_) =>
        ScalarRoundTrips(e, rd, st, ds, v.bytes, tail);
        LeafClear(e, rd, st, t, v);
        StaysIfRoundTrips(e, rd, st, ds, t, v, tail, phi, memory, ds', rest);
      case Array(_, t') =>
        ArrayApart(e, rd, st, ds, t', v.vs, tail, phi, memory, ds', rest);
        ElemsExact(e, rd, st, ds, Inline(t'), v.vs, tail, phi, memory, ds', rest);
        ArrayStays(e, rd, st, t', v.vs, tail, phi, ds', rest);
      case Sequence(el) =>
        SequenceApart(e, rd, st, ds, el, v.vs, tail, phi, memory, ds', rest);
        ElemsExact(e, rd, st, ds, el, v.vs, tail, phi, memory, ds', rest);
        SequenceStays(e, rd, st, el, v.vs, tail, phi, ds', rest);
      case Tuple(ts) =>
        ClassApart(e, rd, st, ds, ts, v.vs, tail, phi, memory, ds', rest);
        TupleExact(e, rd, st, ds, ts, v.vs, tail, phi, memory, ds', rest);
        ClassStays(e, rd, st, ts, v.vs, tail, phi, ds', rest);
      case Optional(t') =>
        if v.vs == [] {
          AbsentRoundTrips(e, rd, st, ds, t', Static([]), tail);
          LeafClear(e, rd, st, t, v);
          StaysIfRoundTrips(e, rd, st, ds, t, v, tail, phi, memory, ds', rest);
        } else {
          assert v.vs == [v.vs[0]];
          OptionalApart(e, rd, st, ds, t', v.vs[0], tail, phi, memory, ds', rest);
          ExactSave(e, rd, st, ds, t', v.vs[0], tail, phi, memory, ds', rest);
          OptionalStays(e, rd, st, t', v.vs[0], tail, phi, ds', rest);
        }
      case Unique(p) =>
        if v.vs == [] {
          AbsentRoundTrips(e, rd, st, ds, Scalar(0), p, tail);
          LeafClear(e, rd, st, t, v);
          StaysIfRoundTrips(e, rd, st, ds, t, v, tail, phi, memory, ds', rest);
        } else {
          assert v.vs == [v.vs[0]];
          OwnedExact(e, rd, st, ds, p, v.vs[0], tail, phi, memory, ds', rest);
        }
      case Shared(p) =>
        if v.Null? {
          NullRoundTrips(e, rd, st, ds, p, tail);
          LeafClear(e, rd, st, t, v);
          StaysIfRoundTrips(e, rd, st, ds, t, v, tail, phi, memory, ds', rest);
        } else {
          SharedExact(e, rd, st, ds, p, v.a, tail, phi, memory, ds', rest);
        }
    }
  }

  lemma LeafClear(e: Encoder, rd: Reader, st: EncState, t: Ty, v: Val)
    requires match t
      case Scalar(_) => v.Bits?
      case Optional(_) => v == Items([])
      case Unique(_) => v == Items([])
      case Shared(_) => v.Null?
      case _ => false
    ensures Clear(e, rd, st, t, v) && e.Save(st, t, v).0 == st
  {
  }

  // ----- Whole streams -----

  /** Decoding the stream gives an isomorphic copy of the part of memory that the roots reach and the
      images of the roots, and leaves `rest`. */
  ghost predicate Rebuilds(e: Encoder, rd: Reader, ts: seq<Ty>, vs: seq<Val>, memory: seq<Cell>, tail: seq<byte>,
                           phi: Renaming, ds: DecState, rest: seq<byte>) {
    && DecoderFor(e, rd).LoadTuple(NewDecoder(memory), ts, e.SaveTuple(NewEncoder, ts, vs).1 + tail)
         == Ok((ds, RenameAll(phi, vs), rest))
    && IsomorphicCopy(e.h, phi, memory, ds.heap)
  }

  /** The graph is rebuilt, and exactly what followed the stream is left. */
  ghost predicate Rebuilt(e: Encoder, rd: Reader, ts: seq<Ty>, vs: seq<Val>, memory: seq<Cell>, tail: seq<byte>) {
    exists phi, ds :: Rebuilds(e, rd, ts, vs, memory, tail, phi, ds, tail)
  }

  /** The graph is rebuilt, whatever is left. */
  ghost predicate RebuiltSomehow(e: Encoder, rd: Reader, ts: seq<Ty>, vs: seq<Val>, memory: seq<Cell>, tail: seq<byte>) {
    exists phi, ds, rest :: Rebuilds(e, rd, ts, vs, memory, tail, phi, ds, rest)
  }

  lemma CopyHoldsImages(e: Encoder, part: Heap, phi: Renaming, memory: seq<Cell>, memory': seq<Cell>)
    requires SubHeap(part, e.h) && IsomorphicCopy(e.h, phi, memory, memory')
    ensures HoldsImages(On(e, part), phi, memory')
  {
    hide Rename, Injective;
  }

  lemma NothingOnTrack(e: Encoder, rd: Reader, memory: seq<Cell>, phi: Renaming)
    ensures OnTrack(e, rd, NewEncoder, NewDecoder(memory), phi)
  {
    hide InStep, Readable;
    StartsInStep(e, memory);
    ZeroReadable(rd);
    RangeOne(rd, 0);
  }

  lemma RebuiltIsClear(e: Encoder, rd: Reader, part: Heap, ts: seq<Ty>, vs: seq<Val>, memory: seq<Cell>, tail: seq<byte>,
                       phi: Renaming, ds: DecState, rest: seq<byte>)
    requires SubHeap(part, e.h) && Setting(On(e, part)) && AssocFreeHeap(e.env, part)
    requires |ts| == |vs| && TypedTuple(e.env, KindsOf(part), ts, vs) && AssocFreeTuple(e.env, ts, vs)
    requires Rebuilds(e, rd, ts, vs, memory, tail, phi, ds, rest)
    requires Careful(On(e, part), rd, On(e, part).SaveTuple(NewEncoder, ts, vs).0.classes.Keys, tail, rest)
    ensures ClearTuple(On(e, part), rd, NewEncoder, ts, vs) && rest == tail
  {
    hide Careful, Setting, OnTrack, Encoder.SaveTuple, Decoder.LoadTuple, RenameAll, HoldsImages, SubHeap, KindsOf, TypedTuple, ClearTuple,
      AssocFreeHeap, AssocFreeTuple, IsomorphicCopy, SelfContained, RefsIn;
    var e' := On(e, part);
    PartIsSelfContained(e');
    TypedTupleRefs(e.env, KindsOf(part), ts, vs);
    KindsKeys(part);
    TupleLocal(e, part, NewEncoder, ts, vs);
    CopyHoldsImages(e, part, phi, memory, ds.heap);
    NothingOnTrack(e', rd, memory, phi);
    TupleExact(e', rd, NewEncoder, NewDecoder(memory), ts, vs, tail, phi, ds.heap, ds, rest);
  }

  /** Without associative containers, decoding rebuilds the graph and leaves exactly what followed if
      and only if the reader can read every number and name that was written. */
  lemma RebuiltExactly(e: Encoder, rd: Reader, part: Heap, ts: seq<Ty>, vs: seq<Val>, memory: seq<Cell>, tail: seq<byte>)
    requires SubHeap(part, e.h) && Setting(On(e, part)) && AssocFreeHeap(e.env, part)
    requires |ts| == |vs| && TypedTuple(e.env, KindsOf(part), ts, vs) && AssocFreeTuple(e.env, ts, vs)
    ensures Rebuilt(e, rd, ts, vs, memory, tail) <==> ClearTuple(On(e, part), rd, NewEncoder, ts, vs)
  {
    hide Setting, Encoder.SaveTuple, Decoder.LoadTuple, RenameAll, SubHeap, KindsOf, TypedTuple, ClearTuple, AssocFreeHeap, AssocFreeTuple,
      IsomorphicCopy, ClosedUnder, NoNameRunsOn;
    if ClearTuple(On(e, part), rd, NewEncoder, ts, vs) {
      var phi, ds := GraphRoundTrip(e, rd, part, ts, vs, memory, tail);
      assert Rebuilds(e, rd, ts, vs, memory, tail, phi, ds, tail);
    }
    hide Rebuilds;
    forall phi, ds | Rebuilds(e, rd, ts, vs, memory, tail, phi, ds, tail)
      ensures ClearTuple(On(e, part), rd, NewEncoder, ts, vs) {
      RebuiltIsClear(e, rd, part, ts, vs, memory, tail, phi, ds, tail);
    }
  }

  /** If moreover no visited class has an unreadable name length and a hash that begins with a zero
      byte, then nothing need be asked of what is left: a stream that is not clear is not rebuilt
      by accident, whatever bytes follow. */
  lemma NeverByAccident(e: Encoder, rd: Reader, part: Heap, ts: seq<Ty>, vs: seq<Val>, memory: seq<Cell>, tail: seq<byte>)
    requires SubHeap(part, e.h) && Setting(On(e, part)) && AssocFreeHeap(e.env, part)
    requires |ts| == |vs| && TypedTuple(e.env, KindsOf(part), ts, vs) && AssocFreeTuple(e.env, ts, vs)
    requires NoNameRunsOn(On(e, part), rd, On(e, part).SaveTuple(NewEncoder, ts, vs).0.classes.Keys)
    ensures RebuiltSomehow(e, rd, ts, vs, memory, tail) <==> ClearTuple(On(e, part), rd, NewEncoder, ts, vs)
  {
    hide Setting, Encoder.SaveTuple, SubHeap, KindsOf, TypedTuple, ClearTuple, AssocFreeHeap, AssocFreeTuple, Rebuilds, NoNameRunsOn;
    RebuiltExactly(e, rd, part, ts, vs, memory, tail);
    if Rebuilt(e, rd, ts, vs, memory, tail) {
      var phi, ds :| Rebuilds(e, rd, ts, vs, memory, tail, phi, ds, tail);
      assert RebuiltSomehow(e, rd, ts, vs, memory, tail);
    }
    forall phi, ds, rest | Rebuilds(e, rd, ts, vs, memory, tail, phi, ds, rest)
      ensures ClearTuple(On(e, part), rd, NewEncoder, ts, vs) {
      RebuiltIsClear(e, rd, part, ts, vs, memory, tail, phi, ds, rest);
    }
  }

  /** With the reader as it is: if and only if fewer than 128 objects and at most 128 dynamic
      classes are visited, those classes' names have no zero byte, and the lengths of the names and
      of all containers are numbers with palindromic digits. */
  lemma RebuiltAsWritten(e: Encoder, part: Heap, ts: seq<Ty>, vs: seq<Val>, memory: seq<Cell>, tail: seq<byte>)
    requires SubHeap(part, e.h) && Setting(On(e, part)) && AssocFreeHeap(e.env, part)
    requires |ts| == |vs| && TypedTuple(e.env, KindsOf(part), ts, vs) && AssocFreeTuple(e.env, ts, vs)
    ensures var st := On(e, part).SaveTuple(NewEncoder, ts, vs).0;
      Rebuilt(e, AsWritten, ts, vs, memory, tail) <==>
        && |st.objs| < 128 && |st.classes| <= 128 && (forall c :: c in st.classes ==> NameSurvives(AsWritten, c))
        && SizesReadableTuple(e.env, AsWritten, ts, vs)
        && (forall a :: a in st.objs && a in part ==> ObjectSizesReadable(On(e, part), AsWritten, a))
  {
    hide Encoder.SaveTuple, Rebuilt, SubHeap, KindsOf, TypedTuple, ClearTuple, AssocFreeHeap, AssocFreeTuple, HeapOk,
      OrderIgnoresAddresses, SizesReadableTuple, ObjectSizesReadable, NameSurvives;
    RebuiltExactly(e, AsWritten, part, ts, vs, memory, tail);
    ClearAsWritten(On(e, part), ts, vs);
  }

  // ----- A name that runs on -----

  const BASE: Name := [66]

  /** One object of a class without fields, behind a shared pointer to its base. */
  function LongNameEncoder(c: Name, hash: seq<byte>): Encoder {
    Encoder(Env(map[c := Tuple([])], map[c := hash], {(BASE, c)}, o => (a, b) => false),
            map[0 := Cell(DynamicType, Object(c, Items([])))], false)
  }

  lemma LongNameSaves(c: Name, hash: seq<byte>)
    ensures LongNameEncoder(c, hash).Save(NewEncoder, Shared(Dynamic(BASE)), Ref(0))
         == (EncState(map[0 := 1], map[c := 0]), [1] + ([0] + (TextBytes(c) + hash)))
  {
    hide TextBytes;
    var e, p, x := LongNameEncoder(c, hash), Dynamic(BASE), Object(c, Items([]));
    var st0, st1 := EncState(map[0 := 1], map[]), EncState(map[0 := 1], map[c := 0]);
    assert NewEncoder.(objs := NewEncoder.objs[0 := 1]) == st0;
    NewObjectSaves(e, NewEncoder, p, 0, st0, 1);
    assert VariantBytes(0) == [0] && VariantBytes(1) == [1];
    assert e.SaveClass(st0, c) == (st1, [0] + TextBytes(c) + hash);
    assert e.SaveTuple(st1, [], []) == (st1, []);
    assert e.Save(st1, Tuple([]), Items([])) == (st1, []);
    assert [0] + TextBytes(c) + hash + [] == [0] + (TextBytes(c) + hash);
  }

  lemma LongNameRead(d: Decoder, ds: DecState, c: Name, hash: seq<byte>, junk: seq<byte>, more: seq<byte>)
    requires d.rd.AsWritten? && !d.rev && c in d.env.types && c in d.env.hashes && d.env.hashes[c] == hash
    requires |c| == 130 && 0 !in c && |hash| == 4 && hash[0] == 0 && |junk| == 123
    ensures d.LoadNewClass(ds, TextBytes(c) + (hash + (junk + (hash + more)))) == Ok((ds.(classes := ds.classes + [c]), more))
  {
    hide ReadVariant, CString, Fold;
    var after := c + (hash + (junk + (hash + more)));
    assert TextBytes(c) + (hash + (junk + (hash + more))) == VariantBytes(130) + after;
    ReadBackIsDigitReversal(130, after);
    assert Digits(130) == [2, 1];
    assert Reversed([2, 1]) == [1, 2];
    assert Value([1, 2]) == 1 + 128 * Value([2]) == 257;
    var text := after[..257];
    assert after[257..] == hash + more && (hash + more)[..4] == hash && (hash + more)[4..] == more;
    assert text == c + [0] + (hash[1..] + junk);
    CodecHashes.CutAtZero(c, hash[1..] + junk);
  }

  /** The theorem with whatever is left needs its condition.  A class has a name of 130 bytes, which
      is not readable, and a hash that begins with a zero byte.  When 123 bytes and the hash once
      more follow its stream, the name is read as 257 bytes, cut to the right one at the hash, and
      the object is rebuilt exactly, after all those bytes. */
  lemma LongNameRebuilt(c: Name, hash: seq<byte>, junk: seq<byte>, more: seq<byte>)
    requires |c| == 130 && 0 !in c && |hash| == 4 && hash[0] == 0 && |junk| == 123
    ensures !Readable(AsWritten, |c|)
    ensures var e, ts, vs := LongNameEncoder(c, hash), [Shared(Dynamic(BASE))], [Ref(0)];
      var heap := [Cell(DynamicType, Object(c, Items([])))];
      && DecoderFor(e, AsWritten).LoadTuple(NewDecoder([]), ts, e.SaveTuple(NewEncoder, ts, vs).1 + (junk + (hash + more)))
           == Ok((DecState([ObjInfo(0, DynamicType), ObjInfo(0, DynamicType)], [c], heap), [Ref(0)], more))
      && IsomorphicCopy(e.h, map[0 := 0], [], heap)
      && !Rebuilt(e, AsWritten, ts, vs, [], junk + (hash + more))
      && RebuiltSomehow(e, AsWritten, ts, vs, [], junk + (hash + more))
  {
    hide Decoder.LoadTuple, Encoder.SaveTuple, Readable, Rename, IsomorphicCopy;
    var e, ts, vs, tail := LongNameEncoder(c, hash), [Shared(Dynamic(BASE))], [Ref(0)], junk + (hash + more);
    var ds4 := DecState([ObjInfo(0, DynamicType), ObjInfo(0, DynamicType)], [c], [Cell(DynamicType, Object(c, Items([])))]);
    Unreadable130();
    LongNameTuple(c, hash, junk, more);
    LongNameCopy(c, hash);
    var phi: Renaming := map[0 := 0];
    RefRenamed(phi, 0);
    assert Rebuilds(e, AsWritten, ts, vs, [], tail, phi, ds4, more);
    assert |more| < |tail|;
  }

  lemma Unreadable130()
    ensures !Readable(AsWritten, 130)
  {
    assert Digits(130)[0] == 2 && Digits(130)[1] == 1;
  }

  lemma RefRenamed(phi: Renaming, a: Addr)
    requires a in phi
    ensures RenameAll(phi, [Ref(a)]) == [Ref(phi[a])]
  {
    assert RenameAll(phi, []) == [] && [Ref(a)][1..] == [];
  }

  lemma LongNameTuple(c: Name, hash: seq<byte>, junk: seq<byte>, more: seq<byte>)
    requires |c| == 130 && 0 !in c && |hash| == 4 && hash[0] == 0 && |junk| == 123
    ensures var e, ts := LongNameEncoder(c, hash), [Shared(Dynamic(BASE))];
      DecoderFor(e, AsWritten).LoadTuple(NewDecoder([]), ts, e.SaveTuple(NewEncoder, ts, [Ref(0)]).1 + (junk + (hash + more)))
        == Ok((DecState([ObjInfo(0, DynamicType), ObjInfo(0, DynamicType)], [c], [Cell(DynamicType, Object(c, Items([])))]),
               [Ref(0)], more))
  {
    hide TextBytes, Decoder.Load, Encoder.Save;
    var e, ts, vs := LongNameEncoder(c, hash), [Shared(Dynamic(BASE))], [Ref(0)];
    var d := DecoderFor(e, AsWritten);
    var ds4 := DecState([ObjInfo(0, DynamicType), ObjInfo(0, DynamicType)], [c], [Cell(DynamicType, Object(c, Items([])))]);
    LongNameSaves(c, hash);
    LongNameLoads(c, hash, junk, more);
    var bs := [1] + ([0] + (TextBytes(c) + hash));
    assert ts[1..] == [] && vs[1..] == [];
    assert e.SaveTuple(EncState(map[0 := 1], map[c := 0]), [], []).1 == [];
    assert e.SaveTuple(NewEncoder, ts, vs).1 == bs + [] == bs;
    assert d.LoadTuple(ds4, [], more) == Ok((ds4, [], more));
    assert [Ref(0)] + [] == [Ref(0)];
  }

  lemma LongNameCopy(c: Name, hash: seq<byte>)
    ensures IsomorphicCopy(LongNameEncoder(c, hash).h, map[0 := 0], [], [Cell(DynamicType, Object(c, Items([])))])
  {
    var phi: Renaming := map[0 := 0];
    assert RenameAll(phi, []) == [];
    assert Rename(phi, Object(c, Items([]))) == Object(c, Items([]));
  }

  lemma LongNameClass(c: Name, hash: seq<byte>, junk: seq<byte>, more: seq<byte>)
    requires |c| == 130 && 0 !in c && |hash| == 4 && hash[0] == 0 && |junk| == 123
    ensures DecoderFor(LongNameEncoder(c, hash), AsWritten)
        .LoadClass(NewDecoder([]), Dynamic(BASE), [0] + (TextBytes(c) + (hash + (junk + (hash + more)))))
      == Ok((NewDecoder([]).(classes := [c]), c, more))
  {
    hide TextBytes, ReadVariant, Decoder.LoadNewClass;
    var d, ds := DecoderFor(LongNameEncoder(c, hash), AsWritten), NewDecoder([]);
    var bs := TextBytes(c) + (hash + (junk + (hash + more)));
    SmallestFailure([]);
    assert VariantBytes(0) == [0];
    ReadableRoundTrip(AsWritten, 0, bs);
    LongNameRead(d, ds, c, hash, junk, more);
    assert ds.classes + [c] == [c];
  }

  lemma LongNameContent(c: Name, hash: seq<byte>, more: seq<byte>)
    ensures var d := DecoderFor(LongNameEncoder(c, hash), AsWritten);
      var ds2 := d.Publish(NewDecoder([]).(classes := [c]), Dynamic(BASE), c);
      && d.Load(ds2, Tuple([]), more) == Ok((ds2, Items([]), more))
      && d.Fill(ds2, 0, Built(Dynamic(BASE), c, Items([])))
           == DecState([ObjInfo(0, DynamicType), ObjInfo(0, DynamicType)], [c], [Cell(DynamicType, Object(c, Items([])))])
  {
    var d := DecoderFor(LongNameEncoder(c, hash), AsWritten);
    var ds2 := d.Publish(NewDecoder([]).(classes := [c]), Dynamic(BASE), c);
    assert d.LoadTuple(ds2, [], more) == Ok((ds2, [], more));
  }

  lemma LongNameLoads(c: Name, hash: seq<byte>, junk: seq<byte>, more: seq<byte>)
    requires |c| == 130 && 0 !in c && |hash| == 4 && hash[0] == 0 && |junk| == 123
    ensures DecoderFor(LongNameEncoder(c, hash), AsWritten)
        .Load(NewDecoder([]), Shared(Dynamic(BASE)), [1] + ([0] + (TextBytes(c) + hash)) + (junk + (hash + more)))
      == Ok((DecState([ObjInfo(0, DynamicType), ObjInfo(0, DynamicType)], [c], [Cell(DynamicType, Object(c, Items([])))]),
             Ref(0), more))
  {
    hide TextBytes, ReadVariant, Decoder.LoadClass, Decoder.Load, Decoder.Publish, Decoder.Fill, Built;
    var p, ds1 := Dynamic(BASE), NewDecoder([]).(classes := [c]);
    var d := DecoderFor(LongNameEncoder(c, hash), AsWritten);
    var bs := [0] + (TextBytes(c) + (hash + (junk + (hash + more))));
    SmallestFailure([]);
    assert VariantBytes(1) == [1];
    ReadableRoundTrip(AsWritten, 1, bs);
    assert [1] + ([0] + (TextBytes(c) + hash)) + (junk + (hash + more)) == [1] + bs;
    LongNameClass(c, hash, junk, more);
    LongNameContent(c, hash, more);
    NewObjectUnfolds(d, NewDecoder([]), p, [1] + bs, bs, ds1, c, more, d.Publish(ds1, p, c), Items([]), more);
  }
}
