/** The format of src/arpc/binary_codecs.h in so many bytes, and the inputs its decoder refuses, with
    the errors it refuses them with. */
module CodecFormat {
  import opened Results
  import opened Streams
  import opened Variant
  import opened Codec
  import opened CodecHosts

  // ----- What stands on the stream -----

  const BYTE := Scalar(1)

  function Byte(b: byte): Val {
    Bits([b])
  }

  lemma ByteSaved(e: Encoder, st: EncState, b: byte)
    ensures e.Save(st, BYTE, Byte(b)) == (st, [b])
  {
    hide Wire;
    WireIs(e.rev, [b]);
    assert Mirrored([b]) == [b];
  }

  lemma BytesSaved(e: Encoder, st: EncState, a: byte, b: byte)
    ensures e.SaveElems(st, Inline(BYTE), [Byte(a), Byte(b)]) == (st, [a, b])
    ensures e.SaveTuple(st, [BYTE, BYTE], [Byte(a), Byte(b)]) == (st, [a, b])
  {
    hide Encoder.Save;
    ByteSaved(e, st, a);
    ByteSaved(e, st, b);
    assert [Byte(a), Byte(b)][1..] == [Byte(b)] && [Byte(b)][1..] == [] && [BYTE, BYTE][1..] == [BYTE] && [BYTE][1..] == [];
    assert ElemType(e.env, Inline(BYTE)) == BYTE && [b] + [] == [b] && [a] + [b] == [a, b];
    assert e.SaveElems(st, Inline(BYTE), []) == (st, []) && e.SaveTuple(st, [], []) == (st, []);
    assert e.SaveElems(st, Inline(BYTE), [Byte(b)]) == (st, [b]);
    assert e.SaveTuple(st, [BYTE], [Byte(b)]) == (st, [b]);
  }

  lemma ShortNumber(n: nat)
    requires n < 128
    ensures VariantBytes(n) == [n]
  {
  }

  /** Scalars as they lie in memory, or backwards; arrays and tuples without, other containers
      with their size in front; one byte to say whether an optional or a unique pointer is there. */
  lemma PlainFormat(e: Encoder, st: EncState, c: Name, a: byte, b: byte)
    requires c in e.env.types && e.env.types[c] == BYTE
    ensures e.Save(st, Scalar(2), Bits([a, b])).1 == if e.rev then [b, a] else [a, b]
    ensures e.Save(st, Array(2, BYTE), Items([Byte(a), Byte(b)])).1 == [a, b]
    ensures e.Save(st, Tuple([BYTE, BYTE]), Items([Byte(a), Byte(b)])).1 == [a, b]
    ensures e.Save(st, Sequence(Inline(BYTE)), Items([Byte(a), Byte(b)])).1 == [2, a, b]
    ensures forall o :: e.Save(st, Assoc(Inline(BYTE), o), Items([Byte(a), Byte(b)])).1 == [2, a, b]
    ensures e.Save(st, Optional(BYTE), Items([])).1 == [0] && e.Save(st, Optional(BYTE), Items([Byte(a)])).1 == [1, a]
    ensures e.Save(st, Unique(Static(c)), Items([])).1 == [0]
    ensures e.Save(st, Unique(Static(c)), Items([Byte(a)])).1 == [1, a]
  {
    hide Wire, VariantBytes, Encoder.SaveElems, Encoder.SaveTuple;
    WireIs(e.rev, [a, b]);
    assert Mirrored([a, b]) == [b, a];
    BytesSaved(e, st, a, b);
    ByteSaved(e, st, a);
    ShortNumber(2);
  }

  /** Shared pointers: null is 0; objects are numbered from 1 in the order in which they are met,
      and follow their number the first time only. */
  lemma SharedFormat(e: Encoder, p: Pointee, c: Name, a: Addr, b: Addr, x: byte, y: byte)
    requires p == Static(c) && c in e.env.types && e.env.types[c] == BYTE && a != b && a in e.h && b in e.h
    requires e.h[a].x == Byte(x) && e.h[b].x == Byte(y)
    ensures e.Save(NewEncoder, Shared(p), Null) == (NewEncoder, [0])
    ensures var st1, st2 := EncState(map[a := 1], map[]), EncState(map[a := 1, b := 2], map[]);
      && e.Save(NewEncoder, Shared(p), Ref(a)) == (st1, [1, x])
      && e.Save(st1, Shared(p), Ref(a)) == (st1, [1])
      && e.Save(st1, Shared(p), Ref(b)) == (st2, [2, y])
      && e.Save(st2, Shared(p), Ref(a)) == (st2, [1]) && e.Save(st2, Shared(p), Ref(b)) == (st2, [2])
  {
    hide VariantBytes, Wire;
    var st1, st2 := EncState(map[a := 1], map[]), EncState(map[a := 1, b := 2], map[]);
    ShortNumber(0);
    ShortNumber(1);
    ShortNumber(2);
    ByteSaved(e, st1, x);
    ByteSaved(e, st2, y);
    assert NewEncoder.objs[a := 1] == st1.objs && st1.objs[b := 2] == st2.objs && |st1.objs| == 1;
    assert e.SaveTarget(st1, p, Byte(x)) == (st1, [x]) && e.SaveTarget(st2, p, Byte(y)) == (st2, [y]);
    assert [1] + [x] == [1, x] && [2] + [y] == [2, y];
  }

  /** Dynamic classes: numbered from 0, and the first time followed by the size and the text of the
      name and the structure hash, which is a scalar of four bytes. */
  lemma ClassFormat(e: Encoder, c: byte, c': byte, hash: seq<byte>, hash': seq<byte>)
    requires c != c' && [c] in e.env.hashes && e.env.hashes[[c]] == hash
    requires [c'] in e.env.hashes && e.env.hashes[[c']] == hash'
    ensures var st1, st2 := EncState(map[], map[[c] := 0]), EncState(map[], map[[c] := 0, [c'] := 1]);
      && e.SaveClass(NewEncoder, [c]) == (st1, [0, 1, c] + (if e.rev then Mirrored(hash) else hash))
      && e.SaveClass(st1, [c]) == (st1, [0])
      && e.SaveClass(st1, [c']) == (st2, [1, 1, c'] + (if e.rev then Mirrored(hash') else hash'))
      && e.SaveClass(st2, [c]) == (st2, [0]) && e.SaveClass(st2, [c']) == (st2, [1])
  {
    hide VariantBytes, Wire;
    var st1, st2 := EncState(map[], map[[c] := 0]), EncState(map[], map[[c] := 0, [c'] := 1]);
    assert [c] != [c'] by { assert [c][0] != [c'][0]; }
    ShortNumber(0);
    ShortNumber(1);
    WireIs(e.rev, hash);
    WireIs(e.rev, hash');
    assert st1.classes[[c'] := 1] == st2.classes && |st1.classes| == 1;
    assert [0] + ([1] + [c]) + Wire(e.rev, hash) == [0, 1, c] + Wire(e.rev, hash);
    assert [1] + ([1] + [c']) + Wire(e.rev, hash') == [1, 1, c'] + Wire(e.rev, hash');
  }

  /** Behind the class stands the object. */
  lemma DynamicFormat(e: Encoder, st: EncState, base: Name, c: Name, x: Val)
    requires c in e.env.types && c in e.env.hashes
    ensures var (st1, header) := e.SaveClass(st, c);
      e.SaveTarget(st, Dynamic(base), Object(c, x)).1 == header + e.Save(st1, e.env.types[c], x).1
  {
    hide Encoder.SaveClass, Encoder.Save;
  }

  // ----- What is refused -----

  /** The flag of an optional: zero for none, and anything else for a value that follows. */
  lemma FlagExactly(d: Decoder, ds: DecState, t: Ty, flag: byte, rest: seq<byte>)
    ensures d.Load(ds, Optional(t), []) == Err(Eof)
    ensures d.Load(ds, Optional(t), [flag] + rest)
      == if flag == 0 then Ok((ds, Items([]), rest))
         else match d.Load(ds, t, rest) case Ok((ds1, v, more)) => Ok((ds1, Items([v]), more)) case Err(e) => Err(e)
  {
    assert ([flag] + rest)[..1] == [flag] && ([flag] + rest)[1..] == rest;
  }

  /** A shared pointer that begins with the number `id`: null, an object that was seen before if the
      pointer may refer to it, an object to be created if it is the next number, and otherwise,
      as for every incompatible object, a mismatch. */
  lemma ReferenceExactly(d: Decoder, ds: DecState, p: Pointee, bs: seq<byte>, id: nat, rest: seq<byte>)
    requires ReadVariant(d.rd, bs) == Ok((id, rest)) && id != |ds.objs|
    ensures id == 0 ==> d.Load(ds, Shared(p), bs) == Ok((ds, Null, rest))
    ensures id > |ds.objs| > 0 ==> d.Load(ds, Shared(p), bs) == Err(DataMismatch)
    ensures 0 < id < |ds.objs| ==>
      var info := ds.objs[id];
      var fits := match p
        case Static(c) => info.tid == StaticType(c)
        case Dynamic(base) =>
          info.tid == DynamicType && info.ptr < |ds.heap| && ds.heap[info.ptr].x.Object?
          && (base, ds.heap[info.ptr].x.cls) in d.env.subclasses;
      d.Load(ds, Shared(p), bs) == if fits then Ok((ds, Ref(info.ptr), rest)) else Err(DataMismatch)
  {
    hide ReadVariant;
  }

  /** A class reference that begins with the number `id`. */
  lemma ClassReferenceExactly(d: Decoder, ds: DecState, base: Name, bs: seq<byte>, id: nat, rest: seq<byte>)
    requires ReadVariant(d.rd, bs) == Ok((id, rest))
    ensures id > |ds.classes| ==> d.LoadClass(ds, Dynamic(base), bs) == Err(DataMismatch)
    ensures id < |ds.classes| ==>
      d.LoadClass(ds, Dynamic(base), bs)
        == if (base, ds.classes[id]) in d.env.subclasses then Ok((ds, ds.classes[id], rest)) else Err(DataMismatch)
    ensures id == |ds.classes| ==>
      match d.LoadNewClass(ds, rest)
      case Err(e) => d.LoadClass(ds, Dynamic(base), bs) == Err(e)
      case Ok((ds1, more)) =>
        d.LoadClass(ds, Dynamic(base), bs)
          == if (base, ds1.classes[id]) in d.env.subclasses then Ok((ds1, ds1.classes[id], more)) else Err(DataMismatch)
  {
    hide ReadVariant, Decoder.LoadNewClass;
  }

  /** A new class: unknown names are not found, and a known one with another hash is a mismatch. */
  lemma NewClassRefused(d: Decoder, ds: DecState, bs: seq<byte>, text: seq<byte>, hash: seq<byte>, rest: seq<byte>)
    requires |hash| == 4 && ReadText(d.rd, bs) == Ok((text, hash + rest)) && d.env.types.Keys == d.env.hashes.Keys
    ensures var c, r := CString(text), d.LoadNewClass(ds, bs);
      if c !in d.env.types then r == Err(NotFound)
      else if (if d.rev then Mirrored(hash) else hash) != d.env.hashes[c] then r == Err(DataMismatch)
      else r == Ok((ds.(classes := ds.classes + [c]), rest))
  {
    hide ReadText, CString, Wire;
    WireIs(d.rev, hash);
    assert (hash + rest)[..4] == hash && (hash + rest)[4..] == rest;
  }
}
