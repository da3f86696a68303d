/** binary_encoder and binary_decoder as the source has them: objects that number what they
    meet, write to an output stream or fill memory from an input stream, and loop over elements
    and bytes.  Each method is proved to do what the function of the same purpose in Codec says,
    so everything proved about those functions holds of these classes. */
module CodecImpl {
  import opened Results
  import opened Streams
  import opened Variant
  import opened Codec
  import FlatTree

  // ----- Encoder -----

  class BinaryEncoder {
    const env: Env
    const memory: Heap
    const reverseBytes: bool
    const out: OutputStream
    var sharedObjectMap: map<Addr, nat>
    var classInfoMap: map<Name, nat>

    constructor (env: Env, memory: Heap, reverseBytes: bool, out: OutputStream)
      ensures Spec() == Encoder(env, memory, reverseBytes) && this.out == out && State() == NewEncoder
    {
      this.env, this.memory, this.reverseBytes, this.out := env, memory, reverseBytes, out;
      sharedObjectMap, classInfoMap := map[], map[];
    }

    function Spec(): Encoder {
      Encoder(env, memory, reverseBytes)
    }

    function State(): EncState
      reads this
    {
      EncState(sharedObjectMap, classInfoMap)
    }

    /** write_block: byte by byte from the end when bytes are reversed. */
    method WriteBlock(b: seq<byte>)
      modifies out
      ensures out.data == old(out.data) + Wire(reverseBytes, b)
      ensures |out.data| == |old(out.data)| + |b| && out.data[..|old(out.data)|] == old(out.data)
      ensures forall k :: 0 <= k < |b| ==>
        out.data[|old(out.data)| + k] == if reverseBytes then b[|b| - 1 - k] else b[k]
    {
      if reverseBytes && |b| != 1 {
        BackwardsDrop(b, |b|);
        for j := 1 to |b| + 1
          invariant out.data == old(out.data) + Backwards(b)[..j - 1]
        {
          BackwardsDrop(b, j - 1);
          assert Backwards(b)[..j] == Backwards(b)[..j - 1] + [b[|b| - j]];
          out.Putc(b[|b| - j]);
        }
        assert Backwards(b)[..|b|] == Backwards(b);
      } else {
        out.Write(b);
        if reverseBytes {
          assert b == [b[0]] && Backwards(b) == [] + [b[0]];
        }
      }
      forall k | 0 <= k < |b| ensures Backwards(b)[k] == b[|b| - 1 - k] {
        BackwardsDrop(b, k);
      }
    }

    /** One call of operator(). */
    method Write(t: Ty, v: Val)
      modifies this, out
      ensures (State(), out.data) == Appended(old(out.data), Spec().Save(old(State()), t, v))
      decreases memory.Keys - sharedObjectMap.Keys, v, 1
    {
      hide VariantBytes, Encoder.SaveElems, Encoder.SaveTuple, Encoder.SaveTarget, Wire, Appended;
      ghost var st, data := State(), out.data;
      AppendNothing(data, st);
      match t {
        case Scalar(_) =>
          if v.Bits? {
            AppendTwice(data, Wire(reverseBytes, v.bytes), (st, []));
            AppendNothing(data + Wire(reverseBytes, v.bytes), st);
            assert Wire(reverseBytes, v.bytes) + [] == Wire(reverseBytes, v.bytes);
            WriteBlock(v.bytes);
          }
        case Array(_, e) =>
          if v.Items? {
            WriteElems(Inline(e), v.vs);
          }
        case Sequence(e) =>
          if v.Items? {
            AppendTwice(data, VariantBytes(|v.vs|), Spec().SaveElems(st, e, v.vs));
            WriteVariant(out, |v.vs|);
            WriteElems(e, v.vs);
          }
        case Assoc(e, _) =>
          if v.Items? {
            AppendTwice(data, VariantBytes(|v.vs|), Spec().SaveElems(st, e, v.vs));
            WriteVariant(out, |v.vs|);
            WriteElems(e, v.vs);
          }
        case Tuple(ts) =>
          if v.Items? {
            WriteTuple(ts, v.vs);
          }
        case Optional(e) =>
          if v.Items? {
            WriteOptional(e, v.vs);
          }
        case Unique(p) =>
          if v.Items? {
            WriteUnique(p, v.vs);
          }
        case Shared(p) =>
          if v.Null? {
            AppendTwice(data, VariantBytes(0), (st, []));
            AppendNothing(data + VariantBytes(0), st);
            assert VariantBytes(0) + [] == VariantBytes(0);
            WriteVariant(out, 0);
          } else if v.Ref? && (v.a in sharedObjectMap || v.a in memory) {
            WriteShared(p, v.a);
          }
      }
    }

    method WriteUnique(p: Pointee, vs: seq<Val>)
      modifies this, out
      ensures (State(), out.data) == Appended(old(out.data), Spec().Save(old(State()), Unique(p), Items(vs)))
      decreases memory.Keys - sharedObjectMap.Keys, vs, 3
    {
      hide Encoder.SaveTarget;
      var present := vs != [];
      out.Putc(if present then 1 else 0);
      if present {
        AppendTwice(old(out.data), [1], Spec().SaveTarget(State(), p, vs[0]));
        SaveObjectReference(p, vs[0]);
      }
    }

    method WriteOptional(e: Ty, vs: seq<Val>)
      modifies this, out
      ensures (State(), out.data) == Appended(old(out.data), Spec().Save(old(State()), Optional(e), Items(vs)))
      decreases memory.Keys - sharedObjectMap.Keys, vs, 2
    {
      var present := vs != [];
      out.Putc(if present then 1 else 0);
      if present {
        AppendTwice(old(out.data), [1], Spec().Save(State(), e, vs[0]));
        Write(e, vs[0]);
      }
    }

    /** Shared pointers: an id, and the object itself on its first visit. */
    method WriteShared(p: Pointee, a: Addr)
      requires a in sharedObjectMap || a in memory
      modifies this, out
      ensures (State(), out.data) == Appended(old(out.data), Spec().Save(old(State()), Shared(p), Ref(a)))
      decreases memory.Keys - sharedObjectMap.Keys, Ref(a), 0
    {
      hide VariantBytes, Encoder.SaveTarget;
      var firstTime := a !in sharedObjectMap;
      ghost var st := State();
      if firstTime {
        var nextObjectId := |sharedObjectMap| + 1;
        sharedObjectMap := sharedObjectMap[a := nextObjectId];
        assert a in memory.Keys - st.objs.Keys && a !in memory.Keys - sharedObjectMap.Keys;
      }
      WriteVariant(out, sharedObjectMap[a]);
      if firstTime {
        AppendTwice(old(out.data), VariantBytes(sharedObjectMap[a]), Spec().SaveTarget(State(), p, memory[a].x));
        SaveObjectReference(p, memory[a].x);
      }
    }

    method WriteElems(e: Elem, vs: seq<Val>)
      modifies this, out
      ensures (State(), out.data) == Appended(old(out.data), Spec().SaveElems(old(State()), e, vs))
      decreases memory.Keys - sharedObjectMap.Keys, vs, 0
    {
      hide Encoder.Save;
      AppendNothing(out.data, State());
      if e.Named? && e.c !in env.types {
        return;
      }
      ghost var st0, data0 := State(), out.data;
      for i := 0 to |vs|
        invariant st0.objs.Keys <= sharedObjectMap.Keys
        invariant Appended(data0, Spec().SaveElems(st0, e, vs))
               == Appended(out.data, Spec().SaveElems(State(), e, vs[i..]))
      {
        ghost var st, before := State(), out.data;
        assert vs[i..][0] == vs[i] && vs[i..][1..] == vs[i + 1..];
        Write(ElemType(env, e), vs[i]);
        AppendTwice(before, Spec().Save(st, ElemType(env, e), vs[i]).1, Spec().SaveElems(State(), e, vs[i + 1..]));
      }
      AppendNothing(out.data, State());
    }

    method WriteTuple(ts: seq<Ty>, vs: seq<Val>)
      modifies this, out
      ensures (State(), out.data) == Appended(old(out.data), Spec().SaveTuple(old(State()), ts, vs))
      decreases memory.Keys - sharedObjectMap.Keys, vs, 0
    {
      hide Encoder.Save;
      ghost var st0, data0 := State(), out.data;
      var i: nat := 0;
      while i < |vs| && i < |ts|
        invariant i <= |vs| && i <= |ts| && st0.objs.Keys <= sharedObjectMap.Keys
        invariant Appended(data0, Spec().SaveTuple(st0, ts, vs))
               == Appended(out.data, Spec().SaveTuple(State(), ts[i..], vs[i..]))
        decreases |vs| - i
      {
        assert vs[i..][0] == vs[i] && vs[i..][1..] == vs[i + 1..];
        assert ts[i..][0] == ts[i] && ts[i..][1..] == ts[i + 1..];
        ghost var st, before := State(), out.data;
        Write(ts[i], vs[i]);
        AppendTwice(before, Spec().Save(st, ts[i], vs[i]).1, Spec().SaveTuple(State(), ts[i + 1..], vs[i + 1..]));
        i := i + 1;
      }
      AppendNothing(out.data, State());
    }

    /** save_object_reference, with save_dynamic_object_reference for dynamic pointees. */
    method SaveObjectReference(p: Pointee, x: Val)
      modifies this, out
      ensures (State(), out.data) == Appended(old(out.data), Spec().SaveTarget(old(State()), p, x))
      decreases memory.Keys - sharedObjectMap.Keys, x, 2
    {
      hide Encoder.Save, Encoder.SaveClass;
      AppendNothing(out.data, State());
      match p
      case Static(c) =>
        if c in env.types {
          Write(env.types[c], x);
        }
      case Dynamic(_) =>
        if x.Object? && x.cls in env.types && x.cls in env.hashes {
          ghost var r := Spec().SaveClass(State(), x.cls);
          AppendTwice(out.data, r.1, Spec().Save(r.0, env.types[x.cls], x.v));
          SaveClassReference(x.cls);
          Write(env.types[x.cls], x.v);
        }
    }

    method SaveClassReference(c: Name)
      requires c in env.hashes
      modifies this`classInfoMap, out
      ensures (State(), out.data) == Appended(old(out.data), Spec().SaveClass(old(State()), c))
    {
      hide VariantBytes, Wire;
      if c !in classInfoMap {
        var nextClassId := |classInfoMap|;
        classInfoMap := classInfoMap[c := nextClassId];
        WriteVariant(out, nextClassId);
        WriteVariant(out, |c|);
        out.Write(c);
        WriteBlock(env.hashes[c]);
        var id, hash := VariantBytes(nextClassId), Wire(reverseBytes, env.hashes[c]);
        assert old(out.data) + id + VariantBytes(|c|) + c + hash == old(out.data) + (id + TextBytes(c) + hash);
      } else {
        WriteVariant(out, classInfoMap[c]);
      }
    }
  }

  ghost function Appended(data: seq<byte>, r: (EncState, seq<byte>)): (EncState, seq<byte>) {
    (r.0, data + r.1)
  }

  lemma AppendNothing(data: seq<byte>, st: EncState)
    ensures Appended(data, (st, [])) == (st, data)
  {
    assert data + [] == data;
  }

  lemma AppendTwice(data: seq<byte>, b: seq<byte>, r: (EncState, seq<byte>))
    ensures Appended(data + b, r) == Appended(data, (r.0, b + r.1))
  {
    assert data + b + r.1 == data + (b + r.1);
  }

  lemma {:induction false} BackwardsDrop(b: seq<byte>, k: nat)
    ensures k < |b| ==> Backwards(b)[k] == b[|b| - 1 - k]
  {
    if k < |b| - 1 {
      BackwardsDrop(b[1..], k);
    }
  }

  // ----- Decoder -----

  class BinaryDecoder {
    const env: Env
    const reader: Reader
    const reverseBytes: bool
    const input: InputStream
    var sharedObjectVector: seq<ObjInfo>
    var classInfoVector: seq<Name>
    var memory: seq<Cell>

    constructor (env: Env, reader: Reader, reverseBytes: bool, input: InputStream, memory: seq<Cell>)
      ensures Spec() == Decoder(env, reader, reverseBytes) && this.input == input && State() == NewDecoder(memory)
    {
      this.env, this.reader, this.reverseBytes, this.input := env, reader, reverseBytes, input;
      sharedObjectVector, classInfoVector, this.memory := [ObjInfo(0, DynamicType)], [], memory;
    }

    function Spec(): Decoder {
      Decoder(env, reader, reverseBytes)
    }

    function State(): DecState
      reads this
    {
      DecState(sharedObjectVector, classInfoVector, memory)
    }

    /** The outcome of a call, from the state after it: on an exception only the error counts. */
    ghost function Outcome<T>(r: Result<T>): Decoded<T>
      reads this, input
      requires input.Valid()
    {
      match r case Ok(x) => Ok((State(), x, input.Rest())) case Err(e) => Err(e)
    }

    /** read_block: the bytes are read into place and reversed there. */
    method ReadBlock(n: nat) returns (r: Result<seq<byte>>)
      requires input.Valid()
      modifies input
      ensures input.Valid()
      ensures match Take(old(input.Rest()), n)
        case Ok((b, rest)) => r == Ok(Wire(reverseBytes, b)) && input.Rest() == rest
        case Err(e) => r == Err(e)
      ensures r.Ok? <==> n <= |old(input.Rest())|
      ensures r.Err? ==> r.error == Eof
      ensures r.Ok? ==> |r.value| == n && input.Rest() == old(input.Rest())[n..]
      ensures r.Ok? ==> forall k :: 0 <= k < n ==>
        r.value[k] == if reverseBytes then old(input.Rest())[n - 1 - k] else old(input.Rest())[k]
    {
      var b :- input.ReadFully(n);
      ghost var stored := b;
      if reverseBytes && |b| != 1 {
        var a := new byte[|b|](i requires 0 <= i < |b| => b[i]);
        assert a[..] == b;
        ReverseBytes(a);
        b := a[..];
      } else if reverseBytes {
        BackwardsDrop(b, 0);
        assert Backwards(b) == b;
      }
      assert b == Wire(reverseBytes, stored);
      forall k | 0 <= k < n ensures Backwards(stored)[k] == stored[n - 1 - k] {
        BackwardsDrop(stored, k);
      }
      return Ok(b);
    }

    /** One call of operator(). */
    method Read(t: Ty) returns (r: Result<Val>)
      requires input.Valid()
      modifies this, input
      ensures input.Valid() && Outcome(r) == Spec().Load(old(State()), t, old(input.Rest()))
      decreases |input.Rest()|, 1, t, 0
    {
      hide ReadVariant, Decoder.LoadElems, Decoder.LoadTuple, Decoder.LoadClass, Wire, Compatible, InsertAll,
        Decoder.Publish, Decoder.Fill, Built;
      match t
      case Scalar(n) =>
        var b :- ReadBlock(n);
        r := Ok(Bits(b));
      case Array(n, e) =>
        var vs :- ReadElems(Inline(e), n);
        r := Ok(Items(vs));
      case Sequence(e) =>
        ReadVariantShape(reader, input.Rest());
        var l :- ReadVariantLoop(reader, input);
        var vs :- ReadElems(e, l);
        r := Ok(Items(vs));
      case Assoc(e, o) =>
        ReadVariantShape(reader, input.Rest());
        var l :- ReadVariantLoop(reader, input);
        var vs :- ReadInserting(e, o, l);
        r := Ok(Items(vs));
      case Tuple(ts) =>
        var vs :- ReadTuple(ts);
        r := Ok(Items(vs));
      case Optional(e) =>
        var present :- ReadFlag();
        if present {
          var v :- Read(e);
          r := Ok(Items([v]));
        } else {
          r := Ok(Items([]));
        }
      case Unique(p) =>
        r := ReadUnique(p);
      case Shared(p) =>
        r := ReadShared(p);
    }

    method ReadFlag() returns (r: Result<bool>)
      requires input.Valid()
      modifies input
      ensures input.Valid()
      ensures match Take(old(input.Rest()), 1)
        case Ok((b, rest)) => r == Ok(b[0] != 0) && input.Rest() == rest
        case Err(e) => r == Err(e)
    {
      var b :- ReadBlock(1);
      return Ok(b[0] != 0);
    }

    method ReadElems(e: Elem, n: nat) returns (r: Result<seq<Val>>)
      requires input.Valid()
      modifies this, input
      ensures input.Valid() && Outcome(r) == Spec().LoadElems(old(State()), e, n, old(input.Rest()))
      decreases |input.Rest()|, if e.Named? then 2 else 1, if e.Named? then Scalar(0) else e.t, n + 1
    {
      hide Decoder.Load;
      if n > 0 && e.Named? && e.c !in env.types {
        return Err(NotFound);
      }
      var vs: seq<Val> := [];
      ghost var st0, rest0 := State(), input.Rest();
      PrependNothing(Spec().LoadElems(st0, e, n, rest0));
      for i := 0 to n
        invariant input.Valid() && |input.Rest()| <= |rest0|
        invariant Spec().LoadElems(st0, e, n, rest0) == Prepend(vs, Spec().LoadElems(State(), e, n - i, input.Rest()))
      {
        ghost var st, rest := State(), input.Rest();
        var v :- Read(ElemType(env, e));
        PrependOne(vs, v, Spec().LoadElems(State(), e, n - i - 1, input.Rest()));
        vs := vs + [v];
      }
      assert vs + [] == vs;
      r := Ok(vs);
    }

    /** The loop for associative containers: each element is inserted as it arrives. */
    method ReadInserting(e: Elem, o: Order, n: nat) returns (r: Result<seq<Val>>)
      requires input.Valid()
      modifies this, input
      ensures input.Valid()
      ensures match Spec().LoadElems(old(State()), e, n, old(input.Rest()))
        case Ok((ds, vs, rest)) => r == Ok(InsertAll(env.orders(o), [], vs)) && State() == ds && input.Rest() == rest
        case Err(error) => r == Err(error)
      decreases |input.Rest()|, if e.Named? then 2 else 1, if e.Named? then Scalar(0) else e.t, n + 1
    {
      hide Decoder.Load, InsertAll, FlatTree.InsertUnique;
      if n > 0 && e.Named? && e.c !in env.types {
        return Err(NotFound);
      }
      var sequence: seq<Val> := [];
      ghost var read: seq<Val> := [];
      ghost var st0, rest0 := State(), input.Rest();
      PrependNothing(Spec().LoadElems(st0, e, n, rest0));
      InsertAllSnoc(env.orders(o), [], read, Null);
      for i := 0 to n
        invariant input.Valid() && |input.Rest()| <= |rest0|
        invariant Spec().LoadElems(st0, e, n, rest0) == Prepend(read, Spec().LoadElems(State(), e, n - i, input.Rest()))
        invariant sequence == InsertAll(env.orders(o), [], read)
      {
        ghost var st, rest := State(), input.Rest();
        var v :- Read(ElemType(env, e));
        PrependOne(read, v, Spec().LoadElems(State(), e, n - i - 1, input.Rest()));
        InsertAllSnoc(env.orders(o), [], read, v);
        sequence := FlatTree.InsertUnique(env.orders(o), sequence, v);
        read := read + [v];
      }
      assert read + [] == read;
      r := Ok(sequence);
    }

    method ReadTuple(ts: seq<Ty>) returns (r: Result<seq<Val>>)
      requires input.Valid()
      modifies this, input
      ensures input.Valid() && Outcome(r) == Spec().LoadTuple(old(State()), ts, old(input.Rest()))
      decreases |input.Rest()|, 1, ts, 0
    {
      hide Decoder.Load;
      var vs: seq<Val> := [];
      ghost var st0, rest0 := State(), input.Rest();
      PrependNothing(Spec().LoadTuple(st0, ts, rest0));
      for i := 0 to |ts|
        invariant input.Valid() && |input.Rest()| <= |rest0|
        invariant Spec().LoadTuple(st0, ts, rest0) == Prepend(vs, Spec().LoadTuple(State(), ts[i..], input.Rest()))
      {
        ghost var st, rest := State(), input.Rest();
        assert ts[i..][0] == ts[i] && ts[i..][1..] == ts[i + 1..];
        var v :- Read(ts[i]);
        PrependOne(vs, v, Spec().LoadTuple(State(), ts[i + 1..], input.Rest()));
        vs := vs + [v];
      }
      assert vs + [] == vs;
      r := Ok(vs);
    }

    method ReadUnique(p: Pointee) returns (r: Result<Val>)
      requires input.Valid()
      modifies this, input
      ensures input.Valid() && Outcome(r) == Spec().Load(old(State()), Unique(p), old(input.Rest()))
      decreases |input.Rest()|, 0, Scalar(0), 0
    {
      hide Decoder.LoadClass, Built;
      var present :- ReadFlag();
      if !present {
        return Ok(Items([]));
      }
      var c :- LoadClassReference(p);
      if c !in env.types {
        return Err(NotFound);
      }
      var v :- Read(env.types[c]);
      return Ok(Items([Built(p, c, v)]));
    }

    /** Shared pointers: a known id is checked and shared; the next id creates an object, which
        is published before its content is decoded in place. */
    method ReadShared(p: Pointee) returns (r: Result<Val>)
      requires input.Valid()
      modifies this, input
      ensures input.Valid() && Outcome(r) == Spec().Load(old(State()), Shared(p), old(input.Rest()))
      decreases |input.Rest()|, 0, Scalar(0), 0
    {
      hide ReadVariant, Decoder.LoadClass, Compatible, Built;
      ReadVariantShape(reader, input.Rest());
      var objectId :- ReadVariantLoop(reader, input);
      if objectId == 0 {
        return Ok(Null);
      }
      if objectId > |sharedObjectVector| {
        return Err(DataMismatch);
      }
      if objectId < |sharedObjectVector| {
        var info := sharedObjectVector[objectId];
        if Compatible(env, memory, info, p) {
          return Ok(Ref(info.ptr));
        }
        return Err(DataMismatch);
      }
      var c :- LoadClassReference(p);
      if c !in env.types {
        return Err(NotFound);
      }
      var ptr := |memory|;
      memory := memory + [NewCell(p, c)];
      sharedObjectVector := sharedObjectVector + [ObjInfo(ptr, TypeIdOf(p))];
      ghost var published, rest := State(), input.Rest();
      var v :- Read(env.types[c]);
      if ptr < |memory| {
        memory := memory[ptr := memory[ptr].(x := Built(p, c, v))];
      }
      return Ok(Ref(ptr));
    }

    /** The class of the object to create; for a dynamic pointee, read and checked. */
    method LoadClassReference(p: Pointee) returns (r: Result<Name>)
      requires input.Valid()
      modifies this`classInfoVector, input
      ensures input.Valid() && Outcome(r) == Spec().LoadClass(old(State()), p, old(input.Rest()))
    {
      hide ReadVariant, Wire;
      if p.Static? {
        return Ok(p.c);
      }
      ReadVariantShape(reader, input.Rest());
      var classId :- ReadVariantLoop(reader, input);
      if classId > |classInfoVector| {
        return Err(DataMismatch);
      }
      if classId == |classInfoVector| {
        var _ :- LoadClassInfo();
      }
      if (p.base, classInfoVector[classId]) !in env.subclasses {
        return Err(DataMismatch);
      }
      return Ok(classInfoVector[classId]);
    }

    /** The table holds the class that was found.  The text that was read is looked up again only
        to its first zero byte, which is the name of that class. */
    method LoadClassInfo() returns (r: Result<()>)
      requires input.Valid()
      modifies this`classInfoVector, input
      ensures input.Valid()
      ensures match Spec().LoadNewClass(old(State()), old(input.Rest()))
        case Ok((ds, rest)) => r.Ok? && State() == ds && input.Rest() == rest
        case Err(e) => r == Err(e)
    {
      hide ReadVariant, Wire, CString;
      ReadVariantShape(reader, input.Rest());
      var l :- ReadVariantLoop(reader, input);
      var text :- input.ReadFully(l);
      var typeHash :- ReadBlock(4);
      var className := CString(text);
      if className !in env.types || className !in env.hashes {
        return Err(NotFound);
      }
      if typeHash != env.hashes[className] {
        return Err(DataMismatch);
      }
      classInfoVector := classInfoVector + [className];
      return Ok(());
    }
  }

  ghost function Prepend(done: seq<Val>, r: Decoded<seq<Val>>): Decoded<seq<Val>> {
    match r case Ok((ds, vs, rest)) => Ok((ds, done + vs, rest)) case Err(e) => Err(e)
  }

  lemma PrependNothing(r: Decoded<seq<Val>>)
    ensures Prepend([], r) == r
  {
    if r.Ok? {
      assert [] + r.value.1 == r.value.1;
    }
  }

  lemma PrependOne(done: seq<Val>, v: Val, r: Decoded<seq<Val>>)
    ensures Prepend(done, Prepend([v], r)) == Prepend(done + [v], r)
  {
    if r.Ok? {
      assert done + ([v] + r.value.1) == done + [v] + r.value.1;
    }
  }

  lemma {:induction false} InsertAllSnoc(less: (Val, Val) -> bool, acc: seq<Val>, vs: seq<Val>, v: Val)
    ensures InsertAll(less, acc, vs + [v]) == FlatTree.InsertUnique(less, InsertAll(less, acc, vs), v)
    ensures InsertAll(less, acc, []) == acc
    decreases |vs|
  {
    hide FlatTree.InsertUnique;
    if vs == [] {
      assert vs + [v] == [v] && [v][1..] == [];
    } else {
      assert (vs + [v])[1..] == vs[1..] + [v];
      InsertAllSnoc(less, FlatTree.InsertUnique(less, acc, vs[0]), vs[1..], v);
    }
  }

  /** std::reverse on the bytes of a scalar. */
  method ReverseBytes(a: array<byte>)
    modifies a
    ensures a[..] == Backwards(old(a[..]))
    ensures forall k :: 0 <= k < a.Length ==> a[k] == old(a[a.Length - 1 - k])
  {
    ghost var b := a[..];
    var lo, hi := 0, a.Length;
    while lo + 1 < hi
      invariant 0 <= lo <= hi <= a.Length && lo + hi == a.Length
      invariant forall k :: 0 <= k < lo ==> a[k] == b[a.Length - 1 - k]
      invariant forall k :: lo <= k < hi ==> a[k] == b[k]
      invariant forall k :: hi <= k < a.Length ==> a[k] == b[a.Length - 1 - k]
    {
      hi := hi - 1;
      a[lo], a[hi] := a[hi], a[lo];
      lo := lo + 1;
    }
    forall k | 0 <= k < a.Length ensures a[..][k] == Backwards(b)[k] {
      BackwardsDrop(b, k);
    }
  }
}
