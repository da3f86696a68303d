/** The binary codec of src/arpc/binary_codecs.h as functions on bytes.

    `Ty` describes a serializable C++ type, `Val` a value of it in memory.  Objects that
    shared pointers point to live in a heap; encoding numbers them, and the classes of
    dynamic objects, on first visit and refers back to the numbers afterwards.  Decoding
    rebuilds both numberings and allocates the objects anew, publishing each pointer before
    it decodes what the object contains, so cycles close. */
module Codec {
  import opened Results
  import opened Streams
  import opened Variant
  import FlatTree

  type Name = seq<byte>
  type Addr = nat

  /** A comparator type of associative containers. */
  type Order = nat

  // ----- Types -----

  datatype Ty =
    | Scalar(size: nat)                 // arithmetic types and enums
    | Array(n: nat, e: Ty)              // std::array
    | Sequence(elem: Elem)              // std::string, std::vector, std::list, ...
    | Assoc(elem: Elem, order: Order)   // sets and maps with unique keys
    | Tuple(ts: seq<Ty>)                // tuples, pairs, aggregates, classes (bases, then fields)
    | Optional(t: Ty)
    | Unique(p: Pointee)                // std::unique_ptr
    | Shared(p: Pointee)                // std::shared_ptr, and std::weak_ptr through lock()

  /** Element types may name a class, so that classes can contain themselves. */
  datatype Elem = Inline(t: Ty) | Named(c: Name)

  datatype Pointee = Static(c: Name) | Dynamic(base: Name)

  /** The class registry and type tables, the same on both sides of the stream.  A class
      named in `types` is registered; `subclasses` holds (base, class) pairs; `orders`
      gives the comparators of associative containers. */
  datatype Env = Env(types: map<Name, Ty>,
                     hashes: map<Name, seq<byte>>,
                     subclasses: set<(Name, Name)>,
                     orders: Order -> (Val, Val) -> bool)
  {
    ghost predicate Valid() {
      && types.Keys == hashes.Keys
      && (forall c :: c in hashes ==> |hashes[c]| == 4)
      && (forall c :: c in types ==> Closed(types[c]))
      && (forall p: (Name, Name) :: p in subclasses ==> p.1 in types)
    }

    /** Every name a type mentions is known. */
    ghost predicate Closed(t: Ty) {
      match t
      case Scalar(_) => true
      case Array(_, e) => Closed(e)
      case Sequence(e) => ClosedElem(e)
      case Assoc(e, _) => ClosedElem(e)
      case Tuple(ts) => forall i :: 0 <= i < |ts| ==> Closed(ts[i])
      case Optional(e) => Closed(e)
      case Unique(p) => ClosedPointee(p)
      case Shared(p) => ClosedPointee(p)
    }

    ghost predicate ClosedElem(e: Elem) {
      match e case Inline(t) => Closed(t) case Named(c) => c in types
    }

    ghost predicate ClosedPointee(p: Pointee) {
      p.Static? ==> p.c in types
    }
  }

  // ----- Values -----

  datatype Val =
    | Hole                              // not yet decoded
    | Bits(bytes: seq<byte>)            // a scalar, as it lies in memory
    | Items(vs: seq<Val>)               // elements, fields, or the content of an optional
    | Null
    | Ref(a: Addr)
    | Object(cls: Name, v: Val)         // an object of a dynamic class

  /** Objects in memory: statically typed, or dynamic (the value then names the class). */
  datatype Cell = Cell(tid: TypeId, x: Val)

  /** registry::get_type_id: one identity per static type, a common one for dynamic types. */
  datatype TypeId = StaticType(c: Name) | DynamicType

  function TypeIdOf(p: Pointee): TypeId {
    match p case Static(c) => StaticType(c) case Dynamic(_) => DynamicType
  }

  function ElemType(env: Env, e: Elem): Ty
    requires e.Named? ==> e.c in env.types
  {
    match e case Inline(t) => t case Named(c) => env.types[c]
  }

  // ----- Bytes of scalars -----

  function Backwards(b: seq<byte>): (r: seq<byte>)
    ensures |r| == |b|
  {
    if b == [] then [] else Backwards(b[1..]) + [b[0]]
  }

  /** A scalar on the wire: its bytes, reversed when the byte orders differ. */
  function Wire(rev: bool, b: seq<byte>): (r: seq<byte>)
    ensures |r| == |b|
  {
    if rev then Backwards(b) else b
  }

  function TextBytes(s: seq<byte>): seq<byte> {
    VariantBytes(|s|) + s
  }

  function ReadText(rd: Reader, bs: seq<byte>): Result<(seq<byte>, seq<byte>)> {
    var (n, rest) :- ReadVariant(rd, bs);
    Take(rest, n)
  }

  /** std::string::c_str() seen as a name: the part before the first zero byte.  This is all that
      the registries are asked for when a class is decoded. */
  function CString(text: seq<byte>): (name: Name)
    ensures |name| <= |text| && name == text[..|name|] && 0 !in name
    ensures |name| < |text| ==> text[|name|] == 0
    ensures name == text <==> 0 !in text
  {
    if text == [] || text[0] == 0 then [] else
      var name := CString(text[1..]);
      assert ([text[0]] + name)[1..] == name && text[..1 + |name|] == [text[0]] + text[1..][..|name|];
      [text[0]] + name
  }

  // ----- Encoder -----

  /** shared_object_map_ (without its nullptr entry, which takes id 0) and class_info_map_. */
  datatype EncState = EncState(objs: map<Addr, nat>, classes: map<Name, nat>)

  const NewEncoder := EncState(map[], map[])

  type Heap = map<Addr, Cell>

  datatype Encoder = Encoder(env: Env, h: Heap, rev: bool) {

    function Save(st: EncState, t: Ty, v: Val): (r: (EncState, seq<byte>))
      ensures st.objs.Keys <= r.0.objs.Keys && st.classes.Keys <= r.0.classes.Keys
      decreases h.Keys - st.objs.Keys, v, 1
    {
      match (t, v)
      case (Scalar(_), Bits(b)) => (st, Wire(rev, b))
      case (Array(_, e), Items(vs)) => SaveElems(st, Inline(e), vs)
      case (Sequence(e), Items(vs)) =>
        var (st', bs) := SaveElems(st, e, vs);
        (st', VariantBytes(|vs|) + bs)
      case (Assoc(e, _), Items(vs)) =>
        var (st', bs) := SaveElems(st, e, vs);
        (st', VariantBytes(|vs|) + bs)
      case (Tuple(ts), Items(vs)) => SaveTuple(st, ts, vs)
      case (Optional(e), Items(vs)) =>
        if vs == [] then (st, [0])
        else
          var (st', bs) := Save(st, e, vs[0]);
          (st', [1] + bs)
      case (Unique(p), Items(vs)) =>
        if vs == [] then (st, [0])
        else
          var (st', bs) := SaveTarget(st, p, vs[0]);
          (st', [1] + bs)
      case (Shared(_), Null) => (st, VariantBytes(0))
      case (Shared(p), Ref(a)) =>
        if a in st.objs then (st, VariantBytes(st.objs[a]))
        else if a !in h then (st, [])
        else
          var id := |st.objs| + 1;
          var st1 := st.(objs := st.objs[a := id]);
          assert a in h.Keys - st.objs.Keys && a !in h.Keys - st1.objs.Keys;
          var (st', bs) := SaveTarget(st1, p, h[a].x);
          (st', VariantBytes(id) + bs)
      case _ => (st, [])
    }

    function SaveElems(st: EncState, e: Elem, vs: seq<Val>): (r: (EncState, seq<byte>))
      ensures st.objs.Keys <= r.0.objs.Keys && st.classes.Keys <= r.0.classes.Keys
      decreases h.Keys - st.objs.Keys, vs, 0
    {
      if vs == [] || (e.Named? && e.c !in env.types) then (st, [])
      else
        var (st1, b1) := Save(st, ElemType(env, e), vs[0]);
        var (st2, b2) := SaveElems(st1, e, vs[1..]);
        (st2, b1 + b2)
    }

    function SaveTuple(st: EncState, ts: seq<Ty>, vs: seq<Val>): (r: (EncState, seq<byte>))
      ensures st.objs.Keys <= r.0.objs.Keys && st.classes.Keys <= r.0.classes.Keys
      decreases h.Keys - st.objs.Keys, vs, 0
    {
      if vs == [] || ts == [] then (st, [])
      else
        var (st1, b1) := Save(st, ts[0], vs[0]);
        var (st2, b2) := SaveTuple(st1, ts[1..], vs[1..]);
        (st2, b1 + b2)
    }

    /** save_object_reference and save_dynamic_object_reference. */
    function SaveTarget(st: EncState, p: Pointee, x: Val): (r: (EncState, seq<byte>))
      ensures st.objs.Keys <= r.0.objs.Keys && st.classes.Keys <= r.0.classes.Keys
      decreases h.Keys - st.objs.Keys, x, 2
    {
      match (p, x)
      case (Static(c), _) => if c in env.types then Save(st, env.types[c], x) else (st, [])
      case (Dynamic(_), Object(c, v)) =>
        if c !in env.types || c !in env.hashes then (st, [])
        else
          var (st1, b1) := SaveClass(st, c);
          var (st2, b2) := Save(st1, env.types[c], v);
          (st2, b1 + b2)
      case _ => (st, [])
    }

    /** A class seen before is its number; a new one takes the next number and is followed by
        its name and structural hash. */
    function SaveClass(st: EncState, c: Name): (r: (EncState, seq<byte>))
      requires c in env.hashes
      ensures r.0.objs == st.objs && st.classes.Keys <= r.0.classes.Keys
    {
      if c in st.classes then (st, VariantBytes(st.classes[c]))
      else
        var id := |st.classes|;
        (st.(classes := st.classes[c := id]),
         VariantBytes(id) + TextBytes(c) + Wire(rev, env.hashes[c]))
    }
  }

  // ----- Decoder -----

  /** shared_object_vector_ entry. */
  datatype ObjInfo = ObjInfo(ptr: Addr, tid: TypeId)

  /** shared_object_vector_ (entry 0 stands for nullptr), class_info_vector_, and the memory
      into which objects are decoded: new objects take the next address. */
  datatype DecState = DecState(objs: seq<ObjInfo>, classes: seq<Name>, heap: seq<Cell>)

  function NewDecoder(heap: seq<Cell>): DecState {
    DecState([ObjInfo(0, DynamicType)], [], heap)
  }

  type Decoded<T> = Result<(DecState, T, seq<byte>)>

  /** What load_object_reference is about to create. */
  function NewCell(p: Pointee, c: Name): Cell {
    match p case Static(_) => Cell(StaticType(c), Hole) case Dynamic(_) => Cell(DynamicType, Object(c, Hole))
  }

  function Built(p: Pointee, c: Name, v: Val): Val {
    match p case Static(_) => v case Dynamic(_) => Object(c, v)
  }

  /** The insertions of the associative-container loop. */
  function InsertAll(less: (Val, Val) -> bool, acc: seq<Val>, vs: seq<Val>): seq<Val>
    decreases |vs|
  {
    if vs == [] then acc
    else InsertAll(less, FlatTree.InsertUnique(less, acc, vs[0]), vs[1..])
  }

  /** Whether a pointer to `p` may refer to the object that `info` describes. */
  predicate Compatible(env: Env, heap: seq<Cell>, info: ObjInfo, p: Pointee) {
    && info.tid == TypeIdOf(p)
    && (p.Dynamic? ==>
          info.ptr < |heap| && heap[info.ptr].x.Object? && (p.base, heap[info.ptr].x.cls) in env.subclasses)
  }

  datatype Decoder = Decoder(env: Env, rd: Reader, rev: bool) {

    function Load(ds: DecState, t: Ty, bs: seq<byte>): (r: Decoded<Val>)
      ensures r.Ok? ==> |r.value.2| <= |bs|
      decreases |bs|, 0, t, 0
    {
      match t
      case Scalar(n) =>
        var (b, rest) :- Take(bs, n);
        Ok((ds, Bits(Wire(rev, b)), rest))
      case Array(n, e) =>
        var (ds', vs, rest) :- LoadElems(ds, Inline(e), n, bs);
        Ok((ds', Items(vs), rest))
      case Sequence(e) =>
        ReadVariantShape(rd, bs);
        var (n, rest) :- ReadVariant(rd, bs);
        var (ds', vs, rest') :- LoadElems(ds, e, n, rest);
        Ok((ds', Items(vs), rest'))
      case Assoc(e, o) =>
        ReadVariantShape(rd, bs);
        var (n, rest) :- ReadVariant(rd, bs);
        var (ds', vs, rest') :- LoadElems(ds, e, n, rest);
        Ok((ds', Items(InsertAll(env.orders(o), [], vs)), rest'))
      case Tuple(ts) =>
        var (ds', vs, rest) :- LoadTuple(ds, ts, bs);
        Ok((ds', Items(vs), rest))
      case Optional(e) =>
        var (flag, rest) :- Take(bs, 1);
        if flag[0] == 0 then Ok((ds, Items([]), rest))
        else
          var (ds', v, rest') :- Load(ds, e, rest);
          Ok((ds', Items([v]), rest'))
      case Unique(p) =>
        var (flag, rest) :- Take(bs, 1);
        if flag[0] == 0 then Ok((ds, Items([]), rest))
        else
          var (ds1, c, rest1) :- LoadClass(ds, p, rest);
          if c !in env.types then Err(NotFound)
          else
            var (ds2, v, rest2) :- Load(ds1, env.types[c], rest1);
            Ok((ds2, Items([Built(p, c, v)]), rest2))
      case Shared(p) =>
        ReadVariantShape(rd, bs);
        var (id, rest) :- ReadVariant(rd, bs);
        if id == 0 then Ok((ds, Null, rest))
        else if id > |ds.objs| then Err(DataMismatch)
        else if id < |ds.objs| then
          if Compatible(env, ds.heap, ds.objs[id], p) then Ok((ds, Ref(ds.objs[id].ptr), rest))
          else Err(DataMismatch)
        else
          var (ds1, c, rest1) :- LoadClass(ds, p, rest);
          if c !in env.types then Err(NotFound)
          else
            var ptr := |ds1.heap|;
            var ds2 := Publish(ds1, p, c);
            var (ds3, v, rest3) :- Load(ds2, env.types[c], rest1);
            Ok((Fill(ds3, ptr, Built(p, c, v)), Ref(ptr), rest3))
    }

    function LoadElems(ds: DecState, e: Elem, n: nat, bs: seq<byte>): (r: Decoded<seq<Val>>)
      ensures r.Ok? ==> |r.value.2| <= |bs| && |r.value.1| == n
      decreases |bs|, if e.Named? then 1 else 0, if e.Named? then Scalar(0) else e.t, n + 1
    {
      if n == 0 then Ok((ds, [], bs))
      else if e.Named? && e.c !in env.types then Err(NotFound)
      else
        var (ds1, v, rest1) :- Load(ds, ElemType(env, e), bs);
        var (ds2, vs, rest2) :- LoadElems(ds1, e, n - 1, rest1);
        Ok((ds2, [v] + vs, rest2))
    }

    function LoadTuple(ds: DecState, ts: seq<Ty>, bs: seq<byte>): (r: Decoded<seq<Val>>)
      ensures r.Ok? ==> |r.value.2| <= |bs| && |r.value.1| == |ts|
      decreases |bs|, 0, ts, 0
    {
      if ts == [] then Ok((ds, [], bs))
      else
        var (ds1, v, rest1) :- Load(ds, ts[0], bs);
        var (ds2, vs, rest2) :- LoadTuple(ds1, ts[1..], rest1);
        Ok((ds2, [v] + vs, rest2))
    }

    /** The class of the object to create: the pointee itself, or, for a dynamic pointee, the
        class that the stream names, checked against the registry. */
    function LoadClass(ds: DecState, p: Pointee, bs: seq<byte>): (r: Decoded<Name>)
      ensures r.Ok? ==> |r.value.2| <= |bs|
      ensures r.Ok? ==> r.value.0.objs == ds.objs && r.value.0.heap == ds.heap
    {
      match p
      case Static(c) => Ok((ds, c, bs))
      case Dynamic(base) =>
        ReadVariantShape(rd, bs);
        var (id, rest) :- ReadVariant(rd, bs);
        if id > |ds.classes| then Err(DataMismatch)
        else
          var (ds1, rest1) :- if id == |ds.classes| then LoadNewClass(ds, rest) else Ok((ds, rest));
          if (base, ds1.classes[id]) in env.subclasses then Ok((ds1, ds1.classes[id], rest1))
          else Err(DataMismatch)
    }

    /** The name, of whatever length, is looked up only to its first zero byte. */
    function LoadNewClass(ds: DecState, bs: seq<byte>): (r: Result<(DecState, seq<byte>)>)
      ensures r.Ok? ==> |r.value.1| <= |bs|
      ensures r.Ok? ==> r.value.0.objs == ds.objs && r.value.0.heap == ds.heap
      ensures r.Ok? ==> |r.value.0.classes| == |ds.classes| + 1
    {
      ReadVariantShape(rd, bs);
      var (text, rest) :- ReadText(rd, bs);
      var (hash, rest') :- Take(rest, 4);
      var c := CString(text);
      if c !in env.types || c !in env.hashes then Err(NotFound)
      else if Wire(rev, hash) != env.hashes[c] then Err(DataMismatch)
      else Ok((ds.(classes := ds.classes + [c]), rest'))
    }

    function Publish(ds: DecState, p: Pointee, c: Name): DecState {
      ds.(objs := ds.objs + [ObjInfo(|ds.heap|, TypeIdOf(p))], heap := ds.heap + [NewCell(p, c)])
    }

    function Fill(ds: DecState, ptr: Addr, x: Val): DecState {
      if ptr < |ds.heap| then ds.(heap := ds.heap[ptr := ds.heap[ptr].(x := x)]) else ds
    }
  }
}
