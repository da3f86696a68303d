/** The structural type hash (src/arpc/type_hash.h), over graphs of types that may contain
    themselves.  Types met on the way down are kept in a list; meeting one again hashes its
    position in that list.  Containers and aggregates start their element with an empty list. */
module TypeHash {
  import opened Octets
  import opened Results

  /** A type; its description is what the graph says.  Packs of base classes or fields and field
      descriptors are types too. */
  type Node = nat

  datatype Word = W(bits: bv32)

  datatype Shape =
    | Leaf(family: Family, isSigned: bool, size: nat)        // scalars, durations, time points
    | Container(family: Family, flag: bool, size: nat, elem: Node)
    | Aggregate(asTuple: Node)
    | Class(bases: Node, baseCount: nat, fields: Node, fieldCount: nat, version: nat)
    | Pack(elems: seq<Node>)
    | Tuple(elems: seq<Node>)
    | Wrapper(family: Family, elem: Node)                    // optional and pointers
    | FieldDescriptor(data: Node)
    | Signature(isConst: bool, types: seq<Node>)             // result, then arguments

  datatype Family = VOID | BOOLEAN | CHARACTER | INTEGER | FLOAT | ENUM | ARRAY | TUPLE | SEQUENCE | SET | MAP
    | OPTIONAL | DURATION | TIME_POINT | UNIQUE_PTR | SHARED_PTR | WEAK_PTR | FUNCTION | CLASS | BASE_CLASS | FIELD
    | CUSTOM_SERIALIZATION | SEEN_TYPE_BACKREFERENCE

  type Graph = map<Node, Shape>

  function Code(f: Family): bv32 {
    match f
    case VOID => 0
    case BOOLEAN => 1
    case CHARACTER => 2
    case INTEGER => 3
    case FLOAT => 4
    case ENUM => 5
    case ARRAY => 6
    case TUPLE => 7
    case SEQUENCE => 8
    case SET => 9
    case MAP => 10
    case OPTIONAL => 11
    case DURATION => 12
    case TIME_POINT => 13
    case UNIQUE_PTR => 14
    case SHARED_PTR => 15
    case WEAK_PTR => 16
    case FUNCTION => 17
    case CLASS => 18
    case BASE_CLASS => 19
    case FIELD => 20
    case CUSTOM_SERIALIZATION => 21
    case SEEN_TYPE_BACKREFERENCE => 22
  }

  function Wide(b: bv8): bv32 {
    b as bv32
  }

  /** A size on the 24 bits that there is room for. */
  function SizeBits(size: nat): bv32 {
    Wide(Octet(size)) | (Wide(Octet(size / 256)) << 8) | (Wide(Octet(size / 65536)) << 16)
  }

  function Fields(code: bv32, isSigned: bool, size: bv32): Word {
    W(code | (if isSigned then 1 << 7 else 0) | (size << 8))
  }

  function LeafHash(f: Family, isSigned: bool, size: nat): Word {
    Fields(Code(f), isSigned, SizeBits(size))
  }

  function Times(base: bv32): bv32 {
    base * 16777619
  }

  function Xor(a: bv32, b: bv32): bv32 {
    a ^ b
  }

  /** One FNV-1 step. */
  function Step(base: Word, more: Word): Word {
    W(Xor(Times(base.bits), more.bits))
  }

  /** type_hash_add: FNV-1 steps from zero. */
  function AddFrom(base: Word, more: seq<Word>): Word
    decreases |more|
  {
    if more == [] then base else AddFrom(Step(base, more[0]), more[1..])
  }

  function Add(more: seq<Word>): Word {
    AddFrom(W(0), more)
  }

  /** The types whose hashes go into that of a type of this shape. */
  function Kids(s: Shape): seq<Node> {
    match s
    case Leaf(_, _, _) => []
    case Container(_, _, _, e) => [e]
    case Aggregate(t) => [t]
    case Class(b, _, f, _, _) => [b, f]
    case Pack(es) => es
    case Tuple(es) => es
    case Wrapper(_, e) => [e]
    case FieldDescriptor(d) => [d]
    case Signature(_, ts) => ts
  }

  /** Whether the list of types met so far is dropped below this shape. */
  predicate Forgets(s: Shape) {
    s.Container? || s.Aggregate?
  }

  function Combine(s: Shape, kids: seq<Word>): Word
    requires |kids| == |Kids(s)|
  {
    match s
    case Leaf(f, g, n) => LeafHash(f, g, n)
    case Container(f, g, n, _) => Add([LeafHash(f, g, n), kids[0]])
    case Aggregate(_) => kids[0]
    case Class(_, nb, _, nf, v) =>
      Add([LeafHash(CLASS, false, nb + nf + v), LeafHash(BASE_CLASS, false, nb), kids[0],
           LeafHash(FIELD, false, nf), kids[1], LeafHash(CUSTOM_SERIALIZATION, false, v)])
    case Pack(_) => Add(kids)
    case Tuple(es) => Add([LeafHash(TUPLE, false, |es|)] + kids)
    case Wrapper(f, _) => Add([LeafHash(f, false, 0), kids[0]])
    case FieldDescriptor(_) => kids[0]
    case Signature(c, _) => Add([LeafHash(FUNCTION, c, 0)] + kids)
  }

  function IndexOf(seen: seq<Node>, n: Node): (i: nat)
    requires n in seen
    ensures i < |seen| && seen[i] == n && n !in seen[..i]
  {
    if seen[0] == n then 0 else 1 + IndexOf(seen[1..], n)
  }

  function BackReference(seen: seq<Node>, n: Node): Word
    requires n in seen
  {
    LeafHash(SEEN_TYPE_BACKREFERENCE, false, IndexOf(seen, n))
  }

  function Below(s: Shape, seen: seq<Node>, n: Node): seq<Node> {
    if Forgets(s) then [] else seen + [n]
  }

  // ----- What the hash of one type keeps apart -----

  /** Dividing by the prime again: it is odd. */
  function Untimes(x: bv32): bv32 {
    x * 899433627
  }

  lemma UntimesTimes(b: bv32)
    ensures Untimes(b * 16777619) == b
  {
  }

  lemma TimesBack(b: bv32)
    ensures Untimes(Times(b)) == b
  {
    hide Untimes;
    UntimesTimes(b);
  }

  lemma XorBack(a: bv32, b: bv32)
    ensures Xor(Xor(a, b), b) == a && Xor(a, b) == Xor(b, a)
  {
  }

  /** A step loses neither the hash so far nor the word that is added. */
  lemma StepSeparates(b: Word, m: Word, b': Word, m': Word)
    requires Step(b, m) == Step(b', m')
    ensures b == b' <==> m == m'
  {
    hide Times, Xor, Untimes;
    if m == m' {
      XorBack(Times(b.bits), m.bits);
      XorBack(Times(b'.bits), m.bits);
      TimesBack(b.bits);
      TimesBack(b'.bits);
    }
    if b == b' {
      XorBack(Times(b.bits), m.bits);
      XorBack(Times(b.bits), m'.bits);
      XorBack(m.bits, Times(b.bits));
      XorBack(m'.bits, Times(b.bits));
    }
  }

  lemma {:induction false} BaseSeparates(b: Word, b': Word, more: seq<Word>)
    requires b != b'
    ensures AddFrom(b, more) != AddFrom(b', more)
    decreases |more|
  {
    hide Step;
    if more != [] {
      if Step(b, more[0]) == Step(b', more[0]) {
        StepSeparates(b, more[0], b', more[0]);
      }
      BaseSeparates(Step(b, more[0]), Step(b', more[0]), more[1..]);
    }
  }

  /** Words that differ in one place only add up to different hashes. */
  lemma {:induction false} AddSeparates(b: Word, more: seq<Word>, i: nat, w: Word)
    requires i < |more| && more[i] != w
    ensures AddFrom(b, more) != AddFrom(b, more[i := w])
    decreases |more|
  {
    hide Step;
    var other := more[i := w];
    if i == 0 {
      assert other[1..] == more[1..];
      if Step(b, more[0]) == Step(b, w) {
        StepSeparates(b, more[0], b, w);
      }
      BaseSeparates(Step(b, more[0]), Step(b, w), more[1..]);
    } else {
      assert other[1..] == more[1..][i - 1 := w];
      AddSeparates(Step(b, more[0]), more[1..], i - 1, w);
    }
  }

  /** A type whose parts have the same hashes but for one has another hash: no part is left out,
      whatever its position and the shape of the type. */
  lemma CombineSeparates(s: Shape, kids: seq<Word>, i: nat, w: Word)
    requires |kids| == |Kids(s)| && i < |kids| && kids[i] != w
    ensures Combine(s, kids) != Combine(s, kids[i := w])
  {
    hide LeafHash, AddFrom;
    var other, zero := kids[i := w], W(0);
    match s
    case Container(f, g, n, _) =>
      AddSeparates(zero, [LeafHash(f, g, n), kids[0]], 1, w);
      assert [LeafHash(f, g, n), kids[0]][1 := w] == [LeafHash(f, g, n), w];
    case Aggregate(_) =>
    case Class(_, nb, _, nf, v) =>
      var words := [LeafHash(CLASS, false, nb + nf + v), LeafHash(BASE_CLASS, false, nb), kids[0],
                    LeafHash(FIELD, false, nf), kids[1], LeafHash(CUSTOM_SERIALIZATION, false, v)];
      AddSeparates(zero, words, if i == 0 then 2 else 4, w);
      assert words[if i == 0 then 2 else 4 := w]
          == [LeafHash(CLASS, false, nb + nf + v), LeafHash(BASE_CLASS, false, nb), other[0],
              LeafHash(FIELD, false, nf), other[1], LeafHash(CUSTOM_SERIALIZATION, false, v)];
    case Pack(_) => AddSeparates(zero, kids, i, w);
    case Tuple(es) =>
      AddSeparates(zero, [LeafHash(TUPLE, false, |es|)] + kids, i + 1, w);
      assert ([LeafHash(TUPLE, false, |es|)] + kids)[i + 1 := w] == [LeafHash(TUPLE, false, |es|)] + other;
    case Wrapper(f, _) =>
      AddSeparates(zero, [LeafHash(f, false, 0), kids[0]], 1, w);
      assert [LeafHash(f, false, 0), kids[0]][1 := w] == [LeafHash(f, false, 0), w];
    case FieldDescriptor(_) =>
    case Signature(c, _) =>
      AddSeparates(zero, [LeafHash(FUNCTION, c, 0)] + kids, i + 1, w);
      assert ([LeafHash(FUNCTION, c, 0)] + kids)[i + 1 := w] == [LeafHash(FUNCTION, c, 0)] + other;
  }

  lemma OctetsApart(a0: bv8, a1: bv8, a2: bv8, b0: bv8, b1: bv8, b2: bv8)
    requires Wide(a0) | (Wide(a1) << 8) | (Wide(a2) << 16) == Wide(b0) | (Wide(b1) << 8) | (Wide(b2) << 16)
    ensures a0 == b0 && a1 == b1 && a2 == b2
  {
  }

  lemma OctetsFit(a0: bv8, a1: bv8, a2: bv8)
    ensures Wide(a0) | (Wide(a1) << 8) | (Wide(a2) << 16) < 0x100_0000
  {
  }

  lemma SizeFits(n: nat)
    ensures SizeBits(n) < 0x100_0000
  {
    hide Octet, Wide;
    OctetsFit(Octet(n), Octet(n / 256), Octet(n / 65536));
  }

  lemma SizeSeparates(m: nat, n: nat)
    requires m < 0x100_0000 && n < 0x100_0000 && SizeBits(m) == SizeBits(n)
    ensures m == n
  {
    hide Octet, Wide;
    OctetsApart(Octet(m), Octet(m / 256), Octet(m / 65536), Octet(n), Octet(n / 256), Octet(n / 65536));
    hide SizeBits;
    OctetExactly(m, n);
    OctetExactly(m / 256, n / 256);
    OctetExactly(m / 65536, n / 65536);
    ThreeDigits(m);
    ThreeDigits(n);
  }

  lemma ThreeDigits(n: nat)
    requires n < 0x100_0000
    ensures n == n % 256 + 256 * (n / 256 % 256) + 65536 * (n / 65536 % 256)
  {
    assert n / 65536 == n / 256 / 256;
  }

  lemma FieldsApart(c: bv32, g: bool, z: bv32, c': bv32, g': bool, z': bv32)
    requires c < 128 && c' < 128 && z < 0x100_0000 && z' < 0x100_0000 && Fields(c, g, z) == Fields(c', g', z')
    ensures c == c' && g == g' && z == z'
  {
  }

  lemma CodeFits(f: Family)
    ensures Code(f) < 128
  {
  }

  lemma CodeSeparates(f: Family, f': Family)
    requires Code(f) == Code(f')
    ensures f == f'
  {
  }

  /** Leaves of different family, sign or size have different hashes, as long as sizes have no more
      than the 24 bits that the hash has room for. */
  lemma LeafSeparates(f: Family, g: bool, n: nat, f': Family, g': bool, n': nat)
    requires n < 0x100_0000 && n' < 0x100_0000 && LeafHash(f, g, n) == LeafHash(f', g', n')
    ensures f == f' && g == g' && n == n'
  {
    hide Code, SizeBits, Fields;
    CodeFits(f);
    CodeFits(f');
    SizeFits(n);
    SizeFits(n');
    FieldsApart(Code(f), g, SizeBits(n), Code(f'), g', SizeBits(n'));
    CodeSeparates(f, f');
    SizeSeparates(n, n');
  }

  lemma WrapDigits(n: nat)
    ensures var m := n + 0x100_0000;
      m % 256 == n % 256 && m / 256 % 256 == n / 256 % 256 && m / 65536 % 256 == n / 65536 % 256
  {
    assert (n + 0x100_0000) / 256 == n / 256 + 65536 && (n + 0x100_0000) / 65536 == n / 65536 + 256;
  }

  /** Beyond them, sizes that differ by 2^24 are the same to the hash. */
  lemma SizesWrap(f: Family, g: bool, n: nat)
    ensures LeafHash(f, g, n + 0x100_0000) == LeafHash(f, g, n)
  {
    hide Code, Fields, Octet;
    var m := n + 0x100_0000;
    WrapDigits(n);
    OctetExactly(m, n);
    OctetExactly(m / 256, n / 256);
    OctetExactly(m / 65536, n / 65536);
  }

  /** Some hashes in full: of the types int32_t and double, of a tuple of the two, and of a class
      with one int32_t field. */
  lemma Examples()
    ensures LeafHash(INTEGER, true, 4) == W(0x483) && LeafHash(FLOAT, true, 8) == W(0x884)
    ensures Combine(Tuple([0, 1]), [W(0x483), W(0x884)]) == W(0x900d4976)
    ensures Combine(Pack([]), []) == W(0) && Combine(Pack([0]), [W(0x483)]) == W(0x483)
    ensures Combine(Class(0, 0, 1, 1, 0), [W(0), W(0x483)]) == W(0x8ec5035d)
  {
    hide Step, LeafHash;
    Leaves();
    Steps();
    var i, f := W(0x483), W(0x884);
    assert [LeafHash(TUPLE, false, 2)] + [i, f] == [W(0x207), i, f];
    Three(W(0), W(0x207), i, f);
    Three(W(0), W(0x112), W(0x13), W(0));
    Three(W(0x9da6e99f), W(0x114), i, W(0x15));
    AddSplit(W(0), [W(0x112), W(0x13), W(0)], [W(0x114), i, W(0x15)]);
    assert [W(0x112), W(0x13), W(0)] + [W(0x114), i, W(0x15)] == [W(0x112), W(0x13), W(0), W(0x114), i, W(0x15)];
    assert [i][1..] == [];
  }

  lemma Three(b: Word, x: Word, y: Word, z: Word)
    ensures AddFrom(b, [x, y, z]) == Step(Step(Step(b, x), y), z)
  {
    hide Step;
    assert [x, y, z][1..] == [y, z] && [y, z][1..] == [z] && [z][1..] == [];
    assert AddFrom(Step(Step(b, x), y), [z]) == Step(Step(Step(b, x), y), z);
  }

  lemma {:induction false} AddSplit(b: Word, xs: seq<Word>, ys: seq<Word>)
    ensures AddFrom(b, xs + ys) == AddFrom(AddFrom(b, xs), ys)
    decreases |xs|
  {
    hide Step;
    if xs == [] {
      assert xs + ys == ys;
    } else {
      assert (xs + ys)[1..] == xs[1..] + ys;
      AddSplit(Step(b, xs[0]), xs[1..], ys);
    }
  }

  lemma Leaves()
    ensures LeafHash(INTEGER, true, 4) == W(0x483) && LeafHash(FLOAT, true, 8) == W(0x884)
    ensures LeafHash(TUPLE, false, 2) == W(0x207) && LeafHash(CLASS, false, 1) == W(0x112)
    ensures LeafHash(BASE_CLASS, false, 0) == W(0x13) && LeafHash(FIELD, false, 1) == W(0x114)
    ensures LeafHash(CUSTOM_SERIALIZATION, false, 0) == W(0x15)
  {
    hide Octet;
    SmallOctets();
  }

  lemma SmallOctets()
    ensures Octet(0) == 0 && Octet(1) == 1 && Octet(2) == 2 && Octet(4) == 4 && Octet(8) == 8
  {
  }

  lemma Steps()
    ensures Step(W(0x0), W(0x483)) == W(0x483) && Step(W(0x0), W(0x207)) == W(0x207)
    ensures Step(W(0x207), W(0x483)) == W(0x7033586)
    ensures Step(W(0x7033586), W(0x884)) == W(0x900d4976)
    ensures Step(W(0x0), W(0x112)) == W(0x112)
    ensures Step(W(0x112), W(0x13)) == W(0x1201af45)
    ensures Step(W(0x1201af45), W(0x0)) == W(0x9da6e99f)
    ensures Step(W(0x9da6e99f), W(0x114)) == W(0xccc1c459)
    ensures Step(W(0xccc1c459), W(0x483)) == W(0xae081c98)
    ensures Step(W(0xae081c98), W(0x15)) == W(0x8ec5035d)
  {
  }

  /** A back-reference counts the types that were met before: a new type takes the next number, and
      those met earlier keep theirs. */
  lemma ReferenceCounts(s: Shape, seen: seq<Node>, n: Node)
    requires !Forgets(s) && n !in seen
    ensures n in Below(s, seen, n) && IndexOf(Below(s, seen, n), n) == |seen|
    ensures forall m :: m in seen ==> m in Below(s, seen, n) && IndexOf(Below(s, seen, n), m) == IndexOf(seen, m)
  {
    var below := Below(s, seen, n);
    IndexIs(below, n, |seen|);
    forall m | m in seen ensures m in below && IndexOf(below, m) == IndexOf(seen, m) {
      var i := IndexOf(seen, m);
      assert below[i] == m && below[..i] == seen[..i];
      IndexIs(below, m, i);
    }
  }

  // ----- Termination -----

  type Rank = Node -> nat

  /** No type contains itself through a container or aggregate: types can be ranked so that
      going into one of those lowers the rank and going anywhere else does not raise it. */
  ghost predicate Ranked(g: Graph, rank: Rank) {
    forall n :: n in g ==> RankedAt(g, rank, n)
  }

  ghost predicate RankedAt(g: Graph, rank: Rank, n: Node)
    requires n in g
  {
    forall i :: 0 <= i < |Kids(g[n])| ==>
      var k := Kids(g[n])[i];
      k in g && rank(k) <= rank(n) && (Forgets(g[n]) ==> rank(k) < rank(n))
  }

  ghost function Unseen(g: Graph, seen: seq<Node>): set<Node> {
    set n | n in g && n !in seen
  }

  /** The hash of a type.  It ends because every step into a type that is not forgotten makes the
      set of unseen types smaller, and every other step lowers the rank. */
  function Hash(g: Graph, ghost rank: Rank, n: Node, seen: seq<Node>): Word
    requires Ranked(g, rank) && n in g
    decreases rank(n), |Unseen(g, seen)|, 0
  {
    if n in seen then BackReference(seen, n)
    else
      assert RankedAt(g, rank, n);
      UnseenShrinks(g, seen, n);
      Combine(g[n], HashAll(g, rank, Kids(g[n]), Below(g[n], seen, n), Top(g, rank, n)))
  }

  /** The highest rank that types directly below `n` may have. */
  ghost function Top(g: Graph, rank: Rank, n: Node): (top: nat)
    requires Ranked(g, rank) && n in g
    ensures forall i :: 0 <= i < |Kids(g[n])| ==> Kids(g[n])[i] in g && rank(Kids(g[n])[i]) <= top
    ensures if Forgets(g[n]) then top < rank(n) else top == rank(n)
  {
    assert RankedAt(g, rank, n);
    if Forgets(g[n]) then
      assert Kids(g[n])[0] in g && rank(Kids(g[n])[0]) < rank(n);
      rank(n) - 1
    else rank(n)
  }

  /** The hashes of several types, none of a rank above `top`. */
  function HashAll(g: Graph, ghost rank: Rank, ns: seq<Node>, seen: seq<Node>, ghost top: nat): (r: seq<Word>)
    requires Ranked(g, rank)
    requires forall i :: 0 <= i < |ns| ==> ns[i] in g && rank(ns[i]) <= top
    ensures |r| == |ns|
    decreases top, |Unseen(g, seen)|, 1 + |ns|
  {
    if ns == [] then [] else [Hash(g, rank, ns[0], seen)] + HashAll(g, rank, ns[1..], seen, top)
  }

  lemma UnseenShrinks(g: Graph, seen: seq<Node>, n: Node)
    requires n in g && n !in seen
    ensures |Unseen(g, seen + [n])| < |Unseen(g, seen)|
  {
    assert Unseen(g, seen) == Unseen(g, seen + [n]) + {n};
  }

  // ----- Renaming -----

  function MapNodes(f: Node -> Node, ns: seq<Node>): seq<Node> {
    seq(|ns|, i requires 0 <= i < |ns| => f(ns[i]))
  }

  function MapShape(f: Node -> Node, s: Shape): Shape {
    match s
    case Leaf(_, _, _) => s
    case Container(a, b, c, e) => Container(a, b, c, f(e))
    case Aggregate(t) => Aggregate(f(t))
    case Class(b, nb, d, nf, v) => Class(f(b), nb, f(d), nf, v)
    case Pack(es) => Pack(MapNodes(f, es))
    case Tuple(es) => Tuple(MapNodes(f, es))
    case Wrapper(a, e) => Wrapper(a, f(e))
    case FieldDescriptor(d) => FieldDescriptor(f(d))
    case Signature(c, ts) => Signature(c, MapNodes(f, ts))
  }

  /** Graph `h` contains `g` with every type renamed by `f`, which keeps different types apart. */
  ghost predicate RenamedInto(g: Graph, f: Node -> Node, h: Graph) {
    && (forall n :: n in g ==> f(n) in h && h[f(n)] == MapShape(f, g[n]))
    && (forall m, n :: m in g && n in g && f(m) == f(n) ==> m == n)
  }

  lemma KidsRenamed(f: Node -> Node, s: Shape)
    ensures Kids(MapShape(f, s)) == MapNodes(f, Kids(s))
    ensures Forgets(MapShape(f, s)) == Forgets(s)
  {
  }

  /** Combining does not look at the names. */
  lemma CombineRenamed(f: Node -> Node, s: Shape, kids: seq<Word>)
    requires |kids| == |Kids(s)|
    ensures |Kids(MapShape(f, s))| == |kids| && Combine(MapShape(f, s), kids) == Combine(s, kids)
  {
    hide LeafHash, Add;
    KidsRenamed(f, s);
  }

  lemma SeenRenamed(g: Graph, f: Node -> Node, h: Graph, seen: seq<Node>, n: Node)
    requires RenamedInto(g, f, h) && n in g && forall i :: 0 <= i < |seen| ==> seen[i] in g
    ensures f(n) in MapNodes(f, seen) <==> n in seen
    ensures n in seen ==> IndexOf(MapNodes(f, seen), f(n)) == IndexOf(seen, n)
  {
    var image := MapNodes(f, seen);
    if n in seen {
      var j := IndexOf(seen, n);
      forall k | 0 <= k < j ensures image[..j][k] != f(n) {
        assert seen[..j][k] == seen[k];
      }
      IndexIs(image, f(n), j);
    } else {
      forall k | 0 <= k < |image| ensures image[k] != f(n) {
        assert seen[k] in seen;
      }
    }
  }

  lemma {:induction false} IndexIs(seen: seq<Node>, n: Node, i: nat)
    requires i < |seen| && seen[i] == n && n !in seen[..i]
    ensures IndexOf(seen, n) == i
  {
    if i > 0 {
      assert seen[..i][0] == seen[0];
      assert seen[..i][1..] == seen[1..][..i - 1];
      IndexIs(seen[1..], n, i - 1);
    }
  }

  // ----- Recursion through containers -----

  /** The same recursion with a bound on its depth. */
  function HashWithin(g: Graph, n: Node, seen: seq<Node>, fuel: nat): Option<Word>
    decreases fuel, 0
  {
    if fuel == 0 || n !in g then None
    else if n in seen then Some(BackReference(seen, n))
    else
      var kids := HashAllWithin(g, Kids(g[n]), Below(g[n], seen, n), fuel - 1);
      if kids.None? then None else Some(Combine(g[n], kids.value))
  }

  function HashAllWithin(g: Graph, ns: seq<Node>, seen: seq<Node>, fuel: nat): (r: Option<seq<Word>>)
    ensures r.Some? ==> |r.value| == |ns|
    decreases fuel, 1 + |ns|
  {
    if ns == [] then Some([])
    else
      var first, rest := HashWithin(g, ns[0], seen, fuel), HashAllWithin(g, ns[1..], seen, fuel);
      if first.None? || rest.None? then None else Some([first.value] + rest.value)
  }

  /** A type whose one part was met before, or is the type itself, goes by the position of that part
      in the list of the types met. */
  lemma BackReferenced(g: Graph, n: Node, m: Node, seen: seq<Node>, fuel: nat)
    requires n in g && m in g && n !in seen && m in seen + [n] && Kids(g[n]) == [m] && !Forgets(g[n]) && fuel >= 2
    ensures HashWithin(g, n, seen, fuel)
         == Some(Combine(g[n], [LeafHash(SEEN_TYPE_BACKREFERENCE, false, IndexOf(seen + [n], m))]))
  {
    hide LeafHash, Combine;
    var below := seen + [n];
    assert HashWithin(g, m, below, fuel - 1) == Some(BackReference(below, m));
    assert [m][1..] == [] && HashAllWithin(g, [], below, fuel - 1) == Some([]);
    assert [BackReference(below, m)] + [] == [BackReference(below, m)];
  }

  /** A container or aggregate that was not met before has the same hash wherever it stands. */
  lemma SameAnywhere(g: Graph, n: Node, seen: seq<Node>, fuel: nat)
    requires n in g && n !in seen && Forgets(g[n])
    ensures HashWithin(g, n, seen, fuel) == HashWithin(g, n, [], fuel)
  {
  }

  lemma MapRest(f: Node -> Node, ns: seq<Node>)
    requires ns != []
    ensures |MapNodes(f, ns)| == |ns| && MapNodes(f, ns)[0] == f(ns[0]) && MapNodes(f, ns)[1..] == MapNodes(f, ns[1..])
  {
  }

  /** Every type mentioned is there. */
  ghost predicate Whole(g: Graph) {
    forall n :: n in g ==> WholeAt(g, n)
  }

  ghost predicate WholeAt(g: Graph, n: Node)
    requires n in g
  {
    forall k :: k in Kids(g[n]) ==> k in g
  }

  lemma KidsThere(g: Graph, n: Node)
    requires Whole(g) && n in g
    ensures forall k :: k in Kids(g[n]) ==> k in g
  {
    assert WholeAt(g, n);
  }

  lemma BelowRenamed(f: Node -> Node, s: Shape, seen: seq<Node>, n: Node)
    ensures MapNodes(f, Below(s, seen, n)) == Below(MapShape(f, s), MapNodes(f, seen), f(n))
  {
    KidsRenamed(f, s);
  }

  /** Renaming classes, fields and all other types, within whatever larger program, changes
      nothing: neither the hash nor whether there is one.  Structure alone counts. */
  lemma {:induction false} HashRenamed(g: Graph, f: Node -> Node, h: Graph, n: Node, seen: seq<Node>, fuel: nat)
    requires Whole(g) && RenamedInto(g, f, h) && n in g
    requires forall i :: 0 <= i < |seen| ==> seen[i] in g
    ensures HashWithin(h, f(n), MapNodes(f, seen), fuel) == HashWithin(g, n, seen, fuel)
    decreases fuel, 0
  {
    hide Combine, Kids, MapShape, LeafHash, IndexOf, Whole, WholeAt, MapNodes;
    SeenRenamed(g, f, h, seen, n);
    if fuel > 0 && n !in seen {
      var s := g[n];
      KidsRenamed(f, s);
      KidsThere(g, n);
      var below := Below(s, seen, n);
      BelowRenamed(f, s, seen, n);
      HashAllRenamed(g, f, h, Kids(s), below, fuel - 1);
      var kids := HashAllWithin(g, Kids(s), below, fuel - 1);
      if kids.Some? {
        CombineRenamed(f, s, kids.value);
      }
    }
  }

  lemma {:induction false} HashAllRenamed(g: Graph, f: Node -> Node, h: Graph, ns: seq<Node>, seen: seq<Node>, fuel: nat)
    requires Whole(g) && RenamedInto(g, f, h)
    requires forall i :: 0 <= i < |seen| ==> seen[i] in g
    requires forall k :: k in ns ==> k in g
    ensures HashAllWithin(h, MapNodes(f, ns), MapNodes(f, seen), fuel) == HashAllWithin(g, ns, seen, fuel)
    decreases fuel, 1 + |ns|
  {
    hide Whole, RenamedInto, HashWithin, MapNodes;
    if ns == [] {
      MapNothing(f);
    } else {
      HashRenamed(g, f, h, ns[0], seen, fuel);
      HashAllRenamed(g, f, h, ns[1..], seen, fuel);
      MapRest(f, ns);
    }
  }

  lemma MapNothing(f: Node -> Node)
    ensures MapNodes(f, []) == []
  {
  }

  /** On ranked types, some depth suffices, and then gives the hash. */
  lemma {:induction false} EnoughFuel(g: Graph, rank: Rank, n: Node, seen: seq<Node>) returns (fuel: nat)
    requires Ranked(g, rank) && n in g
    ensures forall more: nat :: more >= fuel ==> HashWithin(g, n, seen, more) == Some(Hash(g, rank, n, seen))
    decreases rank(n), |Unseen(g, seen)|, 0
  {
    hide Combine, Kids;
    if n in seen {
      fuel := 1;
    } else {
      UnseenShrinks(g, seen, n);
      var f := EnoughFuelAll(g, rank, Kids(g[n]), Below(g[n], seen, n), Top(g, rank, n));
      fuel := f + 1;
      forall more: nat | more >= fuel ensures HashWithin(g, n, seen, more) == Some(Hash(g, rank, n, seen)) {
        assert HashAllWithin(g, Kids(g[n]), Below(g[n], seen, n), more - 1).Some?;
      }
    }
  }

  lemma {:induction false} EnoughFuelAll(g: Graph, rank: Rank, ns: seq<Node>, seen: seq<Node>, top: nat) returns (fuel: nat)
    requires Ranked(g, rank)
    requires forall i :: 0 <= i < |ns| ==> ns[i] in g && rank(ns[i]) <= top
    ensures forall more: nat :: more >= fuel ==> HashAllWithin(g, ns, seen, more) == Some(HashAll(g, rank, ns, seen, top))
    decreases top, |Unseen(g, seen)|, 1 + |ns|
  {
    if ns == [] {
      fuel := 0;
    } else {
      var a := EnoughFuel(g, rank, ns[0], seen);
      var b := EnoughFuelAll(g, rank, ns[1..], seen, top);
      fuel := if a > b then a else b;
    }
  }

  // ----- Which types have a hash -----

  lemma {:induction false} MissingKid(g: Graph, ns: seq<Node>, seen: seq<Node>, fuel: nat, n: Node)
    requires n in ns && HashWithin(g, n, seen, fuel).None?
    ensures HashAllWithin(g, ns, seen, fuel).None?
    decreases |ns|
  {
    if ns[0] != n {
      MissingKid(g, ns[1..], seen, fuel, n);
    }
  }

  ghost predicate Walk(g: Graph, path: seq<Node>) {
    && path != []
    && (forall i :: 0 <= i < |path| ==> path[i] in g)
    && (forall i :: 0 <= i < |path| - 1 ==> path[i + 1] in Kids(g[path[i]]))
  }

  ghost predicate WalkFromTo(g: Graph, path: seq<Node>, a: Node, b: Node) {
    Walk(g, path) && path[0] == a && path[|path| - 1] == b
  }

  ghost predicate Simple(path: seq<Node>) {
    forall i, j :: 0 <= i < j < |path| ==> path[i] != path[j]
  }

  /** `b` is a part of `a`, at some depth. */
  ghost predicate Reaches(g: Graph, a: Node, b: Node) {
    exists path :: WalkFromTo(g, path, a, b)
  }

  /** A container or aggregate that contains itself. */
  ghost predicate ContainsItself(g: Graph, m: Node) {
    m in g && Forgets(g[m]) && exists k :: k in Kids(g[m]) && Reaches(g, k, m)
  }

  lemma WalkOne(g: Graph, a: Node)
    requires a in g
    ensures Reaches(g, a, a)
  {
    assert WalkFromTo(g, [a], a, a);
  }

  lemma WalkFront(g: Graph, path: seq<Node>, a: Node, k: Node, b: Node)
    requires a in g && k in Kids(g[a]) && WalkFromTo(g, path, k, b)
    ensures WalkFromTo(g, [a] + path, a, b)
  {
    hide Kids;
    var p := [a] + path;
    forall i | 0 <= i < |p| - 1 ensures p[i + 1] in Kids(g[p[i]]) {
      if i > 0 {
        assert path[i] in Kids(g[path[i - 1]]);
      }
    }
  }

  lemma ReachesFront(g: Graph, a: Node, k: Node, b: Node)
    requires a in g && k in Kids(g[a]) && Reaches(g, k, b)
    ensures Reaches(g, a, b)
  {
    hide Kids, WalkFromTo;
    var path :| WalkFromTo(g, path, k, b);
    WalkFront(g, path, a, k, b);
  }

  lemma WalkBack(g: Graph, path: seq<Node>, a: Node, m: Node, k: Node)
    requires WalkFromTo(g, path, a, m) && k in g && k in Kids(g[m])
    ensures WalkFromTo(g, path + [k], a, k)
  {
    hide Kids;
    var p := path + [k];
    forall i | 0 <= i < |p| - 1 ensures p[i + 1] in Kids(g[p[i]]) {
      if i < |path| - 1 {
        assert path[i + 1] in Kids(g[path[i]]);
      }
    }
  }

  lemma ReachesBack(g: Graph, a: Node, m: Node, k: Node)
    requires Reaches(g, a, m) && m in g && k in g && k in Kids(g[m])
    ensures Reaches(g, a, k)
  {
    hide Kids, WalkFromTo;
    var path :| WalkFromTo(g, path, a, m);
    WalkBack(g, path, a, m, k);
  }

  /** A walk that meets a type twice can leave out what lies between. */
  lemma CutOut(g: Graph, path: seq<Node>, a: Node, b: Node, i: nat, j: nat)
    requires WalkFromTo(g, path, a, b) && i < j < |path| && path[i] == path[j]
    ensures WalkFromTo(g, path[..i] + path[j..], a, b)
  {
    hide Kids;
    var p := path[..i] + path[j..];
    forall l | 0 <= l < |p| - 1 ensures p[l + 1] in Kids(g[p[l]]) {
      if l < i {
        assert path[l + 1] in Kids(g[path[l]]);
        assert p[l] == path[l] && p[l + 1] == path[l + 1];
      } else {
        assert path[j + (l - i) + 1] in Kids(g[path[j + (l - i)]]);
      }
    }
  }

  lemma {:induction false} SimpleWalk(g: Graph, path: seq<Node>, a: Node, b: Node) returns (short: seq<Node>)
    requires WalkFromTo(g, path, a, b)
    ensures WalkFromTo(g, short, a, b) && Simple(short)
    decreases |path|
  {
    hide Walk;
    if i: nat, j: nat :| i < j < |path| && path[i] == path[j] {
      CutOut(g, path, a, b, i, j);
      short := SimpleWalk(g, path[..i] + path[j..], a, b);
    } else {
      short := path;
    }
  }

  /** Such a container has no hash, whichever of its parts one starts with and an empty list: no
      depth of recursion is enough.  On a simple way round, no type is met twice before the
      container drops the list. */
  lemma {:induction false} RoundNeverEnds(g: Graph, path: seq<Node>, i: nat, seen: seq<Node>, fuel: nat)
    requires Walk(g, path) && Simple(path) && i < |path|
    requires Forgets(g[path[|path| - 1]]) && path[0] in Kids(g[path[|path| - 1]])
    requires forall n :: n in seen ==> n in path[..i]
    ensures HashWithin(g, path[i], seen, fuel).None?
    decreases fuel
  {
    hide Combine, Kids;
    if fuel > 0 {
      var n := path[i];
      assert n !in seen;
      var below := Below(g[n], seen, n);
      if i == |path| - 1 {
        RoundNeverEnds(g, path, 0, below, fuel - 1);
        MissingKid(g, Kids(g[n]), below, fuel - 1, path[0]);
      } else {
        assert forall x :: x in path[..i] ==> x in path[..i + 1];
        assert path[..i + 1][i] == n;
        RoundNeverEnds(g, path, i + 1, below, fuel - 1);
        MissingKid(g, Kids(g[n]), below, fuel - 1, path[i + 1]);
      }
    }
  }

  /** Nor has any type that leads to such a container. */
  lemma {:induction false} LeadNeverEnds(g: Graph, lead: seq<Node>, round: seq<Node>, i: nat, seen: seq<Node>, fuel: nat)
    requires Walk(g, lead) && Simple(lead) && i < |lead|
    requires Walk(g, round) && Simple(round) && lead[|lead| - 1] == round[|round| - 1]
    requires Forgets(g[round[|round| - 1]]) && round[0] in Kids(g[round[|round| - 1]])
    requires forall n :: n in seen ==> n in lead[..i]
    ensures HashWithin(g, lead[i], seen, fuel).None?
    decreases fuel
  {
    hide Combine, Kids;
    if fuel > 0 {
      var n := lead[i];
      assert n !in seen;
      var below := Below(g[n], seen, n);
      if i == |lead| - 1 {
        RoundNeverEnds(g, round, 0, below, fuel - 1);
        MissingKid(g, Kids(g[n]), below, fuel - 1, round[0]);
      } else {
        assert forall x :: x in lead[..i] ==> x in lead[..i + 1];
        assert lead[..i + 1][i] == n;
        LeadNeverEnds(g, lead, round, i + 1, below, fuel - 1);
        MissingKid(g, Kids(g[n]), below, fuel - 1, lead[i + 1]);
      }
    }
  }

  lemma ContainerLoopNeverEnds(g: Graph, n: Node, m: Node, fuel: nat)
    requires Reaches(g, n, m) && ContainsItself(g, m)
    ensures HashWithin(g, n, [], fuel).None?
  {
    hide Kids, HashWithin;
    var k :| k in Kids(g[m]) && Reaches(g, k, m);
    var way :| WalkFromTo(g, way, k, m);
    var round := SimpleWalk(g, way, k, m);
    var path :| WalkFromTo(g, path, n, m);
    var lead := SimpleWalk(g, path, n, m);
    LeadNeverEnds(g, lead, round, 0, [], fuel);
  }

  // Ranks exist exactly when no container contains itself.

  lemma {:induction false} RankFalls(g: Graph, rank: Rank, path: seq<Node>)
    requires Ranked(g, rank) && Walk(g, path)
    ensures rank(path[|path| - 1]) <= rank(path[0])
    decreases |path|
  {
    hide Kids;
    if |path| > 1 {
      assert path[0 + 1] in Kids(g[path[0]]);
      assert RankedAt(g, rank, path[0]);
      forall i | 0 <= i < |path[1..]| - 1 ensures path[1..][i + 1] in Kids(g[path[1..][i]]) {
        assert path[(i + 1) + 1] in Kids(g[path[i + 1]]);
      }
      RankFalls(g, rank, path[1..]);
    }
  }

  /** The containers and aggregates that `n` has among its parts. */
  ghost function Forgetting(g: Graph, n: Node): set<Node> {
    set m | m in g && Forgets(g[m]) && Reaches(g, n, m)
  }

  lemma SubsetSize<T>(a: set<T>, b: set<T>)
    requires a <= b
    ensures |a| <= |b|
    ensures (exists x :: x in b && x !in a) ==> |a| < |b|
  {
    assert b == a + (b - a);
    assert (exists x :: x in b && x !in a) ==> b - a != {};
  }

  lemma CountIsRank(g: Graph)
    requires Whole(g) && forall m :: m in g ==> !ContainsItself(g, m)
    ensures Ranked(g, n => |Forgetting(g, n)|)
  {
    hide Kids, Reaches;
    var rank := n => |Forgetting(g, n)|;
    forall n | n in g ensures RankedAt(g, rank, n) {
      assert WholeAt(g, n);
      forall i | 0 <= i < |Kids(g[n])|
        ensures var k := Kids(g[n])[i]; k in g && rank(k) <= rank(n) && (Forgets(g[n]) ==> rank(k) < rank(n)) {
        KidCounts(g, n, Kids(g[n])[i]);
      }
    }
  }

  lemma KidCounts(g: Graph, n: Node, k: Node)
    requires n in g && k in g && k in Kids(g[n]) && !ContainsItself(g, n)
    ensures |Forgetting(g, k)| <= |Forgetting(g, n)|
    ensures Forgets(g[n]) ==> |Forgetting(g, k)| < |Forgetting(g, n)|
  {
    hide Kids, Reaches;
    forall m | m in Forgetting(g, k) ensures m in Forgetting(g, n) {
      ReachesFront(g, n, k, m);
    }
    WalkOne(g, n);
    if Forgets(g[n]) {
      assert n in Forgetting(g, n) && n !in Forgetting(g, k);
    }
    SubsetSize(Forgetting(g, k), Forgetting(g, n));
  }

  /** Types can be ranked if and only if no container or aggregate contains itself. */
  lemma RankedExactly(g: Graph)
    requires Whole(g)
    ensures (exists rank: Rank :: Ranked(g, rank)) <==> forall m :: m in g ==> !ContainsItself(g, m)
  {
    hide Kids, Ranked, Whole;
    if forall m :: m in g ==> !ContainsItself(g, m) {
      CountIsRank(g);
    }
    forall rank: Rank, m | Ranked(g, rank) && m in g ensures !ContainsItself(g, m) {
      NoRankRound(g, rank, m);
    }
  }

  lemma NoRankRound(g: Graph, rank: Rank, m: Node)
    requires Ranked(g, rank) && m in g
    ensures !ContainsItself(g, m)
  {
    hide Kids, Reaches, Ranked;
    if Forgets(g[m]) {
      forall k | k in Kids(g[m]) ensures !Reaches(g, k, m) {
        KidBelow(g, rank, m, k);
        ReachFalls(g, rank, k, m);
      }
    }
  }

  lemma KidBelow(g: Graph, rank: Rank, m: Node, k: Node)
    requires Ranked(g, rank) && m in g && Forgets(g[m]) && k in Kids(g[m])
    ensures rank(k) < rank(m)
  {
    hide Kids;
    assert RankedAt(g, rank, m);
  }

  lemma ReachFalls(g: Graph, rank: Rank, a: Node, b: Node)
    requires Ranked(g, rank)
    ensures Reaches(g, a, b) ==> rank(b) <= rank(a)
  {
    hide Ranked, Walk;
    if path :| WalkFromTo(g, path, a, b) {
      RankFalls(g, rank, path);
    }
  }

  /** The parts of `n`: the program as far as its hash looks at it. */
  ghost function Parts(g: Graph, n: Node): Graph {
    map m | m in g && Reaches(g, n, m) :: g[m]
  }

  lemma PartsWhole(g: Graph, n: Node)
    requires Whole(g)
    ensures Whole(Parts(g, n)) && RenamedInto(Parts(g, n), x => x, g)
  {
    hide Kids, Reaches;
    var h := Parts(g, n);
    forall m | m in h ensures WholeAt(h, m) && h[m] == MapShape(x => x, h[m]) {
      assert WholeAt(g, m);
      forall k | k in Kids(h[m]) ensures k in h {
        ReachesBack(g, n, m, k);
      }
      SameShape(h[m]);
    }
  }

  lemma SameShape(s: Shape)
    ensures MapShape(x => x, s) == s
  {
    match s
    case Pack(es) => assert MapNodes(x => x, es) == es;
    case Tuple(es) => assert MapNodes(x => x, es) == es;
    case Signature(_, ts) => assert MapNodes(x => x, ts) == ts;
    case _ =>
  }

  lemma PartsContain(g: Graph, n: Node, m: Node)
    requires ContainsItself(Parts(g, n), m)
    ensures Reaches(g, n, m) && ContainsItself(g, m)
  {
    hide Kids;
    var h := Parts(g, n);
    var k :| k in Kids(h[m]) && Reaches(h, k, m);
    var way :| WalkFromTo(h, way, k, m);
    assert WalkFromTo(g, way, k, m) by {
      forall i | 0 <= i < |way| - 1 ensures way[i + 1] in Kids(g[way[i]]) {
        assert way[i + 1] in Kids(h[way[i]]);
      }
    }
  }

  /** A type has a hash if and only if no container or aggregate among its parts contains itself. */
  lemma HashExactly(g: Graph, n: Node)
    requires Whole(g) && n in g
    ensures (exists fuel: nat :: HashWithin(g, n, [], fuel).Some?)
       <==> forall m :: Reaches(g, n, m) ==> !ContainsItself(g, m)
  {
    hide HashWithin, Reaches, ContainsItself, Whole, RenamedInto, Ranked, Walk, WalkFromTo;
    forall fuel: nat, m | Reaches(g, n, m) && ContainsItself(g, m) ensures HashWithin(g, n, [], fuel).None? {
      ContainerLoopNeverEnds(g, n, m, fuel);
    }
    if forall m :: Reaches(g, n, m) ==> !ContainsItself(g, m) {
      var fuel := SomeFuel(g, n);
    }
  }

  lemma SomeFuel(g: Graph, n: Node) returns (fuel: nat)
    requires Whole(g) && n in g && forall m :: Reaches(g, n, m) ==> !ContainsItself(g, m)
    ensures HashWithin(g, n, [], fuel).Some?
  {
    hide HashWithin, Reaches, ContainsItself, Whole, RenamedInto, Ranked, Hash, Walk, WalkFromTo;
    var h := Parts(g, n);
    PartsWhole(g, n);
    forall m | m in h ensures !ContainsItself(h, m) {
      if ContainsItself(h, m) {
        PartsContain(g, n, m);
      }
    }
    RankedExactly(h);
    var rank: Rank :| Ranked(h, rank);
    WalkOne(g, n);
    fuel := EnoughFuel(h, rank, n, []);
    HashRenamed(h, x => x, g, n, [], fuel);
    assert HashWithin(h, n, [], fuel) == Some(Hash(h, rank, n, []));
    assert MapNodes(x => x, []) == [];
  }

  // ----- Two classes -----

  /** A class 0 with one field: a vector of the class, or a unique pointer to it. */
  function SelfClass(inVector: bool): Graph {
    map[0 := Class(1, 0, 2, 1, 0), 1 := Pack([]), 2 := Pack([3]), 3 := FieldDescriptor(4),
        4 := if inVector then Container(SEQUENCE, false, 0, 0) else Wrapper(UNIQUE_PTR, 0)]
  }

  lemma VectorRound()
    ensures Walk(SelfClass(true), [0, 2, 3, 4]) && Simple([0, 2, 3, 4])
    ensures Forgets(SelfClass(true)[4]) && 0 in Kids(SelfClass(true)[4])
  {
    var g, path := SelfClass(true), [0, 2, 3, 4];
    forall i | 0 <= i < 3 ensures path[i + 1] in Kids(g[path[i]]) {
      assert i == 0 || i == 1 || i == 2;
    }
  }

  lemma PointerKids(n: Node)
    requires n <= 4
    ensures !Forgets(SelfClass(false)[n])
    ensures var kids := Kids(SelfClass(false)[n]); forall i :: 0 <= i < |kids| ==> kids[i] in SelfClass(false)
  {
    assert n == 0 || n == 1 || n == 2 || n == 3 || n == 4;
  }

  lemma PointerRanked()
    ensures Ranked(SelfClass(false), _ => 0)
  {
    hide Kids, Forgets;
    forall n | n in SelfClass(false) ensures RankedAt(SelfClass(false), _ => 0, n) {
      PointerKids(n);
    }
  }

  /** With the vector there is no hash; with the pointer there is one. */
  lemma VectorOfItself()
    ensures forall fuel: nat :: HashWithin(SelfClass(true), 0, [], fuel).None?
    ensures exists fuel: nat :: HashWithin(SelfClass(false), 0, [], fuel).Some?
  {
    hide HashWithin, Hash, Walk, Simple, Ranked, Kids;
    VectorRound();
    forall fuel: nat ensures HashWithin(SelfClass(true), 0, [], fuel).None? {
      RoundNeverEnds(SelfClass(true), [0, 2, 3, 4], 0, [], fuel);
    }
    PointerRanked();
    var fuel := EnoughFuel(SelfClass(false), _ => 0, 0, []);
    assert HashWithin(SelfClass(false), 0, [], fuel).Some?;
  }
}
