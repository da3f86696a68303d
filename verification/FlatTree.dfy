/** Sorted-vector containers (src/arpc/container/detail/flat_tree.h, flat_map.h): flat_map,
    flat_set and their multi variants, under any strict weak order on keys.

    The abstract view of a container is, for every key, the list of values stored under keys
    equivalent to it (`Values`): at most one for flat_map, any number for flat_multimap. */
module FlatTree {
  import opened Results

  ghost predicate StrictWeakOrder<K(!new)>(lt: (K, K) -> bool) {
    && (forall a :: !lt(a, a))
    && (forall a, b, c :: lt(a, b) && lt(b, c) ==> lt(a, c))
    && (forall a, b, c :: Equivalent(lt, a, b) && Equivalent(lt, b, c) ==> Equivalent(lt, a, c))
  }

  predicate Equivalent<K>(lt: (K, K) -> bool, a: K, b: K) {
    !lt(a, b) && !lt(b, a)
  }

  ghost predicate Sorted<K, V>(lt: (K, K) -> bool, s: seq<(K, V)>) {
    forall i, j :: 0 <= i < j < |s| ==> !lt(s[j].0, s[i].0)
  }

  ghost predicate StrictlySorted<K, V>(lt: (K, K) -> bool, s: seq<(K, V)>) {
    forall i, j :: 0 <= i < j < |s| ==> lt(s[i].0, s[j].0)
  }

  /** The values under keys equivalent to `key`, in container order. */
  function Values<K, V>(lt: (K, K) -> bool, s: seq<(K, V)>, key: K): seq<V> {
    if s == [] then [] else Own(lt, s[0], key) + Values(lt, s[1..], key)
  }

  function Own<K, V>(lt: (K, K) -> bool, x: (K, V), key: K): seq<V> {
    if Equivalent(lt, x.0, key) then [x.1] else []
  }

  // ----- Order facts, instantiated -----

  lemma EquivalentSymmetric<K>(lt: (K, K) -> bool, a: K, b: K)
    ensures Equivalent(lt, a, b) == Equivalent(lt, b, a)
  {
  }

  lemma Asymmetric<K(!new)>(lt: (K, K) -> bool, a: K, b: K)
    requires StrictWeakOrder(lt)
    ensures !(lt(a, b) && lt(b, a))
  {
  }

  /** Equivalent keys compare alike with every third key. */
  lemma EquivalentCongruent<K(!new)>(lt: (K, K) -> bool, a: K, b: K, c: K)
    requires StrictWeakOrder(lt) && Equivalent(lt, a, b)
    ensures lt(a, c) == lt(b, c) && lt(c, a) == lt(c, b)
    ensures Equivalent(lt, a, c) == Equivalent(lt, b, c)
  {
    assert Equivalent(lt, b, a);
    assert Equivalent(lt, a, c) == Equivalent(lt, b, c);
    assert lt(a, c) && lt(c, b) ==> lt(a, b);
    assert lt(b, c) && lt(c, a) ==> lt(b, a);
  }

  lemma NotLessTransitive<K(!new)>(lt: (K, K) -> bool, a: K, b: K, c: K)
    requires StrictWeakOrder(lt)
    ensures !lt(b, a) && !lt(c, b) ==> !lt(c, a)
    ensures lt(a, b) && !lt(c, b) ==> lt(a, c)
    ensures !lt(b, a) && lt(b, c) ==> lt(a, c)
  {
    if Equivalent(lt, a, b) {
      EquivalentCongruent(lt, a, b, c);
    }
    if Equivalent(lt, b, c) {
      EquivalentCongruent(lt, b, c, a);
    }
  }

  // ----- Values under concatenation -----

  lemma {:induction false} ValuesConcat<K, V>(lt: (K, K) -> bool, a: seq<(K, V)>, b: seq<(K, V)>, key: K)
    ensures Values(lt, a + b, key) == Values(lt, a, key) + Values(lt, b, key)
  {
    if a == [] {
      assert a + b == b;
    } else {
      hide Own;
      ValuesConcat(lt, a[1..], b, key);
      assert (a + b)[1..] == a[1..] + b;
      var own, front, back := Own(lt, a[0], key), Values(lt, a[1..], key), Values(lt, b, key);
      assert own + (front + back) == own + front + back;
    }
  }

  lemma {:induction false} ValuesNone<K, V>(lt: (K, K) -> bool, s: seq<(K, V)>, key: K)
    requires forall i :: 0 <= i < |s| ==> !Equivalent(lt, s[i].0, key)
    ensures Values(lt, s, key) == []
  {
    if s != [] {
      ValuesNone(lt, s[1..], key);
    }
  }

  lemma {:induction false} ValuesAll<K, V>(lt: (K, K) -> bool, s: seq<(K, V)>, key: K)
    requires forall i :: 0 <= i < |s| ==> Equivalent(lt, s[i].0, key)
    ensures |Values(lt, s, key)| == |s|
    ensures forall i :: 0 <= i < |s| ==> Values(lt, s, key)[i] == s[i].1
  {
    if s != [] {
      ValuesAll(lt, s[1..], key);
    }
  }

  lemma {:induction false} ValuesEquivalentKey<K(!new), V>(lt: (K, K) -> bool, s: seq<(K, V)>, a: K, b: K)
    requires StrictWeakOrder(lt) && Equivalent(lt, a, b)
    ensures Values(lt, s, a) == Values(lt, s, b)
  {
    if s != [] {
      EquivalentCongruent(lt, a, b, s[0].0);
      EquivalentSymmetric(lt, s[0].0, a);
      EquivalentSymmetric(lt, s[0].0, b);
      ValuesEquivalentKey(lt, s[1..], a, b);
    }
  }

  lemma ValuesFirst<K, V>(lt: (K, K) -> bool, s: seq<(K, V)>, key: K)
    requires s != [] && Equivalent(lt, s[0].0, key)
    ensures Values(lt, s, key) == [s[0].1] + Values(lt, s[1..], key)
  {
  }

  // ----- Bounds -----

  /** `i` splits `s` into the keys less than `key` and the others. */
  ghost predicate IsLowerBound<K, V>(lt: (K, K) -> bool, s: seq<(K, V)>, key: K, i: nat) {
    && i <= |s|
    && (forall j :: 0 <= j < i ==> lt(s[j].0, key))
    && (forall j :: i <= j < |s| ==> !lt(s[j].0, key))
  }

  ghost predicate IsUpperBound<K, V>(lt: (K, K) -> bool, s: seq<(K, V)>, key: K, i: nat) {
    && i <= |s|
    && (forall j :: 0 <= j < i ==> !lt(key, s[j].0))
    && (forall j :: i <= j < |s| ==> lt(key, s[j].0))
  }

  lemma BoundsOrdered<K(!new), V>(lt: (K, K) -> bool, s: seq<(K, V)>, key: K, lo: nat, hi: nat)
    requires StrictWeakOrder(lt)
    requires IsLowerBound(lt, s, key, lo) && IsUpperBound(lt, s, key, hi)
    ensures lo <= hi
  {
    if hi < lo {
      Asymmetric(lt, key, s[hi].0);
    }
  }

  lemma ValuesSplit<K, V>(lt: (K, K) -> bool, s: seq<(K, V)>, i: nat, key: K)
    requires i <= |s|
    ensures Values(lt, s, key) == Values(lt, s[..i], key) + Values(lt, s[i..], key)
  {
    hide Values;
    assert s == s[..i] + s[i..];
    ValuesConcat(lt, s[..i], s[i..], key);
  }

  lemma ValuesSplit3<K, V>(lt: (K, K) -> bool, s: seq<(K, V)>, lo: nat, hi: nat, key: K)
    requires lo <= hi <= |s|
    ensures Values(lt, s, key) == Values(lt, s[..lo], key) + Values(lt, s[lo..hi], key) + Values(lt, s[hi..], key)
  {
    hide Values;
    var front := s[..hi];
    ValuesSplit(lt, s, hi, key);
    ValuesSplit(lt, front, lo, key);
    assert front[..lo] == s[..lo] && front[lo..] == s[lo..hi];
  }

  /** The bounds delimit exactly the block of equivalent keys. */
  lemma BoundsDelimitBlock<K(!new), V>(lt: (K, K) -> bool, s: seq<(K, V)>, key: K, lo: nat, hi: nat)
    requires StrictWeakOrder(lt)
    requires IsLowerBound(lt, s, key, lo) && IsUpperBound(lt, s, key, hi)
    ensures lo <= hi
    ensures forall k :: 0 <= k < |s| ==> (lo <= k < hi <==> Equivalent(lt, s[k].0, key))
    ensures Values(lt, s, key) == Values(lt, s[lo..hi], key) && |Values(lt, s, key)| == hi - lo
    ensures lo < hi ==> Values(lt, s, key)[0] == s[lo].1
  {
    hide Values;
    BoundsOrdered(lt, s, key, lo, hi);
    assert forall k :: 0 <= k < |s| ==> (lo <= k < hi <==> Equivalent(lt, s[k].0, key));
    ValuesNone(lt, s[..lo], key);
    ValuesNone(lt, s[hi..], key);
    ValuesSplit3(lt, s, lo, hi, key);
    ValuesAll(lt, s[lo..hi], key);
  }

  // ----- Insertion and erasure on sequences -----

  function InsertAt<E>(s: seq<E>, i: nat, x: E): seq<E>
    requires i <= |s|
  {
    s[..i] + [x] + s[i..]
  }

  lemma ValuesInsertAt<K, V>(lt: (K, K) -> bool, s: seq<(K, V)>, i: nat, x: (K, V), key: K)
    requires i <= |s|
    ensures Values(lt, InsertAt(s, i, x), key)
         == Values(lt, s[..i], key) + (if Equivalent(lt, x.0, key) then [x.1] else []) + Values(lt, s[i..], key)
    ensures Values(lt, s, key) == Values(lt, s[..i], key) + Values(lt, s[i..], key)
  {
    ValuesOne(lt, x, key);
    hide Values;
    ValuesConcat(lt, s[..i], [x], key);
    ValuesConcat(lt, s[..i] + [x], s[i..], key);
    ValuesSplit(lt, s, i, key);
  }

  lemma ValuesOne<K, V>(lt: (K, K) -> bool, x: (K, V), key: K)
    ensures Values(lt, [x], key) == if Equivalent(lt, x.0, key) then [x.1] else []
  {
  }

  lemma InsertValuesAt<K(!new), V>(lt: (K, K) -> bool, s: seq<(K, V)>, x: (K, V), i: nat, key: K)
    requires StrictWeakOrder(lt) && IsLowerBound(lt, s, x.0, i)
    ensures Values(lt, InsertAt(s, i, x), key)
         == if Equivalent(lt, x.0, key) then [x.1] + Values(lt, s, x.0) else Values(lt, s, key)
  {
    hide Values, InsertAt, StrictWeakOrder;
    ValuesInsertAt(lt, s, i, x, key);
    if Equivalent(lt, x.0, key) {
      ValuesNone(lt, s[..i], x.0);
      ValuesEquivalentKey(lt, s, x.0, key);
      ValuesEquivalentKey(lt, s[..i], x.0, key);
    }
  }

  /** Inserting at the lower bound puts the value first in its block and touches no other. */
  lemma InsertAtLowerBound<K(!new), V>(lt: (K, K) -> bool, s: seq<(K, V)>, x: (K, V), i: nat)
    requires StrictWeakOrder(lt) && IsLowerBound(lt, s, x.0, i)
    ensures Sorted(lt, s) ==> Sorted(lt, InsertAt(s, i, x))
    ensures StrictlySorted(lt, s) && Values(lt, s, x.0) == [] ==> StrictlySorted(lt, InsertAt(s, i, x))
    ensures forall key :: Values(lt, InsertAt(s, i, x), key)
                       == (if Equivalent(lt, x.0, key) then [x.1] + Values(lt, s, x.0) else Values(lt, s, key))
  {
    hide Values, Sorted, StrictlySorted, Equivalent, StrictWeakOrder;
    forall key ensures Values(lt, InsertAt(s, i, x), key)
                    == (if Equivalent(lt, x.0, key) then [x.1] + Values(lt, s, x.0) else Values(lt, s, key))
    {
      InsertValuesAt(lt, s, x, i, key);
    }
    if Sorted(lt, s) {
      InsertKeepsSorted(lt, s, x, i);
    }
    if StrictlySorted(lt, s) && Values(lt, s, x.0) == [] {
      InsertKeepsStrictlySorted(lt, s, x, i);
    }
  }

  lemma InsertKeepsSorted<K(!new), V>(lt: (K, K) -> bool, s: seq<(K, V)>, x: (K, V), i: nat)
    requires StrictWeakOrder(lt) && IsLowerBound(lt, s, x.0, i) && Sorted(lt, s)
    ensures Sorted(lt, InsertAt(s, i, x))
  {
    forall k | 0 <= k < i ensures !lt(x.0, s[k].0) {
      Asymmetric(lt, x.0, s[k].0);
    }
  }

  lemma {:induction false} ValuesNonEmpty<K, V>(lt: (K, K) -> bool, s: seq<(K, V)>, key: K, i: nat)
    requires i < |s| && Equivalent(lt, s[i].0, key)
    ensures Values(lt, s, key) != []
  {
    if i > 0 {
      ValuesNonEmpty(lt, s[1..], key, i - 1);
    }
  }

  lemma InsertKeepsStrictlySorted<K(!new), V>(lt: (K, K) -> bool, s: seq<(K, V)>, x: (K, V), i: nat)
    requires StrictWeakOrder(lt) && IsLowerBound(lt, s, x.0, i) && StrictlySorted(lt, s)
    requires Values(lt, s, x.0) == []
    ensures StrictlySorted(lt, InsertAt(s, i, x))
  {
    forall k | i <= k < |s| ensures lt(x.0, s[k].0) {
      if !lt(x.0, s[k].0) {
        ValuesNonEmpty(lt, s, x.0, k);
      }
    }
  }

  lemma StrictIsSorted<K(!new), V>(lt: (K, K) -> bool, s: seq<(K, V)>)
    requires StrictWeakOrder(lt) && StrictlySorted(lt, s)
    ensures Sorted(lt, s)
  {
    forall i, j | 0 <= i < j < |s| ensures !lt(s[j].0, s[i].0) {
      Asymmetric(lt, s[i].0, s[j].0);
    }
  }

  lemma EraseValuesAt<K(!new), V>(lt: (K, K) -> bool, s: seq<(K, V)>, key: K, lo: nat, hi: nat, k: K)
    requires StrictWeakOrder(lt) && lo <= hi <= |s|
    requires forall j :: 0 <= j < |s| ==> (lo <= j < hi <==> Equivalent(lt, s[j].0, key))
    ensures Values(lt, s[..lo] + s[hi..], k) == if Equivalent(lt, key, k) then [] else Values(lt, s, k)
  {
    hide Values, StrictWeakOrder;
    ValuesConcat(lt, s[..lo], s[hi..], k);
    ValuesSplit3(lt, s, lo, hi, k);
    if Equivalent(lt, key, k) {
      ValuesNone(lt, s[..lo], key);
      ValuesNone(lt, s[hi..], key);
      ValuesEquivalentKey(lt, s[..lo], key, k);
      ValuesEquivalentKey(lt, s[hi..], key, k);
    } else {
      var block := s[lo..hi];
      forall j | 0 <= j < |block| ensures !Equivalent(lt, block[j].0, k) {
        EquivalentCongruent(lt, s[lo + j].0, key, k);
      }
      ValuesNone(lt, block, k);
    }
  }

  /** Removing the block of a key empties it and touches no other. */
  lemma EraseBlock<K(!new), V>(lt: (K, K) -> bool, s: seq<(K, V)>, key: K, lo: nat, hi: nat)
    requires StrictWeakOrder(lt) && lo <= hi <= |s|
    requires forall j :: 0 <= j < |s| ==> (lo <= j < hi <==> Equivalent(lt, s[j].0, key))
    ensures forall k :: Values(lt, s[..lo] + s[hi..], k) == (if Equivalent(lt, key, k) then [] else Values(lt, s, k))
    ensures Sorted(lt, s) ==> Sorted(lt, s[..lo] + s[hi..])
    ensures StrictlySorted(lt, s) ==> StrictlySorted(lt, s[..lo] + s[hi..])
  {
    hide Values, StrictWeakOrder, Equivalent;
    forall k ensures Values(lt, s[..lo] + s[hi..], k) == if Equivalent(lt, key, k) then [] else Values(lt, s, k) {
      EraseValuesAt(lt, s, key, lo, hi, k);
    }
  }

  // ----- std::sort followed by std::unique -----

  /** std::unique: of every run of equivalent neighbours the first stays. */
  function Unique<K, V>(lt: (K, K) -> bool, s: seq<(K, V)>): seq<(K, V)>
    decreases |s|
  {
    if |s| <= 1 then s
    else if Equivalent(lt, s[0].0, s[1].0) then Unique(lt, [s[0]] + s[2..])
    else [s[0]] + Unique(lt, s[1..])
  }

  ghost function FirstOnly<V>(vs: seq<V>): seq<V> {
    if vs == [] then [] else [vs[0]]
  }

  /** The sorting constructors: the result is strictly sorted and keeps, under every key, the
      value that sorting put first. */
  lemma {:induction false} UniqueOfSorted<K(!new), V>(lt: (K, K) -> bool, s: seq<(K, V)>)
    requires StrictWeakOrder(lt) && Sorted(lt, s)
    ensures StrictlySorted(lt, Unique(lt, s))
    ensures forall key :: Values(lt, Unique(lt, s), key) == FirstOnly(Values(lt, s, key))
    ensures s != [] ==> Unique(lt, s) != [] && Unique(lt, s)[0] == s[0]
    decreases |s|
  {
    if |s| <= 1 {
      forall key ensures Values(lt, s, key) == FirstOnly(Values(lt, s, key)) {
        assert s != [] ==> s[1..] == [];
      }
    } else if Equivalent(lt, s[0].0, s[1].0) {
      var t := [s[0]] + s[2..];
      UniqueOfSorted(lt, t);
      forall key ensures FirstOnly(Values(lt, t, key)) == FirstOnly(Values(lt, s, key)) {
        EquivalentCongruent(lt, s[0].0, s[1].0, key);
        assert t[1..] == s[2..] && s[1..][1..] == s[2..];
      }
    } else {
      var t := s[1..];
      UniqueOfSorted(lt, t);
      var u := Unique(lt, t);
      forall j | 0 <= j < |u| ensures lt(s[0].0, u[j].0) {
        if j > 0 {
          NotLessTransitive(lt, s[0].0, s[1].0, u[j].0);
        }
      }
      forall key ensures Values(lt, [s[0]] + u, key) == FirstOnly(Values(lt, s, key)) {
        assert ([s[0]] + u)[1..] == u;
        if Equivalent(lt, s[0].0, key) {
          forall j | 0 <= j < |u| ensures !Equivalent(lt, u[j].0, key) {
            EquivalentCongruent(lt, s[0].0, key, u[j].0);
            EquivalentSymmetric(lt, u[j].0, key);
          }
          ValuesNone(lt, u, key);
        }
      }
    }
  }

  // ----- Insertion of whole elements, as the decoder uses it -----

  function LowerBoundIndex<E>(lt: (E, E) -> bool, s: seq<E>, x: E): (i: nat)
    ensures i <= |s|
  {
    if s == [] || !lt(s[0], x) then 0 else 1 + LowerBoundIndex(lt, s[1..], x)
  }

  /** insert on a container of unique elements. */
  function InsertUnique<E>(lt: (E, E) -> bool, s: seq<E>, x: E): seq<E> {
    var i := LowerBoundIndex(lt, s, x);
    if i < |s| && Equivalent(lt, s[i], x) then s else InsertAt(s, i, x)
  }

  lemma {:induction false} InsertUniqueAppends<E>(lt: (E, E) -> bool, s: seq<E>, x: E)
    requires forall i :: 0 <= i < |s| ==> lt(s[i], x)
    ensures InsertUnique(lt, s, x) == s + [x]
  {
    LowerBoundIndexEnd(lt, s, x);
  }

  /** Unique insertion into a strictly ascending sequence keeps it strictly ascending. */
  lemma InsertUniqueAscending<E(!new)>(lt: (E, E) -> bool, s: seq<E>, x: E)
    requires StrictWeakOrder(lt) && forall i, j :: 0 <= i < j < |s| ==> lt(s[i], s[j])
    ensures var i, r := LowerBoundIndex(lt, s, x), InsertUnique(lt, s, x);
      && (if exists k :: 0 <= k < |s| && Equivalent(lt, s[k], x) then r == s else r == s[..i] + [x] + s[i..])
      && forall i, j :: 0 <= i < j < |r| ==> lt(r[i], r[j])
  {
    var k, r := LowerBoundIndex(lt, s, x), InsertUnique(lt, s, x);
    LowerBoundIndexDelimits(lt, s, x);
    assert forall m :: k < m < |s| ==> lt(s[k], s[m]);
    if r != s {
      forall i, j | 0 <= i < j < |r| ensures lt(r[i], r[j]) {
        if i < k == j {
        } else if i == k {
          if j > k + 1 {
            assert lt(s[k], s[j - 1]);
          }
        }
      }
    }
  }

  lemma {:induction false} LowerBoundIndexDelimits<E(!new)>(lt: (E, E) -> bool, s: seq<E>, x: E)
    requires StrictWeakOrder(lt)
    ensures var k := LowerBoundIndex(lt, s, x);
      && (forall i :: 0 <= i < k ==> lt(s[i], x))
      && (k < |s| ==> !lt(s[k], x))
  {
    if s != [] && lt(s[0], x) {
      LowerBoundIndexDelimits(lt, s[1..], x);
      var k := LowerBoundIndex(lt, s[1..], x);
      forall i | 0 <= i < k + 1 ensures lt(s[i], x) {
        if i > 0 {
          assert s[i] == s[1..][i - 1];
        }
      }
    }
  }

  lemma {:induction false} LowerBoundIndexEnd<E>(lt: (E, E) -> bool, s: seq<E>, x: E)
    requires forall i :: 0 <= i < |s| ==> lt(s[i], x)
    ensures LowerBoundIndex(lt, s, x) == |s|
  {
    if s != [] {
      LowerBoundIndexEnd(lt, s[1..], x);
    }
  }

  // ----- The container -----

  class FlatTree<K(!new), V> {
    const lt: (K, K) -> bool
    const multipleAllowed: bool
    var data: seq<(K, V)>

    ghost predicate Valid()
      reads this
    {
      StrictWeakOrder(lt) && Sorted(lt, data) && (multipleAllowed || StrictlySorted(lt, data))
    }

    ghost function Under(key: K): seq<V>
      reads this
    {
      Values(lt, data, key)
    }

    constructor (lt: (K, K) -> bool, multipleAllowed: bool)
      requires StrictWeakOrder(lt)
      ensures Valid() && data == [] && this.lt == lt && this.multipleAllowed == multipleAllowed
    {
      this.lt := lt;
      this.multipleAllowed := multipleAllowed;
      data := [];
    }

    /** Construction or assignment from a range.  `sorted` is the outcome of std::sort, which
        may leave equivalent elements in any order. */
    constructor FromRange(lt: (K, K) -> bool, multipleAllowed: bool, sorted: seq<(K, V)>)
      requires StrictWeakOrder(lt) && Sorted(lt, sorted)
      ensures Valid() && this.lt == lt && this.multipleAllowed == multipleAllowed
      ensures forall key :: Values(lt, data, key)
                         == (if multipleAllowed then Values(lt, sorted, key) else FirstOnly(Values(lt, sorted, key)))
    {
      this.lt := lt;
      this.multipleAllowed := multipleAllowed;
      data := if multipleAllowed then sorted else Unique(lt, sorted);
      new;
      UniqueOfSorted(lt, sorted);
      if !multipleAllowed {
        StrictIsSorted(lt, data);
      }
    }

    method LowerBound(key: K) returns (i: nat)
      requires Valid()
      ensures IsLowerBound(lt, data, key, i)
    {
      var hi := |data|;
      i := 0;
      while i < hi
        invariant i <= hi <= |data|
        invariant forall j :: 0 <= j < i ==> lt(data[j].0, key)
        invariant forall j :: hi <= j < |data| ==> !lt(data[j].0, key)
      {
        var mid := (i + hi) / 2;
        forall j | 0 <= j < |data|
          ensures j <= mid && lt(data[mid].0, key) ==> lt(data[j].0, key)
          ensures j >= mid && !lt(data[mid].0, key) ==> !lt(data[j].0, key)
        {
          NotLessTransitive(lt, data[j].0, data[mid].0, key);
          NotLessTransitive(lt, key, data[mid].0, data[j].0);
        }
        if lt(data[mid].0, key) {
          i := mid + 1;
        } else {
          hi := mid;
        }
      }
    }

    method UpperBound(key: K) returns (i: nat)
      requires Valid()
      ensures IsUpperBound(lt, data, key, i)
    {
      var hi := |data|;
      i := 0;
      while i < hi
        invariant i <= hi <= |data|
        invariant forall j :: 0 <= j < i ==> !lt(key, data[j].0)
        invariant forall j :: hi <= j < |data| ==> lt(key, data[j].0)
      {
        var mid := (i + hi) / 2;
        forall j | 0 <= j < |data|
          ensures j <= mid && !lt(key, data[mid].0) ==> !lt(key, data[j].0)
          ensures j >= mid && lt(key, data[mid].0) ==> lt(key, data[j].0)
        {
          NotLessTransitive(lt, key, data[mid].0, data[j].0);
          NotLessTransitive(lt, data[j].0, data[mid].0, key);
        }
        if !lt(key, data[mid].0) {
          i := mid + 1;
        } else {
          hi := mid;
        }
      }
    }

    /** insert: at the lower bound; with unique keys an equivalent element wins over the new
        one. */
    method Insert(key: K, value: V) returns (pos: nat, inserted: bool)
      requires Valid()
      modifies this
      ensures Valid() && pos < |data| && Equivalent(lt, data[pos].0, key)
      ensures pos <= |old(data)|
      ensures inserted == (multipleAllowed || old(Under(key)) == [])
      ensures !inserted ==> data == old(data) && Under(key) == [data[pos].1]
      ensures inserted ==> data == InsertAt(old(data), pos, (key, value))
      ensures inserted ==> forall k ::
        Under(k) == if Equivalent(lt, key, k) then [value] + old(Under(key)) else old(Under(k))
    {
      pos := LowerBound(key);
      BlockAtLowerBound(key, pos);
      if !multipleAllowed && pos < |data| && Equivalent(lt, data[pos].0, key) {
        return pos, false;
      }
      InsertAtLowerBound(lt, data, (key, value), pos);
      data := InsertAt(data, pos, (key, value));
      if !multipleAllowed {
        StrictIsSorted(lt, data);
      }
      inserted := true;
    }

    /** What the element at the lower bound says about the block of `key`. */
    lemma BlockAtLowerBound(key: K, i: nat)
      requires Valid() && IsLowerBound(lt, data, key, i)
      ensures Under(key) == [] <==> i == |data| || !Equivalent(lt, data[i].0, key)
      ensures Under(key) != [] ==> Under(key)[0] == data[i].1
      ensures !multipleAllowed && Under(key) != [] ==> Under(key) == [data[i].1]
    {
      hide Values, StrictWeakOrder;
      var before, after := data[..i], data[i..];
      ValuesSplit3(lt, data, i, i, key);
      ValuesNone(lt, before, key);
      ValuesNone(lt, data[i..i], key);
      if i == |data| || !Equivalent(lt, data[i].0, key) {
        forall j | 0 <= j < |after| ensures !Equivalent(lt, after[j].0, key) {
          NotLessTransitive(lt, key, after[0].0, after[j].0);
        }
        ValuesNone(lt, after, key);
      } else {
        ValuesFirst(lt, after, key);
        if !multipleAllowed {
          var rest := after[1..];
          forall j | 0 <= j < |rest| ensures !Equivalent(lt, rest[j].0, key) {
            EquivalentCongruent(lt, after[0].0, key, rest[j].0);
          }
          ValuesNone(lt, rest, key);
        }
      }
    }

    /** erase(key): the whole block of equivalent keys goes. */
    method EraseKey(key: K) returns (removed: nat)
      requires Valid()
      modifies this
      ensures Valid() && removed == |old(Under(key))|
      ensures forall k :: Under(k) == if Equivalent(lt, key, k) then [] else old(Under(k))
      ensures exists lo: nat, hi: nat :: IsLowerBound(lt, old(data), key, lo) && IsUpperBound(lt, old(data), key, hi)
                                           && lo <= hi && data == old(data)[..lo] + old(data)[hi..]
    {
      hide Values, StrictWeakOrder, Equivalent;
      var lo := LowerBound(key);
      var hi := UpperBound(key);
      BoundsDelimitBlock(lt, data, key, lo, hi);
      EraseBlock(lt, data, key, lo, hi);
      removed := hi - lo;
      data := data[..lo] + data[hi..];
    }

    method Count(key: K) returns (n: nat)
      requires Valid()
      ensures n == |Under(key)|
    {
      var lo := LowerBound(key);
      var hi := UpperBound(key);
      BoundsDelimitBlock(lt, data, key, lo, hi);
      n := hi - lo;
    }

    /** find: the position of the first equivalent element, or the end. */
    method Find(key: K) returns (i: nat)
      requires Valid()
      ensures Under(key) == [] ==> i == |data|
      ensures Under(key) != [] ==>
        i < |data| && Equivalent(lt, data[i].0, key) && IsLowerBound(lt, data, key, i) && data[i].1 == Under(key)[0]
    {
      i := LowerBound(key);
      BlockAtLowerBound(key, i);
      if i < |data| && Equivalent(lt, data[i].0, key) {
        return i;
      }
      i := |data|;
    }

    /** flat_map::at. */
    method At(key: K) returns (r: Result<V>)
      requires Valid()
      ensures r == if Under(key) == [] then Err(OutOfRange) else Ok(Under(key)[0])
    {
      var i := Find(key);
      if i == |data| {
        return Err(OutOfRange);
      }
      return Ok(data[i].1);
    }

    /** flat_map::operator[]: finds the value, inserting `initial` (T()) when absent. */
    method Index(key: K, initial: V) returns (i: nat)
      requires Valid() && !multipleAllowed
      modifies this
      ensures Valid() && i < |data| && Equivalent(lt, data[i].0, key)
      ensures forall k ::
        Under(k) == if Equivalent(lt, key, k) && old(Under(key)) == [] then [initial] else old(Under(k))
      ensures Under(key) == [data[i].1]
    {
      i := LowerBound(key);
      BlockAtLowerBound(key, i);
      if i < |data| && Equivalent(lt, data[i].0, key) {
        return i;
      }
      InsertAtLowerBound(lt, data, (key, initial), i);
      data := InsertAt(data, i, (key, initial));
      StrictIsSorted(lt, data);
      assert Equivalent(lt, key, key);
    }
  }
}
