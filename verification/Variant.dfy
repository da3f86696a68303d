/** The compact integers of src/arpc/binary_codecs.h: write_variant and read_variant.

    The writer emits base-128 digits least significant first (unsigned LEB128, section 7.6 of
    DWARF Version 5).  The reader folds the digits most significant first, so it returns the
    digit reversal of what was written.  `Repaired` is the reader that the comment above
    read_variant describes; `AsWritten` is the reader in the source. */
module Variant {
  import opened Results
  import opened Streams

  const SIZE_T_LIMIT: nat := 0x1_0000_0000_0000_0000

  datatype Reader = AsWritten | Repaired

  /** Base-128 digits, least significant first, without leading zeros. */
  function Digits(l: nat): (ds: seq<nat>)
    ensures |ds| > 0
  {
    if l < 128 then [l] else [l % 128] + Digits(l / 128)
  }

  /** The number whose little-endian base-128 digits are `ds`. */
  function Value(ds: seq<nat>): nat {
    if ds == [] then 0 else ds[0] + 128 * Value(ds[1..])
  }

  function Reversed(ds: seq<nat>): (r: seq<nat>)
    ensures |r| == |ds|
    ensures forall i :: 0 <= i < |ds| ==> r[i] == ds[|ds| - 1 - i]
  {
    if ds == [] then [] else Reversed(ds[1..]) + [ds[0]]
  }

  predicate Palindrome(ds: seq<nat>) {
    forall i :: 0 <= i < |ds| ==> ds[i] == ds[|ds| - 1 - i]
  }

  /** What write_variant puts on the stream. */
  function VariantBytes(l: nat): (bs: seq<byte>)
    ensures |bs| > 0
  {
    if l < 128 then [l] else [l % 128 + 128] + VariantBytes(l / 128)
  }

  /** read_variant on a byte string: `acc` is the 64-bit accumulator, `weight` (used by the
      repaired reader only) the weight of the next digit. */
  function Fold(rd: Reader, bs: seq<byte>, acc: nat, weight: nat): Result<(nat, seq<byte>)> {
    if bs == [] then Err(Eof)
    else
      var acc' := Step(rd, acc, weight, bs[0]);
      if bs[0] < 128 then Ok((acc', bs[1..]))
      else Fold(rd, bs[1..], acc', Wrap(weight * 128))
  }

  /** Arithmetic on size_t wraps at 2^64. */
  function Wrap(x: nat): (r: nat)
    ensures r < SIZE_T_LIMIT
    ensures x < SIZE_T_LIMIT ==> r == x
  {
    x % SIZE_T_LIMIT
  }

  function Step(rd: Reader, acc: nat, weight: nat, b: byte): nat {
    match rd
    case AsWritten => Wrap(acc * 128 + b % 128)
    case Repaired => Wrap(acc + b % 128 * weight)
  }

  function ReadVariant(rd: Reader, bs: seq<byte>): Result<(nat, seq<byte>)> {
    Fold(rd, bs, 0, 1)
  }

  /** The numbers that survive a trip through write_variant and the given reader. */
  predicate Readable(rd: Reader, l: nat) {
    l < SIZE_T_LIMIT && (rd.Repaired? || Palindrome(Digits(l)))
  }

  // ----- Digits -----

  ghost predicate IsDigits(ds: seq<nat>) {
    forall i :: 0 <= i < |ds| ==> ds[i] < 128
  }

  function Pow128(n: nat): nat {
    if n == 0 then 1 else 128 * Pow128(n - 1)
  }

  lemma {:induction false} DigitsValue(l: nat)
    ensures IsDigits(Digits(l)) && Value(Digits(l)) == l
    ensures l > 0 ==> Digits(l)[|Digits(l)| - 1] > 0
  {
    if l >= 128 {
      DigitsValue(l / 128);
      assert Digits(l)[1..] == Digits(l / 128);
    }
  }

  lemma {:induction false} ValueBound(ds: seq<nat>)
    requires IsDigits(ds)
    ensures Value(ds) < Pow128(|ds|)
  {
    if ds != [] {
      ValueBound(ds[1..]);
    }
  }

  lemma {:induction false} ValueUnique(a: seq<nat>, b: seq<nat>)
    requires IsDigits(a) && IsDigits(b) && |a| == |b| && Value(a) == Value(b)
    ensures a == b
  {
    if a != [] {
      assert a[0] == Value(a) % 128 == b[0];
      ValueUnique(a[1..], b[1..]);
      assert a == [a[0]] + a[1..] && b == [b[0]] + b[1..];
    }
  }

  lemma {:induction false} ValueSplit(a: seq<nat>, b: seq<nat>)
    ensures Value(a + b) == Value(a) + Pow128(|a|) * Value(b)
  {
    if a == [] {
      assert a + b == b;
    } else {
      ValueSplit(a[1..], b);
      assert (a + b)[1..] == a[1..] + b;
      assert Pow128(|a|) * Value(b) == 128 * (Pow128(|a| - 1) * Value(b));
    }
  }

  lemma {:induction false} ValueLowerBound(ds: seq<nat>)
    requires ds != [] && ds[|ds| - 1] > 0
    ensures Value(ds) >= Pow128(|ds| - 1)
  {
    if |ds| > 1 {
      ValueLowerBound(ds[1..]);
    }
  }

  lemma Pow128Values()
    ensures Pow128(9) == 0x8000_0000_0000_0000
  {
    assert Pow128(3) == 0x20_0000;
    assert Pow128(6) == 128 * 128 * 128 * Pow128(3);
    assert Pow128(9) == 128 * 128 * 128 * Pow128(6);
  }

  lemma {:induction false} Pow128Monotone(m: nat, n: nat)
    requires m <= n
    ensures Pow128(m) <= Pow128(n)
    decreases n
  {
    if m < n {
      Pow128Monotone(m, n - 1);
    }
  }

  /** A 64-bit number has at most ten digits; with ten, the top one is 1. */
  lemma DigitCount(l: nat)
    requires l < SIZE_T_LIMIT
    ensures |Digits(l)| <= 10
    ensures |Digits(l)| == 10 ==> Digits(l)[9] == 1
  {
    var ds := Digits(l);
    DigitsValue(l);
    Pow128Values();
    if l > 0 {
      ValueLowerBound(ds);
      if |ds| > 10 {
        Pow128Monotone(10, |ds| - 1);
        assert false;
      }
      if |ds| == 10 {
        ValueSplit(ds[..9], ds[9..]);
        assert ds == ds[..9] + ds[9..];
        assert ds[9..] == [ds[9]];
        assert Value([ds[9]]) == ds[9];
      }
    }
  }

  lemma {:induction false} VariantBytesLength(l: nat)
    ensures |VariantBytes(l)| == |Digits(l)|
  {
    if l >= 128 {
      VariantBytesLength(l / 128);
    }
  }

  // ----- The reader as written -----

  lemma WrapMultiple(x: nat, k: nat)
    ensures Wrap(x + SIZE_T_LIMIT * k) == Wrap(x)
  {
  }

  lemma WrapMulAdd(a: nat, d: nat)
    ensures Wrap(Wrap(a) * 128 + d) == Wrap(a * 128 + d)
  {
    var q := a / SIZE_T_LIMIT;
    assert a == Wrap(a) + SIZE_T_LIMIT * q;
    assert a * 128 + d == (Wrap(a) * 128 + d) + SIZE_T_LIMIT * (q * 128);
    WrapMultiple(Wrap(a) * 128 + d, q * 128);
  }

  lemma VariantBytesStep(l: nat, tail: seq<byte>)
    requires l >= 128
    ensures var bs := VariantBytes(l) + tail;
      bs[0] >= 128 && bs[0] % 128 == l % 128 && bs[1..] == VariantBytes(l / 128) + tail
  {
  }

  lemma ReversedStep(l: nat, done: seq<nat>)
    requires l >= 128
    ensures Reversed(Digits(l)) + done == Reversed(Digits(l / 128)) + ([l % 128] + done)
  {
    assert Digits(l)[1..] == Digits(l / 128);
  }

  lemma ValuePush(d: nat, done: seq<nat>)
    ensures Value([d] + done) == Value(done) * 128 + d
  {
    assert ([d] + done)[1..] == done;
  }

  lemma {:induction false} FoldAsWritten(l: nat, tail: seq<byte>, acc: nat, done: seq<nat>, w: nat)
    requires acc == Wrap(Value(done))
    ensures Fold(AsWritten, VariantBytes(l) + tail, acc, w)
         == Ok((Wrap(Value(Reversed(Digits(l)) + done)), tail))
    decreases l
  {
    hide Wrap, Value;
    var d := l % 128;
    ValuePush(d, done);
    WrapMulAdd(Value(done), d);
    if l < 128 {
      assert (VariantBytes(l) + tail)[1..] == tail;
      assert Reversed(Digits(l)) == [d];
    } else {
      hide Digits, Reversed, VariantBytes;
      VariantBytesStep(l, tail);
      ReversedStep(l, done);
      FoldAsWritten(l / 128, tail, Wrap(Value([d] + done)), [d] + done, Wrap(w * 128));
    }
  }

  /** read_variant after write_variant yields the digit reversal modulo 2^64 and consumes
      exactly the bytes written, at most ten of them. */
  lemma ReadBackIsDigitReversal(l: nat, tail: seq<byte>)
    requires l < SIZE_T_LIMIT
    ensures ReadVariant(AsWritten, VariantBytes(l) + tail)
         == Ok((Wrap(Value(Reversed(Digits(l)))), tail))
    ensures |VariantBytes(l)| <= 10
  {
    FoldAsWritten(l, tail, 0, [], 1);
    assert Reversed(Digits(l)) + [] == Reversed(Digits(l));
    VariantBytesLength(l);
    DigitCount(l);
  }

  lemma PalindromeIsReversed(ds: seq<nat>)
    ensures Palindrome(ds) <==> Reversed(ds) == ds
  {
    hide Reversed;
    var rs := Reversed(ds);
    if rs == ds {
      assert forall i :: 0 <= i < |ds| ==> ds[i] == rs[i] == ds[|ds| - 1 - i];
    }
  }

  lemma TopDigit(low: nat, d: nat)
    requires low < 0x8000_0000_0000_0000
    ensures Wrap(low + 0x8000_0000_0000_0000 * d) == low + 0x8000_0000_0000_0000 * (d % 2)
  {
    assert low + 0x8000_0000_0000_0000 * d
        == low + 0x8000_0000_0000_0000 * (d % 2) + SIZE_T_LIMIT * (d / 2);
    WrapMultiple(low + 0x8000_0000_0000_0000 * (d % 2), d / 2);
  }

  /** A ten-digit value is its low nine digits plus 2^63 times the tenth. */
  lemma TenDigitValue(ds: seq<nat>)
    requires IsDigits(ds) && |ds| == 10
    ensures Value(ds) == Value(ds[..9]) + 0x8000_0000_0000_0000 * ds[9]
    ensures Value(ds[..9]) < 0x8000_0000_0000_0000
  {
    ValueSplit(ds[..9], ds[9..]);
    assert ds == ds[..9] + ds[9..];
    assert ds[9..] == [ds[9]];
    assert Value([ds[9]]) == ds[9];
    Pow128Values();
    ValueBound(ds[..9]);
  }

  /** Ten digits overflow 64 bits when reversed; equality still forces a palindrome. */
  lemma TenDigitCase(l: nat)
    requires l < SIZE_T_LIMIT && |Digits(l)| == 10
    requires Wrap(Value(Reversed(Digits(l)))) == l
    ensures Palindrome(Digits(l))
  {
    var ds, rs := Digits(l), Reversed(Digits(l));
    hide Digits, Value, Reversed, Wrap;
    DigitsValue(l);
    DigitCount(l);
    TenDigitValue(ds);
    TenDigitValue(rs);
    TopDigit(Value(rs[..9]), ds[0]);
    ValueUnique(rs[..9], ds[..9]);
    assert rs[..9][0] == ds[9] == 1;
    forall i | 0 <= i < 10 ensures ds[i] == ds[9 - i] {
      if i < 9 {
        assert rs[..9][i] == ds[..9][i];
      }
    }
  }

  lemma ShortCase(l: nat)
    requires l < SIZE_T_LIMIT && |Digits(l)| <= 9
    requires Wrap(Value(Reversed(Digits(l)))) == l
    ensures Palindrome(Digits(l))
  {
    var ds, rs := Digits(l), Reversed(Digits(l));
    hide Digits, Value, Reversed, Wrap;
    DigitsValue(l);
    ValueBound(rs);
    Pow128Monotone(|ds|, 9);
    Pow128Values();
    ValueUnique(rs, ds);
    PalindromeIsReversed(ds);
  }

  /** Exactly the numbers whose base-128 digits read the same both ways survive. */
  lemma RoundTripExactlyPalindromes(l: nat, tail: seq<byte>)
    requires l < SIZE_T_LIMIT
    ensures ReadVariant(AsWritten, VariantBytes(l) + tail) == Ok((l, tail))
       <==> Palindrome(Digits(l))
  {
    hide Digits, Value, Reversed, VariantBytes, ReadVariant, Palindrome;
    ReadBackIsDigitReversal(l, tail);
    PalindromeIsReversed(Digits(l));
    DigitsValue(l);
    if Wrap(Value(Reversed(Digits(l)))) == l {
      DigitCount(l);
      if |Digits(l)| == 10 {
        TenDigitCase(l);
      } else {
        ShortCase(l);
      }
    }
  }

  /** The smallest number that does not survive: 128 is read back as 1. */
  lemma SmallestFailure(tail: seq<byte>)
    ensures VariantBytes(128) == [128, 1]
    ensures ReadVariant(AsWritten, [128, 1] + tail) == Ok((1, tail))
    ensures forall l: nat :: l < 128 ==> Readable(AsWritten, l)
    ensures !Readable(AsWritten, 128)
  {
    assert Digits(128) == [0, 1];
    ReadBackIsDigitReversal(128, tail);
    assert Reversed([0, 1]) == [1, 0];
    assert Value([1, 0]) == 1 + 128 * Value([0]);
    assert Digits(128)[0] != Digits(128)[1];
  }

  /** Some numbers on the stream: seven bits a byte, the lowest first, and the high bit says that
      more follow. */
  lemma Examples()
    ensures VariantBytes(0) == [0] && VariantBytes(127) == [127] && VariantBytes(300) == [172, 2]
    ensures VariantBytes(16384) == [128, 128, 1]
  {
    assert VariantBytes(2) == [2] && VariantBytes(128) == [128, 1];
  }

  // ----- The repaired reader -----

  lemma Distribute(d: nat, q: nat, w: nat)
    ensures (d + 128 * q) * w == d * w + q * (128 * w)
  {
  }

  lemma AtLeastOnce(q: nat, big: nat)
    requires q >= 1
    ensures big <= q * big
  {
  }

  lemma DigitStep(l: nat, w: nat)
    requires l >= 128
    ensures l * w == l % 128 * w + l / 128 * (128 * w)
    ensures 128 * w <= l / 128 * (128 * w)
  {
    Distribute(l % 128, l / 128, w);
    AtLeastOnce(l / 128, 128 * w);
  }

  lemma {:induction false} FoldRepaired(l: nat, tail: seq<byte>, acc: nat, w: nat)
    requires 0 < w < SIZE_T_LIMIT && acc + l * w < SIZE_T_LIMIT
    ensures Fold(Repaired, VariantBytes(l) + tail, acc, w) == Ok((acc + l * w, tail))
    decreases l
  {
    hide Wrap;
    var bs := VariantBytes(l) + tail;
    if l < 128 {
      assert bs[1..] == tail;
    } else {
      hide VariantBytes;
      VariantBytesStep(l, tail);
      DigitStep(l, w);
      var d, q := l % 128, l / 128;
      assert Step(Repaired, acc, w, bs[0]) == Wrap(acc + d * w) == acc + d * w;
      assert Wrap(w * 128) == 128 * w;
      FoldRepaired(q, tail, acc + d * w, 128 * w);
    }
  }

  /** Every readable number is read back, by either reader. */
  lemma ReadableRoundTrip(rd: Reader, l: nat, tail: seq<byte>)
    requires Readable(rd, l)
    ensures ReadVariant(rd, VariantBytes(l) + tail) == Ok((l, tail))
  {
    match rd
    case AsWritten => RoundTripExactlyPalindromes(l, tail);
    case Repaired => FoldRepaired(l, tail, 0, 1);
  }

  // ----- Facts about any input -----

  lemma {:induction false} FoldShape(rd: Reader, bs: seq<byte>, acc: nat, w: nat)
    ensures var r := Fold(rd, bs, acc, w);
      match r
      case Ok((v, rest)) => v < SIZE_T_LIMIT && |rest| < |bs| && rest == bs[|bs| - |rest|..]
      case Err(e) => e == Eof
    decreases bs
  {
    if bs != [] && bs[0] >= 128 {
      FoldShape(rd, bs[1..], Step(rd, acc, w, bs[0]), Wrap(w * 128));
    }
  }

  /** On any input the reader consumes at least one byte or runs out. */
  lemma ReadVariantShape(rd: Reader, bs: seq<byte>)
    ensures var r := ReadVariant(rd, bs);
      match r
      case Ok((v, rest)) => v < SIZE_T_LIMIT && |rest| < |bs| && rest == bs[|bs| - |rest|..]
      case Err(e) => e == Eof
  {
    FoldShape(rd, bs, 0, 1);
  }

  // ----- The loops of the source -----

  method WriteVariant(out: OutputStream, l0: nat)
    modifies out
    ensures out.data == old(out.data) + VariantBytes(l0)
  {
    var l := l0;
    ghost var sent: seq<byte> := [];
    while true
      invariant out.data == old(out.data) + sent
      invariant sent + VariantBytes(l) == VariantBytes(l0)
      decreases l
    {
      var o: byte := l % 128;
      ghost var before := l;
      l := l / 128;
      if l != 0 {
        o := o + 128;
      }
      out.Putc(o);
      sent := sent + [o];
      if l == 0 {
        assert VariantBytes(before) == [o];
        break;
      }
      assert VariantBytes(before) == [o] + VariantBytes(l);
    }
  }

  method ReadVariantLoop(rd: Reader, input: InputStream) returns (r: Result<nat>)
    requires input.Valid()
    modifies input
    ensures input.Valid()
    ensures r.Ok? ==> ReadVariant(rd, old(input.Rest())) == Ok((r.value, input.Rest()))
    ensures r.Err? ==> ReadVariant(rd, old(input.Rest())) == Err(r.error)
  {
    var l: nat, weight: nat := 0, 1;
    while true
      invariant input.Valid()
      invariant ReadVariant(rd, old(input.Rest())) == Fold(rd, input.Rest(), l, weight)
      decreases |input.Rest()|
    {
      ghost var rest := input.Rest();
      var o :- input.Getc();
      l := Step(rd, l, weight, o);
      weight := Wrap(weight * 128);
      if o < 128 {
        return Ok(l);
      }
    }
  }
}
