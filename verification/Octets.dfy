/** Numbers as bit vectors: the low byte of a number, half a byte at a time. */
module Octets {
  function Half(x: nat): bv4
    requires x < 16
  {
    x as bv4
  }

  function Joined(low: bv4, high: bv4): bv8 {
    (low as bv8) | ((high as bv8) << 4)
  }

  function Octet(n: nat): bv8 {
    Joined(Half(n % 16), Half(n / 16 % 16))
  }

  lemma HalfBack(x: nat)
    requires x < 16
    ensures Half(x) as int == x
  {
  }

  lemma SameHalf(x: nat, y: nat)
    requires x < 16 && y < 16 && Half(x) == Half(y)
    ensures x == y
  {
    hide Half;
    HalfBack(x);
    HalfBack(y);
  }

  lemma HalvesApart(a: bv4, b: bv4, a': bv4, b': bv4)
    requires Joined(a, b) == Joined(a', b')
    ensures a == a' && b == b'
  {
  }

  lemma TwoDigits(n: nat)
    ensures n % 256 == n % 16 + 16 * (n / 16 % 16)
    ensures n % 16 == n % 256 % 16 && n / 16 % 16 == n % 256 / 16
  {
    assert n == 256 * (n / 256) + n % 256;
    assert n / 16 == 16 * (n / 256) + n % 256 / 16;
  }

  /** It is the low byte and nothing else. */
  lemma OctetExactly(m: nat, n: nat)
    ensures Octet(m) == Octet(n) <==> m % 256 == n % 256
  {
    hide Half, Joined;
    TwoDigits(m);
    TwoDigits(n);
    if Octet(m) == Octet(n) {
      HalvesApart(Half(m % 16), Half(m / 16 % 16), Half(n % 16), Half(n / 16 % 16));
      SameHalf(m % 16, n % 16);
      SameHalf(m / 16 % 16, n / 16 % 16);
    }
  }
}
