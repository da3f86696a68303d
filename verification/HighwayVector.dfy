/** One hash worked out in full: the 64 bits of "abc" under the key made of the bytes 0 to 31.  It
    fixes what the general theorems leave open: the constants, rotations and merges of
    src/arpc/highway_hash.cpp. */
module HighwayVector {
  import opened Streams
  import opened HighwayHash
  import opened Octets

  const KEY: Quad := Quad(W(0x0706050403020100), W(0x0f0e0d0c0b0a0908), W(0x1716151413121110), W(0x1f1e1d1c1b1a1918))
  const ABC: seq<byte> := [97, 98, 99]

  // The state that update is given, the words it mixes in, and v0 and v1 before its merges.

  const S0: Lanes := Lanes(
    Quad(W(0xdce0d0d4fd4ecf32), W(0xab073531229538db), W(0x040f9f3d10626257), W(0x3b2177979eb911ce)),
    Quad(W(0xc68cf881604784be), W(0x5d37c30ed7fc3c05), W(0x6a33befd1ff8cbc1), W(0xf191c7f23e707359)),
    Quad(W(0xdbe6d5d5fe4cce2f), W(0xa4093822299f31d0), W(0x13198a2e03707344), W(0x243f6a8885a308d3)),
    Quad(W(0x3bd39e10cb0ef593), W(0xc0acf169b5f18a8c), W(0xbe5466cf34e90c6c), W(0x452821e638d01377)))
  const Q0: Quad := Quad(W(0x0000000000000000), W(0x0000000000000000), W(0x0000000000636261), W(0x0000000000000000))
  const M0: Lanes := Lanes(
    Quad(W(0x18b46ee5c85dc4c5), W(0x6bb4269ad886c367), W(0xc264060c454b6ec3), W(0x8049997dd7892545)),
    Quad(W(0xa273ce575e9452ed), W(0x0140fb31019b6dd5), W(0x7d4d492b23cca166), W(0x15d1327ac4137c2c)),
    S1.mul0, S1.mul1)

  const S1: Lanes := Lanes(
    Quad(W(0x05b5c12696f1f623), W(0x0e899a08d4221a68), W(0x2879a7dd8f17e8e6), W(0xfd75e6fa099c5109)),
    Quad(W(0xc582c4e120855b83), W(0x06a9b04b9bbd94a9), W(0x644b31a0cae49bf5), W(0x3ddaabccaab05935)),
    Quad(W(0x8a7c53e6efd9f26b), W(0xa51be5d0edcf2f15), W(0x1388ebe9af8abc0a), W(0x097575315e41b927)),
    Quad(W(0x44f6643351bd9160), W(0xc1a38d8061d0e93b), W(0x9fbea65c990139ad), W(0x57764063ae282f95)))
  const Q1: Quad := Quad(W(0x8f17e8e62879a7dd), W(0x099c5109fd75e6fa), W(0x96f1f62305b5c126), W(0xd4221a680e899a08))
  const M1: Lanes := Lanes(
    Quad(W(0x4aac2559e8af8783), W(0xd02d278935f303a3), W(0xc8384e3a28192293), W(0x54ec275db7c4809e)),
    Quad(W(0xdf1701ae38d8f5cb), W(0xb561e7268702aab8), W(0x0ec613ad80251925), W(0x1b723b66177bac64)),
    S2.mul0, S2.mul1)

  const S2: Lanes := Lanes(
    Quad(W(0x16621abaea87adbb), W(0xafe53f341cf5b22a), W(0xed5367ac3b3e8913), W(0x6350ee09f3402db5)),
    Quad(W(0x9ac6af9353602ab5), W(0xcb8c49d8c6f864d4), W(0x22299cfde7632260), W(0x09278e9405bc5957)),
    Quad(W(0x8b38caf02ed07549), W(0xa2b1532fd28f2ad5), W(0x07ca5a94d2606bfb), W(0x1e357f25f71d888f)),
    Quad(W(0x8e33b46471270f6a), W(0xe79afedc8bcd7609), W(0x9deec035273e7ffa), W(0x44c5f9d6dc638761)))
  const Q2: Quad := Quad(W(0x3b3e8913ed5367ac), W(0xf3402db56350ee09), W(0xea87adbb16621aba), W(0x1cf5b22aafe53f34))
  const M2: Lanes := Lanes(
    Quad(W(0xa495cf1f5baebd25), W(0x97803e10a8c32833), W(0x8b4227e1627d090d), W(0xa816e7e0cfa3b516)),
    Quad(W(0x613e03976f8407aa), W(0x617dcabdfcd87db2), W(0x147ba54dd025a915), W(0x4452bfe4acbf211a)),
    S3.mul0, S3.mul1)

  const S3: Lanes := Lanes(
    Quad(W(0x4ef6d69c5f337a94), W(0xf9327c8e739bc02f), W(0xa086d13407a2eddd), W(0xbc3163028f6302c2)),
    Quad(W(0xf6377dca45b79609), W(0xafadc17e79741a25), W(0xf238927fa1c7ab1c), W(0xe51545e7102255a9)),
    Quad(W(0x82f8de27d718a0cd), W(0x0f0b392e13ad7cfd), W(0xc73cf49d914466e7), W(0x5d31f902de83dd65)),
    Quad(W(0xace0df218519f0b9), W(0xa7de21f0027e9dae), W(0x9a0f9655b48e6613), W(0x73af63fb369736f9)))
  const Q3: Quad := Quad(W(0x07a2eddda086d134), W(0x8f6302c2bc316302), W(0x5f337a944ef6d69c), W(0x739bc02ff9327c8e))
  const M3: Lanes := Lanes(
    Quad(W(0xfbd7b5bde44d6b4d), W(0xa1109e7e761a5ddd), W(0x3a966789bc3153f0), W(0x2fe0c6fdc5fa39bb)),
    Quad(W(0x80d349cfbd57080a), W(0x4e1bfd6f4952fa24), W(0x18a901b18202e89f), W(0xb5e2ff19e7d8af9c)),
    S4.mul0, S4.mul1)

  const S4: Lanes := Lanes(
    Quad(W(0x0625bdd92da4db0a), W(0x21357279736d2d26), W(0xda4c506bbd336d72), W(0x487d70adc5d2eba2)),
    Quad(W(0x8af525057afb8137), W(0x5442229cbbc0d397), W(0x8af16f2ed236965c), W(0x90854c0558ab1b61)),
    Quad(W(0xb89fcae93045e2d5), W(0x486b1200af955305), W(0x96babdba7aff69ab), W(0xf75e221816f56e5d)),
    Quad(W(0xde03fc691bb048fa), W(0x83d6d3bc82ff867d), W(0x882f4bf88c509ee3), W(0xff061504f591deba)))
  const Q4: Quad := Quad(W(0xbd336d72da4c506b), W(0xc5d2eba2487d70ad), W(0x2da4db0a0625bdd9), W(0x736d2d2621357279))
  const M4: Lanes := Lanes(
    Quad(W(0xe429ba4249552404), W(0xa50c4635f66cb3a3), W(0x627b9c6449840c55), W(0x478385b2bb64ca5c)),
    Quad(W(0x00c85d61858db477), W(0x6280203fb3d39749), W(0x4f5107f3535bbde0), W(0xfb509b4390d5fc37)),
    S5.mul0, S5.mul1)

  const S5: Lanes := Lanes(
    Quad(W(0x5b8c6ec2a6e26389), W(0xa5560ecd17401556), W(0x437759b450df4fa8), W(0x96bad7af573abdec)),
    Quad(W(0x8a6dc0b7f470821d), W(0xbdd6ac54c2145960), W(0xf7e757adad3b6d30), W(0x3f3d13016810b08e)),
    Quad(W(0xbbaac82982c9310a), W(0x5f38c3b75ceb5084), W(0xd1ae44a6dbd1350b), W(0xde5d05330b3bef76)),
    Quad(W(0xde3a992ac1c8517e), W(0xdd062194f04b1360), W(0x9ee84f260ac3994c), W(0x48f0c68a773774ae)))

  lemma Mix0()
    ensures MixedAt(S0, Q0, 0) == (M0.v0.a, M0.v1.a, M0.mul0.a, M0.mul1.a)
    ensures MixedAt(S0, Q0, 1) == (M0.v0.b, M0.v1.b, M0.mul0.b, M0.mul1.b)
  {
  }

  lemma MixOn0()
    ensures MixedAt(S0, Q0, 2) == (M0.v0.c, M0.v1.c, M0.mul0.c, M0.mul1.c)
    ensures MixedAt(S0, Q0, 3) == (M0.v0.d, M0.v1.d, M0.mul0.d, M0.mul1.d)
  {
  }

  lemma Update0()
    ensures Update(S0, Q0) == S1
  {
    hide MixedAt;
    Mix0();
    MixOn0();
  }

  lemma Mix1()
    ensures MixedAt(S1, Q1, 0) == (M1.v0.a, M1.v1.a, M1.mul0.a, M1.mul1.a)
    ensures MixedAt(S1, Q1, 1) == (M1.v0.b, M1.v1.b, M1.mul0.b, M1.mul1.b)
  {
  }

  lemma MixOn1()
    ensures MixedAt(S1, Q1, 2) == (M1.v0.c, M1.v1.c, M1.mul0.c, M1.mul1.c)
    ensures MixedAt(S1, Q1, 3) == (M1.v0.d, M1.v1.d, M1.mul0.d, M1.mul1.d)
  {
  }

  lemma Update1()
    ensures Update(S1, Q1) == S2
  {
    hide MixedAt;
    Mix1();
    MixOn1();
  }

  lemma Words1()
    ensures Permuted(S1.v0) == Q1
  {
  }

  lemma Mix2()
    ensures MixedAt(S2, Q2, 0) == (M2.v0.a, M2.v1.a, M2.mul0.a, M2.mul1.a)
    ensures MixedAt(S2, Q2, 1) == (M2.v0.b, M2.v1.b, M2.mul0.b, M2.mul1.b)
  {
  }

  lemma MixOn2()
    ensures MixedAt(S2, Q2, 2) == (M2.v0.c, M2.v1.c, M2.mul0.c, M2.mul1.c)
    ensures MixedAt(S2, Q2, 3) == (M2.v0.d, M2.v1.d, M2.mul0.d, M2.mul1.d)
  {
  }

  lemma Update2()
    ensures Update(S2, Q2) == S3
  {
    hide MixedAt;
    Mix2();
    MixOn2();
  }

  lemma Words2()
    ensures Permuted(S2.v0) == Q2
  {
  }

  lemma Mix3()
    ensures MixedAt(S3, Q3, 0) == (M3.v0.a, M3.v1.a, M3.mul0.a, M3.mul1.a)
    ensures MixedAt(S3, Q3, 1) == (M3.v0.b, M3.v1.b, M3.mul0.b, M3.mul1.b)
  {
  }

  lemma MixOn3()
    ensures MixedAt(S3, Q3, 2) == (M3.v0.c, M3.v1.c, M3.mul0.c, M3.mul1.c)
    ensures MixedAt(S3, Q3, 3) == (M3.v0.d, M3.v1.d, M3.mul0.d, M3.mul1.d)
  {
  }

  lemma Update3()
    ensures Update(S3, Q3) == S4
  {
    hide MixedAt;
    Mix3();
    MixOn3();
  }

  lemma Words3()
    ensures Permuted(S3.v0) == Q3
  {
  }

  lemma Mix4()
    ensures MixedAt(S4, Q4, 0) == (M4.v0.a, M4.v1.a, M4.mul0.a, M4.mul1.a)
    ensures MixedAt(S4, Q4, 1) == (M4.v0.b, M4.v1.b, M4.mul0.b, M4.mul1.b)
  {
  }

  lemma MixOn4()
    ensures MixedAt(S4, Q4, 2) == (M4.v0.c, M4.v1.c, M4.mul0.c, M4.mul1.c)
    ensures MixedAt(S4, Q4, 3) == (M4.v0.d, M4.v1.d, M4.mul0.d, M4.mul1.d)
  {
  }

  lemma Update4()
    ensures Update(S4, Q4) == S5
  {
    hide MixedAt;
    Mix4();
    MixOn4();
  }

  lemma Words4()
    ensures Permuted(S4.v0) == Q4
  {
  }

  const START0: Quad := Quad(W(0xdce0d0d1fd4ecf2f), W(0xab07352e229538d8), W(0x040f9f3a10626254), W(0x3b2177949eb911cb))
  const START1: Quad := Quad(W(0x38d19f10cc08f097), W(0xcba6f861baff8780), W(0xad4677df23ff1978), W(0x5e3238fe27ce0e6b))

  lemma Starts()
    ensures Initial(KEY) == Lanes(START0, START1, MUL0, MUL1)
  {
  }

  lemma Sizes()
    ensures Sized(START0, 3) == S0.v0
  {
  }

  lemma Rotations()
    ensures RotatedQuad(START1, 3) == S0.v1
  {
  }

  lemma Pads()
    ensures Padded(ABC)[..8] == [0, 0, 0, 0, 0, 0, 0, 0] == Padded(ABC)[8..16] == Padded(ABC)[24..]
    ensures Padded(ABC)[16..24] == [97, 98, 99, 0, 0, 0, 0, 0]
  {
  }

  lemma Reads()
    ensures Read64([0, 0, 0, 0, 0, 0, 0, 0]) == W(0) && Read64([97, 98, 99, 0, 0, 0, 0, 0]) == W(0x636261)
  {
    hide Octet;
    Letters();
  }

  lemma Letters()
    ensures Octet(0) == 0 && Octet(97) == 97 && Octet(98) == 98 && Octet(99) == 99
  {
  }

  /** The key, the size, and the three bytes in a packet. */
  lemma Begins()
    ensures Absorbed(Initial(KEY), ABC) == S1
  {
    hide Update, Packets, Padded, RotatedQuad, Sized, Initial, Read64;
    TailShort(ABC);
    Starts();
    Sizes();
    Rotations();
    Pads();
    Reads();
    Update0();
    PacketsNone(Initial(KEY));
  }

  lemma PacketsNone(s: Lanes)
    ensures Packets(s, ABC) == s
  {
  }

  /** The 64-bit hash of "abc". */
  lemma HashOfAbc()
    ensures HashOf(KEY, ABC, Bits64) == [W(0x7fdf90cedfe4682e)]
  {
    hide Update, Absorbed, Initial, Permuted;
    Begins();
    Words1();
    Words2();
    Words3();
    Words4();
    Update1();
    Update2();
    Update3();
    Update4();
    assert Rounds(S5, 0) == S5 && Rounds(S4, 1) == S5 && Rounds(S3, 2) == S5 && Rounds(S2, 3) == S5 && Rounds(S1, 4) == S5;
  }

  /** The reduction of the widest hash: of the upper words the two top bits are dropped, and bits go
      over from one word to the next. */
  lemma ReducedOnce()
    ensures Reduced1(W(0xfedcba9876543210), W(0xc123456789abcdef), W(0x0f1e2d3c4b5a6978)) == W(0x89d5b26d7ea2c51a)
    ensures Reduced0(W(0xc123456789abcdef), W(0x1122334455667788)) == W(0x97e9ac15609edbea)
  {
  }
}
