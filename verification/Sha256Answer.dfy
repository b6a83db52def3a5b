/** Known answers: what the words of SHA-256 mean as numbers, where the constants of FIPS 180-4 come from,
    and the example of the standard, the digest of the three letters "abc". */
module Sha256Answer {
  import opened Sha256
  import opened Sha256Spec

  // ----- Words as numbers -----

  /** One byte more at the lower end. */
  function Joined(h: Word, l: Byte): Word {
    (h << 8) | l as Word
  }

  lemma ShiftedValue(h: Word, l: Byte)
    requires h < 0x100_0000
    ensures ((h << 8) | l as Word) as int == h as int * 0x100 + l as int
  {
  }

  /** Words and bytes as numbers. */
  function Value(x: Word): int {
    x as int
  }

  function ByteValue(x: Byte): int {
    x as int
  }

  lemma JoinedValue(h: Word, l: Byte)
    requires h < 0x100_0000
    ensures Value(Joined(h, l)) == Value(h) * 0x100 + ByteValue(l)
  {
    ShiftedValue(h, l);
    assert Joined(h, l) == (h << 8) | l as Word;
  }

  lemma JoinedParts(p: Byte, q: Byte, r: Byte, s: Byte)
    ensures Joined(p as Word, q) < 0x1_0000 && Joined(Joined(p as Word, q), r) < 0x100_0000
    ensures (p as Word << 24) | (q as Word << 16) | (r as Word << 8) | s as Word == Joined(Joined(Joined(p as Word, q), r), s)
  {
  }

  lemma WidenedValue(p: Byte)
    ensures p as Word < 0x100 && Value(p as Word) == ByteValue(p)
  {
  }

  lemma PackedValue(p: Byte, q: Byte, r: Byte, s: Byte)
    ensures Value((p as Word << 24) | (q as Word << 16) | (r as Word << 8) | s as Word) ==
      ((ByteValue(p) * 0x100 + ByteValue(q)) * 0x100 + ByteValue(r)) * 0x100 + ByteValue(s)
  {
    hide Joined, Value, ByteValue;
    WidenedValue(p);
    JoinedParts(p, q, r, s);
    JoinedValue(p as Word, q);
    JoinedValue(Joined(p as Word, q), r);
    JoinedValue(Joined(Joined(p as Word, q), r), s);
  }

  /** Four bytes are read as the digits of a number to the base 256, most significant first. */
  lemma PackValue(b: seq<Byte>, at: nat)
    requires at + 4 <= |b|
    ensures Value(Pack(b, at)) ==
      ((ByteValue(b[at]) * 0x100 + ByteValue(b[at + 1])) * 0x100 + ByteValue(b[at + 2])) * 0x100 + ByteValue(b[at + 3])
  {
    hide Value, ByteValue;
    PackedValue(b[at], b[at + 1], b[at + 2], b[at + 3]);
  }

  /** Writing a word undoes reading it. */
  lemma UnpackPack(b: seq<Byte>, at: nat)
    requires at + 4 <= |b|
    ensures Unpack(Pack(b, at)) == b[at..at + 4]
  {
    var (p, q, r, s) := (b[at], b[at + 1], b[at + 2], b[at + 3]);
    assert b[at..at + 4] == [p, q, r, s];
  }

  // ----- The constants -----

  /** The bits of `k` are the first 32 bits behind the point of the cube root of `p`. */
  ghost predicate CubeRootBits(p: nat, k: Word) {
    exists x: nat :: CubeRootFrom(p, x, k)
  }

  predicate CubeRootFrom(p: nat, x: nat, k: Word) {
    x % 0x1_0000_0000 == k as int && x * x * x <= p * 0x1_00000000_00000000_00000000 < (x + 1) * (x + 1) * (x + 1)
  }

  /** The bits of `k` are the first 32 bits behind the point of the square root of `p`. */
  ghost predicate SquareRootBits(p: nat, k: Word) {
    exists x: nat :: SquareRootFrom(p, x, k)
  }

  predicate SquareRootFrom(p: nat, x: nat, k: Word) {
    x % 0x1_0000_0000 == k as int && x * x <= p * 0x1_00000000_00000000 < (x + 1) * (x + 1)
  }

  /** The first 64 prime numbers. */
  function Primes(): (p: seq<nat>)
    ensures |p| == 64
  {
    Primes0() + Primes1() + Primes2() + Primes3()
  }

  function Primes0(): (p: seq<nat>)
    ensures |p| == 16
  {
    [2, 3, 5, 7, 11, 13, 17, 19, 23, 29, 31, 37, 41, 43, 47, 53]
  }

  function Primes1(): (p: seq<nat>)
    ensures |p| == 16
  {
    [59, 61, 67, 71, 73, 79, 83, 89, 97, 101, 103, 107, 109, 113, 127, 131]
  }

  function Primes2(): (p: seq<nat>)
    ensures |p| == 16
  {
    [137, 139, 149, 151, 157, 163, 167, 173, 179, 181, 191, 193, 197, 199, 211, 223]
  }

  function Primes3(): (p: seq<nat>)
    ensures |p| == 16
  {
    [227, 229, 233, 239, 241, 251, 257, 263, 269, 271, 277, 281, 283, 293, 307, 311]
  }

  lemma Constants0()
    ensures forall i | 0 <= i < 4 :: CubeRootBits(Primes0()[i], K0()[i])
  {
    assert CubeRootFrom(2, 0x1_428a2f98, 0x428a2f98);
    assert CubeRootFrom(3, 0x1_71374491, 0x71374491);
    assert CubeRootFrom(5, 0x1_b5c0fbcf, 0xb5c0fbcf);
    assert CubeRootFrom(7, 0x1_e9b5dba5, 0xe9b5dba5);
  }

  lemma Constants1()
    ensures forall i | 4 <= i < 8 :: CubeRootBits(Primes0()[i], K0()[i])
  {
    assert CubeRootFrom(11, 0x2_3956c25b, 0x3956c25b);
    assert CubeRootFrom(13, 0x2_59f111f1, 0x59f111f1);
    assert CubeRootFrom(17, 0x2_923f82a4, 0x923f82a4);
    assert CubeRootFrom(19, 0x2_ab1c5ed5, 0xab1c5ed5);
  }

  lemma Constants2()
    ensures forall i | 8 <= i < 12 :: CubeRootBits(Primes0()[i], K0()[i])
  {
    assert CubeRootFrom(23, 0x2_d807aa98, 0xd807aa98);
    assert CubeRootFrom(29, 0x3_12835b01, 0x12835b01);
    assert CubeRootFrom(31, 0x3_243185be, 0x243185be);
    assert CubeRootFrom(37, 0x3_550c7dc3, 0x550c7dc3);
  }

  lemma Constants3()
    ensures forall i | 12 <= i < 16 :: CubeRootBits(Primes0()[i], K0()[i])
  {
    assert CubeRootFrom(41, 0x3_72be5d74, 0x72be5d74);
    assert CubeRootFrom(43, 0x3_80deb1fe, 0x80deb1fe);
    assert CubeRootFrom(47, 0x3_9bdc06a7, 0x9bdc06a7);
    assert CubeRootFrom(53, 0x3_c19bf174, 0xc19bf174);
  }

  lemma Constants4()
    ensures forall i | 0 <= i < 4 :: CubeRootBits(Primes1()[i], K1()[i])
  {
    assert CubeRootFrom(59, 0x3_e49b69c1, 0xe49b69c1);
    assert CubeRootFrom(61, 0x3_efbe4786, 0xefbe4786);
    assert CubeRootFrom(67, 0x4_0fc19dc6, 0x0fc19dc6);
    assert CubeRootFrom(71, 0x4_240ca1cc, 0x240ca1cc);
  }

  lemma Constants5()
    ensures forall i | 4 <= i < 8 :: CubeRootBits(Primes1()[i], K1()[i])
  {
    assert CubeRootFrom(73, 0x4_2de92c6f, 0x2de92c6f);
    assert CubeRootFrom(79, 0x4_4a7484aa, 0x4a7484aa);
    assert CubeRootFrom(83, 0x4_5cb0a9dc, 0x5cb0a9dc);
    assert CubeRootFrom(89, 0x4_76f988da, 0x76f988da);
  }

  lemma Constants6()
    ensures forall i | 8 <= i < 12 :: CubeRootBits(Primes1()[i], K1()[i])
  {
    assert CubeRootFrom(97, 0x4_983e5152, 0x983e5152);
    assert CubeRootFrom(101, 0x4_a831c66d, 0xa831c66d);
    assert CubeRootFrom(103, 0x4_b00327c8, 0xb00327c8);
    assert CubeRootFrom(107, 0x4_bf597fc7, 0xbf597fc7);
  }

  lemma Constants7()
    ensures forall i | 12 <= i < 16 :: CubeRootBits(Primes1()[i], K1()[i])
  {
    assert CubeRootFrom(109, 0x4_c6e00bf3, 0xc6e00bf3);
    assert CubeRootFrom(113, 0x4_d5a79147, 0xd5a79147);
    assert CubeRootFrom(127, 0x5_06ca6351, 0x06ca6351);
    assert CubeRootFrom(131, 0x5_14292967, 0x14292967);
  }

  lemma Constants8()
    ensures forall i | 0 <= i < 4 :: CubeRootBits(Primes2()[i], K2()[i])
  {
    assert CubeRootFrom(137, 0x5_27b70a85, 0x27b70a85);
    assert CubeRootFrom(139, 0x5_2e1b2138, 0x2e1b2138);
    assert CubeRootFrom(149, 0x5_4d2c6dfc, 0x4d2c6dfc);
    assert CubeRootFrom(151, 0x5_53380d13, 0x53380d13);
  }

  lemma Constants9()
    ensures forall i | 4 <= i < 8 :: CubeRootBits(Primes2()[i], K2()[i])
  {
    assert CubeRootFrom(157, 0x5_650a7354, 0x650a7354);
    assert CubeRootFrom(163, 0x5_766a0abb, 0x766a0abb);
    assert CubeRootFrom(167, 0x5_81c2c92e, 0x81c2c92e);
    assert CubeRootFrom(173, 0x5_92722c85, 0x92722c85);
  }

  lemma Constants10()
    ensures forall i | 8 <= i < 12 :: CubeRootBits(Primes2()[i], K2()[i])
  {
    assert CubeRootFrom(179, 0x5_a2bfe8a1, 0xa2bfe8a1);
    assert CubeRootFrom(181, 0x5_a81a664b, 0xa81a664b);
    assert CubeRootFrom(191, 0x5_c24b8b70, 0xc24b8b70);
    assert CubeRootFrom(193, 0x5_c76c51a3, 0xc76c51a3);
  }

  lemma Constants11()
    ensures forall i | 12 <= i < 16 :: CubeRootBits(Primes2()[i], K2()[i])
  {
    assert CubeRootFrom(197, 0x5_d192e819, 0xd192e819);
    assert CubeRootFrom(199, 0x5_d6990624, 0xd6990624);
    assert CubeRootFrom(211, 0x5_f40e3585, 0xf40e3585);
    assert CubeRootFrom(223, 0x6_106aa070, 0x106aa070);
  }

  lemma Constants12()
    ensures forall i | 0 <= i < 4 :: CubeRootBits(Primes3()[i], K3()[i])
  {
    assert CubeRootFrom(227, 0x6_19a4c116, 0x19a4c116);
    assert CubeRootFrom(229, 0x6_1e376c08, 0x1e376c08);
    assert CubeRootFrom(233, 0x6_2748774c, 0x2748774c);
    assert CubeRootFrom(239, 0x6_34b0bcb5, 0x34b0bcb5);
  }

  lemma Constants13()
    ensures forall i | 4 <= i < 8 :: CubeRootBits(Primes3()[i], K3()[i])
  {
    assert CubeRootFrom(241, 0x6_391c0cb3, 0x391c0cb3);
    assert CubeRootFrom(251, 0x6_4ed8aa4a, 0x4ed8aa4a);
    assert CubeRootFrom(257, 0x6_5b9cca4f, 0x5b9cca4f);
    assert CubeRootFrom(263, 0x6_682e6ff3, 0x682e6ff3);
  }

  lemma Constants14()
    ensures forall i | 8 <= i < 12 :: CubeRootBits(Primes3()[i], K3()[i])
  {
    assert CubeRootFrom(269, 0x6_748f82ee, 0x748f82ee);
    assert CubeRootFrom(271, 0x6_78a5636f, 0x78a5636f);
    assert CubeRootFrom(277, 0x6_84c87814, 0x84c87814);
    assert CubeRootFrom(281, 0x6_8cc70208, 0x8cc70208);
  }

  lemma Constants15()
    ensures forall i | 12 <= i < 16 :: CubeRootBits(Primes3()[i], K3()[i])
  {
    assert CubeRootFrom(283, 0x6_90befffa, 0x90befffa);
    assert CubeRootFrom(293, 0x6_a4506ceb, 0xa4506ceb);
    assert CubeRootFrom(307, 0x6_bef9a3f7, 0xbef9a3f7);
    assert CubeRootFrom(311, 0x6_c67178f2, 0xc67178f2);
  }

  /** Each of the 64 constants is the fraction of the cube root of its prime. */
  lemma ConstantsAreCubeRoots(t: nat)
    requires t < 64
    ensures CubeRootBits(Primes()[t], K(t))
  {
    hide CubeRootBits, K0, K1, K2, K3, Primes0, Primes1, Primes2, Primes3;
    Constants0();
    Constants1();
    Constants2();
    Constants3();
    Constants4();
    Constants5();
    Constants6();
    Constants7();
    Constants8();
    Constants9();
    Constants10();
    Constants11();
    Constants12();
    Constants13();
    Constants14();
    Constants15();
    PrimeParts(t);
  }

  lemma PrimeParts(t: nat)
    requires t < 64
    ensures Primes()[t] == if t < 16 then Primes0()[t] else if t < 32 then Primes1()[t - 16] else if t < 48 then Primes2()[t - 32] else Primes3()[t - 48]
  {
    hide Primes0, Primes1, Primes2, Primes3;
  }

  /** The words of the initial hash are the fractions of the square roots of the first eight primes. */
  lemma InitialHashIsSquareRoots()
    ensures forall i | 0 <= i < 8 :: SquareRootBits(Primes0()[i], InitialHash()[i])
  {
    assert SquareRootFrom(2, 0x1_6a09e667, 0x6a09e667);
    assert SquareRootFrom(3, 0x1_bb67ae85, 0xbb67ae85);
    assert SquareRootFrom(5, 0x2_3c6ef372, 0x3c6ef372);
    assert SquareRootFrom(7, 0x2_a54ff53a, 0xa54ff53a);
    assert SquareRootFrom(11, 0x3_510e527f, 0x510e527f);
    assert SquareRootFrom(13, 0x3_9b05688c, 0x9b05688c);
    assert SquareRootFrom(17, 0x4_1f83d9ab, 0x1f83d9ab);
    assert SquareRootFrom(19, 0x4_5be0cd19, 0x5be0cd19);
  }

  // ----- The example of the standard -----

  /** The only block of the padded message "abc". */
  predicate AbcBlock(b: seq<Byte>) {
    && |b| == 64 && b[..4] == [0x61, 0x62, 0x63, 0x80] && b[63] == 0x18
    && forall i | 4 <= i < 63 :: b[i] == 0
  }

  lemma AbcPadded()
    ensures AbcBlock(Pad([0x61, 0x62, 0x63]))
  {
    var m: seq<Byte> := [0x61, 0x62, 0x63];
    var (lo, hi) := (CountBytes(8 * |m| % 0x1_0000_0000), CountBytes(8 * |m| / 0x1_0000_0000));
    assert 8 * |m| == 24;
    assert PadZeros(3) == 52;
    assert Octets(24) == [0, 0, 0, 24] && Octets(0) == [0, 0, 0, 0];
    var p := Pad(m);
    assert p == m + [0x80] + Zeros(52) + hi + lo;
    forall i | 4 <= i < 63 ensures p[i] == 0 {
    }
  }

  lemma ScheduleUnfold(b: seq<Byte>, t: nat)
    requires |b| == 64 && 16 <= t < 64
    ensures Schedule(b, t) == Add(Add(Add(SmallSigma1(Schedule(b, t - 2)), Schedule(b, t - 7)),
                                      SmallSigma0(Schedule(b, t - 15))), Schedule(b, t - 16))
  {
    hide Add, SmallSigma0, SmallSigma1, Pack;
  }

  lemma FirstWords(b: seq<Byte>)
    requires AbcBlock(b)
    ensures Schedule(b, 0) == 0x61626380 && Schedule(b, 15) == 0x18
    ensures forall t | 1 <= t < 15 :: Schedule(b, t) == 0
  {
    assert b[0] == b[..4][0] && b[1] == b[..4][1] && b[2] == b[..4][2] && b[3] == b[..4][3];
    forall t | 1 <= t < 15 ensures Schedule(b, t) == 0 {
      assert b[4 * t] == 0 && b[4 * t + 1] == 0 && b[4 * t + 2] == 0 && b[4 * t + 3] == 0;
    }
  }

  lemma Words0(b: seq<Byte>)
    requires AbcBlock(b)
    ensures Schedule(b, 0) == 0x61626380 && Schedule(b, 1) == 0x00000000
    ensures Schedule(b, 2) == 0x00000000 && Schedule(b, 3) == 0x00000000
    ensures Schedule(b, 4) == 0x00000000 && Schedule(b, 5) == 0x00000000
    ensures Schedule(b, 6) == 0x00000000 && Schedule(b, 7) == 0x00000000
  {
    hide Schedule, AbcBlock;
    BlockSize(b);
    FirstWords(b);
  }

  lemma Words8(b: seq<Byte>)
    requires AbcBlock(b)
    ensures Schedule(b, 8) == 0x00000000 && Schedule(b, 9) == 0x00000000
    ensures Schedule(b, 10) == 0x00000000 && Schedule(b, 11) == 0x00000000
    ensures Schedule(b, 12) == 0x00000000 && Schedule(b, 13) == 0x00000000
    ensures Schedule(b, 14) == 0x00000000 && Schedule(b, 15) == 0x00000018
  {
    hide Schedule, AbcBlock;
    BlockSize(b);
    FirstWords(b);
  }

  lemma Words16(b: seq<Byte>)
    requires AbcBlock(b)
    ensures Schedule(b, 16) == 0x61626380 && Schedule(b, 17) == 0x000f0000
    ensures Schedule(b, 18) == 0x7da86405 && Schedule(b, 19) == 0x600003c6
    ensures Schedule(b, 20) == 0x3e9d7b78 && Schedule(b, 21) == 0x0183fc00
    ensures Schedule(b, 22) == 0x12dcbfdb && Schedule(b, 23) == 0xe2e2c38e
  {
    hide Schedule, AbcBlock;
    BlockSize(b);
    Words8(b);
    Words0(b);
    ScheduleUnfold(b, 16);
    ScheduleUnfold(b, 17);
    ScheduleUnfold(b, 18);
    ScheduleUnfold(b, 19);
    ScheduleUnfold(b, 20);
    ScheduleUnfold(b, 21);
    ScheduleUnfold(b, 22);
    ScheduleUnfold(b, 23);
  }

  lemma Words24(b: seq<Byte>)
    requires AbcBlock(b)
    ensures Schedule(b, 24) == 0xc8215c1a && Schedule(b, 25) == 0xb73679a2
    ensures Schedule(b, 26) == 0xe5bc3909 && Schedule(b, 27) == 0x32663c5b
    ensures Schedule(b, 28) == 0x9d209d67 && Schedule(b, 29) == 0xec8726cb
    ensures Schedule(b, 30) == 0x702138a4 && Schedule(b, 31) == 0xd3b7973b
  {
    hide Schedule, AbcBlock;
    BlockSize(b);
    Words16(b);
    Words8(b);
    ScheduleUnfold(b, 24);
    ScheduleUnfold(b, 25);
    ScheduleUnfold(b, 26);
    ScheduleUnfold(b, 27);
    ScheduleUnfold(b, 28);
    ScheduleUnfold(b, 29);
    ScheduleUnfold(b, 30);
    ScheduleUnfold(b, 31);
  }

  lemma Words32(b: seq<Byte>)
    requires AbcBlock(b)
    ensures Schedule(b, 32) == 0x93f5997f && Schedule(b, 33) == 0x3b68ba73
    ensures Schedule(b, 34) == 0xaff4ffc1 && Schedule(b, 35) == 0xf10a5c62
    ensures Schedule(b, 36) == 0x0a8b3996 && Schedule(b, 37) == 0x72af830a
    ensures Schedule(b, 38) == 0x9409e33e && Schedule(b, 39) == 0x24641522
  {
    hide Schedule, AbcBlock;
    BlockSize(b);
    Words24(b);
    Words16(b);
    ScheduleUnfold(b, 32);
    ScheduleUnfold(b, 33);
    ScheduleUnfold(b, 34);
    ScheduleUnfold(b, 35);
    ScheduleUnfold(b, 36);
    ScheduleUnfold(b, 37);
    ScheduleUnfold(b, 38);
    ScheduleUnfold(b, 39);
  }

  lemma Words40(b: seq<Byte>)
    requires AbcBlock(b)
    ensures Schedule(b, 40) == 0x9f47bf94 && Schedule(b, 41) == 0xf0a64f5a
    ensures Schedule(b, 42) == 0x3e246a79 && Schedule(b, 43) == 0x27333ba3
    ensures Schedule(b, 44) == 0x0c4763f2 && Schedule(b, 45) == 0x840abf27
    ensures Schedule(b, 46) == 0x7a290d5d && Schedule(b, 47) == 0x065c43da
  {
    hide Schedule, AbcBlock;
    BlockSize(b);
    Words32(b);
    Words24(b);
    ScheduleUnfold(b, 40);
    ScheduleUnfold(b, 41);
    ScheduleUnfold(b, 42);
    ScheduleUnfold(b, 43);
    ScheduleUnfold(b, 44);
    ScheduleUnfold(b, 45);
    ScheduleUnfold(b, 46);
    ScheduleUnfold(b, 47);
  }

  lemma Words48(b: seq<Byte>)
    requires AbcBlock(b)
    ensures Schedule(b, 48) == 0xfb3e89cb && Schedule(b, 49) == 0xcc7617db
    ensures Schedule(b, 50) == 0xb9e66c34 && Schedule(b, 51) == 0xa9993667
    ensures Schedule(b, 52) == 0x84badedd && Schedule(b, 53) == 0xc21462bc
    ensures Schedule(b, 54) == 0x1487472c && Schedule(b, 55) == 0xb20f7a99
  {
    hide Schedule, AbcBlock;
    BlockSize(b);
    Words40(b);
    Words32(b);
    ScheduleUnfold(b, 48);
    ScheduleUnfold(b, 49);
    ScheduleUnfold(b, 50);
    ScheduleUnfold(b, 51);
    ScheduleUnfold(b, 52);
    ScheduleUnfold(b, 53);
    ScheduleUnfold(b, 54);
    ScheduleUnfold(b, 55);
  }

  lemma Words56(b: seq<Byte>)
    requires AbcBlock(b)
    ensures Schedule(b, 56) == 0xef57b9cd && Schedule(b, 57) == 0xebe6b238
    ensures Schedule(b, 58) == 0x9fe3095e && Schedule(b, 59) == 0x78bc8d4b
    ensures Schedule(b, 60) == 0xa43fcf15 && Schedule(b, 61) == 0x668b2ff8
    ensures Schedule(b, 62) == 0xeeaba2cc && Schedule(b, 63) == 0x12b1edeb
  {
    hide Schedule, AbcBlock;
    BlockSize(b);
    Words48(b);
    Words40(b);
    ScheduleUnfold(b, 56);
    ScheduleUnfold(b, 57);
    ScheduleUnfold(b, 58);
    ScheduleUnfold(b, 59);
    ScheduleUnfold(b, 60);
    ScheduleUnfold(b, 61);
    ScheduleUnfold(b, 62);
    ScheduleUnfold(b, 63);
  }

  lemma BlockSize(b: seq<Byte>)
    requires AbcBlock(b)
    ensures |b| == 64
  {
  }

  /** The two new words of a round. */
  function NewWords(a: Word, b: Word, c: Word, d: Word, e: Word, f: Word, g: Word, h: Word, k: Word, w: Word): (Word, Word) {
    var t1 := Add(Add(Add(Add(h, BigSigma1(e)), Ch(e, f, g)), k), w);
    (Add(t1, Add(BigSigma0(a), Maj(a, b, c))), Add(d, t1))
  }

  lemma NextRound(x: seq<Byte>, t: nat, a: Word, b: Word, c: Word, d: Word, e: Word, f: Word, g: Word, h: Word,
                  k: Word, w: Word, a': Word, e': Word)
    requires |x| == 64 && t < 64 && K(t) == k && Schedule(x, t) == w
    requires Rounds(InitialHash(), x, t) == [a, b, c, d, e, f, g, h] && NewWords(a, b, c, d, e, f, g, h, k, w) == (a', e')
    ensures Rounds(InitialHash(), x, t + 1) == [a', a, b, c, e', e, f, g]
  {
    hide Add, BigSigma0, BigSigma1, Ch, Maj, K, Schedule, InitialHash;
  }

  lemma Rounds4(b: seq<Byte>)
    requires AbcBlock(b)
    ensures Rounds(InitialHash(), b, 4) ==
      [0xd550f666, 0xc8c347a7, 0x5a6ad9ad, 0x5d6aebcd, 0x24e00850, 0xf92939eb, 0x78ce7989, 0xfa2a4622]
  {
    hide Schedule, Rounds, AbcBlock, InitialHash;
    BlockSize(b);
    NoRounds(b);
    Words0(b);
    NextRound(b, 0, 0x6a09e667, 0xbb67ae85, 0x3c6ef372, 0xa54ff53a, 0x510e527f, 0x9b05688c, 0x1f83d9ab, 0x5be0cd19,
              0x428a2f98, 0x61626380, 0x5d6aebcd, 0xfa2a4622);
    NextRound(b, 1, 0x5d6aebcd, 0x6a09e667, 0xbb67ae85, 0x3c6ef372, 0xfa2a4622, 0x510e527f, 0x9b05688c, 0x1f83d9ab,
              0x71374491, 0x00000000, 0x5a6ad9ad, 0x78ce7989);
    NextRound(b, 2, 0x5a6ad9ad, 0x5d6aebcd, 0x6a09e667, 0xbb67ae85, 0x78ce7989, 0xfa2a4622, 0x510e527f, 0x9b05688c,
              0xb5c0fbcf, 0x00000000, 0xc8c347a7, 0xf92939eb);
    NextRound(b, 3, 0xc8c347a7, 0x5a6ad9ad, 0x5d6aebcd, 0x6a09e667, 0xf92939eb, 0x78ce7989, 0xfa2a4622, 0x510e527f,
              0xe9b5dba5, 0x00000000, 0xd550f666, 0x24e00850);
  }

  lemma Rounds8(b: seq<Byte>)
    requires AbcBlock(b)
    ensures Rounds(InitialHash(), b, 8) ==
      [0x85a07b5f, 0xe5030380, 0x2b4209f5, 0x04409a6a, 0x0c657a79, 0x9b27a401, 0x714260ad, 0x43ada245]
  {
    hide Schedule, Rounds, AbcBlock, InitialHash;
    BlockSize(b);
    Rounds4(b);
    Words0(b);
    NextRound(b, 4, 0xd550f666, 0xc8c347a7, 0x5a6ad9ad, 0x5d6aebcd, 0x24e00850, 0xf92939eb, 0x78ce7989, 0xfa2a4622,
              0x3956c25b, 0x00000000, 0x04409a6a, 0x43ada245);
    NextRound(b, 5, 0x04409a6a, 0xd550f666, 0xc8c347a7, 0x5a6ad9ad, 0x43ada245, 0x24e00850, 0xf92939eb, 0x78ce7989,
              0x59f111f1, 0x00000000, 0x2b4209f5, 0x714260ad);
    NextRound(b, 6, 0x2b4209f5, 0x04409a6a, 0xd550f666, 0xc8c347a7, 0x714260ad, 0x43ada245, 0x24e00850, 0xf92939eb,
              0x923f82a4, 0x00000000, 0xe5030380, 0x9b27a401);
    NextRound(b, 7, 0xe5030380, 0x2b4209f5, 0x04409a6a, 0xd550f666, 0x9b27a401, 0x714260ad, 0x43ada245, 0x24e00850,
              0xab1c5ed5, 0x00000000, 0x85a07b5f, 0x0c657a79);
  }

  lemma Rounds12(b: seq<Byte>)
    requires AbcBlock(b)
    ensures Rounds(InitialHash(), b, 12) ==
      [0xf71fc5a9, 0x4798a3f4, 0x8c87346b, 0x8e04ecb9, 0x816fd6e9, 0x436b23e8, 0x1cc92596, 0x32ca2d8c]
  {
    hide Schedule, Rounds, AbcBlock, InitialHash;
    BlockSize(b);
    Rounds8(b);
    Words8(b);
    NextRound(b, 8, 0x85a07b5f, 0xe5030380, 0x2b4209f5, 0x04409a6a, 0x0c657a79, 0x9b27a401, 0x714260ad, 0x43ada245,
              0xd807aa98, 0x00000000, 0x8e04ecb9, 0x32ca2d8c);
    NextRound(b, 9, 0x8e04ecb9, 0x85a07b5f, 0xe5030380, 0x2b4209f5, 0x32ca2d8c, 0x0c657a79, 0x9b27a401, 0x714260ad,
              0x12835b01, 0x00000000, 0x8c87346b, 0x1cc92596);
    NextRound(b, 10, 0x8c87346b, 0x8e04ecb9, 0x85a07b5f, 0xe5030380, 0x1cc92596, 0x32ca2d8c, 0x0c657a79, 0x9b27a401,
              0x243185be, 0x00000000, 0x4798a3f4, 0x436b23e8);
    NextRound(b, 11, 0x4798a3f4, 0x8c87346b, 0x8e04ecb9, 0x85a07b5f, 0x436b23e8, 0x1cc92596, 0x32ca2d8c, 0x0c657a79,
              0x550c7dc3, 0x00000000, 0xf71fc5a9, 0x816fd6e9);
  }

  lemma Rounds16(b: seq<Byte>)
    requires AbcBlock(b)
    ensures Rounds(InitialHash(), b, 16) ==
      [0xb0fa238e, 0xc0645fde, 0xd932eb16, 0x87912990, 0x07590dcd, 0x0b92f20c, 0x745a48de, 0x1e578218]
  {
    hide Schedule, Rounds, AbcBlock, InitialHash;
    BlockSize(b);
    Rounds12(b);
    Words8(b);
    NextRound(b, 12, 0xf71fc5a9, 0x4798a3f4, 0x8c87346b, 0x8e04ecb9, 0x816fd6e9, 0x436b23e8, 0x1cc92596, 0x32ca2d8c,
              0x72be5d74, 0x00000000, 0x87912990, 0x1e578218);
    NextRound(b, 13, 0x87912990, 0xf71fc5a9, 0x4798a3f4, 0x8c87346b, 0x1e578218, 0x816fd6e9, 0x436b23e8, 0x1cc92596,
              0x80deb1fe, 0x00000000, 0xd932eb16, 0x745a48de);
    NextRound(b, 14, 0xd932eb16, 0x87912990, 0xf71fc5a9, 0x4798a3f4, 0x745a48de, 0x1e578218, 0x816fd6e9, 0x436b23e8,
              0x9bdc06a7, 0x00000000, 0xc0645fde, 0x0b92f20c);
    NextRound(b, 15, 0xc0645fde, 0xd932eb16, 0x87912990, 0xf71fc5a9, 0x0b92f20c, 0x745a48de, 0x1e578218, 0x816fd6e9,
              0xc19bf174, 0x00000018, 0xb0fa238e, 0x07590dcd);
  }

  lemma Rounds20(b: seq<Byte>)
    requires AbcBlock(b)
    ensures Rounds(InitialHash(), b, 20) ==
      [0xe1f20c33, 0xfe777bbf, 0xc2fbd9d1, 0x21da9a9b, 0xb0638179, 0xcc899961, 0x846ee454, 0x8034229c]
  {
    hide Schedule, Rounds, AbcBlock, InitialHash;
    BlockSize(b);
    Rounds16(b);
    Words16(b);
    NextRound(b, 16, 0xb0fa238e, 0xc0645fde, 0xd932eb16, 0x87912990, 0x07590dcd, 0x0b92f20c, 0x745a48de, 0x1e578218,
              0xe49b69c1, 0x61626380, 0x21da9a9b, 0x8034229c);
    NextRound(b, 17, 0x21da9a9b, 0xb0fa238e, 0xc0645fde, 0xd932eb16, 0x8034229c, 0x07590dcd, 0x0b92f20c, 0x745a48de,
              0xefbe4786, 0x000f0000, 0xc2fbd9d1, 0x846ee454);
    NextRound(b, 18, 0xc2fbd9d1, 0x21da9a9b, 0xb0fa238e, 0xc0645fde, 0x846ee454, 0x8034229c, 0x07590dcd, 0x0b92f20c,
              0x0fc19dc6, 0x7da86405, 0xfe777bbf, 0xcc899961);
    NextRound(b, 19, 0xfe777bbf, 0xc2fbd9d1, 0x21da9a9b, 0xb0fa238e, 0xcc899961, 0x846ee454, 0x8034229c, 0x07590dcd,
              0x240ca1cc, 0x600003c6, 0xe1f20c33, 0xb0638179);
  }

  lemma Rounds24(b: seq<Byte>)
    requires AbcBlock(b)
    ensures Rounds(InitialHash(), b, 24) ==
      [0xc5d53d8d, 0xa7a3623f, 0xc2606d6d, 0x9dc68b63, 0xaa47c347, 0x49f5114a, 0xe1257970, 0x8ada8930]
  {
    hide Schedule, Rounds, AbcBlock, InitialHash;
    BlockSize(b);
    Rounds20(b);
    Words16(b);
    NextRound(b, 20, 0xe1f20c33, 0xfe777bbf, 0xc2fbd9d1, 0x21da9a9b, 0xb0638179, 0xcc899961, 0x846ee454, 0x8034229c,
              0x2de92c6f, 0x3e9d7b78, 0x9dc68b63, 0x8ada8930);
    NextRound(b, 21, 0x9dc68b63, 0xe1f20c33, 0xfe777bbf, 0xc2fbd9d1, 0x8ada8930, 0xb0638179, 0xcc899961, 0x846ee454,
              0x4a7484aa, 0x0183fc00, 0xc2606d6d, 0xe1257970);
    NextRound(b, 22, 0xc2606d6d, 0x9dc68b63, 0xe1f20c33, 0xfe777bbf, 0xe1257970, 0x8ada8930, 0xb0638179, 0xcc899961,
              0x5cb0a9dc, 0x12dcbfdb, 0xa7a3623f, 0x49f5114a);
    NextRound(b, 23, 0xa7a3623f, 0xc2606d6d, 0x9dc68b63, 0xe1f20c33, 0x49f5114a, 0xe1257970, 0x8ada8930, 0xb0638179,
              0x76f988da, 0xe2e2c38e, 0xc5d53d8d, 0xaa47c347);
  }

  lemma Rounds28(b: seq<Byte>)
    requires AbcBlock(b)
    ensures Rounds(InitialHash(), b, 28) ==
      [0x77d37528, 0xb62ec4bc, 0xcde8037d, 0x1c2c2838, 0xedffbff8, 0xc74c6516, 0x14383d8e, 0x2823ef91]
  {
    hide Schedule, Rounds, AbcBlock, InitialHash;
    BlockSize(b);
    Rounds24(b);
    Words24(b);
    NextRound(b, 24, 0xc5d53d8d, 0xa7a3623f, 0xc2606d6d, 0x9dc68b63, 0xaa47c347, 0x49f5114a, 0xe1257970, 0x8ada8930,
              0x983e5152, 0xc8215c1a, 0x1c2c2838, 0x2823ef91);
    NextRound(b, 25, 0x1c2c2838, 0xc5d53d8d, 0xa7a3623f, 0xc2606d6d, 0x2823ef91, 0xaa47c347, 0x49f5114a, 0xe1257970,
              0xa831c66d, 0xb73679a2, 0xcde8037d, 0x14383d8e);
    NextRound(b, 26, 0xcde8037d, 0x1c2c2838, 0xc5d53d8d, 0xa7a3623f, 0x14383d8e, 0x2823ef91, 0xaa47c347, 0x49f5114a,
              0xb00327c8, 0xe5bc3909, 0xb62ec4bc, 0xc74c6516);
    NextRound(b, 27, 0xb62ec4bc, 0xcde8037d, 0x1c2c2838, 0xc5d53d8d, 0xc74c6516, 0x14383d8e, 0x2823ef91, 0xaa47c347,
              0xbf597fc7, 0x32663c5b, 0x77d37528, 0xedffbff8);
  }

  lemma Rounds32(b: seq<Byte>)
    requires AbcBlock(b)
    ensures Rounds(InitialHash(), b, 32) ==
      [0x73b33bf5, 0xea992a22, 0xa0060b30, 0x363482c9, 0xba591112, 0x0109ab3a, 0xade79437, 0x6112a3b7]
  {
    hide Schedule, Rounds, AbcBlock, InitialHash;
    BlockSize(b);
    Rounds28(b);
    Words24(b);
    NextRound(b, 28, 0x77d37528, 0xb62ec4bc, 0xcde8037d, 0x1c2c2838, 0xedffbff8, 0xc74c6516, 0x14383d8e, 0x2823ef91,
              0xc6e00bf3, 0x9d209d67, 0x363482c9, 0x6112a3b7);
    NextRound(b, 29, 0x363482c9, 0x77d37528, 0xb62ec4bc, 0xcde8037d, 0x6112a3b7, 0xedffbff8, 0xc74c6516, 0x14383d8e,
              0xd5a79147, 0xec8726cb, 0xa0060b30, 0xade79437);
    NextRound(b, 30, 0xa0060b30, 0x363482c9, 0x77d37528, 0xb62ec4bc, 0xade79437, 0x6112a3b7, 0xedffbff8, 0xc74c6516,
              0x06ca6351, 0x702138a4, 0xea992a22, 0x0109ab3a);
    NextRound(b, 31, 0xea992a22, 0xa0060b30, 0x363482c9, 0x77d37528, 0x0109ab3a, 0xade79437, 0x6112a3b7, 0xedffbff8,
              0x14292967, 0xd3b7973b, 0x73b33bf5, 0xba591112);
  }

  lemma Rounds36(b: seq<Byte>)
    requires AbcBlock(b)
    ensures Rounds(InitialHash(), b, 36) ==
      [0x65a0cfe4, 0xa9a7738c, 0xfe604df5, 0x98e12507, 0xf4b002d6, 0x085f3833, 0x59249dd3, 0x9cd9f5f6]
  {
    hide Schedule, Rounds, AbcBlock, InitialHash;
    BlockSize(b);
    Rounds32(b);
    Words32(b);
    NextRound(b, 32, 0x73b33bf5, 0xea992a22, 0xa0060b30, 0x363482c9, 0xba591112, 0x0109ab3a, 0xade79437, 0x6112a3b7,
              0x27b70a85, 0x93f5997f, 0x98e12507, 0x9cd9f5f6);
    NextRound(b, 33, 0x98e12507, 0x73b33bf5, 0xea992a22, 0xa0060b30, 0x9cd9f5f6, 0xba591112, 0x0109ab3a, 0xade79437,
              0x2e1b2138, 0x3b68ba73, 0xfe604df5, 0x59249dd3);
    NextRound(b, 34, 0xfe604df5, 0x98e12507, 0x73b33bf5, 0xea992a22, 0x59249dd3, 0x9cd9f5f6, 0xba591112, 0x0109ab3a,
              0x4d2c6dfc, 0xaff4ffc1, 0xa9a7738c, 0x085f3833);
    NextRound(b, 35, 0xa9a7738c, 0xfe604df5, 0x98e12507, 0x73b33bf5, 0x085f3833, 0x59249dd3, 0x9cd9f5f6, 0xba591112,
              0x53380d13, 0xf10a5c62, 0x65a0cfe4, 0xf4b002d6);
  }

  lemma Rounds40(b: seq<Byte>)
    requires AbcBlock(b)
    ensures Rounds(InitialHash(), b, 40) ==
      [0x79ea687a, 0x6dc57a8a, 0x34df1604, 0x41a65cb1, 0x1efbc0a0, 0xf0781bc8, 0xa507a53d, 0x0772a26b]
  {
    hide Schedule, Rounds, AbcBlock, InitialHash;
    BlockSize(b);
    Rounds36(b);
    Words32(b);
    NextRound(b, 36, 0x65a0cfe4, 0xa9a7738c, 0xfe604df5, 0x98e12507, 0xf4b002d6, 0x085f3833, 0x59249dd3, 0x9cd9f5f6,
              0x650a7354, 0x0a8b3996, 0x41a65cb1, 0x0772a26b);
    NextRound(b, 37, 0x41a65cb1, 0x65a0cfe4, 0xa9a7738c, 0xfe604df5, 0x0772a26b, 0xf4b002d6, 0x085f3833, 0x59249dd3,
              0x766a0abb, 0x72af830a, 0x34df1604, 0xa507a53d);
    NextRound(b, 38, 0x34df1604, 0x41a65cb1, 0x65a0cfe4, 0xa9a7738c, 0xa507a53d, 0x0772a26b, 0xf4b002d6, 0x085f3833,
              0x81c2c92e, 0x9409e33e, 0x6dc57a8a, 0xf0781bc8);
    NextRound(b, 39, 0x6dc57a8a, 0x34df1604, 0x41a65cb1, 0x65a0cfe4, 0xf0781bc8, 0xa507a53d, 0x0772a26b, 0xf4b002d6,
              0x92722c85, 0x24641522, 0x79ea687a, 0x1efbc0a0);
  }

  lemma Rounds44(b: seq<Byte>)
    requires AbcBlock(b)
    ensures Rounds(InitialHash(), b, 44) ==
      [0x9d4baf93, 0x17aa0dfe, 0xdf46652f, 0xd6670766, 0xfda24c2e, 0xdecd4715, 0x838b2711, 0x26352d63]
  {
    hide Schedule, Rounds, AbcBlock, InitialHash;
    BlockSize(b);
    Rounds40(b);
    Words40(b);
    NextRound(b, 40, 0x79ea687a, 0x6dc57a8a, 0x34df1604, 0x41a65cb1, 0x1efbc0a0, 0xf0781bc8, 0xa507a53d, 0x0772a26b,
              0xa2bfe8a1, 0x9f47bf94, 0xd6670766, 0x26352d63);
    NextRound(b, 41, 0xd6670766, 0x79ea687a, 0x6dc57a8a, 0x34df1604, 0x26352d63, 0x1efbc0a0, 0xf0781bc8, 0xa507a53d,
              0xa81a664b, 0xf0a64f5a, 0xdf46652f, 0x838b2711);
    NextRound(b, 42, 0xdf46652f, 0xd6670766, 0x79ea687a, 0x6dc57a8a, 0x838b2711, 0x26352d63, 0x1efbc0a0, 0xf0781bc8,
              0xc24b8b70, 0x3e246a79, 0x17aa0dfe, 0xdecd4715);
    NextRound(b, 43, 0x17aa0dfe, 0xdf46652f, 0xd6670766, 0x79ea687a, 0xdecd4715, 0x838b2711, 0x26352d63, 0x1efbc0a0,
              0xc76c51a3, 0x27333ba3, 0x9d4baf93, 0xfda24c2e);
  }

  lemma Rounds48(b: seq<Byte>)
    requires AbcBlock(b)
    ensures Rounds(InitialHash(), b, 48) ==
      [0x4172328d, 0xa14c14b0, 0x72ab4b91, 0x26628815, 0xfecf0bc6, 0xd57b94a9, 0xb7755da1, 0xa80f11f0]
  {
    hide Schedule, Rounds, AbcBlock, InitialHash;
    BlockSize(b);
    Rounds44(b);
    Words40(b);
    NextRound(b, 44, 0x9d4baf93, 0x17aa0dfe, 0xdf46652f, 0xd6670766, 0xfda24c2e, 0xdecd4715, 0x838b2711, 0x26352d63,
              0xd192e819, 0x0c4763f2, 0x26628815, 0xa80f11f0);
    NextRound(b, 45, 0x26628815, 0x9d4baf93, 0x17aa0dfe, 0xdf46652f, 0xa80f11f0, 0xfda24c2e, 0xdecd4715, 0x838b2711,
              0xd6990624, 0x840abf27, 0x72ab4b91, 0xb7755da1);
    NextRound(b, 46, 0x72ab4b91, 0x26628815, 0x9d4baf93, 0x17aa0dfe, 0xb7755da1, 0xa80f11f0, 0xfda24c2e, 0xdecd4715,
              0xf40e3585, 0x7a290d5d, 0xa14c14b0, 0xd57b94a9);
    NextRound(b, 47, 0xa14c14b0, 0x72ab4b91, 0x26628815, 0x9d4baf93, 0xd57b94a9, 0xb7755da1, 0xa80f11f0, 0xfda24c2e,
              0x106aa070, 0x065c43da, 0x4172328d, 0xfecf0bc6);
  }

  lemma Rounds52(b: seq<Byte>)
    requires AbcBlock(b)
    ensures Rounds(InitialHash(), b, 52) ==
      [0x886e7a22, 0x7a0508a1, 0xf11bfaa8, 0x05757ceb, 0x49231c1e, 0x52f1ccf7, 0x6e5c390c, 0xbd714038]
  {
    hide Schedule, Rounds, AbcBlock, InitialHash;
    BlockSize(b);
    Rounds48(b);
    Words48(b);
    NextRound(b, 48, 0x4172328d, 0xa14c14b0, 0x72ab4b91, 0x26628815, 0xfecf0bc6, 0xd57b94a9, 0xb7755da1, 0xa80f11f0,
              0x19a4c116, 0xfb3e89cb, 0x05757ceb, 0xbd714038);
    NextRound(b, 49, 0x05757ceb, 0x4172328d, 0xa14c14b0, 0x72ab4b91, 0xbd714038, 0xfecf0bc6, 0xd57b94a9, 0xb7755da1,
              0x1e376c08, 0xcc7617db, 0xf11bfaa8, 0x6e5c390c);
    NextRound(b, 50, 0xf11bfaa8, 0x05757ceb, 0x4172328d, 0xa14c14b0, 0x6e5c390c, 0xbd714038, 0xfecf0bc6, 0xd57b94a9,
              0x2748774c, 0xb9e66c34, 0x7a0508a1, 0x52f1ccf7);
    NextRound(b, 51, 0x7a0508a1, 0xf11bfaa8, 0x05757ceb, 0x4172328d, 0x52f1ccf7, 0x6e5c390c, 0xbd714038, 0xfecf0bc6,
              0x34b0bcb5, 0xa9993667, 0x886e7a22, 0x49231c1e);
  }

  lemma Rounds56(b: seq<Byte>)
    requires AbcBlock(b)
    ensures Rounds(InitialHash(), b, 56) ==
      [0x38cc9913, 0x3ec45cdb, 0xf5702fdb, 0x101fd28f, 0x54cb266b, 0xe50e1b4f, 0x9f4787c3, 0x529e7d00]
  {
    hide Schedule, Rounds, AbcBlock, InitialHash;
    BlockSize(b);
    Rounds52(b);
    Words48(b);
    NextRound(b, 52, 0x886e7a22, 0x7a0508a1, 0xf11bfaa8, 0x05757ceb, 0x49231c1e, 0x52f1ccf7, 0x6e5c390c, 0xbd714038,
              0x391c0cb3, 0x84badedd, 0x101fd28f, 0x529e7d00);
    NextRound(b, 53, 0x101fd28f, 0x886e7a22, 0x7a0508a1, 0xf11bfaa8, 0x529e7d00, 0x49231c1e, 0x52f1ccf7, 0x6e5c390c,
              0x4ed8aa4a, 0xc21462bc, 0xf5702fdb, 0x9f4787c3);
    NextRound(b, 54, 0xf5702fdb, 0x101fd28f, 0x886e7a22, 0x7a0508a1, 0x9f4787c3, 0x529e7d00, 0x49231c1e, 0x52f1ccf7,
              0x5b9cca4f, 0x1487472c, 0x3ec45cdb, 0xe50e1b4f);
    NextRound(b, 55, 0x3ec45cdb, 0xf5702fdb, 0x101fd28f, 0x886e7a22, 0xe50e1b4f, 0x9f4787c3, 0x529e7d00, 0x49231c1e,
              0x682e6ff3, 0xb20f7a99, 0x38cc9913, 0x54cb266b);
  }

  lemma Rounds60(b: seq<Byte>)
    requires AbcBlock(b)
    ensures Rounds(InitialHash(), b, 60) ==
      [0xb6ae8fff, 0xffb70472, 0xc062d46f, 0xfcd1887b, 0xb21bad3d, 0x6d83bfc6, 0x7e44008e, 0x9b5e906c]
  {
    hide Schedule, Rounds, AbcBlock, InitialHash;
    BlockSize(b);
    Rounds56(b);
    Words56(b);
    NextRound(b, 56, 0x38cc9913, 0x3ec45cdb, 0xf5702fdb, 0x101fd28f, 0x54cb266b, 0xe50e1b4f, 0x9f4787c3, 0x529e7d00,
              0x748f82ee, 0xef57b9cd, 0xfcd1887b, 0x9b5e906c);
    NextRound(b, 57, 0xfcd1887b, 0x38cc9913, 0x3ec45cdb, 0xf5702fdb, 0x9b5e906c, 0x54cb266b, 0xe50e1b4f, 0x9f4787c3,
              0x78a5636f, 0xebe6b238, 0xc062d46f, 0x7e44008e);
    NextRound(b, 58, 0xc062d46f, 0xfcd1887b, 0x38cc9913, 0x3ec45cdb, 0x7e44008e, 0x9b5e906c, 0x54cb266b, 0xe50e1b4f,
              0x84c87814, 0x9fe3095e, 0xffb70472, 0x6d83bfc6);
    NextRound(b, 59, 0xffb70472, 0xc062d46f, 0xfcd1887b, 0x38cc9913, 0x6d83bfc6, 0x7e44008e, 0x9b5e906c, 0x54cb266b,
              0x8cc70208, 0x78bc8d4b, 0xb6ae8fff, 0xb21bad3d);
  }

  lemma Rounds64(b: seq<Byte>)
    requires AbcBlock(b)
    ensures Rounds(InitialHash(), b, 64) ==
      [0x506e3058, 0xd39a2165, 0x04d24d6c, 0xb85e2ce9, 0x5ef50f24, 0xfb121210, 0x948d25b6, 0x961f4894]
  {
    hide Schedule, Rounds, AbcBlock, InitialHash;
    BlockSize(b);
    Rounds60(b);
    Words56(b);
    NextRound(b, 60, 0xb6ae8fff, 0xffb70472, 0xc062d46f, 0xfcd1887b, 0xb21bad3d, 0x6d83bfc6, 0x7e44008e, 0x9b5e906c,
              0x90befffa, 0xa43fcf15, 0xb85e2ce9, 0x961f4894);
    NextRound(b, 61, 0xb85e2ce9, 0xb6ae8fff, 0xffb70472, 0xc062d46f, 0x961f4894, 0xb21bad3d, 0x6d83bfc6, 0x7e44008e,
              0xa4506ceb, 0x668b2ff8, 0x04d24d6c, 0x948d25b6);
    NextRound(b, 62, 0x04d24d6c, 0xb85e2ce9, 0xb6ae8fff, 0xffb70472, 0x948d25b6, 0x961f4894, 0xb21bad3d, 0x6d83bfc6,
              0xbef9a3f7, 0xeeaba2cc, 0xd39a2165, 0xfb121210);
    NextRound(b, 63, 0xd39a2165, 0x04d24d6c, 0xb85e2ce9, 0xb6ae8fff, 0xfb121210, 0x948d25b6, 0x961f4894, 0xb21bad3d,
              0xc67178f2, 0x12b1edeb, 0x506e3058, 0x5ef50f24);
  }

  lemma NoRounds(b: seq<Byte>)
    requires |b| == 64
    ensures Rounds(InitialHash(), b, 0) ==
      [0x6a09e667, 0xbb67ae85, 0x3c6ef372, 0xa54ff53a, 0x510e527f, 0x9b05688c, 0x1f83d9ab, 0x5be0cd19]
  {
  }

  lemma AbcHash(b: seq<Byte>)
    requires AbcBlock(b)
    ensures HashBlocks(InitialHash(), b) ==
      [0xba7816bf, 0x8f01cfea, 0x414140de, 0x5dae2223, 0xb00361a3, 0x96177a9c, 0xb410ff61, 0xf20015ad]
  {
    hide Rounds, AbcBlock;
    BlockSize(b);
    Rounds64(b);
    OneBlock(b);
    var h := Compress(InitialHash(), b);
  }

  lemma OneBlock(b: seq<Byte>)
    requires |b| == 64
    ensures HashBlocks(InitialHash(), b) == Compress(InitialHash(), b)
  {
    hide Compress, InitialHash;
    assert b[|b| - 64..] == b && b[..|b| - 64] == [];
  }

  function AbcDigest(): seq<Byte> {
    [0xba, 0x78, 0x16, 0xbf, 0x8f, 0x01, 0xcf, 0xea, 0x41, 0x41, 0x40, 0xde, 0x5d, 0xae, 0x22, 0x23,
     0xb0, 0x03, 0x61, 0xa3, 0x96, 0x17, 0x7a, 0x9c, 0xb4, 0x10, 0xff, 0x61, 0xf2, 0x00, 0x15, 0xad]
  }

  /** The digest of "abc" is the published one. */
  lemma KnownAnswer()
    ensures Digest([0x61, 0x62, 0x63]) == AbcDigest()
  {
    hide HashBlocks, Pad, InitialHash, Bytes, Unpack, AbcDigest;
    var p := Pad([0x61, 0x62, 0x63]);
    AbcPadded();
    AbcHash(p);
    BytesOfEight(HashBlocks(InitialHash(), p));
    AbcBytes();
  }

  lemma AbcBytes()
    ensures Unpack(0xba7816bf) + Unpack(0x8f01cfea) + Unpack(0x414140de) + Unpack(0x5dae2223) +
            (Unpack(0xb00361a3) + Unpack(0x96177a9c) + Unpack(0xb410ff61) + Unpack(0xf20015ad)) ==
      AbcDigest()
  {
  }

  lemma {:induction false} BytesConcat(g: seq<Word>, h: seq<Word>)
    ensures Bytes(g + h) == Bytes(g) + Bytes(h)
    decreases |h|
  {
    hide Unpack;
    if h == [] {
      assert g + h == g;
    } else {
      BytesConcat(g, h[..|h| - 1]);
      assert (g + h)[..|g + h| - 1] == g + h[..|h| - 1];
    }
  }

  lemma BytesOfFour(a: Word, b: Word, c: Word, d: Word)
    ensures Bytes([a, b, c, d]) == Unpack(a) + Unpack(b) + Unpack(c) + Unpack(d)
  {
    hide Unpack;
    assert [a, b, c, d] == [a, b] + [c, d];
    BytesConcat([a, b], [c, d]);
    BytesOfTwo(a, b);
    BytesOfTwo(c, d);
  }

  lemma BytesOfTwo(a: Word, b: Word)
    ensures Bytes([a, b]) == Unpack(a) + Unpack(b)
  {
    hide Unpack;
    assert [a, b][..1] == [a] && [a][..0] == [];
  }

  lemma BytesOfEight(h: seq<Word>)
    requires |h| == 8
    ensures Bytes(h) == Unpack(h[0]) + Unpack(h[1]) + Unpack(h[2]) + Unpack(h[3]) +
                        (Unpack(h[4]) + Unpack(h[5]) + Unpack(h[6]) + Unpack(h[7]))
  {
    hide Unpack, Bytes;
    BytesConcat([h[0], h[1], h[2], h[3]], [h[4], h[5], h[6], h[7]]);
    BytesOfFour(h[0], h[1], h[2], h[3]);
    BytesOfFour(h[4], h[5], h[6], h[7]);
    assert h == [h[0], h[1], h[2], h[3]] + [h[4], h[5], h[6], h[7]];
  }
}
