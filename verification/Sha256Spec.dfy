/** SHA-256 as FIPS 180-4 describes it: padding in section 5.1.1, the computation in section 6.2.2. */
module Sha256Spec {
  import opened Division

  type Byte = bv8

  type Word = bv32

  // ----- The functions on words (FIPS 180-4, section 4.1.2) -----

  function Rotr(x: Word, n: Word): Word
    requires n <= 32
  {
    (x >> n) | (x << (32 - n))
  }

  function Ch(x: Word, y: Word, z: Word): Word {
    (x & y) ^ (!x & z)
  }

  function Maj(x: Word, y: Word, z: Word): Word {
    (x & y) ^ (x & z) ^ (y & z)
  }

  function BigSigma0(x: Word): Word {
    Rotr(x, 2) ^ Rotr(x, 13) ^ Rotr(x, 22)
  }

  function BigSigma1(x: Word): Word {
    Rotr(x, 6) ^ Rotr(x, 11) ^ Rotr(x, 25)
  }

  function SmallSigma0(x: Word): Word {
    Rotr(x, 7) ^ Rotr(x, 18) ^ (x >> 3)
  }

  function SmallSigma1(x: Word): Word {
    Rotr(x, 17) ^ Rotr(x, 19) ^ (x >> 10)
  }

  /** Addition modulo 2^32. */
  function Add(x: Word, y: Word): Word {
    x + y
  }

  // ----- Constants (sections 4.2.2 and 5.3.3) -----

  function K0(): (k: seq<Word>)
    ensures |k| == 16
  {
    [0x428a2f98, 0x71374491, 0xb5c0fbcf, 0xe9b5dba5,
     0x3956c25b, 0x59f111f1, 0x923f82a4, 0xab1c5ed5,
     0xd807aa98, 0x12835b01, 0x243185be, 0x550c7dc3,
     0x72be5d74, 0x80deb1fe, 0x9bdc06a7, 0xc19bf174]
  }

  function K1(): (k: seq<Word>)
    ensures |k| == 16
  {
    [0xe49b69c1, 0xefbe4786, 0x0fc19dc6, 0x240ca1cc,
     0x2de92c6f, 0x4a7484aa, 0x5cb0a9dc, 0x76f988da,
     0x983e5152, 0xa831c66d, 0xb00327c8, 0xbf597fc7,
     0xc6e00bf3, 0xd5a79147, 0x06ca6351, 0x14292967]
  }

  function K2(): (k: seq<Word>)
    ensures |k| == 16
  {
    [0x27b70a85, 0x2e1b2138, 0x4d2c6dfc, 0x53380d13,
     0x650a7354, 0x766a0abb, 0x81c2c92e, 0x92722c85,
     0xa2bfe8a1, 0xa81a664b, 0xc24b8b70, 0xc76c51a3,
     0xd192e819, 0xd6990624, 0xf40e3585, 0x106aa070]
  }

  function K3(): (k: seq<Word>)
    ensures |k| == 16
  {
    [0x19a4c116, 0x1e376c08, 0x2748774c, 0x34b0bcb5,
     0x391c0cb3, 0x4ed8aa4a, 0x5b9cca4f, 0x682e6ff3,
     0x748f82ee, 0x78a5636f, 0x84c87814, 0x8cc70208,
     0x90befffa, 0xa4506ceb, 0xbef9a3f7, 0xc67178f2]
  }

  function K(t: nat): Word
    requires t < 64
  {
    if t < 16 then K0()[t] else if t < 32 then K1()[t - 16] else if t < 48 then K2()[t - 32] else K3()[t - 48]
  }

  function InitialHash(): (h: seq<Word>)
    ensures |h| == 8
  {
    [0x6a09e667, 0xbb67ae85, 0x3c6ef372, 0xa54ff53a, 0x510e527f, 0x9b05688c, 0x1f83d9ab, 0x5be0cd19]
  }

  // ----- One block (section 6.2.2) -----

  /** A word from four bytes, most significant first. */
  function Pack(b: seq<Byte>, at: nat): Word
    requires at + 4 <= |b|
  {
    (b[at] as Word << 24) | (b[at + 1] as Word << 16) | (b[at + 2] as Word << 8) | b[at + 3] as Word
  }

  function Schedule(block: seq<Byte>, t: nat): Word
    requires |block| == 64 && t < 64
  {
    if t < 16 then Pack(block, 4 * t)
    else Add(Add(Add(SmallSigma1(Schedule(block, t - 2)), Schedule(block, t - 7)),
                 SmallSigma0(Schedule(block, t - 15))), Schedule(block, t - 16))
  }

  /** One round on the working variables a to h. */
  function Round(v: seq<Word>, k: Word, w: Word): (r: seq<Word>)
    requires |v| == 8
    ensures |r| == 8
  {
    var t1 := Add(Add(Add(Add(v[7], BigSigma1(v[4])), Ch(v[4], v[5], v[6])), k), w);
    var t2 := Add(BigSigma0(v[0]), Maj(v[0], v[1], v[2]));
    [Add(t1, t2), v[0], v[1], v[2], Add(v[3], t1), v[4], v[5], v[6]]
  }

  function Rounds(h: seq<Word>, block: seq<Byte>, t: nat): (v: seq<Word>)
    requires |h| == 8 && |block| == 64 && t <= 64
    ensures |v| == 8
  {
    if t == 0 then h else Round(Rounds(h, block, t - 1), K(t - 1), Schedule(block, t - 1))
  }

  function Compress(h: seq<Word>, block: seq<Byte>): (r: seq<Word>)
    requires |h| == 8 && |block| == 64
    ensures |r| == 8
  {
    seq(8, i requires 0 <= i < 8 => Add(h[i], Rounds(h, block, 64)[i]))
  }

  function HashBlocks(h: seq<Word>, m: seq<Byte>): (r: seq<Word>)
    requires |h| == 8 && |m| % 64 == 0
    ensures |r| == 8
  {
    if m == [] then h else Compress(HashBlocks(h, m[..|m| - 64]), m[|m| - 64..])
  }

  lemma {:induction false} HashBlocksConcat(h: seq<Word>, a: seq<Byte>, b: seq<Byte>)
    requires |h| == 8 && |a| % 64 == 0 && |b| % 64 == 0
    ensures |a + b| % 64 == 0
    ensures HashBlocks(h, a + b) == HashBlocks(HashBlocks(h, a), b)
    decreases |b|
  {
    hide Compress;
    if b == [] {
      assert a + b == a;
    } else {
      var m := a + b;
      assert m[..|m| - 64] == a + b[..|b| - 64] && m[|m| - 64..] == b[|b| - 64..];
      HashBlocksConcat(h, a, b[..|b| - 64]);
    }
  }

  // ----- Padding (section 5.1.1) and the digest -----

  /** The four bytes of a word, most significant first. */
  function Unpack(x: Word): (b: seq<Byte>)
    ensures |b| == 4
  {
    [(x >> 24) as Byte, ((x >> 16) & 0xff) as Byte, ((x >> 8) & 0xff) as Byte, (x & 0xff) as Byte]
  }

  /** A count in the range of a word. */
  type Count = x: int | 0 <= x < 0x1_0000_0000

  type Octet = x: int | 0 <= x < 0x100

  /** The four digits of a count to the base 256, most significant first. */
  function Octets(n: Count): (d: seq<Octet>)
    ensures |d| == 4
  {
    [n / 0x100_0000, n / 0x1_0000 % 0x100, n / 0x100 % 0x100, n % 0x100]
  }

  /** They are the digits of the number. */
  lemma OctetsRead(n: Count)
    ensures var d := Octets(n); n == ((d[0] as int * 0x100 + d[1]) * 0x100 + d[2]) * 0x100 + d[3]
  {
    var x := n / 0x100;
    var y := x / 0x100;
    var z := y / 0x100;
    Euclid(n, 0x100, x, n % 0x100);
    Euclid(x, 0x100, y, x % 0x100);
    Euclid(y, 0x100, z, y % 0x100);
    Quotient(n, 0x1_0000, y, x % 0x100 * 0x100 + n % 0x100);
    Quotient(n, 0x100_0000, z, y % 0x100 * 0x1_0000 + x % 0x100 * 0x100 + n % 0x100);
  }

  function CountBytes(n: Count): (b: seq<Byte>)
    ensures |b| == 4
  {
    seq(4, i requires 0 <= i < 4 => Octets(n)[i] as Byte)
  }

  function Zeros(n: nat): (z: seq<Byte>)
    ensures |z| == n
  {
    seq(n, _ => 0)
  }

  /** The number of zero bytes between the byte 0x80 and the 64-bit length. */
  function PadZeros(n: nat): nat {
    (119 - n % 64) % 64
  }

  /** The message, a one bit, zero bits, and the length in bits as a 64-bit number. */
  function Pad(m: seq<Byte>): (p: seq<Byte>)
    requires |m| < 0x2000_0000_0000_0000
  {
    var bits := 8 * |m|;
    m + [0x80] + Zeros(PadZeros(|m|)) + CountBytes(bits / 0x1_0000_0000) + CountBytes(bits % 0x1_0000_0000)
  }

  lemma PadZerosFill(n: nat)
    ensures (n + 9 + PadZeros(n)) % 64 == 0
    ensures PadZeros(n) == if n % 64 <= 55 then 55 - n % 64 else 119 - n % 64
  {
    var (q, r) := (n / 64, n % 64);
    assert n + 9 + PadZeros(n) == if r <= 55 then 64 * (q + 1) else 64 * (q + 2);
  }

  lemma PadFills(m: seq<Byte>)
    requires |m| < 0x2000_0000_0000_0000
    ensures |Pad(m)| == |m| + 9 + PadZeros(|m|) && |Pad(m)| % 64 == 0
  {
    PadZerosFill(|m|);
  }

  function Bytes(h: seq<Word>): (b: seq<Byte>)
    ensures |b| == 4 * |h|
  {
    if h == [] then [] else Bytes(h[..|h| - 1]) + Unpack(h[|h| - 1])
  }

  function Digest(m: seq<Byte>): (d: seq<Byte>)
    requires |m| < 0x2000_0000_0000_0000
    ensures |d| == 32
  {
    PadFills(m);
    Bytes(HashBlocks(InitialHash(), Pad(m)))
  }
}
