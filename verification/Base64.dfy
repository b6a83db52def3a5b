/** Base64 with a bit accumulator held in a wrapping 32-bit integer. */
module Base64 {
  import opened Division
  import opened Results

  type Byte = x: int | 0 <= x < 0x100

  /** A value of six bits. */
  type Sextet = x: int | 0 <= x < 64

  const PAD: Byte := 61

  // ----- RFC 4648, section 4 -----

  /** The Base64 alphabet, in ASCII: A-Z, a-z, 0-9, plus, slash. */
  function Alphabet(v: Sextet): (c: Byte)
    ensures c != PAD
  {
    if v < 26 then 65 + v
    else if v < 52 then 97 + (v - 26)
    else if v < 62 then 48 + (v - 52)
    else if v == 62 then 43
    else 47
  }

  function At(x: seq<Byte>, i: nat): Byte {
    if i < |x| then x[i] else 0
  }

  /** The 24-bit group number `g`, filled up with zero bits at the end of the input. */
  function Group(x: seq<Byte>, g: nat): int {
    At(x, 3 * g) * 0x1_0000 + At(x, 3 * g + 1) * 0x100 + At(x, 3 * g + 2)
  }

  /** The `p`-th of the four 6-bit values in a 24-bit group. */
  function Part(group: int, p: nat): Sextet
    requires p < 4
  {
    (if p == 0 then group / 0x4_0000 else if p == 1 then group / 0x1000 else if p == 2 then group / 0x40 else group) % 64
  }

  function SextetAt(x: seq<Byte>, j: nat): Sextet {
    Part(Group(x, j / 4), j % 4)
  }

  function EncodedSize(n: nat): nat {
    (n + 2) / 3 * 4
  }

  /** The number of output characters that carry data; the rest of the output is padding. */
  function DataChars(n: nat): nat {
    n / 3 * 4 + (if n % 3 == 0 then 0 else n % 3 + 1)
  }

  lemma Sizes(n: nat, q: nat, r: nat)
    requires n == 3 * q + r && r < 3
    ensures EncodedSize(n) == 4 * q + (if r == 0 then 0 else 4)
    ensures DataChars(n) == 4 * q + (if r == 0 then 0 else r + 1)
  {
    Quotient(n, 3, q, r);
    Remainder(n, 3, q, r);
    Quotient(n + 2, 3, if r == 0 then q else q + 1, if r == 0 then 2 else r - 1);
  }

  function Encode(x: seq<Byte>): (e: seq<Byte>)
    ensures |e| == EncodedSize(|x|)
  {
    seq(EncodedSize(|x|), j requires 0 <= j => if j < DataChars(|x|) then Alphabet(SextetAt(x, j)) else PAD)
  }

  // ----- 32-bit arithmetic -----

  /** The value a signed 32-bit integer keeps of `x`. */
  function Wrap32(x: int): int {
    (x + 0x8000_0000) % 0x1_0000_0000 - 0x8000_0000
  }

  /** `x >> n`, which rounds toward minus infinity. */
  function ShiftRight(x: int, n: nat): int
    requires n < 8
  {
    if n == 0 then x else if n == 1 then x / 2 else if n == 2 then x / 4 else if n == 3 then x / 8
    else if n == 4 then x / 16 else if n == 5 then x / 32 else if n == 6 then x / 64 else x / 128
  }

  lemma Wrapped(x: int) returns (k: int)
    ensures Wrap32(x) == x - 0x1_0000_0000 * k
  {
    k := (x + 0x8000_0000) / 0x1_0000_0000;
  }

  lemma Low16(x: int, q: int, r: int)
    requires x == 0x1_0000 * q + r && 0 <= r < 0x1_0000
    ensures x % 0x1_0000 == r && x % 0x100 == r % 0x100
  {
    var (p, m) := (r / 0x100, r % 0x100);
    Euclid(r, 0x100, p, m);
    Remainder(x, 0x1_0000, q, r);
    Remainder(x, 0x100, 0x100 * q + p, m);
  }

  lemma Low12(x: int, q: int, r: int)
    requires x == 0x1000 * q + r && 0 <= r < 0x1000
    ensures x % 0x1000 == r && x % 64 == r % 64
  {
    var (p, m) := (r / 64, r % 64);
    Euclid(r, 64, p, m);
    Remainder(x, 0x1000, q, r);
    Remainder(x, 64, 64 * q + p, m);
  }

  /** Shifting a byte into the accumulator: the low 16 bits survive any overflow. */
  lemma ShiftInByte(val: int, c: Byte)
    ensures Wrap32(Wrap32(val * 256) + c) % 0x1_0000 == val % 256 * 256 + c
    ensures Wrap32(Wrap32(val * 256) + c) % 0x100 == c
  {
    var k := Wrapped(val * 256);
    var m := Wrapped(Wrap32(val * 256) + c);
    var v := val / 256;
    assert val == 256 * v + val % 256;
    Low16(Wrap32(Wrap32(val * 256) + c), v - 0x1_0000 * (k + m), val % 256 * 256 + c);
    assert (val % 256 * 256 + c) % 0x100 == c;
  }

  lemma ShiftInZeros(val: int)
    ensures Wrap32(val * 256) % 0x1_0000 == val % 256 * 256
  {
    var k := Wrapped(val * 256);
    var v := val / 256;
    assert val == 256 * v + val % 256;
    Low16(Wrap32(val * 256), v - 0x1_0000 * k, val % 256 * 256);
  }

  lemma ShiftInSextet(val: int, s: Sextet)
    ensures Wrap32(Wrap32(val * 64) + s) % 0x1000 == val % 64 * 64 + s
    ensures Wrap32(Wrap32(val * 64) + s) % 64 == s
  {
    var k := Wrapped(val * 64);
    var m := Wrapped(Wrap32(val * 64) + s);
    var v := val / 64;
    assert val == 64 * v + val % 64;
    Low12(Wrap32(Wrap32(val * 64) + s), v - 0x10_0000 * (k + m), val % 64 * 64 + s);
    assert (val % 64 * 64 + s) % 64 == s;
  }

  /** Bits of `x`: dividing by `d` leaves `64 * u + s`, of which the low six bits are `s`. */
  lemma SixBits(x: int, d: int, u: int, s: Sextet, r: int)
    requires 0 <= r < d && x == d * (64 * u + s) + r
    ensures x / d % 64 == s
  {
    Quotient(x, d, 64 * u + s, r);
  }

  /** The four 6-bit values of a group, in terms of its bytes. */
  lemma PartsOfGroup(b0: Byte, b1: Byte, b2: Byte)
    ensures var g := b0 * 0x1_0000 + b1 * 0x100 + b2;
      && Part(g, 0) == b0 / 4
      && Part(g, 1) == b0 % 4 * 16 + b1 / 16
      && Part(g, 2) == b1 % 16 * 4 + b2 / 64
      && Part(g, 3) == b2 % 64
  {
    var g := b0 * 0x1_0000 + b1 * 0x100 + b2;
    var (q0, r0, q1, r1, q2, r2) := (b0 / 4, b0 % 4, b1 / 16, b1 % 16, b2 / 64, b2 % 64);
    assert b0 == 4 * q0 + r0 && b1 == 16 * q1 + r1 && b2 == 64 * q2 + r2;
    SixBits(g, 0x4_0000, 0, q0, r0 * 0x1_0000 + b1 * 0x100 + b2);
    SixBits(g, 0x1000, q0, r0 * 16 + q1, r1 * 0x100 + b2);
    SixBits(g, 0x40, 64 * q0 + r0 * 16 + q1, r1 * 4 + q2, r2);
    SixBits(g, 1, 64 * (64 * q0 + r0 * 16 + q1) + (r1 * 4 + q2), r2, 0);
  }

  /** What shifting the accumulator right uncovers, after byte `a` and then byte `c` came in. */
  lemma Uncovered(val: int, a: Byte, c: Byte)
    requires val % 0x1_0000 == a * 0x100 + c
    ensures val / 16 % 64 == a % 4 * 16 + c / 16
    ensures val / 64 % 64 == a % 16 * 4 + c / 64
  {
    var v := val / 0x1_0000;
    assert val == 0x1_0000 * v + a * 0x100 + c;
    assert a == 4 * (a / 4) + a % 4 && c == 16 * (c / 16) + c % 16;
    SixBits(val, 16, 64 * v + a / 4, a % 4 * 16 + c / 16, c % 16);
    assert a == 16 * (a / 16) + a % 16 && c == 64 * (c / 64) + c % 64;
    SixBits(val, 64, 16 * v + a / 16, a % 16 * 4 + c / 64, c % 64);
  }

  lemma UncoveredLow(val: int, c: Byte)
    requires val % 0x100 == c
    ensures val / 4 % 64 == c / 4 && val % 64 == c % 64
  {
    var v := val / 0x100;
    Euclid(val, 0x100, v, c as int);
    Euclid(c as int, 4, c as int / 4, c as int % 4);
    SixBits(val, 4, v, c / 4, c % 4);
    SixBits(val, 1, 4 * v + c / 64, c % 64, 0);
  }

  /** What the accumulator holds above the next output position is the next six bits of the input. */
  lemma NextSextet(x: seq<Byte>, i: nat, j: nat, val: int)
    requires 0 < i <= |x| && 0 <= 8 * i - 6 * j - 6 <= 6
    requires val % 0x100 == x[i - 1]
    requires i > 1 ==> val % 0x1_0000 == x[i - 2] as int * 256 + x[i - 1]
    ensures ShiftRight(val, 8 * i - 6 * j - 6) % 64 == SextetAt(x, j)
  {
    var (q, p) := (j / 4, j % 4);
    assert j == 4 * q + p;
    PartsOfGroup(At(x, 3 * q), At(x, 3 * q + 1), At(x, 3 * q + 2));
    UncoveredLow(val, x[i - 1]);
    assert i == if p < 3 then 3 * q + p + 1 else 3 * q + 3;
    if i > 1 {
      Uncovered(val, x[i - 2], x[i - 1]);
    }
  }

  /** The bits left over at the end of the input, filled up with zero bits. */
  lemma LastSextet(x: seq<Byte>, j: nat, val: int)
    requires x != [] && 0 < 8 * |x| - 6 * j < 6
    requires val % 256 == x[|x| - 1]
    ensures ShiftRight(Wrap32(val * 256), 8 * |x| - 6 * j - 6 + 8) % 64 == SextetAt(x, j)
  {
    var (q, p) := (j / 4, j % 4);
    assert j == 4 * q + p;
    PartsOfGroup(At(x, 3 * q), At(x, 3 * q + 1), At(x, 3 * q + 2));
    assert |x| == 3 * q + p;
    ShiftInZeros(val);
    Uncovered(Wrap32(val * 256), x[|x| - 1], 0);
  }

  // ----- The encoder -----

  /** The characters written so far are the first ones of the encoding. */
  ghost predicate Filled(d: seq<Byte>, src: seq<Byte>) {
    forall t | 0 <= t < |d| :: d[t] == Alphabet(SextetAt(src, t))
  }

  lemma FilledNone(src: seq<Byte>)
    ensures Filled([], src)
  {
  }

  lemma FilledMore(d: seq<Byte>, src: seq<Byte>)
    requires Filled(d, src)
    ensures Filled(d + [Alphabet(SextetAt(src, |d|))], src)
  {
  }

  lemma FilledEncodes(d: seq<Byte>, src: seq<Byte>)
    requires DataChars(|src|) <= |d| == EncodedSize(|src|) && Filled(d[..DataChars(|src|)], src)
    requires forall t | DataChars(|src|) <= t < |d| :: d[t] == PAD
    ensures d == Encode(src)
  {
    hide EncodedSize, DataChars, SextetAt, Alphabet;
    var m := DataChars(|src|);
    forall t | 0 <= t < |d| ensures d[t] == Encode(src)[t] {
      if t < m {
        assert d[t] == d[..m][t];
      }
    }
  }

  /** Writes one character. */
  method Emit(dst: array<Byte>, j: nat, s: Sextet, ghost src: seq<Byte>)
    requires j < dst.Length && Filled(dst[..j], src) && s == SextetAt(src, j)
    modifies dst
    ensures Filled(dst[..j + 1], src)
  {
    hide Alphabet, SextetAt, Filled;
    FilledMore(dst[..j], src);
    dst[j] := Alphabet(s);
    assert dst[..j + 1] == old(dst[..j]) + [dst[j]];
  }

  /** Writes the characters for which the accumulator holds all six bits. */
  method Drain(dst: array<Byte>, i: nat, j0: nat, val: int, valb0: int, ghost src: seq<Byte>)
    returns (j: nat, valb: int)
    requires 0 < i <= |src| && dst.Length == EncodedSize(|src|) && j0 <= dst.Length
    requires valb0 == 8 * i - 6 * j0 - 6 && valb0 in {2, 4, 6} && Filled(dst[..j0], src)
    requires val % 0x100 == src[i - 1] && (i > 1 ==> val % 0x1_0000 == src[i - 2] as int * 256 + src[i - 1])
    modifies dst
    ensures valb == 8 * i - 6 * j - 6 && valb in {-6, -4, -2} && j <= dst.Length && Filled(dst[..j], src)
  {
    hide ShiftRight, SextetAt, EncodedSize, Filled;
    j, valb := j0, valb0;
    while valb >= 0
      invariant valb == 8 * i - 6 * j - 6 && valb in {-6, -4, -2, 0, 2, 4, 6}
      invariant j <= dst.Length && Filled(dst[..j], src)
    {
      NextSextet(src, i, j, val);
      SlotFree(|src|, i, j);
      Emit(dst, j, ShiftRight(val, valb) % 64, src);
      j := j + 1;
      valb := valb - 6;
    }
  }

  method ToBase64(src: seq<Byte>) returns (r: Result<seq<Byte>>)
    ensures r == if src == [] then Err else Ok(Encode(src))
  {
    hide Wrap32, ShiftRight, SextetAt, EncodedSize, DataChars, Filled, Encode;
    if src == [] {
      return Err;
    }
    var n := |src|;
    var dst := new Byte[EncodedSize(n)];
    var val, valb := 0, -6;
    var i, j := 0, 0;
    FilledNone(src);
    assert dst[..0] == [];
    while i < n
      invariant i <= n && valb == 8 * i - 6 * j - 6 && valb in {-6, -4, -2}
      invariant i > 0 ==> val % 0x100 == src[i - 1]
      invariant j <= dst.Length && Filled(dst[..j], src)
    {
      ShiftInByte(val, src[i]);
      val := Wrap32(Wrap32(val * 256) + src[i]);
      valb := valb + 8;
      j, valb := Drain(dst, i + 1, j, val, valb, src);
      i := i + 1;
    }
    if valb > -6 {
      LastSextet(src, j, val);
      SlotFree(n, n, j);
      Emit(dst, j, ShiftRight(Wrap32(val * 256), valb + 8) % 64, src);
      j := j + 1;
    }
    DataCharsCount(n, valb, j);
    PadOut(dst, j);
    FilledEncodes(dst[..], src);
    return Ok(dst[..]);
  }

  /** Fills up with padding to a multiple of four characters. */
  method PadOut(dst: array<Byte>, j0: nat)
    requires j0 <= dst.Length < j0 + 4 && dst.Length % 4 == 0
    modifies dst
    ensures dst[..j0] == old(dst[..j0]) && forall t | j0 <= t < dst.Length :: dst[t] == PAD
    ensures dst[..][..j0] == old(dst[..j0])
  {
    var j := j0;
    while j % 4 != 0
      invariant j0 <= j <= dst.Length
      invariant dst[..j0] == old(dst[..j0]) && forall t | j0 <= t < j :: dst[t] == PAD
      decreases dst.Length - j
    {
      dst[j] := PAD;
      j := j + 1;
    }
  }

  lemma DataCharsCount(n: nat, valb: int, j: nat)
    requires -6 <= valb < 0
    requires valb == 8 * n - 6 * (if valb > -6 then j - 1 else j) - 6
    ensures j == DataChars(n) && j <= EncodedSize(n) && EncodedSize(n) < j + 4 && EncodedSize(n) % 4 == 0
  {
    Sizes(n, n / 3, n % 3);
    assert n == 3 * (n / 3) + n % 3;
  }

  /** There is room for every character the input has bits for. */
  lemma SlotFree(n: nat, i: nat, j: nat)
    requires i <= n && 6 * j < 8 * i
    ensures j < EncodedSize(n)
  {
    Sizes(n, n / 3, n % 3);
  }

  // ----- The decoder -----

  /** The 6-bit value of a character, or -1. */
  function Value(c: Byte): (v: int)
    ensures -1 <= v < 64
  {
    if 65 <= c < 91 then c - 65
    else if 97 <= c < 123 then c - 71
    else if 48 <= c < 58 then c + 4
    else if c == 43 then 62
    else if c == 47 then 63
    else -1
  }

  lemma ValueInvertsAlphabet(c: Byte, v: Sextet)
    ensures Value(c) == v <==> c == Alphabet(v)
  {
  }

  function RawSizeOf(encSize: nat, padding: nat): int {
    if encSize % 4 != 0 || padding > 2 then 0 else 3 * encSize / 4 - padding
  }

  /** The number of padding characters, as far as the decoder looks for them. */
  function Padding(src: seq<Byte>): (c: nat)
    requires |src| >= 2
    ensures c <= 2
  {
    if src[|src| - 2] == PAD then 2 else if src[|src| - 1] == PAD then 1 else 0
  }

  function RawSize(src: seq<Byte>): int {
    if |src| < 4 then 0 else RawSizeOf(|src|, Padding(src))
  }

  /** The number of characters before the first padding character. */
  function Prefix(src: seq<Byte>): (p: nat)
    ensures p <= |src| && (p < |src| ==> src[p] == PAD)
    ensures forall k | 0 <= k < p :: src[k] != PAD
  {
    if src == [] || src[0] == PAD then 0 else 1 + Prefix(src[1..])
  }

  /** The `p`-th byte of three, from the 6-bit values `a` and `b` it lies in. */
  function ByteFrom(p: nat, a: int, b: int): int {
    if p == 0 then a * 4 + b / 16 else if p == 1 then a % 16 * 16 + b / 4 else a % 4 * 64 + b
  }

  /** Byte `t` of the decoded data, put together from two neighbouring characters. */
  function ByteAt(src: seq<Byte>, t: nat): int
    requires 8 * (t + 1) <= 6 * |src|
  {
    var k := t / 3 * 4 + t % 3;
    ByteFrom(t % 3, Value(src[k]), Value(src[k + 1]))
  }

  /** The outcome of decoding: an error for a malformed length or an invalid character before the
      padding; otherwise a buffer of the computed size, filled as far as there are characters. */
  ghost predicate DecodesTo(src: seq<Byte>, r: Result<seq<Byte>>) {
    match r
    case Err => RawSize(src) == 0 || exists k | 0 <= k < Prefix(src) :: Value(src[k]) == -1
    case Ok(b) =>
      && RawSize(src) != 0 && |b| == RawSize(src)
      && (forall k | 0 <= k < Prefix(src) :: Value(src[k]) != -1)
      && forall t: nat | 8 * (t + 1) <= 6 * Prefix(src) :: t < |b| && b[t] == ByteAt(src, t)
  }

  method DecodeTable() returns (table: array<int>)
    ensures fresh(table) && table.Length == 256 && forall c: Byte :: table[c] == Value(c)
  {
    table := new int[256](_ => -1);
    for i := 0 to 64
      invariant forall c: Byte :: table[c] == if Value(c) < i then Value(c) else -1
    {
      forall c: Byte ensures Value(c) == i <==> c == Alphabet(i) {
        ValueInvertsAlphabet(c, i);
      }
      table[Alphabet(i)] := i;
    }
  }

  method FromBase64(src: seq<Byte>) returns (r: Result<seq<Byte>>)
    ensures DecodesTo(src, r)
  {
    hide Wrap32, ShiftRight, Value, ByteAt;
    var dstLen := RawSize(src);
    if dstLen == 0 {
      return Err;
    }
    var dst := new Byte[dstLen];
    var table := DecodeTable();
    var val, valb := 0, -8;
    var i, j := 0, 0;
    while i < |src|
      invariant i <= Prefix(src) && valb == 6 * i - 8 * j - 8 && -8 <= valb < 0
      invariant forall k | 0 <= k < i :: Value(src[k]) != -1
      invariant i > 0 ==> val % 64 == Value(src[i - 1])
      invariant i > 1 ==> val % 0x1000 == Value(src[i - 2]) * 64 + Value(src[i - 1])
      invariant j <= dst.Length && forall t: nat | t < j :: dst[t] == ByteAt(src, t)
      invariant forall c: Byte :: table[c] == Value(c)
    {
      var c := src[i];
      if c == PAD {
        break;
      }
      if table[c] == -1 {
        return Err;
      }
      ShiftInSextet(val, table[c]);
      val := Wrap32(Wrap32(val * 64) + table[c]);
      valb := valb + 6;
      if valb >= 0 {
        NextByte(src, i + 1, j, val);
        RoomLeft(src, i + 1, j);
        dst[j] := ShiftRight(val, valb) % 0x100;
        j := j + 1;
        valb := valb - 8;
      }
      i := i + 1;
    }
    return Ok(dst[..]);
  }

  lemma EightBits(x: int, d: int, u: int, s: Byte, r: int)
    requires 0 <= r < d && x == d * (256 * u + s) + r
    ensures x / d % 256 == s
  {
    Quotient(x, d, 256 * u + s, r);
  }

  /** What shifting the accumulator right uncovers, after the 6-bit values `a` and then `b` came in. */
  lemma UncoveredByte(val: int, a: Sextet, b: Sextet)
    requires val % 0x1000 == a as int * 64 + b
    ensures val / 16 % 0x100 == a as int * 4 + b / 16
    ensures val / 4 % 0x100 == a % 16 * 16 + b / 4
    ensures val % 0x100 == a % 4 * 64 + b
  {
    var (v, m, n) := (val / 0x1000, a as int, b as int);
    assert val == 0x1000 * v + 64 * m + n;
    assert m == 16 * (m / 16) + m % 16 && m == 4 * (m / 4) + m % 4 && n == 16 * (n / 16) + n % 16 && n == 4 * (n / 4) + n % 4;
    EightBits(val, 16, v, 4 * m + n / 16, n % 16);
    EightBits(val, 4, 4 * v + m / 16, m % 16 * 16 + n / 4, n % 4);
    EightBits(val, 1, 16 * v + m / 4, m % 4 * 64 + n, 0);
  }

  lemma NextByte(src: seq<Byte>, i: nat, j: nat, val: int)
    requires 1 < i <= |src| && 0 <= 6 * i - 8 * j - 8 < 6
    requires Value(src[i - 2]) != -1 && Value(src[i - 1]) != -1
    requires val % 0x1000 == Value(src[i - 2]) * 64 + Value(src[i - 1])
    ensures ShiftRight(val, 6 * i - 8 * j - 8) % 0x100 == ByteAt(src, j)
  {
    hide Value;
    var (a, b, v) := (Value(src[i - 2]), Value(src[i - 1]), val / 0x1000);
    var (q, p) := (j / 3, j % 3);
    assert j == 3 * q + p;
    assert i == 4 * q + p + 2;
    UncoveredByte(val, a, b);
  }

  /** The decoder never writes past the buffer it has computed. */
  lemma RoomLeft(src: seq<Byte>, i: nat, j: nat)
    requires RawSize(src) != 0 && i <= Prefix(src) && 8 * (j + 1) <= 6 * i
    ensures j < RawSize(src)
  {
    var m := |src| / 4;
    assert |src| == 4 * m;
    assert 3 * |src| / 4 == 3 * m by {
      Quotient(3 * |src|, 4, 3 * m, 0);
    }
  }

  // ----- Decoding undoes encoding -----

  /** The encoder's output, as the decoder reads it. */
  lemma EncodedShape(x: seq<Byte>)
    requires x != []
    ensures Prefix(Encode(x)) == DataChars(|x|)
    ensures RawSize(Encode(x)) == |x|
    ensures forall j | 0 <= j < DataChars(|x|) :: Value(Encode(x)[j]) == SextetAt(x, j)
  {
    hide SextetAt, Alphabet, Value, EncodedSize, DataChars;
    var (e, n, d) := (Encode(x), |x|, DataChars(|x|));
    DataFits(n);
    assert forall j | 0 <= j < |e| :: e[j] == PAD <==> j >= d;
    var p := Prefix(e);
    assert p < |e| ==> e[p] == PAD;
    assert d < |e| ==> e[d] == PAD;
    forall j | 0 <= j < d ensures Value(e[j]) == SextetAt(x, j) {
      ValueInvertsAlphabet(e[j], SextetAt(x, j));
    }
  }

  lemma DataFits(n: nat)
    requires n > 0
    ensures 2 <= DataChars(n) <= EncodedSize(n)
    ensures EncodedSize(n) - DataChars(n) == if n % 3 == 0 then 0 else 3 - n % 3
    ensures EncodedSize(n) % 4 == 0 && 3 * EncodedSize(n) / 4 - (EncodedSize(n) - DataChars(n)) == n
    ensures 8 * n <= 6 * DataChars(n)
  {
    var (q, r) := (n / 3, n % 3);
    Euclid(n, 3, q, r);
    SizesFit(n, q, r);
  }

  lemma SizesFit(n: nat, q: nat, r: nat)
    requires n > 0 && n == 3 * q + r && r < 3
    ensures 2 <= DataChars(n) <= EncodedSize(n)
    ensures EncodedSize(n) - DataChars(n) == if r == 0 then 0 else 3 - r
    ensures EncodedSize(n) % 4 == 0 && 3 * EncodedSize(n) / 4 - (EncodedSize(n) - DataChars(n)) == n
    ensures 8 * n <= 6 * DataChars(n)
  {
    hide EncodedSize, DataChars;
    Sizes(n, q, r);
    var m := if r == 0 then q else q + 1;
    Remainder(EncodedSize(n), 4, m, 0);
    Quotient(3 * EncodedSize(n), 4, 3 * m, 0);
  }

  /** Three bytes, put together again from their four 6-bit values. */
  lemma BytesOfParts(b0: Byte, b1: Byte, b2: Byte)
    ensures var g := b0 * 0x1_0000 + b1 * 0x100 + b2;
      && Part(g, 0) as int * 4 + Part(g, 1) / 16 == b0
      && Part(g, 1) % 16 * 16 + Part(g, 2) / 4 == b1
      && Part(g, 2) % 4 * 64 + Part(g, 3) == b2
  {
    hide Part;
    PartsOfGroup(b0, b1, b2);
    var (r0, q1, r1, q2) := (b0 % 4, b1 / 16, b1 % 16, b2 / 64);
    assert (16 * r0 + q1) / 16 == r0 && (16 * r0 + q1) % 16 == q1;
    assert (4 * r1 + q2) / 4 == r1 && (4 * r1 + q2) % 4 == q2;
  }

  lemma ByteRestored(x: seq<Byte>, t: nat)
    requires t < |x| && 8 * (t + 1) <= 6 * DataChars(|x|) && DataChars(|x|) <= |Encode(x)|
    requires forall j | 0 <= j < DataChars(|x|) :: Value(Encode(x)[j]) == SextetAt(x, j)
    ensures ByteAt(Encode(x), t) == x[t]
  {
    hide Encode, Part, Value, DataChars, Group, SextetAt;
    var (g, p) := (t / 3, t % 3);
    Euclid(t, 3, g, p);
    SextetInGroup(x, g, p);
    SextetInGroup(x, g, p + 1);
    var k := 4 * g + p;
    assert k + 1 < DataChars(|x|);
    assert Value(Encode(x)[k]) == SextetAt(x, k) && Value(Encode(x)[k + 1]) == SextetAt(x, k + 1);
    GroupBytes(x, g);
  }

  lemma SextetInGroup(x: seq<Byte>, g: nat, p: nat)
    requires p < 4
    ensures SextetAt(x, 4 * g + p) == Part(Group(x, g), p)
  {
    hide Part, Group;
    PositionInGroup(g, p);
  }

  lemma GroupBytes(x: seq<Byte>, g: nat)
    ensures var v := Group(x, g);
      && Part(v, 0) as int * 4 + Part(v, 1) / 16 == At(x, 3 * g)
      && Part(v, 1) % 16 * 16 + Part(v, 2) / 4 == At(x, 3 * g + 1)
      && Part(v, 2) % 4 * 64 + Part(v, 3) == At(x, 3 * g + 2)
  {
    hide Part;
    BytesOfParts(At(x, 3 * g), At(x, 3 * g + 1), At(x, 3 * g + 2));
  }

  lemma PositionInGroup(g: nat, p: nat)
    requires p < 4
    ensures (4 * g + p) / 4 == g && (4 * g + p) % 4 == p
  {
  }

  /** Decoding the encoding of any non-empty byte sequence gives the sequence back. */
  lemma RoundTrip(x: seq<Byte>, r: Result<seq<Byte>>)
    requires x != [] && DecodesTo(Encode(x), r)
    ensures r == Ok(x)
  {
    hide Encode, ByteAt, SextetAt, DataChars;
    EncodedShape(x);
    DataFits(|x|);
    forall t: nat | t < |x| ensures ByteAt(Encode(x), t) == x[t] {
      ByteRestored(x, t);
    }
    assert r.Ok? && r.value == x;
  }

  // ----- When encoding undoes decoding -----

  /** Padding stands exactly where it is counted, and the bits of the last character that belong to
      no byte are zero. */
  ghost predicate Canonical(src: seq<Byte>)
    requires |src| >= 4
  {
    var d := |src| - Padding(src);
    && (forall k | 0 <= k < |src| :: src[k] == PAD <==> k >= d)
    && (d == |src| - 1 ==> Value(src[d - 1]) % 4 == 0)
    && (d == |src| - 2 ==> Value(src[d - 1]) % 16 == 0)
  }

  /** An input that can be decoded has the size of the encoding of what is decoded. */
  lemma DecodedShape(src: seq<Byte>)
    requires RawSize(src) != 0
    ensures |src| >= 4 && |src| % 4 == 0 && RawSize(src) == |src| / 4 * 3 - Padding(src)
    ensures EncodedSize(RawSize(src)) == |src| && DataChars(RawSize(src)) == |src| - Padding(src)
  {
    hide EncodedSize, DataChars, Padding;
    var (m, c) := (|src| / 4, Padding(src));
    Euclid(|src|, 4, m, 0);
    Quotient(3 * |src|, 4, 3 * m, 0);
    if c == 0 {
      Sizes(3 * m, m, 0);
    } else {
      Sizes(3 * m - c, m - 1, 3 - c);
    }
  }

  /** Four 6-bit values, taken apart again from their three bytes. */
  lemma PartsOfBytes(v0: Sextet, v1: Sextet, v2: Sextet, v3: Sextet)
    ensures var (b0, b1, b2) := (v0 * 4 + v1 / 16, v1 % 16 * 16 + v2 / 4, v2 % 4 * 64 + v3);
      var g := b0 * 0x1_0000 + b1 * 0x100 + b2;
      Part(g, 0) == v0 && Part(g, 1) == v1 && Part(g, 2) == v2 && Part(g, 3) == v3
  {
    hide Part;
    var (b0, b1, b2) := (v0 as int * 4 + v1 / 16, v1 % 16 * 16 + v2 / 4, v2 % 4 * 64 + v3);
    PartsOfGroup(b0, b1, b2);
    Quotient(b0, 4, v0, v1 / 16);
    Remainder(b0, 4, v0, v1 / 16);
    Quotient(b1, 16, v1 % 16, v2 / 4);
    Remainder(b1, 16, v1 % 16, v2 / 4);
    Quotient(b2, 64, v2 % 4, v3);
    Remainder(b2, 64, v2 % 4, v3);
  }

  /** The value of a data character, and zero behind the data. */
  function ValueAt(src: seq<Byte>, d: nat, k: nat): int
    requires d <= |src|
  {
    if k < d then Value(src[k]) else 0
  }

  /** Byte `3 * q + p` of what is decoded from a canonical input, or the zero behind the last byte. */
  lemma DecodedByte(src: seq<Byte>, b: seq<Byte>, q: nat, p: nat)
    requires DecodesTo(src, Ok(b)) && |src| >= 4 && Canonical(src) && p < 3 && 4 * q < |src|
    ensures var d := |src| - Padding(src);
      At(b, 3 * q + p) == ByteFrom(p, ValueAt(src, d, 4 * q + p), ValueAt(src, d, 4 * q + p + 1))
  {
    hide Value, Padding, RawSize, EncodedSize, DataChars, ByteFrom, Canonical, ByteAt;
    DecodedShape(src);
    PrefixIsData(src);
    var (t, d, m) := (3 * q + p, |src| - Padding(src), |src| / 4);
    assert |src| == 4 * m;
    if t < |b| {
      assert 8 * (t + 1) <= 6 * d;
      ByteAtPosition(src, q, p);
      assert b[t] == ByteAt(src, t);
    } else {
      BehindLast(src, p);
    }
  }

  lemma ByteAtPosition(src: seq<Byte>, q: nat, p: nat)
    requires p < 3 && 8 * (3 * q + p + 1) <= 6 * |src|
    ensures ByteAt(src, 3 * q + p) == ByteFrom(p, Value(src[4 * q + p]), Value(src[4 * q + p + 1]))
  {
    hide Value, ByteFrom;
    Quotient(3 * q + p, 3, q, p);
    Remainder(3 * q + p, 3, q, p);
  }

  lemma BehindLast(src: seq<Byte>, p: nat)
    requires |src| >= 4 && Canonical(src) && 3 - Padding(src) <= p < 3
    ensures var (d, k) := (|src| - Padding(src), |src| - 4 + p);
      ByteFrom(p, ValueAt(src, d, k), ValueAt(src, d, k + 1)) == 0
  {
    hide Value, Padding;
  }

  lemma PrefixIsData(src: seq<Byte>)
    requires |src| >= 4 && Canonical(src)
    ensures Prefix(src) == |src| - Padding(src)
  {
    hide Value, Padding;
    var (p, d) := (Prefix(src), |src| - Padding(src));
    assert p < |src| ==> src[p] == PAD;
    assert d < |src| ==> src[d] == PAD;
  }

  /** The characters of a canonical input are those the decoded bytes are encoded with. */
  lemma CanonicalChar(src: seq<Byte>, b: seq<Byte>, q: nat, p: nat)
    requires DecodesTo(src, Ok(b)) && |src| >= 4 && Canonical(src) && p < 4 && 4 * q + p < |src| - Padding(src)
    ensures src[4 * q + p] == Alphabet(SextetAt(b, 4 * q + p))
  {
    hide Value, Padding, RawSize, Part, Alphabet, ByteAt, SextetAt, Canonical;
    PrefixIsData(src);
    DecodedShape(src);
    var d := |src| - Padding(src);
    var (v0, v1, v2, v3) := (ValueAt(src, d, 4 * q), ValueAt(src, d, 4 * q + 1), ValueAt(src, d, 4 * q + 2), ValueAt(src, d, 4 * q + 3));
    DecodedByte(src, b, q, 0);
    DecodedByte(src, b, q, 1);
    DecodedByte(src, b, q, 2);
    PartsOfBytes(v0, v1, v2, v3);
    SextetInGroup(b, q, p);
    ValueInvertsAlphabet(src[4 * q + p], SextetAt(b, 4 * q + p));
  }

  /** The bits behind the last byte are zero in an encoding. */
  lemma LeftoverBits(b: seq<Byte>, q: nat, r: nat)
    requires |b| == 3 * q + r && 0 < r < 3
    ensures SextetAt(b, 4 * q + r) % (if r == 1 then 16 else 4) == 0
  {
    hide Part, SextetAt;
    SextetInGroup(b, q, r);
    PartsOfGroup(At(b, 3 * q), At(b, 3 * q + 1), At(b, 3 * q + 2));
  }

  lemma EncodingIsCanonical(b: seq<Byte>)
    requires b != []
    ensures |Encode(b)| >= 4 && Canonical(Encode(b))
  {
    hide Value, Padding, EncodedSize, DataChars, SextetAt, RawSize, Alphabet;
    var (e, n) := (Encode(b), |b|);
    var (q, r) := (n / 3, n % 3);
    Euclid(n, 3, q, r);
    Sizes(n, q, r);
    EncodedShape(b);
    DecodedShape(e);
    if r != 0 {
      LeftoverBits(b, q, r);
      assert Value(e[4 * q + r]) == SextetAt(b, 4 * q + r);
    }
  }

  /** Encoding what was decoded gives the input back exactly if the input is canonical. */
  lemma DecodeThenEncode(src: seq<Byte>, b: seq<Byte>)
    requires DecodesTo(src, Ok(b))
    ensures |src| >= 4 && (Encode(b) == src <==> Canonical(src))
  {
    hide Value, Padding, RawSize, EncodedSize, DataChars, SextetAt, Alphabet, Canonical, ByteAt;
    DecodedShape(src);
    if Encode(b) == src {
      EncodingIsCanonical(b);
    } else if Canonical(src) {
      var d := |src| - Padding(src);
      forall k | 0 <= k < |src| ensures src[k] == Encode(b)[k] {
        if k < d {
          Euclid(k, 4, k / 4, k % 4);
          CanonicalChar(src, b, k / 4, k % 4);
        } else {
          PaddingStands(src, k);
        }
      }
    }
  }

  lemma PaddingStands(src: seq<Byte>, k: nat)
    requires |src| >= 4 && Canonical(src) && |src| - Padding(src) <= k < |src|
    ensures src[k] == PAD
  {
  }

  /** Leftover bits are not looked at, so there is a decoded input that is not the encoding of its bytes. */
  lemma UncanonicalOccurs()
    ensures DecodesTo([81, 82, PAD, PAD], Ok([65])) && !Canonical([81, 82, PAD, PAD])
  {
    var src: seq<Byte> := [81, 82, PAD, PAD];
    var p := Prefix(src);
    assert src[0] != PAD && src[1] != PAD && src[2] == PAD;
    assert p == 2;
    assert Value(src[0]) == 16 && Value(src[1]) == 17;
    assert ByteAt(src, 0) == 65;
  }

  // ----- Known answers -----

  /** The table of section 4 of RFC 4648: A to Z, a to z, 0 to 9, plus and slash. */
  lemma AlphabetInRuns()
    ensures Alphabet(0) == 'A' as int && Alphabet(25) == 'Z' as int && Alphabet(26) == 'a' as int && Alphabet(51) == 'z' as int
    ensures Alphabet(52) == '0' as int && Alphabet(61) == '9' as int && Alphabet(62) == '+' as int && Alphabet(63) == '/' as int
    ensures forall v: Sextet | v < 61 && v != 25 && v != 51 :: Alphabet(v + 1) == Alphabet(v) + 1
  {
  }

  lemma FourSextets(x: seq<Byte>, g: nat)
    ensures var (b0, b1, b2) := (At(x, 3 * g), At(x, 3 * g + 1), At(x, 3 * g + 2));
      && SextetAt(x, 4 * g) == b0 / 4 && SextetAt(x, 4 * g + 1) == b0 % 4 * 16 + b1 / 16
      && SextetAt(x, 4 * g + 2) == b1 % 16 * 4 + b2 / 64 && SextetAt(x, 4 * g + 3) == b2 % 64
  {
    hide Part, SextetAt;
    PartsOfGroup(At(x, 3 * g), At(x, 3 * g + 1), At(x, 3 * g + 2));
    SextetInGroup(x, g, 0);
    SextetInGroup(x, g, 1);
    SextetInGroup(x, g, 2);
    SextetInGroup(x, g, 3);
  }

  /** Test vectors of section 10 of RFC 4648, for each amount of padding: the letters "foob", "fooba" and
      "foobar". */
  lemma TestVectorFoob()
    ensures Encode([102, 111, 111, 98]) == [90, 109, 57, 118, 89, 103, 61, 61]
  {
    hide SextetAt, EncodedSize, DataChars;
    var x: seq<Byte> := [102, 111, 111, 98];
    FourSextets(x, 0);
    FourSextets(x, 1);
    Sizes(4, 1, 1);
  }

  lemma TestVectorFooba()
    ensures Encode([102, 111, 111, 98, 97]) == [90, 109, 57, 118, 89, 109, 69, 61]
  {
    hide SextetAt, EncodedSize, DataChars;
    var x: seq<Byte> := [102, 111, 111, 98, 97];
    FourSextets(x, 0);
    FourSextets(x, 1);
    Sizes(5, 1, 2);
  }

  lemma TestVectorFoobar()
    ensures Encode([102, 111, 111, 98, 97, 114]) == [90, 109, 57, 118, 89, 109, 70, 121]
  {
    hide SextetAt, EncodedSize, DataChars;
    var x: seq<Byte> := [102, 111, 111, 98, 97, 114];
    FourSextets(x, 0);
    FourSextets(x, 1);
    Sizes(6, 2, 0);
  }
}
