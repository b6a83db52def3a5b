/** The streaming SHA-256 object: a hash state, a buffer for an incomplete block, and byte counts
    kept modulo 2^32. */
module Sha256 {
  import opened Division
  import opened Sequences
  import opened Sha256Spec

  const BLOCK_SIZE := 64
  const WRAP := 0x1_0000_0000

  /** The padding `final` builds: like FIPS 180-4, but with the bit length reduced modulo 2^32. */
  function CodePad(m: seq<Byte>): seq<Byte> {
    m + [0x80] + Zeros(PadZeros(|m|)) + Zeros(4) + CountBytes(8 * |m| % WRAP)
  }

  lemma CodePadFills(m: seq<Byte>)
    ensures |CodePad(m)| % 64 == 0
  {
    PadZerosFill(|m|);
  }

  function CodeDigest(m: seq<Byte>): seq<Byte> {
    CodePadFills(m);
    Bytes(HashBlocks(InitialHash(), CodePad(m)))
  }

  lemma ZeroByte(x: Octet)
    ensures x as Byte == 0 <==> x == 0
  {
  }

  lemma UpperBytes(x: Count)
    ensures CountBytes(x) == Zeros(4) <==> x == 0
  {
    var d := Octets(x);
    OctetsRead(x);
    forall i | 0 <= i < 4 ensures CountBytes(x)[i] == 0 <==> d[i] == 0 {
      ZeroByte(d[i]);
    }
    assert CountBytes(x) == Zeros(4) <==> forall i | 0 <= i < 4 :: CountBytes(x)[i] == 0;
  }

  /** The code pads as FIPS 180-4 demands exactly for messages of less than 2^29 bytes. */
  lemma CodePadIsPad(m: seq<Byte>)
    requires |m| < 0x2000_0000_0000_0000
    ensures CodePad(m) == Pad(m) <==> |m| < 0x2000_0000
  {
    var hi := 8 * |m| / WRAP;
    UpperBytes(hi);
    var front := m + [0x80] + Zeros(PadZeros(|m|));
    var n := |front|;
    assert Pad(m)[n..n + 4] == CountBytes(hi);
    assert CodePad(m)[n..n + 4] == Zeros(4);
  }

  /** How the fields of a hasher depend on the bytes it has seen: the complete blocks are hashed, the
      rest is in the buffer. */
  ghost predicate Consistent(seen: seq<Byte>, len: nat, totLen: Count, block: seq<Byte>, h: seq<Word>) {
    && |block| == 2 * BLOCK_SIZE && |h| == 8
    && len < BLOCK_SIZE && len <= |seen| && (|seen| - len) % 64 == 0
    && totLen == (|seen| - len) % WRAP
    && block[..len] == seen[|seen| - len..]
    && h == HashBlocks(InitialHash(), seen[..|seen| - len])
  }

  function Copied<T>(a: seq<T>, at: nat, src: seq<T>): seq<T>
    requires at + |src| <= |a|
  {
    a[..at] + src + a[at + |src|..]
  }

  class Hasher {
    var totLen: Count
    var len: nat
    const block: array<Byte>
    const h: array<Word>

    /** All bytes received so far. */
    ghost var seen: seq<Byte>

    ghost predicate Valid()
      reads this, block, h
    {
      block.Length == 2 * BLOCK_SIZE && h.Length == 8 && Consistent(seen, len, totLen, block[..], h[..])
    }

    constructor ()
      ensures Valid() && seen == [] && fresh(block) && fresh(h)
    {
      block := new Byte[2 * BLOCK_SIZE](_ => 0);
      var iv := InitialHash();
      h := new Word[8](i requires 0 <= i < 8 => iv[i]);
      len := 0;
      totLen := 0;
      seen := [];
      new;
      assert h[..] == iv;
    }

    /** Hashes `blockNb` consecutive blocks of `message` into the state. */
    method Transform(message: seq<Byte>, blockNb: nat)
      requires 64 * blockNb <= |message| && h.Length == 8
      modifies h
      ensures h[..] == HashBlocks(old(h[..]), message[..64 * blockNb])
    {
      hide Compress;
      var i := 0;
      while i < blockNb
        invariant i <= blockNb
        invariant h[..] == HashBlocks(old(h[..]), message[..64 * i])
      {
        TransformBlock(message[64 * i..64 * (i + 1)]);
        HashOneMore(old(h[..]), message, i);
        i := i + 1;
      }
    }

    method TransformBlock(subBlock: seq<Byte>)
      requires |subBlock| == 64 && h.Length == 8
      modifies h
      ensures h[..] == Compress(old(h[..]), subBlock)
    {
      hide Add, Rounds, Schedule;
      ghost var h0 := h[..];
      var w := PrepareSchedule(subBlock);
      var wv := RunRounds(h[..], subBlock, w);
      for j := 0 to 8
        invariant forall i | 0 <= i < j :: h[i] == Add(h0[i], wv[i])
        invariant forall i | j <= i < 8 :: h[i] == h0[i]
      {
        h[j] := Add(h[j], wv[j]);
      }
      assert h[..] == Compress(h0, subBlock);
    }

    /** Hashes the next chunk of data, as long as the offset of its last block fits a signed integer. */
    method Update(message: seq<Byte>)
      requires Valid() && len + |message| < 0x8000_0080
      modifies this, block, h
      ensures Valid() && seen == old(seen) + message
    {
      hide HashBlocks, InitialHash, Consistent, Copied;
      var n := |message|;
      var tmpLen := BLOCK_SIZE - len;
      LengthBelowBlock(seen, len, totLen, block[..], h[..]);
      var remLen := if n < tmpLen then n else tmpLen;
      ghost var seen0, b0, h0 := seen, block[..], h[..];
      MemCopy(block, len, message[..remLen]);
      seen := seen + message;
      if (len + n) % WRAP < BLOCK_SIZE {
        BufferMore(seen0, len, totLen, b0, h0, message);
        len := len + n;
        return;
      }
      var newLen := n - remLen;
      var blockNb := newLen / BLOCK_SIZE;
      var shifted := message[remLen..];
      assert shifted == shifted[..64 * blockNb] + shifted[64 * blockNb..];
      Transform(block[..], 1);
      Transform(shifted, blockNb);
      remLen := newLen % BLOCK_SIZE;
      MemCopy(block, 0, shifted[64 * blockNb..]);
      HashMore(seen0, len, totLen, b0, h0, message, blockNb, Copied(b0, len, message[..BLOCK_SIZE - len]),
               shifted[..64 * blockNb], shifted[64 * blockNb..], h[..]);
      len := remLen;
      totLen := (totLen + (blockNb + 1) * 64) % WRAP;
    }

    /** Finishes the computation. The hasher cannot be used afterwards. */
    method Final() returns (digest: seq<Byte>)
      requires Valid()
      modifies this, block, h
      ensures digest == CodeDigest(old(seen))
    {
      hide HashBlocks, InitialHash, Consistent, Copied, CodeDigest, CountBytes, Zeros, Bytes, PadZeros;
      LengthBelowBlock(seen, len, totLen, block[..], h[..]);
      ghost var b0, h0 := block[..], h[..];
      var blockNb := if BLOCK_SIZE - 9 < len % BLOCK_SIZE then 2 else 1;
      var lenB := (totLen + len) % WRAP * 8 % WRAP;
      var pmLen := blockNb * 64;
      MemCopy(block, len, Zeros(pmLen - len));
      block[len] := 0x80;
      MemCopy(block, pmLen - 4, CountBytes(lenB));
      FinishHash(seen, len, totLen, b0, h0, pmLen, lenB);
      Transform(block[..], blockNb);
      digest := Bytes(h[..]);
    }
  }

  /** `memcpy` into a buffer. */
  method MemCopy(a: array<Byte>, at: nat, src: seq<Byte>)
    requires at + |src| <= a.Length
    modifies a
    ensures a[..] == Copied(old(a[..]), at, src)
  {
    for i := 0 to |src|
      invariant forall k | 0 <= k < a.Length :: a[k] == if at <= k < at + i then src[k - at] else old(a[k])
    {
      a[at + i] := src[i];
    }
  }

  lemma AbsorbCounts(done: nat, blockNb: nat)
    requires done % 64 == 0
    ensures (done + 64 * (blockNb + 1)) % 64 == 0
    ensures (done + 64 * (blockNb + 1)) % WRAP == (done % WRAP + (blockNb + 1) * 64) % WRAP
  {
    var (q, more) := (done / 64, (blockNb + 1) * 64);
    Euclid(done, 64, q, 0);
    Remainder(done + more, 64, q + blockNb + 1, 0);
    SumRemainder(done, more, WRAP);
  }

  /** Hashing block by block is hashing the concatenation. */
  lemma HashThree(done: seq<Byte>, first: seq<Byte>, rest: seq<Byte>)
    requires |done| % 64 == 0 && |first| % 64 == 0 && |rest| % 64 == 0
    ensures |done + first + rest| % 64 == 0
    ensures HashBlocks(InitialHash(), done + first + rest) ==
      HashBlocks(HashBlocks(HashBlocks(InitialHash(), done), first), rest)
  {
    hide HashBlocks;
    HashBlocksConcat(InitialHash(), done + first, rest);
    HashBlocksConcat(InitialHash(), done, first);
  }

  lemma LengthBelowBlock(seen: seq<Byte>, len: nat, totLen: Count, block: seq<Byte>, h: seq<Word>)
    requires Consistent(seen, len, totLen, block, h)
    ensures len < BLOCK_SIZE && |block| == 2 * BLOCK_SIZE && |h| == 8
  {
  }

  /** A chunk that does not fill the block is only buffered. */
  lemma BufferMore(seen: seq<Byte>, len: nat, totLen: Count, block: seq<Byte>, h: seq<Word>, message: seq<Byte>)
    requires Consistent(seen, len, totLen, block, h) && len + |message| < BLOCK_SIZE
    ensures Consistent(seen + message, len + |message|, totLen, Copied(block, len, message), h)
    ensures message[..|message|] == message
  {
    hide HashBlocks, InitialHash;
    var all, len' := seen + message, len + |message|;
    assert all[..|all| - len'] == seen[..|seen| - len];
    assert all[|all| - len'..] == seen[|seen| - len..] + message;
  }

  /** A chunk that fills the block is hashed up to the last complete block: `first` is the buffer
      once filled, `rest` the further blocks, `left` what is buffered then, `h2` the new state. */
  lemma HashMore(seen: seq<Byte>, len: nat, totLen: Count, block: seq<Byte>, h: seq<Word>, message: seq<Byte>,
                 blockNb: nat, first: seq<Byte>, rest: seq<Byte>, left: seq<Byte>, h2: seq<Word>)
    requires Consistent(seen, len, totLen, block, h) && len + |message| >= BLOCK_SIZE
    requires blockNb == (|message| - (BLOCK_SIZE - len)) / 64
    requires first == Copied(block, len, message[..BLOCK_SIZE - len])
    requires message[BLOCK_SIZE - len..] == rest + left && |rest| == 64 * blockNb && |rest| % 64 == 0
    requires h2 == HashBlocks(HashBlocks(h, first[..64]), rest)
    ensures |left| == (|message| - (BLOCK_SIZE - len)) % 64 < BLOCK_SIZE
    ensures Consistent(seen + message, |left|, (totLen + (blockNb + 1) * 64) % WRAP, Copied(first, 0, left), h2)
  {
    hide HashBlocks, InitialHash;
    var done, tail, head := seen[..|seen| - len], block[..len], message[..BLOCK_SIZE - len];
    CopiedTwice(block, len, head, left);
    AbsorbCounts(|done|, blockNb);
    HashThree(done, tail + head, rest);
    assert seen == done + tail && message == head + (rest + left);
    CutAgain(done, tail, head, rest, left);
  }

  lemma CopiedTwice<T>(a: seq<T>, at: nat, src: seq<T>, left: seq<T>)
    requires at + |src| <= |a| && |left| <= |a|
    ensures var first := Copied(a, at, src);
      && |first| == |a| && first[..at + |src|] == a[..at] + src
      && |Copied(first, 0, left)| == |a| && Copied(first, 0, left)[..|left|] == left
  {
  }

  lemma CutAgain<T>(done: seq<T>, tail: seq<T>, head: seq<T>, rest: seq<T>, left: seq<T>)
    ensures var all := (done + tail) + (head + (rest + left));
      && |all| == |done| + |tail| + |head| + |rest| + |left|
      && all[..|all| - |left|] == done + (tail + head) + rest && all[|all| - |left|..] == left
  {
  }

  /** The buffer with zeros behind the message, the byte 0x80 and four bytes of the length. */
  function LaidOut(block: seq<Byte>, len: nat, pmLen: nat, u: seq<Byte>): (last: seq<Byte>)
    requires len + 9 <= pmLen <= |block| && |u| == 4
    ensures |last| == |block|
  {
    Copied(Copied(block, len, Zeros(pmLen - len))[len := 0x80], pmLen - 4, u)
  }

  /** The padded rest of the message, as `final` lays it out in the buffer. */
  lemma FinishHash(seen: seq<Byte>, len: nat, totLen: Count, block: seq<Byte>, h: seq<Word>, pmLen: nat, lenB: Count)
    requires Consistent(seen, len, totLen, block, h)
    requires pmLen == if 55 < len then 128 else 64
    requires lenB == (totLen + len) % WRAP * 8 % WRAP
    ensures len + 9 <= pmLen <= |block| && |h| == 8
    ensures CodeDigest(seen) == Bytes(HashBlocks(h, LaidOut(block, len, pmLen, CountBytes(lenB))[..pmLen]))
  {
    hide HashBlocks, InitialHash, CodeDigest, CountBytes, Bytes, PadZeros, LaidOut;
    var done, tail := seen[..|seen| - len], block[..len];
    assert seen == done + tail;
    BitLength(|seen|, |done|, len);
    LastLength(|seen|, |done|, len);
    LastBlocks(seen, done, tail);
    FinalBlock(block, len, pmLen, PadZeros(|seen|), CountBytes(lenB));
  }

  lemma FinalBlock(b: seq<Byte>, len: nat, pmLen: nat, z: nat, u: seq<Byte>)
    requires len + 1 + z + 8 == pmLen <= |b| && |u| == 4
    ensures LaidOut(b, len, pmLen, u)[..pmLen] == b[..len] + [0x80] + Zeros(z) + Zeros(4) + u
  {
  }

  lemma ModMinus(a: nat, b: nat)
    requires a % 64 == 0 && (a + b) % 64 == 0
    ensures b % 64 == 0
  {
  }

  lemma ModPlus(x: nat, k: nat)
    ensures (x + WRAP * k) % WRAP == x % WRAP
  {
  }

  lemma BitLength(seen: nat, done: nat, tail: nat)
    requires seen == done + tail && tail < 64
    ensures (done % WRAP + tail) % WRAP * 8 % WRAP == 8 * seen % WRAP
  {
    var (q, r) := (done / WRAP, done % WRAP);
    ModPlus(r + tail, q);
    var p := seen / WRAP;
    ModPlus(8 * (seen % WRAP), 8 * p);
  }

  lemma LastLength(seen: nat, done: nat, tail: nat)
    requires seen == done + tail && done % 64 == 0 && tail < 64
    ensures tail + 1 + PadZeros(seen) + 8 == if 55 < tail then 128 else 64
  {
    assert seen == 64 * (done / 64) + tail;
    PadZerosFill(seen);
  }

  lemma HashRest(done: seq<Byte>, last: seq<Byte>)
    requires |done| % 64 == 0 && |done + last| % 64 == 0
    ensures |last| % 64 == 0
    ensures HashBlocks(InitialHash(), done + last) == HashBlocks(HashBlocks(InitialHash(), done), last)
  {
    hide HashBlocks;
    ModMinus(|done|, |last|);
    HashBlocksConcat(InitialHash(), done, last);
  }

  lemma LastBlocks(seen: seq<Byte>, done: seq<Byte>, tail: seq<Byte>)
    requires seen == done + tail && |done| % 64 == 0
    ensures var last := tail + [0x80] + Zeros(PadZeros(|seen|)) + Zeros(4) + CountBytes(8 * |seen| % WRAP);
      |last| % 64 == 0 && CodeDigest(seen) == Bytes(HashBlocks(HashBlocks(InitialHash(), done), last))
  {
    hide HashBlocks, CountBytes, PadZeros, Zeros, Bytes, InitialHash;
    CodePadFills(seen);
    var (z, z4, u) := (Zeros(PadZeros(|seen|)), Zeros(4), CountBytes(8 * |seen| % WRAP));
    var last := tail + [0x80] + z + z4 + u;
    assert CodePad(seen) == seen + [0x80] + z + z4 + u;
    RegroupSix(done, tail, [0x80], z, z4, u);
    HashRest(done, last);
  }

  lemma HashOneMore(h: seq<Word>, message: seq<Byte>, i: nat)
    requires |h| == 8 && 64 * (i + 1) <= |message|
    ensures HashBlocks(h, message[..64 * (i + 1)]) ==
      Compress(HashBlocks(h, message[..64 * i]), message[64 * i..64 * (i + 1)])
  {
    hide Compress;
    var m := message[..64 * (i + 1)];
    assert m[..|m| - 64] == message[..64 * i] && m[|m| - 64..] == message[64 * i..64 * (i + 1)];
  }

  method PrepareSchedule(subBlock: seq<Byte>) returns (w: array<Word>)
    requires |subBlock| == 64
    ensures w.Length == 64 && forall t | 0 <= t < 64 :: w[t] == Schedule(subBlock, t)
  {
    hide Pack, Add, SmallSigma0, SmallSigma1;
    w := new Word[64];
    for j := 0 to 16
      invariant forall t | 0 <= t < j :: w[t] == Schedule(subBlock, t)
    {
      w[j] := Pack(subBlock, 4 * j);
    }
    for j := 16 to 64
      invariant forall t | 0 <= t < j :: w[t] == Schedule(subBlock, t)
    {
      w[j] := Add(Add(Add(SmallSigma1(w[j - 2]), w[j - 7]), SmallSigma0(w[j - 15])), w[j - 16]);
    }
  }

  /** The moves of one round on the working variables. */
  method ShiftIn<T>(wv: array<T>, a: T, e: T)
    requires wv.Length == 8
    modifies wv
    ensures wv[..] == old([a, wv[0], wv[1], wv[2], e, wv[4], wv[5], wv[6]])
  {
    wv[7] := wv[6];
    wv[6] := wv[5];
    wv[5] := wv[4];
    wv[4] := e;
    wv[3] := wv[2];
    wv[2] := wv[1];
    wv[1] := wv[0];
    wv[0] := a;
  }

  method RunRounds(h: seq<Word>, subBlock: seq<Byte>, w: array<Word>) returns (v: seq<Word>)
    requires |h| == 8 && |subBlock| == 64
    requires w.Length == 64 && forall t | 0 <= t < 64 :: w[t] == Schedule(subBlock, t)
    ensures v == Rounds(h, subBlock, 64)
  {
    hide Add, BigSigma0, BigSigma1, Ch, Maj, K, Schedule;
    var wv := new Word[8](i requires 0 <= i < 8 => h[i]);
    assert wv[..] == h;
    for j := 0 to 64
      invariant wv[..] == Rounds(h, subBlock, j)
      invariant forall t | 0 <= t < 64 :: w[t] == Schedule(subBlock, t)
    {
      var t1 := Add(Add(Add(Add(wv[7], BigSigma1(wv[4])), Ch(wv[4], wv[5], wv[6])), K(j)), w[j]);
      var t2 := Add(BigSigma0(wv[0]), Maj(wv[0], wv[1], wv[2]));
      ShiftIn(wv, Add(t1, t2), Add(wv[3], t1));
    }
    v := wv[..];
  }

  function Concat(chunks: seq<seq<Byte>>): seq<Byte> {
    if chunks == [] then [] else Concat(chunks[..|chunks| - 1]) + chunks[|chunks| - 1]
  }

  lemma {:induction false} ConcatPrefix(chunks: seq<seq<Byte>>, i: nat)
    requires i < |chunks|
    ensures Concat(chunks[..i + 1]) == Concat(chunks[..i]) + chunks[i]
    decreases |chunks|
  {
    assert chunks[..i + 1][..i] == chunks[..i];
    if i < |chunks| - 1 {
      ConcatPrefix(chunks[..|chunks| - 1], i);
    } else {
      assert chunks[..i + 1] == chunks;
    }
  }

  /** Feeding the chunks one after the other gives a digest of their concatenation, so it does not depend
      on the chunk boundaries: that of FIPS 180-4 for fewer than 2^29 bytes in all. */
  method HashChunks(chunks: seq<seq<Byte>>) returns (digest: seq<Byte>)
    requires forall c | c in chunks :: |c| <= 0x8000_0000
    ensures digest == CodeDigest(Concat(chunks))
    ensures |Concat(chunks)| < 0x2000_0000 ==> digest == Digest(Concat(chunks))
  {
    hide HashBlocks, InitialHash, Consistent, CodePad, Pad, Bytes;
    var hasher := new Hasher();
    var i := 0;
    while i < |chunks|
      invariant i <= |chunks|
      invariant hasher.Valid() && fresh(hasher) && fresh(hasher.block) && fresh(hasher.h)
      invariant hasher.seen == Concat(chunks[..i])
    {
      ConcatPrefix(chunks, i);
      LengthBelowBlock(hasher.seen, hasher.len, hasher.totLen, hasher.block[..], hasher.h[..]);
      assert chunks[i] in chunks;
      hasher.Update(chunks[i]);
      i := i + 1;
    }
    assert chunks[..i] == chunks;
    digest := hasher.Final();
    if |Concat(chunks)| < 0x2000_0000 {
      CodePadIsPad(Concat(chunks));
    }
  }
}
