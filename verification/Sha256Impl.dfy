/** The streaming SHA-256 implementation, proved against FIPS 180-4 for every way of cutting the message. */
module Sha256Impl {
  import opened Bytes
  import opened Sha256Spec

  // ----- The word functions, in the form the implementation uses -----

  function ChFast(x: Word, y: Word, z: Word): Word { z ^ (x & (y ^ z)) }

  function MajFast(x: Word, y: Word, z: Word): Word { ((x | y) & z) | (x & y) }

  function Rot(x: Word, n: Word): Word { (x >> (n & 31)) | (x << (32 - (n & 31))) }

  function Sigma0(x: Word): Word { Xor3(Rot(x, 2), Rot(x, 13), Rot(x, 22)) }

  function Sigma1(x: Word): Word { Xor3(Rot(x, 6), Rot(x, 11), Rot(x, 25)) }

  function Gamma0(x: Word): Word { Xor3(Rot(x, 7), Rot(x, 18), x >> 3) }

  function Gamma1(x: Word): Word { Xor3(Rot(x, 17), Rot(x, 19), x >> 10) }

  lemma ChIsStandard(x: Word, y: Word, z: Word)
    ensures ChFast(x, y, z) == Ch(x, y, z)
  {
    assert z ^ (x & (y ^ z)) == (x & y) ^ (!x & z);
  }

  lemma MajIsStandard(x: Word, y: Word, z: Word)
    ensures MajFast(x, y, z) == Maj(x, y, z)
  {
    assert ((x | y) & z) | (x & y) == (x & y) ^ (x & z) ^ (y & z);
  }

  lemma RotIsStandard(x: Word)
    ensures Rot(x, 2) == Rotr(2, x) && Rot(x, 13) == Rotr(13, x) && Rot(x, 22) == Rotr(22, x)
    ensures Rot(x, 6) == Rotr(6, x) && Rot(x, 11) == Rotr(11, x) && Rot(x, 25) == Rotr(25, x)
    ensures Rot(x, 7) == Rotr(7, x) && Rot(x, 18) == Rotr(18, x)
    ensures Rot(x, 17) == Rotr(17, x) && Rot(x, 19) == Rotr(19, x)
  {
  }

  lemma SigmasAreStandard(x: Word)
    ensures Sigma0(x) == BigSigma0(x) && Sigma1(x) == BigSigma1(x)
    ensures Gamma0(x) == SmallSigma0(x) && Gamma1(x) == SmallSigma1(x)
  {
    hide Xor3, Rot, Rotr;
    RotIsStandard(x);
  }

  // ----- Blocks -----

  function VarsOf(s: seq<Word>): Vars
    requires |s| == 8
  {
    Vars(s[0], s[1], s[2], s[3], s[4], s[5], s[6], s[7])
  }

  lemma WordsOfVars(s: seq<Word>)
    requires |s| == 8
    ensures WordsOf(VarsOf(s)) == s
  {
  }

  lemma {:induction false} ScheduleStep(block: seq<bv8>, t: nat)
    requires |block| == 64 && t < 64
    ensures t < 16 ==> Schedule(block, t) == WordAt(block, 4 * t)
    ensures t >= 16 ==>
      var a, b := SmallSigma1(Schedule(block, t - 2)), SmallSigma0(Schedule(block, t - 15));
      Schedule(block, t) == Sum(Sum(Sum(a, Schedule(block, t - 7)), b), Schedule(block, t - 16))
  {
    hide Sum, SmallSigma0, SmallSigma1, WordAt;
  }

  method MessageSchedule(block: seq<bv8>) returns (w: array<Word>)
    requires |block| == 64
    ensures fresh(w) && w.Length == 64
    ensures forall t | 0 <= t < 64 :: w[t] == Schedule(block, t)
  {
    hide Schedule, Sum, Gamma0, Gamma1, SmallSigma0, SmallSigma1, WordAt;
    w := new Word[64](_ => 0);
    for i := 0 to 16
      invariant forall t | 0 <= t < i :: w[t] == Schedule(block, t)
    {
      ScheduleStep(block, i);
      w[i] := WordAt(block, 4 * i);
    }
    for i := 16 to 64
      invariant forall t | 0 <= t < i :: w[t] == Schedule(block, t)
    {
      ScheduleStep(block, i);
      SigmasAreStandard(w[i - 2]);
      SigmasAreStandard(w[i - 15]);
      w[i] := Sum(Sum(Sum(Gamma1(w[i - 2]), w[i - 7]), Gamma0(w[i - 15])), w[i - 16]);
    }
  }

  /** Moves every word up by one position, the last one to the front. */
  method Rotate(s: array<Word>)
    requires s.Length == 8
    modifies s
    ensures VarsOf(s[..]) == old(Vars(s[7], s[0], s[1], s[2], s[3], s[4], s[5], s[6]))
  {
    var t := s[7];
    s[7] := s[6];
    s[6] := s[5];
    s[5] := s[4];
    s[4] := s[3];
    s[3] := s[2];
    s[2] := s[1];
    s[1] := s[0];
    s[0] := t;
  }

  /** One round in place, followed by the rotation of the array by one position. */
  method RoundInPlace(s: array<Word>, k: Word, w: Word)
    requires s.Length == 8
    modifies s
    ensures VarsOf(s[..]) == Round(old(VarsOf(s[..])), k, w)
  {
    ChIsStandard(s[4], s[5], s[6]);
    MajIsStandard(s[0], s[1], s[2]);
    SigmasAreStandard(s[0]);
    SigmasAreStandard(s[4]);
    hide Sum, ChFast, Ch, MajFast, Maj, Sigma0, Sigma1, BigSigma0, BigSigma1;
    var t0 := Sum(Sum(Sum(Sum(s[7], Sigma1(s[4])), ChFast(s[4], s[5], s[6])), k), w);
    var t1 := Sum(Sigma0(s[0]), MajFast(s[0], s[1], s[2]));
    s[3] := Sum(s[3], t0);
    s[7] := Sum(t0, t1);
    Rotate(s);
  }

  method AllRounds(s: array<Word>, w: array<Word>, block: seq<bv8>)
    requires s.Length == 8 && w.Length == 64 && s != w && |block| == 64
    requires forall t | 0 <= t < 64 :: w[t] == Schedule(block, t)
    modifies s
    ensures VarsOf(s[..]) == Rounds(old(VarsOf(s[..])), block, 64)
  {
    hide Round, Schedule;
    for i := 0 to 64
      invariant VarsOf(s[..]) == Rounds(old(VarsOf(s[..])), block, i)
    {
      RoundInPlace(s, K(i), w[i]);
    }
  }

  method Feedback(state: array<Word>, s: array<Word>)
    requires state.Length == 8 && s.Length == 8 && s != state
    modifies state
    ensures VarsOf(state[..]) == Add(old(VarsOf(state[..])), VarsOf(s[..]))
  {
    hide Sum;
    for i := 0 to 8
      invariant forall k | 0 <= k < i :: state[k] == Sum(old(state[k]), s[k])
      invariant forall k | i <= k < 8 :: state[k] == old(state[k])
    {
      state[i] := Sum(state[i], s[i]);
    }
  }

  /** The compression function on the hash words in `state`. */
  method CompressInPlace(state: array<Word>, block: seq<bv8>)
    requires state.Length == 8 && |block| == 64
    modifies state
    ensures VarsOf(state[..]) == Compress(old(VarsOf(state[..])), block)
  {
    hide Add, Rounds, Schedule;
    var s := new Word[8];
    for i := 0 to 8
      invariant forall k | 0 <= k < i :: s[k] == state[k]
      invariant state[..] == old(state[..])
    {
      s[i] := state[i];
    }
    assert VarsOf(s[..]) == VarsOf(state[..]);
    var w := MessageSchedule(block);
    AllRounds(s, w, block);
    assert VarsOf(state[..]) == old(VarsOf(state[..]));
    Feedback(state, s);
  }

  lemma ChainAppend(m: seq<bv8>, block: seq<bv8>)
    requires |m| % 64 == 0 && |block| == 64
    ensures |m + block| % 64 == 0 && Chain(m + block) == Compress(Chain(m), block)
  {
    assert (m + block)[..|m|] == m && (m + block)[|m|..] == block;
  }

  // ----- The streaming context -----

  /** The bit length of `bytes` bytes, as a 64-bit counter holds it. */
  function BitLength(bytes: nat): nat {
    8 * bytes % U64
  }

  lemma BitLengthAdd(bytes: nat, more: nat)
    ensures (BitLength(bytes) + 8 * more) % U64 == BitLength(bytes + more)
  {
    var q := 8 * bytes / U64;
    assert 8 * (bytes + more) == BitLength(bytes) + 8 * more + U64 * q;
    ModuloMultiple(BitLength(bytes) + 8 * more, q);
  }

  lemma ModuloMultiple(x: nat, q: nat)
    ensures (x + U64 * q) % U64 == x % U64
  {
    var r := x / U64;
    assert x + U64 * q == U64 * (r + q) + x % U64;
  }

  /** `x >> 8 * k`. */
  function ShiftBytes(x: nat, k: nat): nat {
    if k == 0 then x else ShiftBytes(x / 256, k - 1)
  }

  lemma {:induction false} BigEndianAt(x: nat, count: nat, i: nat)
    requires i < count
    ensures BigEndian(x, count)[i] == LowByte(ShiftBytes(x, count - 1 - i))
  {
    if i < count - 1 {
      BigEndianAt(x / 256, count - 1, i);
    }
  }

  lemma ZerosAppend(m: nat, n: nat)
    ensures Zeros(m) + Zeros(n) == Zeros(m + n)
    ensures Zeros(0) == [] && Zeros(1) == [0]
  {
  }

  lemma JoinZeros(stream: seq<bv8>, m: nat, n: nat)
    ensures stream + Zeros(m) + Zeros(n) == stream + Zeros(m + n)
  {
    hide Zeros;
    ZerosAppend(m, n);
    assert stream + Zeros(m) + Zeros(n) == stream + (Zeros(m) + Zeros(n));
  }

  /** The padding ends in the block the message ends in, or in the next one when there is no room. */
  lemma ZeroBytesValue(blocks: nat, rest: nat)
    requires blocks % 64 == 0 && rest < 64
    ensures ZeroBytes(blocks + rest) == if rest < 56 then 55 - rest else 119 - rest
  {
    assert blocks == 64 * (blocks / 64);
  }

  lemma TakeNext(message: seq<bv8>, data: seq<bv8>, pos: nat, n: nat, before: seq<bv8>)
    requires pos + n <= |data| && message == before + data[..pos]
    ensures message + data[pos..pos + n] == before + data[..pos + n]
  {
    assert data[..pos] + data[pos..pos + n] == data[..pos + n];
  }

  /** Stores `w` at `at`, most significant byte first. */
  method StoreWord(w: Word, out: array<bv8>, at: nat)
    requires at + 4 <= out.Length
    modifies out
    ensures out[..at] == old(out[..at]) && out[at + 4..] == old(out[at + 4..])
    ensures out[at..at + 4] == WordBytes(w)
  {
    for i := 0 to 4
      invariant out[..at] == old(out[..at]) && out[at + 4..] == old(out[at + 4..])
      invariant forall j | 0 <= j < i :: out[at + j] == StoredByte(w, j)
    {
      out[at + i] := StoredByte(w, i);
    }
    StoredBytes(w);
    hide StoredByte, WordBytes;
    assert out[at + 0] == StoredByte(w, 0);
  }

  /** `(w >> ((3 - i) * 8)) & 255`. */
  function StoredByte(w: Word, i: nat): bv8
    requires i < 4
  {
    if i == 0 then ((w >> 24) & 255) as bv8
    else if i == 1 then ((w >> 16) & 255) as bv8
    else if i == 2 then ((w >> 8) & 255) as bv8
    else (w & 255) as bv8
  }

  lemma StoredBytes(w: Word)
    ensures WordBytes(w) == [StoredByte(w, 0), StoredByte(w, 1), StoredByte(w, 2), StoredByte(w, 3)]
  {
  }

  /** The output: the hash words one behind the other, where each of them can be read again. */
  method StoreState(state: array<Word>, out: array<bv8>)
    requires out.Length == 4 * state.Length
    modifies out
    ensures out[..] == BytesOf(state[..])
    ensures forall i | 0 <= i < state.Length :: WordAt(out[..], 4 * i) == state[i]
  {
    hide WordBytes;
    for i := 0 to state.Length
      invariant out[..4 * i] == BytesOf(state[..i])
    {
      ghost var before := out[..4 * i];
      StoreWord(state[i], out, 4 * i);
      assert out[..4 * i] == before;
      assert state[..i + 1][..i] == state[..i];
      assert out[..4 * (i + 1)] == out[..4 * i] + out[4 * i..4 * i + 4];
    }
    assert state[..state.Length] == state[..];
    assert out[..4 * state.Length] == out[..];
    forall i | 0 <= i < state.Length ensures WordAt(out[..], 4 * i) == state[i] {
      BytesReadBack(state[..], i);
    }
  }

  class Context {
    const state: array<Word>
    const buf: array<bv8>
    var curlen: nat
    var length: nat
    ghost var whole: seq<bv8>        // the blocks already compressed
    ghost var message: seq<bv8>      // everything absorbed so far

    /** The whole blocks of `stream` are in the hash words, the rest is at the front of the buffer. */
    ghost predicate Absorbed(stream: seq<bv8>)
      reads this, state, buf
    {
      && state.Length == 8 && buf.Length == 64 && curlen <= 64
      && |whole| % 64 == 0
      && stream == whole + buf[..curlen]
      && VarsOf(state[..]) == Chain(whole)
    }

    ghost predicate Valid()
      reads this, state, buf
    {
      Absorbed(message) && curlen < 64 && length == BitLength(|whole|)
    }

    constructor ()
      ensures Valid() && message == [] && fresh(state) && fresh(buf)
    {
      curlen := 0;
      length := 0;
      state := new Word[8];
      buf := new bv8[64];
      whole := [];
      message := [];
      new;
      state[0] := 0x6A09E667;
      state[1] := 0xBB67AE85;
      state[2] := 0x3C6EF372;
      state[3] := 0xA54FF53A;
      state[4] := 0x510E527F;
      state[5] := 0x9B05688C;
      state[6] := 0x1F83D9AB;
      state[7] := 0x5BE0CD19;
      assert VarsOf(state[..]) == Chain([]);
    }

    /** Compresses a full buffer. */
    method Flush(ghost stream: seq<bv8>)
      requires Absorbed(stream) && curlen == 64
      modifies this`curlen, this`whole, state
      ensures Absorbed(stream) && curlen == 0 && |whole| == old(|whole|) + 64
    {
      hide Chain, Compress;
      ChainAppend(whole, buf[..]);
      CompressInPlace(state, buf[..]);
      whole := whole + buf[..];
      curlen := 0;
    }

    /** Compresses one whole block taken directly from the input. */
    method AbsorbBlock(block: seq<bv8>)
      requires Valid() && curlen == 0 && |block| == 64
      modifies this`length, this`message, this`whole, state
      ensures Valid() && curlen == 0 && message == old(message) + block
    {
      hide Chain, Compress, BitLength;
      ChainAppend(whole, block);
      CompressInPlace(state, block);
      BitLengthAdd(|whole|, 64);
      length := (length + 64 * 8) % U64;
      whole := whole + block;
      message := message + block;
    }

    /** Buffers a part that does not reach past the end of the buffer, and compresses a full buffer. */
    method AbsorbPart(part: seq<bv8>)
      requires Valid() && 0 < |part| <= 64 - curlen
      modifies this`curlen, this`length, this`message, this`whole, state, buf
      ensures Valid() && message == old(message) + part
    {
      hide Chain, Compress, BitLength;
      forall k | 0 <= k < |part| {
        buf[curlen + k] := part[k];
      }
      curlen := curlen + |part|;
      message := message + part;
      if curlen == 64 {
        Flush(message);
        BitLengthAdd(|whole| - 64, 64);
        length := (length + 8 * 64) % U64;
      }
    }

    /** Absorbs `data`, whose length is converted to 32 bits on the way in. */
    method Update(data: seq<bv8>)
      requires Valid()
      modifies this`curlen, this`length, this`message, this`whole, state, buf
      ensures Valid() && message == old(message) + data[..|data| % U32]
    {
      hide Chain, BitLength, VarsOf;
      var inlen := |data| % U32;
      var pos := 0;
      while inlen > 0
        invariant 0 <= inlen && pos + inlen == |data| % U32
        invariant Valid() && message == old(message) + data[..pos]
      {
        var n := if curlen == 0 && inlen >= 64 then 64 else if inlen < 64 - curlen then inlen else 64 - curlen;
        TakeNext(message, data, pos, n, old(message));
        if curlen == 0 && inlen >= 64 {
          AbsorbBlock(data[pos..pos + 64]);
        } else {
          AbsorbPart(data[pos..pos + n]);
        }
        pos := pos + n;
        inlen := inlen - n;
      }
    }

    /** Appends zero bytes to the buffer up to position `limit`. */
    method PadZeros(limit: nat, ghost stream: seq<bv8>)
      requires Absorbed(stream) && curlen <= limit <= 64
      modifies this`curlen, buf
      ensures curlen == limit && Absorbed(stream + Zeros(limit - old(curlen)))
    {
      hide Chain;
      ghost var start := curlen;
      while curlen < limit
        invariant start <= curlen <= limit
        invariant Absorbed(stream + Zeros(curlen - start))
      {
        ghost var soFar := stream + Zeros(curlen - start);
        ZerosAppend(curlen - start, 1);
        assert stream + Zeros(curlen + 1 - start) == soFar + [0];
        buf[curlen] := 0;
        curlen := curlen + 1;
        assert soFar + [0] == whole + buf[..curlen];
      }
    }

    /** Stores the low 64 bits of `x` at the end of the buffer, most significant byte first. */
    method StoreLength(x: nat)
      requires buf.Length == 64
      modifies buf
      ensures buf[..56] == old(buf[..56]) && buf[56..] == BigEndian(x, 8)
    {
      hide LowByte, ShiftBytes;
      for i := 0 to 8
        invariant buf[..56] == old(buf[..56])
        invariant forall j | 56 <= j < 56 + i :: buf[j] == LowByte(ShiftBytes(x, 63 - j))
      {
        buf[56 + i] := LowByte(ShiftBytes(x, 7 - i));
      }
      forall j | 0 <= j < 8 ensures buf[56..][j] == BigEndian(x, 8)[j] {
        BigEndianAt(x, 8, j);
      }
    }

    /** Appends the 0x80 byte, for which there is always room. */
    method AppendOneBit()
      requires Absorbed(message) && curlen < 64
      modifies this`curlen, buf
      ensures curlen == old(curlen) + 1 && Absorbed(message + [0x80])
    {
      hide Chain, VarsOf;
      buf[curlen] := 0x80;
      curlen := curlen + 1;
      assert message + [0x80] == whole + buf[..curlen];
    }

    /** Fills the current block with zero bytes and compresses it. */
    method FillBlock(ghost stream: seq<bv8>)
      requires Absorbed(stream)
      modifies this`curlen, this`whole, state, buf
      ensures curlen == 0 && Absorbed(stream + Zeros(64 - old(curlen)))
    {
      hide Chain, VarsOf, Zeros;
      PadZeros(64, stream);
      Flush(stream + Zeros(64 - old(curlen)));
    }

    /** Appends the 0x80 byte and zero bytes up to position 56, in the next block when there is no room. */
    method PadTail()
      requires Absorbed(message) && curlen < 64
      modifies this`curlen, this`whole, state, buf
      ensures curlen == 56 && Absorbed(message + [0x80] + Zeros(ZeroBytes(|message|)))
    {
      hide Chain, Compress, VarsOf, ZeroBytes, Zeros;
      ZeroBytesValue(|whole|, curlen);
      AppendOneBit();
      ghost var stream := message + [0x80];
      if curlen > 56 {
        ghost var filled := 64 - curlen;
        FillBlock(stream);
        PadZeros(56, stream + Zeros(filled));
        JoinZeros(stream, filled, 56);
      } else {
        PadZeros(56, stream);
      }
    }

    /** Pads the message, compresses what is left and returns the digest. */
    method Finish() returns (digest: seq<bv8>)
      requires Valid() && 8 * |message| < U64
      modifies this`curlen, this`length, this`whole, state, buf
      ensures digest == Sha256(message)
      ensures |digest| == 32 && state.Length == 8 && forall i | 0 <= i < 8 :: WordAt(digest, 4 * i) == state[i]
    {
      hide Chain, Compress, VarsOf, WordsOf, BigEndian, ZeroBytes, Zeros, BytesOf, WordAt;
      BitLengthAdd(|whole|, curlen);
      length := (length + curlen * 8) % U64;
      assert length == 8 * |message|;
      PadTail();
      ghost var stream := message + [0x80] + Zeros(ZeroBytes(|message|));
      StoreLength(length);
      curlen := 64;
      assert buf[..64] == buf[..56] + buf[56..];
      assert stream + BigEndian(length, 8) == Pad(message);
      Flush(Pad(message));
      assert whole + [] == whole == Pad(message);
      var out := new bv8[32];
      StoreState(state, out);
      digest := out[..];
      WordsOfVars(state[..]);
    }
  }

  /** Absorbing `data` loses nothing if and only if its length fits into 32 bits. */
  lemma UpdateTakesAllExactly(data: seq<bv8>)
    ensures data[..|data| % U32] == data <==> |data| < 0x1_0000_0000
  {
    if |data| < U32 {
      assert data[..|data|] == data;
    } else {
      assert |data[..|data| % U32]| < |data|;
    }
  }

  /** However a message is cut into updates, the digest is that of the whole message. */
  method HashInParts(parts: seq<seq<bv8>>) returns (digest: seq<bv8>)
    requires forall part | part in parts :: |part| < U32
    requires 8 * |Flatten(parts)| < U64
    ensures digest == Sha256(Flatten(parts))
  {
    hide Sha256, Chain, VarsOf;
    var context := new Context();
    for i := 0 to |parts|
      invariant context.Valid() && context.message == Flatten(parts[..i])
      invariant fresh(context) && fresh(context.state) && fresh(context.buf)
    {
      assert parts[..i + 1][..i] == parts[..i];
      UpdateTakesAllExactly(parts[i]);
      context.Update(parts[i]);
    }
    assert parts[..|parts|] == parts;
    digest := context.Finish();
  }
}
