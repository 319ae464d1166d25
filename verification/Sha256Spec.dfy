/** SHA-256 as FIPS 180-4 defines it, on messages of whole bytes. */
module Sha256Spec {
  type Word = bv32

  /** The eight hash words, or the eight working variables, of section 6.2. */
  datatype Vars = Vars(a: Word, b: Word, c: Word, d: Word, e: Word, f: Word, g: Word, h: Word)

  // Section 4.2.2, eight words in a row

  const K0: seq<Word> := [
    0x428a2f98, 0x71374491, 0xb5c0fbcf, 0xe9b5dba5,
    0x3956c25b, 0x59f111f1, 0x923f82a4, 0xab1c5ed5]
  const K1: seq<Word> := [
    0xd807aa98, 0x12835b01, 0x243185be, 0x550c7dc3,
    0x72be5d74, 0x80deb1fe, 0x9bdc06a7, 0xc19bf174]
  const K2: seq<Word> := [
    0xe49b69c1, 0xefbe4786, 0x0fc19dc6, 0x240ca1cc,
    0x2de92c6f, 0x4a7484aa, 0x5cb0a9dc, 0x76f988da]
  const K3: seq<Word> := [
    0x983e5152, 0xa831c66d, 0xb00327c8, 0xbf597fc7,
    0xc6e00bf3, 0xd5a79147, 0x06ca6351, 0x14292967]
  const K4: seq<Word> := [
    0x27b70a85, 0x2e1b2138, 0x4d2c6dfc, 0x53380d13,
    0x650a7354, 0x766a0abb, 0x81c2c92e, 0x92722c85]
  const K5: seq<Word> := [
    0xa2bfe8a1, 0xa81a664b, 0xc24b8b70, 0xc76c51a3,
    0xd192e819, 0xd6990624, 0xf40e3585, 0x106aa070]
  const K6: seq<Word> := [
    0x19a4c116, 0x1e376c08, 0x2748774c, 0x34b0bcb5,
    0x391c0cb3, 0x4ed8aa4a, 0x5b9cca4f, 0x682e6ff3]
  const K7: seq<Word> := [
    0x748f82ee, 0x78a5636f, 0x84c87814, 0x8cc70208,
    0x90befffa, 0xa4506ceb, 0xbef9a3f7, 0xc67178f2]

  function K(t: nat): Word
    requires t < 64
  {
    [K0, K1, K2, K3, K4, K5, K6, K7][t / 8][t % 8]
  }

  /** Section 5.3.3. */
  const H0: Vars := Vars(0x6a09e667, 0xbb67ae85, 0x3c6ef372, 0xa54ff53a,
                         0x510e527f, 0x9b05688c, 0x1f83d9ab, 0x5be0cd19)

  // Section 4.1.2

  function Ch(x: Word, y: Word, z: Word): Word { (x & y) ^ (!x & z) }

  function Maj(x: Word, y: Word, z: Word): Word { (x & y) ^ (x & z) ^ (y & z) }

  function Xor3(x: Word, y: Word, z: Word): Word { x ^ y ^ z }

  /** Section 3.2: addition modulo 2^32. */
  function Sum(x: Word, y: Word): Word { x + y }

  /** Section 3.2: rotation to the right by `n` positions. */
  function Rotr(n: Word, x: Word): Word
    requires n <= 32
  {
    (x >> n) | (x << (32 - n))
  }

  function BigSigma0(x: Word): Word { Xor3(Rotr(2, x), Rotr(13, x), Rotr(22, x)) }

  function BigSigma1(x: Word): Word { Xor3(Rotr(6, x), Rotr(11, x), Rotr(25, x)) }

  function SmallSigma0(x: Word): Word { Xor3(Rotr(7, x), Rotr(18, x), x >> 3) }

  function SmallSigma1(x: Word): Word { Xor3(Rotr(17, x), Rotr(19, x), x >> 10) }

  /** The big-endian word at byte offset `at`. */
  function WordAt(block: seq<bv8>, at: nat): Word
    requires at + 4 <= |block|
  {
    (block[at] as Word << 24) | (block[at + 1] as Word << 16) | (block[at + 2] as Word << 8) | (block[at + 3] as Word)
  }

  /** The message schedule, step 1 of section 6.2.2. */
  function Schedule(block: seq<bv8>, t: nat): Word
    requires |block| == 64 && t < 64
  {
    if t < 16 then WordAt(block, 4 * t)
    else Sum(Sum(Sum(SmallSigma1(Schedule(block, t - 2)), Schedule(block, t - 7)),
                 SmallSigma0(Schedule(block, t - 15))), Schedule(block, t - 16))
  }

  /** One round, step 3 of section 6.2.2. */
  function Round(v: Vars, k: Word, w: Word): Vars {
    var t1 := Sum(Sum(Sum(Sum(v.h, BigSigma1(v.e)), Ch(v.e, v.f, v.g)), k), w);
    var t2 := Sum(BigSigma0(v.a), Maj(v.a, v.b, v.c));
    Vars(Sum(t1, t2), v.a, v.b, v.c, Sum(v.d, t1), v.e, v.f, v.g)
  }

  function Rounds(v: Vars, block: seq<bv8>, t: nat): Vars
    requires |block| == 64 && t <= 64
  {
    if t == 0 then v else Round(Rounds(v, block, t - 1), K(t - 1), Schedule(block, t - 1))
  }

  function Add(v: Vars, w: Vars): Vars {
    Vars(Sum(v.a, w.a), Sum(v.b, w.b), Sum(v.c, w.c), Sum(v.d, w.d),
         Sum(v.e, w.e), Sum(v.f, w.f), Sum(v.g, w.g), Sum(v.h, w.h))
  }

  function Compress(v: Vars, block: seq<bv8>): Vars
    requires |block| == 64
  {
    Add(v, Rounds(v, block, 64))
  }

  /** The hash value after all whole blocks of `m`. */
  function Chain(m: seq<bv8>): Vars
    requires |m| % 64 == 0
  {
    if m == [] then H0
    else Compress(Chain(m[..|m| - 64]), m[|m| - 64..])
  }

  /** `count` bytes holding `n` in big-endian order. */
  function BigEndian(n: nat, count: nat): (r: seq<bv8>)
    ensures |r| == count
  {
    if count == 0 then [] else BigEndian(n / 256, count - 1) + [LowByte(n)]
  }

  function LowByte(n: nat): bv8 {
    (n % 256) as bv8
  }

  /** Section 5.1.1: how many zero bytes stand between the 0x80 byte and the length. */
  function ZeroBytes(length: nat): (k: nat)
    ensures (length + 1 + k) % 64 == 56 && k < 64
  {
    (55 - length) % 64
  }

  function Zeros(n: nat): seq<bv8> {
    seq(n, _ => 0)
  }

  lemma PaddedLength(length: nat)
    ensures (length + 1 + ZeroBytes(length) + 8) % 64 == 0
  {
    var q := (length + 1 + ZeroBytes(length)) / 64;
    assert length + 1 + ZeroBytes(length) + 8 == 64 * (q + 1);
  }

  /** Section 5.1.1 for a message shorter than 2^64 bits. */
  function Pad(m: seq<bv8>): (p: seq<bv8>)
    requires 8 * |m| < 0x1_0000_0000_0000_0000
    ensures |p| % 64 == 0
  {
    PaddedLength(|m|);
    m + [0x80] + Zeros(ZeroBytes(|m|)) + BigEndian(8 * |m|, 8)
  }

  /** The eight bytes of a 64-bit number, the highest first. */
  lemma LengthBytes(n: nat)
    ensures BigEndian(n, 8) == [
      LowByte(n / 0x100_0000_0000_0000), LowByte(n / 0x1_0000_0000_0000),
      LowByte(n / 0x100_0000_0000), LowByte(n / 0x1_0000_0000),
      LowByte(n / 0x100_0000), LowByte(n / 0x1_0000), LowByte(n / 0x100), LowByte(n)]
  {
    hide LowByte;
    FourBytes(n, 4);
    FourBytes(n / 0x1_0000_0000, 0);
    Divided(n);
    assert BigEndian(n / 0x1_0000_0000 / 0x1_0000_0000, 0) == [];
    hide BigEndian;
  }

  /** Every byte is the low byte of its value, and of every number with the same residue modulo 256. */
  lemma LowByteIs(n: nat, b: bv8)
    requires n % 256 == b as nat
    ensures LowByte(n) == b
  {
  }

  lemma Divided(n: nat)
    ensures n / 0x1_0000_0000 / 0x100_0000 == n / 0x100_0000_0000_0000
    ensures n / 0x1_0000_0000 / 0x1_0000 == n / 0x1_0000_0000_0000
    ensures n / 0x1_0000_0000 / 0x100 == n / 0x100_0000_0000
  {
  }

  lemma FourBytes(n: nat, more: nat)
    ensures BigEndian(n, more + 4) == BigEndian(n / 0x1_0000_0000, more) +
      [LowByte(n / 0x100_0000), LowByte(n / 0x1_0000), LowByte(n / 0x100), LowByte(n)]
  {
    hide LowByte;
    var a, b, c := n / 256, n / 0x1_0000, n / 0x100_0000;
    assert BigEndian(c, more + 1) == BigEndian(n / 0x1_0000_0000, more) + [LowByte(c)];
    assert BigEndian(b, more + 2) == BigEndian(c, more + 1) + [LowByte(b)];
    assert BigEndian(a, more + 3) == BigEndian(b, more + 2) + [LowByte(a)];
  }

  /** What the padding adds: one bit, the fewest zero bytes, and the length in bits as a 64-bit number. */
  lemma PadReadBack(m: seq<bv8>)
    requires 8 * |m| < 0x1_0000_0000_0000_0000
    ensures var p := Pad(m);
      && |p| % 64 == 0 && |m| + 9 <= |p| < |m| + 9 + 64
      && p[..|m|] == m && p[|m|] == 0x80
      && (forall k | |m| < k < |p| - 8 :: p[k] == 0)
      && p[|p| - 8..] == [
           LowByte(8 * |m| / 0x100_0000_0000_0000), LowByte(8 * |m| / 0x1_0000_0000_0000),
           LowByte(8 * |m| / 0x100_0000_0000), LowByte(8 * |m| / 0x1_0000_0000),
           LowByte(8 * |m| / 0x100_0000), LowByte(8 * |m| / 0x1_0000),
           LowByte(8 * |m| / 0x100), LowByte(8 * |m|)]
  {
    hide BigEndian, ZeroBytes, LowByte;
    LengthBytes(8 * |m|);
    var p := Pad(m);
    assert p[|p| - 8..] == BigEndian(8 * |m|, 8);
    assert p[..|m|] == m;
  }

  /**
   * In bits, as the standard puts it: a one bit and `k` zero bits, with `k` the least number that brings
   * the length to 448 modulo 512.  The 0x80 byte holds the one bit and seven of the zero bits.
   */
  lemma ZeroBytesIsFips(length: nat, k: nat)
    ensures var bits := 8 * ZeroBytes(length) + 7;
      && (8 * length + 1 + bits) % 512 == 448
      && ((8 * length + 1 + k) % 512 == 448 ==> bits <= k)
  {
    var z := ZeroBytes(length);
    var q := (length + 1 + z) / 64;
    assert 8 * length + 8 + 8 * z == 512 * q + 448;
    if k < 8 * z + 7 {
      LeastResidue(8 * length + 1 + k, 8 * length + 8 + 8 * z);
    }
  }

  /** Two numbers with the same residue modulo 512 that are less than 512 apart are equal. */
  lemma LeastResidue(x: nat, y: nat)
    requires x < y < x + 512
    ensures x % 512 != y % 512
  {
  }

  function WordBytes(w: Word): seq<bv8> {
    [(w >> 24) as bv8, ((w >> 16) & 0xff) as bv8, ((w >> 8) & 0xff) as bv8, (w & 0xff) as bv8]
  }

  /** The words of a hash value in order. */
  function WordsOf(v: Vars): seq<Word> {
    [v.a, v.b, v.c, v.d, v.e, v.f, v.g, v.h]
  }

  /** The big-endian bytes of a sequence of words. */
  function BytesOf(words: seq<Word>): (r: seq<bv8>)
    ensures |r| == 4 * |words|
  {
    if words == [] then [] else BytesOf(words[..|words| - 1]) + WordBytes(words[|words| - 1])
  }

  /** Reading a word most significant byte first: each byte is found by a shift and a mask. */
  lemma WordAtBytes(block: seq<bv8>, at: nat)
    requires at + 4 <= |block|
    ensures ((WordAt(block, at) >> 24) & 0xff) as bv8 == block[at]
    ensures ((WordAt(block, at) >> 16) & 0xff) as bv8 == block[at + 1]
    ensures ((WordAt(block, at) >> 8) & 0xff) as bv8 == block[at + 2]
    ensures (WordAt(block, at) & 0xff) as bv8 == block[at + 3]
  {
  }

  /** Word `i` is read back from the bytes at offset `4 * i`. */
  lemma {:induction false} BytesReadBack(words: seq<Word>, i: nat)
    requires i < |words|
    ensures WordAt(BytesOf(words), 4 * i) == words[i]
  {
    var n := |words| - 1;
    var front := BytesOf(words[..n]);
    if i < n {
      BytesReadBack(words[..n], i);
      assert BytesOf(words)[4 * i..4 * i + 4] == front[4 * i..4 * i + 4];
      WordOfSlice(front, 4 * i);
    } else {
      assert BytesOf(words)[4 * n..4 * n + 4] == WordBytes(words[n]);
      StoredWord(words[n]);
    }
    WordOfSlice(BytesOf(words), 4 * i);
  }

  lemma StoredWord(w: Word)
    ensures WordAt(WordBytes(w), 0) == w
  {
  }

  lemma WordOfSlice(block: seq<bv8>, at: nat)
    requires at + 4 <= |block|
    ensures WordAt(block, at) == WordAt(block[at..at + 4], 0)
  {
  }

  /** The SHA-256 digest. */
  function Sha256(m: seq<bv8>): seq<bv8>
    requires 8 * |m| < 0x1_0000_0000_0000_0000
  {
    BytesOf(WordsOf(Chain(Pad(m))))
  }
}
