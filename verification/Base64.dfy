/** Base64: the streaming encoder and the group decoder, and the bijection between bytes and canonical text. */
module Base64 {
  import opened Bytes
  import Utf8

  const PAD: Byte := 61   // '='

  function Digit(v: int): (c: Byte)
    requires 0 <= v < 64
    ensures c != 0 && c != PAD
  {
    if v < 26 then 65 + v
    else if v < 52 then 97 + (v - 26)
    else if v < 62 then 48 + (v - 52)
    else if v == 62 then 43
    else 47
  }

  function DigitValue(c: Byte): int {
    if 65 <= c <= 90 then c as int - 65
    else if 97 <= c <= 122 then c as int - 97 + 26
    else if 48 <= c <= 57 then c as int - 48 + 52
    else if c == 43 then 62
    else if c == 47 then 63
    else -1
  }

  const CAPITALS: string := "ABCDEFGHIJKLMNOPQRSTUVWXYZ"
  const SMALL: string := "abcdefghijklmnopqrstuvwxyz"

  /** The alphabet of Table 1 of RFC 4648, the padding last. */
  const ALPHABET: string := CAPITALS + SMALL + "0123456789+/="

  lemma AlphabetIsStandard(v: nat)
    requires v < 64
    ensures |ALPHABET| == 65 && Digit(v) as int == ALPHABET[v] as int && PAD as int == ALPHABET[64] as int
  {
    if v < 26 {
      assert ALPHABET[v] == CAPITALS[v];
    } else if v < 52 {
      assert ALPHABET[v] == SMALL[v - 26];
    } else {
      assert ALPHABET[v] == "0123456789+/="[v - 52];
    }
  }

  lemma DigitsAreInverse(v: int, c: Byte)
    ensures 0 <= v < 64 ==> DigitValue(Digit(v)) == v
    ensures -1 <= DigitValue(c) < 64
    ensures DigitValue(c) != -1 ==> Digit(DigitValue(c)) == c
    ensures DigitValue(PAD) == -1
  {
  }

  // ----- Encoding as groups -----

  /** The four symbols of a full group. */
  function Group(a: int, b: int, c: int): (r: seq<Byte>)
    requires 0 <= a < 256 && 0 <= b < 256 && 0 <= c < 256
    ensures |r| == 4
  {
    [Digit(a / 4), Digit(a % 4 * 16 + b / 16), Digit(b % 16 * 4 + c / 64), Digit(c % 64)]
  }

  /** A full group is one number: the bytes are its digits to base 256, the symbols those to base 64. */
  lemma GroupIsNumber(a: Byte, b: Byte, c: Byte)
    ensures var g := Group(a, b, c);
      ((DigitValue(g[0]) * 64 + DigitValue(g[1])) * 64 + DigitValue(g[2])) * 64 + DigitValue(g[3])
      == (a as int * 256 + b as int) * 256 + c as int
  {
    DigitsAreInverse(a as int / 4, 0);
    DigitsAreInverse(a as int % 4 * 16 + b as int / 16, 0);
    DigitsAreInverse(b as int % 16 * 4 + c as int / 64, 0);
    DigitsAreInverse(c as int % 64, 0);
    hide Digit, DigitValue;
  }

  /** Vectors of section 10 of RFC 4648: the encodings of "f", "fo" and "foo" are "Zg==", "Zm8=" and "Zm9v". */
  lemma EncodedExamples()
    ensures Encode([102]) == [90, 103, 61, 61]
    ensures Encode([102, 111]) == [90, 109, 56, 61]
    ensures Encode([102, 111, 111]) == [90, 109, 57, 118]
  {
    assert [102 as Byte, 111, 111][3..] == [];
  }

  /** Section 4 of RFC 4648: groups of three bytes, the last one padded. */
  function Encode(data: seq<Byte>): (r: seq<Byte>)
    ensures |r| == (|data| + 2) / 3 * 4
    ensures forall k | 0 <= k < |r| :: r[k] != 0
  {
    if |data| == 0 then []
    else if |data| == 1 then Group(data[0], 0, 0)[..2] + [PAD, PAD]
    else if |data| == 2 then Group(data[0], data[1], 0)[..3] + [PAD]
    else Group(data[0], data[1], data[2]) + Encode(data[3..])
  }

  /** The bytes of a group, or zero beyond the end. */
  function Get(data: seq<Byte>, i: nat): Byte {
    if i < |data| then data[i] else 0
  }

  /** Symbol `r` of group `g` of the encoding, read off the data directly. */
  function Symbol(data: seq<Byte>, g: nat, r: nat): Byte {
    if r == 0 then Digit(Get(data, 3 * g) as int / 4)
    else if r == 1 then Digit(Get(data, 3 * g) as int % 4 * 16 + Get(data, 3 * g + 1) as int / 16)
    else if r == 2 then
      if 3 * g + 1 < |data| then Digit(Get(data, 3 * g + 1) as int % 16 * 4 + Get(data, 3 * g + 2) as int / 64) else PAD
    else
      if 3 * g + 2 < |data| then Digit(Get(data, 3 * g + 2) as int % 64) else PAD
  }

  lemma {:induction false} EncodeSymbols(data: seq<Byte>, g: nat, r: nat)
    requires r < 4 && 4 * g + r < |Encode(data)|
    ensures Encode(data)[4 * g + r] == Symbol(data, g, r)
    decreases g
  {
    hide Digit;
    if g > 0 {
      EncodeSymbols(data[3..], g - 1, r);
      SymbolShift(data, g, r);
    }
  }

  lemma SymbolShift(data: seq<Byte>, g: nat, r: nat)
    requires |data| >= 3 && g > 0
    ensures Symbol(data[3..], g - 1, r) == Symbol(data, g, r)
  {
    assert Get(data[3..], 3 * (g - 1)) == Get(data, 3 * g);
    assert Get(data[3..], 3 * (g - 1) + 1) == Get(data, 3 * g + 1);
    assert Get(data[3..], 3 * (g - 1) + 2) == Get(data, 3 * g + 2);
  }

  // ----- The encoder loop -----

  /** `(value << 8) | b` on 32 bits. */
  function Load(value: nat, b: Byte): nat {
    value * 256 % U32 + b
  }

  /** The last sixteen bits after loading `b` behind a byte `low`. */
  lemma LoadKeepsLowBits(value: nat, low: Byte, b: Byte) returns (q: nat)
    requires value % 256 == low
    ensures Load(value, b) == 65536 * q + 256 * low + b
  {
    var p := value / 256;
    q := p % 65536;
    assert value * 256 == U32 * (p / 65536) + (65536 * q + 256 * low);
    assert 0 <= 65536 * q + 256 * low < U32;
    Remainder(value * 256, p / 65536, 65536 * q + 256 * low);
  }

  lemma Remainder(x: int, k: int, r: int)
    requires x == U32 * k + r && 0 <= r < U32
    ensures x % U32 == r
  {
  }

  /** The six bits that start `bits` bits from the end; missing low bits are zero. */
  function Window(value: nat, bits: int): (v: int)
    requires bits == 2 || bits == 4 || bits == 6 || bits == 8 || bits == 10 || bits == 12
    ensures 0 <= v < 64
  {
    if bits == 2 then value * 16 % 64
    else if bits == 4 then value * 4 % 64
    else if bits == 6 then value % 64
    else if bits == 8 then value / 4 % 64
    else if bits == 10 then value / 16 % 64
    else value / 64 % 64
  }

  lemma Mod64(x: int, high: int, r: int)
    requires x == 64 * high + r && 0 <= r < 64
    ensures x % 64 == r
  {
  }

  lemma Div4(x: int, q: int, r: int)
    requires x == 4 * q + r && 0 <= r < 4
    ensures x / 4 == q
  {
  }

  lemma Div16(x: int, q: int, r: int)
    requires x == 16 * q + r && 0 <= r < 16
    ensures x / 16 == q
  {
  }

  lemma Div64(x: int, q: int, r: int)
    requires x == 64 * q + r && 0 <= r < 64
    ensures x / 64 == q
  {
  }

  lemma WindowOneByte(value: nat, low: Byte)
    requires value % 256 == low
    ensures Window(value, 8) == low as int / 4
    ensures Window(value, 2) == low as int % 4 * 16
    ensures Window(value, 4) == low as int % 16 * 4
    ensures Window(value, 6) == low as int % 64
  {
    var p, l: int := value / 256, low;
    Div4(value, 64 * p + l / 4, l % 4);
    Mod64(value / 4, p, l / 4);
    Mod64(value * 16, 64 * p + l / 4, l % 4 * 16);
    Mod64(value * 4, 16 * p + l / 16, l % 16 * 4);
    Mod64(value, 4 * p + l / 64, l % 64);
  }

  lemma WindowTwoBytes(value: nat, low: Byte, b: Byte)
    requires value % 256 == low
    ensures Window(Load(value, b), 10) == low as int % 4 * 16 + b as int / 16
    ensures Window(Load(value, b), 12) == low as int % 16 * 4 + b as int / 64
    ensures Load(value, b) % 256 == b
  {
    hide Load;
    var q := LoadKeepsLowBits(value, low, b);
    Windows(Load(value, b), q, low, b);
  }

  lemma Windows(x: nat, q: nat, l: int, c: int)
    requires x == 65536 * q + 256 * l + c && 0 <= l < 256 && 0 <= c < 256
    ensures x % 256 == c && x / 16 % 64 == l % 4 * 16 + c / 16 && x / 64 % 64 == l % 16 * 4 + c / 64
  {
    var l4, r4, l16, r16 := l / 4, l % 4, l / 16, l % 16;
    var c16, s16, c64, s64 := c / 16, c % 16, c / 64, c % 64;
    assert l == 4 * l4 + r4 == 16 * l16 + r16 && c == 16 * c16 + s16 == 64 * c64 + s64;
    WindowsOf(x, q, l4, r4, l16, r16, c16, s16, c64, s64);
    Low8(x, 256 * q + l, c);
  }

  lemma Low8(x: int, q: int, r: int)
    requires x == 256 * q + r && 0 <= r < 256
    ensures x % 256 == r
  {
  }

  lemma WindowsOf(x: int, q: int, l4: int, r4: int, l16: int, r16: int, c16: int, s16: int, c64: int, s64: int)
    requires 4 * l4 + r4 == 16 * l16 + r16 && 16 * c16 + s16 == 64 * c64 + s64
    requires x == 65536 * q + 256 * (4 * l4 + r4) + (16 * c16 + s16)
    requires 0 <= r4 < 4 && 0 <= r16 < 16 && 0 <= s16 < 16 && 0 <= s64 < 64 && 0 <= c16 < 16 && 0 <= c64 < 4
    ensures x / 16 % 64 == r4 * 16 + c16 && x / 64 % 64 == r16 * 4 + c64
  {
    Div16(x, 64 * (64 * q + l4) + (r4 * 16 + c16), s16);
    Mod64(64 * (64 * q + l4) + (r4 * 16 + c16), 64 * q + l4, r4 * 16 + c16);
    Div64(x, 64 * (16 * q + l16) + (r16 * 4 + c64), s64);
    Mod64(64 * (16 * q + l16) + (r16 * 4 + c64), 16 * q + l16, r16 * 4 + c64);
  }

  lemma WindowFirstByte(value: nat, b: Byte)
    ensures Load(value, b) % 256 == b && Window(Load(value, b), 8) == b as int / 4
  {
    WindowTwoBytes(value, value % 256, b);
    WindowOneByte(Load(value, b), b);
  }

  /**
   * How the loop's counters depend on the output position 4 * g + r: `i` bytes are loaded, and `bits` of
   * their bits are not yet written.
   */
  predicate Counters(n: nat, g: nat, r: nat, i: nat, bits: int) {
    if r == 0 then (i == 3 * g <= n && bits == 0) || (i == n && bits < 0 && n < 3 * g < n + 3)
    else if r == 1 then i == 3 * g + 1 <= n && bits == 2
    else if r == 2 then (i == 3 * g + 2 <= n && bits == 4) || (i == n == 3 * g + 1 && bits == -4)
    else r == 3 && ((i == 3 * g + 3 <= n && bits == 6) || (i == n == 3 * g + 2 && bits == -2)
                    || (i == n == 3 * g + 1 && bits == -4))
  }

  /** `Counters` one symbol further on. */
  predicate NextCounters(n: nat, g: nat, r: nat, i: nat, bits: int) {
    if r == 3 then Counters(n, g + 1, 0, i, bits) else Counters(n, g, r + 1, i, bits)
  }

  predicate LastByte(data: seq<Byte>, value: nat, i: nat) {
    0 < i <= |data| && value % 256 == data[i - 1]
  }

  /** A round that loads a byte and writes a symbol. */
  lemma LoadingRound(data: seq<Byte>, g: nat, r: nat, value: nat, i: nat, bits: int)
    requires Counters(|data|, g, r, i, bits) && bits < 6 && i < |data|
    requires bits > 0 ==> LastByte(data, value, i)
    ensures var v := Load(value, data[i]);
      && (bits + 8 == 8 || bits + 8 == 10 || bits + 8 == 12) && LastByte(data, v, i + 1)
      && Digit(Window(v, bits + 8)) == Symbol(data, g, r) && NextCounters(|data|, g, r, i + 1, bits + 2)
  {
    hide Digit, Load, Window;
    if bits == 0 {
      WindowFirstByte(value, data[i]);
    } else {
      WindowTwoBytes(value, data[i - 1], data[i]);
    }
  }

  /** A round that only writes what is left of the last byte. */
  lemma WritingRound(data: seq<Byte>, g: nat, r: nat, value: nat, i: nat, bits: int)
    requires Counters(|data|, g, r, i, bits) && bits > 0 && !(bits < 6 && i < |data|)
    requires LastByte(data, value, i)
    ensures bits == 2 || bits == 4 || bits == 6
    ensures Digit(Window(value, bits)) == Symbol(data, g, r) && NextCounters(|data|, g, r, i, bits - 6)
  {
    hide Digit, Window;
    WindowOneByte(value, data[i - 1]);
  }

  /** A round after the last byte that fills up the group. */
  lemma PaddingRound(data: seq<Byte>, g: nat, r: nat, i: nat, bits: int)
    requires Counters(|data|, g, r, i, bits) && bits <= 0 && !(bits < 6 && i < |data|) && r != 0
    ensures Symbol(data, g, r) == PAD && NextCounters(|data|, g, r, i, bits)
  {
    hide Digit;
  }

  /** The loop stops exactly at the end of the encoding. */
  lemma CountersEnd(n: nat, g: nat, r: nat, i: nat, bits: int)
    requires Counters(n, g, r, i, bits) && r < 4
    ensures 4 * g + r <= (n + 2) / 3 * 4
    ensures !(bits < 6 && i < n) && bits <= 0 && r == 0 <==> 4 * g + r == (n + 2) / 3 * 4
    ensures i <= n
  {
  }

  predicate BitCount(bits: int) {
    bits == 2 || bits == 4 || bits == 6 || bits == 8 || bits == 10 || bits == 12
  }

  /** One round of the loop: the next symbol of the encoding, or its end. */
  lemma Round(data: seq<Byte>, g: nat, r: nat, value: nat, i: nat, bits: int)
    requires Counters(|data|, g, r, i, bits) && r < 4 && (bits > 0 ==> LastByte(data, value, i))
    ensures i <= |data| && 4 * g + r <= |Encode(data)|
    ensures var loads := bits < 6 && i < |data|;
      var v := if loads then Load(value, data[i]) else value;
      var b, j := if loads then bits + 8 else bits, if loads then i + 1 else i;
      && (b > 0 ==>
            && BitCount(b) && 4 * g + r < |Encode(data)| && Digit(Window(v, b)) == Encode(data)[4 * g + r]
            && NextCounters(|data|, g, r, j, b - 6) && LastByte(data, v, j))
      && (b <= 0 && r != 0 ==>
            4 * g + r < |Encode(data)| && Encode(data)[4 * g + r] == PAD && NextCounters(|data|, g, r, j, b))
      && (b <= 0 && r == 0 ==> 4 * g + r == |Encode(data)|)
  {
    CountersEnd(|data|, g, r, i, bits);
    hide Digit, Load, Window, Encode, Symbol, LastByte, Counters, NextCounters;
    if 4 * g + r < |Encode(data)| {
      EncodeSymbols(data, g, r);
    }
    if bits < 6 && i < |data| {
      LoadingRound(data, g, r, value, i, bits);
    } else if bits > 0 {
      WritingRound(data, g, r, value, i, bits);
    } else if r != 0 {
      PaddingRound(data, g, r, i, bits);
    }
  }

  /** Writes as much of the encoding as fits, and a terminator. */
  method EncodeInto(dst: array<Byte>, dstSize: nat, data: seq<Byte>)
    requires 0 < dstSize <= dst.Length
    modifies dst
    ensures var k := Min(|Encode(data)|, dstSize - 1);
      dst[..k] == Encode(data)[..k] && dst[k] == 0
  {
    hide Digit, Load, Window, Encode, Symbol, LastByte, Counters;
    var value, numBits, i, o := 0, 0, 0, 0;
    ghost var g: nat, r: nat := 0, 0;
    var last := dstSize - 1;
    dst[last] := 0;
    CountersStart(|data|);
    while true
      invariant o == 4 * g + r && r < 4 && Counters(|data|, g, r, i, numBits)
      invariant numBits > 0 ==> LastByte(data, value, i)
      invariant o <= last && dst[last] == 0
      invariant o <= |Encode(data)| && dst[..o] == Encode(data)[..o]
      decreases last - o
    {
      Round(data, g, r, value, i, numBits);
      if numBits < 6 && i < |data| {
        value := Load(value, data[i]);
        numBits := numBits + 8;
        i := i + 1;
      }
      if o == last {
        return;
      }
      if numBits > 0 {
        dst[o] := Digit(Window(value, numBits));
        numBits := numBits - 6;
        o := o + 1;
      } else if o % 4 != 0 {
        dst[o] := PAD;
        o := o + 1;
      } else {
        dst[o] := 0;
        return;
      }
      g, r := if r == 3 then g + 1 else g, if r == 3 then 0 else r + 1;
    }
  }

  lemma CountersStart(n: nat)
    ensures Counters(n, 0, 0, 0, 0)
  {
  }

  // ----- Decoding -----

  datatype Outcome = Decoded(bytes: seq<Byte>) | Failed(code: int)

  /** The value of four digits, each with the weight of its position. */
  function Value(d0: int, d1: int, d2: int, d3: int): int {
    d0 * 0x40000 + d1 * 4096 + d2 * 64 + d3
  }

  function ByteAt(value: int, b: nat): Byte {
    (if b == 0 then value / 65536 else if b == 1 then value / 256 else value) % 256
  }

  /** One group of four symbols; `=` is only looked for in the last group. */
  function DecodeGroup(c: seq<Byte>, last: bool): (r: Outcome)
    requires |c| == 4
    ensures r.Decoded? ==> 1 <= |r.bytes| <= 3 && (!last ==> |r.bytes| == 3)
  {
    var pad3 := last && c[3] == PAD;
    var pad2 := pad3 && c[2] == PAD;
    var n := if pad2 then 1 else if pad3 then 2 else 3;
    var d0, d1 := DigitValue(c[0]), DigitValue(c[1]);
    var d2 := DigitValue(if pad2 then 65 else c[2]);
    var d3 := DigitValue(if pad3 then 65 else c[3]);
    if d0 == -1 || d1 == -1 || d2 == -1 || d3 == -1 then Failed(-1)
    else
      var v := Value(d0, d1, d2, d3);
      var all := [ByteAt(v, 0), ByteAt(v, 1), ByteAt(v, 2)];
      if (n < 2 && all[1] != 0) || (n < 3 && all[2] != 0) then Failed(-2)
      else Decoded(all[..n])
  }

  function Then(first: Outcome, rest: Outcome): Outcome {
    if first.Failed? then first
    else if rest.Failed? then rest
    else Decoded(first.bytes + rest.bytes)
  }

  /** All `n` groups from the front; the first group that fails decides the error. */
  function DecodeGroups(s: seq<Byte>, n: nat): (r: Outcome)
    requires |s| == 4 * n
    decreases n
  {
    if n == 0 then Decoded([])
    else Then(DecodeGroup(s[..4], n == 1), DecodeGroups(s[4..], n - 1))
  }

  function Decode(s: seq<Byte>, dstSize: int): Outcome {
    if |s| % 4 != 0 then Failed(-3)
    else if |s| / 4 * 3 > dstSize then Failed(-2)
    else DecodeGroups(s, |s| / 4)
  }

  lemma DigitsOfValue(d0: int, d1: int, d2: int, d3: int)
    requires 0 <= d0 < 64 && 0 <= d1 < 64 && 0 <= d2 < 64 && 0 <= d3 < 64
    ensures var v := Value(d0, d1, d2, d3);
      && ByteAt(v, 0) == d0 * 4 + d1 / 16
      && ByteAt(v, 1) == d1 % 16 * 16 + d2 / 4
      && ByteAt(v, 2) == d2 % 4 * 64 + d3
  {
    var q1, r1, q2, r2 := d1 / 16, d1 % 16, d2 / 4, d2 % 4;
    assert d1 == 16 * q1 + r1 && d2 == 4 * q2 + r2;
    BytesOf(Value(d0, d1, d2, d3), d0 * 4 + q1, r1 * 16 + q2, r2 * 64 + d3);
  }

  /** A 24-bit number from its bytes. */
  lemma BytesOf(v: int, x: int, y: int, z: int)
    requires v == 65536 * x + 256 * y + z && 0 <= x < 256 && 0 <= y < 256 && 0 <= z < 256
    ensures ByteAt(v, 0) == x && ByteAt(v, 1) == y && ByteAt(v, 2) == z
  {
    Shift16(v, x, 256 * y + z);
    Shift8(v, 256 * x + y, z);
    Low8(256 * x + y, x, y);
    Low8(v, 256 * x + y, z);
  }

  lemma Shift16(v: int, q: int, r: int)
    requires v == 65536 * q + r && 0 <= r < 65536
    ensures v / 65536 == q
  {
  }

  lemma Shift8(v: int, q: int, r: int)
    requires v == 256 * q + r && 0 <= r < 256
    ensures v / 256 == q
  {
  }

  /** The bytes from the digits they are split into. */
  lemma BytesFromDigits(a: int, b: int, c: int)
    requires 0 <= a < 256 && 0 <= b < 256 && 0 <= c < 256
    ensures var d0, d1, d2, d3 := a / 4, a % 4 * 16 + b / 16, b % 16 * 4 + c / 64, c % 64;
      && 0 <= d0 < 64 && 0 <= d1 < 64 && 0 <= d2 < 64 && 0 <= d3 < 64
      && d0 * 4 + d1 / 16 == a && d1 % 16 * 16 + d2 / 4 == b && d2 % 4 * 64 + d3 == c
  {
    var d1, d2 := a % 4 * 16 + b / 16, b % 16 * 4 + c / 64;
    Split16(d1, a % 4, b / 16);
    assert d2 / 4 == b % 16 && d2 % 4 == c / 64;
  }

  lemma Split16(x: int, q: int, r: int)
    requires x == 16 * q + r && 0 <= r < 16
    ensures x / 16 == q && x % 16 == r
  {
  }

  /** Four digits, of which `n + 1` are written and the others are zero, decode to the first `n` bytes. */
  lemma DecodeDigits(c: seq<Byte>, last: bool, n: nat, d0: int, d1: int, d2: int, d3: int)
    requires |c| == 4 && 1 <= n <= 3 && (!last ==> n == 3)
    requires 0 <= d0 < 64 && 0 <= d1 < 64 && 0 <= d2 < 64 && 0 <= d3 < 64
    requires c[0] == Digit(d0) && c[1] == Digit(d1)
    requires c[2] == (if n >= 2 then Digit(d2) else PAD) && c[3] == (if n >= 3 then Digit(d3) else PAD)
    requires (n < 2 ==> d2 == 0) && (n < 3 ==> d3 == 0)
    requires var v := Value(d0, d1, d2, d3); (n < 2 ==> ByteAt(v, 1) == 0) && (n < 3 ==> ByteAt(v, 2) == 0)
    ensures var v := Value(d0, d1, d2, d3);
      DecodeGroup(c, last) == Decoded([ByteAt(v, 0), ByteAt(v, 1), ByteAt(v, 2)][..n])
  {
    DigitsAreInverse(d0, PAD);
    DigitsAreInverse(d1, PAD);
    DigitsAreInverse(d2, PAD);
    DigitsAreInverse(d3, PAD);
    DigitZero();
    hide Digit, DigitValue, ByteAt, Value;
  }

  lemma GroupOfDigits(text: seq<Byte>, last: bool, n: nat, x: Byte, y: Byte, z: Byte,
                      d0: int, d1: int, d2: int, d3: int)
    requires |text| == 4 && 1 <= n <= 3 && (!last ==> n == 3)
    requires 0 <= d0 < 64 && 0 <= d1 < 64 && 0 <= d2 < 64 && 0 <= d3 < 64
    requires d0 * 4 + d1 / 16 == x as int && d1 % 16 * 16 + d2 / 4 == y as int && d2 % 4 * 64 + d3 == z as int
    requires text[0] == Digit(d0) && text[1] == Digit(d1)
    requires text[2] == (if n >= 2 then Digit(d2) else PAD) && text[3] == (if n >= 3 then Digit(d3) else PAD)
    requires (n < 2 ==> d2 == 0 && y == 0) && (n < 3 ==> d3 == 0 && z == 0)
    ensures DecodeGroup(text, last) == Decoded([x, y, z][..n])
  {
    DigitsOfValue(d0, d1, d2, d3);
    hide Digit, ByteAt, Value, DecodeGroup;
    DecodeDigits(text, last, n, d0, d1, d2, d3);
  }

  lemma ZeroDigits(b: int, c: int)
    ensures b == 0 && c == 0 ==> b % 16 * 4 + c / 64 == 0
    ensures c == 0 ==> c % 64 == 0
  {
  }

  lemma FirstBytes(bytes: seq<Byte>)
    requires 1 <= |bytes| <= 3
    ensures [bytes[0], Get(bytes, 1), Get(bytes, 2)][..|bytes|] == bytes
  {
  }

  /** Decoding the encoding of one to three bytes gives them back; a full group needs no padding. */
  lemma GroupDecodes(bytes: seq<Byte>, last: bool)
    requires 1 <= |bytes| <= 3 && (!last ==> |bytes| == 3)
    ensures |Encode(bytes)| == 4 && DecodeGroup(Encode(bytes), last) == Decoded(bytes)
  {
    var x, y, z := bytes[0], Get(bytes, 1), Get(bytes, 2);
    var a: int, b: int, c: int := x, y, z;
    EncodeGroup(bytes);
    FirstBytes(bytes);
    BytesFromDigits(a, b, c);
    ZeroDigits(b, c);
    hide Encode, Digit, DecodeGroup;
    GroupOfDigits(Encode(bytes), last, |bytes|, x, y, z, a / 4, a % 4 * 16 + b / 16, b % 16 * 4 + c / 64, c % 64);
  }

  lemma DigitZero()
    ensures Digit(0) == 65 && DigitValue(65) == 0
  {
  }

  /** The text of a group of which `n` bytes are real. */
  function GroupText(a: Byte, b: Byte, c: Byte, n: nat): seq<Byte> {
    [Digit(a as int / 4), Digit(a as int % 4 * 16 + b as int / 16),
     if n >= 2 then Digit(b as int % 16 * 4 + c as int / 64) else PAD,
     if n >= 3 then Digit(c as int % 64) else PAD]
  }

  lemma EncodeShort(a: Byte, b: Byte, c: Byte)
    ensures Encode([a]) == GroupText(a, 0, 0, 1)
    ensures Encode([a, b]) == GroupText(a, b, 0, 2)
    ensures Encode([a, b, c]) == GroupText(a, b, c, 3)
  {
    hide Digit;
    assert Encode([a, b, c]) == Group(a, b, c) + Encode([]);
  }

  lemma EncodeGroup(bytes: seq<Byte>)
    requires 1 <= |bytes| <= 3
    ensures Encode(bytes) == GroupText(bytes[0], Get(bytes, 1), Get(bytes, 2), |bytes|)
  {
    hide GroupText, Encode;
    EncodeShort(bytes[0], Get(bytes, 1), Get(bytes, 2));
    assert bytes == [bytes[0]] || bytes == [bytes[0], bytes[1]] || bytes == [bytes[0], bytes[1], bytes[2]];
  }

  lemma DigitsFromBytes(d0: int, d1: int, d2: int, d3: int)
    requires 0 <= d0 < 64 && 0 <= d1 < 64 && 0 <= d2 < 64 && 0 <= d3 < 64
    ensures var a, b, c := d0 * 4 + d1 / 16, d1 % 16 * 16 + d2 / 4, d2 % 4 * 64 + d3;
      && a / 4 == d0 && a % 4 * 16 + b / 16 == d1 && b % 16 * 4 + c / 64 == d2 && c % 64 == d3
  {
  }

  /** A group that decodes is the encoding of what it decodes to, padding bits included. */
  lemma GroupIsCanonical(c: seq<Byte>, last: bool)
    requires |c| == 4
    ensures DecodeGroup(c, last).Decoded? ==> Encode(DecodeGroup(c, last).bytes) == c
  {
    hide Digit, DigitValue, ByteAt;
    if DecodeGroup(c, last).Decoded? {
      var bytes := DecodeGroup(c, last).bytes;
      var d0, d1 := DigitValue(c[0]), DigitValue(c[1]);
      var d2 := if |bytes| == 1 then 0 else DigitValue(c[2]);
      var d3 := if |bytes| < 3 then 0 else DigitValue(c[3]);
      DigitZero();
      DigitsAreInverse(d0, c[0]);
      DigitsAreInverse(d1, c[1]);
      DigitsAreInverse(d2, c[2]);
      DigitsAreInverse(d3, c[3]);
      DigitsOfValue(d0, d1, d2, d3);
      DigitsFromBytes(d0, d1, d2, d3);
      hide Encode, Value;
      EncodeGroup(bytes);
    }
  }

  // ----- The two round trips -----

  lemma EncodeCons(data: seq<Byte>)
    requires |data| > 3
    ensures Encode(data) == Encode(data[..3]) + Encode(data[3..]) && |Encode(data[..3])| == 4
  {
    hide GroupText, Group;
    var a, b, c := data[0], data[1], data[2];
    assert data[..3] == [a, b, c];
    EncodeThree(a, b, c);
    assert Encode(data) == Group(a, b, c) + Encode(data[3..]);
  }

  lemma EncodeThree(a: Byte, b: Byte, c: Byte)
    ensures Encode([a, b, c]) == Group(a, b, c)
  {
    hide Group;
    assert Encode([a, b, c]) == Group(a, b, c) + Encode([]);
  }

  /** Decoding the encoding of any byte string gives it back. */
  lemma {:induction false} DecodeEncode(data: seq<Byte>, n: nat)
    requires n == (|data| + 2) / 3
    ensures |Encode(data)| == 4 * n && DecodeGroups(Encode(data), n) == Decoded(data)
    decreases n
  {
    hide Encode, DecodeGroup;
    if 0 < |data| <= 3 {
      GroupDecodes(data, true);
      assert Encode(data)[..4] == Encode(data) && Encode(data)[4..] == [];
      assert data + [] == data;
    } else if |data| > 3 {
      EncodeCons(data);
      GroupDecodes(data[..3], false);
      DecodeEncode(data[3..], n - 1);
      assert Encode(data)[..4] == Encode(data[..3]) && Encode(data)[4..] == Encode(data[3..]);
      assert data[..3] + data[3..] == data;
    }
  }

  /** Text that decodes is the encoding of what it decodes to, so nothing but canonical text is accepted. */
  lemma {:induction false} EncodeDecode(s: seq<Byte>, n: nat)
    requires |s| == 4 * n
    ensures DecodeGroups(s, n).Decoded? ==> Encode(DecodeGroups(s, n).bytes) == s
    decreases n
  {
    hide Encode, DecodeGroup;
    if n == 0 {
      EncodeEmpty([]);
    } else if DecodeGroups(s, n).Decoded? {
      var first, rest := DecodeGroup(s[..4], n == 1), DecodeGroups(s[4..], n - 1);
      GroupIsCanonical(s[..4], n == 1);
      GroupLength(s[..4], n == 1);
      EncodeDecode(s[4..], n - 1);
      if n == 1 {
        assert first.bytes + [] == first.bytes && s[..4] == s;
      } else {
        var all := first.bytes + rest.bytes;
        assert rest.bytes != [] by { EncodeEmpty(rest.bytes); }
        EncodeCons(all);
        assert all[..3] == first.bytes && all[3..] == rest.bytes;
      }
    }
  }

  lemma GroupLength(c: seq<Byte>, last: bool)
    requires |c| == 4
    ensures DecodeGroup(c, last).Decoded? ==>
      1 <= |DecodeGroup(c, last).bytes| <= 3 && (!last ==> |DecodeGroup(c, last).bytes| == 3)
  {
  }

  lemma EncodeEmpty(data: seq<Byte>)
    ensures data == [] <==> Encode(data) == []
  {
  }

  /**
   * Base64 is a bijection between byte strings and the texts the decoder accepts, given enough room: `s` is
   * accepted with result `data` if and only if `s` is the encoding of `data`.
   */
  lemma AcceptsExactlyCanonical(s: seq<Byte>, dstSize: int, data: seq<Byte>)
    requires |s| / 4 * 3 <= dstSize
    ensures Decode(s, dstSize) == Decoded(data) <==> s == Encode(data)
  {
    hide Encode, DecodeGroups;
    if s == Encode(data) {
      var n := (|data| + 2) / 3;
      DecodeEncode(data, n);
      assert |s| == 4 * n && |s| / 4 == n;
    }
    if Decode(s, dstSize) == Decoded(data) {
      EncodeDecode(s, |s| / 4);
    }
  }

  // ----- The decoder loop -----

  lemma {:induction false} DecodeGroupsSplit(s: seq<Byte>, n: nat, i: nat)
    requires |s| == 4 * n && i < n
    ensures DecodeGroups(s[4 * i..], n - i)
            == Then(DecodeGroup(s[4 * i..4 * i + 4], i + 1 == n), DecodeGroups(s[4 * (i + 1)..], n - (i + 1)))
  {
    assert s[4 * i..][..4] == s[4 * i..4 * i + 4] && s[4 * i..][4..] == s[4 * (i + 1)..];
  }

  lemma ThenAssociates(a: Outcome, b: Outcome, c: Outcome)
    ensures Then(Then(a, b), c) == Then(a, Then(b, c))
  {
    if a.Decoded? && b.Decoded? && c.Decoded? {
      assert (a.bytes + b.bytes) + c.bytes == a.bytes + (b.bytes + c.bytes);
    }
  }

  /** Stores the bytes of a group behind the first `o` bytes. */
  method Store(dst: array<Byte>, o: nat, bytes: seq<Byte>)
    requires o + |bytes| <= dst.Length
    modifies dst
    ensures dst[..o + |bytes|] == old(dst[..o]) + bytes
  {
    forall b | 0 <= b < |bytes| {
      dst[o + b] := bytes[b];
    }
  }

  /** Decodes into `dst`; a negative result is an error, otherwise the number of bytes. */
  method DecodeInto(dst: array<Byte>, dstSize: int, data: Utf8.CString) returns (r: int)
    requires dstSize <= dst.Length
    modifies dst
    ensures match Decode(data, dstSize)
            case Failed(code) => r == code && r < 0
            case Decoded(bytes) => r == |bytes| <= dst.Length && dst[..r] == bytes
  {
    hide DecodeGroup, DecodeGroups, Then;
    if |data| % 4 != 0 {
      return -3;
    }
    if |data| / 4 * 3 > dstSize {
      return -2;
    }
    var n := |data| / 4;
    var o := 0;
    assert data[0..] == data && dst[..0] == [];
    ThenEmpty(DecodeGroups(data, n));
    for i := 0 to n
      invariant 0 <= o <= 3 * i <= dst.Length
      invariant DecodeGroups(data, n) == Then(Decoded(dst[..o]), DecodeGroups(data[4 * i..], n - i))
    {
      DecodeGroupsSplit(data, n, i);
      var symbols, last := data[4 * i..4 * i + 4], i + 1 == n;
      var group := DecodeGroup(symbols, last);
      ThenStep(dst[..o], group, DecodeGroups(data[4 * (i + 1)..], n - (i + 1)));
      if group.Failed? {
        GroupErrors(symbols, last);
        return group.code;
      }
      GroupLength(symbols, last);
      Store(dst, o, group.bytes);
      o := o + |group.bytes|;
    }
    NoGroups(data[4 * n..]);
    ThenEmptyBehind(dst[..o]);
    r := o;
  }

  lemma ThenStep(x: seq<Byte>, group: Outcome, rest: Outcome)
    ensures group.Failed? ==> Then(Decoded(x), Then(group, rest)) == group
    ensures group.Decoded? ==> Then(Decoded(x), Then(group, rest)) == Then(Decoded(x + group.bytes), rest)
  {
    ThenAssociates(Decoded(x), group, rest);
  }

  lemma NoGroups(s: seq<Byte>)
    requires s == []
    ensures DecodeGroups(s, 0) == Decoded([])
  {
  }

  lemma ThenEmptyBehind(x: seq<Byte>)
    ensures Then(Decoded(x), Decoded([])) == Decoded(x)
  {
    assert x + [] == x;
  }

  lemma ThenEmpty(r: Outcome)
    ensures Then(Decoded([]), r) == r
  {
    if r.Decoded? {
      assert [] + r.bytes == r.bytes;
    }
  }

  lemma GroupErrors(c: seq<Byte>, last: bool)
    requires |c| == 4 && DecodeGroup(c, last).Failed?
    ensures DecodeGroup(c, last).code < 0
  {
  }
}
