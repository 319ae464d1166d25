/** UTF-8: the encoder, the decoder and the validator, against RFC 3629. */
module Utf8 {
  import opened Bytes

  /** A string as the C code sees it: the bytes before the terminating zero. */
  type CString = s: seq<Byte> | forall i | 0 <= i < |s| :: s[i] != 0

  /** Reading is allowed up to and including the terminator. */
  function At(str: CString, i: nat): Byte
    requires i <= |str|
  {
    if i < |str| then str[i] else 0
  }

  predicate Surrogate(c: int) {
    0xD800 <= c <= 0xDFFF
  }

  /** The characters of RFC 3629, section 3. */
  predicate Scalar(c: int) {
    0 <= c <= 0x10FFFF && !Surrogate(c)
  }

  // ----- Encoding -----

  /** The bit distribution of RFC 3629, section 3; nothing for numbers beyond U+10FFFF. */
  function Encode(c: nat): (r: seq<Byte>) {
    if c <= 0x7F then [c]
    else if c <= 0x7FF then [0xC0 + c / 64 % 32, 0x80 + c % 64]
    else if c <= 0xFFFF then [0xE0 + c / 4096 % 16, 0x80 + c / 64 % 64, 0x80 + c % 64]
    else if c <= 0x10FFFF then
      [0xF0 + c / 0x40000 % 8, 0x80 + c / 4096 % 64, 0x80 + c / 64 % 64, 0x80 + c % 64]
    else []
  }

  function EncodeAll(cs: seq<nat>): seq<Byte> {
    if cs == [] then [] else Encode(cs[0]) + EncodeAll(cs[1..])
  }

  // ----- Decoding -----

  predicate Continuation(b: Byte) {
    0x80 <= b <= 0xBF
  }

  /** How many continuation bytes the lead byte `b` announces, or -1 when it is no lead byte. */
  function Needed(b: Byte): int {
    if b <= 0x7F then 0
    else if 0xC2 <= b <= 0xDF then 1
    else if 0xE0 <= b <= 0xEF then 2
    else if 0xF0 <= b <= 0xF4 then 3
    else -1
  }

  /** The second-byte ranges of the grammar in section 4 of RFC 3629. */
  predicate SecondOk(lead: Byte, b: Byte) {
    && Continuation(b)
    && (lead == 0xE0 ==> b >= 0xA0)
    && (lead == 0xED ==> b <= 0x9F)
    && (lead == 0xF0 ==> b >= 0x90)
    && (lead == 0xF4 ==> b <= 0x8F)
  }

  function Join2(b0: int, b1: int): int {
    (b0 - 0xC0) * 64 + (b1 - 0x80)
  }

  function Join3(b0: int, b1: int, b2: int): int {
    (b0 - 0xE0) * 4096 + (b1 - 0x80) * 64 + (b2 - 0x80)
  }

  function Join4(b0: int, b1: int, b2: int, b3: int): int {
    (b0 - 0xF0) * 0x40000 + (b1 - 0x80) * 4096 + (b2 - 0x80) * 64 + (b3 - 0x80)
  }

  /** The code point at `pos`, or -1, and the position behind the bytes consumed. */
  function Decode(str: CString, pos: nat): (r: (int, nat))
    requires pos <= |str|
    ensures pos < r.1 <= |str| + 1
    ensures pos < |str| ==> r.1 <= |str|
    ensures r.0 == 0 <==> pos == |str|
    ensures -1 <= r.0 <= 0x10FFFF
  {
    var b := At(str, pos);
    var n := Needed(b);
    if n == -1 then (-1, pos + 1)
    else if n == 0 then (b, pos + 1)
    else if !SecondOk(b, At(str, pos + 1)) then (-1, pos + 1)
    else if n == 1 then (Join2(b, str[pos + 1]), pos + 2)
    else if !Continuation(At(str, pos + 2)) then (-1, pos + 2)
    else if n == 2 then (Join3(b, str[pos + 1], str[pos + 2]), pos + 3)
    else if !Continuation(At(str, pos + 3)) then (-1, pos + 3)
    else (Join4(b, str[pos + 1], str[pos + 2], str[pos + 3]), pos + 4)
  }

  /** `x << 6 * n` for at most three continuation bytes. */
  function ShiftSix(x: int, n: nat): int
    requires n <= 3
  {
    if n == 0 then x else if n == 1 then 64 * x else if n == 2 then 4096 * x else 0x40000 * x
  }

  /** The decoder's accumulator after the lead byte and `seen` continuation bytes. */
  function Partial(str: CString, pos: nat, needed: nat, seen: nat): int
    requires 1 <= needed <= 3 && seen <= needed && pos + seen < |str|
  {
    if seen == 0 then ShiftSix(if needed == 1 then str[pos] as int - 0xC0
                               else if needed == 2 then str[pos] as int - 0xE0 else str[pos] as int - 0xF0, needed)
    else Partial(str, pos, needed, seen - 1) + ShiftSix(str[pos + seen] as int - 0x80, needed - seen)
  }

  lemma PartialIsDecoded(str: CString, pos: nat, needed: nat)
    requires 1 <= needed <= 3 && pos + needed < |str| && Needed(str[pos]) == needed
    requires SecondOk(str[pos], str[pos + 1]) && (needed >= 2 ==> Continuation(str[pos + 2]))
    requires needed == 3 ==> Continuation(str[pos + 3])
    ensures Decode(str, pos) == (Partial(str, pos, needed, needed), pos + needed + 1)
  {
    var lead := Partial(str, pos, needed, 0);
    var one := Partial(str, pos, needed, 1);
    if needed >= 2 {
      var two := Partial(str, pos, needed, 2);
      assert two == one + ShiftSix(str[pos + 2] as int - 0x80, needed - 2);
    }
  }

  /** The decoder loop: one byte per round, with the range allowed for the next byte. */
  method DecodeLoop(str: CString, pos: nat) returns (code: int, next: nat)
    requires pos <= |str|
    ensures (code, next) == Decode(str, pos)
  {
    var lower, upper := 0x80, 0xBF;
    var codePoint, seen, needed := 0, 0, 0;
    next := pos;
    while true
      invariant pos <= next
      invariant needed == 0 ==> next == pos && lower == 0x80 && upper == 0xBF && codePoint == 0 && seen == 0
      invariant needed != 0 ==>
        && pos < |str| && next <= |str| && 1 <= needed <= 3 && needed == Needed(str[pos])
        && next == pos + 1 + seen && 0 <= seen < needed
        && (seen >= 1 ==> SecondOk(str[pos], str[pos + 1]))
        && (seen >= 2 ==> Continuation(str[pos + 2]))
        && lower == (if seen == 0 && str[pos] == 0xE0 then 0xA0
                     else if seen == 0 && str[pos] == 0xF0 then 0x90 else 0x80)
        && upper == (if seen == 0 && str[pos] == 0xED then 0x9F
                     else if seen == 0 && str[pos] == 0xF4 then 0x8F else 0xBF)
        && codePoint == Partial(str, pos, needed, seen)
      decreases if needed == 0 then 4 else needed - seen
    {
      var b := At(str, next);
      next := next + 1;
      if needed == 0 {
        if b <= 0x7F {
          return b, next;
        } else if 0xC2 <= b <= 0xDF {
          needed, codePoint := 1, b as int - 0xC0;
        } else if 0xE0 <= b <= 0xEF {
          if b == 0xE0 {
            lower := 0xA0;
          }
          if b == 0xED {
            upper := 0x9F;
          }
          needed, codePoint := 2, b as int - 0xE0;
        } else if 0xF0 <= b <= 0xF4 {
          if b == 0xF0 {
            lower := 0x90;
          }
          if b == 0xF4 {
            upper := 0x8F;
          }
          needed, codePoint := 3, b as int - 0xF0;
        } else {
          return -1, next;
        }
        codePoint := ShiftSix(codePoint, needed);
        continue;
      }
      if !(lower <= b <= upper) {
        next := next - 1;
        return -1, next;
      }
      lower, upper := 0x80, 0xBF;
      seen := seen + 1;
      codePoint := codePoint + ShiftSix(b as int - 0x80, needed - seen);
      if seen != needed {
        continue;
      }
      PartialIsDecoded(str, pos, needed);
      return codePoint, next;
    }
  }

  // ----- Encoder and decoder are inverse -----

  /** Base-64 digits of a code point, and back. */
  lemma SplitJoin(c: nat)
    requires c <= 0x10FFFF
    ensures c <= 0x7FF ==> Join2(0xC0 + c / 64 % 32, 0x80 + c % 64) == c
    ensures c <= 0xFFFF ==> Join3(0xE0 + c / 4096 % 16, 0x80 + c / 64 % 64, 0x80 + c % 64) == c
    ensures Join4(0xF0 + c / 0x40000 % 8, 0x80 + c / 4096 % 64, 0x80 + c / 64 % 64, 0x80 + c % 64) == c
  {
    var a, b, d := c / 64, c / 4096, c / 0x40000;
    Division64(c);
    Division64(a);
    Division64(b);
    DivisionTwice(c);
    assert a < 0x4400 && b < 0x110 && d < 5;
  }

  lemma Division64(x: nat)
    ensures x == 64 * (x / 64) + x % 64 && 0 <= x % 64 < 64
  {
  }

  lemma DivisionTwice(c: nat)
    ensures c / 64 / 64 == c / 4096 && c / 4096 / 64 == c / 0x40000
  {
  }

  lemma Quotient(c: int, d: int, q: int, r: int)
    requires d == 64 || d == 4096 || d == 0x40000
    requires 0 <= r < d && c == d * q + r
    ensures c / d == q && c % d == r
  {
    if d == 64 {
      assert c / 64 == q;
    } else if d == 4096 {
      assert c / 4096 == q;
    } else {
      assert c / 0x40000 == q;
    }
  }

  /** The encodings by length, from the digits of the code point. */
  lemma EncodeDigits(c: nat)
    ensures 0x80 <= c <= 0x7FF ==> Encode(c) == [0xC0 + c / 64 % 32, 0x80 + c % 64]
    ensures 0x800 <= c <= 0xFFFF ==> Encode(c) == [0xE0 + c / 4096 % 16, 0x80 + c / 64 % 64, 0x80 + c % 64]
    ensures 0x10000 <= c <= 0x10FFFF ==>
      Encode(c) == [0xF0 + c / 0x40000 % 8, 0x80 + c / 4096 % 64, 0x80 + c / 64 % 64, 0x80 + c % 64]
  {
  }

  lemma JoinRanges(b0: Byte, b1: Byte, b2: Byte, b3: Byte)
    requires Continuation(b1) && Continuation(b2) && Continuation(b3)
    ensures 0xC2 <= b0 <= 0xDF ==> 0x80 <= Join2(b0, b1) <= 0x7FF
    ensures 0xE0 <= b0 <= 0xEF && SecondOk(b0, b1) ==>
      0x800 <= Join3(b0, b1, b2) <= 0xFFFF && !Surrogate(Join3(b0, b1, b2))
    ensures 0xF0 <= b0 <= 0xF4 && SecondOk(b0, b1) ==> 0x10000 <= Join4(b0, b1, b2, b3) <= 0x10FFFF
  {
  }

  lemma EncodeJoin2(b0: Byte, b1: Byte)
    requires 0xC2 <= b0 <= 0xDF && Continuation(b1)
    ensures 0x80 <= Join2(b0, b1) <= 0x7FF && Encode(Join2(b0, b1)) == [b0, b1]
  {
    hide Encode;
    JoinRanges(b0, b1, b1, b1);
    JoinSplit(b0 as int - 0xC0, b1 as int - 0x80, 0, 0);
    EncodeDigits(Join2(b0, b1));
  }

  lemma EncodeJoin3(b0: Byte, b1: Byte, b2: Byte)
    requires 0xE0 <= b0 <= 0xEF && SecondOk(b0, b1) && Continuation(b2)
    ensures 0x800 <= Join3(b0, b1, b2) <= 0xFFFF && !Surrogate(Join3(b0, b1, b2))
    ensures Encode(Join3(b0, b1, b2)) == [b0, b1, b2]
  {
    hide Encode;
    JoinRanges(b0, b1, b2, b2);
    JoinSplit(b0 as int - 0xE0, b1 as int - 0x80, b2 as int - 0x80, 0);
    EncodeDigits(Join3(b0, b1, b2));
  }

  lemma EncodeJoin4(b0: Byte, b1: Byte, b2: Byte, b3: Byte)
    requires 0xF0 <= b0 <= 0xF4 && SecondOk(b0, b1) && Continuation(b2) && Continuation(b3)
    ensures 0x10000 <= Join4(b0, b1, b2, b3) <= 0x10FFFF
    ensures Encode(Join4(b0, b1, b2, b3)) == [b0, b1, b2, b3]
  {
    hide Encode;
    JoinRanges(b0, b1, b2, b3);
    JoinSplit(b0 as int - 0xF0, b1 as int - 0x80, b2 as int - 0x80, b3 as int - 0x80);
    EncodeDigits(Join4(b0, b1, b2, b3));
  }

  lemma JoinSplit(x0: int, x1: int, x2: int, x3: int)
    requires 0 <= x1 < 64 && 0 <= x2 < 64 && 0 <= x3 < 64
    ensures var c := 64 * x0 + x1; c / 64 == x0 && c % 64 == x1
    ensures var c := 4096 * x0 + 64 * x1 + x2; c / 4096 == x0 && c / 64 % 64 == x1 && c % 64 == x2
    ensures var c := 0x40000 * x0 + 4096 * x1 + 64 * x2 + x3;
      c / 0x40000 == x0 && c / 4096 % 64 == x1 && c / 64 % 64 == x2 && c % 64 == x3
  {
    var y := 64 * x0 + x1;
    var z := 64 * y + x2;
    var c := 64 * z + x3;
    Quotient(y, 64, x0, x1);
    Quotient(z, 64, y, x2);
    Quotient(z, 4096, x0, 64 * x1 + x2);
    Quotient(c, 64, z, x3);
    Quotient(c, 4096, y, 64 * x2 + x3);
    Quotient(c, 0x40000, x0, 4096 * x1 + 64 * x2 + x3);
  }

  /** The decoder reads back exactly the encodings of the nonzero non-surrogate code points. */
  lemma DecodeEncode(c: nat, rest: CString)
    requires 0 < c <= 0x10FFFF
    ensures var str: seq<Byte> := Encode(c) + rest;
      && (forall i | 0 <= i < |str| :: str[i] != 0)
      && (Decode(str, 0) == (c, |Encode(c)|) <==> !Surrogate(c))
      && (Surrogate(c) ==> Decode(str, 0) == (-1, 1))
  {
    SplitJoin(c);
  }

  /** A successful decode of a nonzero code point consumed exactly its shortest encoding. */
  lemma EncodeDecode(str: CString, pos: nat)
    requires pos < |str| && Decode(str, pos).0 != -1
    ensures var (c, next) := Decode(str, pos);
      Scalar(c) && c > 0 && Encode(c) == str[pos..next]
  {
    var (c, next) := Decode(str, pos);
    hide Encode;
    var b := str[pos];
    if Needed(b) == 0 {
      EncodeAscii(b);
      assert str[pos..next] == [b];
    } else if Needed(b) == 1 {
      EncodeJoin2(b, str[pos + 1]);
      assert str[pos..next] == [b, str[pos + 1]];
    } else if Needed(b) == 2 {
      EncodeJoin3(b, str[pos + 1], str[pos + 2]);
      assert str[pos..next] == [b, str[pos + 1], str[pos + 2]];
    } else {
      EncodeJoin4(b, str[pos + 1], str[pos + 2], str[pos + 3]);
      assert str[pos..next] == [b, str[pos + 1], str[pos + 2], str[pos + 3]];
    }
  }

  lemma EncodeAscii(b: Byte)
    requires b <= 0x7F
    ensures Encode(b) == [b]
  {
  }

  /** An encoding anywhere in a string is decoded as the code point it encodes. */
  lemma DecodeAt(str: CString, pos: nat, c: nat)
    requires 0 < c && Scalar(c) && pos <= |str| && Encode(c) <= str[pos..]
    ensures Decode(str, pos) == (c, pos + |Encode(c)|)
  {
    var n := |Encode(c)|;
    SplitJoin(c);
    assert forall k | 0 <= k < n :: Encode(c)[k] == str[pos..][k] == str[pos + k];
    EncodeShape(c);
  }

  lemma EncodeShape3(c: nat)
    requires 0x800 <= c <= 0xFFFF && !Surrogate(c)
    ensures var e := Encode(c);
      |e| == 3 && Needed(e[0]) == 2 && SecondOk(e[0], e[1]) && Continuation(e[2])
  {
    var a := c / 64;
    assert c / 4096 == a / 64 && a == 64 * (a / 64) + a % 64;
  }

  lemma EncodeShape4(c: nat)
    requires 0x10000 <= c <= 0x10FFFF
    ensures var e := Encode(c);
      |e| == 4 && Needed(e[0]) == 3 && SecondOk(e[0], e[1]) && Continuation(e[2]) && Continuation(e[3])
  {
    var a := c / 4096;
    assert c / 0x40000 == a / 64 && a == 64 * (a / 64) + a % 64;
  }

  /** Lead and continuation bytes of an encoding. */
  lemma EncodeShape(c: nat)
    requires 0 < c && Scalar(c)
    ensures var e := Encode(c);
      && 1 <= |e| <= 4 && Needed(e[0]) == |e| - 1
      && (forall k | 0 <= k < |e| :: e[k] != 0 && (k > 0 ==> Continuation(e[k])))
      && (|e| > 1 ==> SecondOk(e[0], e[1]))
  {
    if 0x800 <= c <= 0xFFFF {
      hide Encode;
      EncodeShape3(c);
    } else if 0x10000 <= c {
      hide Encode;
      EncodeShape4(c);
    }
  }

  /** A cut-off encoding at the end of a string is an error. */
  lemma DecodeCut(str: CString, pos: nat, c: nat)
    requires 0 < c && Scalar(c) && pos < |str| && |str| - pos < |Encode(c)|
    requires str[pos..] == Encode(c)[..|str| - pos]
    ensures Decode(str, pos).0 == -1
  {
    hide Encode;
    EncodeShape(c);
    assert forall k | 0 <= k < |str| - pos :: Encode(c)[k] == str[pos..][k] == str[pos + k];
  }

  // ----- What an error consumes -----

  /** An error consumes no byte that could start a character, except the first. */
  lemma ErrorKeepsStarts(str: CString, pos: nat, k: nat)
    requires pos < |str| && Decode(str, pos).0 == -1 && pos < k < Decode(str, pos).1
    ensures 0x80 <= str[k] <= 0xBF
  {
  }

  /** `s` is a front part of the encoding of some character. */
  ghost predicate Begins(s: seq<Byte>) {
    exists c: nat :: Character(c) && s <= Encode(c)
  }

  lemma CutBegins(b0: Byte, b1: Byte, b2: Byte)
    requires SecondOk(b0, b1) && Continuation(b2)
    ensures 0xE0 <= b0 <= 0xF4 ==> Begins([b0, b1])
    ensures 0xF0 <= b0 <= 0xF4 ==> Begins([b0, b1, b2])
  {
    if 0xE0 <= b0 <= 0xEF {
      EncodeJoin3(b0, b1, 0x80);
      hide Encode;
      assert [b0, b1] <= Encode(Join3(b0, b1, 0x80));
    } else if 0xF0 <= b0 <= 0xF4 {
      EncodeJoin4(b0, b1, 0x80, 0x80);
      EncodeJoin4(b0, b1, b2, 0x80);
      hide Encode;
      assert [b0, b1] <= Encode(Join4(b0, b1, 0x80, 0x80));
      assert [b0, b1, b2] <= Encode(Join4(b0, b1, b2, 0x80));
    }
  }

  lemma FrontIsConsumed(str: CString, pos: nat, k: nat, c: nat)
    requires Character(c) && 0 < k <= |str| - pos && str[pos..pos + k] <= Encode(c)
    ensures Decode(str, pos).1 >= pos + k
  {
    hide Encode;
    EncodeShape(c);
    assert forall j | 0 <= j < k :: str[pos + j] == str[pos..pos + k][j] == Encode(c)[j];
  }

  /**
   * An error consumes the longest front part of the encoding of a character that stands there, or one byte when
   * there is none.
   */
  lemma ErrorIsLongestFront(str: CString, pos: nat, k: nat)
    requires pos < |str| && Decode(str, pos).0 == -1
    requires 0 < k <= |str| - pos
    ensures var n := Decode(str, pos).1 - pos;
      (k == n > 1 ==> Begins(str[pos..pos + k])) && (k > n ==> !Begins(str[pos..pos + k]))
  {
    var n := Decode(str, pos).1 - pos;
    var s := str[pos..pos + k];
    hide Encode, Character;
    if k == n > 1 {
      CutBegins(str[pos], str[pos + 1], if n == 3 then str[pos + 2] else 0x80);
      assert s == if n == 2 then [str[pos], str[pos + 1]] else [str[pos], str[pos + 1], str[pos + 2]];
    } else if k > n && Begins(s) {
      var c: nat :| Character(c) && s <= Encode(c);
      FrontIsConsumed(str, pos, k, c);
    }
  }

  // ----- Encoding keeps the order -----

  /** The lexicographic order of byte strings neither of which is a front part of the other. */
  ghost predicate Before(a: seq<Byte>, b: seq<Byte>) {
    exists k: nat :: k < |a| && k < |b| && a[..k] == b[..k] && a[k] < b[k]
  }

  lemma FirstDifference(a: seq<Byte>, b: seq<Byte>, k: nat)
    requires k < |a| && k < |b| && a[k] < b[k] && forall j | 0 <= j < k :: a[j] == b[j]
    ensures Before(a, b)
  {
    assert a[..k] == b[..k];
  }

  lemma SameLength(a: seq<Byte>, b: seq<Byte>)
    requires 1 <= |a| == |b| <= 4
    requires a[0] < b[0]
      || (a[0] == b[0] && |a| > 1 && (a[1] < b[1]
      || (a[1] == b[1] && |a| > 2 && (a[2] < b[2]
      || (a[2] == b[2] && |a| > 3 && a[3] < b[3])))))
    ensures Before(a, b)
  {
    FirstDifference(a, b, if a[0] < b[0] then 0 else if a[1] < b[1] then 1 else if a[2] < b[2] then 2 else 3);
  }

  lemma DigitOrder(c: nat, d: nat)
    requires c < d
    ensures c / 64 < d / 64 || (c / 64 == d / 64 && c % 64 < d % 64)
  {
  }

  /** What is left of a code point when the lowest digits are dropped is ordered, too. */
  lemma Digits(c: nat, d: nat)
    requires c < d
    ensures c / 64 < d / 64 || (c / 64 == d / 64 && c % 64 < d % 64)
    ensures c / 4096 < d / 4096
      || (c / 4096 == d / 4096 && (c / 64 % 64 < d / 64 % 64 || (c / 64 % 64 == d / 64 % 64 && c % 64 < d % 64)))
    ensures c / 0x40000 < d / 0x40000
      || (c / 0x40000 == d / 0x40000 && (c / 4096 % 64 < d / 4096 % 64 || (c / 4096 % 64 == d / 4096 % 64
          && (c / 64 % 64 < d / 64 % 64 || (c / 64 % 64 == d / 64 % 64 && c % 64 < d % 64)))))
  {
    DigitOrder(c, d);
    DivisionTwice(c);
    DivisionTwice(d);
    if c / 64 < d / 64 {
      DigitOrder(c / 64, d / 64);
      if c / 4096 < d / 4096 {
        DigitOrder(c / 4096, d / 4096);
      }
    }
  }

  /** The digits of the lead byte need no modulus. */
  lemma LeadDigit(c: nat)
    requires Scalar(c)
    ensures c <= 0x7FF ==> c / 64 % 32 == c / 64
    ensures c <= 0xFFFF ==> c / 4096 % 16 == c / 4096
    ensures c / 0x40000 % 8 == c / 0x40000
  {
  }

  lemma Monotone2(c: nat, d: nat)
    requires 0x80 <= c < d <= 0x7FF
    ensures Before(Encode(c), Encode(d))
  {
    EncodeDigits(c);
    EncodeDigits(d);
    LeadDigit(c);
    LeadDigit(d);
    DigitOrder(c, d);
    hide Encode, Before;
    SameLength(Encode(c), Encode(d));
  }

  lemma Monotone3(c: nat, d: nat)
    requires 0x800 <= c < d <= 0xFFFF && Scalar(c) && Scalar(d)
    ensures Before(Encode(c), Encode(d))
  {
    hide Encode, Before, Scalar;
    EncodeDigits(c);
    EncodeDigits(d);
    LeadDigit(c);
    LeadDigit(d);
    Digits(c, d);
    SameLength(Encode(c), Encode(d));
  }

  lemma Monotone4(c: nat, d: nat)
    requires 0x10000 <= c < d && Scalar(c) && Scalar(d)
    ensures Before(Encode(c), Encode(d))
  {
    hide Encode, Before;
    EncodeDigits(c);
    EncodeDigits(d);
    LeadDigit(c);
    LeadDigit(d);
    hide Scalar;
    Digits(c, d);
    SameLength(Encode(c), Encode(d));
  }

  /** The first bytes say how long an encoding is. */
  lemma LeadRange(c: nat)
    requires Scalar(c)
    ensures var e := Encode(c);
      && |e| > 0
      && (c <= 0x7F ==> e[0] <= 0x7F) && (0x80 <= c <= 0x7FF ==> 0xC0 <= e[0] <= 0xDF)
      && (0x800 <= c <= 0xFFFF ==> 0xE0 <= e[0] <= 0xEF) && (0x10000 <= c ==> 0xF0 <= e[0])
  {
  }

  /** Section 1 of RFC 3629: encodings are ordered like the characters they encode. */
  lemma EncodingIsMonotone(c: nat, d: nat)
    requires c < d && Scalar(c) && Scalar(d)
    ensures Before(Encode(c), Encode(d))
  {
    hide Encode, Before;
    if d <= 0x7F {
      EncodeAscii(c);
      EncodeAscii(d);
      FirstDifference(Encode(c), Encode(d), 0);
    } else if 0x80 <= c && d <= 0x7FF {
      Monotone2(c, d);
    } else if 0x800 <= c && d <= 0xFFFF {
      Monotone3(c, d);
    } else if 0x10000 <= c {
      Monotone4(c, d);
    } else {
      LeadRange(c);
      LeadRange(d);
      FirstDifference(Encode(c), Encode(d), 0);
    }
  }

  // ----- Whole strings -----

  /** Decoding from `pos` meets no error before the terminator. */
  predicate Valid(str: CString, pos: nat)
    requires pos <= |str|
    decreases |str| - pos
  {
    pos == |str| || (Decode(str, pos).0 != -1 && Valid(str, Decode(str, pos).1))
  }

  /** What repeated decoding from `pos` returns before the terminator, errors included. */
  function CodePoints(str: CString, pos: nat): (cs: seq<int>)
    requires pos <= |str|
    ensures |cs| <= |str| - pos
    ensures forall k | 0 <= k < |cs| :: cs[k] != 0
    decreases |str| - pos
  {
    if pos == |str| then [] else [Decode(str, pos).0] + CodePoints(str, Decode(str, pos).1)
  }

  predicate Character(c: int) {
    Scalar(c) && c > 0
  }

  predicate Characters(cs: seq<int>) {
    forall k | 0 <= k < |cs| :: Character(cs[k])
  }

  /** The validator loop. */
  method Check(str: CString) returns (ok: bool)
    ensures ok <==> Valid(str, 0)
  {
    var pos := 0;
    while true
      invariant pos <= |str|
      invariant Valid(str, 0) <==> Valid(str, pos)
      decreases |str| - pos
    {
      var code, next := DecodeLoop(str, pos);
      if code == 0 {
        return true;
      }
      if code == -1 {
        return false;
      }
      pos := next;
    }
  }

  /** A valid string is the encoding of the code points it decodes to. */
  lemma {:induction false} ValidEncodes(str: CString, pos: nat)
    requires pos <= |str| && Valid(str, pos)
    ensures Characters(CodePoints(str, pos)) && EncodeAll(CodePoints(str, pos)) == str[pos..]
    decreases |str| - pos
  {
    hide Encode, Decode, Scalar;
    if pos < |str| {
      var (c, next) := Decode(str, pos);
      EncodeDecode(str, pos);
      ValidEncodes(str, next);
      var rest := CodePoints(str, next);
      EncodeAllCons(c, rest);
      assert str[pos..] == str[pos..next] + str[next..];
    }
  }

  lemma EncodeAllCons(c: nat, cs: seq<nat>)
    ensures EncodeAll([c] + cs) == Encode(c) + EncodeAll(cs)
  {
    assert ([c] + cs)[1..] == cs;
  }

  /** The encoding of any sequence of characters is valid and decodes to that sequence. */
  lemma {:induction false} EncodedIsValid(cs: seq<nat>, str: CString, pos: nat)
    requires Characters(cs) && pos <= |str| && EncodeAll(cs) == str[pos..]
    ensures Valid(str, pos) && CodePoints(str, pos) == cs
    decreases |cs|
  {
    hide Encode, Decode;
    if cs != [] {
      var e, rest := Encode(cs[0]), EncodeAll(cs[1..]);
      EncodeShape(cs[0]);
      DecodeAt(str, pos, cs[0]);
      var next := pos + |e|;
      DropEncoding(str, pos, e, rest);
      EncodedIsValid(cs[1..], str, next);
      assert [cs[0]] + cs[1..] == cs;
    }
  }

  lemma DropEncoding(str: seq<Byte>, pos: nat, e: seq<Byte>, rest: seq<Byte>)
    requires pos <= |str| && str[pos..] == e + rest
    ensures pos + |e| <= |str| && str[pos + |e|..] == rest
  {
    assert str[pos + |e|..] == str[pos..][|e|..];
  }

  predicate Within(lo: int, b: Byte, hi: int) {
    lo <= b <= hi
  }

  /** The productions of UTF8-char in section 4 of RFC 3629. */
  predicate Utf8Char(s: seq<Byte>) {
    || (|s| == 1 && s[0] <= 0x7F)
    || (|s| == 2 && Within(0xC2, s[0], 0xDF) && Within(0x80, s[1], 0xBF))
    || (|s| == 3 && Within(0x80, s[2], 0xBF)
        && (|| (s[0] == 0xE0 && Within(0xA0, s[1], 0xBF))
            || (Within(0xE1, s[0], 0xEC) && Within(0x80, s[1], 0xBF))
            || (s[0] == 0xED && Within(0x80, s[1], 0x9F))
            || (Within(0xEE, s[0], 0xEF) && Within(0x80, s[1], 0xBF))))
    || (|s| == 4 && Within(0x80, s[2], 0xBF) && Within(0x80, s[3], 0xBF)
        && (|| (s[0] == 0xF0 && Within(0x90, s[1], 0xBF))
            || (Within(0xF1, s[0], 0xF3) && Within(0x80, s[1], 0xBF))
            || (s[0] == 0xF4 && Within(0x80, s[1], 0x8F))))
  }

  /** UTF8-octets of section 4 of RFC 3629: any number of characters one after the other. */
  predicate Utf8Octets(s: seq<Byte>) {
    s == [] || exists k :: 1 <= k <= |s| && Utf8Char(s[..k]) && Utf8Octets(s[k..])
  }

  lemma CharIsDecodable(str: CString, pos: nat, k: nat)
    requires pos < |str| && 1 <= k <= |str| - pos
    ensures Utf8Char(str[pos..][..k]) <==> Decode(str, pos).0 != -1 && Decode(str, pos).1 == pos + k
  {
    var s := str[pos..][..k];
    assert forall j | 0 <= j < k :: s[j] == str[pos + j];
  }

  /** The validator accepts exactly the octet sequences of RFC 3629. */
  lemma {:induction false} ValidIsRfc3629(str: CString, pos: nat)
    requires pos <= |str|
    ensures Valid(str, pos) <==> Utf8Octets(str[pos..])
    decreases |str| - pos
  {
    var s := str[pos..];
    if pos < |str| {
      var (c, next) := Decode(str, pos);
      ValidIsRfc3629(str, next);
      if Utf8Octets(s) {
        var k :| 1 <= k <= |s| && Utf8Char(s[..k]) && Utf8Octets(s[k..]);
        CharIsDecodable(str, pos, k);
        assert s[k..] == str[next..];
      }
      if Valid(str, pos) {
        CharIsDecodable(str, pos, next - pos);
        assert s[next - pos..] == str[next..];
      }
    }
  }
}
