/** Converting between byte offsets and character offsets of a string. */
module Utf8Offsets {
  import opened Bytes
  import opened Utf8
  import Utf8Truncate

  /** One decoding step; the terminator is not passed. */
  method Forward(str: CString, cursor: nat) returns (next: nat)
    requires cursor <= |str|
    ensures next == if cursor == |str| then cursor else Decode(str, cursor).1
  {
    var code, end := DecodeLoop(str, cursor);
    next := if code == 0 then cursor else end;
  }

  /** How many steps from `pos` it takes to reach byte `offset` or the end. */
  function StepsTo(str: CString, pos: nat, offset: nat): nat
    requires pos <= |str|
    decreases |str| - pos
  {
    if pos >= offset || pos == |str| then 0 else 1 + StepsTo(str, Decode(str, pos).1, offset)
  }

  /** Where `n` steps from `pos` lead, stopping at the end. */
  function After(str: CString, pos: nat, n: nat): (p: nat)
    requires pos <= |str|
    ensures pos <= p <= |str|
    decreases |str| - pos
  {
    if n == 0 || pos == |str| then pos else After(str, Decode(str, pos).1, n - 1)
  }

  method OffsetBytesToChars(str: CString, byteOffset: nat) returns (charOffset: nat)
    ensures charOffset == StepsTo(str, 0, byteOffset)
  {
    charOffset := 0;
    var current := 0;
    while current < byteOffset
      invariant current <= |str|
      invariant charOffset + StepsTo(str, current, byteOffset) == StepsTo(str, 0, byteOffset)
      decreases |str| - current
    {
      var previous := current;
      current := Forward(str, current);
      if current == previous {
        break;
      }
      charOffset := charOffset + 1;
    }
  }

  method OffsetCharsToBytes(str: CString, charOffset: nat) returns (byteOffset: nat)
    ensures byteOffset == After(str, 0, charOffset)
  {
    byteOffset := 0;
    for i := 0 to charOffset
      invariant byteOffset <= |str| && After(str, byteOffset, charOffset - i) == After(str, 0, charOffset)
    {
      var previous := byteOffset;
      byteOffset := Forward(str, byteOffset);
      if byteOffset == previous {
        break;
      }
    }
  }

  /** After `n` steps on any string, the code points beyond the first `n` remain. */
  lemma {:induction false} AfterSkipsCodePoints(str: CString, pos: nat, n: nat)
    requires pos <= |str|
    ensures var cs := CodePoints(str, pos); CodePoints(str, After(str, pos, n)) == cs[Min(n, |cs|)..]
    decreases |str| - pos
  {
    hide Decode;
    if n > 0 && pos < |str| {
      var next := Decode(str, pos).1;
      AfterSkipsCodePoints(str, next, n - 1);
      assert CodePoints(str, pos) == [Decode(str, pos).0] + CodePoints(str, next);
    }
  }

  /** In valid UTF-8, `n` steps from the start pass exactly the encodings of the first `n` characters. */
  lemma {:induction false} AfterWholeCharacters(cs: seq<nat>, str: CString, pos: nat, n: nat)
    requires Characters(cs) && pos <= |str| && EncodeAll(cs) == str[pos..]
    ensures After(str, pos, n) == pos + |EncodeAll(cs[..Min(n, |cs|)])|
    decreases |cs|
  {
    hide Encode, Decode;
    if cs != [] {
      EncodeShape(cs[0]);
      DecodeAt(str, pos, cs[0]);
      if n > 0 {
        var next := pos + |Encode(cs[0])|;
        assert str[next..] == str[pos..][|Encode(cs[0])|..] == EncodeAll(cs[1..]);
        AfterWholeCharacters(cs[1..], str, next, n - 1);
        Utf8Truncate.EncodeAllFront(cs, Min(n, |cs|));
      }
    }
  }

  /** The two conversions from `pos` on, for a byte offset that is cut at the end of the string. */
  lemma {:induction false} StepsAndAfter(str: CString, pos: nat, offset: nat, n: nat)
    requires pos <= |str|
    ensures StepsTo(str, pos, offset) <= n <==> Min(offset, |str|) <= After(str, pos, n)
    decreases |str| - pos
  {
    if pos < offset && pos < |str| && n > 0 {
      StepsAndAfter(str, Decode(str, pos).1, offset, n - 1);
    }
  }

  /**
   * The conversions form a Galois connection for the byte offsets inside the string, its end included, and
   * for no others: an offset behind the end is never reached by any number of characters.
   */
  lemma GaloisConnection(str: CString, offset: nat)
    ensures (forall n: nat :: StepsTo(str, 0, offset) <= n <==> offset <= After(str, 0, n)) <==> offset <= |str|
  {
    forall n: nat
      ensures StepsTo(str, 0, offset) <= n <==> Min(offset, |str|) <= After(str, 0, n)
    {
      StepsAndAfter(str, 0, offset, n);
    }
    if offset > |str| {
      var n := StepsTo(str, 0, offset);
      assert n <= n && After(str, 0, n) <= |str|;
    }
  }

  /** On any string, the cut by characters is as far as at most `chars` steps get below `limit` bytes. */
  lemma {:induction false} CutIsLargest(str: CString, pos: nat, chars: nat, limit: nat, k: nat)
    requires pos <= |str| && pos < limit && k <= chars
    ensures After(str, pos, k) < limit <==> After(str, pos, k) <= Utf8Truncate.CutPos(str, pos, chars, limit)
    decreases chars
  {
    if k > 0 && pos < |str| && Decode(str, pos).1 < limit {
      CutIsLargest(str, Decode(str, pos).1, chars - 1, limit, k - 1);
    }
  }

  lemma {:induction false} CutIsReached(str: CString, pos: nat, chars: nat, limit: nat) returns (k: nat)
    requires pos <= |str| && pos < limit
    ensures k <= chars && After(str, pos, k) == Utf8Truncate.CutPos(str, pos, chars, limit)
    decreases chars
  {
    if chars == 0 || pos == |str| || Decode(str, pos).1 >= limit {
      k := 0;
    } else {
      k := CutIsReached(str, Decode(str, pos).1, chars - 1, limit);
      k := k + 1;
    }
  }
}
