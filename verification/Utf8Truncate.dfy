/** Copying strings into buffers that may be too small, without leaving half a character at the end. */
module Utf8Truncate {
  import opened Bytes
  import opened Utf8

  /** The buffer holds the string `s` and its terminator. */
  predicate Holds(buf: seq<Byte>, s: CString) {
    |s| < |buf| && buf[..|s|] == s && buf[|s|] == 0
  }

  predicate IsStart(b: Byte) {
    !Continuation(b)
  }

  /** Where the last character before `cursor` starts. */
  function RewindPos(str: CString, cursor: nat): (p: nat)
    requires cursor <= |str|
    ensures p <= cursor && (cursor > 0 ==> p < cursor)
  {
    if cursor == 0 then 0
    else if IsStart(str[cursor - 1]) then cursor - 1
    else RewindPos(str, cursor - 1)
  }

  method Rewind(str: CString, start: nat) returns (cursor: nat)
    requires start <= |str|
    ensures cursor == RewindPos(str, start)
    ensures start > 0 ==>
      && cursor < start && (cursor > 0 ==> !(0x80 <= str[cursor] <= 0xBF))
      && forall j | cursor < j < start :: 0x80 <= str[j] <= 0xBF
  {
    cursor := start;
    while cursor != 0
      invariant cursor <= start && RewindPos(str, start) == RewindPos(str, cursor)
      invariant forall j | cursor <= j < start :: 0x80 <= str[j] <= 0xBF
    {
      cursor := cursor - 1;
      if IsStart(str[cursor]) {
        return;
      }
    }
  }

  /** The string without a broken last character. */
  function Repaired(s: CString): CString {
    if s == [] then s
    else
      var last := RewindPos(s, |s|);
      if Decode(s, last).0 == -1 then s[..last] else s
  }

  method StrLength(dst: array<Byte>, ghost s: CString) returns (n: nat)
    requires Holds(dst[..], s)
    ensures n == |s|
  {
    n := 0;
    while dst[n] != 0
      invariant n <= |s|
      invariant n < |s| ==> dst[..][n] == s[n]
      decreases |s| - n
    {
      n := n + 1;
      assert n < |s| ==> dst[..][n] == dst[..][..|s|][n];
    }
  }

  method FixTruncation(dst: array<Byte>, ghost s: CString) returns (length: nat)
    requires Holds(dst[..], s)
    modifies dst
    ensures Holds(dst[..], Repaired(s)) && length == |Repaired(s)|
  {
    length := StrLength(dst, s);
    if length > 0 {
      var str: seq<Byte> := dst[..length];
      assert str == s;
      var last := Rewind(str, length);
      var code, next := DecodeLoop(str, last);
      if code == -1 {
        dst[last] := 0;
        return last;
      }
    }
  }

  /** `strncat` into an empty buffer, then the repair. */
  method StrCopy(dst: array<Byte>, src: CString, dstSize: nat) returns (length: nat)
    requires 0 < dstSize <= dst.Length
    modifies dst
    ensures var kept := Repaired(src[..Min(|src|, dstSize - 1)]);
      Holds(dst[..], kept) && length == |kept|
  {
    var n := Min(|src|, dstSize - 1);
    forall k | 0 <= k < n {
      dst[k] := src[k];
    }
    dst[n] := 0;
    length := FixTruncation(dst, src[..n]);
  }

  /** Appends behind the string in the buffer, which is cut when it does not fit itself. */
  method StrAppend(dst: array<Byte>, src: CString, dstSize: nat, ghost before: CString)
    requires 0 < dstSize <= dst.Length && Holds(dst[..], before)
    modifies dst
    ensures Holds(dst[..], Repaired((before + src)[..Min(|before| + |src|, dstSize - 1)]))
  {
    var s := StrLength(dst, before);
    var i := 0;
    while s < dstSize
      invariant s == |before| + i && i <= |src| && (i > 0 ==> s <= dstSize) && s <= dst.Length
      invariant dst[..s] == before + src[..i]
    {
      dst[s] := At(src, i);
      if At(src, i) == 0 {
        break;
      }
      assert src[..i + 1] == src[..i] + [src[i]];
      s := s + 1;
      i := i + 1;
    }
    dst[dstSize - 1] := 0;
    ghost var joined := (before + src)[..Min(|before| + |src|, dstSize - 1)];
    assert joined == dst[..|joined|];
    var _ := FixTruncation(dst, joined);
  }

  method StrTruncate(dst: array<Byte>, dstSize: nat, src: CString, truncationLen: nat)
    requires 0 < dstSize <= dst.Length
    modifies dst
    ensures Holds(dst[..], Repaired(src[..Min(|src|, Min(dstSize - 1, truncationLen))]))
  {
    var size := dstSize;
    if truncationLen < size {
      size := truncationLen + 1;
    }
    var _ := StrCopy(dst, src, size);
  }

  /** How far whole decoding steps get from `pos` within `chars` steps and below `limit` bytes. */
  function CutPos(str: CString, pos: nat, chars: nat, limit: nat): (p: nat)
    requires pos <= |str| && pos < limit
    ensures pos <= p <= |str| && p < limit
    decreases |str| - pos
  {
    if chars == 0 || pos == |str| || Decode(str, pos).1 >= limit then pos
    else CutPos(str, Decode(str, pos).1, chars - 1, limit)
  }

  method Utf8TruncateTo(dst: array<Byte>, dstSize: nat, src: CString, truncationLen: nat)
    requires 0 < dstSize <= dst.Length
    modifies dst
    ensures Holds(dst[..], Repaired(src[..CutPos(src, 0, truncationLen, dstSize)]))
  {
    var size := -1;
    var cursor, pos := 0, 0;
    while pos <= truncationLen && cursor < dstSize && size != cursor
      invariant pos <= truncationLen + 1
      invariant pos == 0 ==> size == -1 && cursor == 0
      invariant pos > 0 ==>
        && 0 <= size < cursor <= |src| && size < dstSize
        && Decode(src, size).1 == cursor
        && CutPos(src, 0, truncationLen, dstSize) == CutPos(src, size, truncationLen - (pos - 1), dstSize)
      decreases truncationLen + 1 - pos
    {
      size := cursor;
      var code, next := DecodeLoop(src, cursor);
      if code == 0 {
        break;
      }
      cursor := next;
      pos := pos + 1;
    }
    assert CutPos(src, 0, truncationLen, dstSize) == size;
    var _ := StrCopy(dst, src, size + 1);
  }

  // ----- What is kept of any string -----

  lemma {:induction false} RewindPosStops(str: CString, cursor: nat)
    requires 0 < cursor <= |str|
    ensures var p := RewindPos(str, cursor);
      && (p > 0 ==> !(0x80 <= str[p] <= 0xBF)) && forall j | p < j < cursor :: 0x80 <= str[j] <= 0xBF
  {
    if cursor > 1 && !IsStart(str[cursor - 1]) {
      RewindPosStops(str, cursor - 1);
    }
  }

  /**
   * The repair of any string, valid or not: it is cut before the last byte that is no continuation byte, or at the
   * start when there is none, if and only if no character is encoded there.
   */
  lemma RepairedExactly(s: CString, last: nat)
    requires last < |s| && (last > 0 ==> !(0x80 <= s[last] <= 0xBF))
    requires forall j | last < j < |s| :: 0x80 <= s[j] <= 0xBF
    ensures Repaired(s) == if exists c: nat :: Character(c) && Encode(c) <= s[last..] then s else s[..last]
  {
    hide Encode, Decode;
    RewindPosStops(s, |s|);
    assert RewindPos(s, |s|) == last;
    if Decode(s, last).0 != -1 {
      EncodeDecode(s, last);
      var (c, next) := Decode(s, last);
      assert s[last..][..next - last] == s[last..next];
    } else if c: nat :| Character(c) && Encode(c) <= s[last..] {
      DecodeAt(s, last, c);
      assert false;
    }
  }

  // ----- What is kept of valid UTF-8 -----

  /** The largest number of leading characters whose encodings fit into `n` bytes. */
  function Fit(cs: seq<nat>, n: nat): (k: nat)
    ensures k <= |cs|
  {
    if cs == [] || |Encode(cs[0])| > n then 0 else 1 + Fit(cs[1..], n - |Encode(cs[0])|)
  }

  lemma {:induction false} EncodeAllConcat(a: seq<nat>, b: seq<nat>)
    ensures EncodeAll(a + b) == EncodeAll(a) + EncodeAll(b)
  {
    if a == [] {
      assert a + b == b;
    } else {
      assert (a + b)[1..] == a[1..] + b;
      EncodeAllConcat(a[1..], b);
    }
  }

  lemma EncodeAllFront(cs: seq<nat>, k: nat)
    requires 0 < k <= |cs|
    ensures EncodeAll(cs[..k]) == Encode(cs[0]) + EncodeAll(cs[1..][..k - 1])
  {
    assert cs[..k][0] == cs[0] && cs[..k][1..] == cs[1..][..k - 1];
  }

  /** `Fit` is the largest such number. */
  lemma {:induction false} FitIsLargest(cs: seq<nat>, n: nat, k: nat)
    requires Characters(cs) && k <= |cs|
    ensures |EncodeAll(cs[..k])| <= n <==> k <= Fit(cs, n)
  {
    hide Encode;
    if k > 0 {
      EncodeShape(cs[0]);
      EncodeAllFront(cs, k);
      if |Encode(cs[0])| <= n {
        FitIsLargest(cs[1..], n - |Encode(cs[0])|, k - 1);
      }
    }
  }

  lemma {:induction false} RewindTo(str: CString, cursor: nat, p: nat)
    requires p < cursor <= |str| && IsStart(str[p])
    requires forall j | p < j < cursor :: Continuation(str[j])
    ensures RewindPos(str, cursor) == p
  {
    if cursor - 1 > p {
      RewindTo(str, cursor - 1, p);
    }
  }

  /** Rewinding from behind a nonempty front part of an encoding finds its lead byte. */
  lemma RewindOverTail(str: CString, p: nat, c: nat)
    requires Character(c) && p < |str| && str[p..] <= Encode(c)
    ensures RewindPos(str, |str|) == p
  {
    hide Encode;
    EncodeShape(c);
    assert forall j | p <= j < |str| :: str[j] == str[p..][j - p] == Encode(c)[j - p];
    RewindTo(str, |str|, p);
  }

  /** Whole characters followed by less than one more character are repaired to the whole characters. */
  lemma RepairTail(whole: seq<nat>, tail: seq<Byte>, c: nat, str: CString)
    requires Characters(whole) && Character(c)
    requires tail < Encode(c) && str == EncodeAll(whole) + tail
    ensures Repaired(str) == EncodeAll(whole)
  {
    hide Encode;
    var p := |EncodeAll(whole)|;
    if tail != [] {
      assert str[p..] == tail;
      RewindOverTail(str, p, c);
      DecodeCut(str, p, c);
      assert str[..p] == EncodeAll(whole);
    } else if whole != [] {
      var last := |whole| - 1;
      EncodeAllConcat(whole[..last], [whole[last]]);
      assert whole == whole[..last] + [whole[last]];
      assert EncodeAll([whole[last]]) == Encode(whole[last]) + EncodeAll([]);
      var q := |EncodeAll(whole[..last])|;
      assert str[q..] == Encode(whole[last]);
      EncodeShape(whole[last]);
      RewindOverTail(str, q, whole[last]);
      DecodeAt(str, q, whole[last]);
    }
  }

  lemma EncodeAllSplit(cs: seq<nat>, k: nat)
    requires k <= |cs|
    ensures EncodeAll(cs) == EncodeAll(cs[..k]) + EncodeAll(cs[k..])
  {
    hide EncodeAll;
    EncodeAllConcat(cs[..k], cs[k..]);
    assert cs == cs[..k] + cs[k..];
  }

  lemma EncodeAllNext(cs: seq<nat>, k: nat)
    requires k < |cs|
    ensures EncodeAll(cs[..k + 1]) == EncodeAll(cs[..k]) + Encode(cs[k])
    ensures EncodeAll(cs[k..]) == Encode(cs[k]) + EncodeAll(cs[k + 1..])
  {
    EncodeAllConcat(cs[..k], [cs[k]]);
    assert cs[..k + 1] == cs[..k] + [cs[k]];
    assert EncodeAll([cs[k]]) == Encode(cs[k]) + EncodeAll([]);
    assert cs[k..][1..] == cs[k + 1..];
  }

  /** The tail behind the whole characters that fit is less than one more character. */
  lemma TailIsShort(whole: seq<Byte>, next: seq<Byte>, rest: seq<Byte>, n: nat)
    requires |whole| <= n < |whole| + |next|
    ensures var cut := (whole + (next + rest))[..Min(|whole + (next + rest)|, n)];
      cut == whole + next[..n - |whole|] && next[..n - |whole|] < next
  {
  }

  lemma ACharacter() returns (c: nat)
    ensures Character(c) && [] < Encode(c)
  {
    c := 65;
  }

  /** Cutting valid UTF-8 after `n` bytes and repairing it keeps the largest number of whole characters. */
  lemma WholeCharactersKept(cs: seq<nat>, src: CString, n: nat)
    requires Characters(cs) && src == EncodeAll(cs)
    ensures Repaired(src[..Min(|src|, n)]) == EncodeAll(cs[..Fit(cs, n)])
  {
    hide Encode, Repaired, EncodeAll, Fit;
    var k := Fit(cs, n);
    FitIsLargest(cs, n, k);
    EncodeAllSplit(cs, k);
    var whole := EncodeAll(cs[..k]);
    if k == |cs| {
      assert cs[..k] == cs;
      var c := ACharacter();
      assert src[..Min(|src|, n)] == src == whole + [];
      RepairTail(cs[..k], [], c, src);
    } else {
      FitIsLargest(cs, n, k + 1);
      EncodeAllNext(cs, k);
      var next, rest := Encode(cs[k]), EncodeAll(cs[k + 1..]);
      TailIsShort(whole, next, rest, n);
      RepairTail(cs[..k], next[..n - |whole|], cs[k], src[..Min(|src|, n)]);
    }
  }

  /** One step of `CutPos` over the encoding of `c`. */
  lemma CutPosStep(src: CString, pos: nat, chars: nat, limit: nat, c: nat, rest: seq<Byte>)
    requires Character(c) && pos < |src| && pos < limit && src[pos..] == Encode(c) + rest
    ensures var next := pos + |Encode(c)|;
      && next > pos && next <= |src| && src[next..] == rest
      && CutPos(src, pos, chars, limit)
         == if chars == 0 || next >= limit then pos else CutPos(src, next, chars - 1, limit)
  {
    hide Encode;
    EncodeShape(c);
    DecodeAt(src, pos, c);
  }

  /** `CutPos` counts whole characters: at most `chars` of them, below `limit` bytes, and as many as possible. */
  lemma {:induction false} CutPosFits(cs: seq<nat>, src: CString, pos: nat, chars: nat, limit: nat)
    requires Characters(cs) && pos <= |src| && pos < limit && EncodeAll(cs) == src[pos..]
    ensures CutPos(src, pos, chars, limit)
            == pos + |EncodeAll(cs[..Min(chars, Fit(cs, limit - 1 - pos))])|
  {
    hide Encode, CutPos;
    if cs == [] {
      assert pos == |src|;
      CutPosEnd(src, chars, limit);
    } else {
      EncodeShape(cs[0]);
      CutPosStep(src, pos, chars, limit, cs[0], EncodeAll(cs[1..]));
      var next := pos + |Encode(cs[0])|;
      if chars > 0 && next < limit {
        CutPosFits(cs[1..], src, next, chars - 1, limit);
        EncodeAllFront(cs, Min(chars, Fit(cs, limit - 1 - pos)));
      }
    }
  }

  lemma CutPosEnd(src: CString, chars: nat, limit: nat)
    requires |src| < limit
    ensures CutPos(src, |src|, chars, limit) == |src|
  {
  }

  /** Truncating valid UTF-8 by characters keeps the longest prefix with both bounds, and no repair is needed. */
  lemma CharacterTruncation(cs: seq<nat>, src: CString, dstSize: nat, truncationLen: nat)
    requires Characters(cs) && src == EncodeAll(cs) && dstSize > 0
    ensures Repaired(src[..CutPos(src, 0, truncationLen, dstSize)])
            == EncodeAll(cs[..Min(truncationLen, Fit(cs, dstSize - 1))])
  {
    hide Encode, Repaired, EncodeAll, Fit, CutPos;
    assert src[0..] == src;
    CutPosFits(cs, src, 0, truncationLen, dstSize);
    var k := Min(truncationLen, Fit(cs, dstSize - 1));
    EncodeAllSplit(cs, k);
    var whole := EncodeAll(cs[..k]);
    var c := ACharacter();
    assert whole + [] == src[..|whole|];
    RepairTail(cs[..k], [], c, src[..|whole|]);
  }
}
