/** Natural order of file names: digit runs compare as numbers are written, other characters without case. */
module FilenameOrder {
  import opened Bytes
  import opened Utf8

  predicate IsNum(c: Byte) {
    48 <= c <= 57
  }

  /** `tolower` of the C locale, which leaves all but the ASCII capital letters alone. */
  function ToLower(c: Byte): Byte {
    if 65 <= c <= 90 then c + 32 else c
  }

  /** The value of a `char`, which is signed on some platforms and unsigned on others. */
  function CharOf(c: Byte, signed: bool): int {
    if signed && c >= 128 then c as int - 256 else c as int
  }

  // ----- The order, as an order on keys -----

  /** A digit run (48, value with a leading 1) or a lowered character (character, 0). */
  datatype Token = Token(first: int, value: int)

  function DigitsLen(s: seq<Byte>): (n: nat)
    ensures n <= |s| && forall k | 0 <= k < n :: IsNum(s[k])
    ensures n < |s| ==> !IsNum(s[n])
  {
    if s == [] || !IsNum(s[0]) then 0 else 1 + DigitsLen(s[1..])
  }

  /** The decimal value of the run with a 1 in front, so that longer runs are larger. */
  function RunValue(digits: seq<Byte>): int {
    if digits == [] then 1 else 10 * RunValue(digits[..|digits| - 1]) + (digits[|digits| - 1] as int - 48)
  }

  function Key(s: seq<Byte>, signed: bool): seq<Token> {
    if s == [] then []
    else if IsNum(s[0]) then
      var n := DigitsLen(s);
      [Token(48, RunValue(s[..n]))] + Key(s[n..], signed)
    else [Token(CharOf(ToLower(s[0]), signed), 0)] + Key(s[1..], signed)
  }

  function Sign(x: int): int {
    if x < 0 then -1 else if x > 0 then 1 else 0
  }

  function CompareTokens(x: Token, y: Token): int {
    if x.first != y.first then Sign(x.first - y.first) else Sign(x.value - y.value)
  }

  function FirstOf(x: seq<Token>): int {
    if x == [] then 0 else x[0].first
  }

  predicate NoZeros(x: seq<Token>) {
    forall k | 0 <= k < |x| :: x[k].first != 0
  }

  /** Lexicographic order on keys, in which the end of a key counts as the character zero. */
  function Compare(x: seq<Token>, y: seq<Token>): (r: int)
    ensures -1 <= r <= 1
  {
    if x == [] || y == [] then Sign(FirstOf(x) - FirstOf(y))
    else if CompareTokens(x[0], y[0]) != 0 then CompareTokens(x[0], y[0])
    else Compare(x[1..], y[1..])
  }

  lemma {:induction false} CompareIsAntisymmetric(x: seq<Token>, y: seq<Token>)
    ensures Compare(x, y) == -Compare(y, x)
  {
    if x != [] && y != [] {
      CompareIsAntisymmetric(x[1..], y[1..]);
    }
  }

  lemma {:induction false} CompareZero(x: seq<Token>, y: seq<Token>)
    requires NoZeros(x) && NoZeros(y)
    ensures Compare(x, y) == 0 <==> x == y
  {
    if x != [] && y != [] {
      CompareZero(x[1..], y[1..]);
      assert x == [x[0]] + x[1..] && y == [y[0]] + y[1..];
    }
  }

  lemma {:induction false} CompareIsTransitive(x: seq<Token>, y: seq<Token>, z: seq<Token>)
    requires NoZeros(x) && NoZeros(y) && NoZeros(z)
    requires Compare(x, y) <= 0 && Compare(y, z) <= 0
    ensures Compare(x, z) <= 0
  {
    if x != [] && y != [] && z != [] && CompareTokens(x[0], y[0]) == 0 && CompareTokens(y[0], z[0]) == 0 {
      CompareIsTransitive(x[1..], y[1..], z[1..]);
    }
  }

  // ----- Digit runs -----

  function Pow10(n: nat): nat {
    if n == 0 then 1 else 10 * Pow10(n - 1)
  }

  lemma {:induction false} RunValueBounds(d: seq<Byte>)
    requires forall k | 0 <= k < |d| :: IsNum(d[k])
    ensures Pow10(|d|) <= RunValue(d) < 2 * Pow10(|d|)
  {
    if d != [] {
      RunValueBounds(d[..|d| - 1]);
    }
  }

  lemma {:induction false} Pow10Grows(m: nat, n: nat)
    requires m < n
    ensures 2 * Pow10(m) <= Pow10(n)
  {
    if m < n - 1 {
      Pow10Grows(m, n - 1);
    } else {
      assert Pow10(n) == 10 * Pow10(m);
    }
  }

  lemma RunValueSnoc(d: seq<Byte>, c: Byte)
    ensures RunValue(d + [c]) == 10 * RunValue(d) + (c as int - 48)
  {
    assert (d + [c])[..|d|] == d;
  }

  /** The longer digit run is the larger one. */
  lemma LongerIsLarger(d: seq<Byte>, e: seq<Byte>)
    requires forall k | 0 <= k < |d| :: IsNum(d[k])
    requires forall k | 0 <= k < |e| :: IsNum(e[k])
    requires |d| < |e|
    ensures RunValue(d) < RunValue(e)
  {
    RunValueBounds(d);
    RunValueBounds(e);
    Pow10Grows(|d|, |e|);
  }

  /** The key from a position where a digit run of length `n` starts. */
  lemma KeyOfRun(s: seq<Byte>, n: nat, signed: bool)
    requires 0 < n <= |s| && (forall k | 0 <= k < n :: IsNum(s[k])) && (n < |s| ==> !IsNum(s[n]))
    ensures DigitsLen(s) == n && Key(s, signed) == [Token(48, RunValue(s[..n]))] + Key(s[n..], signed)
  {
  }

  // ----- The comparison loop -----

  /** The sign of the result is the order of the keys. */
  method CompFilenames(a: CString, b: CString, signed: bool) returns (r: int)
    ensures Sign(r) == Compare(Key(a, signed), Key(b, signed))
  {
    hide Key, Compare, RunValue;
    var i := 0;
    assert a[0..] == a && b[0..] == b;
    while At(a, i) != 0 && At(b, i) != 0
      invariant i <= |a| && i <= |b|
      invariant Compare(Key(a, signed), Key(b, signed)) == Compare(Key(a[i..], signed), Key(b[i..], signed))
      decreases |a| - i
    {
      if IsNum(At(a, i)) && IsNum(At(b, i)) {
        var result, k := CompareRuns(a, b, i);
        var n := k - i;
        if IsNum(At(a, k)) {
          RunsDiffer(b, a, i, n, signed);
          return 1;
        } else if IsNum(At(b, k)) {
          RunsDiffer(a, b, i, n, signed);
          return -1;
        }
        RunsEqualLength(a, b, i, n, signed);
        if result != 0 {
          return result;
        } else if At(a, k) == 0 || At(b, k) == 0 {
          EndOfKey(a, b, k, signed);
          return CharOf(At(a, k), signed) - CharOf(At(b, k), signed);
        }
        i := k;
      }
      var result := CharOf(ToLower(At(a, i)), signed) - CharOf(ToLower(At(b, i)), signed);
      CharactersFirst(a, b, i, signed);
      if result != 0 {
        return result;
      }
      i := i + 1;
    }
    EndOfKey(a, b, i, signed);
    return CharOf(At(a, i), signed) - CharOf(At(b, i), signed);
  }

  /** The inner loop: the first difference of two digit runs, up to the end of the shorter one. */
  method CompareRuns(a: CString, b: CString, i: nat) returns (result: int, k: nat)
    requires i < |a| && i < |b| && IsNum(a[i]) && IsNum(b[i])
    ensures i < k <= |a| && k <= |b|
    ensures forall j | i <= j < k :: IsNum(a[j]) && IsNum(b[j])
    ensures !(IsNum(At(a, k)) && IsNum(At(b, k)))
    ensures Sign(result) == Sign(RunValue(a[i..k]) - RunValue(b[i..k]))
  {
    hide RunValue;
    result, k := 0, i;
    assert a[i..i] == b[i..i];
    while k == i || (IsNum(At(a, k)) && IsNum(At(b, k)))
      invariant i <= k <= |a| && k <= |b|
      invariant forall j | i <= j < k :: IsNum(a[j]) && IsNum(b[j])
      invariant Sign(result) == Sign(RunValue(a[i..k]) - RunValue(b[i..k]))
      decreases |a| - k
    {
      RunValueSnoc(a[i..k], a[k]);
      RunValueSnoc(b[i..k], b[k]);
      assert a[i..k + 1] == a[i..k] + [a[k]] && b[i..k + 1] == b[i..k] + [b[k]];
      if result == 0 {
        result := a[k] as int - b[k] as int;
      }
      k := k + 1;
    }
  }

  lemma RunsDiffer(a: CString, b: CString, i: nat, n: nat, signed: bool)
    requires n > 0 && i + n <= |a| && i + n < |b|
    requires forall j | i <= j < i + n :: IsNum(a[j]) && IsNum(b[j])
    requires !IsNum(At(a, i + n)) && IsNum(b[i + n])
    ensures Compare(Key(a[i..], signed), Key(b[i..], signed)) == -1
    ensures Compare(Key(b[i..], signed), Key(a[i..], signed)) == 1
  {
    KeyOfRun(a[i..], n, signed);
    var m := DigitsLen(b[i..]);
    KeyOfRun(b[i..], m, signed);
    LongerIsLarger(a[i..][..n], b[i..][..m]);
  }

  lemma RunsEqualLength(a: CString, b: CString, i: nat, n: nat, signed: bool)
    requires n > 0 && i + n <= |a| && i + n <= |b|
    requires forall j | i <= j < i + n :: IsNum(a[j]) && IsNum(b[j])
    requires !IsNum(At(a, i + n)) && !IsNum(At(b, i + n))
    ensures var d := RunValue(a[i..i + n]) - RunValue(b[i..i + n]);
      Compare(Key(a[i..], signed), Key(b[i..], signed))
      == if d != 0 then Sign(d) else Compare(Key(a[i + n..], signed), Key(b[i + n..], signed))
  {
    KeyOfRun(a[i..], n, signed);
    KeyOfRun(b[i..], n, signed);
    assert a[i..][..n] == a[i..i + n] && b[i..][..n] == b[i..i + n];
    assert a[i..][n..] == a[i + n..] && b[i..][n..] == b[i + n..];
  }

  lemma EndOfKey(a: CString, b: CString, i: nat, signed: bool)
    requires i <= |a| && i <= |b| && (i == |a| || i == |b|)
    ensures Compare(Key(a[i..], signed), Key(b[i..], signed))
            == Sign(CharOf(At(a, i), signed) - CharOf(At(b, i), signed))
  {
  }

  /** Where at most one of the strings has a digit, the lowered characters decide. */
  lemma CharactersFirst(a: CString, b: CString, i: nat, signed: bool)
    requires i < |a| && i < |b| && !(IsNum(a[i]) && IsNum(b[i]))
    ensures var d := CharOf(ToLower(a[i]), signed) - CharOf(ToLower(b[i]), signed);
      Compare(Key(a[i..], signed), Key(b[i..], signed))
      == if d != 0 then Sign(d) else Compare(Key(a[i + 1..], signed), Key(b[i + 1..], signed))
  {
    assert a[i..][1..] == a[i + 1..] && b[i..][1..] == b[i + 1..];
  }

  // ----- Main results -----

  lemma {:induction false} KeyHasNoZeros(s: CString, signed: bool)
    ensures NoZeros(Key(s, signed))
    decreases |s|
  {
    hide RunValue;
    if s != [] {
      KeyHasNoZeros(if IsNum(s[0]) then s[DigitsLen(s)..] else s[1..], signed);
    }
  }

  /** What the function returns, up to its size. */
  function Order(a: CString, b: CString, signed: bool): int {
    Compare(Key(a, signed), Key(b, signed))
  }

  function Lowered(s: seq<Byte>): (r: seq<Byte>)
    ensures |r| == |s|
  {
    seq(|s|, i requires 0 <= i < |s| => ToLower(s[i]))
  }

  /** The same character, or the two cases of one of the letters from A to Z. */
  predicate SameLetter(x: Byte, y: Byte) {
    || x == y
    || ('A' as int <= x as int <= 'Z' as int && y == x + 32)
    || ('A' as int <= y as int <= 'Z' as int && x == y + 32)
  }

  /** Of the same length, and pairwise the same up to case. */
  predicate EqualUpToCase(a: seq<Byte>, b: seq<Byte>) {
    |a| == |b| && forall i | 0 <= i < |a| :: SameLetter(a[i], b[i])
  }

  lemma LoweredIsCaseless(a: seq<Byte>, b: seq<Byte>)
    ensures Lowered(a) == Lowered(b) <==> EqualUpToCase(a, b)
  {
    if |a| == |b| {
      forall i | 0 <= i < |a| ensures Lowered(a)[i] == Lowered(b)[i] <==> SameLetter(a[i], b[i]) {
        assert Lowered(a)[i] == ToLower(a[i]) && Lowered(b)[i] == ToLower(b[i]);
      }
    }
  }

  lemma {:induction false} RunValueInjective(d: seq<Byte>, e: seq<Byte>)
    requires forall k | 0 <= k < |d| :: IsNum(d[k])
    requires forall k | 0 <= k < |e| :: IsNum(e[k])
    ensures RunValue(d) == RunValue(e) <==> d == e
  {
    if d != [] && e != [] {
      RunValueInjective(d[..|d| - 1], e[..|e| - 1]);
      assert d == d[..|d| - 1] + [d[|d| - 1]] && e == e[..|e| - 1] + [e[|e| - 1]];
    } else if d != e {
      RunValueBounds(d);
      RunValueBounds(e);
      if d == [] {
        Pow10Grows(0, |e|);
      } else {
        Pow10Grows(0, |d|);
      }
    }
  }

  /** Two strings have the same key exactly when they are equal up to case. */
  lemma KeyIsCaseless(a: seq<Byte>, b: seq<Byte>, signed: bool)
    ensures Key(a, signed) == Key(b, signed) <==> EqualUpToCase(a, b)
  {
    KeyIsLowered(a, b, signed);
    LoweredIsCaseless(a, b);
  }

  lemma {:induction false} KeyIsLowered(a: seq<Byte>, b: seq<Byte>, signed: bool)
    ensures Key(a, signed) == Key(b, signed) <==> Lowered(a) == Lowered(b)
    decreases |a|
  {
    hide RunValue;
    if a == [] || b == [] {
      assert Key(a, signed) == Key(b, signed) <==> a == b;
    } else if IsNum(a[0]) && IsNum(b[0]) {
      var m, n := DigitsLen(a), DigitsLen(b);
      RunValueInjective(a[..m], b[..n]);
      KeyTail(a, m, signed);
      KeyTail(b, n, signed);
      if a[..m] == b[..n] {
        assert m == |a[..m]| == |b[..n]| == n;
        KeyIsLowered(a[m..], b[m..], signed);
        LoweredAgree(a, b, m);
      } else if Lowered(a) == Lowered(b) {
        SameRun(a, b);
        assert false;
      }
    } else if IsNum(a[0]) || IsNum(b[0]) {
      assert Key(a, signed)[0].first != Key(b, signed)[0].first;
      assert Lowered(a)[0] != Lowered(b)[0];
    } else {
      KeyIsLowered(a[1..], b[1..], signed);
      assert Lowered(a)[0] == ToLower(a[0]) && Lowered(b)[0] == ToLower(b[0]);
      assert Key(a, signed)[0] == Token(CharOf(ToLower(a[0]), signed), 0);
      assert Key(b, signed)[0] == Token(CharOf(ToLower(b[0]), signed), 0);
      if ToLower(a[0]) == ToLower(b[0]) {
        assert Lowered(a[..1]) == Lowered(b[..1]);
        LoweredAgree(a, b, 1);
        assert Key(a, signed)[1..] == Key(a[1..], signed) && Key(b, signed)[1..] == Key(b[1..], signed);
      }
    }
  }

  lemma KeyTail(a: seq<Byte>, n: nat, signed: bool)
    requires a != [] && IsNum(a[0]) && n == DigitsLen(a)
    ensures Key(a, signed)[0] == Token(48, RunValue(a[..n])) && Key(a, signed)[1..] == Key(a[n..], signed)
    ensures Key(a, signed) == [Token(48, RunValue(a[..n]))] + Key(a[n..], signed)
  {
  }

  /** After equal lowered fronts, the rests decide. */
  lemma LoweredAgree(a: seq<Byte>, b: seq<Byte>, n: nat)
    requires n <= |a| && n <= |b| && Lowered(a[..n]) == Lowered(b[..n])
    ensures Lowered(a) == Lowered(b) <==> Lowered(a[n..]) == Lowered(b[n..])
  {
    LoweredSplit(a, n);
    LoweredSplit(b, n);
    assert Lowered(a)[n..] == Lowered(a[n..]) && Lowered(b)[n..] == Lowered(b[n..]);
  }

  lemma LoweredSplit(a: seq<Byte>, n: nat)
    requires n <= |a|
    ensures Lowered(a) == Lowered(a[..n]) + Lowered(a[n..])
  {
  }

  /** Strings equal up to case start with the same digit run. */
  lemma SameRun(a: seq<Byte>, b: seq<Byte>)
    requires Lowered(a) == Lowered(b)
    ensures a[..DigitsLen(a)] == b[..DigitsLen(b)]
  {
    var m, n := DigitsLen(a), DigitsLen(b);
    assert forall k | 0 <= k < |a| :: ToLower(a[k]) == Lowered(a)[k] == Lowered(b)[k] == ToLower(b[k]);
    assert m == n;
  }

  /**
   * The comparison is a total preorder on all strings, for signed and for unsigned characters: its sign is
   * antisymmetric and transitive, any two strings compare, and it is zero exactly for strings equal up to case.
   */
  lemma OrderIsTotalPreorder(a: CString, b: CString, c: CString, signed: bool)
    ensures Order(a, b, signed) == -Order(b, a, signed)
    ensures Order(a, b, signed) <= 0 && Order(b, c, signed) <= 0 ==> Order(a, c, signed) <= 0
    ensures Order(a, b, signed) == 0 <==> EqualUpToCase(a, b)
  {
    KeyHasNoZeros(a, signed);
    KeyHasNoZeros(b, signed);
    KeyHasNoZeros(c, signed);
    CompareIsAntisymmetric(Key(a, signed), Key(b, signed));
    if Order(a, b, signed) <= 0 && Order(b, c, signed) <= 0 {
      CompareIsTransitive(Key(a, signed), Key(b, signed), Key(c, signed));
    }
    CompareZero(Key(a, signed), Key(b, signed));
    KeyIsCaseless(a, b, signed);
  }

  // ----- The order by its rules -----

  /** The digit run at the front of a string is not torn by cutting the string here. */
  predicate Untorn(front: seq<Byte>, back: seq<Byte>) {
    front == [] || back == [] || !IsNum(front[|front| - 1]) || !IsNum(back[0])
  }

  lemma {:induction false} KeyConcat(x: seq<Byte>, a: seq<Byte>, signed: bool)
    requires Untorn(x, a)
    ensures Key(x + a, signed) == Key(x, signed) + Key(a, signed)
    decreases |x|
  {
    hide Key, DigitsLen, RunValue, Untorn;
    if x == [] {
      EmptyFront(a, signed);
    } else {
      var t, n := FirstToken(x, a, signed);
      KeyConcat(x[n..], a, signed);
      assert (x + a)[n..] == x[n..] + a;
      Regroup([t], Key(x[n..], signed), Key(a, signed));
    }
  }

  lemma EmptyFront(a: seq<Byte>, signed: bool)
    ensures Key([] + a, signed) == Key([], signed) + Key(a, signed)
  {
    assert [] + a == a && Key([], signed) == [];
    hide Key;
  }

  lemma Regroup(x: seq<Token>, y: seq<Token>, z: seq<Token>)
    ensures x + (y + z) == (x + y) + z
  {
  }

  /** The token at the front of `x` is that at the front of `x + a`. */
  lemma FirstToken(x: seq<Byte>, a: seq<Byte>, signed: bool) returns (t: Token, n: nat)
    requires x != [] && Untorn(x, a)
    ensures 0 < n <= |x| && Untorn(x[n..], a)
    ensures Key(x, signed) == [t] + Key(x[n..], signed) && Key(x + a, signed) == [t] + Key((x + a)[n..], signed)
  {
    hide RunValue;
    n := if IsNum(x[0]) then DigitsLen(x) else 1;
    t := if IsNum(x[0]) then Token(48, RunValue(x[..n])) else Token(CharOf(ToLower(x[0]), signed), 0);
    assert (x + a)[..n] == x[..n];
    if IsNum(x[0]) {
      assert n < |x| ==> (x + a)[n] == x[n];
      assert n == |x| && a != [] ==> (x + a)[n] == a[0];
      assert forall k | 0 <= k < n :: (x + a)[k] == x[k];
      KeyOfRun(x + a, n, signed);
    }
  }

  lemma {:induction false} CompareBehind(k: seq<Token>, u: seq<Token>, v: seq<Token>)
    ensures Compare(k + u, k + v) == Compare(u, v)
  {
    if k == [] {
      assert k + u == u && k + v == v;
    } else {
      CompareBehind(k[1..], u, v);
      assert (k + u)[1..] == k[1..] + u && (k + v)[1..] == k[1..] + v;
    }
  }

  /** Fronts that are equal up to case, and tear no digit run, do not matter. */
  lemma EqualFronts(x: seq<Byte>, y: seq<Byte>, a: seq<Byte>, b: seq<Byte>, signed: bool)
    requires EqualUpToCase(x, y) && Untorn(x, a) && Untorn(y, b)
    ensures Compare(Key(x + a, signed), Key(y + b, signed)) == Compare(Key(a, signed), Key(b, signed))
  {
    KeyIsCaseless(x, y, signed);
    KeyConcat(x, a, signed);
    KeyConcat(y, b, signed);
    CompareBehind(Key(x, signed), Key(a, signed), Key(b, signed));
  }

  predicate DigitsOnly(d: seq<Byte>) {
    forall k | 0 <= k < |d| :: '0' as int <= d[k] as int <= '9' as int
  }

  /** A digit run that ends where the rest of the string goes on. */
  predicate RunThen(d: seq<Byte>, rest: seq<Byte>) {
    d != [] && DigitsOnly(d) && (rest == [] || !('0' as int <= rest[0] as int <= '9' as int))
  }

  /** Of two digit runs the longer one is the larger. */
  lemma LongerRunIsLarger(d: seq<Byte>, rest: seq<Byte>, e: seq<Byte>, tail: seq<Byte>, signed: bool)
    requires RunThen(d, rest) && RunThen(e, tail) && |d| < |e|
    ensures Compare(Key(d + rest, signed), Key(e + tail, signed)) == -1
    ensures Compare(Key(e + tail, signed), Key(d + rest, signed)) == 1
  {
    RunKey(d, rest, signed);
    RunKey(e, tail, signed);
    LongerIsLarger(d, e);
  }

  lemma RunKey(d: seq<Byte>, rest: seq<Byte>, signed: bool)
    requires RunThen(d, rest)
    ensures Key(d + rest, signed) == [Token(48, RunValue(d))] + Key(rest, signed)
  {
    hide RunValue;
    assert (d + rest)[..|d|] == d && (d + rest)[|d|..] == rest;
    assert forall k | 0 <= k < |d| :: (d + rest)[k] == d[k];
    KeyOfRun(d + rest, |d|, signed);
  }

  /** Of two digit runs of equal length the first different digit decides. */
  lemma FirstDigitDecides(d: seq<Byte>, rest: seq<Byte>, e: seq<Byte>, tail: seq<Byte>, j: nat, signed: bool)
    requires RunThen(d, rest) && RunThen(e, tail) && |d| == |e|
    requires j < |d| && d[..j] == e[..j] && d[j] < e[j]
    ensures Compare(Key(d + rest, signed), Key(e + tail, signed)) == -1
    ensures Compare(Key(e + tail, signed), Key(d + rest, signed)) == 1
  {
    RunKey(d, rest, signed);
    RunKey(e, tail, signed);
    FirstDigitCounts(d, e, j);
  }

  lemma {:induction false} FirstDigitCounts(d: seq<Byte>, e: seq<Byte>, j: nat)
    requires DigitsOnly(d) && DigitsOnly(e) && |d| == |e|
    requires j < |d| && d[..j] == e[..j] && d[j] < e[j]
    ensures RunValue(d) < RunValue(e)
  {
    var n := |d| - 1;
    if j < n {
      assert d[..n][..j] == d[..j] == e[..j] == e[..n][..j];
      FirstDigitCounts(d[..n], e[..n], j);
    } else {
      assert d[..n] == e[..n];
    }
  }

  /** A character as a number, a capital letter as its small one, and bytes from 128 on as negative when signed. */
  function SmallLetterOf(c: Byte, signed: bool): int {
    (if 'A' as int <= c as int <= 'Z' as int then c as int + 32 else c as int)
    - (if signed && c as int >= 128 then 256 else 0)
  }

  /** Where at most one of two strings starts with a digit, the first characters decide, without their case. */
  lemma FirstCharacterDecides(a: seq<Byte>, b: seq<Byte>, signed: bool)
    requires a != [] && b != [] && !(DigitsOnly(a[..1]) && DigitsOnly(b[..1])) && !SameLetter(a[0], b[0])
    ensures Compare(Key(a, signed), Key(b, signed))
            == if SmallLetterOf(a[0], signed) < SmallLetterOf(b[0], signed) then -1 else 1
  {
    hide RunValue;
    assert IsNum(a[0]) <==> DigitsOnly(a[..1]);
    assert IsNum(b[0]) <==> DigitsOnly(b[..1]);
  }

  /** A string that has ended counts as the character zero. */
  lemma EndDecides(b: seq<Byte>, signed: bool)
    requires b != [] && b[0] != 0
    ensures Compare(Key([], signed), Key(b, signed)) == if signed && b[0] >= 128 then 1 else -1
  {
    hide RunValue;
  }
}
