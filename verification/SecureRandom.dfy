/** Random numbers below a bound by rejection, and passwords from random numbers. */
module SecureRandom {
  import opened Bytes

  // ----- The mask -----

  /** Smearing the highest set bit of `n - 1` over all lower bits. */
  function Smear(n: bv32): bv32 {
    var n0 := n - 1;
    var n1 := n0 | (n0 >> 1);
    var n2 := n1 | (n1 >> 2);
    var n3 := n2 | (n2 >> 4);
    var n4 := n3 | (n3 >> 8);
    n4 | (n4 >> 16)
  }

  /** A number of the form 2^k - 1. */
  predicate AllOnes(m: bv32) {
    m & (m + 1) == 0
  }

  /** The smeared mask is the least number of the form 2^k - 1 that is at least `n - 1`. */
  lemma SmearIsLeast(n: bv32, m: bv32)
    requires n > 0
    ensures AllOnes(Smear(n)) && Smear(n) >= n - 1
    ensures AllOnes(m) && m >= n - 1 ==> m >= Smear(n)
  {
  }

  // ----- Rejection sampling -----

  function And(x: bv32, y: bv32): bv32 {
    x & y
  }

  /** What the loop compares with the bound. */
  function Masked(draw: bv32, below: bv32): bv32 {
    And(draw, Smear(below))
  }

  predicate Below(n: bv32, below: bv32) {
    n < below
  }

  predicate Accepted(draw: bv32, below: bv32) {
    Below(Masked(draw, below), below)
  }

  /** A draw is accepted if its bits under the mask are below the bound. */
  lemma AcceptedIs(draw: bv32, below: bv32)
    ensures Accepted(draw, below) <==> (draw & Smear(below)) < below
    ensures Masked(draw, below) == draw & Smear(below)
  {
    hide Smear;
  }

  function DrawOf(i: int): bv32
    requires 0 <= i < U32
  {
    i as bv32
  }

  /** All 32-bit numbers. */
  ghost function Draws(): set<bv32> {
    set i: int | 0 <= i < U32 :: DrawOf(i)
  }

  lemma AllDraws(d: bv32)
    ensures d in Draws()
  {
    assert DrawOf(d as int) == d;
  }

  /** The draws that are masked to `r`. */
  ghost function Preimages(below: bv32, r: bv32): set<bv32> {
    set d | d in Draws() && Masked(d, below) == r
  }

  ghost function Taken(below: bv32): set<bv32> {
    set d | d in Draws() && Accepted(d, below)
  }

  ghost function Refused(below: bv32): set<bv32> {
    set d | d in Draws() && !Accepted(d, below)
  }

  /** An injection bounds the size of its domain. */
  lemma {:induction false} InjectionSize<T(!new)>(a: set<T>, b: set<T>, f: T -> T)
    requires forall x | x in a :: f(x) in b
    requires forall x, y | x in a && y in a && f(x) == f(y) :: x == y
    ensures |a| <= |b|
    decreases a
  {
    if a != {} {
      var x :| x in a;
      InjectionSize(a - {x}, b - {f(x)}, f);
    }
  }

  /** Toggling the bits in which `r` and `s` differ. */
  function Toggled(d: bv32, r: bv32, s: bv32): bv32 {
    d ^ (r ^ s)
  }

  lemma MaskCovers(mask: bv32, r: bv32)
    requires AllOnes(mask) && r <= mask
    ensures r & mask == r
  {
  }

  lemma Within(below: bv32, r: bv32)
    requires 0 < below && r < below
    ensures r <= Smear(below)
  {
    SmearIsLeast(below, 0);
    hide Smear;
  }

  lemma ToggleMask(d: bv32, e: bv32, mask: bv32, r: bv32, s: bv32)
    requires r & mask == r && s & mask == s
    ensures d & mask == r ==> Toggled(d, r, s) & mask == s
    ensures Toggled(d, r, s) == Toggled(e, r, s) ==> d == e
  {
  }

  lemma ToggleIsBijective(below: bv32, d: bv32, e: bv32, r: bv32, s: bv32)
    requires Below(0, below) && Below(r, below) && Below(s, below)
    ensures Masked(d, below) == r ==> Masked(Toggled(d, r, s), below) == s
    ensures Toggled(d, r, s) == Toggled(e, r, s) ==> d == e
  {
    Within(below, r);
    Within(below, s);
    SmearIsLeast(below, 0);
    hide Smear, Toggled;
    var mask := Smear(below);
    MaskCovers(mask, r);
    MaskCovers(mask, s);
    ToggleMask(d, e, mask, r, s);
  }

  lemma PreimagesInject(below: bv32, r: bv32, s: bv32)
    requires Below(0, below) && Below(r, below) && Below(s, below)
    ensures |Preimages(below, r)| <= |Preimages(below, s)|
  {
    hide Masked, Below, Toggled, Draws;
    var f := (d: bv32) => Toggled(d, r, s);
    forall d | d in Preimages(below, r) ensures f(d) in Preimages(below, s) {
      ToggleIsBijective(below, d, d, r, s);
      AllDraws(f(d));
    }
    forall d, e | d in Preimages(below, r) && e in Preimages(below, r) && f(d) == f(e) ensures d == e {
      ToggleIsBijective(below, d, e, r, s);
    }
    InjectionSize(Preimages(below, r), Preimages(below, s), f);
  }

  /** Every result below the bound comes from the same number of draws, so accepted results are uniform. */
  lemma ResultsAreUniform(below: bv32, r: bv32, s: bv32)
    requires Below(0, below) && Below(r, below) && Below(s, below)
    ensures |Preimages(below, r)| == |Preimages(below, s)|
    ensures Preimages(below, r) <= Taken(below)
  {
    hide Masked, Below, Draws;
    PreimagesInject(below, r, s);
    PreimagesInject(below, s, r);
  }

  /** The highest bit of an all-ones mask. */
  function HighOf(mask: bv32): bv32 {
    mask & !(mask >> 1)
  }

  function Flip(d: bv32, bit: bv32): bv32 {
    d ^ bit
  }

  function High(below: bv32): bv32 {
    HighOf(Smear(below))
  }

  function Flipped(d: bv32, below: bv32): bv32 {
    Flip(d, High(below))
  }

  /** The mask is just large enough for the bound. */
  predicate Tight(mask: bv32, below: bv32) {
    below > 0 && AllOnes(mask) && (mask == 0 || (mask >> 1) < below - 1)
  }

  lemma SmearIsTight(below: bv32)
    requires Below(0, below)
    ensures Tight(Smear(below), below)
  {
    var mask := Smear(below);
    SmearIsLeast(below, mask >> 1);
    hide Smear;
    HalfIsAllOnes(mask);
  }

  lemma HalfIsAllOnes(mask: bv32)
    requires AllOnes(mask)
    ensures AllOnes(mask >> 1) && (mask >> 1 >= mask ==> mask == 0)
  {
  }

  lemma HighOfTight(mask: bv32, below: bv32)
    requires Tight(mask, below)
    ensures Below(And(HighOf(mask), mask), below)
  {
  }

  lemma FlipHigh(mask: bv32, d: bv32)
    requires AllOnes(mask) && d & mask > mask >> 1
    ensures (d ^ (mask & !(mask >> 1))) & mask <= mask >> 1
  {
  }

  lemma FlipOfTight(mask: bv32, below: bv32, d: bv32)
    requires Tight(mask, below) && !Below(And(d, mask), below)
    ensures Below(And(Flip(d, HighOf(mask)), mask), below)
  {
    if d & mask > mask >> 1 {
      FlipHigh(mask, d);
    }
  }

  lemma FlipIsInjective(d: bv32, e: bv32, bit: bv32)
    ensures Flip(d, bit) == Flip(e, bit) ==> d == e
    ensures Flip(d, bit) == bit ==> d == 0
  {
  }

  lemma ZeroIsAccepted(below: bv32)
    requires Below(0, below)
    ensures Accepted(0, below)
  {
    ZeroMasked(Smear(below));
    hide Smear, And;
  }

  lemma ZeroMasked(mask: bv32)
    ensures And(0, mask) == 0
  {
  }

  lemma HighIsAccepted(below: bv32)
    requires Below(0, below)
    ensures Accepted(High(below), below)
  {
    hide Smear, Tight, And, Below, HighOf;
    SmearIsTight(below);
    HighOfTight(Smear(below), below);
  }

  lemma FlippedIsAccepted(below: bv32, d: bv32)
    requires Below(0, below) && !Accepted(d, below)
    ensures Accepted(Flipped(d, below), below)
  {
    hide Smear, Tight, And, Below, HighOf, Flip;
    SmearIsTight(below);
    FlipOfTight(Smear(below), below, d);
  }

  /** Flipping the highest bit of the mask turns refused draws into accepted ones, and misses one of those. */
  lemma FlipHighBit(below: bv32, d: bv32, e: bv32)
    requires Below(0, below) && !Accepted(d, below)
    ensures Accepted(High(below), below)
    ensures Accepted(Flipped(d, below), below) && Flipped(d, below) != High(below)
    ensures Flipped(d, below) == Flipped(e, below) ==> d == e
  {
    hide Accepted, High, Below, Flip;
    HighIsAccepted(below);
    ZeroIsAccepted(below);
    FlippedIsAccepted(below, d);
    FlipIsInjective(d, e, High(below));
  }

  /** More than half of all draws are accepted. */
  lemma MostDrawsAreTaken(below: bv32)
    requires Below(0, below)
    ensures |Taken(below)| > |Refused(below)|
    ensures Taken(below) + Refused(below) == Draws() && Taken(below) !! Refused(below)
  {
    hide Accepted, Below, High, Flipped, Draws;
    var f := (d: bv32) => Flipped(d, below);
    var high := High(below);
    HighIsAccepted(below);
    AllDraws(high);
    forall d | d in Refused(below) ensures f(d) in Taken(below) - {high} {
      FlipHighBit(below, d, d);
      AllDraws(f(d));
    }
    forall d, e | d in Refused(below) && e in Refused(below) && f(d) == f(e) ensures d == e {
      FlipHighBit(below, d, e);
    }
    InjectionSize(Refused(below), Taken(below) - {high}, f);
  }

  /** The sampling loop over a stream of draws; nothing is returned when the stream ends first. */
  method RandBelow(below: bv32, draws: seq<bv32>) returns (found: bool, n: bv32, used: nat)
    requires 0 < below <= 0x7fff_ffff
    ensures found ==> 0 < used <= |draws| && n == And(draws[used - 1], Smear(below)) && Below(n, below)
    ensures found ==> forall k | 0 <= k < used - 1 :: !Below(And(draws[k], Smear(below)), below)
    ensures !found ==> forall k | 0 <= k < |draws| :: !Below(And(draws[k], Smear(below)), below)
  {
    hide Smear, And, Below;
    found, n, used := false, 0, 0;
    while used < |draws|
      invariant used <= |draws|
      invariant forall k | 0 <= k < used :: !Below(And(draws[k], Smear(below)), below)
    {
      n := Masked(draws[used], below);
      used := used + 1;
      if Below(n, below) {
        found := true;
        return;
      }
    }
  }

  // ----- Passwords -----

  /** No letters or digits that look alike. */
  const ALPHABET: string := "ABCDEFGHKLMNPRSTUVWXYZ" + "abcdefghjkmnopqt" + "23456789"

  /** `n` consecutive characters from `first` on. */
  function Run(first: char, n: nat): string
    requires first as int + n < 128
  {
    seq(n, k requires 0 <= k < n => (first as int + k) as char)
  }

  /** The alphabet by its runs. */
  function Values(): (r: string)
    ensures |r| == NUM_VALUES
  {
    Run('A', 8) + Run('K', 4) + Run('P', 1) + Run('R', 9)
    + Run('a', 8) + Run('j', 2) + Run('m', 5) + Run('t', 1) + Run('2', 8)
  }

  const NUM_VALUES: nat := 46

  lemma ValuesAreAlphabet(i: nat)
    requires i < NUM_VALUES
    ensures |ALPHABET| == NUM_VALUES && Values()[i] == ALPHABET[i]
  {
    if i < 22 {
      assert ALPHABET[i] == "ABCDEFGHKLMNPRSTUVWXYZ"[i];
    } else if i < 38 {
      assert ALPHABET[i] == "abcdefghjkmnopqt"[i - 22];
    } else {
      assert ALPHABET[i] == "23456789"[i - 38];
    }
  }

  /** The two characters of one random number. */
  function Pair(n: nat): string
    requires n < NUM_VALUES * NUM_VALUES
  {
    [Values()[n / NUM_VALUES], Values()[n % NUM_VALUES]]
  }

  function Password(random: seq<nat>): (r: string)
    ensures |r| == 2 * |random|
  {
    if random == [] then ""
    else Password(random[..|random| - 1]) + Pair(random[|random| - 1] % 2048)
  }

  method GeneratePassword(buffer: array<char>, length: nat, random: seq<nat>)
    requires 2 * |random| + 1 <= length <= buffer.Length
    modifies buffer
    ensures buffer[..2 * |random|] == Password(random) && buffer[2 * |random|] == '\0'
  {
    hide Values;
    buffer[2 * |random|] := '\0';
    for i := 0 to |random|
      invariant buffer[..2 * i] == Password(random[..i]) && buffer[2 * |random|] == '\0'
    {
      assert random[..i + 1][..i] == random[..i];
      ghost var before := buffer[..2 * i];
      var n := random[i] % 2048;
      buffer[2 * i + 0] := Values()[n / NUM_VALUES];
      buffer[2 * i + 1] := Values()[n % NUM_VALUES];
      assert buffer[..2 * (i + 1)] == before + Pair(n);
    }
    assert random[..|random|] == random;
  }

  /** Each random number gives two characters of the alphabet: the digits of its low eleven bits to base 46. */
  lemma {:induction false} PasswordCharacters(random: seq<nat>, i: nat)
    requires i < |random|
    ensures var n, p := random[i] % 2048, Password(random);
      |ALPHABET| == 46 && p[2 * i] == ALPHABET[n / 46] && p[2 * i + 1] == ALPHABET[n % 46]
  {
    hide Values;
    var last := |random| - 1;
    if i < last {
      PasswordCharacters(random[..last], i);
    } else {
      ValuesAreAlphabet(random[i] % 2048 / 46);
      ValuesAreAlphabet(random[i] % 2048 % 46);
    }
  }

  /** Where each character of the alphabet stands. */
  function ValueAt(i: nat): int
    requires i < NUM_VALUES
  {
    if i < 8 then 65 + i
    else if i < 12 then 75 + (i - 8)
    else if i < 13 then 80
    else if i < 22 then 82 + (i - 13)
    else if i < 30 then 97 + (i - 22)
    else if i < 32 then 106 + (i - 30)
    else if i < 37 then 109 + (i - 32)
    else if i < 38 then 116
    else 50 + (i - 38)
  }

  lemma ValuesIndexed(i: nat)
    requires i < NUM_VALUES
    ensures Values()[i] as int == ValueAt(i)
  {
  }

  /** No character occurs twice in the alphabet. */
  lemma ValuesAreDistinct(i: nat, j: nat)
    requires i < NUM_VALUES && j < NUM_VALUES
    ensures Values()[i] == Values()[j] <==> i == j
  {
    ValuesIndexed(i);
    ValuesIndexed(j);
    hide Values;
  }

  lemma PairIsInjective(m: nat, n: nat)
    requires m < 2048 && n < 2048
    ensures Pair(m) == Pair(n) <==> m == n
  {
    hide Values;
    ValuesAreDistinct(m / NUM_VALUES, n / NUM_VALUES);
    ValuesAreDistinct(m % NUM_VALUES, n % NUM_VALUES);
    assert Pair(m) == Pair(n) ==> Pair(m)[0] == Pair(n)[0] && Pair(m)[1] == Pair(n)[1];
  }

  predicate Agree(a: seq<nat>, b: seq<nat>) {
    |a| == |b| && forall i | 0 <= i < |a| :: a[i] % 2048 == b[i] % 2048
  }

  lemma AgreeSnoc(a: seq<nat>, b: seq<nat>)
    requires |a| == |b| && a != []
    ensures var last := |a| - 1;
      Agree(a, b) <==> Agree(a[..last], b[..last]) && a[last] % 2048 == b[last] % 2048
  {
    var last := |a| - 1;
    if Agree(a[..last], b[..last]) {
      assert forall i | 0 <= i < last :: a[i] == a[..last][i] && b[i] == b[..last][i];
    }
  }

  /** Two passwords are equal exactly when their random numbers agree modulo 2048. */
  lemma {:induction false} PasswordIsInjective(a: seq<nat>, b: seq<nat>)
    ensures Password(a) == Password(b) <==> Agree(a, b)
  {
    hide Pair, Agree;
    if |a| != |b| {
      assert !Agree(a, b) by { AgreeLength(a, b); }
    } else if a == [] {
      AgreeLength(a, b);
    } else {
      var last := |a| - 1;
      PasswordIsInjective(a[..last], b[..last]);
      PairIsInjective(a[last] % 2048, b[last] % 2048);
      AgreeSnoc(a, b);
      var p, q := Password(a[..last]), Password(b[..last]);
      var x, y := Pair(a[last] % 2048), Pair(b[last] % 2048);
      assert (p + x)[..2 * last] == p && (p + x)[2 * last..] == x;
      assert (q + y)[..2 * last] == q && (q + y)[2 * last..] == y;
    }
  }

  lemma AgreeLength(a: seq<nat>, b: seq<nat>)
    ensures |a| != |b| ==> !Agree(a, b)
    ensures a == [] && b == [] ==> Agree(a, b)
  {
  }
}
