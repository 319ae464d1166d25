/** The two-row edit distance, against the minimum number of single-character edits. */
module EditDistance {
  import opened Bytes
  import opened Utf8

  function Min3(a: int, b: int, c: int): int {
    Min(a, Min(b, c))
  }

  /** The recursion over the ends of the strings: delete, insert, or match the last characters. */
  function Distance(a: seq<int>, b: seq<int>): (d: nat)
    decreases |a| + |b|
  {
    if a == [] then |b|
    else if b == [] then |a|
    else
      Min3(Distance(Front(a), b) + 1, Distance(a, Front(b)) + 1,
           Distance(Front(a), Front(b)) + if Last(a) == Last(b) then 0 else 1)
  }

  function Front(s: seq<int>): seq<int>
    requires s != []
  {
    s[..|s| - 1]
  }

  function Last(s: seq<int>): int
    requires s != []
  {
    s[|s| - 1]
  }

  // ----- The meaning of the distance: shortest paths of single edits -----

  function Inserted(s: seq<int>, i: nat, x: int): seq<int>
    requires i <= |s|
  {
    s[..i] + [x] + s[i..]
  }

  function Replaced(s: seq<int>, i: nat, x: int): seq<int>
    requires i < |s|
  {
    s[i := x]
  }

  /** `t` comes from `s` by inserting, deleting or replacing one character. */
  ghost predicate OneEdit(s: seq<int>, t: seq<int>) {
    || (exists i: nat, x :: i <= |s| && t == Inserted(s, i, x))
    || (exists i: nat, x :: i <= |t| && s == Inserted(t, i, x))
    || (exists i: nat, x :: i < |s| && t == Replaced(s, i, x))
  }

  /** `p` leads from `a` to `b`, each string coming from the one before it by one edit. */
  ghost predicate Path(p: seq<seq<int>>, a: seq<int>, b: seq<int>) {
    && p != [] && p[0] == a && p[|p| - 1] == b
    && forall k | 0 <= k < |p| - 1 :: OneEdit(p[k], p[k + 1])
  }

  // No path is shorter than the distance

  lemma InsertedFront(s: seq<int>, i: nat, x: int)
    requires i <= |s|
    ensures i == |s| ==> Front(Inserted(s, i, x)) == s
    ensures i < |s| ==> Front(Inserted(s, i, x)) == Inserted(Front(s), i, x) && Last(Inserted(s, i, x)) == Last(s)
  {
  }

  lemma ReplacedFront(s: seq<int>, i: nat, x: int)
    requires i < |s|
    ensures i == |s| - 1 ==> Front(Replaced(s, i, x)) == Front(s)
    ensures i < |s| - 1 ==> Front(Replaced(s, i, x)) == Replaced(Front(s), i, x) && Last(Replaced(s, i, x)) == Last(s)
  {
  }

  /** Inserting one character into `s`, or deleting it again, changes the distance by at most one. */
  lemma {:induction false} InsertIsClose(a: seq<int>, s: seq<int>, i: nat, x: int)
    requires i <= |s|
    ensures -1 <= Distance(a, Inserted(s, i, x)) - Distance(a, s) <= 1
    decreases |a| + |s|
  {
    InsertedFront(s, i, x);
    if a != [] {
      InsertIsClose(Front(a), s, i, x);
      if i < |s| {
        InsertIsClose(a, Front(s), i, x);
        InsertIsClose(Front(a), Front(s), i, x);
      }
    }
  }

  lemma {:induction false} ReplaceIsClose(a: seq<int>, s: seq<int>, i: nat, x: int)
    requires i < |s|
    ensures Distance(a, Replaced(s, i, x)) <= Distance(a, s) + 1
    decreases |a| + |s|
  {
    ReplacedFront(s, i, x);
    if a != [] {
      ReplaceIsClose(Front(a), s, i, x);
      if i < |s| - 1 {
        ReplaceIsClose(a, Front(s), i, x);
        ReplaceIsClose(Front(a), Front(s), i, x);
      }
    }
  }

  lemma EditIsClose(a: seq<int>, s: seq<int>, t: seq<int>)
    requires OneEdit(s, t)
    ensures Distance(a, t) <= Distance(a, s) + 1
  {
    if i: nat, x :| i <= |s| && t == Inserted(s, i, x) {
      InsertIsClose(a, s, i, x);
    } else if i: nat, x :| i <= |t| && s == Inserted(t, i, x) {
      InsertIsClose(a, t, i, x);
    } else {
      var i: nat, x :| i < |s| && t == Replaced(s, i, x);
      ReplaceIsClose(a, s, i, x);
    }
  }

  lemma {:induction false} DistanceToSelf(a: seq<int>)
    ensures Distance(a, a) == 0
  {
    if a != [] {
      DistanceToSelf(Front(a));
    }
  }

  lemma {:induction false} PathsAreLong(p: seq<seq<int>>, a: seq<int>, b: seq<int>)
    requires Path(p, a, b)
    ensures |p| - 1 >= Distance(a, b)
    decreases |p|
  {
    if |p| == 1 {
      DistanceToSelf(a);
    } else {
      var front := p[..|p| - 1];
      forall k | 0 <= k < |front| - 1 ensures OneEdit(front[k], front[k + 1]) {
        assert OneEdit(p[k], p[k + 1]);
      }
      PathsAreLong(front, a, p[|p| - 2]);
      assert OneEdit(p[|p| - 2], p[|p| - 2 + 1]);
      EditIsClose(a, p[|p| - 2], b);
    }
  }

  // Some path is as short as the distance

  lemma EditBehind(s: seq<int>, t: seq<int>, y: int)
    requires OneEdit(s, t)
    ensures OneEdit(s + [y], t + [y])
  {
    if i: nat, x :| i <= |s| && t == Inserted(s, i, x) {
      InsertedBehind(s, i, x, y);
    } else if i: nat, x :| i <= |t| && s == Inserted(t, i, x) {
      InsertedBehind(t, i, x, y);
    } else {
      var i: nat, x :| i < |s| && t == Replaced(s, i, x);
      assert t + [y] == Replaced(s + [y], i, x);
    }
  }

  lemma InsertedBehind(s: seq<int>, i: nat, x: int, y: int)
    requires i <= |s|
    ensures Inserted(s, i, x) + [y] == Inserted(s + [y], i, x)
  {
  }

  lemma AppendIsEdit(s: seq<int>)
    requires s != []
    ensures OneEdit(Front(s), s) && OneEdit(s, Front(s))
  {
    assert s == Inserted(Front(s), |s| - 1, Last(s));
  }

  lemma PathSnoc(p: seq<seq<int>>, a: seq<int>, b: seq<int>, c: seq<int>)
    requires Path(p, a, b) && OneEdit(b, c)
    ensures Path(p + [c], a, c)
  {
  }

  lemma PathCons(p: seq<seq<int>>, a: seq<int>, b: seq<int>, c: seq<int>)
    requires Path(p, b, c) && OneEdit(a, b)
    ensures Path([a] + p, a, c)
  {
    var q := [a] + p;
    forall k | 0 <= k < |q| - 1 ensures OneEdit(q[k], q[k + 1]) {
      if k > 0 {
        assert OneEdit(p[k - 1], p[k - 1 + 1]);
      }
    }
  }

  lemma PathBehind(p: seq<seq<int>>, a: seq<int>, b: seq<int>, y: int) returns (q: seq<seq<int>>)
    requires Path(p, a, b)
    ensures Path(q, a + [y], b + [y]) && |q| == |p|
  {
    q := seq(|p|, k requires 0 <= k < |p| => p[k] + [y]);
    forall k | 0 <= k < |q| - 1 ensures OneEdit(q[k], q[k + 1]) {
      EditBehind(p[k], p[k + 1], y);
    }
  }

  lemma {:induction false} ShortestPath(a: seq<int>, b: seq<int>) returns (p: seq<seq<int>>)
    ensures Path(p, a, b) && |p| - 1 == Distance(a, b)
    decreases |a| + |b|
  {
    if a == [] && b == [] {
      p := [a];
    } else if b == [] || (a != [] && Distance(a, b) == Distance(Front(a), b) + 1) {
      p := ShortestPath(Front(a), b);
      AppendIsEdit(a);
      PathCons(p, a, Front(a), b);
      p := [a] + p;
    } else if a == [] || Distance(a, b) == Distance(a, Front(b)) + 1 {
      p := ShortestPath(a, Front(b));
      AppendIsEdit(b);
      PathSnoc(p, a, Front(b), b);
      p := p + [b];
    } else {
      p := ShortestPath(Front(a), Front(b));
      p := PathBehind(p, Front(a), Front(b), Last(b));
      assert Front(b) + [Last(b)] == b;
      var middle := Front(a) + [Last(b)];
      if Last(a) == Last(b) {
        assert middle == a;
      } else {
        assert middle == Replaced(a, |a| - 1, Last(b));
        PathCons(p, a, middle, b);
        p := [a] + p;
      }
    }
  }

  /** The distance is the least number of insertions, deletions and replacements that turn `a` into `b`. */
  lemma DistanceIsMinimum(a: seq<int>, b: seq<int>, n: nat)
    ensures n == Distance(a, b) <==>
      (exists p :: Path(p, a, b) && |p| - 1 == n) && (forall p :: Path(p, a, b) ==> |p| - 1 >= n)
  {
    var p := ShortestPath(a, b);
    forall q | Path(q, a, b) ensures |q| - 1 >= Distance(a, b) {
      PathsAreLong(q, a, b);
    }
  }

  lemma {:induction false} Symmetric(a: seq<int>, b: seq<int>)
    ensures Distance(a, b) == Distance(b, a)
    decreases |a| + |b|
  {
    if a != [] && b != [] {
      Symmetric(Front(a), b);
      Symmetric(a, Front(b));
      Symmetric(Front(a), Front(b));
    }
  }

  // ----- The algorithm: two rows of the distance table in a caller's buffer -----

  /** Where row `j` starts; even rows come first in the buffer, odd rows behind them. */
  function RowStart(base: nat, aLen: nat, j: nat): nat {
    if j % 2 == 1 then base + (aLen + 1) else base
  }

  /** The first `n` entries of row `j`, from offset `at`, hold distances between prefixes of `a` and of `b`. */
  ghost predicate Row(mem: seq<int>, at: nat, a: seq<int>, b: seq<int>, j: nat, n: nat)
    requires n <= |a| + 1 && j <= |b| && at + n <= |mem|
  {
    forall q | at <= q < at + n :: mem[q] == Distance(a[..q - at], b[..j])
  }

  lemma {:induction false} DistanceToEmpty(s: seq<int>)
    ensures Distance([], s) == |s| && Distance(s, []) == |s|
  {
  }

  lemma {:induction false} DistanceUnfolds(a: seq<int>, b: seq<int>)
    requires a != [] && b != []
    ensures Distance(a, b)
            == Min3(Distance(Front(a), b) + 1, Distance(a, Front(b)) + 1,
                    Distance(Front(a), Front(b)) + if Last(a) == Last(b) then 0 else 1)
  {
  }

  /** One step of the recursion, on prefixes. */
  lemma {:induction false} DistanceStep(a: seq<int>, b: seq<int>, i: nat, j: nat)
    requires i <= |a| && j <= |b|
    ensures i == 0 ==> Distance(a[..i], b[..j]) == j
    ensures j == 0 ==> Distance(a[..i], b[..j]) == i
    ensures i > 0 && j > 0 ==>
      Distance(a[..i], b[..j])
      == Min3(Distance(a[..i - 1], b[..j]) + 1, Distance(a[..i], b[..j - 1]) + 1,
              Distance(a[..i - 1], b[..j - 1]) + if a[i - 1] != b[j - 1] then 1 else 0)
  {
    hide Distance;
    if i == 0 {
      assert a[..i] == [];
      DistanceToEmpty(b[..j]);
    } else if j == 0 {
      assert b[..j] == [];
      DistanceToEmpty(a[..i]);
    } else {
      assert Front(a[..i]) == a[..i - 1] && Front(b[..j]) == b[..j - 1];
      DistanceUnfolds(a[..i], b[..j]);
    }
  }

  /** The strings `a` and `b` lie in memory in front of the buffer. */
  ghost predicate Inputs(mem: seq<int>, aAt: nat, a: seq<int>, bAt: nat, b: seq<int>, base: nat) {
    && aAt + |a| <= base <= |mem| && mem[aAt..aAt + |a|] == a
    && bAt + |b| <= base && mem[bAt..bAt + |b|] == b
  }

  /** Nothing outside the positions from `lo` to `hi` has changed. */
  ghost predicate SameOutside(was: seq<int>, mem: seq<int>, lo: nat, hi: nat) {
    |mem| == |was| && forall q | 0 <= q < |mem| && !(lo <= q < hi) :: mem[q] == was[q]
  }

  lemma InputsKept(was: seq<int>, mem: seq<int>, aAt: nat, a: seq<int>, bAt: nat, b: seq<int>, base: nat, hi: nat)
    requires Inputs(was, aAt, a, bAt, b, base) && SameOutside(was, mem, base, hi)
    ensures Inputs(mem, aAt, a, bAt, b, base)
  {
    forall k | 0 <= k < |a| ensures mem[aAt..aAt + |a|][k] == a[k] {
      assert was[aAt..aAt + |a|][k] == a[k];
    }
    forall k | 0 <= k < |b| ensures mem[bAt..bAt + |b|][k] == b[k] {
      assert was[bAt..bAt + |b|][k] == b[k];
    }
  }

  /** The first `n` entries of the row at `cur` are computed, and nothing else has changed. */
  ghost predicate Filled(was: seq<int>, mem: seq<int>, cur: nat, a: seq<int>, b: seq<int>, j: nat, n: nat)
    requires n <= |a| + 1 && j <= |b| && cur + n <= |was|
  {
    SameOutside(was, mem, cur, cur + n) && Row(mem, cur, a, b, j, n)
  }

  lemma FilledNext(was: seq<int>, mem: seq<int>, next: seq<int>, cur: nat, a: seq<int>, b: seq<int>, j: nat, n: nat)
    requires n <= |a| && j <= |b| && cur + n < |was| && Filled(was, mem, cur, a, b, j, n)
    requires next == mem[cur + n := Distance(a[..n], b[..j])]
    ensures Filled(was, next, cur, a, b, j, n + 1)
  {
    hide Distance;
    assert a[..(cur + n) - cur] == a[..n];
  }

  /** The next entry of row `j` from its three neighbours. */
  lemma Entry(was: seq<int>, mem: seq<int>, aAt: nat, bAt: nat, base: nat, cur: nat, prev: nat, i: nat, j: nat,
              a: seq<int>, b: seq<int>)
    requires Inputs(was, aAt, a, bAt, b, base) && 0 < i <= |a| && 0 < j <= |b|
    requires base <= cur && cur + |a| + 1 <= |was| && base <= prev && prev + |a| + 1 <= |was|
    requires cur + |a| + 1 <= prev || prev + |a| + 1 <= cur
    requires Row(was, prev, a, b, j - 1, |a| + 1) && Filled(was, mem, cur, a, b, j, i)
    ensures Distance(a[..i], b[..j])
            == Min3(mem[cur + i - 1] + 1, mem[prev + i] + 1,
                    mem[prev + i - 1] + if mem[aAt + (i - 1)] != mem[bAt + (j - 1)] then 1 else 0)
  {
    hide Distance, Min3;
    DistanceStep(a, b, i, j);
    assert mem[aAt + (i - 1)] == was[aAt..aAt + |a|][i - 1];
    assert mem[bAt + (j - 1)] == was[bAt..bAt + |b|][j - 1];
    assert mem[cur + i - 1] == Distance(a[..(cur + i - 1) - cur], b[..j]);
    assert mem[prev + i] == Distance(a[..(prev + i) - prev], b[..j - 1]);
    assert mem[prev + i - 1] == Distance(a[..(prev + i - 1) - prev], b[..j - 1]);
  }

  lemma RowStarts(base: nat, aLen: nat, j: nat)
    requires j > 0
    ensures var cur, prev := RowStart(base, aLen, j), RowStart(base, aLen, j - 1);
      && base <= cur <= base + (aLen + 1) && base <= prev <= base + (aLen + 1)
      && (cur + aLen + 1 <= prev || prev + aLen + 1 <= cur)
  {
  }

  method FillEntry(mem: array<int>, cur: nat, prev: nat, aAt: nat, bAt: nat, i: nat, j: nat)
    requires 0 < i && 0 < j && cur + i < mem.Length && prev + i < mem.Length
    requires aAt + i <= mem.Length && bAt + j <= mem.Length
    modifies mem
    ensures mem[..] == old(mem[..])[cur + i := old(
      Min3(mem[cur + i - 1] + 1, mem[prev + i] + 1,
           mem[prev + i - 1] + if mem[aAt + (i - 1)] != mem[bAt + (j - 1)] then 1 else 0))]
  {
    var subst := if mem[aAt + (i - 1)] != mem[bAt + (j - 1)] then 1 else 0;
    mem[cur + i] := Min3(mem[cur + i - 1] + 1, mem[prev + i] + 1, mem[prev + i - 1] + subst);
  }

  method StartRow(mem: array<int>, cur: nat, j: nat, ghost a: seq<int>, ghost b: seq<int>)
    requires cur < mem.Length && j <= |b|
    modifies mem
    ensures Filled(old(mem[..]), mem[..], cur, a, b, j, 1)
  {
    ghost var was := mem[..];
    DistanceStep(a, b, 0, j);
    NoneFilled(was, cur, a, b, j);
    hide Distance, Filled;
    FilledNext(was, was, was[cur := j], cur, a, b, j, 0);
    mem[cur] := j;
    assert mem[..] == was[cur := j];
  }

  method NextEntry(mem: array<int>, cur: nat, prev: nat, aAt: nat, bAt: nat, base: nat, i: nat, j: nat,
                   ghost was: seq<int>, ghost a: seq<int>, ghost b: seq<int>)
    requires Inputs(was, aAt, a, bAt, b, base) && |was| == mem.Length && 0 < i <= |a| && 0 < j <= |b|
    requires base <= cur && cur + |a| + 1 <= |was| && base <= prev && prev + |a| + 1 <= |was|
    requires cur + |a| + 1 <= prev || prev + |a| + 1 <= cur
    requires Row(was, prev, a, b, j - 1, |a| + 1) && Filled(was, mem[..], cur, a, b, j, i)
    modifies mem
    ensures Filled(was, mem[..], cur, a, b, j, i + 1)
  {
    assert aAt + |a| <= base && bAt + |b| <= base;
    hide Distance, Inputs, Row, SameOutside, Filled, Min3;
    ghost var before := mem[..];
    Entry(was, before, aAt, bAt, base, cur, prev, i, j, a, b);
    FillEntry(mem, cur, prev, aAt, bAt, i, j);
    FilledNext(was, before, mem[..], cur, a, b, j, i);
  }

  /** Fills row `j` from the row before it. */
  method FillRow(mem: array<int>, aAt: nat, aLen: nat, bAt: nat, base: nat, j: nat,
                 ghost a: seq<int>, ghost b: seq<int>)
    requires aLen == |a| && 0 < j <= |b| && base + 2 * (aLen + 1) <= mem.Length
    requires Inputs(mem[..], aAt, a, bAt, b, base)
    requires Row(mem[..], RowStart(base, aLen, j - 1), a, b, j - 1, aLen + 1)
    modifies mem
    ensures Row(mem[..], RowStart(base, aLen, j), a, b, j, aLen + 1)
    ensures SameOutside(old(mem[..]), mem[..], base, base + 2 * (aLen + 1))
  {
    var cur, prev := RowStart(base, aLen, j), RowStart(base, aLen, j - 1);
    RowStarts(base, aLen, j);
    ghost var was := mem[..];
    assert aAt + aLen <= base && bAt + |b| <= base;
    hide Distance, Inputs, Row, SameOutside, Filled, Min3, RowStart;
    StartRow(mem, cur, j, a, b);
    for i := 1 to aLen + 1
      invariant Filled(was, mem[..], cur, a, b, j, i)
    {
      NextEntry(mem, cur, prev, aAt, bAt, base, i, j, was, a, b);
    }
    AllFilled(was, mem[..], cur, a, b, j, base, base + 2 * (aLen + 1));
  }

  lemma NoneFilled(was: seq<int>, cur: nat, a: seq<int>, b: seq<int>, j: nat)
    requires j <= |b| && cur <= |was|
    ensures Filled(was, was, cur, a, b, j, 0)
  {
  }

  lemma AllFilled(was: seq<int>, mem: seq<int>, cur: nat, a: seq<int>, b: seq<int>, j: nat, lo: nat, hi: nat)
    requires j <= |b| && cur + |a| + 1 <= |was| && Filled(was, mem, cur, a, b, j, |a| + 1)
    requires lo <= cur && cur + |a| + 1 <= hi
    ensures |mem| == |was| && Row(mem, cur, a, b, j, |a| + 1) && SameOutside(was, mem, lo, hi)
  {
    hide Distance;
  }

  /** The whole table, for a first string that is not longer than the second. */
  method FillTable(mem: array<int>, aAt: nat, aLen: nat, bAt: nat, bLen: nat, base: nat,
                   ghost a: seq<int>, ghost b: seq<int>)
    returns (d: int)
    requires aLen == |a| <= bLen == |b| && Inputs(mem[..], aAt, a, bAt, b, base)
    requires base + 2 * (aLen + 1) <= mem.Length
    modifies mem
    ensures d == Distance(a, b)
    ensures SameOutside(old(mem[..]), mem[..], base, base + 2 * (aLen + 1))
  {
    hide Distance, Inputs;
    ghost var was, hi := mem[..], base + 2 * (aLen + 1);
    for i := 0 to aLen + 1
      invariant SameOutside(was, mem[..], base, hi)
      invariant Row(mem[..], base, a, b, 0, i)
    {
      DistanceStep(a, b, i, 0);
      mem[base + i] := i;
    }
    for j := 1 to bLen + 1
      invariant SameOutside(was, mem[..], base, hi)
      invariant Row(mem[..], RowStart(base, aLen, j - 1), a, b, j - 1, aLen + 1)
    {
      InputsKept(was, mem[..], aAt, a, bAt, b, base, hi);
      FillRow(mem, aAt, aLen, bAt, base, j, a, b);
    }
    assert a[..aLen] == a && b[..bLen] == b;
    d := mem[RowStart(base, aLen, bLen) + aLen];
    assert d == mem[..][RowStart(base, aLen, bLen) + aLen];
  }

  /** The distance of two strings in memory, in either order, using the buffer behind them and nothing else. */
  method Utf32DistBuffer(mem: array<int>, aAt: nat, aLen: nat, bAt: nat, bLen: nat, base: nat, bufLen: nat,
                         ghost a: seq<int>, ghost b: seq<int>)
    returns (d: int)
    requires aLen == |a| && bLen == |b| && Inputs(mem[..], aAt, a, bAt, b, base)
    requires bufLen >= (aLen + 1) + (bLen + 1) && base + bufLen <= mem.Length
    modifies mem
    ensures d == Distance(a, b)
    ensures SameOutside(old(mem[..]), mem[..], base, base + bufLen)
  {
    hide Distance;
    if aLen > bLen {
      d := FillTable(mem, bAt, bLen, aAt, aLen, base, b, a);
      Symmetric(a, b);
    } else {
      d := FillTable(mem, aAt, aLen, bAt, bLen, base, a, b);
    }
  }

  lemma CodePointsStep(str: CString, pos: nat)
    requires pos <= |str|
    ensures pos == |str| ==> CodePoints(str, pos) == []
    ensures pos < |str| ==> CodePoints(str, pos) == [Decode(str, pos).0] + CodePoints(str, Decode(str, pos).1)
  {
  }

  lemma Shift(done: seq<int>, x: int, rest: seq<int>)
    ensures done + ([x] + rest) == (done + [x]) + rest
    ensures done + [] == done
  {
  }

  /** Decodes `str` into memory from position `at`; the terminator takes one more place. */
  method ToUtf32(str: CString, mem: array<int>, at: nat) returns (end: nat)
    requires at + |str| + 1 <= mem.Length
    modifies mem
    ensures end == at + |CodePoints(str, 0)| && mem[at..end] == CodePoints(str, 0)
    ensures SameOutside(old(mem[..]), mem[..], at, end + 1)
  {
    hide CodePoints;
    end := at;
    var pos := 0;
    ghost var done: seq<int> := [];
    Shift(CodePoints(str, 0), 0, []);
    assert done + CodePoints(str, 0) == CodePoints(str, 0);
    while true
      invariant pos <= |str| && end == at + |done| && |done| <= pos
      invariant mem[at..end] == done && CodePoints(str, 0) == done + CodePoints(str, pos)
      invariant SameOutside(old(mem[..]), mem[..], at, end)
      decreases |str| - pos
    {
      var code, next := DecodeLoop(str, pos);
      CodePointsStep(str, pos);
      Shift(done, code, if code == 0 then [] else CodePoints(str, next));
      mem[end] := code;
      assert mem[at..end] == done;
      if code == 0 {
        break;
      }
      assert mem[at..end + 1] == done + [code];
      done := done + [code];
      end := end + 1;
      pos := next;
    }
  }

  /**
   * The distance of two UTF-8 strings in one buffer: both decoded strings first, the table behind them.
   * The second decoded string starts on the terminator of the first, and the table on that of the second.
   */
  method Utf8DistBuffer(a: CString, b: CString, buf: array<int>, bufLen: nat) returns (d: int)
    requires 2 * (|a| + 1 + |b| + 1) <= bufLen <= buf.Length
    modifies buf
    ensures d == Distance(CodePoints(a, 0), CodePoints(b, 0))
    ensures buf[bufLen..] == old(buf[bufLen..])
  {
    hide Distance, CodePoints, Inputs, SameOutside;
    var first, second := a, b;
    if |a| > |b| {
      first, second := b, a;
    }
    ghost var before := buf[..];
    var aEnd := ToUtf32(first, buf, 0);
    ghost var middle := buf[..];
    TailKept(before, middle, 0, aEnd + 1, bufLen);
    var bEnd := ToUtf32(second, buf, aEnd);
    ghost var decoded := buf[..];
    TailKept(middle, decoded, aEnd, bEnd + 1, bufLen);
    BothDecoded(middle, decoded, aEnd, bEnd, CodePoints(first, 0), CodePoints(second, 0));
    d := Utf32DistBuffer(buf, 0, aEnd, aEnd, bEnd - aEnd, bEnd, bufLen - bEnd,
                         CodePoints(first, 0), CodePoints(second, 0));
    TailKept(decoded, buf[..], bEnd, bufLen, bufLen);
    Symmetric(CodePoints(a, 0), CodePoints(b, 0));
  }

  lemma TailKept(was: seq<int>, mem: seq<int>, lo: nat, hi: nat, n: nat)
    requires SameOutside(was, mem, lo, hi) && hi <= n <= |was|
    ensures |mem| == |was| && mem[n..] == was[n..]
  {
  }

  /** The first decoded string is still there when the second one has been decoded over its terminator. */
  lemma BothDecoded(middle: seq<int>, mem: seq<int>, aEnd: nat, bEnd: nat, a: seq<int>, b: seq<int>)
    requires aEnd <= bEnd <= |mem| && SameOutside(middle, mem, aEnd, bEnd + 1)
    requires |middle| == |mem| && middle[0..aEnd] == a && mem[aEnd..bEnd] == b
    ensures Inputs(mem, 0, a, aEnd, b, bEnd)
  {
    assert mem[0..aEnd] == middle[0..aEnd];
  }
}
