/** Network addresses as text: the IPv6 form of RFC 5952 and the dotted IPv4 form with its parser. */
module NetAddr {
  import opened Bytes
  import opened Numerals

  const NETADDR_MAXSTRSIZE: nat := 1 + (8 * 4 + 7) + 1 + 1 + 5 + 1

  /** The eight 16-bit groups of an IPv6 address. */
  type Groups = g: seq<nat> | |g| == 8 && forall i | 0 <= i < 8 :: g[i] < 0x10000
    witness [0, 0, 0, 0, 0, 0, 0, 0]

  // ----- Which groups are abbreviated -----

  predicate ZeroRun(ip: Groups, start: int, len: int) {
    0 <= start && 0 <= len && start + len <= 8 && forall i | start <= i < start + len :: ip[i] == 0
  }

  /** No run of zero groups that ends before `limit` is longer, and none as long starts earlier. */
  ghost predicate LongestRun(ip: Groups, start: int, len: int, limit: int) {
    forall s, n :: ZeroRun(ip, s, n) && s + n <= limit && n > 0 ==> n < len || (n == len && start <= s)
  }

  /** The choice of section 4.2 of RFC 5952: the first longest run of at least two zero groups, or none. */
  ghost predicate Abbreviates(ip: Groups, start: int, len: int) {
    if len == 0 then start == -1 && forall s, n :: ZeroRun(ip, s, n) ==> n <= 1
    else len >= 2 && ZeroRun(ip, start, len) && LongestRun(ip, start, len, 8)
  }

  lemma AbbreviationIsUnique(ip: Groups, s1: int, n1: int, s2: int, n2: int)
    requires Abbreviates(ip, s1, n1) && Abbreviates(ip, s2, n2)
    ensures s1 == s2 && n1 == n2
  {
  }

  /** The scan: one pass with the current run and the best run so far. */
  method FindAbbreviation(ip: Groups) returns (start: int, len: int)
    ensures Abbreviates(ip, start, len)
  {
    len, start := 0, -1;
    var seqLen, seqStart := 0, -1;
    for i := 0 to 9
      invariant len == 0 ==> start == -1
      invariant len >= 0
      invariant len > 0 ==> ZeroRun(ip, start, len) && start + len <= (if seqStart == -1 then i else seqStart)
      invariant seqStart == -1 ==>
        seqLen == 0 && (0 < i <= 8 ==> ip[i - 1] != 0) && LongestRun(ip, start, len, Min(i, 8))
      invariant seqStart != -1 ==>
        && 0 <= seqStart < i <= 8 && seqLen == i - seqStart && ZeroRun(ip, seqStart, seqLen)
        && (seqStart > 0 ==> ip[seqStart - 1] != 0)
        && LongestRun(ip, start, len, seqStart)
    {
      if seqStart != -1 {
        if i == 8 || ip[i] != 0 {
          RunEnds(ip, start, len, seqStart, seqLen, i);
          if len < seqLen {
            len, start := seqLen, seqStart;
          }
          seqLen, seqStart := 0, -1;
        } else {
          seqLen := seqLen + 1;
        }
      } else {
        if i != 8 && ip[i] == 0 {
          seqStart, seqLen := i, 1;
        }
      }
    }
    if len <= 1 {
      len, start := 0, -1;
    }
  }

  /** A maximal run has ended at `i`: the better of it and the best run before it is the best so far. */
  lemma RunEnds(ip: Groups, start: int, len: int, seqStart: int, seqLen: int, i: int)
    requires 0 <= seqStart && seqLen == i - seqStart > 0 && i <= 8 && ZeroRun(ip, seqStart, seqLen)
    requires seqStart > 0 ==> ip[seqStart - 1] != 0
    requires i < 8 ==> ip[i] != 0
    requires LongestRun(ip, start, len, seqStart)
    requires len > 0 ==> ZeroRun(ip, start, len) && start + len <= seqStart
    requires len == 0 ==> start == -1
    ensures if len < seqLen then LongestRun(ip, seqStart, seqLen, Min(i + 1, 8))
            else LongestRun(ip, start, len, Min(i + 1, 8))
  {
    forall s, n | ZeroRun(ip, s, n) && s + n <= Min(i + 1, 8) && n > 0
      ensures s + n <= seqStart || (seqStart <= s && s + n <= i)
    {
      assert !(s <= seqStart - 1 < s + n);
      assert !(s <= i < s + n);
    }
  }

  // ----- The text -----

  function Hex(n: nat): string {
    Numeral(n, 16)
  }

  /** What is written for group `i` when the `len` groups from `start` are abbreviated. */
  function Piece(ip: Groups, start: int, len: int, i: nat): string
    requires i < 8
  {
    if start <= i < start + len then (if i == start then "::" else "")
    else (if i == 0 || i == start + len then "" else ":") + Hex(ip[i])
  }

  /** The text of groups `i` to 7. */
  function GroupsText(ip: Groups, start: int, len: int, i: nat): string
    requires i <= 8
    decreases 8 - i
  {
    if i == 8 then "" else Piece(ip, start, len, i) + GroupsText(ip, start, len, i + 1)
  }

  function PortText(port: int): string {
    if port >= 0 then ":" + Numeral(port, 10) else ""
  }

  function AddressText(ip: Groups, start: int, len: int): string {
    GroupsText(ip, start, len, 0)
  }

  /** The buffer holds as much of `text` as fits in front of a terminator, up to position `w`. */
  predicate Written(buf: seq<char>, w: nat, text: string) {
    |buf| > 0 && w == Min(|text|, |buf| - 1) && buf[..w] == text[..w]
  }

  /** Writes as much of `text` as fits, and a terminator, at position `w`. */
  method Append(buffer: array<char>, w: nat, text: string, ghost before: string) returns (next: nat)
    requires Written(buffer[..], w, before)
    modifies buffer
    ensures Written(buffer[..], next, before + text) && buffer[next] == '\0'
  {
    var n := Min(|text|, buffer.Length - 1 - w);
    forall k | 0 <= k < n {
      buffer[w + k] := text[k];
    }
    buffer[w + n] := '\0';
    next := w + n;
    if w < |before| {
      assert buffer[..w] == before[..w] == (before + text)[..w];
    } else {
      assert before[..w] == before;
      assert (before + text)[..next] == before + text[..n];
      assert buffer[..next] == before + text[..n];
    }
  }

  lemma {:induction false} GroupsTextLength(ip: Groups, start: int, len: int, i: nat)
    requires i <= 8 && Abbreviates(ip, start, len)
    ensures |GroupsText(ip, start, len, i)| <= 5 * (8 - i) - (if i == 0 then 1 else 0)
    decreases 8 - i
  {
    hide Numeral;
    if i < 8 {
      HexLength(ip[i]);
      GroupsTextLength(ip, start, len, i + 1);
    }
  }

  method WriteGroup(ip: Groups, start: int, len: int, i: nat, buffer: array<char>, w: nat, ghost before: string)
    returns (next: nat)
    requires i < 8 && Written(buffer[..], w, before)
    modifies buffer
    ensures Written(buffer[..], next, before + Piece(ip, start, len, i))
  {
    hide Written;
    next := w;
    if start <= i < start + len {
      if i == start {
        next := Append(buffer, w, "::", before);
      } else {
        assert before + "" == before;
      }
    } else {
      var colon := if i == 0 || i == start + len then "" else ":";
      next := Append(buffer, w, colon + Hex(ip[i]), before);
    }
  }

  /** What is written of an address: in brackets, with the port when it is not negative. */
  function FullText(ip: Groups, start: int, len: int, port: int): string {
    "[" + AddressText(ip, start, len) + "]" + PortText(port)
  }

  /** With any abbreviation and any 16-bit port the text fits the declared maximum. */
  lemma FullTextFits(ip: Groups, start: int, len: int, port: int)
    requires Abbreviates(ip, start, len) && port < 0x10000
    ensures |FullText(ip, start, len, port)| < NETADDR_MAXSTRSIZE == 48
  {
    hide Numeral, Abbreviates, GroupsText;
    GroupsTextLength(ip, start, len, 0);
    if port >= 0 {
      DecimalLength(port);
    }
  }

  /**
   * Writes the text of an address, cut to the buffer.  Nothing is cut when the buffer has the declared size
   * and the port fits into 16 bits.
   */
  method NetAddrStrV6(ip: Groups, port: int, buffer: array<char>) returns (ghost start: int, ghost len: int)
    requires buffer.Length > 0
    modifies buffer
    ensures Abbreviates(ip, start, len)
    ensures var text := FullText(ip, start, len, port); var n := Min(|text|, buffer.Length - 1);
      && buffer[..n] == text[..n] && buffer[n] == '\0'
      && (buffer.Length >= NETADDR_MAXSTRSIZE && port < 0x10000 ==> n == |text| && ReadsBack(buffer[..n], ip, port))
  {
    hide Numeral, Abbreviates, Piece, GroupsText, Written, ReadsBack;
    var s, n := FindAbbreviation(ip);
    start, len := s, n;
    FullTextReadsBack(ip, s, n, port);
    if port < 0x10000 {
      FullTextFits(ip, s, n, port);
    }
    StartWritten(buffer[..]);
    var w := Append(buffer, 0, "[", "");
    ghost var before := "[";
    assert "" + "[" == before;
    StartText(ip, s, n);
    for i := 0 to 8
      invariant Written(buffer[..], w, before)
      invariant before + GroupsText(ip, s, n, i) == "[" + AddressText(ip, s, n)
    {
      GroupsStep(ip, s, n, i, before);
      w := WriteGroup(ip, s, n, i, buffer, w, before);
      before := before + Piece(ip, s, n, i);
    }
    GroupsEnd(ip, s, n, before);
    w := Append(buffer, w, "]", before);
    before := before + "]";
    if port >= 0 {
      w := Append(buffer, w, ":" + Numeral(port, 10), before);
    } else {
      assert before + "" == before;
    }
    WrittenIs(buffer[..], w, FullText(ip, s, n, port));
    assert buffer[..][..w] == buffer[..w];
  }

  lemma StartWritten(buf: seq<char>)
    requires |buf| > 0
    ensures Written(buf, 0, "")
  {
  }

  lemma WrittenIs(buf: seq<char>, w: nat, text: string)
    requires Written(buf, w, text)
    ensures w == Min(|text|, |buf| - 1) && buf[..w] == text[..w] && (w == |text| ==> buf[..w] == text)
  {
  }

  lemma StartText(ip: Groups, start: int, len: int)
    ensures "[" + GroupsText(ip, start, len, 0) == "[" + AddressText(ip, start, len)
  {
  }

  lemma GroupsStep(ip: Groups, start: int, len: int, i: nat, before: string)
    requires i < 8
    ensures before + GroupsText(ip, start, len, i)
            == (before + Piece(ip, start, len, i)) + GroupsText(ip, start, len, i + 1)
  {
    hide Piece;
  }

  lemma GroupsEnd(ip: Groups, start: int, len: int, before: string)
    ensures before + GroupsText(ip, start, len, 8) == before
  {
  }

  // ----- Reading the text back -----

  function IndexOf(s: string, c: char): (k: nat)
    ensures k <= |s| && (k < |s| ==> s[k] == c) && forall j | 0 <= j < k :: s[j] != c
  {
    if s == "" || s[0] == c then 0 else 1 + IndexOf(s[1..], c)
  }

  /** Groups of one to four hexadecimal digits, separated by single colons. */
  function Fields(s: string): Option<seq<nat>>
    decreases |s|
  {
    var k := IndexOf(s, ':');
    var group := s[..k];
    if !(1 <= k <= 4 && AllDigits(group, 16) && Value(group, 16) >= 0) then None
    else if k == |s| then Some([Value(group, 16)])
    else
      match Fields(s[k + 1..])
      case None => None
      case Some(rest) => Some([Value(group, 16)] + rest)
  }

  /** Where the first "::" starts, or the length of the string. */
  function FindDouble(s: string): (p: nat)
    ensures p == |s| || p + 2 <= |s|
  {
    if |s| < 2 then |s|
    else if s[0] == ':' && s[1] == ':' then 0
    else 1 + FindDouble(s[1..])
  }

  function SideFields(s: string): Option<seq<nat>> {
    if s == "" then Some([]) else Fields(s)
  }

  /** Section 2.2 of RFC 4291: eight groups, or fewer with "::" in place of the missing zero groups. */
  function Expand(s: string): Option<seq<nat>> {
    var p := FindDouble(s);
    if p == |s| then
      match Fields(s)
      case Some(g) => if |g| == 8 then Some(g) else None
      case None => None
    else
      match (SideFields(s[..p]), SideFields(s[p + 2..]))
      case (Some(left), Some(right)) =>
        if |left| + |right| < 8 then Some(left + seq(8 - |left| - |right|, _ => 0) + right) else None
      case _ => None
  }

  function Join(g: seq<nat>): string {
    if g == [] then "" else if |g| == 1 then Hex(g[0]) else Hex(g[0]) + ":" + Join(g[1..])
  }

  predicate Sixteen(g: seq<nat>) {
    forall i | 0 <= i < |g| :: g[i] < 0x10000
  }

  lemma HexGroup(n: nat)
    requires n < 0x10000
    ensures var h := Hex(n);
      1 <= |h| <= 4 && AllDigits(h, 16) && Value(h, 16) == n && forall k | 0 <= k < |h| :: h[k] != ':'
  {
    HexLength(n);
    NumeralRoundTrip(n, 16);
  }

  lemma IndexOfSplit(a: string, b: string, c: char)
    requires (forall k | 0 <= k < |a| :: a[k] != c) && (b == "" || b[0] == c)
    ensures IndexOf(a + b, c) == |a|
  {
    var k := IndexOf(a + b, c);
    assert forall j | 0 <= j < |a| :: (a + b)[j] == a[j];
    if b != "" {
      assert (a + b)[|a|] == c;
    }
  }

  /** The first field of a text, and the rest behind its colon. */
  lemma {:induction false} FieldsStep(h: string, tail: string)
    requires 1 <= |h| <= 4 && AllDigits(h, 16) && Value(h, 16) >= 0 && forall k | 0 <= k < |h| :: h[k] != ':'
    requires tail == "" || tail[0] == ':'
    ensures tail == "" ==> Fields(h + tail) == Some([Value(h, 16)])
    ensures tail != "" ==>
      Fields(h + tail) == match Fields(tail[1..]) case None => None case Some(rest) => Some([Value(h, 16)] + rest)
  {
    hide Value, AllDigits;
    IndexOfSplit(h, tail, ':');
    assert (h + tail)[..|h|] == h;
    if tail != "" {
      assert (h + tail)[|h| + 1..] == tail[1..];
    }
  }

  lemma JoinTail(g: seq<nat>)
    requires |g| > 1
    ensures var tail := ":" + Join(g[1..]);
      Join(g) == Hex(g[0]) + tail && tail[0] == ':' && tail[1..] == Join(g[1..])
  {
    hide Hex;
  }

  lemma JoinOne(g: seq<nat>)
    requires |g| == 1
    ensures Join(g) == Hex(g[0]) + "" && g == [g[0]]
  {
    hide Hex;
  }

  lemma FirstAndRest(g: seq<nat>)
    requires g != []
    ensures [g[0]] + g[1..] == g
  {
  }

  lemma {:induction false} FieldsOfJoin(g: seq<nat>)
    requires g != [] && Sixteen(g)
    ensures Fields(Join(g)) == Some(g)
  {
    HexGroup(g[0]);
    hide Hex, Value, AllDigits, Fields, Join;
    if |g| > 1 {
      FieldsOfJoin(g[1..]);
      JoinTail(g);
      FieldsStep(Hex(g[0]), ":" + Join(g[1..]));
      FirstAndRest(g);
    } else {
      JoinOne(g);
      FieldsStep(Hex(g[0]), "");
    }
  }

  /** A joined text is not empty, starts and ends with a digit and has no two colons in a row. */
  lemma {:induction false} JoinShape(g: seq<nat>)
    requires g != [] && Sixteen(g)
    ensures var s := Join(g);
      s != "" && s[0] != ':' && s[|s| - 1] != ':' && forall k | 0 <= k < |s| - 1 :: !(s[k] == ':' && s[k + 1] == ':')
  {
    hide Hex;
    HexGroup(g[0]);
    if |g| > 1 {
      JoinShape(g[1..]);
    }
  }

  lemma {:induction false} FindDoubleAt(a: string, b: string)
    requires a == "" || a[|a| - 1] != ':'
    requires forall k | 0 <= k < |a| - 1 :: !(a[k] == ':' && a[k + 1] == ':')
    ensures FindDouble(a + ("::" + b)) == |a|
  {
    if a == "" {
      assert a + ("::" + b) == "::" + b;
    } else {
      assert (a + ("::" + b))[1..] == a[1..] + ("::" + b);
      FindDoubleAt(a[1..], b);
    }
  }

  lemma {:induction false} NoDouble(s: string)
    requires forall k | 0 <= k < |s| - 1 :: !(s[k] == ':' && s[k + 1] == ':')
    ensures FindDouble(s) == |s|
  {
    if |s| >= 2 {
      NoDouble(s[1..]);
    }
  }

  predicate Placed(start: int, len: int) {
    (len == 0 && start == -1) || (len >= 2 && 0 <= start && start + len <= 8)
  }

  /** The text behind the abbreviation, or of an address without one. */
  lemma {:induction false} TextAfter(ip: Groups, start: int, len: int, i: nat)
    requires Placed(start, len) && start + len <= i <= 8
    ensures GroupsText(ip, start, len, i)
            == if i == 8 then "" else (if i == 0 || i == start + len then "" else ":") + Join(ip[i..])
    decreases 8 - i
  {
    hide Hex, Join;
    if i < 8 {
      TextAfter(ip, start, len, i + 1);
      JoinStep(ip[i..]);
      assert ip[i..][1..] == ip[i + 1..];
      var sep := if i == 0 || i == start + len then "" else ":";
      Regroup(sep, Hex(ip[i]), if i == 7 then "" else ":", if i == 7 then "" else Join(ip[i + 1..]));
    }
  }

  lemma JoinStep(g: seq<nat>)
    requires g != []
    ensures |g| == 1 ==> Join(g) == Hex(g[0])
    ensures |g| > 1 ==> Join(g) == Hex(g[0]) + ":" + Join(g[1..])
  {
  }

  lemma Regroup(a: string, b: string, c: string, d: string)
    ensures a + b + (c + d) == a + (b + c + d)
    ensures a + b + "" == a + b && "" + c == c
  {
  }

  lemma {:induction false} TextInside(ip: Groups, start: int, len: int, i: nat)
    requires Placed(start, len) && len > 0 && start < i <= start + len
    ensures GroupsText(ip, start, len, i) == GroupsText(ip, start, len, start + len)
    decreases 8 - i
  {
    hide Hex;
    if i < start + len {
      TextInside(ip, start, len, i + 1);
    }
  }

  lemma {:induction false} TextBefore(ip: Groups, start: int, len: int, i: nat)
    requires Placed(start, len) && len > 0 && i <= start
    ensures GroupsText(ip, start, len, i)
            == (if i == start || i == 0 then "" else ":") + Join(ip[i..start]) + GroupsText(ip, start, len, start)
    decreases 8 - i
  {
    hide Hex, Join;
    if i < start {
      TextBefore(ip, start, len, i + 1);
      JoinStep(ip[i..start]);
      assert ip[i..start][1..] == ip[i + 1..start];
      var sep := if i == 0 then "" else ":";
      var last := i + 1 == start;
      var rest := Join(ip[i + 1..start]);
      if last {
        JoinNothing();
        assert ip[i + 1..start] == [];
      }
      Regroup5(sep, Hex(ip[i]), if last then "" else ":", rest, GroupsText(ip, start, len, start));
    } else {
      assert ip[i..start] == [];
      JoinNothing();
    }
  }

  lemma Regroup5(a: string, b: string, c: string, d: string, e: string)
    ensures a + b + (c + d + e) == a + (b + c + d) + e
    ensures b + "" + "" == b
  {
  }

  lemma JoinNothing()
    ensures Join([]) == ""
  {
  }

  /** The text is the groups before and behind the abbreviation, joined, around "::". */
  lemma TextIsJoined(ip: Groups, start: int, len: int)
    requires Placed(start, len)
    ensures len == 0 ==> AddressText(ip, start, len) == Join(ip)
    ensures len > 0 ==> AddressText(ip, start, len) == Join(ip[..start]) + ("::" + Join(ip[start + len..]))
  {
    hide Hex, Join, GroupsText;
    if len == 0 {
      TextAfter(ip, start, len, 0);
      assert ip[0..] == ip;
    } else {
      AbbreviatedText(ip, start, len);
    }
  }

  lemma AbbreviatedText(ip: Groups, start: int, len: int)
    requires Placed(start, len) && len > 0
    ensures AddressText(ip, start, len) == Join(ip[..start]) + ("::" + Join(ip[start + len..]))
  {
    hide Hex, Join, GroupsText;
    TextBefore(ip, start, len, 0);
    TextAt(ip, start, len);
    TextAfter(ip, start, len, start + len);
    if start + len == 8 {
      JoinNothing();
      assert ip[start + len..] == [];
    }
    assert ip[0..start] == ip[..start];
    EmptyFront(Join(ip[..start]), GroupsText(ip, start, len, start));
  }

  lemma EmptyFront(a: string, b: string)
    ensures "" + a + b == a + b
  {
  }

  lemma TextAt(ip: Groups, start: int, len: int)
    requires Placed(start, len) && len > 0
    ensures GroupsText(ip, start, len, start) == "::" + GroupsText(ip, start, len, start + len)
  {
    hide Hex;
    TextInside(ip, start, len, start + 1);
  }

  /** Expanding the text of an address gives back its eight groups. */
  lemma ExpandInvertsText(ip: Groups, start: int, len: int)
    requires Abbreviates(ip, start, len)
    ensures var groups: seq<nat> := ip; Expand(AddressText(ip, start, len)) == Some(groups)
  {
    hide AddressText, SideFields, Fields, Join, LongestRun;
    TextIsJoined(ip, start, len);
    if len == 0 {
      FieldsOfJoin(ip);
      JoinShape(ip);
      NoDouble(Join(ip));
    } else {
      var left, right := ip[..start], ip[start + len..];
      var s := Join(left) + ("::" + Join(right));
      SideOfJoin(left);
      SideOfJoin(right);
      FindDoubleAt(Join(left), Join(right));
      assert s[..|Join(left)|] == Join(left) && s[|Join(left)| + 2..] == Join(right);
      assert left + seq(len, _ => 0) + right == ip;
    }
  }

  lemma SideOfJoin(g: seq<nat>)
    requires Sixteen(g)
    ensures SideFields(Join(g)) == Some(g)
    ensures var s := Join(g);
      (s == "" || s[|s| - 1] != ':') && forall k | 0 <= k < |s| - 1 :: !(s[k] == ':' && s[k + 1] == ':')
  {
    hide Fields, Hex;
    if g != [] {
      JoinShape(g);
      FieldsOfJoin(g);
    }
  }

  // ----- Reading the whole text back -----

  /**
   * The text reads back as the address and the port: an opening bracket, the address up to the first closing one,
   * and then nothing for a negative port, or a colon and the decimal numeral of the port without leading zeros.
   */
  predicate ReadsBack(text: string, groups: seq<nat>, port: int) {
    var k := IndexOf(text, ']');
    && 1 <= k < |text| && text[0] == '[' && Expand(text[1..k]) == Some(groups)
    && if port < 0 then text[k + 1..] == ""
       else
         && k + 2 < |text| && text[k + 1] == ':'
         && var digits := text[k + 2..];
         AllDigits(digits, 10) && Value(digits, 10) == port && (|digits| > 1 ==> digits[0] != '0')
  }

  lemma {:induction false} NumeralWithoutBracket(n: nat, base: nat)
    requires base == 10 || base == 16
    ensures forall k | 0 <= k < |Numeral(n, base)| :: Numeral(n, base)[k] != ']'
    decreases n
  {
    DivMod(n, base);
    if n >= base {
      NumeralWithoutBracket(n / base, base);
    }
  }

  lemma {:induction false} TextWithoutBracket(ip: Groups, start: int, len: int, i: nat)
    requires i <= 8
    ensures forall k | 0 <= k < |GroupsText(ip, start, len, i)| :: GroupsText(ip, start, len, i)[k] != ']'
    decreases 8 - i
  {
    hide Numeral;
    if i < 8 {
      NumeralWithoutBracket(ip[i], 16);
      TextWithoutBracket(ip, start, len, i + 1);
    }
  }

  /** What is written of any address, with any port or none, reads back as both. */
  lemma FullTextReadsBack(ip: Groups, start: int, len: int, port: int)
    requires Abbreviates(ip, start, len)
    ensures ReadsBack(FullText(ip, start, len, port), ip, port)
  {
    hide Numeral, Value, AllDigits, Expand, GroupsText, Abbreviates;
    var inner, tail := AddressText(ip, start, len), PortText(port);
    ExpandInvertsText(ip, start, len);
    TextWithoutBracket(ip, start, len, 0);
    var text := FullText(ip, start, len, port);
    assert text == ("[" + inner) + ("]" + tail);
    IndexOfSplit("[" + inner, "]" + tail, ']');
    BracketedParts(inner, tail, text);
    if port >= 0 {
      NumeralRoundTrip(port, 10);
      assert tail[1..] == Numeral(port, 10);
    }
  }

  lemma BracketedParts(inner: string, tail: string, text: string)
    requires text == ("[" + inner) + ("]" + tail)
    ensures var k := 1 + |inner|; text[0] == '[' && text[1..k] == inner && text[k + 1..] == tail
    ensures var k := 1 + |inner|; tail != "" ==> text[k + 1] == tail[0] && text[k + 2..] == tail[1..]
  {
  }

  // ----- IPv4 -----

  /** A string without the terminator. */
  type Text = s: string | forall i | 0 <= i < |s| :: s[i] != '\0'

  function CharAt(s: Text, i: nat): char
    requires i <= |s|
  {
    if i < |s| then s[i] else '\0'
  }

  predicate IsNum(c: char) {
    '0' <= c <= '9'
  }

  /** How many digits `s` starts with. */
  function Digits(s: string): (n: nat)
    ensures n <= |s| && (forall k | 0 <= k < n :: IsNum(s[k])) && (n < |s| ==> !IsNum(s[n]))
  {
    if s == "" || !IsNum(s[0]) then 0 else 1 + Digits(s[1..])
  }

  // What a 32-bit accumulator makes of a digit run

  const INT_LIMIT: int := 0x8000_0000

  /** A 32-bit signed number, wrapped around. */
  function Wrap32(x: int): (w: int)
    ensures -INT_LIMIT <= w < INT_LIMIT && (w == x <==> -INT_LIMIT <= x < INT_LIMIT)
  {
    (x + INT_LIMIT) % U32 - INT_LIMIT
  }

  function Accumulated(run: string): int {
    if run == "" then 0
    else Wrap32(Wrap32(Accumulated(run[..|run| - 1]) * 10) + DigitValue(run[|run| - 1]))
  }

  /** No product and no sum on the way leaves the range of a 32-bit number. */
  predicate NoOverflow(run: string) {
    run == "" || (NoOverflow(run[..|run| - 1])
                  && Value(run[..|run| - 1], 10) * 10 < INT_LIMIT && Value(run, 10) < INT_LIMIT)
  }

  lemma WrapStep(x: int, d: int)
    ensures Wrap32(Wrap32(Wrap32(x) * 10) + d) == Wrap32(x * 10 + d)
  {
    var q := (x + INT_LIMIT) / U32;
    assert Wrap32(x) == x - U32 * q;
    var r := (Wrap32(x) * 10 + INT_LIMIT) / U32;
    assert Wrap32(Wrap32(x) * 10) == Wrap32(x) * 10 - U32 * r;
    var y := x * 10 + d + INT_LIMIT;
    assert Wrap32(Wrap32(x) * 10) + d + INT_LIMIT == y - U32 * (10 * q + r);
    SameResidue(y, 10 * q + r);
  }

  lemma SameResidue(y: int, k: int)
    ensures (y - U32 * k) % U32 == y % U32
  {
    var q, r := y / U32, y % U32;
    assert y - U32 * k == U32 * (q - k) + r;
  }

  /** The accumulator holds the value of a digit run, without any overflow on the way, exactly below 2^31. */
  lemma {:induction false} AccumulatorExactly(run: string)
    requires AllDigits(run, 10)
    ensures Value(run, 10) >= 0 && Accumulated(run) == Wrap32(Value(run, 10))
    ensures Accumulated(run) == Value(run, 10) <==> Value(run, 10) < 0x8000_0000
    ensures NoOverflow(run) <==> Value(run, 10) < 0x8000_0000
  {
    hide Wrap32;
    if run != "" {
      var front, d := run[..|run| - 1], DigitValue(run[|run| - 1]);
      AccumulatorExactly(front);
      WrapStep(Value(front, 10), d);
      assert Value(run, 10) == Value(front, 10) * 10 + d;
    } else {
      assert Wrap32(0) == 0;
    }
  }

  // The parser

  /** Unbounded arithmetic, as a reader of the text does it, or that of the parser. */
  datatype Arithmetic = Exact | Wrapping

  function RunNumber(run: string, how: Arithmetic): int {
    if how.Exact? then Value(run, 10) else Accumulated(run)
  }

  datatype Parsed = Fail | Got(value: int, rest: string)

  /** A decimal number of at most `max`, leading zeros allowed. */
  function Number(s: string, max: int, how: Arithmetic): Parsed {
    var n := Digits(s);
    if n == 0 then Fail
    else
      var v := RunNumber(s[..n], how);
      if v < 0 || v > max then Fail else Got(v, s[n..])
  }

  datatype Quad = NoQuad | Quad(bytes: seq<int>, rest: string)

  /** `k` numbers below 256 with dots between them. */
  function Dotted(s: string, k: nat, how: Arithmetic): Quad
    requires k > 0
    decreases k
  {
    match Number(s, 0xff, how)
    case Fail => NoQuad
    case Got(v, rest) =>
      if k == 1 then Quad([v], rest)
      else if rest == "" || rest[0] != '.' then NoQuad
      else
        match Dotted(rest[1..], k - 1, how)
        case NoQuad => NoQuad
        case Quad(bytes, tail) => Quad([v] + bytes, tail)
  }

  datatype Address = Invalid | Address(ip: seq<int>, port: int)

  function Ending(ip: seq<int>, rest: string, how: Arithmetic): Address {
    if rest == "" then Address(ip, 0)
    else if rest[0] != ':' then Invalid
    else
      match Number(rest[1..], 0xffff, how)
      case Fail => Invalid
      case Got(port, tail) => if tail == "" then Address(ip, port) else Invalid
  }

  function AddressFromText(s: string, how: Arithmetic): Address {
    match Dotted(s, 4, how)
    case NoQuad => Invalid
    case Quad(ip, rest) => Ending(ip, rest, how)
  }

  // ----- Which texts are addresses -----

  /** A nonempty digit string with value `v`, at most `max`. */
  predicate IsRun(d: string, v: int, max: int, how: Arithmetic) {
    d != "" && AllDigits(d, 10) && RunNumber(d, how) == v && 0 <= v <= max
  }

  predicate Runs(ds: seq<string>, ip: seq<int>, how: Arithmetic) {
    |ds| == |ip| && forall i | 0 <= i < |ds| :: IsRun(ds[i], ip[i], 0xff, how)
  }

  /** The strings with dots between them. */
  function Dots(ds: seq<string>): string
    requires ds != []
  {
    if |ds| == 1 then ds[0] else ds[0] + "." + Dots(ds[1..])
  }

  /** Nothing, for port zero, or a colon and the digits of the port. */
  predicate PortSyntax(tail: string, port: int, how: Arithmetic) {
    if tail == "" then port == 0 else tail[0] == ':' && IsRun(tail[1..], port, 0xffff, how)
  }

  predicate Parts(s: string, ip: seq<int>, port: int, how: Arithmetic, ds: seq<string>, tail: string) {
    && |ds| == 4 && Runs(ds, ip, how) && PortSyntax(tail, port, how)
    && s == ds[0] + "." + ds[1] + "." + ds[2] + "." + ds[3] + tail
  }

  lemma PartsText(ds: seq<string>, tail: string)
    requires |ds| == 4
    ensures Dots(ds) + tail == ds[0] + "." + ds[1] + "." + ds[2] + "." + ds[3] + tail
  {
    assert ds[1..][1..] == ds[2..] && ds[2..][1..] == ds[3..];
    hide Dots;
    DotsStep(ds, tail);
    DotsStep(ds[1..], tail);
    DotsStep(ds[2..], tail);
    DotsStep(ds[3..], tail);
    FourParts(ds[0], ds[1], ds[2], ds[3], tail);
  }

  lemma FourParts(a: string, b: string, c: string, d: string, tail: string)
    ensures a + ("." + (b + ("." + (c + ("." + (d + tail)))))) == a + "." + b + "." + c + "." + d + tail
  {
  }

  /** Four digit strings of value at most 255 with dots between them, and optionally a colon and a port. */
  ghost predicate IsAddress(s: string, ip: seq<int>, port: int, how: Arithmetic) {
    exists ds: seq<string>, tail: string :: Parts(s, ip, port, how, ds, tail)
  }

  predicate NoDigit(rest: string) {
    rest == "" || !IsNum(rest[0])
  }

  lemma DigitsOfRun(d: string, rest: string)
    requires AllDigits(d, 10) && NoDigit(rest)
    ensures Digits(d + rest) == |d| && (d + rest)[..|d|] == d && (d + rest)[|d|..] == rest
  {
    assert forall k | 0 <= k < |d| :: (d + rest)[k] == d[k] && 0 <= DigitValue(d[k]) < 10;
    if rest != "" {
      assert (d + rest)[|d|] == rest[0];
    }
  }

  lemma NumberOfRun(d: string, rest: string, v: int, max: int, how: Arithmetic)
    requires IsRun(d, v, max, how) && NoDigit(rest)
    ensures Number(d + rest, max, how) == Got(v, rest)
  {
    hide RunNumber, AllDigits;
    DigitsOfRun(d, rest);
  }

  lemma RunOfNumber(s: string, max: int, how: Arithmetic)
    ensures var n := Digits(s); match Number(s, max, how)
      case Fail => true
      case Got(v, rest) => IsRun(s[..n], v, max, how) && rest == s[n..] && s == s[..n] + rest && NoDigit(rest)
  {
    hide RunNumber;
  }

  /** One number of a dotted sequence. */
  lemma {:induction false} DottedStep(s: string, k: nat, how: Arithmetic)
    requires k > 0
    ensures var first := Number(s, 0xff, how);
      && (first.Fail? ==> Dotted(s, k, how).NoQuad?)
      && (first.Got? && k == 1 ==> Dotted(s, k, how) == Quad([first.value], first.rest))
      && (first.Got? && k > 1 && (first.rest == "" || first.rest[0] != '.') ==> Dotted(s, k, how).NoQuad?)
      && (first.Got? && k > 1 && first.rest != "" && first.rest[0] == '.' ==>
            var more := Dotted(first.rest[1..], k - 1, how);
            Dotted(s, k, how) == if more.NoQuad? then NoQuad else Quad([first.value] + more.bytes, more.rest))
  {
  }

  lemma DotsStep(ds: seq<string>, rest: string)
    requires ds != []
    ensures |ds| == 1 ==> Dots(ds) == ds[0] && ds == [ds[0]]
    ensures |ds| > 1 ==>
      var tail := "." + (Dots(ds[1..]) + rest);
      Dots(ds) + rest == ds[0] + tail && tail[1..] == Dots(ds[1..]) + rest && ds == [ds[0]] + ds[1..]
  {
    if |ds| > 1 {
      DotBetween(ds[0], Dots(ds[1..]), rest);
    }
  }

  lemma DotBetween(a: string, b: string, rest: string)
    ensures a + "." + b + rest == a + ("." + (b + rest)) && ("." + (b + rest))[1..] == b + rest
  {
  }

  lemma {:induction false} DottedOfRuns(ds: seq<string>, ip: seq<int>, rest: string, how: Arithmetic)
    requires ds != [] && Runs(ds, ip, how) && NoDigit(rest)
    ensures Dotted(Dots(ds) + rest, |ds|, how) == Quad(ip, rest)
    decreases |ds|
  {
    hide Number, Dotted, Dots, IsRun;
    DotsStep(ds, rest);
    DottedStep(Dots(ds) + rest, |ds|, how);
    if |ds| == 1 {
      NumberOfRun(ds[0], rest, ip[0], 0xff, how);
      assert ip == [ip[0]];
    } else {
      NumberOfRun(ds[0], "." + (Dots(ds[1..]) + rest), ip[0], 0xff, how);
      DottedOfRuns(ds[1..], ip[1..], rest, how);
      assert ip == [ip[0]] + ip[1..];
    }
  }

  lemma {:induction false} RunsOfDotted(s: string, k: nat, how: Arithmetic) returns (ds: seq<string>)
    requires k > 0
    ensures match Dotted(s, k, how)
      case NoQuad => true
      case Quad(ip, rest) => |ds| == k && Runs(ds, ip, how) && s == Dots(ds) + rest && NoDigit(rest)
    decreases k
  {
    hide Number, Dotted, Dots, IsRun;
    DottedStep(s, k, how);
    RunOfNumber(s, 0xff, how);
    var first, d := Number(s, 0xff, how), s[..Digits(s)];
    ds := [d];
    if first.Got? && k == 1 {
      DotsStep(ds, first.rest);
    } else if first.Got? && first.rest != "" && first.rest[0] == '.' {
      var more := RunsOfDotted(first.rest[1..], k - 1, how);
      ds := [d] + more;
      var quad := Dotted(first.rest[1..], k - 1, how);
      if quad.Quad? {
        assert ds[1..] == more;
        DotsStep(ds, quad.rest);
        assert first.rest == "." + first.rest[1..];
      }
    }
  }

  lemma EndingExactly(ip: seq<int>, rest: string, port: int, how: Arithmetic)
    ensures Ending(ip, rest, how) == Address(ip, port) <==> PortSyntax(rest, port, how)
    ensures Ending(ip, rest, how).Address? ==> Ending(ip, rest, how).ip == ip
  {
    hide Number, IsRun;
    if rest != "" && rest[0] == ':' {
      var digits := rest[1..];
      RunOfNumber(digits, 0xffff, how);
      if Number(digits, 0xffff, how) == Got(port, "") {
        assert digits[..Digits(digits)] + "" == digits[..Digits(digits)];
      }
      if IsRun(digits, port, 0xffff, how) {
        NumberOfRun(digits, "", port, 0xffff, how);
        assert digits + "" == digits;
      }
    }
  }

  /** The parser accepts a text as an address and a port if and only if the text consists of their parts. */
  lemma AcceptsExactly(s: string, ip: seq<int>, port: int, how: Arithmetic)
    ensures AddressFromText(s, how) == Address(ip, port) <==> IsAddress(s, ip, port, how)
  {
    hide Dotted, Ending, Runs, Dots;
    if ds: seq<string>, tail: string :| Parts(s, ip, port, how, ds, tail) {
      PartsText(ds, tail);
      DottedOfRuns(ds, ip, tail, how);
      EndingExactly(ip, tail, port, how);
    }
    if AddressFromText(s, how) == Address(ip, port) {
      var ds := RunsOfDotted(s, 4, how);
      var quad := Dotted(s, 4, how);
      EndingExactly(quad.bytes, quad.rest, port, how);
      PartsText(ds, quad.rest);
      assert Parts(s, ip, port, how, ds, quad.rest);
    }
  }

  // ----- Where the parser is right -----

  /** Every longest digit run of the text has a value below 2^31. */
  predicate RunsFit(s: string)
    decreases |s|
  {
    if s == "" then true
    else if !IsNum(s[0]) then RunsFit(s[1..])
    else Value(s[..Digits(s)], 10) < INT_LIMIT && RunsFit(s[Digits(s)..])
  }

  lemma RunsFitFirst(d: string, rest: string)
    requires d != "" && AllDigits(d, 10) && NoDigit(rest)
    ensures RunsFit(d + rest) <==> Value(d, 10) < INT_LIMIT && RunsFit(rest)
  {
    hide Value;
    DigitsOfRun(d, rest);
    assert 0 <= DigitValue(d[0]) < 10 && (d + rest)[0] == d[0];
  }

  predicate SmallRun(d: string) {
    d != "" && AllDigits(d, 10) && Value(d, 10) < INT_LIMIT
  }

  lemma {:induction false} RunsFitDots(ds: seq<string>, rest: string)
    requires ds != [] && (forall i | 0 <= i < |ds| :: ds[i] != "" && AllDigits(ds[i], 10)) && NoDigit(rest)
    ensures RunsFit(Dots(ds) + rest) <==> (forall i | 0 <= i < |ds| :: SmallRun(ds[i])) && RunsFit(rest)
    decreases |ds|
  {
    hide Value, Dots, AllDigits;
    DotsStep(ds, rest);
    if |ds| == 1 {
      RunsFitFirst(ds[0], rest);
    } else {
      var tail := "." + (Dots(ds[1..]) + rest);
      RunsFitFirst(ds[0], tail);
      assert RunsFit(tail) <==> RunsFit(tail[1..]);
      RunsFitDots(ds[1..], rest);
      assert forall i | 1 <= i < |ds| :: ds[i] == ds[1..][i - 1];
    }
  }

  /** A digit run below 2^31 is the same number for both; one that is in bounds exactly is below 2^31. */
  lemma RunAgrees(d: string, v: int, max: int)
    requires max < INT_LIMIT
    ensures SmallRun(d) ==> (IsRun(d, v, max, Exact) <==> IsRun(d, v, max, Wrapping))
    ensures IsRun(d, v, max, Exact) ==> SmallRun(d)
  {
    if AllDigits(d, 10) {
      AccumulatorExactly(d);
    }
    hide AllDigits, Value, Accumulated;
  }

  /** The text of the parts has only small digit runs if and only if its parts are small. */
  lemma PartsFit(s: string, ip: seq<int>, port: int, how: Arithmetic, ds: seq<string>, tail: string)
    requires Parts(s, ip, port, how, ds, tail)
    ensures RunsFit(s) <==> (forall i | 0 <= i < 4 :: SmallRun(ds[i])) && (tail != "" ==> SmallRun(tail[1..]))
  {
    hide RunNumber, Dots, AllDigits, Value;
    assert forall i | 0 <= i < |ds| :: IsRun(ds[i], ip[i], 0xff, how);
    PartsText(ds, tail);
    RunsFitDots(ds, tail);
    if tail != "" {
      assert RunsFit(tail) <==> RunsFit(tail[1..]);
      RunsFitFirst(tail[1..], "");
      assert tail[1..] + "" == tail[1..];
    }
  }

  lemma PartsAgree(s: string, ip: seq<int>, port: int, ds: seq<string>, tail: string)
    ensures Parts(s, ip, port, Exact, ds, tail) ==> Parts(s, ip, port, Wrapping, ds, tail) && RunsFit(s)
    ensures Parts(s, ip, port, Wrapping, ds, tail) && RunsFit(s) ==> Parts(s, ip, port, Exact, ds, tail)
  {
    hide IsRun, SmallRun, Dots, RunsFit;
    if |ds| == |ip| == 4 {
      forall i | 0 <= i < 4
        ensures SmallRun(ds[i]) ==> (IsRun(ds[i], ip[i], 0xff, Exact) <==> IsRun(ds[i], ip[i], 0xff, Wrapping))
        ensures IsRun(ds[i], ip[i], 0xff, Exact) ==> SmallRun(ds[i])
      {
        RunAgrees(ds[i], ip[i], 0xff);
      }
      if tail != "" {
        RunAgrees(tail[1..], port, 0xffff);
      }
      if Parts(s, ip, port, Exact, ds, tail) {
        PartsFit(s, ip, port, Exact, ds, tail);
      }
      if Parts(s, ip, port, Wrapping, ds, tail) {
        PartsFit(s, ip, port, Wrapping, ds, tail);
      }
    }
  }

  /**
   * The exact extent of the parser's arithmetic.  Every address text is accepted as what it says.  A text that
   * is accepted is what it says if and only if each of its digit runs is below 2^31; without longer runs the
   * parser is right on every text.
   */
  lemma ParserIsRightExactly(s: string)
    ensures var exact, wrapping := AddressFromText(s, Exact), AddressFromText(s, Wrapping);
      && (exact.Address? ==> wrapping == exact)
      && (wrapping.Address? ==> (wrapping == exact <==> RunsFit(s)))
      && (RunsFit(s) ==> wrapping == exact)
  {
    hide AddressFromText, RunsFit, Parts;
    var exact, wrapping := AddressFromText(s, Exact), AddressFromText(s, Wrapping);
    if exact.Address? {
      AcceptsExactly(s, exact.ip, exact.port, Exact);
      var ds: seq<string>, tail: string :| Parts(s, exact.ip, exact.port, Exact, ds, tail);
      PartsAgree(s, exact.ip, exact.port, ds, tail);
      AcceptsExactly(s, exact.ip, exact.port, Wrapping);
    }
    if wrapping.Address? {
      AcceptsExactly(s, wrapping.ip, wrapping.port, Wrapping);
      var ds: seq<string>, tail: string :| Parts(s, wrapping.ip, wrapping.port, Wrapping, ds, tail);
      PartsAgree(s, wrapping.ip, wrapping.port, ds, tail);
      AcceptsExactly(s, wrapping.ip, wrapping.port, Exact);
    }
  }

  lemma ValuePrefix(s: string, k: nat)
    requires k < |s|
    ensures Value(s[..k + 1], 10) == Value(s[..k], 10) * 10 + DigitValue(s[k])
  {
    assert s[..k + 1][..k] == s[..k];
  }

  lemma ValueEmpty()
    ensures Value("", 10) == 0
  {
  }

  lemma LongRunValue(d: string)
    requires d == "4294967297"
    ensures Value(d, 10) == 4294967297
  {
    hide Value;
    ValueEmpty();
    ValuePrefix(d, 0);
    ValuePrefix(d, 1);
    ValuePrefix(d, 2);
    ValuePrefix(d, 3);
    ValuePrefix(d, 4);
    assert d[..0] == "" && Value(d[..5], 10) == 42949;
    ValuePrefix(d, 5);
    ValuePrefix(d, 6);
    ValuePrefix(d, 7);
    ValuePrefix(d, 8);
    ValuePrefix(d, 9);
    assert d[..10] == d;
  }

  lemma LongRun(d: string)
    requires d == "4294967297"
    ensures AllDigits(d, 10) && Value(d, 10) == 4294967297 && Accumulated(d) == 1
  {
    assert AllDigits(d, 10);
    hide Value, Accumulated, AllDigits;
    LongRunValue(d);
    AccumulatorExactly(d);
  }

  lemma ZeroIsSmall()
    ensures IsRun("0", 0, 0xff, Wrapping) && SmallRun("0")
  {
    assert "0"[..0] == "";
    assert Value("0", 10) == 0;
    AccumulatorExactly("0");
  }

  /** A text that is no address is accepted as 1.0.0.0 when the accumulator wraps around. */
  lemma LongRunIsAccepted(s: string)
    requires s == "4294967297.0.0.0"
    ensures AddressFromText(s, Wrapping) == Address([1, 0, 0, 0], 0)
    ensures AddressFromText(s, Exact) == Invalid && !RunsFit(s)
  {
    var d, ip := "4294967297", [1, 0, 0, 0];
    var ds := [d, "0", "0", "0"];
    LongRun(d);
    ZeroIsSmall();
    assert IsRun(d, 1, 0xff, Wrapping) && !SmallRun(d);
    hide IsRun, SmallRun, RunsFit, Dots, AddressFromText;
    assert Runs(ds, ip, Wrapping);
    assert Parts(s, ip, 0, Wrapping, ds, "");
    AcceptsExactly(s, ip, 0, Wrapping);
    PartsFit(s, ip, 0, Wrapping, ds, "");
    assert !SmallRun(ds[0]);
    ParserIsRightExactly(s);
    NotExact(s);
  }

  /** A text with a long digit run is no address. */
  lemma NotExact(s: string)
    requires !RunsFit(s)
    ensures AddressFromText(s, Exact).Invalid?
  {
    hide AddressFromText, RunsFit;
    ParserIsRightExactly(s);
  }

  // ----- Round trip -----

  function DecimalNumerals(ip: seq<nat>): seq<string> {
    seq(|ip|, i requires 0 <= i < |ip| => Numeral(ip[i], 10))
  }

  /** The text of an IPv4 address, with the port when it is not negative. */
  function DottedText(ip: seq<nat>): string
    requires ip != []
  {
    Dots(DecimalNumerals(ip))
  }

  lemma NumeralIsRun(n: nat, max: int, how: Arithmetic)
    requires n <= max < INT_LIMIT
    ensures IsRun(Numeral(n, 10), n, max, how)
  {
    NumeralRoundTrip(n, 10);
    AccumulatorExactly(Numeral(n, 10));
  }

  /** Reading the text of an IPv4 address gives the address back, with the port that was written, if any. */
  lemma AddressRoundTrip(ip: seq<nat>, port: int, how: Arithmetic)
    requires |ip| == 4 && (forall i | 0 <= i < |ip| :: ip[i] <= 0xff) && port <= 0xffff
    ensures AddressFromText(DottedText(ip) + PortText(port), how) == Address(ip, if port >= 0 then port else 0)
  {
    hide Numeral, Dots, IsRun, AddressFromText;
    var ds, tail := DecimalNumerals(ip), PortText(port);
    forall i | 0 <= i < 4 ensures IsRun(ds[i], ip[i], 0xff, how) {
      NumeralIsRun(ip[i], 0xff, how);
    }
    if port >= 0 {
      NumeralIsRun(port, 0xffff, how);
      assert tail[1..] == Numeral(port, 10);
    }
    var read := if port >= 0 then port else 0;
    PartsText(ds, tail);
    assert Parts(Dots(ds) + tail, ip, read, how, ds, tail);
    AcceptsExactly(Dots(ds) + tail, ip, read, how);
  }

  // The parsers with their cursor

  method ParseInt(str: Text, pos: nat) returns (ok: bool, value: int, next: nat)
    requires pos <= |str|
    ensures ok <==> Digits(str[pos..]) > 0
    ensures ok ==> next == pos + Digits(str[pos..]) && value == Accumulated(str[pos..next])
    ensures ok ==> (value == Value(str[pos..next], 10) <==> Value(str[pos..next], 10) < INT_LIMIT)
  {
    hide Wrap32, Accumulated, Value;
    value, next := 0, pos;
    if !IsNum(CharAt(str, next)) {
      return false, value, next;
    }
    AccumulatedSnoc("", str[next]);
    assert "" + [str[next]] == str[pos..next + 1];
    value := str[next] as int - 48;
    next := next + 1;
    while true
      invariant pos < next <= |str| && (forall k | pos <= k < next :: IsNum(str[k]))
      invariant value == Accumulated(str[pos..next])
      decreases |str| - next
    {
      if !IsNum(CharAt(str, next)) {
        DigitsEnd(str, pos, next);
        AccumulatorExactly(str[pos..next]);
        return true, value, next;
      }
      AccumulatedSnoc(str[pos..next], str[next]);
      assert str[pos..next + 1] == str[pos..next] + [str[next]];
      value := Wrap32(Wrap32(value * 10) + (str[next] as int - 48));
      next := next + 1;
    }
  }

  lemma AccumulatedSnoc(run: string, c: char)
    ensures Accumulated(run + [c]) == Wrap32(Wrap32(Accumulated(run) * 10) + DigitValue(c))
    ensures run == "" && IsNum(c) ==> Accumulated(run + [c]) == DigitValue(c)
  {
    assert (run + [c])[..|run|] == run;
  }

  lemma DigitsEnd(str: Text, pos: nat, next: nat)
    requires pos <= next <= |str| && (forall k | pos <= k < next :: IsNum(str[k])) && !IsNum(CharAt(str, next))
    ensures Digits(str[pos..]) == next - pos
  {
    var s, n := str[pos..], Digits(str[pos..]);
    assert forall k | 0 <= k < next - pos :: s[k] == str[pos + k];
    if next < |str| {
      assert s[next - pos] == str[next];
    }
  }

  /** A number with an upper bound, as `parse_uint8` and `parse_uint16` read it. */
  method ParseBounded(str: Text, pos: nat, max: int) returns (ok: bool, value: int, next: nat)
    requires pos <= |str|
    ensures ok ==> pos <= next <= |str|
    ensures ok ==> IsRun(str[pos..next], value, max, Wrapping) && NoDigit(str[next..])
    ensures Number(str[pos..], max, Wrapping) == if ok then Got(value, str[next..]) else Fail
  {
    ok, value, next := ParseInt(str, pos);
    RunOfNumber(str[pos..], max, Wrapping);
    if ok {
      assert str[pos..][..next - pos] == str[pos..next] && str[pos..][next - pos..] == str[next..];
      if value < 0 || value > max {
        ok := false;
      }
    }
  }

  method ParseChar(c: char, str: Text, pos: nat) returns (ok: bool, next: nat)
    requires pos <= |str| && c != '\0'
    ensures ok <==> pos < |str| && str[pos] == c
    ensures next == if ok then pos + 1 else pos
  {
    ok := CharAt(str, pos) == c;
    next := if ok then pos + 1 else pos;
  }

  /**
   * The IPv4 branch of the address parser.  On a text without a digit run of 2^31 or more it accepts exactly
   * the texts of addresses, as what they say.
   */
  method NetAddrFromStr(str: Text) returns (addr: Address)
    ensures addr == AddressFromText(str, Wrapping)
    ensures forall ip, port :: addr == Address(ip, port) <==> IsAddress(str, ip, port, Wrapping)
    ensures RunsFit(str) ==> forall ip, port :: addr == Address(ip, port) <==> IsAddress(str, ip, port, Exact)
  {
    addr := ParseAddress(str);
    hide AddressFromText, RunsFit, IsAddress;
    ParserIsRightExactly(str);
    forall ip, port
      ensures addr == Address(ip, port) <==> IsAddress(str, ip, port, Wrapping)
      ensures RunsFit(str) ==> (addr == Address(ip, port) <==> IsAddress(str, ip, port, Exact))
    {
      AcceptsExactly(str, ip, port, Wrapping);
      AcceptsExactly(str, ip, port, Exact);
    }
  }

  method ParseAddress(str: Text) returns (addr: Address)
    ensures addr == AddressFromText(str, Wrapping)
  {
    hide Number, Dotted, IsRun;
    assert str[0..] == str;
    var ok0, b0, p0 := ParsePart(str, 0, 4);
    if !ok0 { return Invalid; }
    var ok1, b1, p1 := ParsePart(str, p0, 3);
    if !ok1 { return Invalid; }
    var ok2, b2, p2 := ParsePart(str, p1, 2);
    if !ok2 { return Invalid; }
    DottedStep(str[p2..], 1, Wrapping);
    var ok3, b3, p3 := ParseBounded(str, p2, 0xff);
    if !ok3 { return Invalid; }
    assert [b0] + ([b1] + ([b2] + [b3])) == [b0, b1, b2, b3];
    var port, okEnd := ParseEnd(str, p3, [b0, b1, b2, b3]);
    addr := if okEnd then Address([b0, b1, b2, b3], port) else Invalid;
  }

  /** One of the first three numbers, with the dot behind it. */
  method ParsePart(str: Text, pos: nat, k: nat) returns (ok: bool, value: int, next: nat)
    requires pos <= |str| && k > 1
    ensures ok ==> next <= |str|
    ensures !ok ==> Dotted(str[pos..], k, Wrapping).NoQuad?
    ensures ok ==> var more := Dotted(str[next..], k - 1, Wrapping);
      Dotted(str[pos..], k, Wrapping) == if more.NoQuad? then NoQuad else Quad([value] + more.bytes, more.rest)
  {
    hide Number, Dotted, IsRun;
    DottedStep(str[pos..], k, Wrapping);
    ok, value, next := ParseBounded(str, pos, 0xff);
    if ok {
      var end := next;
      ok, next := ParseChar('.', str, end);
      if ok {
        assert str[end..][1..] == str[next..];
      }
    }
  }

  /** The optional port and the end of the string. */
  method ParseEnd(str: Text, start: nat, ghost ip: seq<int>) returns (port: int, ok: bool)
    requires start <= |str|
    ensures Ending(ip, str[start..], Wrapping) == if ok then Address(ip, port) else Invalid
  {
    hide Number;
    var pos := start;
    port := 0;
    if CharAt(str, pos) == ':' {
      assert str[pos..][1..] == str[pos + 1..];
      var okPort, value, next := ParseBounded(str, pos + 1, 0xffff);
      if !okPort { return port, false; }
      port, pos := value, next;
    }
    ok := CharAt(str, pos) == '\0';
  }
}
