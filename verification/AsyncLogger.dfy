/** The file logger: every message is one lock section of the asynchronous writer. */
module AsyncLogger {
  import opened Bytes
  import opened AioRing
  import Numerals
  import P = AioProtocol

  datatype Message = Message(line: seq<Byte>, haveColor: bool, r: Byte, g: Byte, b: Byte)

  function ToBytes(s: string): seq<Byte> {
    seq(|s|, i requires 0 <= i < |s| => if s[i] as int < 256 then s[i] as int else 63)
  }

  /** The 24-bit color escape sequence of a message. */
  function ColorEscape(m: Message): seq<Byte> {
    [27] + ToBytes("[38;2;" + Numerals.Numeral(m.r, 10) + ";" + Numerals.Numeral(m.g, 10) + ";"
                   + Numerals.Numeral(m.b, 10) + "m")
  }

  const RESET: seq<Byte> := [27] + ToBytes("[0m")

  /** What one Log call queues, piece by piece. */
  function Pieces(m: Message, trueColor: bool, newline: seq<Byte>): seq<seq<Byte>> {
    if trueColor && m.haveColor then [ColorEscape(m), m.line, RESET, newline] else [m.line, newline]
  }

  /** The bytes of a message in the log file. */
  function LineOf(m: Message, trueColor: bool, newline: seq<Byte>): seq<Byte> {
    Flatten(Pieces(m, trueColor, newline))
  }

  // ----- What a line looks like -----

  /** The bytes are the characters of `s`. */
  predicate Spells(bytes: seq<Byte>, s: string) {
    |bytes| == |s| && forall i | 0 <= i < |s| :: bytes[i] == s[i] as int
  }

  predicate Decimal(s: string, n: nat) {
    s != "" && Numerals.AllDigits(s, 10) && Numerals.Value(s, 10) == n
  }

  /** The escape character, and a color in the form `[38;2;r;g;bm` with the numbers in decimal. */
  ghost predicate SetsColor(bytes: seq<Byte>, r: Byte, g: Byte, b: Byte) {
    && bytes != [] && bytes[0] == 27
    && exists red: string, green: string, blue: string ::
         && Decimal(red, r) && Decimal(green, g) && Decimal(blue, b)
         && Spells(bytes[1..], "[38;2;" + red + ";" + green + ";" + blue + "m")
  }

  /**
   * The bytes are the line of a message: the text and the line break, and for a message with a color the sequence
   * that sets it in front and the one that resets it, `[0m` behind the escape character, before the line break.
   */
  ghost predicate IsLine(bytes: seq<Byte>, m: Message, trueColor: bool, newline: seq<Byte>) {
    if trueColor && m.haveColor then
      exists escape: seq<Byte> ::
        SetsColor(escape, m.r, m.g, m.b) && bytes == escape + m.line + [27, 91, 48, 109] + newline
    else bytes == m.line + newline
  }

  lemma NumeralIsDecimal(n: Byte)
    ensures Decimal(Numerals.Numeral(n, 10), n)
    ensures forall k | 0 <= k < |Numerals.Numeral(n, 10)| :: Numerals.Numeral(n, 10)[k] as int < 128
  {
    hide Numerals.Value, Numerals.Numeral;
    Numerals.NumeralRoundTrip(n, 10);
  }

  lemma SpelledBytes(s: string)
    requires forall k | 0 <= k < |s| :: s[k] as int < 128
    ensures Spells(ToBytes(s), s)
  {
  }

  lemma EscapeSetsColor(m: Message)
    ensures SetsColor(ColorEscape(m), m.r, m.g, m.b)
  {
    hide Decimal, Spells, ToBytes, Numerals.Numeral;
    NumeralIsDecimal(m.r);
    NumeralIsDecimal(m.g);
    NumeralIsDecimal(m.b);
    var red, green, blue := Numerals.Numeral(m.r, 10), Numerals.Numeral(m.g, 10), Numerals.Numeral(m.b, 10);
    var text := "[38;2;" + red + ";" + green + ";" + blue + "m";
    SpelledBytes(text);
    assert ColorEscape(m)[1..] == ToBytes(text);
  }

  /** The rendering of a message is its line. */
  lemma LineReadsBack(m: Message, trueColor: bool, newline: seq<Byte>)
    ensures IsLine(LineOf(m, trueColor, newline), m, trueColor, newline)
  {
    hide ColorEscape, SetsColor, Flatten;
    if trueColor && m.haveColor {
      EscapeSetsColor(m);
      FlattenFour(ColorEscape(m), m.line, RESET, newline);
      assert RESET == [27, 91, 48, 109];
    } else {
      FlattenTwo(m.line, newline);
    }
  }

  /** One Log call: the pieces are queued one after the other while the lock is held. */
  method Log(aio: AsyncIo, m: Message, trueColor: bool, newline: seq<Byte>, filtered: bool)
    requires aio.Valid()
    requires aio.BufferLen() + |LineOf(m, trueColor, newline)| + 1 <= 0x8000_0000
    modifies aio, aio.buffer
    ensures aio.Valid()
    ensures aio.Contents() == old(aio.Contents()) + if filtered then [] else LineOf(m, trueColor, newline)
    ensures !filtered ==> IsLine(LineOf(m, trueColor, newline), m, trueColor, newline)
  {
    hide View, BufferSize, ColorEscape, Numerals.Numeral, ToBytes, Flatten, IsLine;
    LineReadsBack(m, trueColor, newline);
    if filtered {
      assert aio.Contents() + [] == aio.Contents();
      return;
    }
    ghost var before := aio.Contents();
    if trueColor && m.haveColor {
      var escape, reset := ColorEscape(m), RESET;
      FlattenFour(escape, m.line, reset, newline);
      aio.WriteUnlocked(escape);
      aio.WriteUnlocked(m.line);
      aio.WriteUnlocked(reset);
      aio.WriteUnlocked(newline);
      Regroup(before, escape, m.line, reset, newline);
    } else {
      FlattenTwo(m.line, newline);
      aio.WriteUnlocked(m.line);
      aio.WriteUnlocked(newline);
      Regroup(before, m.line, newline, [], []);
    }
  }

  lemma Regroup(x: seq<Byte>, a: seq<Byte>, b: seq<Byte>, c: seq<Byte>, d: seq<Byte>)
    ensures x + a + b + c + d == x + (a + b + c + d)
    ensures x + a + b == x + (a + b)
  {
  }

  lemma FlattenTwo(a: seq<Byte>, b: seq<Byte>)
    ensures Flatten([a, b]) == a + b
  {
    FlattenSnoc([], a);
    FlattenSnoc([a], b);
    assert [] + [a] == [a] && [a] + [b] == [a, b];
  }

  lemma FlattenFour(a: seq<Byte>, b: seq<Byte>, c: seq<Byte>, d: seq<Byte>)
    ensures Flatten([a, b, c, d]) == a + b + c + d
  {
    FlattenTwo(a, b);
    FlattenSnoc([a, b], c);
    FlattenSnoc([a, b, c], d);
    assert [a, b] + [c] == [a, b, c] && [a, b, c] + [d] == [a, b, c, d];
  }

  // ----- Any number of clients that log -----

  /** What a logging client is writing: its message and how many pieces are queued. */
  datatype Writer = Writer(message: Message, written: nat)

  /** The format of the log, the state of the writer and, for each client, its current Log call. */
  datatype LogState = LogState(s: P.State, writers: seq<Writer>, logged: seq<Message>)

  /** A step of the asynchronous writer; for the start of a lock section, with the message to be logged. */
  datatype LogStep = LogStep(step: P.Step, message: Message)

  datatype Format = Format(trueColor: bool, newline: seq<Byte>)

  function PiecesOf(f: Format, m: Message): seq<seq<Byte>> {
    Pieces(m, f.trueColor, f.newline)
  }

  /** Every client writes by Log calls only: in a lock section, one after the other, the pieces of one message. */
  predicate LogEnabled(f: Format, ls: LogState, l: LogStep) {
    && P.Enabled(ls.s, l.step)
    && match l.step
       case Client(i, Append(data)) =>
         i < |ls.writers| && var w := ls.writers[i];
         w.written < |PiecesOf(f, w.message)| && data == PiecesOf(f, w.message)[w.written]
       case Client(i, EndSection) =>
         i < |ls.writers| && ls.writers[i].written == |PiecesOf(f, ls.writers[i].message)|
       case _ => true
  }

  function LogApply(f: Format, ls: LogState, l: LogStep): LogState
    requires LogEnabled(f, ls, l)
  {
    var t := ls.(s := P.Apply(ls.s, l.step));
    match l.step
    case Client(i, BeginSection) =>
      if i < |ls.writers| then t.(writers := ls.writers[i := Writer(l.message, 0)]) else t
    case Client(i, Append(_)) => t.(writers := ls.writers[i := ls.writers[i].(written := ls.writers[i].written + 1)])
    case Client(i, EndSection) => t.(logged := ls.logged + [ls.writers[i].message])
    case _ => t
  }

  predicate LogLegal(f: Format, ls: LogState, run: seq<LogStep>)
    decreases |run|
  {
    run == [] || (LogEnabled(f, ls, run[0]) && LogLegal(f, LogApply(f, ls, run[0]), run[1..]))
  }

  function LogExec(f: Format, ls: LogState, run: seq<LogStep>): LogState
    requires LogLegal(f, ls, run)
    decreases |run|
  {
    if run == [] then ls else LogExec(f, LogApply(f, ls, run[0]), run[1..])
  }

  function LogInit(n: nat, idle: Message): LogState {
    LogState(P.Init(n), seq(n, _ => Writer(idle, 0)), [])
  }

  function Rendered(f: Format, ms: seq<Message>): seq<seq<Byte>> {
    seq(|ms|, i requires 0 <= i < |ms| => LineOf(ms[i], f.trueColor, f.newline))
  }

  /** What client `i` has queued in its open section. */
  predicate SectionOk(f: Format, ls: LogState, i: nat)
    requires i < |ls.s.clients| == |ls.writers|
  {
    var w, pc := ls.writers[i], ls.s.clients[i];
    pc.InSection? ==>
      w.written <= |PiecesOf(f, w.message)| && pc.section == Flatten(PiecesOf(f, w.message)[..w.written])
  }

  /** The completed sections are the lines logged so far, and each open section is the front of a line. */
  ghost predicate LogOk(f: Format, ls: LogState) {
    && |ls.s.clients| == |ls.writers|
    && ls.s.sections == Rendered(f, ls.logged)
    && forall i | 0 <= i < |ls.writers| :: SectionOk(f, ls, i)
  }

  lemma ClientSections(s: P.State, i: nat, c: P.ClientStep)
    requires P.ClientEnabled(s, i, c)
    ensures var t := P.ClientApply(s, i, c);
      && t.clients == s.clients[i := P.NextPc(s, i, c)]
      && t.sections == if c.EndSection? then s.sections + [s.clients[i].section] else s.sections
  {
    hide P.NextPc, P.NextLock, P.Request, P.ClientEnabled;
  }

  lemma DrainSections(s: P.State, d: P.DrainStep)
    requires P.DrainEnabled(s, d)
    ensures P.DrainApply(s, d).clients == s.clients && P.DrainApply(s, d).sections == s.sections
  {
  }

  lemma LogStepOk(f: Format, ls: LogState, l: LogStep)
    requires LogOk(f, ls) && LogEnabled(f, ls, l)
    ensures LogOk(f, LogApply(f, ls, l))
  {
    hide Pieces, Flatten, P.ClientApply, P.DrainApply, P.DrainEnabled;
    var t := LogApply(f, ls, l);
    match l.step
    case Drain(d) =>
      DrainSections(ls.s, d);
      forall j | 0 <= j < |t.writers| ensures SectionOk(f, t, j) {
        assert SectionOk(f, ls, j);
      }
    case Client(i, c) =>
      ClientSections(ls.s, i, c);
      assert SectionOk(f, ls, i);
      forall j | 0 <= j < |t.writers| ensures SectionOk(f, t, j) {
        assert SectionOk(f, ls, j);
        if j == i {
          PieceWritten(f, ls, l, i, c);
        }
      }
      if c.EndSection? {
        var pieces := PiecesOf(f, ls.writers[i].message);
        assert pieces[..|pieces|] == pieces;
      }
  }

  lemma PieceWritten(f: Format, ls: LogState, l: LogStep, i: nat, c: P.ClientStep)
    requires |ls.s.clients| == |ls.writers| && LogEnabled(f, ls, l) && l.step == P.Client(i, c) && SectionOk(f, ls, i)
    ensures var t := LogApply(f, ls, l); i < |t.s.clients| == |t.writers| && SectionOk(f, t, i)
  {
    hide Pieces, P.ClientApply;
    ClientSections(ls.s, i, c);
    var w := ls.writers[i];
    var pieces := PiecesOf(f, w.message);
    if c.Append? {
      assert pieces[..w.written + 1] == pieces[..w.written] + [pieces[w.written]];
      FlattenSnoc(pieces[..w.written], pieces[w.written]);
    }
  }

  /** Every run of logging clients is a run of the asynchronous writer, and keeps the sections whole. */
  lemma {:induction false} LogRunOk(f: Format, ls: LogState, run: seq<LogStep>)
    requires LogOk(f, ls) && P.Reachable(ls.s) && LogLegal(f, ls, run)
    ensures LogOk(f, LogExec(f, ls, run)) && P.Reachable(LogExec(f, ls, run).s)
    decreases |run|
  {
    hide LogOk, P.Apply, P.Enabled, P.Reachable;
    if run != [] {
      LogStepOk(f, ls, run[0]);
      P.StepReachable(ls.s, run[0].step);
      LogRunOk(f, LogApply(f, ls, run[0]), run[1..]);
    }
  }

  ghost predicate AreLines(lines: seq<seq<Byte>>, ms: seq<Message>, f: Format) {
    |lines| == |ms| && forall i | 0 <= i < |lines| :: IsLine(lines[i], ms[i], f.trueColor, f.newline)
  }

  /**
   * Whole lines.  For any number of clients that log, and every interleaving: the file is at every moment a
   * prefix of the lines of the messages logged, in lock order, and of what the current holder has written so far;
   * once the drain thread has left it consists of the whole lines of the first messages, none of them torn.
   */
  lemma LogFileHoldsWholeLines(f: Format, n: nat, idle: Message, run: seq<LogStep>)
    requires LogLegal(f, LogInit(n, idle), run)
    ensures var ls := LogExec(f, LogInit(n, idle), run); var s := ls.s;
      exists lines: seq<seq<Byte>> ::
        && AreLines(lines, ls.logged, f)
        && s.file <= Flatten(lines) + P.OpenSection(s)
        && (P.DrainGone(s) ==> exists k :: 0 <= k <= |lines| && s.file == Flatten(lines[..k]))
  {
    var init := LogInit(n, idle);
    assert P.Reachable(init.s) by {
      assert P.Legal(P.Init(n), []) && P.Exec(P.Init(n), []) == P.Init(n);
    }
    LogRunOk(f, init, run);
    var ls := LogExec(f, init, run);
    P.FileIsInLockOrder(ls.s);
    var lines := Rendered(f, ls.logged);
    forall i | 0 <= i < |lines| ensures IsLine(lines[i], ls.logged[i], f.trueColor, f.newline) {
      LineReadsBack(ls.logged[i], f.trueColor, f.newline);
    }
    assert AreLines(lines, ls.logged, f);
  }
}
