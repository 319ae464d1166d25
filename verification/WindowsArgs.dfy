/** Quoting an argument list for Windows, against the documented rules of `CommandLineToArgvW`. */
module WindowsArgs {

  function Slashes(n: nat): (r: string)
    ensures |r| == n
  {
    seq(n, _ => '\\')
  }

  // ----- Quoting -----

  /** What is written for the rest of an argument when `n` backslashes have just been written. */
  function Body(arg: string, n: nat): string {
    if arg == [] then Slashes(n)
    else if arg[0] == '\\' then "\\" + Body(arg[1..], n + 1)
    else if arg[0] == '"' then Slashes(n + 1) + "\"" + Body(arg[1..], 0)
    else [arg[0]] + Body(arg[1..], 0)
  }

  function Quoted(arg: string): string {
    "\"" + Body(arg, 0) + "\""
  }

  function Line(args: seq<string>): string {
    if args == [] then ""
    else if |args| == 1 then Quoted(args[0])
    else Line(args[..|args| - 1]) + " " + Quoted(args[|args| - 1])
  }

  /** Appends `n` backslashes one by one. */
  method AppendSlashes(out: string, n: nat) returns (r: string)
    ensures r == out + Slashes(n)
  {
    r := out;
    for j := 0 to n
      invariant r == out + Slashes(j)
    {
      r := r + "\\";
      assert Slashes(j + 1) == Slashes(j) + "\\";
    }
  }

  /** The loop over one argument with its running count of backslashes. */
  method AppendQuoted(out: string, arg: string) returns (r: string)
    ensures r == out + Quoted(arg)
  {
    r := out + "\"";
    var backslashes := 0;
    for i := 0 to |arg|
      invariant r + Body(arg[i..], backslashes) == out + "\"" + Body(arg, 0)
    {
      ghost var before := r;
      var c := arg[i];
      assert arg[i..][0] == c && arg[i..][1..] == arg[i + 1..];
      if c == '\\' {
        backslashes := backslashes + 1;
        assert before + ("\\" + Body(arg[i + 1..], backslashes)) == before + [c] + Body(arg[i + 1..], backslashes);
      } else {
        if c == '"' {
          r := AppendSlashes(r, backslashes + 1);
          assert before + (Slashes(backslashes + 1) + "\"" + Body(arg[i + 1..], 0)) == r + [c] + Body(arg[i + 1..], 0);
        } else {
          assert before + ([c] + Body(arg[i + 1..], 0)) == before + [c] + Body(arg[i + 1..], 0);
        }
        backslashes := 0;
      }
      r := r + [c];
    }
    r := AppendSlashes(r, backslashes);
    assert r == out + "\"" + Body(arg, 0);
    r := r + "\"";
  }

  method ArgsToWide(args: seq<string>) returns (line: string)
    ensures line == Line(args)
  {
    line := "";
    for i := 0 to |args|
      invariant line == Line(args[..i])
    {
      assert args[..i + 1][..i] == args[..i];
      if i > 0 {
        line := line + " ";
      }
      line := AppendQuoted(line, args[i]);
    }
    assert args[..|args|] == args;
  }

  // ----- The documented parser -----

  predicate Blank(c: char) {
    c == ' ' || c == '\t'
  }

  /**
   * The rest of an argument and the rest of the line.  `n` backslashes have been read and not yet
   * interpreted: before a quotation mark, 2n of them are n backslashes and the mark switches quoting, 2n+1
   * are n backslashes and the mark is literal; elsewhere they are literal.
   */
  function ParseArg(s: string, quoted: bool, n: nat, arg: string): (r: (string, string))
    ensures |r.1| <= |s|
    decreases |s|
  {
    if s == [] then (arg + Slashes(n), [])
    else if s[0] == '\\' then ParseArg(s[1..], quoted, n + 1, arg)
    else if s[0] == '"' then
      if n % 2 == 0 then ParseArg(s[1..], !quoted, 0, arg + Slashes(n / 2))
      else ParseArg(s[1..], quoted, 0, arg + Slashes(n / 2) + "\"")
    else if Blank(s[0]) && !quoted then (arg + Slashes(n), s[1..])
    else ParseArg(s[1..], quoted, 0, arg + Slashes(n) + [s[0]])
  }

  /** All arguments of a line: blanks between arguments are skipped. */
  function ParseLine(s: string): seq<string>
    decreases |s|
  {
    if s == [] then []
    else if Blank(s[0]) then ParseLine(s[1..])
    else
      var (arg, rest) := ParseArg(s[1..], s[0] == '"', if s[0] == '\\' then 1 else 0,
                                  if s[0] == '"' || s[0] == '\\' then "" else [s[0]]);
      [arg] + ParseLine(rest)
  }

  // ----- The round trip -----

  /** A run of backslashes is only counted. */
  lemma {:induction false} ParseSlashes(m: nat, s: string, quoted: bool, n: nat, arg: string)
    ensures ParseArg(Slashes(m) + s, quoted, n, arg) == ParseArg(s, quoted, n + m, arg)
  {
    if m == 0 {
      assert Slashes(0) + s == s;
    } else {
      assert (Slashes(m) + s)[1..] == Slashes(m - 1) + s;
      ParseSlashes(m - 1, s, quoted, n + 1, arg);
    }
  }

  lemma ParseOne(s: string, quoted: bool, n: nat, arg: string, c: char)
    ensures ParseArg([c] + s, quoted, n, arg)
            == if c == '\\' then ParseArg(s, quoted, n + 1, arg)
               else if c == '"' then
                 if n % 2 == 0 then ParseArg(s, !quoted, 0, arg + Slashes(n / 2))
                 else ParseArg(s, quoted, 0, arg + Slashes(n / 2) + "\"")
               else if Blank(c) && !quoted then (arg + Slashes(n), s)
               else ParseArg(s, quoted, 0, arg + Slashes(n) + [c])
  {
    assert ([c] + s)[1..] == s;
  }

  /** Reading the written form of an argument inside quotes, up to its closing mark, yields the argument. */
  lemma {:induction false} ParseBody(arg: string, k: nat, rest: string, acc: string)
    ensures ParseArg(Body(arg, k) + "\"" + rest, true, k, acc) == ParseArg(rest, false, 0, acc + Slashes(k) + arg)
    decreases |arg|
  {
    hide ParseArg, Slashes;
    var s := Body(arg, k) + "\"" + rest;
    if arg == [] {
      assert s == Slashes(k) + (['"'] + rest);
      ParseSlashes(k, ['"'] + rest, true, k, acc);
      ParseOne(rest, true, k + k, acc, '"');
      assert acc + Slashes(k) + arg == acc + Slashes(k);
    } else {
      var c, tail := arg[0], arg[1..];
      assert arg == [c] + tail;
      if c == '\\' {
        assert s == [c] + (Body(tail, k + 1) + "\"" + rest);
        ParseOne(Body(tail, k + 1) + "\"" + rest, true, k, acc, c);
        ParseBody(tail, k + 1, rest, acc);
        OneMoreSlash(acc, k, tail);
      } else {
        var more := Body(tail, 0) + "\"" + rest;
        if c == '"' {
          assert s == Slashes(k + 1) + ([c] + more);
          ParseSlashes(k + 1, [c] + more, true, k, acc);
          ParseOne(more, true, k + (k + 1), acc, c);
          assert (2 * k + 1) / 2 == k && (2 * k + 1) % 2 == 1;
        } else {
          assert s == [c] + more;
          ParseOne(more, true, k, acc, c);
        }
        ParseBody(tail, 0, rest, acc + Slashes(k) + [c]);
        NoMoreSlash(acc + Slashes(k), c, tail);
      }
    }
  }

  lemma OneMoreSlash(acc: string, k: nat, tail: string)
    ensures acc + Slashes(k + 1) + tail == acc + Slashes(k) + (['\\'] + tail)
  {
  }

  lemma NoMoreSlash(acc: string, c: char, tail: string)
    ensures acc + [c] + Slashes(0) + tail == acc + ([c] + tail)
  {
  }

  lemma ParseQuoted(arg: string, rest: string)
    requires rest == [] || rest[0] == ' '
    ensures ParseLine(Quoted(arg) + rest) == [arg] + ParseLine(rest)
  {
    var s := Quoted(arg) + rest;
    assert s[1..] == Body(arg, 0) + "\"" + rest;
    ParseBody(arg, 0, rest, "");
    assert "" + Slashes(0) + arg == arg;
    assert arg + Slashes(0) == arg;
  }

  lemma SkipBlank(s: string)
    requires s != [] && s[0] == ' '
    ensures ParseLine(s) == ParseLine(s[1..])
  {
  }

  /** The line of all but the last argument, then the last one. */
  lemma {:induction false} LineSnoc(args: seq<string>, rest: string)
    requires |args| > 1
    ensures var last := |args| - 1;
      && Line(args) + rest == Line(args[..last]) + ([' '] + (Quoted(args[last]) + rest))
      && ([' '] + (Quoted(args[last]) + rest))[1..] == Quoted(args[last]) + rest
  {
    hide Quoted;
    var last := |args| - 1;
    var front, back := Line(args[..last]), Quoted(args[last]);
    assert Line(args) == front + " " + back;
    Spaced(front, back, rest);
  }

  lemma Spaced(front: string, back: string, rest: string)
    ensures front + " " + back + rest == front + ([' '] + (back + rest))
    ensures ([' '] + (back + rest))[1..] == back + rest
  {
  }

  /** A line with one more argument parses as one more argument. */
  lemma {:induction false} ParseLineOf(args: seq<string>, rest: string)
    requires rest == [] || rest[0] == ' '
    ensures ParseLine(Line(args) + rest) == args + ParseLine(rest)
    decreases |args|
  {
    hide Quoted, ParseLine;
    if args == [] {
      assert Line(args) + rest == rest;
    } else if |args| == 1 {
      ParseQuoted(args[0], rest);
      assert args == [args[0]];
    } else {
      hide Line;
      var last := |args| - 1;
      var more := [' '] + (Quoted(args[last]) + rest);
      LineSnoc(args, rest);
      ParseLineOf(args[..last], more);
      SkipBlank(more);
      ParseQuoted(args[last], rest);
      assert args == args[..last] + [args[last]];
    }
  }

  /** Parsing the quoted line returns exactly the argument list. */
  lemma ParseInvertsQuoting(args: seq<string>)
    ensures ParseLine(Line(args)) == args
  {
    ParseLineOf(args, []);
    assert Line(args) + [] == Line(args);
  }
}
