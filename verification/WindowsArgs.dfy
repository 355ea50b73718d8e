/**
 * Quoting of Windows command lines, against the parser that takes them apart again: the rules of
 * "Parsing C command-line arguments" in the Microsoft C runtime documentation.
 */
module WindowsArgs {

  // ---------- the documented parser ----------

  predicate IsBlank(c: char) {
    c == ' ' || c == '\t'
  }

  function Slashes(n: nat): string {
    seq(n, _ => '\\')
  }

  datatype Parsed = Parsed(arg: string, rest: string)

  /**
   * Reads one argument: `run` backslashes are pending, `quoted` tells whether a quoted part is open.
   * Backslashes count only before a quote: a pair stands for one, an odd one escapes the quote. Two
   * quotes inside a quoted part stand for one.
   */
  function ParseArg(s: string, run: nat, quoted: bool, arg: string): (p: Parsed)
    ensures |p.rest| <= |s|
    ensures s != "" && (quoted || !IsBlank(s[0])) ==> |p.rest| < |s|
    ensures p.rest != "" ==> IsBlank(p.rest[0])
    decreases |s|
  {
    if s == "" then Parsed(arg + Slashes(run), "")
    else if s[0] == '\\' then ParseArg(s[1..], run + 1, quoted, arg)
    else if s[0] == '"' then
      if run % 2 == 1 then ParseArg(s[1..], 0, quoted, arg + Slashes(run / 2) + "\"")
      else if quoted && |s| > 1 && s[1] == '"' then ParseArg(s[2..], 0, quoted, arg + Slashes(run / 2) + "\"")
      else ParseArg(s[1..], 0, !quoted, arg + Slashes(run / 2))
    else if !quoted && IsBlank(s[0]) then Parsed(arg + Slashes(run), s)
    else ParseArg(s[1..], 0, quoted, arg + Slashes(run) + [s[0]])
  }

  function ParseArgs(s: string): seq<string>
    decreases |s|
  {
    if s == "" then []
    else if IsBlank(s[0]) then ParseArgs(s[1..])
    else
      var p := ParseArg(s, 0, false, "");
      [p.arg] + ParseArgs(p.rest)
  }

  /** The program name: quotes only keep blanks together, and nothing is escaped. */
  function ParseProgram(s: string, quoted: bool, arg: string): (p: Parsed)
    decreases |s|
  {
    if s == "" then Parsed(arg, "")
    else if s[0] == '"' then ParseProgram(s[1..], !quoted, arg)
    else if !quoted && IsBlank(s[0]) then Parsed(arg, s)
    else ParseProgram(s[1..], quoted, arg + [s[0]])
  }

  function ParseCommandLine(s: string): seq<string> {
    var p := ParseProgram(s, false, "");
    [p.arg] + ParseArgs(p.rest)
  }

  // ---------- the quoting ----------

  predicate NeedsQuotes(arg: string) {
    arg == "" || exists i :: 0 <= i < |arg| && arg[i] in {' ', '\t', '"'}
  }

  /** What follows the opening quote, with `run` backslashes read and not printed yet. */
  function QuotedBody(arg: string, run: nat): string
    decreases |arg|
  {
    if arg == "" then Slashes(run * 2) + "\""
    else if arg[0] == '\\' then QuotedBody(arg[1..], run + 1)
    else if arg[0] == '"' then Slashes(run * 2 + 1) + "\"" + QuotedBody(arg[1..], 0)
    else Slashes(run) + [arg[0]] + QuotedBody(arg[1..], 0)
  }

  function Quote(arg: string): string {
    if NeedsQuotes(arg) then "\"" + QuotedBody(arg, 0) else arg
  }

  function Join(parts: seq<string>): string {
    if parts == [] then ""
    else if |parts| == 1 then parts[0]
    else parts[0] + " " + Join(parts[1..])
  }

  function QuoteAll(args: seq<string>): (parts: seq<string>)
    ensures |parts| == |args|
  {
    seq(|args|, i requires 0 <= i < |args| => Quote(args[i]))
  }

  /** One more character of the quoted text, by cases. */
  lemma BodyStep(text: string, arg: string, run: nat)
    requires arg != ""
    ensures text + QuotedBody(arg, run) ==
            if arg[0] == '\\' then text + QuotedBody(arg[1..], run + 1)
            else if arg[0] == '"' then text + Slashes(run * 2 + 1) + "\"" + QuotedBody(arg[1..], 0)
            else text + Slashes(run) + [arg[0]] + QuotedBody(arg[1..], 0)
  {
    var rest := QuotedBody(arg[1..], 0);
    if arg[0] == '"' {
      assert text + (Slashes(run * 2 + 1) + "\"" + rest) == text + Slashes(run * 2 + 1) + "\"" + rest;
    } else if arg[0] != '\\' {
      assert text + (Slashes(run) + [arg[0]] + rest) == text + Slashes(run) + [arg[0]] + rest;
    }
  }

  method ArgNeedsQuotes(arg: string) returns (needs: bool)
    ensures needs == NeedsQuotes(arg)
  {
    needs := arg == "";
    for i := 0 to |arg|
      invariant needs <==> arg == "" || exists j :: 0 <= j < i && arg[j] in {' ', '\t', '"'}
    {
      needs := needs || arg[i] in {' ', '\t', '"'};
    }
  }

  /** Walks the characters once, counting the backslashes that a quote or the end would make significant. */
  method QuoteWindowsArg(arg: string) returns (quoted: string)
    ensures quoted == Quote(arg)
  {
    var needs := ArgNeedsQuotes(arg);
    if !needs {
      return arg;
    }
    quoted := "\"";
    var backslashes := 0;
    for i := 0 to |arg|
      invariant quoted + QuotedBody(arg[i..], backslashes) == Quote(arg)
    {
      BodyStep(quoted, arg[i..], backslashes);
      assert arg[i..][1..] == arg[i + 1..];
      if arg[i] == '\\' {
        backslashes := backslashes + 1;
      } else if arg[i] == '"' {
        quoted := quoted + Slashes(backslashes * 2 + 1) + "\"";
        backslashes := 0;
      } else {
        quoted := quoted + Slashes(backslashes) + [arg[i]];
        backslashes := 0;
      }
    }
    assert quoted + (Slashes(backslashes * 2) + "\"") == quoted + Slashes(backslashes * 2) + "\"";
    quoted := quoted + Slashes(backslashes * 2) + "\"";
  }

  datatype LaunchResult = CommandLine(text: string) | EmptyPath

  method LaunchCommandLine(executable: string, args: seq<string>) returns (r: LaunchResult)
    ensures r == if executable == "" then EmptyPath else CommandLine(Join(QuoteAll([executable] + args)))
  {
    if executable == "" {
      return EmptyPath;
    }
    var first := QuoteWindowsArg(executable);
    var parts := [first];
    for i := 0 to |args|
      invariant parts == QuoteAll([executable] + args[..i])
    {
      var part := QuoteWindowsArg(args[i]);
      parts := parts + [part];
      assert [executable] + args[..i + 1] == [executable] + args[..i] + [args[i]];
    }
    assert args[..|args|] == args;
    r := CommandLine(Join(parts));
  }

  // ---------- the parser undoes the quoting ----------

  lemma {:induction false} RunOfSlashes(n: nat, s: string, run: nat, quoted: bool, arg: string)
    ensures ParseArg(Slashes(n) + s, run, quoted, arg) == ParseArg(s, run + n, quoted, arg)
    decreases n
  {
    if n == 0 {
      assert Slashes(0) + s == s;
    } else {
      assert (Slashes(n) + s)[1..] == Slashes(n - 1) + s;
      RunOfSlashes(n - 1, s, run + 1, quoted, arg);
    }
  }

  /** The documented rule for backslashes before a quote, in either mode: a pair stands for one, an odd one escapes. */
  lemma SlashesBeforeQuote(n: nat, s: string, quoted: bool, got: string)
    ensures ParseArg(Slashes(2 * n + 1) + ("\"" + s), 0, quoted, got) == ParseArg(s, 0, quoted, got + Slashes(n) + "\"")
    ensures ParseArg(Slashes(2 * n) + ("\"" + s), 0, quoted, got) ==
            if quoted && s != "" && s[0] == '"' then ParseArg(s[1..], 0, true, got + Slashes(n) + "\"")
            else ParseArg(s, 0, !quoted, got + Slashes(n))
  {
    RunOfSlashes(2 * n + 1, "\"" + s, 0, quoted, got);
    RunOfSlashes(2 * n, "\"" + s, 0, quoted, got);
    assert ("\"" + s)[1..] == s;
    if s != "" {
      assert ("\"" + s)[2..] == s[1..] && ("\"" + s)[1] == s[0];
    }
  }

  /** Before anything else backslashes are literal; a blank or a tab outside quotes ends the argument, as the end does. */
  lemma SlashesElsewhere(n: nat, c: char, s: string, quoted: bool, got: string)
    requires c != '\\' && c != '"'
    ensures ParseArg(Slashes(n) + ([c] + s), 0, quoted, got) ==
            if !quoted && (c == ' ' || c == '\t') then Parsed(got + Slashes(n), [c] + s)
            else ParseArg(s, 0, quoted, got + Slashes(n) + [c])
    ensures ParseArg(Slashes(n), 0, quoted, got) == Parsed(got + Slashes(n), "")
  {
    RunOfSlashes(n, [c] + s, 0, quoted, got);
    assert ([c] + s)[1..] == s;
    RunOfSlashes(n, "", 0, quoted, got);
    assert Slashes(n) + "" == Slashes(n);
  }

  predicate EndsArg(rest: string) {
    rest == "" || IsBlank(rest[0])
  }

  lemma EscapedQuote(run: nat, s: string, got: string)
    ensures ParseArg(Slashes(run * 2 + 1) + "\"" + s, 0, true, got) == ParseArg(s, 0, true, got + Slashes(run) + "\"")
  {
    assert Slashes(run * 2 + 1) + "\"" + s == Slashes(run * 2 + 1) + ("\"" + s);
    RunOfSlashes(run * 2 + 1, "\"" + s, 0, true, got);
    assert ("\"" + s)[1..] == s;
  }

  lemma ClosingQuote(run: nat, rest: string, got: string)
    requires EndsArg(rest)
    ensures ParseArg(Slashes(run * 2) + "\"" + rest, 0, true, got) == Parsed(got + Slashes(run), rest)
  {
    assert Slashes(run * 2) + "\"" + rest == Slashes(run * 2) + ("\"" + rest);
    RunOfSlashes(run * 2, "\"" + rest, 0, true, got);
    assert ("\"" + rest)[1..] == rest;
    assert got + Slashes(run) + Slashes(0) == got + Slashes(run);
  }

  lemma OrdinaryChar(run: nat, c: char, s: string, got: string)
    requires c != '\\' && c != '"'
    ensures ParseArg(Slashes(run) + [c] + s, 0, true, got) == ParseArg(s, 0, true, got + Slashes(run) + [c])
  {
    assert Slashes(run) + [c] + s == Slashes(run) + ([c] + s);
    RunOfSlashes(run, [c] + s, 0, true, got);
    assert ([c] + s)[1..] == s;
  }

  lemma Rejoin(got: string, arg: string)
    requires arg != ""
    ensures got + [arg[0]] + Slashes(0) + arg[1..] == got + arg
  {
  }

  lemma RejoinSlash(got: string, run: nat, arg: string)
    requires arg != "" && arg[0] == '\\'
    ensures got + Slashes(run + 1) + arg[1..] == got + Slashes(run) + arg
  {
  }

  lemma {:induction false} BodyParses(arg: string, run: nat, got: string, rest: string)
    requires EndsArg(rest)
    ensures ParseArg(QuotedBody(arg, run) + rest, 0, true, got) == Parsed(got + Slashes(run) + arg, rest)
    decreases |arg|
  {
    if arg == "" {
      ClosingQuote(run, rest, got);
      assert got + Slashes(run) + arg == got + Slashes(run);
    } else if arg[0] == '\\' {
      BodyParses(arg[1..], run + 1, got, rest);
      RejoinSlash(got, run, arg);
    } else {
      BodyParses(arg[1..], 0, got + Slashes(run) + [arg[0]], rest);
      Rejoin(got + Slashes(run), arg);
      BodyReads(arg, run, got, rest);
    }
  }

  /** A character that is not a backslash is read with the run before it. */
  lemma BodyReads(arg: string, run: nat, got: string, rest: string)
    requires arg != "" && arg[0] != '\\'
    ensures ParseArg(QuotedBody(arg, run) + rest, 0, true, got) ==
            ParseArg(QuotedBody(arg[1..], 0) + rest, 0, true, got + Slashes(run) + [arg[0]])
  {
    var body := QuotedBody(arg[1..], 0);
    if arg[0] == '"' {
      EscapedQuote(run, body + rest, got);
      assert Slashes(run * 2 + 1) + "\"" + body + rest == Slashes(run * 2 + 1) + "\"" + (body + rest);
    } else {
      OrdinaryChar(run, arg[0], body + rest, got);
      assert Slashes(run) + [arg[0]] + body + rest == Slashes(run) + [arg[0]] + (body + rest);
    }
  }

  lemma {:induction false} PlainParses(arg: string, run: nat, got: string, rest: string)
    requires EndsArg(rest) && forall i :: 0 <= i < |arg| ==> arg[i] !in {' ', '\t', '"'}
    ensures ParseArg(arg + rest, run, false, got) == Parsed(got + Slashes(run) + arg, rest)
    decreases |arg|
  {
    if arg == "" {
      assert arg + rest == rest;
      assert got + Slashes(run) + arg == got + Slashes(run);
    } else {
      assert (arg + rest)[1..] == arg[1..] + rest;
      if arg[0] == '\\' {
        PlainParses(arg[1..], run + 1, got, rest);
        RejoinSlash(got, run, arg);
      } else {
        PlainParses(arg[1..], 0, got + Slashes(run) + [arg[0]], rest);
        Rejoin(got + Slashes(run), arg);
      }
    }
  }

  lemma OpeningQuote(s: string)
    ensures ParseArg("\"" + s, 0, false, "") == ParseArg(s, 0, true, "")
  {
    assert ("\"" + s)[1..] == s;
    assert "" + Slashes(0) == "";
  }

  /** One quoted argument, followed by a blank or the end, is read back as it was. */
  lemma QuoteParses(arg: string, rest: string)
    requires EndsArg(rest)
    ensures ParseArg(Quote(arg) + rest, 0, false, "") == Parsed(arg, rest)
    ensures Quote(arg) != "" && !IsBlank(Quote(arg)[0])
  {
    assert "" + Slashes(0) + arg == arg;
    if NeedsQuotes(arg) {
      var body := QuotedBody(arg, 0);
      assert Quote(arg) + rest == "\"" + (body + rest);
      OpeningQuote(body + rest);
      BodyParses(arg, 0, "", rest);
    } else {
      PlainParses(arg, 0, "", rest);
    }
  }

  /** What follows the first of the joined parts. */
  function AfterFirst(args: seq<string>): (rest: string)
    requires args != []
    ensures EndsArg(rest)
  {
    if |args| == 1 then "" else " " + Join(QuoteAll(args[1..]))
  }

  lemma JoinSplits(args: seq<string>)
    requires args != []
    ensures Join(QuoteAll(args)) == Quote(args[0]) + AfterFirst(args)
  {
    var parts := QuoteAll(args);
    assert parts[1..] == QuoteAll(args[1..]);
    if |args| == 1 {
      assert parts[0] + "" == parts[0];
    } else {
      assert parts[0] + " " + Join(parts[1..]) == parts[0] + (" " + Join(parts[1..]));
    }
  }

  lemma AfterFirstParses(args: seq<string>)
    requires args != []
    ensures ParseArgs(AfterFirst(args)) == ParseArgs(Join(QuoteAll(args[1..])))
  {
    if |args| > 1 {
      assert AfterFirst(args)[1..] == Join(QuoteAll(args[1..]));
    } else {
      assert QuoteAll(args[1..]) == [];
    }
  }

  lemma FirstParses(arg: string, rest: string)
    requires EndsArg(rest)
    ensures ParseArgs(Quote(arg) + rest) == [arg] + ParseArgs(rest)
  {
    QuoteParses(arg, rest);
    assert (Quote(arg) + rest)[0] == Quote(arg)[0];
  }

  /** Every argument list survives: empty arguments, embedded quotes, any run of backslashes. */
  lemma {:induction false} QuotingRoundTrip(args: seq<string>)
    ensures ParseArgs(Join(QuoteAll(args))) == args
    decreases |args|
  {
    if args != [] {
      JoinSplits(args);
      FirstParses(args[0], AfterFirst(args));
      AfterFirstParses(args);
      QuotingRoundTrip(args[1..]);
    }
  }

  // ---------- the quoted text, told by runs of backslashes ----------

  /** An argument that is not empty and has no blank, tab or quote is left as it is. */
  lemma PlainIsLeft(arg: string)
    requires arg != "" && forall i :: 0 <= i < |arg| ==> arg[i] != ' ' && arg[i] != '\t' && arg[i] != '"'
    ensures Quote(arg) == arg
  {
  }

  /** A run of backslashes and the character behind it. */
  datatype Piece = Piece(run: nat, c: char)

  /** The text of the pieces, with `last` backslashes at its end. */
  function TextOf(pieces: seq<Piece>, last: nat): string {
    if pieces == [] then Slashes(last) else Slashes(pieces[0].run) + ([pieces[0].c] + TextOf(pieces[1..], last))
  }

  /** The same quoted: before a quote and at the end backslashes are doubled, and a quote is escaped. */
  function QuotedOf(pieces: seq<Piece>, last: nat): string {
    if pieces == [] then Slashes(2 * last) + "\""
    else if pieces[0].c == '"' then Slashes(2 * pieces[0].run + 1) + ("\"" + QuotedOf(pieces[1..], last))
    else Slashes(pieces[0].run) + ([pieces[0].c] + QuotedOf(pieces[1..], last))
  }

  predicate IsPieces(pieces: seq<Piece>) {
    forall i :: 0 <= i < |pieces| ==> pieces[i].c != '\\'
  }

  lemma {:induction false} BodyAfterRun(n: nat, s: string, run: nat)
    ensures QuotedBody(Slashes(n) + s, run) == QuotedBody(s, run + n)
    decreases n
  {
    if n == 0 {
      assert Slashes(0) + s == s;
    } else {
      assert (Slashes(n) + s)[0] == '\\' && (Slashes(n) + s)[1..] == Slashes(n - 1) + s;
      BodyAfterRun(n - 1, s, run + 1);
    }
  }

  lemma BodyOfPiece(p: Piece, rest: string)
    requires p.c != '\\'
    ensures QuotedBody(Slashes(p.run) + ([p.c] + rest), 0) ==
            if p.c == '"' then Slashes(2 * p.run + 1) + ("\"" + QuotedBody(rest, 0))
            else Slashes(p.run) + ([p.c] + QuotedBody(rest, 0))
  {
    var s := [p.c] + rest;
    BodyAfterRun(p.run, s, 0);
    assert s[0] == p.c && s[1..] == rest;
    var body := QuotedBody(rest, 0);
    assert Slashes(p.run * 2 + 1) + "\"" + body == Slashes(2 * p.run + 1) + ("\"" + body);
    assert Slashes(p.run) + [p.c] + body == Slashes(p.run) + ([p.c] + body);
  }

  lemma {:induction false} BodyByPieces(pieces: seq<Piece>, last: nat)
    requires IsPieces(pieces)
    ensures QuotedBody(TextOf(pieces, last), 0) == QuotedOf(pieces, last)
    decreases |pieces|
  {
    if pieces == [] {
      BodyAfterRun(last, "", 0);
      assert Slashes(last) + "" == Slashes(last);
    } else {
      BodyOfPiece(pieces[0], TextOf(pieces[1..], last));
      BodyByPieces(pieces[1..], last);
    }
  }

  /** Any other argument, taken apart into runs of backslashes, is printed between quotes piece by piece. */
  lemma QuoteByPieces(pieces: seq<Piece>, last: nat)
    requires IsPieces(pieces)
    requires var arg := TextOf(pieces, last);
             arg == "" || exists i :: 0 <= i < |arg| && (arg[i] == ' ' || arg[i] == '\t' || arg[i] == '"')
    ensures Quote(TextOf(pieces, last)) == "\"" + QuotedOf(pieces, last)
  {
    BodyByPieces(pieces, last);
  }

  /** Every argument can be taken apart like that. */
  lemma {:induction false} EveryTextHasPieces(arg: string) returns (pieces: seq<Piece>, last: nat)
    ensures IsPieces(pieces) && TextOf(pieces, last) == arg
    decreases |arg|
  {
    if arg == "" {
      pieces, last := [], 0;
    } else {
      var ps, n := EveryTextHasPieces(arg[1..]);
      assert arg == [arg[0]] + arg[1..];
      if arg[0] != '\\' {
        pieces, last := [Piece(0, arg[0])] + ps, n;
        assert Slashes(0) + ([arg[0]] + TextOf(ps, n)) == arg;
      } else if ps == [] {
        pieces, last := [], n + 1;
        assert Slashes(n + 1) == ['\\'] + Slashes(n);
      } else {
        pieces, last := [Piece(ps[0].run + 1, ps[0].c)] + ps[1..], n;
        var rest := [ps[0].c] + TextOf(ps[1..], n);
        assert Slashes(ps[0].run + 1) + rest == ['\\'] + (Slashes(ps[0].run) + rest);
      }
    }
  }

  /** A command line grows by one space and the next part. */
  lemma {:induction false} JoinSnoc(parts: seq<string>, part: string)
    ensures Join(parts + [part]) == if parts == [] then part else Join(parts) + " " + part
    decreases |parts|
  {
    if parts == [] {
      assert parts + [part] == [part];
    } else {
      assert (parts + [part])[1..] == parts[1..] + [part];
      JoinSnoc(parts[1..], part);
      if |parts| > 1 {
        var rest := Join(parts[1..]);
        assert parts[0] + " " + (rest + " " + part) == parts[0] + " " + rest + " " + part;
      }
    }
  }

  // ---------- the executable, read as a program name ----------

  /** Length of the run of backslashes at the end, `run` of them read before. */
  function Trailing(arg: string, run: nat): nat
    decreases |arg|
  {
    if arg == "" then run else Trailing(arg[1..], if arg[0] == '\\' then run + 1 else 0)
  }

  lemma {:induction false} TrailingMeans(arg: string, run: nat)
    ensures Trailing(arg, run) > 0 <==> if arg == "" then run > 0 else arg[|arg| - 1] == '\\'
    decreases |arg|
  {
    if arg != "" {
      TrailingMeans(arg[1..], if arg[0] == '\\' then run + 1 else 0);
    }
  }

  lemma OrdinaryBody(arg: string, run: nat)
    requires arg != "" && arg[0] != '\\' && arg[0] != '"'
    requires QuotedBody(arg[1..], 0) == Slashes(0) + arg[1..] + Slashes(Trailing(arg[1..], 0)) + "\""
    ensures QuotedBody(arg, run) == Slashes(run) + arg + Slashes(Trailing(arg, run)) + "\""
  {
    var end := Slashes(Trailing(arg[1..], 0));
    assert Slashes(0) + arg[1..] == arg[1..];
    Regroup(Slashes(run), [arg[0]], arg[1..], end);
    assert [arg[0]] + arg[1..] == arg;
  }

  lemma Regroup(a: string, b: string, c: string, d: string)
    ensures a + b + (c + d + "\"") == a + (b + c) + d + "\""
  {
  }

  lemma {:induction false} BodyWithoutQuotes(arg: string, run: nat)
    requires '"' !in arg
    ensures QuotedBody(arg, run) == Slashes(run) + arg + Slashes(Trailing(arg, run)) + "\""
    decreases |arg|
  {
    if arg == "" {
      assert Slashes(run * 2) == Slashes(run) + arg + Slashes(run);
    } else if arg[0] == '\\' {
      BodyWithoutQuotes(arg[1..], run + 1);
      assert Slashes(run + 1) + arg[1..] == Slashes(run) + arg;
    } else {
      BodyWithoutQuotes(arg[1..], 0);
      OrdinaryBody(arg, run);
    }
  }

  lemma {:induction false} ProgramReads(name: string, quoted: bool, got: string, rest: string)
    requires '"' !in name && (quoted || forall i :: 0 <= i < |name| ==> !IsBlank(name[i]))
    ensures ParseProgram(name + rest, quoted, got) == ParseProgram(rest, quoted, got + name)
    decreases |name|
  {
    if name == "" {
      assert name + rest == rest && got + name == got;
    } else {
      assert (name + rest)[1..] == name[1..] + rest;
      ProgramReads(name[1..], quoted, got + [name[0]], rest);
      assert got + [name[0]] + name[1..] == got + name;
    }
  }

  lemma {:induction false} ProgramHasNoQuote(s: string, quoted: bool, got: string)
    requires '"' !in got
    ensures '"' !in ParseProgram(s, quoted, got).arg
    decreases |s|
  {
    if s != "" && s[0] == '"' {
      ProgramHasNoQuote(s[1..], !quoted, got);
    } else if s != "" {
      ProgramHasNoQuote(s[1..], quoted, got + [s[0]]);
    }
  }

  /** Inside quotes a program name is read as it stands. */
  lemma QuotedProgram(name: string, rest: string)
    requires EndsArg(rest) && '"' !in name
    ensures ParseProgram("\"" + (name + ("\"" + rest)), false, "") == Parsed(name, rest)
  {
    var s := name + ("\"" + rest);
    assert ("\"" + s)[1..] == s;
    ProgramReads(name, true, "", "\"" + rest);
    assert "" + name == name;
    assert ("\"" + rest)[1..] == rest;
  }

  lemma NoQuoteIn(name: string, n: nat)
    requires '"' !in name
    ensures '"' !in name + Slashes(n)
  {
  }

  lemma QuotedText(name: string, rest: string)
    requires '"' !in name && NeedsQuotes(name)
    ensures Quote(name) + rest == "\"" + ((name + Slashes(Trailing(name, 0))) + ("\"" + rest))
  {
    BodyWithoutQuotes(name, 0);
    assert Slashes(0) + name == name;
  }

  /** A program name without quotes is read back with its trailing backslashes doubled, if it was quoted. */
  lemma ProgramParses(name: string, rest: string)
    requires EndsArg(rest) && '"' !in name && name != ""
    ensures ParseProgram(Quote(name) + rest, false, "") ==
            Parsed(name + Slashes(if NeedsQuotes(name) then Trailing(name, 0) else 0), rest)
  {
    if NeedsQuotes(name) {
      QuotedText(name, rest);
      NoQuoteIn(name, Trailing(name, 0));
      QuotedProgram(name + Slashes(Trailing(name, 0)), rest);
    } else {
      ProgramReads(name, false, "", rest);
      assert "" + name == name + Slashes(0);
    }
  }

  /**
   * With the executable read as a program name, a launch line round-trips if and only if the executable
   * has no quote and, in case it is quoted, does not end in a backslash.
   */
  lemma LaunchRoundTrip(executable: string, args: seq<string>)
    requires executable != ""
    ensures ParseCommandLine(Join(QuoteAll([executable] + args))) == [executable] + args <==>
            '"' !in executable && !(NeedsQuotes(executable) && executable[|executable| - 1] == '\\')
  {
    var line := Join(QuoteAll([executable] + args));
    if '"' in executable {
      ProgramHasNoQuote(line, false, "");
      assert ParseCommandLine(line)[0] != executable;
    } else {
      LaunchParses(executable, args);
      TrailingMeans(executable, 0);
      SameHead(executable, if NeedsQuotes(executable) then Trailing(executable, 0) else 0, args);
    }
  }

  lemma LaunchParses(executable: string, args: seq<string>)
    requires executable != "" && '"' !in executable
    ensures var n := if NeedsQuotes(executable) then Trailing(executable, 0) else 0;
            ParseCommandLine(Join(QuoteAll([executable] + args))) == [executable + Slashes(n)] + args
  {
    var all := [executable] + args;
    assert all[1..] == args;
    JoinSplits(all);
    ProgramParses(executable, AfterFirst(all));
    AfterFirstParses(all);
    QuotingRoundTrip(args);
  }

  /** An executable `a b\`, quoted and with its backslash doubled, comes back as `a b\\`. */
  lemma LaunchLossExample()
    ensures ParseCommandLine(Join(QuoteAll(["a b\\"] + []))) == ["a b\\" + "\\"] + []
    ensures ParseCommandLine(Join(QuoteAll(["a b\\"] + []))) != ["a b\\"] + []
  {
    var name := "a b\\";
    assert NeedsQuotes(name) by {
      assert name[1] == ' ';
    }
    OneTrailing();
    assert Slashes(1) == "\\";
    LaunchParses(name, []);
    LaunchRoundTrip(name, []);
  }

  lemma OneTrailing()
    ensures Trailing("a b\\", 0) == 1
  {
    var s := "a b\\";
    assert s[1..] == " b\\" && " b\\"[1..] == "b\\" && "b\\"[1..] == "\\" && "\\"[1..] == "";
  }

  lemma SameHead(name: string, n: nat, args: seq<string>)
    ensures [name + Slashes(n)] + args == [name] + args <==> n == 0
  {
    assert |name + Slashes(n)| == |name| + n;
    if n == 0 {
      assert name + Slashes(n) == name;
    } else {
      assert ([name + Slashes(n)] + args)[0] != ([name] + args)[0];
    }
  }
}
