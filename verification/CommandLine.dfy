/** Windows command lines: the quoter, the splitting rules of the Microsoft runtime, and the worker's own options. */
module CommandLine {
  import opened Words
  import opened Decimals

  function Backslashes(n: nat): (r: string)
    ensures |r| == n && forall i :: 0 <= i < n ==> r[i] == '\\'
  {
    seq(n, _ => '\\')
  }

  predicate IsBlank(c: char) {
    c == ' ' || c == '\t'
  }

  /** Characters that make the quoter add quotes. */
  predicate IsSpecial(c: char) {
    c == ' ' || c == '\t' || c == '\n' || c == '\U{000B}' || c == '"'
  }

  ghost predicate NeedsQuotes(arg: string) {
    exists i :: 0 <= i < |arg| && IsSpecial(arg[i])
  }

  // ---- Quoting

  /** The inside of a quoted argument, with `n` backslashes held back. */
  function QuoteBody(s: string, n: nat): string
    decreases |s|
  {
    if s == "" then Backslashes(2 * n)
    else if s[0] == '\\' then QuoteBody(s[1..], n + 1)
    else if s[0] == '"' then Backslashes(2 * n + 1) + "\"" + QuoteBody(s[1..], 0)
    else Backslashes(n) + [s[0]] + QuoteBody(s[1..], 0)
  }

  ghost function Quote(arg: string): string {
    if arg == "" then "\"\""
    else if !NeedsQuotes(arg) then arg
    else "\"" + QuoteBody(arg, 0) + "\""
  }

  lemma {:induction false} BodyStep(s: string, k: nat, n: nat)
    requires k < |s|
    ensures QuoteBody(s[k..], n) ==
      if s[k] == '\\' then QuoteBody(s[k + 1..], n + 1)
      else if s[k] == '"' then Backslashes(2 * n + 1) + "\"" + QuoteBody(s[k + 1..], 0)
      else Backslashes(n) + [s[k]] + QuoteBody(s[k + 1..], 0)
  {
    assert s[k..][1..] == s[k + 1..];
  }

  method Repeat(n: nat) returns (r: string)
    ensures r == Backslashes(n)
  {
    r := "";
    for i := 0 to n
      invariant r == Backslashes(i)
    {
      r := r + "\\";
    }
  }

  method ContainsSpecial(arg: string) returns (found: bool)
    ensures found <==> NeedsQuotes(arg)
  {
    for i := 0 to |arg|
      invariant forall j :: 0 <= j < i ==> !IsSpecial(arg[j])
    {
      if IsSpecial(arg[i]) {
        return true;
      }
    }
    return false;
  }

  method QuoteWindowsArg(arg: string) returns (res: string)
    ensures res == Quote(arg)
  {
    if arg == "" {
      return "\"\"";
    }
    var special := ContainsSpecial(arg);
    if !special {
      return arg;
    }
    res := "\"";
    var backslashes := 0;
    for i := 0 to |arg|
      invariant res + QuoteBody(arg[i..], backslashes) == "\"" + QuoteBody(arg, 0)
    {
      BodyStep(arg, i, backslashes);
      ghost var rest := QuoteBody(arg[i + 1..], 0);
      var c := arg[i];
      if c == '\\' {
        backslashes := backslashes + 1;
      } else if c == '"' {
        var more := Repeat(backslashes * 2 + 1);
        assert res + (more + "\"" + rest) == res + more + "\"" + rest;
        res := res + more + "\"";
        backslashes := 0;
      } else {
        var more := Repeat(backslashes);
        assert res + (more + [c] + rest) == res + more + [c] + rest;
        res := res + more + [c];
        backslashes := 0;
      }
    }
    var trailing := Repeat(backslashes * 2);
    assert arg[|arg|..] == "";
    res := res + trailing;
    res := res + "\"";
  }

  ghost function Build(args: seq<string>): string {
    if args == [] then ""
    else if |args| == 1 then Quote(args[0])
    else Build(args[..|args| - 1]) + " " + Quote(args[|args| - 1])
  }

  method BuildWindowsCommandLine(args: seq<string>) returns (cmd: string)
    ensures cmd == Build(args)
  {
    cmd := "";
    for i := 0 to |args|
      invariant cmd == Build(args[..i])
    {
      if i > 0 {
        cmd := cmd + " ";
      }
      var quoted := QuoteWindowsArg(args[i]);
      BuildStep(args, i);
      cmd := cmd + quoted;
    }
    assert args[..|args|] == args;
  }

  lemma BuildStep(args: seq<string>, i: nat)
    requires i < |args|
    ensures Build(args[..i + 1]) == (if i > 0 then Build(args[..i]) + " " else Build(args[..i])) + Quote(args[i])
  {
    assert args[..i + 1][..i] == args[..i];
    if i == 0 {
      assert Build(args[..0]) == "";
      assert "" + Quote(args[0]) == Quote(args[0]);
    }
  }

  // ---- Splitting: 2n backslashes before a quote are n backslashes and a quote mark, 2n + 1 are n and a literal quote;
  // ---- two quotes inside quotes are one literal quote; blanks outside quotes separate arguments.

  datatype Split = Split(arg: string, rest: string)

  function NextArg(cmd: string, quoted: bool, backslashes: nat): Split
    decreases |cmd|
  {
    if cmd == "" then Split(Backslashes(backslashes), "")
    else if cmd[0] == '\\' then NextArg(cmd[1..], quoted, backslashes + 1)
    else if cmd[0] == '"' then
      if backslashes % 2 == 1 then Prefixed(Backslashes(backslashes / 2) + "\"", NextArg(cmd[1..], quoted, 0))
      else if quoted && |cmd| > 1 && cmd[1] == '"' then Prefixed(Backslashes(backslashes / 2) + "\"", NextArg(cmd[2..], quoted, 0))
      else Prefixed(Backslashes(backslashes / 2), NextArg(cmd[1..], !quoted, 0))
    else if IsBlank(cmd[0]) && !quoted then Split(Backslashes(backslashes), cmd)
    else Prefixed(Backslashes(backslashes) + [cmd[0]], NextArg(cmd[1..], quoted, 0))
  }

  function Prefixed(prefix: string, s: Split): Split {
    Split(prefix + s.arg, s.rest)
  }

  function SkipBlanks(cmd: string): (r: string)
    ensures |r| <= |cmd| && (r != "" ==> !IsBlank(r[0]))
  {
    if cmd != "" && IsBlank(cmd[0]) then SkipBlanks(cmd[1..]) else cmd
  }

  lemma {:induction false} NextArgShrinks(cmd: string, quoted: bool, backslashes: nat)
    ensures |NextArg(cmd, quoted, backslashes).rest| <= |cmd|
    ensures cmd != "" && !IsBlank(cmd[0]) ==> |NextArg(cmd, quoted, backslashes).rest| < |cmd|
    decreases |cmd|
  {
    if cmd != "" {
      NextArgShrinks(cmd[1..], quoted, backslashes + 1);
      NextArgShrinks(cmd[1..], quoted, 0);
      NextArgShrinks(cmd[1..], !quoted, 0);
      if |cmd| > 1 {
        NextArgShrinks(cmd[2..], quoted, 0);
      }
    }
  }

  /** The arguments after the program name. */
  function SplitArgs(cmd: string): seq<string>
    decreases |cmd|
  {
    var start := SkipBlanks(cmd);
    if start == "" then []
    else
      NextArgShrinks(start, false, 0);
      var s := NextArg(start, false, 0);
      [s.arg] + SplitArgs(s.rest)
  }

  /** The program name ends at the first blank outside quotes; backslashes mean nothing in it. */
  function AfterProgram(cmd: string, quoted: bool): string {
    if cmd == "" then ""
    else if cmd[0] == '"' then AfterProgram(cmd[1..], !quoted)
    else if IsBlank(cmd[0]) && !quoted then cmd
    else AfterProgram(cmd[1..], quoted)
  }

  // ---- Splitting undoes quoting

  /** What may follow an argument on a command line. */
  predicate Separated(tail: string) {
    tail == "" || IsBlank(tail[0])
  }

  lemma {:induction false} ReadBackslashes(k: nat, x: string, quoted: bool, n: nat)
    ensures NextArg(Backslashes(k) + x, quoted, n) == NextArg(x, quoted, n + k)
    decreases k
  {
    if k == 0 {
      assert Backslashes(0) + x == x;
    } else {
      assert (Backslashes(k) + x)[1..] == Backslashes(k - 1) + x;
      ReadBackslashes(k - 1, x, quoted, n + 1);
    }
  }

  lemma AtEnd(tail: string)
    requires Separated(tail)
    ensures NextArg(tail, false, 0) == Split("", tail)
  {
  }

  lemma JoinBackslashes(n: nat, c: char, s: string)
    ensures Backslashes(n) + ([c] + s) == Backslashes(n) + [c] + s
    ensures Backslashes(n + 1) + s == Backslashes(n) + (['\\'] + s)
  {
  }

  lemma {:induction false} BodyRoundTrip(s: string, n: nat, tail: string)
    requires Separated(tail)
    ensures NextArg(QuoteBody(s, n) + "\"" + tail, true, 0) == Split(Backslashes(n) + s, tail)
    decreases |s|
  {
    hide NextArg;
    if s == "" {
      ClosingQuote(n, tail);
      assert Backslashes(n) + s == Backslashes(n);
    } else if s[0] == '\\' {
      BodyRoundTrip(s[1..], n + 1, tail);
      JoinBackslashes(n, '\\', s[1..]);
      assert s == ['\\'] + s[1..];
    } else {
      BodyRoundTrip(s[1..], 0, tail);
      assert Backslashes(0) + s[1..] == s[1..];
      var inner := QuoteBody(s[1..], 0) + "\"" + tail;
      assert s == [s[0]] + s[1..];
      if s[0] == '"' {
        assert QuoteBody(s, n) + "\"" + tail == Backslashes(2 * n + 1) + ("\"" + inner);
        ReadBackslashes(2 * n + 1, "\"" + inner, true, 0);
        LiteralQuote(n, inner);
        JoinBackslashes(n, '"', s[1..]);
      } else {
        assert QuoteBody(s, n) + "\"" + tail == Backslashes(n) + ([s[0]] + inner);
        ReadBackslashes(n, [s[0]] + inner, true, 0);
        OrdinaryChar(n, s[0], inner);
        JoinBackslashes(n, s[0], s[1..]);
      }
    }
  }

  lemma ClosingQuote(n: nat, tail: string)
    requires Separated(tail)
    ensures NextArg(QuoteBody("", n) + "\"" + tail, true, 0) == Split(Backslashes(n), tail)
  {
    var x := "\"" + tail;
    assert QuoteBody("", n) + "\"" + tail == Backslashes(2 * n) + x;
    ReadBackslashes(2 * n, x, true, 0);
    assert x[1..] == tail;
    AtEnd(tail);
    assert Backslashes(n) + "" == Backslashes(n);
  }

  lemma LiteralQuote(n: nat, inner: string)
    ensures NextArg("\"" + inner, true, 2 * n + 1) == Prefixed(Backslashes(n) + "\"", NextArg(inner, true, 0))
  {
    assert ("\"" + inner)[1..] == inner;
  }

  lemma OrdinaryChar(n: nat, c: char, inner: string)
    requires c != '\\' && c != '"'
    ensures NextArg([c] + inner, true, n) == Prefixed(Backslashes(n) + [c], NextArg(inner, true, 0))
  {
    assert ([c] + inner)[1..] == inner;
  }

  lemma {:induction false} PlainRoundTrip(s: string, n: nat, tail: string)
    requires Separated(tail) && forall i :: 0 <= i < |s| ==> !IsSpecial(s[i])
    ensures NextArg(s + tail, false, n) == Split(Backslashes(n) + s, tail)
    decreases |s|
  {
    if s == "" {
      assert s + tail == tail && Backslashes(n) + s == Backslashes(n);
    } else {
      assert (s + tail)[1..] == s[1..] + tail && s == [s[0]] + s[1..];
      JoinBackslashes(n, s[0], s[1..]);
      if s[0] == '\\' {
        PlainRoundTrip(s[1..], n + 1, tail);
      } else {
        PlainRoundTrip(s[1..], 0, tail);
        assert Backslashes(0) + s[1..] == s[1..];
      }
    }
  }

  lemma EmptyRoundTrip(tail: string)
    requires Separated(tail)
    ensures NextArg("\"\"" + tail, false, 0) == Split("", tail)
  {
    hide NextArg;
    assert "\"\"" + tail == "\"" + ("\"" + tail);
    OpeningQuote("\"" + tail);
    ClosingQuote(0, tail);
    assert QuoteBody("", 0) + "\"" + tail == "\"" + tail;
  }

  lemma QuotedRoundTrip(arg: string, tail: string)
    requires Separated(tail)
    ensures NextArg("\"" + QuoteBody(arg, 0) + "\"" + tail, false, 0) == Split(arg, tail)
  {
    hide NextArg, QuoteBody;
    var inner := QuoteBody(arg, 0) + "\"" + tail;
    assert "\"" + QuoteBody(arg, 0) + "\"" + tail == "\"" + inner;
    OpeningQuote(inner);
    BodyRoundTrip(arg, 0, tail);
    assert Backslashes(0) + arg == arg;
  }

  lemma UnquotedRoundTrip(arg: string, tail: string)
    requires Separated(tail) && !NeedsQuotes(arg)
    ensures NextArg(arg + tail, false, 0) == Split(arg, tail)
  {
    hide NextArg;
    PlainRoundTrip(arg, 0, tail);
    assert Backslashes(0) + arg == arg;
  }

  /** Splitting gives back one quoted argument, for every string, and stops right after it. */
  lemma QuoteRoundTrip(arg: string, tail: string)
    requires Separated(tail)
    ensures NextArg(Quote(arg) + tail, false, 0) == Split(arg, tail)
    ensures Quote(arg) != "" && !IsBlank(Quote(arg)[0])
  {
    hide NextArg, QuoteBody;
    if arg == "" {
      EmptyRoundTrip(tail);
    } else if !NeedsQuotes(arg) {
      UnquotedRoundTrip(arg, tail);
    } else {
      QuotedRoundTrip(arg, tail);
    }
  }

  lemma OpeningQuote(inner: string)
    ensures NextArg("\"" + inner, false, 0) == NextArg(inner, true, 0)
  {
    assert ("\"" + inner)[1..] == inner;
    var s := NextArg(inner, true, 0);
    assert Backslashes(0) + s.arg == s.arg;
  }

  lemma {:induction false} BodyLength(s: string, n: nat)
    ensures |QuoteBody(s, n)| >= n + |s|
    decreases |s|
  {
    if s != "" {
      BodyLength(s[1..], n + 1);
      BodyLength(s[1..], 0);
    }
  }

  /** An argument is left as it is exactly if it is not empty and has no blank, line feed, vertical tab or quote mark. */
  lemma QuotedExactly(arg: string)
    ensures Quote(arg) == arg <==> arg != "" && forall i :: 0 <= i < |arg| ==> arg[i] !in {' ', '\t', '\n', '\U{000B}', '"'}
    ensures Quote(arg) != arg ==> |Quote(arg)| >= |arg| + 2 && Quote(arg)[0] == '"' && Quote(arg)[|Quote(arg)| - 1] == '"'
  {
    BodyLength(arg, 0);
  }

  // ---- The whole command line

  /** The quoted arguments, each after a space. */
  ghost function Tail(args: seq<string>): string {
    if args == [] then "" else " " + Quote(args[0]) + Tail(args[1..])
  }

  lemma {:induction false} TailAppend(args: seq<string>, last: string)
    ensures Tail(args + [last]) == Tail(args) + " " + Quote(last)
    decreases |args|
  {
    if args == [] {
      assert ([] + [last])[1..] == [];
      assert " " + Quote(last) + "" == " " + Quote(last);
      assert "" + " " == " ";
    } else {
      assert (args + [last])[1..] == args[1..] + [last];
      TailAppend(args[1..], last);
      var a, b := " " + Quote(args[0]), Tail(args[1..]);
      assert a + (b + " " + Quote(last)) == a + b + " " + Quote(last);
    }
  }

  lemma {:induction false} BuildIsTail(program: string, args: seq<string>)
    ensures Build([program] + args) == Quote(program) + Tail(args)
    decreases |args|
  {
    hide Quote;
    if args == [] {
      assert [program] + args == [program];
      assert Quote(program) + "" == Quote(program);
    } else {
      var n := |args| - 1;
      assert ([program] + args)[..n + 1] == [program] + args[..n];
      BuildIsTail(program, args[..n]);
      TailAppend(args[..n], args[n]);
      assert args == args[..n] + [args[n]];
      assert Quote(program) + (Tail(args[..n]) + " " + Quote(args[n])) == Quote(program) + Tail(args[..n]) + " " + Quote(args[n]);
    }
  }

  lemma SplitStep(cmd: string, start: string)
    requires SkipBlanks(cmd) == start != ""
    ensures var s := NextArg(start, false, 0); |s.rest| < |start| && SplitArgs(cmd) == [s.arg] + SplitArgs(s.rest)
  {
    hide NextArg;
    NextArgShrinks(start, false, 0);
  }

  lemma {:induction false} SplitTail(args: seq<string>)
    ensures SplitArgs(Tail(args)) == args && Separated(Tail(args))
    decreases |args|
  {
    hide NextArg, Quote, SplitArgs;
    if args == [] {
      NothingToSplit();
    } else {
      SplitTail(args[1..]);
      var rest := Tail(args[1..]);
      QuoteRoundTrip(args[0], rest);
      var start := Quote(args[0]) + rest;
      assert Tail(args) == " " + start;
      OneBlank(start);
      SplitStep(Tail(args), start);
      assert [args[0]] + args[1..] == args;
    }
  }

  lemma NothingToSplit()
    ensures SplitArgs("") == []
  {
  }

  lemma OneBlank(start: string)
    requires start != "" && !IsBlank(start[0])
    ensures SkipBlanks(" " + start) == start
  {
    assert (" " + start)[1..] == start;
  }

  lemma {:induction false} SkipPlain(s: string, quoted: bool, tail: string)
    requires forall i :: 0 <= i < |s| ==> s[i] != '"' && (quoted || !IsBlank(s[i]))
    ensures AfterProgram(s + tail, quoted) == AfterProgram(tail, quoted)
    decreases |s|
  {
    if s == "" {
      assert s + tail == tail;
    } else {
      assert (s + tail)[1..] == s[1..] + tail;
      SkipPlain(s[1..], quoted, tail);
    }
  }

  /** Quote marks in a program name come in pairs, with no blank inside a pair: what the splitting rules, which know no
      escapes there, take for one name. */
  predicate Paired(s: string, quoted: bool) {
    if s == "" then quoted
    else if s[0] == '"' then Paired(s[1..], !quoted)
    else (quoted || !IsBlank(s[0])) && Paired(s[1..], quoted)
  }

  /** A blank inside a pair of quote marks, where the name seems to end. */
  predicate Splits(s: string, quoted: bool) {
    s != "" &&
    if s[0] == '"' then Splits(s[1..], !quoted)
    else (!quoted && IsBlank(s[0])) || Splits(s[1..], quoted)
  }

  lemma {:induction false} PlainIsPaired(s: string, quoted: bool)
    requires forall i :: 0 <= i < |s| ==> s[i] != '"'
    requires quoted || forall i :: 0 <= i < |s| ==> !IsBlank(s[i])
    ensures Paired(s, quoted) == quoted
    decreases |s|
  {
    if s != "" {
      PlainIsPaired(s[1..], quoted);
    }
  }

  /** What the splitting rules leave of a quoted program name and what follows it. */
  lemma {:induction false} ScanProgram(s: string, n: nat, quoted: bool, tail: string)
    ensures var after := AfterProgram(QuoteBody(s, n) + "\"" + tail, quoted);
      && (Paired(s, quoted) && Separated(tail) ==> after == tail)
      && (Splits(s, quoted) ==> exists r :: after == r + "\"" + tail)
      && (!Paired(s, quoted) && !Splits(s, quoted) ==> after == AfterProgram(tail, true))
    decreases |s|
  {
    ScanNext(s, n, quoted, tail);
    hide AfterProgram;
    if s == "" {
    } else if s[0] == '\\' {
      ScanProgram(s[1..], n + 1, quoted, tail);
    } else if s[0] == '"' {
      ScanProgram(s[1..], 0, !quoted, tail);
    } else {
      ScanProgram(s[1..], 0, quoted, tail);
    }
  }

  /** One character of the program name. */
  lemma ScanNext(s: string, n: nat, quoted: bool, tail: string)
    ensures var after := AfterProgram(QuoteBody(s, n) + "\"" + tail, quoted);
      if s == "" then after == AfterProgram(tail, !quoted) && (Separated(tail) && quoted ==> after == tail)
      else if s[0] == '\\' then after == AfterProgram(QuoteBody(s[1..], n + 1) + "\"" + tail, quoted)
      else if s[0] == '"' then after == AfterProgram(QuoteBody(s[1..], 0) + "\"" + tail, !quoted)
      else if IsBlank(s[0]) && !quoted then after == [s[0]] + QuoteBody(s[1..], 0) + "\"" + tail
      else after == AfterProgram(QuoteBody(s[1..], 0) + "\"" + tail, quoted)
  {
    if s == "" {
      ScanPast(Backslashes(2 * n), "\"" + tail, quoted);
      assert QuoteBody(s, n) + "\"" + tail == Backslashes(2 * n) + ("\"" + tail);
      assert ("\"" + tail)[1..] == tail;
    } else if s[0] == '\\' {
    } else if s[0] == '"' {
      var inner := QuoteBody(s[1..], 0) + "\"" + tail;
      ScanPast(Backslashes(2 * n + 1), "\"" + inner, quoted);
      assert QuoteBody(s, n) + "\"" + tail == Backslashes(2 * n + 1) + ("\"" + inner);
      assert ("\"" + inner)[1..] == inner;
    } else {
      ScanOrdinary(s, n, quoted, tail);
    }
  }

  lemma ScanPast(backslashes: string, rest: string, quoted: bool)
    requires forall i :: 0 <= i < |backslashes| ==> backslashes[i] == '\\'
    ensures AfterProgram(backslashes + rest, quoted) == AfterProgram(rest, quoted)
  {
    SkipPlain(backslashes, quoted, rest);
  }

  lemma ScanOrdinary(s: string, n: nat, quoted: bool, tail: string)
    requires s != "" && s[0] != '"' && s[0] != '\\'
    ensures var whole, inner := QuoteBody(s, n) + "\"" + tail, QuoteBody(s[1..], 0) + "\"" + tail;
      if IsBlank(s[0]) && !quoted then AfterProgram(whole, quoted) == [s[0]] + QuoteBody(s[1..], 0) + "\"" + tail
      else AfterProgram(whole, quoted) == AfterProgram(inner, quoted)
  {
    var inner := QuoteBody(s[1..], 0) + "\"" + tail;
    ScanPast(Backslashes(n), [s[0]] + inner, quoted);
    assert QuoteBody(s, n) + "\"" + tail == Backslashes(n) + ([s[0]] + inner);
    assert ([s[0]] + inner)[1..] == inner;
    assert [s[0]] + inner == [s[0]] + QuoteBody(s[1..], 0) + "\"" + tail;
  }

  lemma ScanQuoted(program: string, tail: string)
    requires NeedsQuotes(program)
    ensures AfterProgram(Quote(program) + tail, false) == AfterProgram(QuoteBody(program, 0) + "\"" + tail, true)
  {
    hide QuoteBody;
    var inner := QuoteBody(program, 0) + "\"" + tail;
    assert Quote(program) + tail == "\"" + inner && ("\"" + inner)[1..] == inner;
  }

  lemma ProgramEnds(tail: string)
    requires Separated(tail)
    ensures AfterProgram("\"" + tail, true) == tail
  {
    assert ("\"" + tail)[1..] == tail;
  }

  lemma ProgramSkipped(program: string, tail: string)
    requires Separated(tail) && Paired(program, true)
    ensures AfterProgram(Quote(program) + tail, false) == tail
  {
    if program == "" {
      assert Quote(program) + tail == "\"" + ("\"" + tail) && ("\"" + ("\"" + tail))[1..] == "\"" + tail;
      ProgramEnds(tail);
    } else if !NeedsQuotes(program) {
      SkipPlain(program, false, tail);
    } else {
      ScanQuoted(program, tail);
      ScanProgram(program, 0, true, tail);
    }
  }

  /** Every argument after the program name comes back, whatever strings they are. */
  lemma CommandLineRoundTrip(program: string, args: seq<string>)
    requires Paired(program, true)
    ensures SplitArgs(AfterProgram(Build([program] + args), false)) == args
  {
    BuildIsTail(program, args);
    SplitTail(args);
    ProgramSkipped(program, Tail(args));
  }

  lemma {:induction false} NotAllBlank(r: string, c: char)
    requires !IsBlank(c)
    ensures SkipBlanks(r + [c]) != ""
    decreases |r|
  {
    if r != "" {
      assert (r + [c])[1..] == r[1..] + [c];
      NotAllBlank(r[1..], c);
    }
  }

  /** An unpaired program name costs arguments or invents one. */
  lemma UnpairedFails(program: string) returns (args: seq<string>)
    requires !Paired(program, true)
    ensures SplitArgs(AfterProgram(Build([program] + args), false)) != args
    ensures Splits(program, true) ==> args == []
  {
    if !NeedsQuotes(program) {
      PlainIsPaired(program, true);
    }
    args := if Splits(program, true) then [] else [""];
    BuildIsTail(program, args);
    ScanQuoted(program, Tail(args));
    ScanProgram(program, 0, true, Tail(args));
    var after := AfterProgram(Build([program] + args), false);
    hide QuoteBody, Paired, Splits, NextArg;
    if args == [] {
      var r :| after == r + "\"" + "";
      assert after == r + ['"'];
      NotAllBlank(r, '"');
    } else {
      LostArgument();
    }
  }

  lemma LostArgument()
    ensures AfterProgram(Tail([""]), true) == "" && SplitArgs("") == []
  {
    assert [""][1..] == [];
    var t := " \"\"";
    assert Tail([""]) == t;
    assert t[1..] == "\"\"" && "\"\""[1..] == "\"" && "\""[1..] == "";
  }

  /** The arguments survive for every list of them exactly if the program name is paired. */
  lemma ProgramSurvives(program: string)
    ensures Paired(program, true) <==> forall args :: SplitArgs(AfterProgram(Build([program] + args), false)) == args
  {
    if Paired(program, true) {
      forall args
        ensures SplitArgs(AfterProgram(Build([program] + args), false)) == args
      {
        CommandLineRoundTrip(program, args);
      }
    } else {
      var args := UnpairedFails(program);
    }
  }

  /** The quoter escapes a quote mark in the program name, but the splitting rules do not unescape it there. */
  lemma QuoteInProgramFails()
    ensures SplitArgs(AfterProgram(Build(["a\" b"] + []), false)) != []
  {
    var program := "a\" b";
    assert program[1..] == "\" b" && "\" b"[1..] == " b";
    assert Splits(" b", false) && !Paired(" b", false);
    assert Splits("\" b", true) && !Paired("\" b", true);
    assert Splits(program, true) && !Paired(program, true);
    var args := UnpairedFails(program);
  }

  // ---- The worker's options

  /** `parse::<usize>`: an optional plus sign and at least one digit, within 64 bits. */
  function ParseHandle(s: string): Option<u64> {
    var digits := if s != "" && s[0] == '+' then s[1..] else s;
    if digits == "" then None
    else
      match DigitsValue(digits)
      case None => None
      case Some(v) => if v <= U64_MAX then Some(v) else None
  }

  lemma HandleRoundTrip(h: u64)
    ensures ParseHandle(Decimal(h)) == Some(h)
  {
    DecimalValue(h);
  }

  /** A handle is read from its digits, after a plus sign or not, exactly if there are any and their value fits 64 bits. */
  lemma ParseHandleMeaning(s: string, digits: string)
    requires s == "+" + digits || (s == digits && (s == "" || s[0] != '+'))
    ensures ParseHandle(s).Some? <==>
      digits != "" && (forall i :: 0 <= i < |digits| ==> '0' <= digits[i] <= '9') && DigitsValue(digits).GetOr(0) < 0x1_0000_0000_0000_0000
    ensures ParseHandle(s).Some? ==> DigitsValue(digits).Some? && ParseHandle(s).value == DigitsValue(digits).value
  {
    DigitsOnly(digits);
    if s == "+" + digits {
      assert s[1..] == digits;
    }
  }

  datatype WorkerArgs = WorkerArgs(target: string, pipeHandle: u64, cancelEventHandle: u64)

  datatype ArgsError = MissingArgument(name: string) | InvalidHandle(flag: string, text: string) | UnexpectedArgument(argument: string)

  datatype ArgsResult = Parsed(args: WorkerArgs) | Invalid(error: ArgsError)

  const TARGET: string := "--target"
  const PIPE_HANDLE: string := "--pipe-handle"
  const CANCEL_EVENT_HANDLE: string := "--cancel-event-handle"

  /** The options seen so far. */
  datatype Options = Options(target: Option<string>, pipeHandle: Option<u64>, cancelEventHandle: Option<u64>)

  predicate IsFlag(arg: string) {
    |arg| >= 2 && arg[..2] == "--"
  }

  function Complete(o: Options): ArgsResult {
    match o.target
    case None => Invalid(MissingArgument(TARGET))
    case Some(t) =>
      match o.pipeHandle
      case None => Invalid(MissingArgument(PIPE_HANDLE))
      case Some(p) =>
        match o.cancelEventHandle
        case None => Invalid(MissingArgument(CANCEL_EVENT_HANDLE))
        case Some(c) => Parsed(WorkerArgs(t, p, c))
  }

  /** What the options `o` become after the arguments from the front of `args`. */
  function ParseFrom(args: seq<string>, o: Options): ArgsResult
    decreases |args|
  {
    if args == [] then Complete(o)
    else if args[0] == TARGET then
      if |args| == 1 then Invalid(MissingArgument(TARGET)) else ParseFrom(args[2..], o.(target := Some(args[1])))
    else if args[0] == PIPE_HANDLE then
      if |args| == 1 then Invalid(MissingArgument(PIPE_HANDLE))
      else match ParseHandle(args[1])
        case None => Invalid(InvalidHandle(PIPE_HANDLE, args[1]))
        case Some(h) => ParseFrom(args[2..], o.(pipeHandle := Some(h)))
    else if args[0] == CANCEL_EVENT_HANDLE then
      if |args| == 1 then Invalid(MissingArgument(CANCEL_EVENT_HANDLE))
      else match ParseHandle(args[1])
        case None => Invalid(InvalidHandle(CANCEL_EVENT_HANDLE, args[1]))
        case Some(h) => ParseFrom(args[2..], o.(cancelEventHandle := Some(h)))
    else if IsFlag(args[0]) then Invalid(UnexpectedArgument(args[0]))
    else ParseFrom(args[1..], o)
  }

  /** What has been read: an option with its value, or an argument that is none. */
  datatype Given = Setting(flag: string, value: string) | Stray(argument: string)

  /** Readings that raise no error. */
  ghost predicate Sound(g: Given) {
    match g
    case Setting(flag, value) => flag == "--target" || (flag in {"--pipe-handle", "--cancel-event-handle"} && ParseHandle(value).Some?)
    case Stray(a) => |a| < 2 || a[0] != '-' || a[1] != '-'
  }

  ghost function Spelled(gs: seq<Given>): seq<string> {
    if gs == [] then []
    else
      Spelled(gs[..|gs| - 1]) + match gs[|gs| - 1]
        case Setting(flag, value) => [flag, value]
        case Stray(a) => [a]
  }

  ghost predicate Absent(gs: seq<Given>, flag: string) {
    forall i :: 0 <= i < |gs| && gs[i].Setting? ==> gs[i].flag != flag
  }

  /** The last setting of `flag` gives it the value `value`. */
  ghost predicate SetTo(gs: seq<Given>, flag: string, value: string) {
    exists i :: 0 <= i < |gs| && gs[i] == Setting(flag, value) && Absent(gs[i + 1..], flag)
  }

  ghost predicate SetToHandle(gs: seq<Given>, flag: string, handle: u64) {
    exists text :: SetTo(gs, flag, text) && ParseHandle(text) == Some(handle)
  }

  /** What the arguments `gs`, all read without error, followed by `rest`, which could not be read, result in: the last value of
      each option; the first option that is missing, in this order; the option at the end that lacks its value; the handle that is
      none; or the unknown option. */
  ghost predicate ResultFits(gs: seq<Given>, rest: seq<string>, r: ArgsResult) {
    && (forall i :: 0 <= i < |gs| ==> Sound(gs[i]))
    && if rest == [] then
         if Absent(gs, "--target") then r == Invalid(MissingArgument("--target"))
         else if Absent(gs, "--pipe-handle") then r == Invalid(MissingArgument("--pipe-handle"))
         else if Absent(gs, "--cancel-event-handle") then r == Invalid(MissingArgument("--cancel-event-handle"))
         else
           && r.Parsed? && SetTo(gs, "--target", r.args.target)
           && SetToHandle(gs, "--pipe-handle", r.args.pipeHandle) && SetToHandle(gs, "--cancel-event-handle", r.args.cancelEventHandle)
       else if rest[0] in {"--target", "--pipe-handle", "--cancel-event-handle"} then
         if |rest| == 1 then r == Invalid(MissingArgument(rest[0]))
         else rest[0] != "--target" && ParseHandle(rest[1]).None? && r == Invalid(InvalidHandle(rest[0], rest[1]))
       else
         |rest[0]| >= 2 && rest[0][0] == '-' && rest[0][1] == '-' && r == Invalid(UnexpectedArgument(rest[0]))
  }

  /** `o` holds what `gs` has set. */
  ghost predicate Collected(gs: seq<Given>, o: Options) {
    && (if o.target.None? then Absent(gs, TARGET) else SetTo(gs, TARGET, o.target.value))
    && (if o.pipeHandle.None? then Absent(gs, PIPE_HANDLE) else SetToHandle(gs, PIPE_HANDLE, o.pipeHandle.value))
    && (if o.cancelEventHandle.None? then Absent(gs, CANCEL_EVENT_HANDLE) else SetToHandle(gs, CANCEL_EVENT_HANDLE, o.cancelEventHandle.value))
  }

  lemma SetIsThere(gs: seq<Given>, flag: string, value: string)
    requires SetTo(gs, flag, value)
    ensures !Absent(gs, flag)
  {
  }

  /** Reading `g` as well leaves what is said about `flag` as it was. */
  ghost predicate Undisturbed(gs: seq<Given>, g: Given, flag: string) {
    && (Absent(gs, flag) ==> Absent(gs + [g], flag))
    && forall value :: SetTo(gs, flag, value) ==> SetTo(gs + [g], flag, value)
  }

  lemma SetNow(gs: seq<Given>, flag: string, value: string)
    ensures SetTo(gs + [Setting(flag, value)], flag, value)
  {
    var n, all := |gs|, gs + [Setting(flag, value)];
    assert all[n] == Setting(flag, value) && all[n + 1..] == [];
    assert Absent(all[n + 1..], flag);
  }

  lemma StillAbsent(gs: seq<Given>, g: Given, flag: string)
    requires Absent(gs, flag) && (g.Setting? ==> g.flag != flag)
    ensures Absent(gs + [g], flag)
  {
  }

  lemma StillSet(gs: seq<Given>, g: Given, flag: string, value: string)
    requires SetTo(gs, flag, value) && (g.Setting? ==> g.flag != flag)
    ensures SetTo(gs + [g], flag, value)
  {
    hide Absent;
    var n, all := |gs|, gs + [g];
    var i :| 0 <= i < n && gs[i] == Setting(flag, value) && Absent(gs[i + 1..], flag);
    assert all[i] == gs[i];
    assert all[i + 1..] == gs[i + 1..] + [g];
    StillAbsent(gs[i + 1..], g, flag);
  }

  lemma OthersUndisturbed(gs: seq<Given>, g: Given, flag: string)
    requires g.Setting? ==> g.flag != flag
    ensures Undisturbed(gs, g, flag)
  {
    if Absent(gs, flag) {
      StillAbsent(gs, g, flag);
    }
    forall value | SetTo(gs, flag, value)
      ensures SetTo(gs + [g], flag, value)
    {
      StillSet(gs, g, flag, value);
    }
  }

  lemma SpelledOneMore(gs: seq<Given>, g: Given)
    ensures Spelled(gs + [g]) == Spelled(gs) + match g case Setting(flag, value) => [flag, value] case Stray(a) => [a]
  {
    assert (gs + [g])[..|gs|] == gs;
  }

  lemma TargetCollected(gs: seq<Given>, o: Options, value: string)
    requires Collected(gs, o)
    ensures Collected(gs + [Setting(TARGET, value)], o.(target := Some(value)))
  {
    var g := Setting(TARGET, value);
    FlagsDiffer();
    SetNow(gs, TARGET, value);
    OthersUndisturbed(gs, g, PIPE_HANDLE);
    OthersUndisturbed(gs, g, CANCEL_EVENT_HANDLE);
    hide SetTo, Absent, ParseHandle;
  }

  lemma PipeCollected(gs: seq<Given>, o: Options, text: string)
    requires Collected(gs, o) && ParseHandle(text).Some?
    ensures Collected(gs + [Setting(PIPE_HANDLE, text)], o.(pipeHandle := ParseHandle(text)))
  {
    var g := Setting(PIPE_HANDLE, text);
    FlagsDiffer();
    SetNow(gs, PIPE_HANDLE, text);
    OthersUndisturbed(gs, g, TARGET);
    OthersUndisturbed(gs, g, CANCEL_EVENT_HANDLE);
    hide SetTo, Absent, ParseHandle;
  }

  lemma CancelCollected(gs: seq<Given>, o: Options, text: string)
    requires Collected(gs, o) && ParseHandle(text).Some?
    ensures Collected(gs + [Setting(CANCEL_EVENT_HANDLE, text)], o.(cancelEventHandle := ParseHandle(text)))
  {
    var g := Setting(CANCEL_EVENT_HANDLE, text);
    FlagsDiffer();
    SetNow(gs, CANCEL_EVENT_HANDLE, text);
    OthersUndisturbed(gs, g, TARGET);
    OthersUndisturbed(gs, g, PIPE_HANDLE);
    hide SetTo, Absent, ParseHandle;
  }

  lemma StrayCollected(gs: seq<Given>, o: Options, a: string)
    requires Collected(gs, o)
    ensures Collected(gs + [Stray(a)], o)
  {
    OthersUndisturbed(gs, Stray(a), TARGET);
    OthersUndisturbed(gs, Stray(a), PIPE_HANDLE);
    OthersUndisturbed(gs, Stray(a), CANCEL_EVENT_HANDLE);
    hide SetTo, Absent, ParseHandle;
  }

  lemma CompleteFits(gs: seq<Given>, o: Options)
    requires Collected(gs, o) && forall i :: 0 <= i < |gs| ==> Sound(gs[i])
    ensures ResultFits(gs, [], Complete(o))
  {
    forall flag, value | SetTo(gs, flag, value)
      ensures !Absent(gs, flag)
    {
      SetIsThere(gs, flag, value);
    }
    hide SetTo, Absent, Sound, ParseHandle;
  }

  lemma StopFits(gs: seq<Given>, args: seq<string>, o: Options)
    requires args != [] && forall i :: 0 <= i < |gs| ==> Sound(gs[i])
    requires args[0] == TARGET ==> |args| == 1
    requires args[0] == PIPE_HANDLE || args[0] == CANCEL_EVENT_HANDLE ==> |args| == 1 || ParseHandle(args[1]).None?
    requires args[0] != TARGET && args[0] != PIPE_HANDLE && args[0] != CANCEL_EVENT_HANDLE ==> IsFlag(args[0])
    ensures ResultFits(gs, args, ParseFrom(args, o))
  {
    hide Sound, ParseHandle;
    if IsFlag(args[0]) {
      assert args[0][..2][0] == args[0][0] && args[0][..2][1] == args[0][1];
    }
  }

  /** Every argument list is a sequence of sound readings and a rest that cannot be read, and the result is the one they call for. */
  lemma {:induction false} ParseFits(args: seq<string>, gs: seq<Given>, o: Options) returns (all: seq<Given>, rest: seq<string>)
    requires Collected(gs, o) && forall i :: 0 <= i < |gs| ==> Sound(gs[i])
    ensures Spelled(gs) + args == Spelled(all) + rest
    ensures ResultFits(all, rest, ParseFrom(args, o))
    decreases |args|, 1
  {
    hide ResultFits, Collected, ParseHandle, Spelled;
    if args == [] {
      CompleteFits(gs, o);
      all, rest := gs, [];
    } else if args[0] == TARGET && |args| > 1 {
      TargetCollected(gs, o, args[1]);
      all, rest := FitsBehind(args, 2, gs, Setting(TARGET, args[1]), o, o.(target := Some(args[1])));
    } else if args[0] == PIPE_HANDLE && |args| > 1 && ParseHandle(args[1]).Some? {
      PipeCollected(gs, o, args[1]);
      all, rest := FitsBehind(args, 2, gs, Setting(PIPE_HANDLE, args[1]), o, o.(pipeHandle := ParseHandle(args[1])));
    } else if args[0] == CANCEL_EVENT_HANDLE && |args| > 1 && ParseHandle(args[1]).Some? {
      CancelCollected(gs, o, args[1]);
      all, rest := FitsBehind(args, 2, gs, Setting(CANCEL_EVENT_HANDLE, args[1]), o, o.(cancelEventHandle := ParseHandle(args[1])));
    } else if args[0] == TARGET || args[0] == PIPE_HANDLE || args[0] == CANCEL_EVENT_HANDLE || IsFlag(args[0]) {
      StopFits(gs, args, o);
      all, rest := gs, args;
    } else {
      StrayCollected(gs, o, args[0]);
      StrayIsSound(args[0]);
      all, rest := FitsBehind(args, 1, gs, Stray(args[0]), o, o);
    }
  }

  lemma StrayIsSound(a: string)
    requires !IsFlag(a)
    ensures Sound(Stray(a))
  {
    if |a| >= 2 {
      assert a[..2] == [a[0], a[1]];
    }
  }

  /** The case in which `g`, the first `n` arguments, can be read. */
  lemma FitsBehind(args: seq<string>, n: nat, gs: seq<Given>, g: Given, o: Options, o': Options) returns (all: seq<Given>, rest: seq<string>)
    requires 0 < n <= |args| && ParseFrom(args, o) == ParseFrom(args[n..], o')
    requires Collected(gs + [g], o') && Sound(g) && forall i :: 0 <= i < |gs| ==> Sound(gs[i])
    requires args[..n] == match g case Setting(flag, value) => [flag, value] case Stray(a) => [a]
    ensures Spelled(gs) + args == Spelled(all) + rest
    ensures ResultFits(all, rest, ParseFrom(args, o))
    decreases |args|, 0
  {
    hide ResultFits, Collected, Spelled, Sound, ParseFrom;
    SpelledOneMore(gs, g);
    all, rest := ParseFits(args[n..], gs + [g], o');
    assert args == args[..n] + args[n..];
  }

  lemma ParseIsRead(args: seq<string>)
    ensures exists gs, rest :: args == Spelled(gs) + rest && ResultFits(gs, rest, ParseFrom(args, Options(None, None, None)))
  {
    var gs, rest := ParseFits(args, [], Options(None, None, None));
    assert Spelled([]) + args == args;
  }

  method ParseWorkerArgs(args: seq<string>) returns (r: ArgsResult)
    ensures r == ParseFrom(args, Options(None, None, None))
    ensures exists gs, rest :: args == Spelled(gs) + rest && ResultFits(gs, rest, r)
  {
    hide ResultFits;
    ParseIsRead(args);
    var target: Option<string>, pipeHandle: Option<u64>, cancelEventHandle: Option<u64> := None, None, None;
    var i := 0;
    while i < |args|
      invariant i <= |args|
      invariant ParseFrom(args[i..], Options(target, pipeHandle, cancelEventHandle)) == ParseFrom(args, Options(None, None, None))
    {
      assert args[i..][1..] == args[i + 1..];
      assert i + 1 < |args| ==> args[i..][2..] == args[i + 2..];
      var arg := args[i];
      i := i + 1;
      if arg == TARGET || arg == PIPE_HANDLE || arg == CANCEL_EVENT_HANDLE {
        if i == |args| {
          return Invalid(MissingArgument(arg));
        }
        var val := args[i];
        i := i + 1;
        if arg == TARGET {
          target := Some(val);
        } else {
          var handle := ParseHandle(val);
          if handle.None? {
            return Invalid(InvalidHandle(arg, val));
          }
          if arg == PIPE_HANDLE {
            pipeHandle := handle;
          } else {
            cancelEventHandle := handle;
          }
        }
      } else if IsFlag(arg) {
        return Invalid(UnexpectedArgument(arg));
      }
    }
    assert args[i..] == [];
    r := Complete(Options(target, pipeHandle, cancelEventHandle));
  }

  /** The runner's arguments for the worker, after the program name. */
  function RunnerArgs(target: string, pipeHandle: u64, cancelEventHandle: u64): seq<string> {
    [TARGET, target, PIPE_HANDLE, Decimal(pipeHandle), CANCEL_EVENT_HANDLE, Decimal(cancelEventHandle)]
  }

  lemma FlagsDiffer()
    ensures TARGET != PIPE_HANDLE && TARGET != CANCEL_EVENT_HANDLE && PIPE_HANDLE != CANCEL_EVENT_HANDLE
  {
    assert TARGET[2] == 't' && PIPE_HANDLE[2] == 'p' && CANCEL_EVENT_HANDLE[2] == 'c';
  }

  lemma RunnerArgsParse(target: string, pipeHandle: u64, cancelEventHandle: u64)
    ensures ParseFrom(RunnerArgs(target, pipeHandle, cancelEventHandle), Options(None, None, None))
         == Parsed(WorkerArgs(target, pipeHandle, cancelEventHandle))
  {
    FlagsDiffer();
    HandleRoundTrip(pipeHandle);
    HandleRoundTrip(cancelEventHandle);
    var args := RunnerArgs(target, pipeHandle, cancelEventHandle);
    var o1 := Options(Some(target), None, None);
    var o2 := o1.(pipeHandle := Some(pipeHandle));
    var rest := [PIPE_HANDLE, Decimal(pipeHandle), CANCEL_EVENT_HANDLE, Decimal(cancelEventHandle)];
    var last := [CANCEL_EVENT_HANDLE, Decimal(cancelEventHandle)];
    assert args[2..] == rest && rest[2..] == last && last[2..] == [];
    assert ParseFrom(last, o2) == Complete(o2.(cancelEventHandle := Some(cancelEventHandle)));
    assert ParseFrom(rest, o1) == ParseFrom(last, o2);
    assert ParseFrom(args, Options(None, None, None)) == ParseFrom(rest, o1);
  }

  /** The worker recovers exactly the target and the two handles the runner put on its command line. */
  method LaunchArguments(workerExe: string, target: string, pipeHandle: u64, cancelEventHandle: u64) returns (r: ArgsResult)
    ensures Paired(workerExe, true) ==> r == Parsed(WorkerArgs(target, pipeHandle, cancelEventHandle))
    ensures '"' !in workerExe ==> r == Parsed(WorkerArgs(target, pipeHandle, cancelEventHandle))
  {
    if '"' !in workerExe {
      PlainIsPaired(workerExe, true);
    }
    var args := RunnerArgs(target, pipeHandle, cancelEventHandle);
    var cmd := BuildWindowsCommandLine([workerExe] + args);
    if Paired(workerExe, true) {
      CommandLineRoundTrip(workerExe, args);
    }
    RunnerArgsParse(target, pipeHandle, cancelEventHandle);
    r := ParseWorkerArgs(SplitArgs(AfterProgram(cmd, false)));
  }
}
