/** The command-line parser of the main binary.  Joining the remaining
    arguments is `Session.ConcatRemaining`, which this file's copy of
    concat_remaining_args matches. */
module Args {
  import opened Text

  /** command_args_t: the four switches and the three strings (`None` is a
      NULL pointer). */
  datatype CommandArgs = CommandArgs(showHelp: bool, showVersion: bool, runTests: bool, showConfig: bool,
                                     input: Option<string>, context: Option<string>, command: Option<string>)

  /** The structure after memset to zero. */
  function Zeroed(): CommandArgs
  {
    CommandArgs(false, false, false, false, None, None, None)
  }

  datatype Flag = Help | Version | Tests | ShowConfig

  /** The switch an argument names, if any. */
  function FlagOf(a: string): Option<Flag>
  {
    if a == "--help" || a == "-h" then Some(Help)
    else if a == "--version" || a == "-v" then Some(Version)
    else if a == "--test" || a == "-t" then Some(Tests)
    else if a == "--config" || a == "-c" then Some(ShowConfig)
    else None
  }

  /** -i/--input and -x/--context, which take the next argument. */
  predicate TakesValue(a: string)
  {
    a == "--input" || a == "-i" || a == "--context" || a == "-x"
  }

  /** An argument that does not start with '-' (the empty one included). */
  predicate IsPositional(a: string)
  {
    |a| == 0 || a[0] != '-'
  }

  function Has(r: CommandArgs, f: Flag): bool
  {
    match f
    case Help => r.showHelp
    case Version => r.showVersion
    case Tests => r.runTests
    case ShowConfig => r.showConfig
  }

  function Set(r: CommandArgs, f: Flag): (s: CommandArgs)
    ensures forall g :: Has(s, g) <==> Has(r, g) || g == f
    ensures s.input == r.input && s.context == r.context && s.command == r.command
  {
    match f
    case Help => r.(showHelp := true)
    case Version => r.(showVersion := true)
    case Tests => r.(runTests := true)
    case ShowConfig => r.(showConfig := true)
  }

  /** One pass of the loop body at `argv[i]`: the updated structure and
      the index the loop continues from. */
  function Step(argv: seq<string>, i: nat, acc: CommandArgs): (r: (CommandArgs, nat))
    requires i < |argv|
    ensures i + 1 <= r.1 <= i + 2 && r.1 <= |argv|
  {
    var a := argv[i];
    if FlagOf(a).Some? then (Set(acc, FlagOf(a).value), i + 1)
    else if a == "--input" || a == "-i" then
      if i + 1 < |argv| then (acc.(input := Some(argv[i + 1])), i + 2) else (acc, i + 1)
    else if a == "--context" || a == "-x" then
      if i + 1 < |argv| then (acc.(context := Some(argv[i + 1])), i + 2) else (acc, i + 1)
    else if IsPositional(a) then
      if acc.command.None? then (acc.(command := Some(a)), i + 1)
      else if acc.input.None? then (acc.(input := Some(a)), i + 1)
      else (acc, i + 1)
    else (acc, i + 1)
  }

  /** The loop from index `i` on. */
  function Scan(argv: seq<string>, i: nat, acc: CommandArgs): CommandArgs
    decreases |argv| - i
  {
    if i >= |argv| then acc
    else
      var step := Step(argv, i, acc);
      Scan(argv, step.1, step.0)
  }

  /** The positional arguments of a list, in order. */
  function Positionals(args: seq<string>): (r: seq<string>)
    ensures |r| <= |args|
  {
    if |args| == 0 then []
    else Positionals(args[..|args| - 1]) + (if IsPositional(args[|args| - 1]) then [args[|args| - 1]] else [])
  }

  function Nth(xs: seq<string>, n: nat): Option<string>
  {
    if n < |xs| then Some(xs[n]) else None
  }

  /** No argument from `i` on takes a value. */
  predicate NoValueOptions(argv: seq<string>, i: nat)
  {
    forall j | i <= j < |argv| :: !TakesValue(argv[j])
  }

  /** Without value-taking options each switch is set exactly when some
      argument names it. */
  lemma {:induction false} ScanFlags(argv: seq<string>, i: nat, acc: CommandArgs, f: Flag)
    requires i <= |argv| && NoValueOptions(argv, i)
    ensures Has(Scan(argv, i, acc), f) <==> Has(acc, f) || exists j | i <= j < |argv| :: FlagOf(argv[j]) == Some(f)
    decreases |argv| - i
  {
    if i < |argv| {
      var step := Step(argv, i, acc);
      StepFlag(argv, i, acc, f);
      assert Scan(argv, i, acc) == Scan(argv, i + 1, step.0);
      ScanFlags(argv, i + 1, step.0, f);
      if exists j | i <= j < |argv| :: FlagOf(argv[j]) == Some(f) {
        var j :| i <= j < |argv| && FlagOf(argv[j]) == Some(f);
        assert j == i || i + 1 <= j < |argv|;
      }
    }
  }

  /** An argument that takes no value moves the scan on by one and sets
      exactly the switch it names. */
  lemma StepFlag(argv: seq<string>, i: nat, acc: CommandArgs, f: Flag)
    requires i < |argv| && !TakesValue(argv[i])
    ensures Step(argv, i, acc).1 == i + 1
    ensures Has(Step(argv, i, acc).0, f) <==> Has(acc, f) || FlagOf(argv[i]) == Some(f)
  {
  }

  /** Without value-taking options the command is the first positional
      argument and the input the second; the context stays unset. */
  lemma {:induction false} ScanPositionals(argv: seq<string>, i: nat, acc: CommandArgs)
    requires 1 <= i <= |argv| && NoValueOptions(argv, i)
    requires acc.command == Nth(Positionals(argv[1..i]), 0) && acc.input == Nth(Positionals(argv[1..i]), 1)
    ensures var r := Scan(argv, i, acc);
            r.command == Nth(Positionals(argv[1..]), 0) && r.input == Nth(Positionals(argv[1..]), 1) && r.context == acc.context
    decreases |argv| - i
  {
    if i == |argv| {
      assert argv[1..i] == argv[1..];
    } else {
      var step := Step(argv, i, acc);
      StepPositional(argv, i, acc);
      assert Scan(argv, i, acc) == Scan(argv, i + 1, step.0);
      assert argv[1..i + 1][..i - 1] == argv[1..i];
      assert argv[1..i + 1][i - 1] == argv[i];
      var before := Positionals(argv[1..i]);
      assert Positionals(argv[1..i + 1]) == before + (if IsPositional(argv[i]) then [argv[i]] else []);
      assert acc.command.None? <==> |before| == 0;
      assert acc.input.None? <==> |before| <= 1;
      ScanPositionals(argv, i + 1, step.0);
    }
  }

  /** An argument that takes no value fills the command, then the input,
      when it is positional, and leaves the context alone. */
  lemma StepPositional(argv: seq<string>, i: nat, acc: CommandArgs)
    requires i < |argv| && !TakesValue(argv[i])
    ensures var r := Step(argv, i, acc).0;
            Step(argv, i, acc).1 == i + 1 && r.context == acc.context
            && r.command == (if IsPositional(argv[i]) && acc.command.None? then Some(argv[i]) else acc.command)
            && r.input == (if IsPositional(argv[i]) && acc.command.Some? && acc.input.None? then Some(argv[i]) else acc.input)
  {
  }

  // ---------------------------------------------------------------------
  // Meaning for any argument list

  /** What the loop makes of each argument: a switch, an -i or -x with the
      argument it consumes, a positional argument, or one it ignores (an
      unknown option, or a value option with nothing after it). */
  datatype Token = FlagTok(flag: Flag) | InputTok(value: string) | ContextTok(value: string) | PosTok(value: string) | Ignored

  /** The arguments from `i` on, split the way the loop consumes them. */
  function Lex(argv: seq<string>, i: nat): seq<Token>
    decreases |argv| - i
  {
    if i >= |argv| then []
    else
      var a := argv[i];
      if FlagOf(a).Some? then [FlagTok(FlagOf(a).value)] + Lex(argv, i + 1)
      else if (a == "--input" || a == "-i") && i + 1 < |argv| then [InputTok(argv[i + 1])] + Lex(argv, i + 2)
      else if (a == "--context" || a == "-x") && i + 1 < |argv| then [ContextTok(argv[i + 1])] + Lex(argv, i + 2)
      else if !TakesValue(a) && IsPositional(a) then [PosTok(a)] + Lex(argv, i + 1)
      else [Ignored] + Lex(argv, i + 1)
  }

  /** The positional arguments among the tokens, in order. */
  function PosValues(toks: seq<Token>): seq<string>
  {
    if |toks| == 0 then []
    else PosValues(toks[..|toks| - 1]) + (if toks[|toks| - 1].PosTok? then [toks[|toks| - 1].value] else [])
  }

  /** The value of the last -i/--input, if any. */
  function LastInput(toks: seq<Token>): Option<string>
  {
    if |toks| == 0 then None
    else if toks[|toks| - 1].InputTok? then Some(toks[|toks| - 1].value)
    else LastInput(toks[..|toks| - 1])
  }

  /** The value of the last -x/--context, if any. */
  function LastContext(toks: seq<Token>): Option<string>
  {
    if |toks| == 0 then None
    else if toks[|toks| - 1].ContextTok? then Some(toks[|toks| - 1].value)
    else LastContext(toks[..|toks| - 1])
  }

  /** What the arguments mean: each switch is on exactly when some token
      names it; the command is the first positional argument; the input is
      the last -i value, or the second positional argument when there is
      no -i at all; the context is the last -x value. */
  function Meaning(toks: seq<Token>): CommandArgs
  {
    CommandArgs(FlagTok(Help) in toks, FlagTok(Version) in toks, FlagTok(Tests) in toks, FlagTok(ShowConfig) in toks,
                if LastInput(toks).Some? then LastInput(toks) else Nth(PosValues(toks), 1),
                LastContext(toks),
                Nth(PosValues(toks), 0))
  }

  /** How the loop body changes the structure for one token. */
  function ApplyTok(acc: CommandArgs, t: Token): CommandArgs
  {
    match t
    case FlagTok(f) => Set(acc, f)
    case InputTok(v) => acc.(input := Some(v))
    case ContextTok(v) => acc.(context := Some(v))
    case PosTok(a) =>
      if acc.command.None? then acc.(command := Some(a))
      else if acc.input.None? then acc.(input := Some(a))
      else acc
    case Ignored => acc
  }

  function ApplyAll(toks: seq<Token>, acc: CommandArgs): CommandArgs
  {
    if |toks| == 0 then acc else ApplyAll(toks[1..], ApplyTok(acc, toks[0]))
  }

  /** One loop step is the token at `i` applied. */
  lemma StepIsToken(argv: seq<string>, i: nat, acc: CommandArgs)
    requires i < |argv|
    ensures var lexed := Lex(argv, i);
            |lexed| > 0 && Step(argv, i, acc).0 == ApplyTok(acc, lexed[0])
            && lexed[1..] == Lex(argv, Step(argv, i, acc).1)
  {
    var a := argv[i];
    if FlagOf(a).Some? {
      assert Lex(argv, i) == [FlagTok(FlagOf(a).value)] + Lex(argv, i + 1);
    } else if TakesValue(a) && i + 1 < |argv| {
      assert Step(argv, i, acc).1 == i + 2;
    } else if !TakesValue(a) && IsPositional(a) {
      assert Lex(argv, i) == [PosTok(a)] + Lex(argv, i + 1);
    } else {
      assert Lex(argv, i) == [Ignored] + Lex(argv, i + 1);
    }
  }

  /** The loop applies the tokens in order. */
  lemma {:induction false} ScanIsApply(argv: seq<string>, i: nat, acc: CommandArgs)
    ensures Scan(argv, i, acc) == ApplyAll(Lex(argv, i), acc)
    decreases |argv| - i
  {
    if i < |argv| {
      var step := Step(argv, i, acc);
      StepIsToken(argv, i, acc);
      ScanIsApply(argv, step.1, step.0);
    }
  }

  lemma {:induction false} ApplyAllSnoc(toks: seq<Token>, t: Token, acc: CommandArgs)
    ensures ApplyAll(toks + [t], acc) == ApplyTok(ApplyAll(toks, acc), t)
    decreases |toks|
  {
    if |toks| > 0 {
      assert (toks + [t])[1..] == toks[1..] + [t];
      ApplyAllSnoc(toks[1..], t, ApplyTok(acc, toks[0]));
    }
  }

  /** Applying the tokens to the zeroed structure gives their meaning. */
  lemma {:induction false} ApplyMeaning(toks: seq<Token>)
    ensures ApplyAll(toks, Zeroed()) == Meaning(toks)
    decreases |toks|
  {
    if |toks| > 0 {
      var pre, t := toks[..|toks| - 1], toks[|toks| - 1];
      assert toks == pre + [t];
      ApplyMeaning(pre);
      ApplyAllSnoc(pre, t, Zeroed());
      MeaningSnoc(pre, t);
    }
  }

  /** The meaning of one more token is that token applied to the meaning
      of those before it. */
  lemma MeaningSnoc(pre: seq<Token>, t: Token)
    ensures Meaning(pre + [t]) == ApplyTok(Meaning(pre), t)
  {
    var toks := pre + [t];
    assert toks[..|toks| - 1] == pre && toks[|toks| - 1] == t;
    var pv := PosValues(pre);
    assert PosValues(toks) == pv + (if t.PosTok? then [t.value] else []);
    assert forall u :: u in toks <==> u in pre || u == t;
    if t.PosTok? {
      assert Nth(pv + [t.value], 0) == (if |pv| == 0 then Some(t.value) else Nth(pv, 0));
      assert Nth(pv + [t.value], 1) == (if |pv| == 1 then Some(t.value) else Nth(pv, 1));
    }
  }

  datatype Parsed = Parsed(code: int, args: CommandArgs)

  /** parse_command_args (`target` is false for a NULL structure pointer):
      the structure is zeroed and the arguments after the program name
      scanned once; the result is what those arguments mean. */
  function ParseCommandArgs(argv: seq<string>, target: bool): (r: Parsed)
    ensures r.code == 0 || r.code == -1
    ensures r.code == -1 <==> !target
    ensures r.code == -1 ==> r.args == Zeroed()
    ensures r.code == 0 ==> r.args == Meaning(Lex(argv, 1))
    ensures r.code == 0 && |argv| >= 1 && NoValueOptions(argv, 1) ==>
              (forall f :: Has(r.args, f) <==> exists j | 1 <= j < |argv| :: FlagOf(argv[j]) == Some(f))
              && r.args.command == Nth(Positionals(argv[1..]), 0)
              && r.args.input == Nth(Positionals(argv[1..]), 1)
              && r.args.context.None?
  {
    if !target then Parsed(-1, Zeroed())
    else
      var r := Parsed(0, Scan(argv, 1, Zeroed()));
      ScanIsApply(argv, 1, Zeroed());
      ApplyMeaning(Lex(argv, 1));
      if |argv| >= 1 && NoValueOptions(argv, 1) then
        assert argv[1..1] == [];
        ScanPositionals(argv, 1, Zeroed());
        assert forall f :: Has(r.args, f) <==> exists j | 1 <= j < |argv| :: FlagOf(argv[j]) == Some(f) by {
          forall f ensures Has(r.args, f) <==> exists j | 1 <= j < |argv| :: FlagOf(argv[j]) == Some(f) {
            ScanFlags(argv, 1, Zeroed(), f);
          }
        }
        r
      else r
  }

  /** An -i after two positional arguments replaces the input the second
      one set; the second positional after an -i is dropped. */
  lemma InputOptionWins(program: string, a: string, b: string, x: string)
    requires IsPositional(a) && IsPositional(b) && !TakesValue(a) && !TakesValue(b)
    requires FlagOf(a).None? && FlagOf(b).None?
    ensures ParseCommandArgs([program, a, b, "-i", x], true).args == Zeroed().(command := Some(a), input := Some(x))
    ensures ParseCommandArgs([program, "-i", x, a, b], true).args == Zeroed().(command := Some(a), input := Some(x))
  {
    LexTwoAndInput(program, a, b, x);
    MeaningTwoAndInput(a, b, x);
  }

  lemma LexTwoAndInput(program: string, a: string, b: string, x: string)
    requires IsPositional(a) && IsPositional(b) && !TakesValue(a) && !TakesValue(b)
    requires FlagOf(a).None? && FlagOf(b).None?
    ensures Lex([program, a, b, "-i", x], 1) == [PosTok(a), PosTok(b), InputTok(x)]
    ensures Lex([program, "-i", x, a, b], 1) == [InputTok(x), PosTok(a), PosTok(b)]
  {
    assert FlagOf("-i").None?;
    var argv := [program, a, b, "-i", x];
    assert Lex(argv, 3) == [InputTok(x)];
    assert Lex(argv, 2) == [PosTok(b), InputTok(x)];
    var argv2 := [program, "-i", x, a, b];
    assert Lex(argv2, 4) == [PosTok(b)];
    assert Lex(argv2, 3) == [PosTok(a), PosTok(b)];
  }

  lemma MeaningTwoAndInput(a: string, b: string, x: string)
    ensures Meaning([PosTok(a), PosTok(b), InputTok(x)]) == Zeroed().(command := Some(a), input := Some(x))
    ensures Meaning([InputTok(x), PosTok(a), PosTok(b)]) == Zeroed().(command := Some(a), input := Some(x))
  {
    var pa, pb, ix := PosTok(a), PosTok(b), InputTok(x);
    MeaningSnoc([], pa);
    MeaningSnoc([pa], pb);
    MeaningSnoc([pa, pb], ix);
    MeaningSnoc([], ix);
    MeaningSnoc([ix], pa);
    MeaningSnoc([ix, pa], pb);
    assert Meaning([]) == Zeroed();
    assert [] + [pa] == [pa] && [pa] + [pb] == [pa, pb] && [pa, pb] + [ix] == [pa, pb, ix];
    assert [] + [ix] == [ix] && [ix] + [pa] == [ix, pa] && [ix, pa] + [pb] == [ix, pa, pb];
  }

  /** A value option takes the next argument whatever it looks like, and
      one with nothing after it is ignored. */
  lemma ValueOptionsConsume(program: string, opt: string, x: string)
    requires opt == "-i" || opt == "--input"
    ensures var r := ParseCommandArgs([program, opt, x], true).args;
            r == Zeroed().(input := Some(x))
    ensures ParseCommandArgs([program, opt], true).args == Zeroed()
    ensures ParseCommandArgs([program, "-x"], true).args == Zeroed()
  {
    assert FlagOf(opt).None? && FlagOf("-x").None?;
    var argv := [program, opt, x];
    assert Step(argv, 1, Zeroed()) == (Zeroed().(input := Some(x)), 3);
    assert Scan(argv, 3, Zeroed().(input := Some(x))) == Zeroed().(input := Some(x));
    assert Step([program, opt], 1, Zeroed()) == (Zeroed(), 2);
    assert Scan([program, opt], 2, Zeroed()) == Zeroed();
    assert Step([program, "-x"], 1, Zeroed()) == (Zeroed(), 2);
    assert Scan([program, "-x"], 2, Zeroed()) == Zeroed();
  }
}
