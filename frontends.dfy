/** The two front ends around the evaluator. InteractiveCalculator reads lines,
    trims them and stops at QUIT; QuickCalculator takes its command-line
    arguments as they are. Each keeps one calculator and one register set for
    its whole session, so a line sees what the lines before it left behind. */
module Frontends {
  import opened Outcomes
  import F = BigFractions
  import R = Registers
  import Text
  import Calculators
  import E = Evaluator

  /** What a session carries from one line to the next: the calculator's
      value and the contents of the register set. */
  datatype Session = Session(lastValue: F.BigFraction, regs: seq<F.BigFraction>)

  predicate Valid(s: Session) {
    |s.regs| == R.RegisterCount
  }

  /** A fresh calculator and a fresh register set. */
  function Start(): (s: Session)
    ensures Valid(s) && s.lastValue == F.Zero
    ensures forall c :: R.IsRegister(c) ==> R.Lookup(s.regs, c) == Ok(F.Zero)
  {
    Session(F.Zero, R.Initial())
  }

  /** What one line leads to: a line of output, an exception nobody catches
      (which ends the program), or the end of the interactive loop. */
  datatype LineResult = Printed(text: string) | Uncaught(error: Error) | Quit

  const StorePrefix := "STORE "
  const InvalidExpression := "*** ERROR [Invalid expression] ***"
  const InvalidRegister := "*** ERROR [STORE command received invalid register] ***"
  const Stored := "STORED"
  const Arrow := " -> "
  const Failed := ": FAILED [Invalid expression]"

  /** `s.startsWith(prefix)` */
  predicate StartsWith(s: string, prefix: string) {
    |prefix| <= |s| && s[..|prefix|] == prefix
  }

  /** `input.equalsIgnoreCase("QUIT")`. Beyond the two cases of each ASCII
      letter, Java's case-insensitive comparison also equates 'I' with the
      dotted capital I (U+0130) and the dotless small i (U+0131). */
  predicate IsQuit(input: string) {
    && |input| == 4
    && (input[0] == 'Q' || input[0] == 'q')
    && (input[1] == 'U' || input[1] == 'u')
    && (input[2] == 'I' || input[2] == 'i' || input[2] == '\U{0130}' || input[2] == '\U{0131}')
    && (input[3] == 'T' || input[3] == 't')
  }

  /** QUIT in any letter case ends the interactive loop; nothing longer or shorter does. */
  lemma ExampleQuit()
    ensures IsQuit("QUIT") && IsQuit("quit") && IsQuit("qUiT") && IsQuit("QU\U{0131}T")
    ensures !IsQuit("QUIT ") && !IsQuit("QUI") && !IsQuit("EXIT")
  {
  }

  /** The session after a STORE line: a valid line copies the calculator's
      value into the register it names and changes nothing else. */
  function AfterStore(line: string, s: Session): (t: Session)
    requires Valid(s)
    ensures Valid(t) && t.lastValue == s.lastValue
    ensures E.StoreTarget(line).Some? ==> R.Lookup(t.regs, E.StoreTarget(line).value) == Ok(s.lastValue)
    ensures forall c :: E.StoreTarget(line) != Some(c) ==> R.Lookup(t.regs, c) == R.Lookup(s.regs, c)
  {
    var target := E.StoreTarget(line);
    if target.Some? then Session(s.lastValue, R.Stored(s.regs, target.value, s.lastValue)) else s
  }

  /** One pass of the interactive loop on a line as it was read: the line is
      trimmed first. */
  function InteractiveStep(line: string, s: Session): (r: (LineResult, Session))
    requires Valid(s)
    ensures Valid(r.1)
  {
    InteractiveCommand(Text.Trim(line), s)
  }

  /** The interactive handling of a trimmed line. Only an
      IllegalArgumentException is caught, and its message is printed. */
  function InteractiveCommand(input: string, s: Session): (r: (LineResult, Session))
    requires Valid(s)
    ensures Valid(r.1)
  {
    if IsQuit(input) then (Quit, s)
    else if StartsWith(input, StorePrefix) then
      (Printed(if E.StoreTarget(input).Some? then Stored else InvalidRegister), AfterStore(input, s))
    else
      var ev := E.Evaluate(input, s.lastValue, s.regs);
      var shown :=
        if ev.outcome.Ok? then Printed(E.FormatOutput(ev.outcome.value))
        else if ev.outcome.error == Invalid then Printed(InvalidExpression)
        else Uncaught(ev.outcome.error);
      (shown, Session(ev.lastValue, s.regs))
  }

  /** The handling of one command-line argument, which is not trimmed. */
  function QuickStep(arg: string, s: Session): (r: (LineResult, Session))
    requires Valid(s)
    ensures Valid(r.1) && !r.0.Quit?
  {
    if StartsWith(arg, StorePrefix) then
      (Printed(if E.StoreTarget(arg).Some? then arg + Arrow + Stored else arg + Failed), AfterStore(arg, s))
    else
      var ev := E.Evaluate(arg, s.lastValue, s.regs);
      var shown :=
        if ev.outcome.Ok? then Printed(arg + Arrow + E.FormatOutput(ev.outcome.value))
        else if ev.outcome.error == Invalid then Printed(arg + Failed)
        else Uncaught(ev.outcome.error);
      (shown, Session(ev.lastValue, s.regs))
  }

  // ---------------------------------------------------------------------
  // Whole sessions

  /** How a session ends: its input runs out, QUIT is read, or an uncaught
      exception stops the program. */
  datatype Ending = Exhausted | Quitted | Crashed(error: Error)

  /** The lines a session prints, how it ends and the state it ends in. */
  datatype Run = Run(lines: seq<string>, ending: Ending, final: Session)

  /** A run that printed `done` before carrying on as r. */
  function After(done: seq<string>, r: Run): Run {
    Run(done + r.lines, r.ending, r.final)
  }

  /** The command-line calculator over its arguments, from session s. */
  function QuickRun(args: seq<string>, s: Session): (r: Run)
    requires Valid(s)
    ensures Valid(r.final) && r.ending != Quitted
    ensures |r.lines| <= |args|
    ensures r.ending == Exhausted ==> |r.lines| == |args|
    decreases |args|
  {
    if args == [] then Run([], Exhausted, s)
    else
      var step := QuickStep(args[0], s);
      if step.0.Uncaught? then Run([], Crashed(step.0.error), step.1)
      else After([step.0.text], QuickRun(args[1..], step.1))
  }

  /** The interactive loop over the lines it reads, from session s. */
  function InteractiveRun(lines: seq<string>, s: Session): (r: Run)
    requires Valid(s)
    ensures Valid(r.final) && |r.lines| <= |lines|
    ensures r.ending == Exhausted ==> |r.lines| == |lines|
    decreases |lines|
  {
    if lines == [] then Run([], Exhausted, s)
    else
      var step := InteractiveStep(lines[0], s);
      if step.0.Quit? then Run([], Quitted, step.1)
      else if step.0.Uncaught? then Run([], Crashed(step.0.error), step.1)
      else After([step.0.text], InteractiveRun(lines[1..], step.1))
  }

  /** One argument of QuickCalculator's loop, on the shared objects. */
  method QuickLine(arg: string, calculator: Calculators.BFCalculator, registers: R.BFRegisterSet)
      returns (r: LineResult)
    requires registers.Valid()
    modifies calculator, registers.registers
    ensures (r, Session(calculator.lastValue, registers.Contents()))
         == QuickStep(arg, Session(old(calculator.lastValue), old(registers.Contents())))
  {
    if StartsWith(arg, StorePrefix) {
      var ok := E.HandleStore(arg, registers, calculator);
      r := Printed(if ok then arg + Arrow + Stored else arg + Failed);
    } else {
      var result := E.EvaluateExpression(arg, calculator, registers);
      if result.Ok? {
        r := Printed(arg + Arrow + E.FormatOutput(result.value));
      } else if result.error == Invalid {
        r := Printed(arg + Failed);
      } else {
        r := Uncaught(result.error);
      }
    }
  }

  /** One pass of InteractiveCalculator's loop, on the shared objects. */
  method InteractiveLine(line: string, calculator: Calculators.BFCalculator, registers: R.BFRegisterSet)
      returns (r: LineResult)
    requires registers.Valid()
    modifies calculator, registers.registers
    ensures (r, Session(calculator.lastValue, registers.Contents()))
         == InteractiveStep(line, Session(old(calculator.lastValue), old(registers.Contents())))
  {
    var input := Text.Trim(line);
    if IsQuit(input) {
      r := Quit;
    } else if StartsWith(input, StorePrefix) {
      var ok := E.HandleStore(input, registers, calculator);
      r := Printed(if ok then Stored else InvalidRegister);
    } else {
      var result := E.EvaluateExpression(input, calculator, registers);
      if result.Ok? {
        r := Printed(E.FormatOutput(result.value));
      } else if result.error == Invalid {
        r := Printed(InvalidExpression);
      } else {
        r := Uncaught(result.error);
      }
    }
  }

  /** QuickCalculator's `main`: one calculator and one register set serve
      every argument in turn. */
  method RunQuick(args: seq<string>) returns (lines: seq<string>, ending: Ending)
    ensures lines == QuickRun(args, Start()).lines
    ensures ending == QuickRun(args, Start()).ending
  {
    var calculator := new Calculators.BFCalculator();
    var registers := new R.BFRegisterSet();
    ghost var whole := QuickRun(args, Start());
    lines := [];
    var i := 0;
    while i < |args|
      invariant 0 <= i <= |args|
      invariant registers.Valid() && fresh(registers.registers)
      invariant After(lines, QuickRun(args[i..], Session(calculator.lastValue, registers.Contents()))) == whole
      decreases |args| - i
    {
      ghost var before := Session(calculator.lastValue, registers.Contents());
      var r := QuickLine(args[i], calculator, registers);
      ghost var after := Session(calculator.lastValue, registers.Contents());
      if r.Uncaught? {
        QuickStops(args, i, lines, before, r, after, whole);
        return lines, Crashed(r.error);
      }
      QuickAdvance(args, i, lines, before, r, after, whole);
      lines := lines + [r.text];
      i := i + 1;
    }
    ending := Exhausted;
  }

  lemma AfterNothing(a: seq<string>, e: Ending, t: Session)
    ensures After(a, Run([], e, t)) == Run(a, e, t)
  {
    assert a + [] == a;
  }

  lemma AfterAfter(a: seq<string>, b: seq<string>, r: Run)
    ensures After(a + b, r) == After(a, After(b, r))
  {
    assert (a + b) + r.lines == a + (b + r.lines);
  }

  /** The interactive run from line i is the step on that line followed by the rest. */
  lemma InteractiveRunStep(lines: seq<string>, i: nat, s: Session, r: LineResult, t: Session)
    requires Valid(s) && i < |lines| && InteractiveStep(lines[i], s) == (r, t)
    ensures Valid(t)
    ensures r.Quit? ==> InteractiveRun(lines[i..], s) == Run([], Quitted, t)
    ensures r.Uncaught? ==> InteractiveRun(lines[i..], s) == Run([], Crashed(r.error), t)
    ensures r.Printed? ==> InteractiveRun(lines[i..], s) == After([r.text], InteractiveRun(lines[i + 1..], t))
  {
    assert lines[i..][0] == lines[i] && lines[i..][1..] == lines[i + 1..];
  }

  /** The quick run from argument i is the step on that argument followed by the rest. */
  lemma QuickRunStep(args: seq<string>, i: nat, s: Session, r: LineResult, t: Session)
    requires Valid(s) && i < |args| && QuickStep(args[i], s) == (r, t)
    ensures Valid(t)
    ensures r.Uncaught? ==> QuickRun(args[i..], s) == Run([], Crashed(r.error), t)
    ensures r.Printed? ==> QuickRun(args[i..], s) == After([r.text], QuickRun(args[i + 1..], t))
  {
    assert args[i..][0] == args[i] && args[i..][1..] == args[i + 1..];
  }

  /** A printed line extends the output and leaves the rest of the run to come. */
  lemma InteractiveAdvance(input: seq<string>, i: nat, lines: seq<string>, s: Session, r: LineResult, t: Session, whole: Run)
    requires Valid(s) && i < |input| && InteractiveStep(input[i], s) == (r, t) && r.Printed?
    requires After(lines, InteractiveRun(input[i..], s)) == whole
    ensures Valid(t) && After(lines + [r.text], InteractiveRun(input[i + 1..], t)) == whole
  {
    InteractiveRunStep(input, i, s, r, t);
    AfterAfter(lines, [r.text], InteractiveRun(input[i + 1..], t));
  }

  /** QUIT or an uncaught exception ends the run with the output so far. */
  lemma InteractiveStops(input: seq<string>, i: nat, lines: seq<string>, s: Session, r: LineResult, t: Session, whole: Run)
    requires Valid(s) && i < |input| && InteractiveStep(input[i], s) == (r, t) && !r.Printed?
    requires After(lines, InteractiveRun(input[i..], s)) == whole
    ensures whole.lines == lines
    ensures whole.ending == if r.Quit? then Quitted else Crashed(r.error)
  {
    InteractiveRunStep(input, i, s, r, t);
    AfterNothing(lines, if r.Quit? then Quitted else Crashed(r.error), t);
  }

  /** A printed argument extends the output and leaves the rest of the run to come. */
  lemma QuickAdvance(args: seq<string>, i: nat, lines: seq<string>, s: Session, r: LineResult, t: Session, whole: Run)
    requires Valid(s) && i < |args| && QuickStep(args[i], s) == (r, t) && r.Printed?
    requires After(lines, QuickRun(args[i..], s)) == whole
    ensures Valid(t) && After(lines + [r.text], QuickRun(args[i + 1..], t)) == whole
  {
    QuickRunStep(args, i, s, r, t);
    AfterAfter(lines, [r.text], QuickRun(args[i + 1..], t));
  }

  /** An uncaught exception ends the quick run with the output so far. */
  lemma QuickStops(args: seq<string>, i: nat, lines: seq<string>, s: Session, r: LineResult, t: Session, whole: Run)
    requires Valid(s) && i < |args| && QuickStep(args[i], s) == (r, t) && r.Uncaught?
    requires After(lines, QuickRun(args[i..], s)) == whole
    ensures whole.lines == lines && whole.ending == Crashed(r.error)
  {
    QuickRunStep(args, i, s, r, t);
    AfterNothing(lines, Crashed(r.error), t);
  }

  /** InteractiveCalculator's `main` over the lines it reads. */
  method RunInteractive(input: seq<string>) returns (lines: seq<string>, ending: Ending)
    ensures lines == InteractiveRun(input, Start()).lines
    ensures ending == InteractiveRun(input, Start()).ending
  {
    var calculator := new Calculators.BFCalculator();
    var registers := new R.BFRegisterSet();
    ghost var whole := InteractiveRun(input, Start());
    lines := [];
    var i := 0;
    while i < |input|
      invariant 0 <= i <= |input|
      invariant registers.Valid() && fresh(registers.registers)
      invariant After(lines, InteractiveRun(input[i..], Session(calculator.lastValue, registers.Contents()))) == whole
      decreases |input| - i
    {
      ghost var before := Session(calculator.lastValue, registers.Contents());
      var r := InteractiveLine(input[i], calculator, registers);
      ghost var after := Session(calculator.lastValue, registers.Contents());
      if r.Quit? {
        InteractiveStops(input, i, lines, before, r, after, whole);
        return lines, Quitted;
      }
      if r.Uncaught? {
        InteractiveStops(input, i, lines, before, r, after, whole);
        return lines, Crashed(r.error);
      }
      InteractiveAdvance(input, i, lines, before, r, after, whole);
      lines := lines + [r.text];
      i := i + 1;
    }
    ending := Exhausted;
  }

  // ---------------------------------------------------------------------
  // Properties of the front ends

  /** The interactive loop trims each line, so a line and its trimmed form act alike. */
  lemma InteractiveTrims(line: string, s: Session)
    requires Valid(s)
    ensures InteractiveStep(Text.Trim(line), s) == InteractiveStep(line, s)
  {
    Text.TrimIdempotent(line);
  }

  /** Trimming leaves no line of spaces only, so the interactive loop never
      meets the out-of-bounds access. */
  lemma InteractiveNeverOutOfBounds(line: string, s: Session)
    requires Valid(s)
    ensures InteractiveStep(line, s).0 != Uncaught(OutOfBounds)
  {
    var input := Text.Trim(line);
    E.EvaluateOutOfBounds(input, s.lastValue, s.regs);
    Text.TrimShape(line);
    if |input| > 0 {
      assert !Text.IsTrimmed(input[0]);
    }
  }

  /** The command-line calculator crashes with an out-of-bounds access exactly
      on a nonempty argument of spaces only. */
  lemma QuickOutOfBounds(arg: string, s: Session)
    requires Valid(s)
    ensures QuickStep(arg, s).0 == Uncaught(OutOfBounds)
        <==> |arg| > 0 && forall k :: 0 <= k < |arg| ==> arg[k] == ' '
  {
    E.EvaluateOutOfBounds(arg, s.lastValue, s.regs);
    if StartsWith(arg, StorePrefix) {
      assert arg[0] == arg[..|StorePrefix|][0] == 'S';
    }
  }

  /** Without a '/' an argument can only crash the command-line calculator by
      being all spaces. */
  lemma QuickCrashNeedsSlash(arg: string, s: Session)
    requires Valid(s) && '/' !in arg
    ensures QuickStep(arg, s).0.Uncaught?
        <==> |arg| > 0 && forall k :: 0 <= k < |arg| ==> arg[k] == ' '
  {
    QuickOutOfBounds(arg, s);
    E.NoSlashNoDivByZero(arg, s.lastValue, s.regs);
  }

  /** On a line that needs no trimming and is not QUIT, both front ends reach the
      same session, print in the same cases and crash with the same exception. */
  lemma FrontEndsAgree(line: string, s: Session)
    requires Valid(s) && Text.Trim(line) == line && !IsQuit(line)
    ensures InteractiveStep(line, s).1 == QuickStep(line, s).1
    ensures InteractiveStep(line, s).0.Printed? <==> QuickStep(line, s).0.Printed?
    ensures InteractiveStep(line, s).0.Uncaught? ==> InteractiveStep(line, s).0 == QuickStep(line, s).0
  {
  }

  /** A valid STORE argument copies the calculator's value into its register. */
  lemma QuickStoreLine(c: char, s: Session)
    requires Valid(s) && R.IsRegister(c)
    ensures QuickStep(StorePrefix + [c], s)
         == (Printed(StorePrefix + [c] + Arrow + Stored), Session(s.lastValue, R.Stored(s.regs, c, s.lastValue)))
  {
    E.StoreTargetShape([c]);
    assert (StorePrefix + [c])[..|StorePrefix|] == StorePrefix;
  }

  /** The state persists across arguments: running a + b runs a, then runs b
      from where a left the calculator and the registers, unless a crashed. */
  lemma {:induction false} QuickRunAppend(a: seq<string>, b: seq<string>, s: Session)
    requires Valid(s)
    ensures var first := QuickRun(a, s);
      QuickRun(a + b, s) == if first.ending.Crashed? then first else After(first.lines, QuickRun(b, first.final))
    decreases |a|
  {
    if a == [] {
      assert a + b == b;
      assert [] + QuickRun(b, s).lines == QuickRun(b, s).lines;
    } else {
      assert (a + b)[0] == a[0] && (a + b)[1..] == a[1..] + b;
      var step := QuickStep(a[0], s);
      if !step.0.Uncaught? {
        QuickRunAppend(a[1..], b, step.1);
        var first := QuickRun(a[1..], step.1);
        if !first.ending.Crashed? {
          AfterAfter([step.0.text], first.lines, QuickRun(b, first.final));
        }
      }
    }
  }

  /** The same for the interactive loop, which also stops for good at QUIT. */
  lemma {:induction false} InteractiveRunAppend(a: seq<string>, b: seq<string>, s: Session)
    requires Valid(s)
    ensures var first := InteractiveRun(a, s);
      InteractiveRun(a + b, s) == if first.ending != Exhausted then first else After(first.lines, InteractiveRun(b, first.final))
    decreases |a|
  {
    if a == [] {
      assert a + b == b;
      assert [] + InteractiveRun(b, s).lines == InteractiveRun(b, s).lines;
    } else {
      assert (a + b)[0] == a[0] && (a + b)[1..] == a[1..] + b;
      var step := InteractiveStep(a[0], s);
      if step.0.Printed? {
        InteractiveRunAppend(a[1..], b, step.1);
        var first := InteractiveRun(a[1..], step.1);
        if first.ending == Exhausted {
          AfterAfter([step.0.text], first.lines, InteractiveRun(b, first.final));
        }
      }
    }
  }

  /** An invalid argument prints its failure line and keeps the value the
      failed evaluation left in the calculator. */
  lemma QuickInvalidLine(e: string, s: Session)
    requires Valid(s) && !StartsWith(e, StorePrefix)
    requires E.Evaluate(e, s.lastValue, s.regs).outcome == Err(Invalid)
    ensures QuickStep(e, s) == (Printed(e + Failed), Session(E.Evaluate(e, s.lastValue, s.regs).lastValue, s.regs))
  {
  }

  /** An argument that prints is followed by the run of the rest from where it left off. */
  lemma QuickRunCons(x: string, rest: seq<string>, s: Session, text: string, next: Session)
    requires Valid(s) && QuickStep(x, s) == (Printed(text), next)
    ensures QuickRun([x] + rest, s) == After([text], QuickRun(rest, next))
  {
    assert ([x] + rest)[0] == x && ([x] + rest)[1..] == rest;
  }

  /** An argument that fails as invalid after n good pairs leaves their fold w
      in the calculator, and a following `STORE c` saves exactly that w. */
  lemma QuickStoreAfterFailure(e: string, c: char, s: Session, tokens: seq<string>,
                               v: F.BigFraction, n: nat, w: F.BigFraction)
    requires Valid(s) && !StartsWith(e, StorePrefix) && R.IsRegister(c)
    requires !E.Rejected(e) && Text.Split(e, ' ') == tokens && 2 * n + 1 < |tokens|
    requires E.ParseValue(tokens[0], s.regs) == Ok(v)
    requires var vals := E.Operands(tokens, s.regs);
      && E.PairsOk(tokens, vals, 0, n) && E.LeftFold(v, E.Pairs(tokens, vals, 0, n)) == Ok(w)
      && (!E.PairOk(tokens, vals, n) || E.ApplyOp(E.Pair(tokens, vals, n).0, w, E.Pair(tokens, vals, n).1).Err?)
    requires E.Evaluate(e, s.lastValue, s.regs).outcome == Err(Invalid)
    ensures QuickRun([e, StorePrefix + [c]], s)
         == Run([e + Failed, StorePrefix + [c] + Arrow + Stored], Exhausted, Session(w, R.Stored(s.regs, c, w)))
  {
    E.EvaluateKeepsPrefix(e, s.lastValue, s.regs, tokens, E.Operands(tokens, s.regs), v, n, w);
    QuickInvalidLine(e, s);
    var s1 := Session(w, s.regs);
    var store := StorePrefix + [c];
    QuickStoreLine(c, s1);
    var s2 := Session(w, R.Stored(s.regs, c, w));
    QuickRunCons(e, [store], s, e + Failed, s1);
    QuickRunCons(store, [], s1, store + Arrow + Stored, s2);
    assert [e] + [store] == [e, store] && [store] + [] == [store];
  }
}
