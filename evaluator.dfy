/** The expression evaluator shared, in identical copies, by the interactive
    and the command-line front ends: `evaluateExpression`, `parseValue`,
    `formatOutput` and the STORE command. */
module Evaluator {
  import opened Outcomes
  import F = BigFractions
  import R = Registers
  import Text
  import Decimal
  import Calculators
  import Divisibility

  // ---------------------------------------------------------------------
  // The character classes and patterns the evaluator tests

  predicate IsOperatorChar(c: char) {
    c == '+' || c == '-' || c == '*' || c == '/'
  }

  /** The chars Java's regex `.` does not match. */
  predicate IsLineTerminator(c: char) {
    c == '\n' || c == '\r' || c == '\U{0085}' || c == '\U{2028}' || c == '\U{2029}'
  }

  // `s.matches(".*[+\\-*/]$")`: the last char is an operator and `.*`
  // can cover everything before it.
  predicate EndsWithOperator(s: string) {
    && |s| > 0
    && IsOperatorChar(s[|s| - 1])
    && forall i :: 0 <= i < |s| - 1 ==> !IsLineTerminator(s[i])
  }

  /** The pre-check made before the line is split. */
  predicate Rejected(s: string) {
    s == [] || EndsWithOperator(s)
  }

  /** `-?[0-9]+` */
  predicate IsSignedDigits(s: string) {
    Decimal.IsDigits(s) || (|s| > 1 && s[0] == '-' && Decimal.IsDigits(s[1..]))
  }

  function SignedValue(s: string): int
    requires IsSignedDigits(s)
  {
    if s[0] == '-' then -(Decimal.DigitsValue(s[1..]) as int) else Decimal.DigitsValue(s)
  }

  /** `token.matches("-?[0-9]+(/[0-9]+)?")` */
  predicate IsLiteral(t: string) {
    if '/' in t then
      var k := Text.IndexOf(t, '/');
      IsSignedDigits(t[..k]) && Decimal.IsDigits(t[k + 1..])
    else
      IsSignedDigits(t)
  }

  /** Character.isLetter, on ASCII. On ASCII, Character.isLowerCase is the
      register range 'a'..'z', so the model uses `R.IsRegister` for it. */
  predicate IsLetter(c: char) {
    'a' <= c <= 'z' || 'A' <= c <= 'Z'
  }

  // ---------------------------------------------------------------------
  // Operands and operators

  /** `parseValue`: a single letter names a register, which must be lowercase;
      anything else must be a literal. `regs` is the content of the register set. */
  function ParseValue(token: string, regs: seq<F.BigFraction>): (r: Result<F.BigFraction>)
    requires |regs| == R.RegisterCount
  {
    if |token| == 1 && IsLetter(token[0]) then
      if !R.IsRegister(token[0]) then Err(Invalid) else R.Lookup(regs, token[0])
    else if IsLiteral(token) then
      F.Parse(token)
    else
      Err(Invalid)
  }

  datatype Op = Plus | Minus | Times | Over

  /** The cases of the operator switch. */
  function OperatorOf(t: string): Option<Op> {
    if t == "+" then Some(Plus)
    else if t == "-" then Some(Minus)
    else if t == "*" then Some(Times)
    else if t == "/" then Some(Over)
    else None
  }

  /** The calculator operation an operator selects, applied to a running value. */
  function ApplyOp(op: Op, acc: F.BigFraction, v: F.BigFraction): Result<F.BigFraction> {
    match op
    case Plus => Ok(F.Add(acc, v))
    case Minus => Ok(F.Subtract(acc, v))
    case Times => Ok(F.Multiply(acc, v))
    case Over => F.Divide(acc, v)
  }

  // ---------------------------------------------------------------------
  // Evaluation

  /** What an evaluation returns or throws, and the value it leaves in the calculator. */
  datatype Evaluation = Evaluation(outcome: Result<F.BigFraction>, lastValue: F.BigFraction)

  /** The loop of `evaluateExpression` from token i on, with the calculator at
      acc; vals[k] is what `parseValue` makes of token k. A step resolves the
      operand before it looks at the operator. */
  function Steps(acc: F.BigFraction, tokens: seq<string>, vals: seq<Result<F.BigFraction>>, i: nat): (r: Evaluation)
    requires |vals| == |tokens|
    ensures r.outcome.Ok? ==> r.outcome.value == r.lastValue
    decreases |tokens| - i
  {
    if i >= |tokens| then Evaluation(Ok(acc), acc)
    else if i + 1 >= |tokens| then Evaluation(Err(Invalid), acc)
    else match vals[i + 1]
      case Err(e) => Evaluation(Err(e), acc)
      case Ok(v) =>
        match OperatorOf(tokens[i])
        case None => Evaluation(Err(Invalid), acc)
        case Some(op) =>
          match ApplyOp(op, acc, v)
          case Err(e) => Evaluation(Err(e), acc)
          case Ok(next) => Steps(next, tokens, vals, i + 2)
  }

  /** What `parseValue` makes of each token, in order. */
  function Operands(tokens: seq<string>, regs: seq<F.BigFraction>): (vals: seq<Result<F.BigFraction>>)
    requires |regs| == R.RegisterCount
    ensures |vals| == |tokens|
    decreases |tokens|
  {
    if tokens == [] then [] else [ParseValue(tokens[0], regs)] + Operands(tokens[1..], regs)
  }

  /** Entry k of the operand list is `parseValue` of token k. */
  lemma {:induction false} OperandAt(tokens: seq<string>, regs: seq<F.BigFraction>, k: nat)
    requires |regs| == R.RegisterCount && k < |tokens|
    ensures Operands(tokens, regs)[k] == ParseValue(tokens[k], regs)
    decreases k
  {
    if k > 0 {
      OperandAt(tokens[1..], regs, k - 1);
      assert tokens[1..][k - 1] == tokens[k];
    }
  }

  /** `evaluateExpression(input, calculator, registers)` with the calculator at current. */
  function Evaluate(input: string, current: F.BigFraction, regs: seq<F.BigFraction>): (r: Evaluation)
    requires |regs| == R.RegisterCount
    ensures r.outcome.Ok? ==> r.outcome.value == r.lastValue
  {
    if Rejected(input) then Evaluation(Err(Invalid), current)
    else
      var tokens := Text.Split(input, ' ');
      if |tokens| == 0 then Evaluation(Err(OutOfBounds), current)
      else match ParseValue(tokens[0], regs)
        case Err(e) => Evaluation(Err(e), current)
        case Ok(v) => Steps(F.Add(F.Zero, v), tokens, Operands(tokens, regs), 1)
  }

  /** `evaluateExpression`, on the calculator and register objects. */
  method EvaluateExpression(input: string, calculator: Calculators.BFCalculator, registers: R.BFRegisterSet)
      returns (r: Result<F.BigFraction>)
    requires registers.Valid()
    modifies calculator
    ensures Evaluation(r, calculator.lastValue)
         == Evaluate(input, old(calculator.lastValue), registers.Contents())
  {
    var regs := registers.Contents();
    if |input| == 0 || EndsWithOperator(input) {
      return Err(Invalid);
    }
    var tokens := Text.Split(input, ' ');
    if |tokens| == 0 {
      return Err(OutOfBounds);
    }
    var first := ParseValue(tokens[0], regs);
    if first.Err? {
      return Err(first.error);
    }
    calculator.Clear();
    calculator.Add(first.value);
    F.AddZeroLeft(first.value);
    EvaluateFrom(input, old(calculator.lastValue), regs, tokens, first.value);
    ghost var vals := Operands(tokens, regs);
    ghost var expected := Steps(first.value, tokens, vals, 1);
    var i := 1;
    while i < |tokens|
      invariant 1 <= i <= |tokens|
      invariant Steps(calculator.lastValue, tokens, vals, i) == expected
      decreases |tokens| - i
    {
      if i + 1 >= |tokens| {
        return Err(Invalid);
      }
      var operator := tokens[i];
      var nextValue := ParseValue(tokens[i + 1], regs);
      OperandAt(tokens, regs, i + 1);
      if nextValue.Err? {
        return Err(nextValue.error);
      }
      if operator == "+" {
        calculator.Add(nextValue.value);
      } else if operator == "-" {
        calculator.Subtract(nextValue.value);
      } else if operator == "*" {
        calculator.Multiply(nextValue.value);
      } else if operator == "/" {
        var s := calculator.Divide(nextValue.value);
        if s.Fail? {
          return Err(s.error);
        }
      } else {
        return Err(Invalid);
      }
      i := i + 2;
    }
    var value := calculator.Get();
    r := Ok(value);
  }

  // ---------------------------------------------------------------------
  // Output and STORE

  /** `formatOutput`: the numerator alone when the denominator is 1. */
  function FormatOutput(result: F.BigFraction): (s: string)
    ensures '/' in s <==> result.den != 1
  {
    F.IntTextShape(result.num);
    F.IntTextShape(result.den);
    if result.den == 1 then Decimal.IntToString(result.num)
    else
      var s := F.ToString(result);
      assert s[|Decimal.IntToString(result.num)|] == '/';
      s
  }

  /** The register a STORE line names when it is valid: the line splits into
      exactly two parts and the second is one lowercase letter. */
  function StoreTarget(line: string): (r: Option<char>)
    ensures r.Some? ==> R.IsRegister(r.value)
  {
    var parts := Text.Split(line, ' ');
    if |parts| == 2 && |parts[1]| == 1 && R.IsRegister(parts[1][0]) then Some(parts[1][0]) else None
  }

  /** The validity test and effect of `handleStoreCommand`: a valid line copies
      the calculator's value into the register; the calculator is untouched. */
  method HandleStore(line: string, registers: R.BFRegisterSet, calculator: Calculators.BFCalculator)
      returns (ok: bool)
    requires registers.Valid()
    modifies registers.registers
    ensures ok <==> StoreTarget(line).Some?
    ensures registers.Contents()
         == if ok then R.Stored(old(registers.Contents()), StoreTarget(line).value, calculator.lastValue)
            else old(registers.Contents())
    ensures calculator.lastValue == old(calculator.lastValue)
  {
    var parts := Text.Split(line, ' ');
    if |parts| != 2 || |parts[1]| != 1 || !R.IsRegister(parts[1][0]) {
      return false;
    }
    var register := parts[1][0];
    var value := calculator.Get();
    var _ := registers.Store(register, value);
    ok := true;
  }

  // ---------------------------------------------------------------------
  // The pre-check and the operators

  /** A line the pre-check refuses is Invalid, and the calculator is not touched. */
  lemma RejectedFails(input: string, current: F.BigFraction, regs: seq<F.BigFraction>)
    requires |regs| == R.RegisterCount && Rejected(input)
    ensures Evaluate(input, current, regs) == Evaluation(Err(Invalid), current)
  {
  }

  /** The operator tokens are exactly the one-char strings the pre-check
      looks for at the end of a line. */
  lemma OperatorOfTokens(t: string)
    ensures OperatorOf(t).Some? <==> |t| == 1 && IsOperatorChar(t[0])
  {
    if |t| == 1 && IsOperatorChar(t[0]) {
      assert t == [t[0]];
    }
  }

  /** Applying an operator fails only for division by a zero value, with
      DivByZero; otherwise its value is the rational operation on the values. */
  lemma ApplyOpOutcome(op: Op, acc: F.BigFraction, v: F.BigFraction)
    ensures ApplyOp(op, acc, v).Err? <==> op == Over && v.num == 0
    ensures ApplyOp(op, acc, v).Err? ==> ApplyOp(op, acc, v).error == DivByZero
    ensures ApplyOp(op, acc, v).Ok? ==> var w := F.Value(ApplyOp(op, acc, v).value);
      match op
      case Plus => w == F.Value(acc) + F.Value(v)
      case Minus => w == F.Value(acc) - F.Value(v)
      case Times => w == F.Value(acc) * F.Value(v)
      case Over => w == F.Value(acc) / F.Value(v)
  {
  }

  // ---------------------------------------------------------------------
  // Operand resolution

  /** A signed digit string is read by `new BigInteger` as its value, and trim leaves it alone. */
  lemma SignedDigitsParse(s: string)
    requires IsSignedDigits(s)
    ensures '/' !in s
    ensures Text.Trim(s) == s
    ensures Decimal.ParseInt(s) == Ok(SignedValue(s))
  {
    assert forall k :: 0 <= k < |s| ==> s[k] != '/' && !Text.IsTrimmed(s[k]) by {
      forall k | 0 <= k < |s| ensures s[k] != '/' && !Text.IsTrimmed(s[k]) {
        if k > 0 && s[0] == '-' { assert s[k] == s[1..][k - 1]; }
      }
    }
    Text.TrimUntrimmed(s);
  }

  /** A token matching the literal pattern is num or num/den, and the string
      constructor gives num/1 or the normalized num/den. */
  lemma LiteralParse(t: string)
    requires IsLiteral(t)
    ensures '/' !in t ==> F.Parse(t) == Ok(F.Fraction(SignedValue(t), 1))
    ensures '/' in t ==>
      var k := Text.IndexOf(t, '/');
      F.Parse(t) == F.Make(SignedValue(t[..k]), Decimal.DigitsValue(t[k + 1..]))
  {
    if '/' in t {
      var k := Text.IndexOf(t, '/');
      assert IsSignedDigits(t[..k]) && Decimal.IsDigits(t[k + 1..]);
      RatioLiteralParse(t, k, t[..k], t[k + 1..]);
    } else {
      WholeLiteralParse(t);
    }
  }

  lemma WholeLiteralParse(t: string)
    requires IsSignedDigits(t)
    ensures F.Parse(t) == Ok(F.Fraction(SignedValue(t), 1))
  {
    SignedDigitsParse(t);
    Divisibility.GcdOneRight(Divisibility.Abs(SignedValue(t)));
  }

  lemma RatioLiteralParse(t: string, k: nat, a: string, b: string)
    requires '/' in t && k == Text.IndexOf(t, '/') && a == t[..k] && b == t[k + 1..]
    requires IsSignedDigits(a) && Decimal.IsDigits(b)
    ensures F.Parse(t) == F.Make(SignedValue(a), Decimal.DigitsValue(b))
  {
    SignedDigitsParse(a);
    SignedDigitsParse(b);
    assert t == a + ['/'] + b;
    Text.SplitTwo(a, b, '/');
  }

  /** Literals fail only for a zero denominator, and then with division by zero. */
  lemma LiteralOutcome(t: string)
    requires IsLiteral(t)
    ensures F.Parse(t).Err? ==> F.Parse(t) == Err(DivByZero) && '/' in t
    ensures '/' in t ==> (F.Parse(t).Err? <==> Decimal.DigitsValue(t[Text.IndexOf(t, '/') + 1..]) == 0)
  {
    LiteralParse(t);
  }

  /** Resolving an operand is never an out-of-bounds access; it fails with
      division by zero only on a literal with a zero denominator. */
  lemma ParseValueErrors(token: string, regs: seq<F.BigFraction>)
    requires |regs| == R.RegisterCount
    ensures ParseValue(token, regs) != Err(OutOfBounds)
    ensures ParseValue(token, regs) == Err(DivByZero) ==> IsLiteral(token) && '/' in token
  {
    if IsLiteral(token) { LiteralOutcome(token); }
  }

  /** A single lowercase letter reads its register; a single uppercase letter is invalid. */
  lemma ParseValueRegister(c: char, regs: seq<F.BigFraction>)
    requires |regs| == R.RegisterCount
    ensures R.IsRegister(c) ==> ParseValue([c], regs) == Ok(regs[R.Slot(c)])
    ensures 'A' <= c <= 'Z' ==> ParseValue([c], regs) == Err(Invalid)
  {
  }

  /** Any other token is resolved exactly when it matches the literal pattern. */
  lemma ParseValueOther(token: string, regs: seq<F.BigFraction>)
    requires |regs| == R.RegisterCount
    requires !(|token| == 1 && IsLetter(token[0]))
    ensures ParseValue(token, regs).Ok? ==> IsLiteral(token)
    ensures IsLiteral(token) ==> ParseValue(token, regs) == F.Parse(token)
  {
  }

  // ---------------------------------------------------------------------
  // The evaluator is a strict left-to-right fold

  /** The reference reading of an expression: ((v0 op1 v1) op2 v2) ..., each
      operator applied to the value of everything on its left; the first
      operation that fails ends it. */
  function LeftFold(v0: F.BigFraction, ops: seq<(Op, F.BigFraction)>): Result<F.BigFraction>
    decreases |ops|
  {
    if ops == [] then Ok(v0)
    else match ApplyOp(ops[0].0, v0, ops[0].1)
      case Err(e) => Err(e)
      case Ok(a) => LeftFold(a, ops[1..])
  }

  /** Folding p + q is folding p, then folding q from its value. */
  lemma {:induction false} FoldAppend(v0: F.BigFraction, p: seq<(Op, F.BigFraction)>, q: seq<(Op, F.BigFraction)>)
    ensures LeftFold(v0, p + q)
         == match LeftFold(v0, p) case Ok(a) => LeftFold(a, q) case Err(e) => Err(e)
    decreases |p|
  {
    if p == [] {
      assert p + q == q;
    } else {
      assert (p + q)[0] == p[0] && (p + q)[1..] == p[1..] + q;
      var a := ApplyOp(p[0].0, v0, p[0].1);
      if a.Ok? {
        FoldAppend(a.value, p[1..], q);
      }
    }
  }

  /** Folding one more pair applies it to the value of the fold so far. */
  lemma FoldSnoc(acc: F.BigFraction, ops: seq<(Op, F.BigFraction)>, p: (Op, F.BigFraction))
    ensures var f := LeftFold(acc, ops);
      LeftFold(acc, ops + [p]) == if f.Ok? then ApplyOp(p.0, f.value, p.1) else f
  {
    FoldAppend(acc, ops, [p]);
    assert [p][1..] == [];
  }

  /** The tokens alternate operand, operator, ..., operand, every operator is
      one of the four and every operand resolves. */
  predicate WellFormed(tokens: seq<string>, regs: seq<F.BigFraction>)
    requires |regs| == R.RegisterCount
  {
    && |tokens| % 2 == 1
    && ParseValue(tokens[0], regs).Ok?
    && PairsOk(tokens, Operands(tokens, regs), 0, |tokens| / 2)
  }

  /** The (operator, operand) pairs m to n - 1 after the first operand are valid. */
  predicate PairsOk(tokens: seq<string>, vals: seq<Result<F.BigFraction>>, m: nat, n: nat)
    requires |vals| == |tokens|
  {
    forall j :: m <= j < n ==> PairOk(tokens, vals, j)
  }

  /** The j-th (operator, operand) pair after the first operand is valid. */
  predicate PairOk(tokens: seq<string>, vals: seq<Result<F.BigFraction>>, j: nat)
    requires |vals| == |tokens|
  {
    OperationOkAt(tokens, vals, 2 * j + 1)
  }

  /** Token i is an operator and token i + 1 an operand that resolves. */
  predicate OperationOkAt(tokens: seq<string>, vals: seq<Result<F.BigFraction>>, i: nat)
    requires |vals| == |tokens|
  {
    i + 1 < |tokens| && OperatorOf(tokens[i]).Some? && vals[i + 1].Ok?
  }

  /** The operator at token i with the value of the operand after it. */
  function OperationAt(tokens: seq<string>, vals: seq<Result<F.BigFraction>>, i: nat): (Op, F.BigFraction)
    requires |vals| == |tokens| && OperationOkAt(tokens, vals, i)
  {
    (OperatorOf(tokens[i]).value, vals[i + 1].value)
  }

  function Pair(tokens: seq<string>, vals: seq<Result<F.BigFraction>>, j: nat): (Op, F.BigFraction)
    requires |vals| == |tokens| && PairOk(tokens, vals, j)
  {
    OperationAt(tokens, vals, 2 * j + 1)
  }

  /** The pairs m to n - 1 after the first operand, in token order. */
  function Pairs(tokens: seq<string>, vals: seq<Result<F.BigFraction>>, m: nat, n: nat): (ops: seq<(Op, F.BigFraction)>)
    requires |vals| == |tokens| && m <= n && PairsOk(tokens, vals, m, n)
    ensures |ops| == n - m
    decreases n - m
  {
    if m == n then [] else [Pair(tokens, vals, m)] + Pairs(tokens, vals, m + 1, n)
  }

  /** Entry k of the pairs from m on is pair m + k. */
  lemma {:induction false} PairsAt(tokens: seq<string>, vals: seq<Result<F.BigFraction>>, m: nat, n: nat)
    requires |vals| == |tokens| && m <= n && PairsOk(tokens, vals, m, n)
    ensures forall k :: 0 <= k < n - m ==> Pairs(tokens, vals, m, n)[k] == Pair(tokens, vals, m + k)
    decreases n - m
  {
    if m < n {
      PairsAt(tokens, vals, m + 1, n);
      var ops := Pairs(tokens, vals, m, n);
      forall k | 0 <= k < n - m ensures ops[k] == Pair(tokens, vals, m + k) {
        if k > 0 {
          assert ops[k] == Pairs(tokens, vals, m + 1, n)[k - 1];
        }
      }
    }
  }

  /** All the (operator, operand) pairs after the first operand of a well-formed token list. */
  function Operations(tokens: seq<string>, regs: seq<F.BigFraction>): (ops: seq<(Op, F.BigFraction)>)
    requires |regs| == R.RegisterCount && WellFormed(tokens, regs)
    ensures |ops| == |tokens| / 2
    ensures forall j :: 0 <= j < |ops| ==> ops[j] == Pair(tokens, Operands(tokens, regs), j)
  {
    PairsAt(tokens, Operands(tokens, regs), 0, |tokens| / 2);
    Pairs(tokens, Operands(tokens, regs), 0, |tokens| / 2)
  }

  /** One loop step over a valid pair applies that pair's operation. */
  lemma StepAt(acc: F.BigFraction, tokens: seq<string>, vals: seq<Result<F.BigFraction>>, m: nat, a: Result<F.BigFraction>, i: nat)
    requires |vals| == |tokens| && PairOk(tokens, vals, m) && i == 2 * m + 1
    requires a == ApplyOp(Pair(tokens, vals, m).0, acc, Pair(tokens, vals, m).1)
    ensures a.Ok? ==> Steps(acc, tokens, vals, i) == Steps(a.value, tokens, vals, i + 2)
    ensures a.Err? ==> Steps(acc, tokens, vals, i).outcome == Err(a.error)
  {
  }

  /** A successful loop run from the operator of pair m, at token i = 2m + 1,
      saw only valid pairs and an odd count. */
  lemma {:induction false} StepsOkWellFormed(acc: F.BigFraction, tokens: seq<string>, vals: seq<Result<F.BigFraction>>, m: nat, i: nat)
    requires |vals| == |tokens| && i == 2 * m + 1 && i <= |tokens|
    requires Steps(acc, tokens, vals, i).outcome.Ok?
    ensures |tokens| % 2 == 1
    ensures PairsOk(tokens, vals, m, |tokens| / 2)
    decreases |tokens| - i
  {
    if i < |tokens| {
      var next := StepSucceeds(acc, tokens, vals, i);
      StepsOkWellFormed(next, tokens, vals, m + 1, i + 2);
      assert PairOk(tokens, vals, m);
      forall j | m <= j < |tokens| / 2 ensures PairOk(tokens, vals, j) {
        if j != m { assert m + 1 <= j; }
      }
    } else {
      Halves(m, |tokens|);
    }
  }

  lemma Halves(m: nat, n: nat)
    requires n == 2 * m + 1
    ensures n % 2 == 1 && n / 2 == m
  {
  }

  /** A successful loop run from a token before the end passed its first step. */
  lemma StepSucceeds(acc: F.BigFraction, tokens: seq<string>, vals: seq<Result<F.BigFraction>>, i: nat) returns (next: F.BigFraction)
    requires |vals| == |tokens| && i < |tokens|
    requires Steps(acc, tokens, vals, i).outcome.Ok?
    ensures OperationOkAt(tokens, vals, i)
    ensures ApplyOp(OperationAt(tokens, vals, i).0, acc, OperationAt(tokens, vals, i).1) == Ok(next)
    ensures Steps(acc, tokens, vals, i) == Steps(next, tokens, vals, i + 2)
  {
    next := ApplyOp(OperatorOf(tokens[i]).value, acc, vals[i + 1].value).value;
  }

  /** Over the valid pairs m to n - 1 the loop, started at the operator of
      pair m, arrives at token 2n + 1 holding their fold, or stops with the
      fold's error. */
  lemma {:induction false} StepsOverPairs(acc: F.BigFraction, tokens: seq<string>, vals: seq<Result<F.BigFraction>>, m: nat, n: nat)
    requires |vals| == |tokens| && m <= n && PairsOk(tokens, vals, m, n)
    ensures var f := LeftFold(acc, Pairs(tokens, vals, m, n));
      && (f.Ok? ==> Steps(acc, tokens, vals, 2 * m + 1) == Steps(f.value, tokens, vals, 2 * n + 1))
      && (f.Err? ==> Steps(acc, tokens, vals, 2 * m + 1).outcome == f)
    decreases n - m
  {
    if m < n {
      var p := Pair(tokens, vals, m);
      var a := ApplyOp(p.0, acc, p.1);
      StepAt(acc, tokens, vals, m, a, 2 * m + 1);
      var rest := Pairs(tokens, vals, m + 1, n);
      assert Pairs(tokens, vals, m, n) == [p] + rest;
      assert ([p] + rest)[0] == p && ([p] + rest)[1..] == rest;
      if a.Ok? {
        StepsOverPairs(a.value, tokens, vals, m + 1, n);
      }
    }
  }

  /** When pair n is incomplete, invalid or its operation fails, the loop
      stops at its operator i = 2n + 1 with the value it had. */
  lemma PairFailure(acc: F.BigFraction, tokens: seq<string>, vals: seq<Result<F.BigFraction>>, n: nat, i: nat)
    requires |vals| == |tokens| && i == 2 * n + 1 && i < |tokens|
    requires !PairOk(tokens, vals, n) || ApplyOp(Pair(tokens, vals, n).0, acc, Pair(tokens, vals, n).1).Err?
    ensures Steps(acc, tokens, vals, i).outcome.Err?
    ensures Steps(acc, tokens, vals, i).lastValue == acc
  {
    if OperationOkAt(tokens, vals, i) {
      var p := OperationAt(tokens, vals, i);
      assert p == Pair(tokens, vals, n);
      StepApplies(acc, tokens, vals, i, p);
    } else {
      StepError(acc, tokens, vals, i);
    }
  }

  /** The step at a valid operator and operand applies their operation. */
  lemma StepApplies(acc: F.BigFraction, tokens: seq<string>, vals: seq<Result<F.BigFraction>>, i: nat, p: (Op, F.BigFraction))
    requires |vals| == |tokens| && OperationOkAt(tokens, vals, i) && p == OperationAt(tokens, vals, i)
    ensures var a := ApplyOp(p.0, acc, p.1);
      Steps(acc, tokens, vals, i) == if a.Ok? then Steps(a.value, tokens, vals, i + 2) else Evaluation(Err(a.error), acc)
  {
  }

  /** A loop that folds the first n valid pairs into w and then fails stops holding w. */
  lemma StepsFailAfterPrefix(acc: F.BigFraction, tokens: seq<string>, vals: seq<Result<F.BigFraction>>, n: nat, i: nat, w: F.BigFraction)
    requires |vals| == |tokens| && i == 2 * n + 1 && i < |tokens|
    requires PairsOk(tokens, vals, 0, n) && LeftFold(acc, Pairs(tokens, vals, 0, n)) == Ok(w)
    requires !PairOk(tokens, vals, n) || ApplyOp(Pair(tokens, vals, n).0, w, Pair(tokens, vals, n).1).Err?
    ensures Steps(acc, tokens, vals, 1).outcome.Err?
    ensures Steps(acc, tokens, vals, 1).lastValue == w
  {
    StepsOverPairs(acc, tokens, vals, 0, n);
    PairFailure(w, tokens, vals, n, i);
  }

  /** Which error a failing step reports: a missing operand is invalid, and the
      operand is resolved before the operator is examined. */
  lemma StepError(acc: F.BigFraction, tokens: seq<string>, vals: seq<Result<F.BigFraction>>, i: nat)
    requires |vals| == |tokens| && i < |tokens|
    ensures i + 1 == |tokens| ==> Steps(acc, tokens, vals, i) == Evaluation(Err(Invalid), acc)
    ensures i + 1 < |tokens| && vals[i + 1].Err?
        ==> Steps(acc, tokens, vals, i) == Evaluation(vals[i + 1], acc)
    ensures i + 1 < |tokens| && vals[i + 1].Ok? && OperatorOf(tokens[i]).None?
        ==> Steps(acc, tokens, vals, i) == Evaluation(Err(Invalid), acc)
  {
  }

  /** A failure after n valid pairs leaves the fold of those pairs in the calculator. */
  lemma EvaluateKeepsPrefix(input: string, current: F.BigFraction, regs: seq<F.BigFraction>,
                            tokens: seq<string>, vals: seq<Result<F.BigFraction>>, v: F.BigFraction, n: nat, w: F.BigFraction)
    requires |regs| == R.RegisterCount && !Rejected(input)
    requires Text.Split(input, ' ') == tokens && Operands(tokens, regs) == vals && 2 * n + 1 < |tokens|
    requires ParseValue(tokens[0], regs) == Ok(v)
    requires PairsOk(tokens, vals, 0, n) && LeftFold(v, Pairs(tokens, vals, 0, n)) == Ok(w)
    requires !PairOk(tokens, vals, n) || ApplyOp(Pair(tokens, vals, n).0, w, Pair(tokens, vals, n).1).Err?
    ensures Evaluate(input, current, regs).outcome.Err?
    ensures Evaluate(input, current, regs).lastValue == w
  {
    EvaluateFrom(input, current, regs, tokens, v);
    StepsFailAfterPrefix(v, tokens, vals, n, 2 * n + 1, w);
  }

  /** An evaluation that passes the pre-check over well-formed tokens returns
      the left-to-right fold: there is no operator precedence. */
  lemma EvaluateIsLeftFold(input: string, current: F.BigFraction, regs: seq<F.BigFraction>)
    requires |regs| == R.RegisterCount
    requires !Rejected(input) && WellFormed(Text.Split(input, ' '), regs)
    ensures var tokens := Text.Split(input, ' ');
      Evaluate(input, current, regs).outcome
      == LeftFold(ParseValue(tokens[0], regs).value, Operations(tokens, regs))
  {
    var tokens := Text.Split(input, ' ');
    var v := ParseValue(tokens[0], regs).value;
    EvaluateFrom(input, current, regs, tokens, v);
    assert 2 * (|tokens| / 2) + 1 == |tokens|;
    StepsOverPairs(v, tokens, Operands(tokens, regs), 0, |tokens| / 2);
  }

  /** Only a well-formed line that passes the pre-check can evaluate successfully. */
  lemma EvaluateOkWellFormed(input: string, current: F.BigFraction, regs: seq<F.BigFraction>)
    requires |regs| == R.RegisterCount
    requires Evaluate(input, current, regs).outcome.Ok?
    ensures !Rejected(input) && WellFormed(Text.Split(input, ' '), regs)
  {
    var tokens := Text.Split(input, ' ');
    assert !Rejected(input) && |tokens| > 0 && ParseValue(tokens[0], regs).Ok?;
    var v := ParseValue(tokens[0], regs).value;
    var vals := Operands(tokens, regs);
    assert Evaluate(input, current, regs) == Steps(F.Add(F.Zero, v), tokens, vals, 1);
    StepsOkWellFormed(F.Add(F.Zero, v), tokens, vals, 0, 1);
  }

  /** The evaluator succeeds with v exactly when the line passes the pre-check,
      is well formed, and its left-to-right fold is v. */
  lemma EvaluateSucceeds(input: string, current: F.BigFraction, regs: seq<F.BigFraction>, v: F.BigFraction)
    requires |regs| == R.RegisterCount
    ensures Evaluate(input, current, regs).outcome == Ok(v)
        <==> && !Rejected(input)
             && WellFormed(Text.Split(input, ' '), regs)
             && LeftFold(ParseValue(Text.Split(input, ' ')[0], regs).value,
                         Operations(Text.Split(input, ' '), regs)) == Ok(v)
  {
    if Evaluate(input, current, regs).outcome == Ok(v) {
      EvaluateOkWellFormed(input, current, regs);
    }
    if !Rejected(input) && WellFormed(Text.Split(input, ' '), regs) {
      EvaluateIsLeftFold(input, current, regs);
    }
  }

  /** An even number of tokens always fails. */
  lemma EvenTokenCountFails(input: string, current: F.BigFraction, regs: seq<F.BigFraction>)
    requires |regs| == R.RegisterCount
    requires |Text.Split(input, ' ')| % 2 == 0
    ensures Evaluate(input, current, regs).outcome.Err?
  {
    if Evaluate(input, current, regs).outcome.Ok? {
      EvaluateOkWellFormed(input, current, regs);
    }
  }

  // ---------------------------------------------------------------------
  // Error kinds

  /** No operand resolution is an out-of-bounds access, and one that divides
      by zero comes from a token with a '/'. */
  lemma OperandsErrors(tokens: seq<string>, regs: seq<F.BigFraction>)
    requires |regs| == R.RegisterCount
    ensures forall k :: 0 <= k < |tokens| ==> Operands(tokens, regs)[k] != Err(OutOfBounds)
    ensures forall k :: 0 <= k < |tokens| && Operands(tokens, regs)[k] == Err(DivByZero) ==> '/' in tokens[k]
  {
    forall k | 0 <= k < |tokens|
      ensures Operands(tokens, regs)[k] != Err(OutOfBounds)
      ensures Operands(tokens, regs)[k] == Err(DivByZero) ==> '/' in tokens[k]
    {
      OperandAt(tokens, regs, k);
      ParseValueErrors(tokens[k], regs);
    }
  }

  /** The loop makes no out-of-bounds access when no operand does. */
  lemma {:induction false} StepsNeverOutOfBounds(acc: F.BigFraction, tokens: seq<string>, vals: seq<Result<F.BigFraction>>, i: nat)
    requires |vals| == |tokens|
    requires forall k :: 0 <= k < |vals| ==> vals[k] != Err(OutOfBounds)
    ensures Steps(acc, tokens, vals, i).outcome != Err(OutOfBounds)
    decreases |tokens| - i
  {
    if i + 1 < |tokens| {
      var op := OperatorOf(tokens[i]);
      if vals[i + 1].Ok? && op.Some? {
        var a := ApplyOp(op.value, acc, vals[i + 1].value);
        if a.Ok? {
          StepsNeverOutOfBounds(a.value, tokens, vals, i + 2);
        }
      }
    }
  }

  /** The evaluator fails with an out-of-bounds access exactly on a nonempty
      line of spaces only, whose split has no token 0. */
  lemma EvaluateOutOfBounds(input: string, current: F.BigFraction, regs: seq<F.BigFraction>)
    requires |regs| == R.RegisterCount
    ensures Evaluate(input, current, regs).outcome == Err(OutOfBounds)
        <==> |input| > 0 && forall k :: 0 <= k < |input| ==> input[k] == ' '
  {
    Text.SplitEmpty(input, ' ');
    var tokens := Text.Split(input, ' ');
    if !Rejected(input) && |tokens| > 0 {
      ParseValueErrors(tokens[0], regs);
      var v := ParseValue(tokens[0], regs);
      if v.Ok? {
        OperandsErrors(tokens, regs);
        StepsNeverOutOfBounds(F.Add(F.Zero, v.value), tokens, Operands(tokens, regs), 1);
      }
    }
  }

  /** Without a '/' in its operators and a division by zero in its operands
      the loop cannot divide by zero. */
  lemma {:induction false} StepsWithoutSlash(acc: F.BigFraction, tokens: seq<string>, vals: seq<Result<F.BigFraction>>, i: nat)
    requires |vals| == |tokens|
    requires forall k :: i <= k < |tokens| ==> '/' !in tokens[k] && vals[k] != Err(DivByZero)
    ensures Steps(acc, tokens, vals, i).outcome != Err(DivByZero)
    decreases |tokens| - i
  {
    if i + 1 < |tokens| {
      var op := OperatorOf(tokens[i]);
      if vals[i + 1].Ok? && op.Some? {
        assert '/' !in tokens[i];
        var a := ApplyOp(op.value, acc, vals[i + 1].value);
        if a.Ok? {
          StepsWithoutSlash(a.value, tokens, vals, i + 2);
        }
      }
    }
  }

  /** Division by zero needs a '/' somewhere in the line: as an operator or in a literal. */
  lemma NoSlashNoDivByZero(input: string, current: F.BigFraction, regs: seq<F.BigFraction>)
    requires |regs| == R.RegisterCount
    requires '/' !in input
    ensures Evaluate(input, current, regs).outcome != Err(DivByZero)
  {
    var tokens := Text.Split(input, ' ');
    Text.SplitWithout(input, ' ', '/');
    assert forall k :: 0 <= k < |tokens| ==> '/' !in tokens[k] by {
      forall k | 0 <= k < |tokens| ensures '/' !in tokens[k] {
        assert tokens[k] in tokens;
      }
    }
    if !Rejected(input) && |tokens| > 0 {
      ParseValueErrors(tokens[0], regs);
      var v := ParseValue(tokens[0], regs);
      if v.Ok? {
        OperandsErrors(tokens, regs);
        StepsWithoutSlash(F.Add(F.Zero, v.value), tokens, Operands(tokens, regs), 1);
      }
    }
  }

  /** The outcome never depends on the calculator's earlier value, which the
      evaluator clears: that value is kept when the first operand is never
      reached or does not resolve, and in every other case the value left
      behind does not depend on it. */
  lemma EvaluateClearsFirst(input: string, c1: F.BigFraction, c2: F.BigFraction, regs: seq<F.BigFraction>)
    requires |regs| == R.RegisterCount
    ensures Evaluate(input, c1, regs).outcome == Evaluate(input, c2, regs).outcome
    ensures var tokens := Text.Split(input, ' ');
      (Rejected(input) || |tokens| == 0 || ParseValue(tokens[0], regs).Err?)
      ==> Evaluate(input, c1, regs).lastValue == c1
    ensures var tokens := Text.Split(input, ' ');
      !(Rejected(input) || |tokens| == 0 || ParseValue(tokens[0], regs).Err?)
      ==> Evaluate(input, c1, regs).lastValue == Evaluate(input, c2, regs).lastValue
  {
  }

  // ---------------------------------------------------------------------
  // Output and STORE properties

  /** The printed result is the fraction's own text, which reads back as the same fraction. */
  lemma FormatOutputRoundTrip(result: F.BigFraction)
    ensures FormatOutput(result) == F.ToString(result)
    ensures F.Parse(FormatOutput(result)) == Ok(result)
  {
    F.ParseToString(result);
  }

  /** A STORE line splits into "STORE" and the pieces of the rest. */
  lemma StorePieces(rest: string)
    ensures Text.Split("STORE " + rest, ' ') == Text.DropTrailingEmpty(["STORE"] + Text.Pieces(rest, ' '))
  {
    var line := "STORE " + rest;
    assert line == "STORE" + [' '] + rest;
    assert line[5] == ' ';
    Text.PiecesCons("STORE", rest, ' ');
  }

  /** A letter followed only by spaces cuts into that letter and empty pieces. */
  lemma LetterThenSpaces(rest: string)
    requires |rest| > 0 && rest[0] != ' ' && forall k :: 1 <= k < |rest| ==> rest[k] == ' '
    ensures var p := Text.Pieces(rest, ' ');
      p[0] == [rest[0]] && forall i :: 1 <= i < |p| ==> p[i] == []
  {
    if ' ' in rest {
      assert rest[1] == ' ';
      assert Text.IndexOf(rest, ' ') == 1;
      Text.PiecesAllEmpty(rest[2..], ' ');
      assert Text.OnlySeparators(rest[2..], ' ') by {
        forall k | 0 <= k < |rest[2..]| ensures rest[2..][k] == ' ' {
          assert rest[2..][k] == rest[k + 2];
        }
      }
      assert Text.Pieces(rest, ' ') == [rest[..1]] + Text.Pieces(rest[2..], ' ');
      assert rest[..1] == [rest[0]];
    } else {
      assert rest[|rest| - 1] in rest;
      assert rest == [rest[0]];
    }
  }

  /** One lowercase letter followed only by spaces is a valid STORE target. */
  lemma StoreTargetValid(rest: string)
    requires |rest| > 0 && R.IsRegister(rest[0]) && forall k :: 1 <= k < |rest| ==> rest[k] == ' '
    ensures StoreTarget("STORE " + rest) == Some(rest[0])
  {
    StorePieces(rest);
    LetterThenSpaces(rest);
    var ps := ["STORE"] + Text.Pieces(rest, ' ');
    assert ps[..2] == ["STORE", [rest[0]]];
    Text.DropTrailingEmptyAt(ps, 2);
  }

  /** Pieces made of one letter and then empty pieces come from that letter
      followed only by spaces. */
  lemma LetterThenEmptyPieces(rest: string, c: char)
    requires var p := Text.Pieces(rest, ' ');
      p[0] == [c] && forall i :: 1 <= i < |p| ==> p[i] == []
    ensures |rest| > 0 && rest[0] == c && forall k :: 1 <= k < |rest| ==> rest[k] == ' '
  {
    var p := Text.Pieces(rest, ' ');
    if ' ' in rest {
      var k := Text.IndexOf(rest, ' ');
      assert p == [rest[..k]] + Text.Pieces(rest[k + 1..], ' ');
      assert rest[..k] == [c];
      var tail := Text.Pieces(rest[2..], ' ');
      assert Text.AllEmpty(tail) by {
        forall i | 0 <= i < |tail| ensures tail[i] == [] {
          assert tail[i] == p[i + 1];
        }
      }
      Text.PiecesAllEmpty(rest[2..], ' ');
      forall k | 1 <= k < |rest| ensures rest[k] == ' ' {
        if k > 1 { assert rest[k] == rest[2..][k - 2]; }
      }
    } else {
      assert rest == p[0];
    }
  }

  /** A valid STORE target is one lowercase letter followed only by spaces. */
  lemma StoreTargetOnlyValid(rest: string)
    requires StoreTarget("STORE " + rest).Some?
    ensures |rest| > 0 && R.IsRegister(rest[0]) && forall k :: 1 <= k < |rest| ==> rest[k] == ' '
  {
    StorePieces(rest);
    var p := Text.Pieces(rest, ' ');
    var ps := ["STORE"] + p;
    var parts := Text.Split("STORE " + rest, ' ');
    Text.DropTrailingEmptyShape(ps);
    assert parts == ps[..2];
    var c := parts[1][0];
    assert p[0] == [c];
    assert forall i :: 1 <= i < |p| ==> p[i] == [] by {
      forall i | 1 <= i < |p| ensures p[i] == [] {
        assert p[i] == ps[i + 1];
      }
    }
    LetterThenEmptyPieces(rest, c);
  }

  /** A line "STORE " + rest names a register exactly when rest is one
      lowercase letter followed only by spaces; the register is that letter. */
  lemma StoreTargetShape(rest: string)
    ensures var t := StoreTarget("STORE " + rest);
      (t.Some? <==> |rest| > 0 && R.IsRegister(rest[0]) && forall k :: 1 <= k < |rest| ==> rest[k] == ' ')
      && (t.Some? ==> t.value == rest[0])
  {
    if StoreTarget("STORE " + rest).Some? {
      StoreTargetOnlyValid(rest);
    }
    if |rest| > 0 && R.IsRegister(rest[0]) && forall k :: 1 <= k < |rest| ==> rest[k] == ' ' {
      StoreTargetValid(rest);
    }
  }

  // ---------------------------------------------------------------------
  // Worked examples

  /** The pre-check: the regex dot before the final operator does not match a line terminator. */
  lemma ExamplePreCheck()
    ensures Rejected("") && Rejected("1 +") && Rejected("2 /")
    ensures !Rejected("+ 1") && !Rejected("1\n+")
  {
    assert !IsLineTerminator('1');
    assert !IsLineTerminator(' ');
    assert "1\n+"[1] == '\n';
  }

  /** The literal pattern `-?[0-9]+(/[0-9]+)?`: a sign only in front, digits
      on both sides of one '/'. */
  lemma ExampleLiterals()
    ensures IsLiteral("12") && IsLiteral("-3/4")
    ensures !IsLiteral("") && !IsLiteral("+3") && !IsLiteral("3/-4") && !IsLiteral("1/2/3") && !IsLiteral("1/")
  {
    assert Text.IndexOf("-3/4", '/') == 2;
    assert "-3/4"[..2] == "-3" && "-3/4"[3..] == "4";
    assert Text.IndexOf("3/-4", '/') == 1;
    assert "3/-4"[2..] == "-4" && !Decimal.IsDigit("-4"[0]);
    assert Text.IndexOf("1/2/3", '/') == 1;
    assert "1/2/3"[2..] == "2/3" && !Decimal.IsDigit("2/3"[1]);
    assert !Decimal.IsDigit("+3"[0]);
    assert Text.IndexOf("1/", '/') == 1;
    assert "1/"[2..] == "";
  }

  /** A whole number's text is a literal operand with that value. */
  lemma WholeOperand(n: int, regs: seq<F.BigFraction>)
    requires |regs| == R.RegisterCount
    ensures ParseValue(Decimal.IntToString(n), regs) == Ok(F.Whole(n))
  {
    var t := Decimal.IntToString(n);
    F.IntTextShape(n);
    if n < 0 {
      assert t[1..] == Decimal.NatToString(-n);
    }
    assert IsSignedDigits(t);
    F.ParseWhole(n);
  }

  /** A one-digit token is the whole number it spells. */
  lemma DigitOperand(c: char, regs: seq<F.BigFraction>)
    requires |regs| == R.RegisterCount && Decimal.IsDigit(c)
    ensures ParseValue([c], regs) == Ok(F.Whole(Decimal.DigitValue(c)))
  {
    var n := Decimal.DigitValue(c);
    assert Decimal.IntToString(n) == [Decimal.DigitChar(n)] == [c];
    WholeOperand(n, regs);
  }

  /** A line ending in a char other than an operator passes the pre-check. */
  lemma NotRejected(s: string)
    requires |s| > 0 && !IsOperatorChar(s[|s| - 1])
    ensures !Rejected(s)
  {
  }

  /** Evaluation of a line that passes the pre-check and whose first operand resolves. */
  lemma EvaluateFrom(input: string, current: F.BigFraction, regs: seq<F.BigFraction>, tokens: seq<string>, v: F.BigFraction)
    requires |regs| == R.RegisterCount
    requires !Rejected(input) && Text.Split(input, ' ') == tokens && |tokens| > 0
    requires ParseValue(tokens[0], regs) == Ok(v)
    ensures Evaluate(input, current, regs) == Steps(v, tokens, Operands(tokens, regs), 1)
  {
    F.AddZeroLeft(v);
  }

  /** A line of three tokens `a op b` computes a op b; when the operation
      fails the calculator keeps a. */
  lemma EvaluateBinary(input: string, current: F.BigFraction, regs: seq<F.BigFraction>,
                       tokens: seq<string>, x: F.BigFraction, op: Op, y: F.BigFraction)
    requires |regs| == R.RegisterCount
    requires !Rejected(input) && Text.Split(input, ' ') == tokens && |tokens| == 3
    requires ParseValue(tokens[0], regs) == Ok(x) && OperatorOf(tokens[1]) == Some(op)
    requires ParseValue(tokens[2], regs) == Ok(y)
    ensures var a := ApplyOp(op, x, y);
      Evaluate(input, current, regs) == Evaluation(a, if a.Ok? then a.value else x)
  {
    EvaluateFrom(input, current, regs, tokens, x);
    OperandAt(tokens, regs, 2);
  }

  /** In a line `a op b` whose b does not resolve, the calculator keeps a. */
  lemma EvaluateBinaryBadOperand(input: string, current: F.BigFraction, regs: seq<F.BigFraction>,
                                 tokens: seq<string>, x: F.BigFraction, e: Error)
    requires |regs| == R.RegisterCount
    requires !Rejected(input) && Text.Split(input, ' ') == tokens && |tokens| == 3
    requires ParseValue(tokens[0], regs) == Ok(x) && ParseValue(tokens[2], regs) == Err(e)
    ensures Evaluate(input, current, regs) == Evaluation(Err(e), x)
  {
    EvaluateFrom(input, current, regs, tokens, x);
    OperandAt(tokens, regs, 2);
  }

  /** A line `a o b` of two space-free operands around a one-char operator splits into three tokens. */
  lemma SplitBinary(a: string, o: char, b: string)
    requires ' ' !in a && ' ' !in b && b != [] && o != ' '
    ensures Text.Split(a + " " + [o] + " " + b, ' ') == [a, [o], b]
  {
    var ps := [a, [o], b];
    assert Text.Join(ps, ' ') == a + " " + [o] + " " + b by {
      assert Text.Join(ps[1..], ' ') == [o] + [' '] + b by {
        assert ps[1..][1..] == [b];
      }
    }
    Text.SplitJoin(ps, ' ');
  }

  /** On a fresh register set a register reads 0/1, so `c + d` gives the digit d. */
  lemma ExampleFreshRegister(c: char, d: char, current: F.BigFraction)
    requires R.IsRegister(c) && Decimal.IsDigit(d)
    ensures var n := F.Whole(Decimal.DigitValue(d));
      Evaluate([c] + " + " + [d], current, R.Initial()) == Evaluation(Ok(n), n)
  {
    var regs := R.Initial();
    var input := [c] + " + " + [d];
    assert input == [c] + " " + ['+'] + " " + [d];
    SplitBinary([c], '+', [d]);
    NotRejected(input);
    ParseValueRegister(c, regs);
    R.InitialReadsZero(c);
    DigitOperand(d, regs);
    var n := F.Whole(Decimal.DigitValue(d));
    EvaluateBinary(input, current, regs, Text.Split(input, ' '), F.Zero, Plus, n);
    F.AddZeroLeft(n);
  }

  /** `p / q` of two digits divides the whole numbers they spell. */
  lemma DigitDivision(p: char, q: char, current: F.BigFraction, regs: seq<F.BigFraction>)
    requires |regs| == R.RegisterCount && Decimal.IsDigit(p) && Decimal.IsDigit(q)
    ensures var x := F.Whole(Decimal.DigitValue(p));
      var a := F.Divide(x, F.Whole(Decimal.DigitValue(q)));
      Evaluate([p] + " / " + [q], current, regs) == Evaluation(a, if a.Ok? then a.value else x)
  {
    var input := [p] + " / " + [q];
    assert input == [p] + " " + ['/'] + " " + [q];
    SplitBinary([p], '/', [q]);
    NotRejected(input);
    DigitOperand(p, regs);
    DigitOperand(q, regs);
    EvaluateBinary(input, current, regs, Text.Split(input, ' '), F.Whole(Decimal.DigitValue(p)), Over, F.Whole(Decimal.DigitValue(q)));
  }

  /** `p / q` of two digits gives p/q normalized, and fails with division by
      zero when q is 0, leaving p in the calculator. */
  lemma ExampleDigitDivision(p: char, q: char, current: F.BigFraction, regs: seq<F.BigFraction>)
    requires |regs| == R.RegisterCount && Decimal.IsDigit(p) && Decimal.IsDigit(q)
    ensures var ev := Evaluate([p] + " / " + [q], current, regs);
      && ev.outcome == F.Make(Decimal.DigitValue(p), Decimal.DigitValue(q))
      && (Decimal.DigitValue(q) == 0 ==> ev == Evaluation(Err(DivByZero), F.Whole(Decimal.DigitValue(p))))
  {
    DigitDivision(p, q, current, regs);
    F.WholeArithmetic(Decimal.DigitValue(p), Decimal.DigitValue(q));
  }

  /** The reference fold has no precedence: 1 + 2 * 3 is (1 + 2) * 3. */
  lemma ExampleNoPrecedence()
    ensures LeftFold(F.Whole(1), [(Plus, F.Whole(2)), (Times, F.Whole(3))]) == Ok(F.Whole(9))
  {
    F.WholeArithmetic(1, 2);
    F.WholeArithmetic(3, 3);
    var ops: seq<(Op, F.BigFraction)> := [(Plus, F.Whole(2)), (Times, F.Whole(3))];
    assert ops[1..] == [(Times, F.Whole(3))] && |ops[1..][1..]| == 0;
  }

  /** A trailing operator is refused before anything is evaluated, and an
      uppercase register name is invalid. */
  lemma ExampleInvalid(regs: seq<F.BigFraction>, current: F.BigFraction)
    requires |regs| == R.RegisterCount
    ensures Evaluate("1 +", current, regs) == Evaluation(Err(Invalid), current)
    ensures Evaluate("A", current, regs) == Evaluation(Err(Invalid), current)
  {
    assert EndsWithOperator("1 +");
    assert Text.Split("A", ' ') == ["A"];
    ParseValueRegister('A', regs);
  }

  /** A line of spaces has no token 0. */
  lemma ExampleBlank(regs: seq<F.BigFraction>, current: F.BigFraction)
    requires |regs| == R.RegisterCount
    ensures Evaluate("   ", current, regs).outcome == Err(OutOfBounds)
  {
    EvaluateOutOfBounds("   ", current, regs);
  }
}
