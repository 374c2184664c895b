# An exact-rational calculator, modelled in Dafny

The calculator works on fractions of unbounded integers (Java BigIntegers). It has four parts, and each is modelled here.

- **`BigFraction`** is an immutable rational number. Every constructor normalizes its result: the denominator is positive, the numerator and denominator are coprime, and zero is 0/1. A zero denominator throws ArithmeticException.
- **`BFCalculator`** holds one running value, `lastValue`. Its four operations and `clear` replace that value in place.
- **`BFRegisterSet`** is an array of 26 slots named `'a'` to `'z'`. Every slot starts at 0/1.
- **Two front ends** share one expression evaluator:
  - `InteractiveCalculator` reads lines, trims them and stops at QUIT.
  - `QuickCalculator` takes its command-line arguments as they are.
  - Both keep a single calculator and a single register set for the whole session.
  - An expression is split on single spaces and folded strictly from left to right, with no operator precedence.
  - An operand is either a register (one lowercase letter) or a literal matching `-?[0-9]+(/[0-9]+)?`.
  - `STORE c` copies the calculator's current value into register `c`.

Java exceptions become values of `Outcomes.Result`, with three error kinds:

- `Invalid` stands for IllegalArgumentException, including NumberFormatException.
- `DivByZero` stands for ArithmeticException.
- `OutOfBounds` stands for ArrayIndexOutOfBoundsException. QuickCalculator raises it on an argument made only of spaces, whose `split(" ")` has no token 0.

Only IllegalArgumentException is caught by the front ends, so the other two kinds end the program. The model reports them as `Uncaught` line results.

Modules, one file each:

| file | module | models |
|---|---|---|
| `outcomes.dfy` | `Outcomes` | the result and status types |
| `divisibility.dfy` | `Divisibility` | `BigInteger.gcd` (Euclid's algorithm on absolute values) with its lemmas |
| `decimal.dfy` | `Decimal` | `new BigInteger(String)` and `BigInteger.toString()` |
| `text.dfy` | `Text` | `String.split` with a one-character separator, and `String.trim` |
| `bigfraction.dfy` | `BigFractions` | `BigFraction`: a subset type of normalized `Fraction`s, with a ghost `Value` for the rational number a fraction denotes |
| `bfcalculator.dfy` | `Calculators` | the class `BFCalculator` |
| `registers.dfy` | `Registers` | the class `BFRegisterSet` over an `array` |
| `evaluator.dfy` | `Evaluator` | `evaluateExpression`, `parseValue`, `formatOutput` and the `handleStoreCommand` test and effect |
| `frontends.dfy` | `Frontends` | the per-line behaviour of both `main` methods, and whole sessions over a sequence of lines |

The evaluator exists in two identical copies in the source, and both are modelled once, in `Evaluator`. The table below cites the InteractiveCalculator copy. The same code is in `src/main/java/edu/grinnell/csc207/main/QuickCalculator.java`:

| routine | QuickCalculator.java | InteractiveCalculator.java |
|---|---|---|
| `evaluateExpression` | 70-109 | 83-122 |
| `parseValue` | 120-137 | 132-150 |
| `formatOutput` | 146-152 | 159-165 |
| STORE test and effect | 51-58 | 63-71 |

In the model:

- `Evaluator.Evaluate` is the specification of one evaluation. It gives the outcome together with the value left in the calculator.
- `Evaluator.EvaluateExpression` is the loop itself, run on the calculator object and proved against `Evaluate`.
- `Evaluator.LeftFold` is an independent reference reading, `((v0 op1 v1) op2 v2) ...`. It is tied to `Evaluate` by `EvaluateIsLeftFold`, `EvaluateSucceeds` and `EvaluateKeepsPrefix`.

## Model

| member | source | states |
|---|---|---|
| `Divisibility.Gcd` | src/main/java/edu/grinnell/csc207/util/BigFraction.java:37 | `BigInteger.gcd` on the absolute values, by Euclid's algorithm. Its defining properties are the next two rows: a positive common divisor (`GcdDivides`) that every common divisor divides (`GcdGreatest`). |
| `Divisibility.GcdDivides` | src/main/java/edu/grinnell/csc207/util/BigFraction.java:37 | Unless both arguments are 0, their gcd is positive and divides both. |
| `Divisibility.GcdGreatest` | src/main/java/edu/grinnell/csc207/util/BigFraction.java:37 | Every common divisor of a and b divides gcd(a, b). |
| `Divisibility.GcdScale` | src/main/java/edu/grinnell/csc207/util/BigFraction.java:37 | gcd(k·a, k·b) = k·gcd(a, b). |
| `Divisibility.GcdZeroLeft` | src/main/java/edu/grinnell/csc207/util/BigFraction.java:37-39 | gcd(0, b) = b, so a zero numerator is reduced to 0/1. |
| `Divisibility.GcdReduced` | src/main/java/edu/grinnell/csc207/util/BigFraction.java:37-39 | Dividing a and b > 0 by their gcd leaves coprime parts. |
| `Decimal.NatToString` | src/main/java/edu/grinnell/csc207/util/BigFraction.java:156 | The decimal text of n is digits only, with no leading zero; it is longer than one digit exactly when n >= 10. |
| `Decimal.IntToString` | src/main/java/edu/grinnell/csc207/util/BigFraction.java:156 | The text is nonempty and is digits, with at most a leading minus sign. |
| `Decimal.ParseInt` | src/main/java/edu/grinnell/csc207/util/BigFraction.java:69 | `new BigInteger` fails only with NumberFormatException, which is an Invalid outcome. |
| `Decimal.NatToStringRoundTrip` | src/main/java/edu/grinnell/csc207/util/BigFraction.java:156 | Reading back the digits of n gives n. |
| `Decimal.IntToStringRoundTrip` | src/main/java/edu/grinnell/csc207/util/BigFraction.java:156-158 | `new BigInteger(i.toString())` is i, for every integer i. |
| `Text.IndexOf` | src/main/java/edu/grinnell/csc207/util/BigFraction.java:59-60 | The position found is inside s and holds the separator. |
| `Text.IndexOfFirst` | src/main/java/edu/grinnell/csc207/util/BigFraction.java:59-60 | No position before the one found holds the separator. |
| `Text.IndexOfAt` | src/main/java/edu/grinnell/csc207/util/BigFraction.java:59-60 | Conversely, an occurrence with none before it is the position found. |
| `Text.Pieces` | src/main/java/edu/grinnell/csc207/main/InteractiveCalculator.java:90 | Cutting at every separator gives at least one piece. |
| `Text.PiecesSeparatorFree` | src/main/java/edu/grinnell/csc207/main/InteractiveCalculator.java:90 | No piece holds a separator. |
| `Text.DropTrailingEmptyShape` | src/main/java/edu/grinnell/csc207/main/InteractiveCalculator.java:90 | Dropping the trailing empties keeps a prefix of the pieces that does not end in an empty piece; everything dropped is empty. |
| `Text.TrimStartShape` | src/main/java/edu/grinnell/csc207/main/InteractiveCalculator.java:34 | Trimming the start keeps a suffix of s whose first char is above U+0020; every char removed is at or below it. |
| `Text.TrimEndShape` | src/main/java/edu/grinnell/csc207/main/InteractiveCalculator.java:34 | Trimming the end keeps a prefix of s whose last char is above U+0020; every char removed is at or below it. |
| `Text.TrimShape` | src/main/java/edu/grinnell/csc207/main/InteractiveCalculator.java:34 | A trimmed string is empty, or begins and ends with a char above U+0020. |
| `Text.TrimSlice` | src/main/java/edu/grinnell/csc207/main/InteractiveCalculator.java:34 | `trim()` returns one slice s[i..j] of s, and every char outside the slice, at either end, is at or below U+0020. |
| `Text.Split` | src/main/java/edu/grinnell/csc207/main/InteractiveCalculator.java:90 | `split(" ")` and the `split("/")` of BigFraction.java:59-60, with one separator char. `SplitWithout`, `SplitJoin`, `SplitAllPieces`, `SplitEmpty` and `SplitFirst` state what it returns: [s] for a nonempty s when the separator is absent, otherwise the pieces without the trailing empties. |
| `Text.Trim` | src/main/java/edu/grinnell/csc207/main/InteractiveCalculator.java:34 | `String.trim()`, also used at BigFraction.java:61-69. `TrimSlice` states that it keeps one slice s[i..j] and that every char removed from either end is at or below U+0020; `TrimShape` adds that the slice is empty or both its ends are above U+0020. `TrimUntrimmed` and `TrimIdempotent` add that it is idempotent and leaves an untrimmed string alone. |
| `Text.PiecesJoin` | src/main/java/edu/grinnell/csc207/main/InteractiveCalculator.java:90 | Joining the pieces with the separator gives back the string. |
| `Text.JoinPieces` | src/main/java/edu/grinnell/csc207/main/InteractiveCalculator.java:90 | Cutting a join of separator-free pieces gives back those pieces. |
| `Text.PiecesWithout` | src/main/java/edu/grinnell/csc207/main/InteractiveCalculator.java:90 | A char absent from s is absent from each of its pieces. |
| `Text.SplitWithout` | src/main/java/edu/grinnell/csc207/main/InteractiveCalculator.java:90 | A char absent from s is absent from each token of its split. |
| `Text.SplitJoin` | src/main/java/edu/grinnell/csc207/main/InteractiveCalculator.java:90 | `split` undoes a join of separator-free tokens whose last token is not empty. |
| `Text.SplitAllPieces` | src/main/java/edu/grinnell/csc207/main/InteractiveCalculator.java:90 | When the last piece is not empty, `split` returns every piece. |
| `Text.PiecesCons` | src/main/java/edu/grinnell/csc207/main/InteractiveCalculator.java:63 | A separator-free prefix followed by a separator is the first piece. |
| `Text.DropTrailingEmptyAt` | src/main/java/edu/grinnell/csc207/main/InteractiveCalculator.java:63 | Dropping trailing empty pieces stops exactly after the last nonempty one. |
| `Text.SplitTwo` | src/main/java/edu/grinnell/csc207/main/InteractiveCalculator.java:63 | Two separator-free parts around one separator split into exactly those two parts, when the second is nonempty. |
| `Text.PiecesAllEmpty` | src/main/java/edu/grinnell/csc207/main/QuickCalculator.java:77 | Every piece is empty exactly when the string is only separators. |
| `Text.SplitEmpty` | src/main/java/edu/grinnell/csc207/main/QuickCalculator.java:77-78 | `split` returns no tokens exactly when s is a nonempty run of separators; then `tokens[0]` is out of bounds. |
| `Text.SplitFirst` | src/main/java/edu/grinnell/csc207/main/InteractiveCalculator.java:90-91 | When s does not start with the separator, token 0 is the nonempty text before the first separator, or all of s. |
| `Text.TrimUntrimmed` | src/main/java/edu/grinnell/csc207/main/InteractiveCalculator.java:34 | A string with nothing to trim is unchanged by trim. |
| `Text.TrimIdempotent` | src/main/java/edu/grinnell/csc207/main/InteractiveCalculator.java:34 | Trimming twice is trimming once. |
| `BigFractions.Reduce` | src/main/java/edu/grinnell/csc207/util/BigFraction.java:37-39 | Dividing n and d > 0 by gcd(abs(n), d) gives a normalized fraction with the same cross product. |
| `BigFractions.Make` | src/main/java/edu/grinnell/csc207/util/BigFraction.java:25-40 | `new BigFraction(n, d)` fails with DivByZero exactly when d = 0. Otherwise the result is normalized (positive denominator, coprime parts, which the subset type demands) and has num·d = n·denom. |
| `BigFractions.SameValueUnique` | src/main/java/edu/grinnell/csc207/util/BigFraction.java:31-39 | Two normalized fractions with equal cross products are identical. |
| `BigFractions.MakeCanonical` | src/main/java/edu/grinnell/csc207/util/BigFraction.java:25-40 | The constructor returns the one normalized fraction whose value is n/d. |
| `BigFractions.MakeZero` | src/main/java/edu/grinnell/csc207/util/BigFraction.java:37-39 | A zero numerator with any nonzero denominator is 0/1. |
| `BigFractions.MakeIdentity` | src/main/java/edu/grinnell/csc207/util/BigFraction.java:25-40 | Constructing from a BigFraction's own parts gives it back. |
| `BigFractions.MakeValue` | src/main/java/edu/grinnell/csc207/util/BigFraction.java:25-40 | The constructed fraction denotes the rational number n/d. |
| `BigFractions.ValueInjective` | src/main/java/edu/grinnell/csc207/util/BigFraction.java:25-40 | BigFractions of equal value are equal. |
| `BigFractions.Add` | src/main/java/edu/grinnell/csc207/util/BigFraction.java:80-85 | The sum is normalized and its value is the sum of the values. |
| `BigFractions.Subtract` | src/main/java/edu/grinnell/csc207/util/BigFraction.java:93-100 | The difference is normalized and its value is the difference of the values. |
| `BigFractions.Multiply` | src/main/java/edu/grinnell/csc207/util/BigFraction.java:108-112 | The product is normalized and its value is the product of the values. |
| `BigFractions.Divide` | src/main/java/edu/grinnell/csc207/util/BigFraction.java:121-128 | Fails with DivByZero exactly when the divisor's numerator is 0, whatever its denominator. Otherwise the value is the quotient of the values. |
| `BigFractions.AddZeroLeft` | src/main/java/edu/grinnell/csc207/main/InteractiveCalculator.java:92-93 | `clear()` followed by `add(v)` leaves exactly v. |
| `BigFractions.AddCommutative` | src/main/java/edu/grinnell/csc207/util/BigFraction.java:80-85 | x + y = y + x. |
| `BigFractions.AddAssociative` | src/main/java/edu/grinnell/csc207/util/BigFraction.java:80-85 | (x + y) + z = x + (y + z). |
| `BigFractions.SubtractAddInverse` | src/main/java/edu/grinnell/csc207/util/BigFraction.java:80-100 | (x − y) + y = x. |
| `BigFractions.DivideMultiplyInverse` | src/main/java/edu/grinnell/csc207/util/BigFraction.java:108-128 | For y ≠ 0, dividing by y succeeds and multiplying back by y gives x. |
| `BigFractions.Whole` | src/main/java/edu/grinnell/csc207/util/BigFraction.java:69-70 | A whole number n is the normalized fraction n/1. |
| `BigFractions.WholeArithmetic` | src/main/java/edu/grinnell/csc207/util/BigFraction.java:80-128 | On whole numbers the four operations are integer arithmetic, and division is the constructor `new BigFraction(a, b)`. |
| `BigFractions.DivideByAnyZero` | src/main/java/edu/grinnell/csc207/util/BigFraction.java:121-124 | Every representation 0/d of zero is refused as a divisor. |
| `BigFractions.Parse` | src/main/java/edu/grinnell/csc207/util/BigFraction.java:58-72 | Text without a '/' that parses has denominator 1. |
| `BigFractions.IntTextShape` | src/main/java/edu/grinnell/csc207/util/BigFraction.java:154-158 | An integer's text has no '/' and nothing for trim to remove. |
| `BigFractions.ParseWhole` | src/main/java/edu/grinnell/csc207/util/BigFraction.java:67-71 | The text of n parses to n/1. |
| `BigFractions.ParseRatio` | src/main/java/edu/grinnell/csc207/util/BigFraction.java:59-66 | The text "n/d" parses to the constructor's result for (n, d); either part may carry the sign, and d = 0 fails. |
| `BigFractions.ToString` | src/main/java/edu/grinnell/csc207/util/BigFraction.java:154-159 | `toString`: the numerator alone when the denominator is 1, otherwise "num/den". `ParseToString` proves the string constructor reads it back as the same fraction. |
| `BigFractions.ParseToString` | src/main/java/edu/grinnell/csc207/util/BigFraction.java:154-159 | Parsing `toString()` of any BigFraction reconstructs the same numerator and denominator. |
| `BigFractions.Examples` | src/main/java/edu/grinnell/csc207/util/BigFraction.java:25-128 | Worked values: 5/0 fails; 0/−7 is 0/1; 2/−4 is −1/2; 1/2 + 1/3 = 5/6; 2/4 · 3/6 = 1/4; dividing by 0/5 fails; 4/2 is 2/1. |
| `BigFractions.ParseWholeExample` | src/main/java/edu/grinnell/csc207/util/BigFraction.java:67-71 | "42" parses to 42/1. |
| `BigFractions.ParseSignExamples` | src/main/java/edu/grinnell/csc207/util/BigFraction.java:59-66 | "-3/6" and "3/-6" both parse to −1/2. |
| `BigFractions.ParseZeroDenominatorExample` | src/main/java/edu/grinnell/csc207/util/BigFraction.java:59-66 | "5/0" fails with DivByZero. |
| `BigFractions.ParseGarbageExample` | src/main/java/edu/grinnell/csc207/util/BigFraction.java:69 | "abc" fails as Invalid. |
| `Calculators.BFCalculator.constructor` | src/main/java/edu/grinnell/csc207/util/BFCalculator.java:22-24 | A fresh calculator holds 0/1. |
| `Calculators.BFCalculator.Get` | src/main/java/edu/grinnell/csc207/util/BFCalculator.java:31-33 | Returns `lastValue` and changes nothing. |
| `Calculators.BFCalculator.Add` | src/main/java/edu/grinnell/csc207/util/BFCalculator.java:40-42 | `lastValue` becomes old `lastValue` + val. |
| `Calculators.BFCalculator.Subtract` | src/main/java/edu/grinnell/csc207/util/BFCalculator.java:49-51 | `lastValue` becomes old `lastValue` − val. |
| `Calculators.BFCalculator.Multiply` | src/main/java/edu/grinnell/csc207/util/BFCalculator.java:58-60 | `lastValue` becomes old `lastValue` · val. |
| `Calculators.BFCalculator.Divide` | src/main/java/edu/grinnell/csc207/util/BFCalculator.java:68-70 | Fails with DivByZero exactly when val is zero, and then `lastValue` is unchanged; otherwise `lastValue` becomes the quotient. |
| `Calculators.BFCalculator.Clear` | src/main/java/edu/grinnell/csc207/util/BFCalculator.java:76-78 | `lastValue` becomes 0/1, whatever it was. |
| `Registers.Slot` | src/main/java/edu/grinnell/csc207/util/BFRegisterset.java:35 | `register - 'a'` of a register 'a'..'z' is an index below 26. |
| `Registers.Initial` | src/main/java/edu/grinnell/csc207/util/BFRegisterset.java:18-22 | The 26 slots of a fresh set all hold 0/1. |
| `Registers.Lookup` | src/main/java/edu/grinnell/csc207/util/BFRegisterset.java:45-50 | `get` fails as Invalid exactly outside 'a'..'z'; otherwise it returns slot `c - 'a'`. |
| `Registers.Stored` | src/main/java/edu/grinnell/csc207/util/BFRegisterset.java:31-36 | Storing writes slot `c - 'a'` and leaves the other slots; a bad register leaves all of them. |
| `Registers.BFRegisterSet.constructor` | src/main/java/edu/grinnell/csc207/util/BFRegisterset.java:18-22 | A fresh register set has a new 26-slot array holding 0/1 everywhere. |
| `Registers.BFRegisterSet.Store` | src/main/java/edu/grinnell/csc207/util/BFRegisterset.java:31-36 | Fails as Invalid outside 'a'..'z'; the array's new contents are `Stored(old contents, register, value)`. |
| `Registers.BFRegisterSet.Get` | src/main/java/edu/grinnell/csc207/util/BFRegisterset.java:45-50 | Returns `Lookup` of the contents and modifies nothing; for a valid register the result is never missing. |
| `Registers.InitialReadsZero` | src/main/java/edu/grinnell/csc207/util/BFRegisterset.java:18-22 | A fresh set reads 0/1 in every register. |
| `Registers.StoreThenGet` | src/main/java/edu/grinnell/csc207/util/BFRegisterset.java:31-50 | `get(r)` right after `store(r, v)` returns v. |
| `Registers.StoreFrame` | src/main/java/edu/grinnell/csc207/util/BFRegisterset.java:35 | `store(r, v)` leaves every other register as it was. |
| `Registers.LastStoreWins` | src/main/java/edu/grinnell/csc207/util/BFRegisterset.java:35 | Of two stores to the same register, the last one wins. |
| `Evaluator.EndsWithOperator` | src/main/java/edu/grinnell/csc207/main/InteractiveCalculator.java:86 | `input.matches(".*[+\\-*/]$")`: the last char is one of + - * / and no line terminator comes before it, since the regex dot does not match one. `ExamplePreCheck` shows both cases. |
| `Evaluator.Rejected` | src/main/java/edu/grinnell/csc207/main/InteractiveCalculator.java:86-88 | The pre-check `isEmpty() \|\| matches(...)`. `RejectedFails` states that such a line is Invalid and leaves the calculator untouched; `NotRejected` gives the lines that pass. |
| `Evaluator.RejectedFails` | src/main/java/edu/grinnell/csc207/main/InteractiveCalculator.java:86-88 | A line the pre-check refuses evaluates to Invalid, and the calculator keeps its old value. |
| `Evaluator.ExamplePreCheck` | src/main/java/edu/grinnell/csc207/main/InteractiveCalculator.java:86 | "", "1 +" and "2 /" are refused; "+ 1" and a line with a newline before its final operator are not. |
| `Evaluator.IsLiteral` | src/main/java/edu/grinnell/csc207/main/InteractiveCalculator.java:145 | The regex `-?[0-9]+(/[0-9]+)?` on ASCII digits. `LiteralParse`, `LiteralOutcome` and `ExampleLiterals` state what it accepts and how it is read. |
| `Evaluator.ExampleLiterals` | src/main/java/edu/grinnell/csc207/main/InteractiveCalculator.java:145 | "12" and "-3/4" are literals; "", "+3", "3/-4", "1/2/3" and "1/" are not. |
| `Evaluator.ParseValue` | src/main/java/edu/grinnell/csc207/main/InteractiveCalculator.java:132-150 | `parseValue`. `ParseValueRegister` says a single lowercase letter reads its register and a single uppercase letter is Invalid; `ParseValueOther` says any other token resolves exactly when it is a literal, as `new BigFraction(token)`; `ParseValueErrors` says it never fails out of bounds and fails with DivByZero only on a literal with a '/'. |
| `Evaluator.OperatorOf` | src/main/java/edu/grinnell/csc207/main/InteractiveCalculator.java:103-117 | The cases of the operator `switch`. `OperatorOfTokens` states that the operators are exactly the one-char tokens + - * /, and `StepError` that any other token is Invalid. |
| `Evaluator.OperatorOfTokens` | src/main/java/edu/grinnell/csc207/main/InteractiveCalculator.java:103-117 | A token is an operator exactly when it is one char long and that char is one the pre-check looks for. |
| `Evaluator.ApplyOp` | src/main/java/edu/grinnell/csc207/main/InteractiveCalculator.java:104-115 | The four calculator calls of the `switch`. `ApplyOpOutcome` states their outcome. |
| `Evaluator.ApplyOpOutcome` | src/main/java/edu/grinnell/csc207/main/InteractiveCalculator.java:104-115 | Applying an operator fails only for division by zero, with DivByZero. Otherwise its value is the sum, difference, product or quotient of the rational values. |
| `Evaluator.SignedDigitsParse` | src/main/java/edu/grinnell/csc207/main/InteractiveCalculator.java:145-146 | A token matching `-?[0-9]+` has no '/', nothing to trim, and `new BigInteger` reads it as its signed value. |
| `Evaluator.LiteralParse` | src/main/java/edu/grinnell/csc207/main/InteractiveCalculator.java:145-146 | A literal without '/' is its value over 1; a literal n/d is the constructor's result for n and d. |
| `Evaluator.LiteralOutcome` | src/main/java/edu/grinnell/csc207/main/InteractiveCalculator.java:145-146 | A literal fails only when its denominator is zero, and then with DivByZero. |
| `Evaluator.ParseValueErrors` | src/main/java/edu/grinnell/csc207/main/InteractiveCalculator.java:132-150 | An operand never fails out of bounds, and fails with DivByZero only as a literal containing '/'. |
| `Evaluator.ParseValueRegister` | src/main/java/edu/grinnell/csc207/main/InteractiveCalculator.java:134-144 | A single lowercase letter reads its register; a single uppercase letter is Invalid. |
| `Evaluator.ParseValueOther` | src/main/java/edu/grinnell/csc207/main/InteractiveCalculator.java:145-149 | Any other token resolves exactly when it matches the literal pattern, and then it is `new BigFraction(token)`. |
| `Evaluator.Steps` | src/main/java/edu/grinnell/csc207/main/InteractiveCalculator.java:95-121 | A successful loop returns the value it leaves in the calculator. |
| `Evaluator.Evaluate` | src/main/java/edu/grinnell/csc207/main/InteractiveCalculator.java:83-122 | A successful evaluation returns the value it leaves in the calculator. |
| `Evaluator.EvaluateExpression` | src/main/java/edu/grinnell/csc207/main/InteractiveCalculator.java:83-122 | The loop over the calculator object returns, and leaves in the calculator, exactly what `Evaluate` gives for the old calculator value and the register contents. |
| `Evaluator.FormatOutput` | src/main/java/edu/grinnell/csc207/main/InteractiveCalculator.java:159-165 | The output contains '/' exactly when the denominator is not 1. |
| `Evaluator.FormatOutputRoundTrip` | src/main/java/edu/grinnell/csc207/main/InteractiveCalculator.java:159-165 | `formatOutput(r)` equals `r.toString()`, and parsing it gives r back. |
| `Evaluator.StoreTarget` | src/main/java/edu/grinnell/csc207/main/InteractiveCalculator.java:63-68 | A register it accepts is in 'a'..'z'. |
| `Evaluator.HandleStore` | src/main/java/edu/grinnell/csc207/main/InteractiveCalculator.java:63-71 | Succeeds exactly when the line names a register. It then stores the calculator's value there, and otherwise leaves the registers alone; the calculator is untouched. |
| `Evaluator.StorePieces` | src/main/java/edu/grinnell/csc207/main/InteractiveCalculator.java:63 | A STORE line splits into "STORE" followed by the pieces of the rest, trailing empties dropped. |
| `Evaluator.LetterThenSpaces` | src/main/java/edu/grinnell/csc207/main/InteractiveCalculator.java:63 | A letter followed only by spaces cuts into that letter and empty pieces. |
| `Evaluator.StoreTargetValid` | src/main/java/edu/grinnell/csc207/main/InteractiveCalculator.java:63-68 | "STORE " + a lowercase letter + any spaces names that letter. |
| `Evaluator.StoreTargetOnlyValid` | src/main/java/edu/grinnell/csc207/main/InteractiveCalculator.java:63-64 | Only such lines name a register. |
| `Evaluator.StoreTargetShape` | src/main/java/edu/grinnell/csc207/main/InteractiveCalculator.java:63-68 | Both directions: "STORE " + rest is valid exactly when rest is one lowercase letter followed only by spaces, and the register is that letter. |
| `Evaluator.FoldAppend` | src/main/java/edu/grinnell/csc207/main/InteractiveCalculator.java:95-119 | Folding p + q is folding p, then folding q from its result, and an error stops the fold. |
| `Evaluator.Pairs` | src/main/java/edu/grinnell/csc207/main/InteractiveCalculator.java:95-101 | Lists the (operator, operand) pairs m to n, one per pair. |
| `Evaluator.PairsAt` | src/main/java/edu/grinnell/csc207/main/InteractiveCalculator.java:95-101 | Entry k of that list is pair m + k, in token order. |
| `Evaluator.Operations` | src/main/java/edu/grinnell/csc207/main/InteractiveCalculator.java:95-101 | Lists all \|tokens\|/2 pairs of a well-formed line, in token order. |
| `Evaluator.FoldSnoc` | src/main/java/edu/grinnell/csc207/main/InteractiveCalculator.java:95-119 | Folding one more pair applies it to the fold so far, unless that fold has already failed. |
| `Evaluator.StepAt` | src/main/java/edu/grinnell/csc207/main/InteractiveCalculator.java:100-118 | One loop step over a valid pair applies that pair's operation, or stops with its error. |
| `Evaluator.StepsOkWellFormed` | src/main/java/edu/grinnell/csc207/main/InteractiveCalculator.java:95-119 | A loop that succeeds saw an odd token count and only valid pairs. |
| `Evaluator.StepsOverPairs` | src/main/java/edu/grinnell/csc207/main/InteractiveCalculator.java:95-119 | From pair m, the loop runs through pairs m to n as their fold does: on success it stands at token 2n+1 holding the fold, on failure it stops with the fold's error. |
| `Evaluator.PairFailure` | src/main/java/edu/grinnell/csc207/main/InteractiveCalculator.java:96-118 | A missing, bad or failing pair stops the loop with an error, keeping the value it had. |
| `Evaluator.StepsFailAfterPrefix` | src/main/java/edu/grinnell/csc207/main/InteractiveCalculator.java:95-119 | A loop that folds n pairs into w and then meets a failing pair stops holding w. |
| `Evaluator.StepError` | src/main/java/edu/grinnell/csc207/main/InteractiveCalculator.java:96-117 | A missing operand is Invalid. A bad operand's error is reported before the operator is looked at; a bad operator with a good operand is Invalid. |
| `Evaluator.EvaluateKeepsPrefix` | src/main/java/edu/grinnell/csc207/main/InteractiveCalculator.java:91-118 | When a later pair fails, the calculator keeps the fold of the pairs before it. |
| `Evaluator.EvaluateIsLeftFold` | src/main/java/edu/grinnell/csc207/main/InteractiveCalculator.java:90-121 | A well-formed line that passes the pre-check evaluates to the strict left-to-right fold of its pairs. |
| `Evaluator.EvaluateOkWellFormed` | src/main/java/edu/grinnell/csc207/main/InteractiveCalculator.java:86-121 | Only a well-formed line that passes the pre-check can succeed. |
| `Evaluator.EvaluateSucceeds` | src/main/java/edu/grinnell/csc207/main/InteractiveCalculator.java:86-121 | An evaluation gives v exactly when the line passes the pre-check, is well formed, and its left fold is v. |
| `Evaluator.EvenTokenCountFails` | src/main/java/edu/grinnell/csc207/main/InteractiveCalculator.java:95-98 | An even token count always fails. The contract says only that it fails, not that it fails as Invalid, because an earlier pair can fail first: in "1 / 0 x" the division at line 114 runs before the count check at line 96 for i = 3, so the error is DivByZero. |
| `Evaluator.OperandsErrors` | src/main/java/edu/grinnell/csc207/main/InteractiveCalculator.java:132-150 | No operand of any token fails out of bounds, and an operand failing with DivByZero has a '/' in its token. |
| `Evaluator.StepsNeverOutOfBounds` | src/main/java/edu/grinnell/csc207/main/InteractiveCalculator.java:95-119 | The loop never makes an out-of-bounds access. |
| `Evaluator.EvaluateOutOfBounds` | src/main/java/edu/grinnell/csc207/main/InteractiveCalculator.java:86-91 | Evaluation fails out of bounds exactly on a nonempty line of spaces only. |
| `Evaluator.StepsWithoutSlash` | src/main/java/edu/grinnell/csc207/main/InteractiveCalculator.java:100-118 | Tokens without a '/' never make the loop divide by zero. |
| `Evaluator.NoSlashNoDivByZero` | src/main/java/edu/grinnell/csc207/main/InteractiveCalculator.java:113-114 | DivByZero needs a '/' in the line, as an operator or inside a literal. |
| `Evaluator.EvaluateClearsFirst` | src/main/java/edu/grinnell/csc207/main/InteractiveCalculator.java:86-93 | The outcome does not depend on the calculator's earlier value. That value is kept whenever the pre-check fails, the split gives no tokens or the first operand fails; in every other case the value left behind does not depend on it, because the first operand resets the accumulator. |
| `Evaluator.WholeOperand` | src/main/java/edu/grinnell/csc207/main/InteractiveCalculator.java:145-146 | The text of a whole number is an operand with that value. |
| `Evaluator.DigitOperand` | src/main/java/edu/grinnell/csc207/main/InteractiveCalculator.java:145-146 | A one-digit token is the whole number it spells. |
| `Evaluator.NotRejected` | src/main/java/edu/grinnell/csc207/main/InteractiveCalculator.java:86-88 | A nonempty line not ending in an operator passes the pre-check. |
| `Evaluator.EvaluateFrom` | src/main/java/edu/grinnell/csc207/main/InteractiveCalculator.java:90-95 | Past the pre-check, with a good first operand, evaluation is the loop started from that operand. |
| `Evaluator.EvaluateBinary` | src/main/java/edu/grinnell/csc207/main/InteractiveCalculator.java:90-121 | `a op b` computes a op b; if the operation fails, the calculator keeps a. |
| `Evaluator.EvaluateBinaryBadOperand` | src/main/java/edu/grinnell/csc207/main/InteractiveCalculator.java:100-101 | In `a op b` with a bad b, the error is b's, and the calculator keeps a. |
| `Evaluator.SplitBinary` | src/main/java/edu/grinnell/csc207/main/InteractiveCalculator.java:90 | `a o b` of space-free operands splits into those three tokens. |
| `Evaluator.ExampleFreshRegister` | src/main/java/edu/grinnell/csc207/main/InteractiveCalculator.java:134-144 | On fresh registers `c + d` gives d, so "a + 1" is 1. |
| `Evaluator.DigitDivision` | src/main/java/edu/grinnell/csc207/main/InteractiveCalculator.java:113-114 | `p / q` of two digits is the quotient of the whole numbers, or keeps p on failure. |
| `Evaluator.ExampleDigitDivision` | src/main/java/edu/grinnell/csc207/main/QuickCalculator.java:100-101 | `p / q` is the normalized p/q, so "4 / 2" is 4/2 = 2/1. With q = 0 it fails with DivByZero, leaving p. |
| `Evaluator.ExampleNoPrecedence` | src/main/java/edu/grinnell/csc207/main/InteractiveCalculator.java:95-119 | The left fold of 1, (+ 2), (· 3) is 9: there is no precedence. |
| `Evaluator.ExampleInvalid` | src/main/java/edu/grinnell/csc207/main/InteractiveCalculator.java:86-88 | "1 +" is refused before the calculator is touched, and "A" is Invalid. |
| `Evaluator.ExampleBlank` | src/main/java/edu/grinnell/csc207/main/QuickCalculator.java:77-78 | "   " fails out of bounds. |
| `Frontends.IsQuit` | src/main/java/edu/grinnell/csc207/main/InteractiveCalculator.java:36 | `equalsIgnoreCase("QUIT")`, including the dotted capital I and the dotless small i that Java's case-insensitive comparison equates with I. `ExampleQuit` shows which lines match. |
| `Frontends.ExampleQuit` | src/main/java/edu/grinnell/csc207/main/InteractiveCalculator.java:36 | "QUIT", "quit", "qUiT" and "QU\u0131T" match; "QUIT ", "QUI" and "EXIT" do not. |
| `Frontends.Start` | src/main/java/edu/grinnell/csc207/main/QuickCalculator.java:22-23 | A session starts with the calculator at 0/1 and every register at 0/1. |
| `Frontends.AfterStore` | src/main/java/edu/grinnell/csc207/main/QuickCalculator.java:51-58 | A valid STORE copies the calculator's value into the named register, and every other register and the calculator are unchanged. |
| `Frontends.InteractiveCommand` | src/main/java/edu/grinnell/csc207/main/InteractiveCalculator.java:36-46 | Handling a trimmed line keeps the session's state well formed. |
| `Frontends.InteractiveStep` | src/main/java/edu/grinnell/csc207/main/InteractiveCalculator.java:34-46 | Each line keeps the session's state well formed. |
| `Frontends.QuickStep` | src/main/java/edu/grinnell/csc207/main/QuickCalculator.java:28-36 | An argument never quits, and keeps the state well formed. |
| `Frontends.QuickRun` | src/main/java/edu/grinnell/csc207/main/QuickCalculator.java:27-38 | Prints at most one line per argument, and one for each when nothing crashes. |
| `Frontends.InteractiveRun` | src/main/java/edu/grinnell/csc207/main/InteractiveCalculator.java:31-48 | Prints at most one line per input line, and one for each when the input runs out. |
| `Frontends.QuickLine` | src/main/java/edu/grinnell/csc207/main/QuickCalculator.java:28-36 | One argument on the shared objects does exactly what `QuickStep` says, to the output and to the state. |
| `Frontends.InteractiveLine` | src/main/java/edu/grinnell/csc207/main/InteractiveCalculator.java:34-46 | One line on the shared objects does exactly what `InteractiveStep` says. |
| `Frontends.RunQuick` | src/main/java/edu/grinnell/csc207/main/QuickCalculator.java:21-39 | The loop over the arguments, with one calculator and register set, prints and ends as `QuickRun` from a fresh session. |
| `Frontends.RunInteractive` | src/main/java/edu/grinnell/csc207/main/InteractiveCalculator.java:23-48 | The loop over the input lines prints and ends as `InteractiveRun` from a fresh session. |
| `Frontends.InteractiveTrims` | src/main/java/edu/grinnell/csc207/main/InteractiveCalculator.java:34 | A line and its trimmed form act alike. |
| `Frontends.InteractiveNeverOutOfBounds` | src/main/java/edu/grinnell/csc207/main/InteractiveCalculator.java:34-43 | Trimming rules out a line of spaces, so the interactive loop never fails out of bounds. |
| `Frontends.QuickOutOfBounds` | src/main/java/edu/grinnell/csc207/main/QuickCalculator.java:73-78 | The command-line calculator crashes out of bounds exactly on a nonempty argument of spaces only. |
| `Frontends.QuickCrashNeedsSlash` | src/main/java/edu/grinnell/csc207/main/QuickCalculator.java:31-36 | Without a '/', an argument crashes only by being all spaces. |
| `Frontends.FrontEndsAgree` | src/main/java/edu/grinnell/csc207/main/QuickCalculator.java:27-38 | On a line that needs no trimming and is not QUIT, both front ends reach the same state, print in the same cases and crash alike. |
| `Frontends.QuickStoreLine` | src/main/java/edu/grinnell/csc207/main/QuickCalculator.java:51-55 | `STORE c` prints "STORE c -> STORED" and copies the calculator's value into c. |
| `Frontends.QuickRunAppend` | src/main/java/edu/grinnell/csc207/main/QuickCalculator.java:22-38 | State persists across arguments: running a + b runs a, then b from a's final state, unless a crashed. |
| `Frontends.InteractiveRunAppend` | src/main/java/edu/grinnell/csc207/main/InteractiveCalculator.java:27-48 | The same for the interactive loop, which also ends for good at QUIT. |
| `Frontends.QuickInvalidLine` | src/main/java/edu/grinnell/csc207/main/QuickCalculator.java:31-36 | An Invalid argument prints "<arg>: FAILED [Invalid expression]" and keeps what the failed evaluation left in the calculator. |
| `Frontends.QuickStoreAfterFailure` | src/main/java/edu/grinnell/csc207/main/QuickCalculator.java:22-38 | After an argument that fails as Invalid past n good pairs, a following `STORE c` saves exactly the fold of those n pairs. |

## Left out

- The Scanner and PrintWriter I/O, the prompt and flushing are not modelled. A session is a sequence of input lines, and its output is a sequence of printed lines; an uncaught exception ends the run with that error kind. When its input runs out, InteractiveCalculator would throw NoSuchElementException; the model reports that case as the end of the input.
- `Character.isLetter` and `Character.isLowerCase` are restricted to ASCII, as is `equalsIgnoreCase`, except that the dotted and dotless i are kept. On ASCII, `isLowerCase` is the register range 'a'..'z', so the model uses `Registers.IsRegister` for both. A single non-ASCII letter behaves differently in Java:
  - As an operand, a lowercase one reaches `BFRegisterSet.get`, which throws IllegalArgumentException at BFRegisterset.java line 47. Both loops catch it (InteractiveCalculator.java line 44, QuickCalculator.java line 34). InteractiveCalculator then prints "Register must be a letter from 'a' to 'z'.", where the model prints the invalid-expression message. QuickCalculator's output is the same as the model's.
  - As a STORE register, a lowercase one reaches `BFRegisterSet.store`, whose IllegalArgumentException is not caught, because `handleStoreCommand` has no try. The model instead reports an invalid register.
- `new BigInteger(String)` accepts only ASCII digits in the model; Java also accepts other Unicode decimal digits. The evaluator's literal pattern admits only ASCII digits, so the calculator is unaffected.
- The `value == null` branch of `parseValue` (InteractiveCalculator.java line 141, QuickCalculator.java line 128) is not modelled. No register is ever null, which `Registers.BFRegisterSet.Get` states.
- The `int` constructor `BigFraction(int, int)` (BigFraction.java lines 48-50) is modelled by `BigFractions.Make`, because Dafny integers are unbounded.
- `numerator()` and `denominator()` are the fields `num` and `den` of the datatype.
- Evaluating longer concrete lines, such as "1 + 2 * 3", is shown on the fold (`Evaluator.ExampleNoPrecedence` together with `Evaluator.EvaluateIsLeftFold`) rather than worked through the text. One- and three-token lines are shown on the text itself.
- Exception messages are modelled only where they are printed: the interactive messages and the command-line lines. The messages of uncaught exceptions are not.
- Frontends.InteractiveCommand: its own contract says only that the state stays well formed; its behaviour is stated by `InteractiveLine` and the lemmas about the interactive loop.
- Frontends.InteractiveStep: its own contract says only that the state stays well formed; its behaviour is stated by `InteractiveLine` and the lemmas about it.
- Frontends.QuickStep: its own contract says only that the state stays well formed and that an argument never quits; its behaviour is stated by `QuickLine` and the lemmas about it.
