/** Worked examples of the normalisation passes, and key sequences from the source's
    tests followed to the text the evaluator receives. */
module Scenarios {
  import opened Text
  import opened ImplicitMul
  import opened Trig
  import opened Editor
  import opened Session
  import Behaviour

  // ---------------------------------------------------------------- implicit multiplication

  /** The pass at a table name with no value before it: the name is copied. */
  lemma TokenCopied(s: string, prev: Option<char>, j: nat, rest: string)
    requires |s| > 0 && FirstTokenIndex(s) == Some(j) && !OperandBefore(prev)
    requires 2 <= |FunctionTable[j]| <= |s|
    requires Juxtapose(s[|FunctionTable[j]|..], Some(FunctionTable[j][|FunctionTable[j]| - 1])) == rest
    ensures Juxtapose(s, prev) == FunctionTable[j] + rest
  {
    UnfoldToken(s, prev, j);
  }

  /** The pass at a character that starts no table name: a `*` when one is due, then
      the character. */
  lemma CharCopied(s: string, prev: Option<char>, rest: string)
    requires |s| > 0 && s[0] !in "sctalep"
    requires Juxtapose(s[1..], Some(s[0])) == rest
    ensures Juxtapose(s, prev) == StarIf(StarBeforeChar(s[0], prev)) + [s[0]] + rest
  {
    NoTokenAt(s);
    UnfoldChar(s, prev);
  }

  /** CharCopied for a string written as its first character and the rest. */
  lemma CharThen(c: char, rest: string, prev: Option<char>, out: string)
    requires c !in "sctalep"
    requires Juxtapose(rest, Some(c)) == out
    ensures Juxtapose([c] + rest, prev) == StarIf(StarBeforeChar(c, prev)) + [c] + out
  {
    var s := [c] + rest;
    assert s[0] == c && s[1..] == rest;
    CharCopied(s, prev, out);
  }

  /** A character that is no table name's first letter and needs no `*` before it is
      copied as it is. */
  lemma CharKept(c: char, rest: string, prev: Option<char>)
    requires c !in "sctalep" && !StarBeforeChar(c, prev)
    requires Juxtapose(rest, Some(c)) == rest
    ensures Juxtapose([c] + rest, prev) == [c] + rest
  {
    CharThen(c, rest, prev, rest);
  }

  /** CharKept for the last character. */
  lemma LastKept(c: char, prev: Option<char>)
    requires c !in "sctalep" && !StarBeforeChar(c, prev)
    ensures Juxtapose([c], prev) == [c]
  {
    NoTokenAt([c]);
    UnfoldChar([c], prev);
    assert [c][1..] == [];
  }

  /** The pass is the scan started with nothing written. */
  lemma ScanFromStart(s: string, t: string)
    requires Juxtapose(s, None) == t
    ensures AddImplicitMultiplication(s) == t
  {
  }

  /** A digit before `pi` gets a `*`: `2pi` becomes `2*pi`. */
  lemma NumberBeforePi(d: char)
    requires IsAsciiDigit(d)
    ensures AddImplicitMultiplication([d] + "pi") == [d] + "*pi"
  {
    PiAfter(d);
    CharThen(d, "pi", None, "*pi");
    ScanFromStart([d] + "pi", [d] + "*pi");
  }

  /** `pi` after `c`: a `*` exactly when `c` ends a value. */
  lemma PiAfter(c: char)
    ensures Juxtapose("pi", Some(c)) == StarIf(Operand(c)) + "pi"
  {
    FirstTokenIndexIs("pi", 11);
    UnfoldToken("pi", Some(c), 11);
    assert FunctionTable[11] == "pi";
    assert "pi"[2..] == [];
  }

  /** A `*` already in place stops the pass from writing another: `2*pi` is kept. */
  lemma StarBeforePiKept(g: string, d: char)
    requires IsAsciiDigit(d) && g == [d] + "*pi"
    ensures AddImplicitMultiplication(g) == g
  {
    StarThenPi(d);
    CharKept(d, "*pi", None);
    ScanFromStart(g, g);
  }

  lemma StarThenPi(d: char)
    ensures Juxtapose("*pi", Some(d)) == "*pi"
  {
    PiAfter('*');
    CharKept('*', "pi", Some(d));
    assert ['*'] + "pi" == "*pi";
  }

  lemma HeadDiffers(s: string, t: string)
    requires |s| > 0 && |t| > 0 && s[0] != t[0]
    ensures !StartsWith(s, t)
  {
    if |t| <= |s| {
      assert s[..|t|][0] != t[0];
    }
  }

  /** The name `log10` ends in a digit, so the pass writes a `*` between it and its
      own `(`: `log10(2)` becomes `log10*(2)`. */
  lemma LogNameThenParen(x: char)
    requires IsAsciiDigit(x)
    ensures AddImplicitMultiplication("log10" + Bracketed(x)) == "log10" + ("*" + Bracketed(x))
  {
    var s := "log10" + Bracketed(x);
    assert StartsWith(s, "log10") by { assert s[..5] == "log10"; }
    LogFirstToken(s);
    TokenFacts(6);
    assert FunctionTable[6] == "log10";
    assert s[5..] == Bracketed(x);
    ParenAfterDigit('0', x);
    TokenCopied(s, None, 6, "*" + Bracketed(x));
    ScanFromStart(s, "log10" + ("*" + Bracketed(x)));
  }

  /** `(x)`, written as the pass reads it: `(`, then `x`, then `)`. */
  function Bracketed(x: char): (r: string)
    ensures r == "(" + [x] + ")"
  {
    ['('] + ([x] + [')'])
  }

  lemma LogFirstToken(s: string)
    requires StartsWith(s, "log10")
    ensures FirstTokenIndex(s) == Some(6)
  {
    forall j | 0 <= j < 6
      ensures !StartsWith(s, FunctionTable[j])
    {
      HeadDiffers(s, FunctionTable[j]);
    }
    FirstTokenIndexIs(s, 6);
  }

  /** `(x)` after a digit `d`: a `*` before the `(`, nothing else. */
  lemma ParenAfterDigit(d: char, x: char)
    requires IsAsciiDigit(d) && IsAsciiDigit(x)
    ensures Juxtapose(Bracketed(x), Some(d)) == "*" + Bracketed(x)
  {
    DigitThenClose(x);
    CharThen('(', [x] + [')'], Some(d), [x] + [')']);
    assert StarIf(StarBeforeChar('(', Some(d))) == "*";
  }

  lemma DigitThenClose(x: char)
    requires IsAsciiDigit(x)
    ensures Juxtapose([x] + [')'], Some('(')) == [x] + [')']
  {
    LastKept(')', Some(x));
    CharKept(x, [')'], Some('('));
  }

  // ---------------------------------------------------------------- degrees to radians

  /** A string that ends with its first call `func(inner)`: the text before the call
      is copied and the call rewritten. */
  lemma LastCall(func: string, s: string, pos: nat, end: nat)
    requires NoParens(func)
    requires Find(s, func + "(") == Some(pos)
    requires FindClosingParen(s[pos..], |func|) == Some(end) && pos + end == |s| - 1
    ensures RewriteCalls(func, s) == s[..pos] + RadiansCall(func, s[pos..][|func| + 1..end])
  {
    RewriteCallsUnfold(func, s);
    assert s[pos..][end + 1..] == [];
    assert RewriteCalls(func, []) == [];
    EmptyAround(s[..pos], RadiansCall(func, s[pos..][|func| + 1..end]));
  }

  /** A string that is one call `func(inner)` is rewritten as a whole. */
  lemma OneCall(func: string, s: string, end: nat)
    requires NoParens(func)
    requires OccursAt(s, func + "(", 0)
    requires FindClosingParen(s, |func|) == Some(end) && end == |s| - 1
    ensures RewriteCalls(func, s) == RadiansCall(func, s[|func| + 1..end])
  {
    FindAtStart(s, func + "(");
    assert s[0..] == s;
    LastCall(func, s, 0, end);
    assert s[..0] == [];
    EmptyAround([], RadiansCall(func, s[|func| + 1..end]));
  }

  lemma FindAtStart(s: string, pattern: string)
    requires OccursAt(s, pattern, 0)
    ensures Find(s, pattern) == Some(0)
  {
  }

  lemma EmptyAround(p: string, r: string)
    ensures p + r + [] == p + r && [] + r == r
  {
  }

  /** `sin(ab)` for digits `a`, `b`: the argument is multiplied by pi/180, as for
      `sin(30)`. */
  lemma SinOfAngle(s: string, a: char, b: char)
    requires IsAsciiDigit(a) && IsAsciiDigit(b)
    requires s == "sin(" + [a, b] + ")"
    ensures RewriteCalls("sin", s) == RadiansCall("sin", [a, b])
  {
    assert "sin" + "(" == "sin(";
    assert s[..4] == "sin(";
    AngleClose(s, a, b);
    assert s[4..6] == [a, b];
    OneCall("sin", s, 6);
  }

  lemma AngleClose(s: string, a: char, b: char)
    requires IsAsciiDigit(a) && IsAsciiDigit(b)
    requires s == "sin(" + [a, b] + ")"
    ensures FindClosingParen(s, 3) == Some(6)
  {
    assert s[3..4] == "(";
    DepthOfChar('(');
    StepDepth(s, 3, 4);
    StepDepth(s, 3, 5);
    StepDepth(s, 3, 6);
  }

  /** In `sin(sin(ab))` only the outer call is rewritten: its argument is copied as it
      is, so the inner angle is read in radians. */
  lemma NestedSinKept(s: string, a: char, b: char)
    requires IsAsciiDigit(a) && IsAsciiDigit(b)
    requires s == "sin(sin(" + [a, b] + "))"
    ensures RewriteCalls("sin", s) == RadiansCall("sin", "sin(" + [a, b] + ")")
  {
    NestedClose(s, a, b);
    NestedShape(s, a, b);
    OneCall("sin", s, 11);
  }

  lemma NestedShape(s: string, a: char, b: char)
    requires s == "sin(sin(" + [a, b] + "))"
    ensures OccursAt(s, "sin" + "(", 0) && |s| == 12
    ensures s[|"sin"| + 1..11] == "sin(" + [a, b] + ")"
  {
    assert "sin" + "(" == "sin(";
    assert s[..4] == "sin(";
  }

  lemma NestedClose(s: string, a: char, b: char)
    requires IsAsciiDigit(a) && IsAsciiDigit(b)
    requires s == "sin(sin(" + [a, b] + "))"
    ensures FindClosingParen(s, 3) == Some(11)
  {
    assert s[3..4] == "(";
    DepthOfChar('(');
    StepDepth(s, 3, 4);
    StepDepth(s, 3, 5);
    StepDepth(s, 3, 6);
    StepDepth(s, 3, 7);
    StepDepth(s, 3, 8);
    StepDepth(s, 3, 9);
    StepDepth(s, 3, 10);
    StepDepth(s, 3, 11);
  }

  /** `asin(` holds `sin(`, so the inverse sine's argument is converted as if it were
      an angle. */
  lemma ArcSineMatched(a: char)
    requires IsAsciiDigit(a)
    ensures RewriteCalls("sin", "asin(" + [a] + ")") == "a" + RadiansCall("sin", [a])
  {
    var s := "asin(" + [a] + ")";
    assert "sin" + "(" == "sin(";
    assert s[0..4][0] == 'a';
    assert !OccursAt(s, "sin(", 0);
    assert s[1..5] == "sin(";
    assert OccursAt(s, "sin(", 1);
    assert Find(s, "sin(") == Some(1);
    var rem := s[1..];
    assert rem == "sin(" + [a] + ")";
    ArgumentClose(rem, a);
    LastCall("sin", s, 1, 5);
    assert s[..1] == "a" && rem[4..5] == [a];
  }

  lemma ArgumentClose(s: string, a: char)
    requires IsAsciiDigit(a)
    requires s == "sin(" + [a] + ")"
    ensures FindClosingParen(s, 3) == Some(5)
  {
    assert s[3..4] == "(";
    DepthOfChar('(');
    StepDepth(s, 3, 4);
    StepDepth(s, 3, 5);
  }

  /** A call whose argument never closes is copied, and the scan goes on after it. */
  lemma UnclosedCallCopied()
    ensures RewriteCalls("sin", "sin(") == "sin("
  {
    var s := "sin(";
    assert "sin" + "(" == "sin(";
    assert OccursAt(s, "sin(", 0);
    assert Find(s, "sin(") == Some(0);
    assert s[0..] == s;
    assert FindClosingParen(s, 3) == None;
    RewriteCallsUnfold("sin", s);
    assert s[0..][4..] == [] && s[..0] == [];
    assert RewriteCalls("sin", []) == [];
  }

  // ---------------------------------------------------------------- key sequences

  /** A pattern whose first character does not occur in `s` occurs nowhere in it. */
  lemma AbsentHead(s: string, pat: string)
    requires |pat| > 0 && pat[0] !in s
    ensures forall q: nat :: !OccursAt(s, pat, q)
  {
    forall q: nat
      ensures !OccursAt(s, pat, q)
    {
      if q + |pat| <= |s| {
        assert s[q..q + |pat|][0] == s[q];
      }
    }
  }

  /** From the decimal-point test: 3 . 1 4 types "3.14"; the first digit is not a zero,
      so the point comes without a leading zero. */
  lemma TypingDecimal(keys: seq<Key>, a: DigitChar, b: DigitChar, d: DigitChar, eval: string -> EvalOutcome)
    requires a != '0'
    requires keys == [Digit(a), Point, Digit(b), Digit(d)]
    ensures Run(Default(), keys, eval).expression == [a] + "." + [b] + [d]
  {
    DecimalSteps(keys, a, b, d, eval);
    PointAfterDigit(InputDigit(Default(), [a]), a);
  }

  /** The four keys as the operations they call. */
  lemma DecimalSteps(keys: seq<Key>, a: DigitChar, b: DigitChar, d: DigitChar, eval: string -> EvalOutcome)
    requires keys == [Digit(a), Point, Digit(b), Digit(d)]
    ensures Run(Default(), keys, eval)
            == InputDigit(InputDigit(InputDecimal(InputDigit(Default(), [a])), [b]), [d])
  {
    var k1 := [Digit(a)];
    var k2 := k1 + [Point];
    var k3 := k2 + [Digit(b)];
    assert keys == k3 + [Digit(d)];
    var c0 := Default();
    RunSnoc(c0, [], Digit(a), eval);
    assert [] + k1 == k1;
    RunSnoc(c0, k1, Point, eval);
    RunSnoc(c0, k2, Digit(b), eval);
    RunSnoc(c0, k3, Digit(d), eval);
  }

  lemma PointAfterDigit(c: Calculator, a: char)
    requires IsAsciiDigit(a) && a != '0'
    requires c == InputDigit(Default(), [a])
    ensures c.expression == [a] && c.display == [a]
    ensures InputDecimal(c).expression == c.expression + "."
  {
    NoPointInSuffix([a]);
    PieceAfterDigit(a);
  }

  /** The last number is a suffix, so it holds a point only when the text does. */
  lemma NoPointInSuffix(s: string)
    requires '.' !in s
    ensures '.' !in LastNumber(s)
  {
  }

  lemma PieceAfterDigit(a: char)
    requires IsAsciiDigit(a) && a != '0'
    ensures DecimalPiece([a]) == "."
  {
    assert !EndsWithOperandStart([a]);
  }

  /** From the addition test: a + b reaches the evaluator, and its value is what the
      history records against the display; a + alone is refused as incomplete. */
  lemma Addition(keys: seq<Key>, a: DigitChar, b: DigitChar, v: string, eval: string -> EvalOutcome)
    requires keys == [Digit(a), Operator(Plus), Digit(b)]
    requires eval([a, '+', b]) == Value(v)
    ensures var c := Run(Default(), keys, eval);
            && c.expression == [a, '+', b]
            && Preprocess(c) == [a, '+', b]
            && Calculate(c, eval).1 == Success(v)
            && Calculate(c, eval).0.history == [HistoryEntry([a, '+', b], v)]
            && Calculate(c, eval).0.display == v
    ensures Calculate(Run(Default(), keys[..2], eval), eval).1 == Failure("Incomplete")
  {
    AdditionSteps(keys, a, b, eval);
    var c1 := InputDigit(Default(), [a]);
    var c2 := InputOperator(c1, "+");
    PlusAfterDigit(c1, c2, a);
    var c3 := InputDigit(c2, [b]);
    DigitAfterPlus(c2, c3, a, b);
    assert c3.openParens == 0 && c3.angleMode == Degrees;
    SumPreprocessed(c3, a, b);
    SumCalculated(c3, a, b, v, eval);
    IncompleteAfterPlus(c2, a, eval);
  }

  /** The evaluator receives `a+b` as it was typed. */
  lemma SumPreprocessed(c: Calculator, a: DigitChar, b: DigitChar)
    requires c.expression == [a, '+', b] && c.openParens == 0 && c.angleMode == Degrees
    ensures Preprocess(c) == [a, '+', b]
  {
    SumStages(c.expression, a, b);
    PreprocessChain(c, c.expression, c.expression);
  }

  /** Each preprocessing stage leaves `a+b` as it is. */
  lemma SumStages(g: string, a: DigitChar, b: DigitChar)
    requires g == [a, '+', b]
    ensures SubstituteGlyphs(g) == g
    ensures AddImplicitMultiplication(g) == g
    ensures Trig.ConvertTrigToRadians(g) == g
  {
    assert SubstituteGlyphs(g) == g by {
      assert forall k :: 0 <= k < |g| ==> !Behaviour.IsGlyph(g[k]);
      Behaviour.GlyphFreeKept(g);
    }
    assert AddImplicitMultiplication(g) == g by { SumKept(g, a, b); }
    SumNoTrig(g, a, b);
  }

  lemma SumNoTrig(g: string, a: DigitChar, b: DigitChar)
    requires g == [a, '+', b]
    ensures Trig.ConvertTrigToRadians(g) == g
  {
    assert 's' !in g && 'c' !in g && 't' !in g;
    NoTrigCall(g);
  }

  /** Nothing is juxtaposed in `a+b`. */
  lemma SumKept(g: string, a: DigitChar, b: DigitChar)
    requires g == [a, '+', b]
    ensures AddImplicitMultiplication(g) == g
  {
    var rest := ['+', b];
    PlusThenDigit(a, b, rest);
    assert g == [a] + rest;
    CharKept(a, rest, None);
    ScanFromStart(g, g);
  }

  lemma PlusThenDigit(a: DigitChar, b: DigitChar, rest: string)
    requires rest == ['+', b]
    ensures Juxtapose(rest, Some(a)) == rest
  {
    LastKept(b, Some('+'));
    assert rest == ['+'] + [b];
    CharKept('+', [b], Some(a));
  }

  /** The three keys as the operations they call. */
  lemma AdditionSteps(keys: seq<Key>, a: DigitChar, b: DigitChar, eval: string -> EvalOutcome)
    requires keys == [Digit(a), Operator(Plus), Digit(b)]
    ensures Run(Default(), keys[..2], eval) == InputOperator(InputDigit(Default(), [a]), "+")
    ensures Run(Default(), keys, eval) == InputDigit(InputOperator(InputDigit(Default(), [a]), "+"), [b])
  {
    var k1 := [Digit(a)];
    var k2 := k1 + [Operator(Plus)];
    assert keys[..2] == k2 && keys == k2 + [Digit(b)];
    var c0 := Default();
    RunSnoc(c0, [], Digit(a), eval);
    assert [] + k1 == k1;
    RunSnoc(c0, k1, Operator(Plus), eval);
    RunSnoc(c0, k2, Digit(b), eval);
  }

  /** `+` after a first digit is written to both buffers. */
  lemma PlusAfterDigit(c1: Calculator, c2: Calculator, a: DigitChar)
    requires c1 == InputDigit(Default(), [a]) && c2 == InputOperator(c1, "+")
    ensures c2.expression == [a, '+'] && c2.display == [a, '+'] && c2.history == []
  {
    FirstDigit(c1, a);
    OperatorAfterDigit(c1, c2, a, '+');
  }

  lemma FirstDigit(c1: Calculator, a: DigitChar)
    requires c1 == InputDigit(Default(), [a])
    ensures c1.expression == [a] && c1.display == [a] && c1.history == []
  {
  }

  lemma OperatorAfterDigit(c1: Calculator, c2: Calculator, a: DigitChar, op: char)
    requires c1.expression == [a] && c1.display == [a]
    requires IsOperatorChar(op) && c2 == InputOperator(c1, [op])
    ensures c2.expression == [a, op] && c2.display == [a, op] && c2.history == c1.history
  {
    EndsWithOperatorChars(c1.expression);
    assert [a] + [op] == [a, op];
  }

  lemma DigitAfterPlus(c2: Calculator, c3: Calculator, a: DigitChar, b: DigitChar)
    requires c2.expression == [a, '+'] && c2.display == [a, '+'] && c2.history == []
    requires c3 == InputDigit(c2, [b])
    ensures c3.expression == [a, '+', b] && c3.display == c3.expression && c3.history == []
  {
  }

  /** `a+b` is complete, so its value is recorded against it. */
  lemma SumCalculated(c: Calculator, a: DigitChar, b: DigitChar, v: string, eval: string -> EvalOutcome)
    requires c.expression == [a, '+', b] && c.display == c.expression && c.history == []
    requires eval(Preprocess(c)) == Value(v)
    ensures Calculate(c, eval).1 == Success(v)
    ensures Calculate(c, eval).0.history == [HistoryEntry([a, '+', b], v)]
    ensures Calculate(c, eval).0.display == v
  {
    assert !EndsIncomplete(c.expression);
    Behaviour.SuccessfulCalculation(c, eval, v);
  }

  /** `a+` alone ends in an operator. */
  lemma IncompleteAfterPlus(c2: Calculator, a: DigitChar, eval: string -> EvalOutcome)
    requires c2.expression == [a, '+']
    ensures Calculate(c2, eval).1 == Failure("Incomplete")
  {
    assert EndsIncomplete(c2.expression);
  }

  /** From the implicit-multiplication test: a digit then pi shows `2×π`, and the
      evaluator receives `2*pi`. */
  lemma DigitThenPi(keys: seq<Key>, d: DigitChar, eval: string -> EvalOutcome)
    requires keys == [Digit(d), Constant(Pi)]
    ensures Run(Default(), keys, eval).expression == [d, TimesSign, PiSign]
    ensures Preprocess(Run(Default(), keys, eval)) == [d] + "*pi"
  {
    DigitPiTyped(keys, d, eval);
    DigitPiPreprocessed(Run(Default(), keys, eval), d);
  }

  lemma DigitPiPreprocessed(c: Calculator, d: char)
    requires IsAsciiDigit(d)
    requires c.expression == [d, TimesSign, PiSign] && c.openParens == 0 && c.angleMode == Degrees
    ensures Preprocess(c) == [d] + "*pi"
  {
    var g := [d] + "*pi";
    DigitPiGlyphs(c.expression, g, d);
    StarBeforePiKept(g, d);
    PiNoTrig(g, d);
    PreprocessChain(c, g, g);
  }

  lemma PiNoTrig(g: string, d: char)
    requires IsAsciiDigit(d) && g == [d] + "*pi"
    ensures Trig.ConvertTrigToRadians(g) == g
  {
    NoTrigCall(g);
  }

  lemma DigitPiTyped(keys: seq<Key>, d: DigitChar, eval: string -> EvalOutcome)
    requires keys == [Digit(d), Constant(Pi)]
    ensures var c := Run(Default(), keys, eval);
            c.expression == [d, TimesSign, PiSign] && c.openParens == 0 && c.angleMode == Degrees
  {
    var k1 := [Digit(d)];
    assert keys == k1 + [Constant(Pi)];
    var c0 := Default();
    RunSnoc(c0, [], Digit(d), eval);
    assert [] + k1 == k1;
    RunSnoc(c0, k1, Constant(Pi), eval);
    var c1 := Run(c0, k1, eval);
    assert c1.expression == [d];
    assert ImplicitTimes(c1.expression) == [TimesSign];
  }

  lemma DigitPiGlyphs(e: string, g: string, d: char)
    requires IsAsciiDigit(d)
    requires e == [d, TimesSign, PiSign] && g == [d] + "*pi"
    ensures SubstituteGlyphs(e) == g
  {
    Behaviour.SubstituteIsMap(e);
    assert Behaviour.MapGlyphs(e[..2]) == [d, '*'] by {
      assert e[..2] == [d, TimesSign];
      DigitTimesGlyphs(d);
    }
    assert Behaviour.Glyph(PiSign) == "pi";
    assert [d, '*'] + "pi" == g;
  }

  lemma DigitTimesGlyphs(d: char)
    requires IsAsciiDigit(d)
    ensures Behaviour.MapGlyphs([d, TimesSign]) == [d, '*']
  {
    var e := [d, TimesSign];
    assert e[..1] == [d];
    assert [d][..0] == [];
    assert Behaviour.Glyph(d) == [d];
    assert Behaviour.MapGlyphs([d]) == [] + [d];
    assert Behaviour.Glyph(TimesSign) == "*";
  }

  /** A string without `s`, `c` or `t` holds no trigonometric call to rewrite. */
  lemma NoTrigCall(s: string)
    requires 's' !in s && 'c' !in s && 't' !in s
    ensures Trig.ConvertTrigToRadians(s) == s
  {
    AbsentHead(s, "sin(");
    AbsentHead(s, "cos(");
    AbsentHead(s, "tan(");
  }

  /** From the degree-mode test: sin, two digits and `)` give `sin(ab)`, and the
      evaluator receives the argument scaled by pi/180. */
  lemma SinAngleKeys(keys: seq<Key>, a: DigitChar, b: DigitChar, eval: string -> EvalOutcome)
    requires keys == [Function(Sin), Digit(a), Digit(b), CloseParen]
    ensures Run(Default(), keys, eval).expression == "sin(" + [a, b] + ")"
    ensures Run(Default(), keys, eval).openParens == 0
    ensures Preprocess(Run(Default(), keys, eval)) == RadiansCall("sin", [a, b])
  {
    SinAngleTyped(keys, a, b, eval);
    SinAnglePreprocessed(Run(Default(), keys, eval), a, b);
  }

  lemma SinAnglePreprocessed(c: Calculator, a: char, b: char)
    requires IsAsciiDigit(a) && IsAsciiDigit(b)
    requires c.expression == "sin(" + [a, b] + ")" && c.openParens == 0 && c.angleMode == Degrees
    ensures Preprocess(c) == RadiansCall("sin", [a, b])
  {
    var s := c.expression;
    SinAngleGlyphs(s, a, b);
    SinAngleKept(s, a, b);
    SinAngleConverted(s, a, b);
    PreprocessChain(c, s, RadiansCall("sin", [a, b]));
  }

  /** Preprocessing a balanced expression in Degrees mode, pass by pass: the glyphs
      give `g`, the `*` pass leaves `g` as it is, and the trigonometric rewrite
      gives `r`. */
  lemma PreprocessChain(c: Calculator, g: string, r: string)
    requires c.openParens == 0 && c.angleMode == Degrees
    requires SubstituteGlyphs(c.expression) == g
    requires AddImplicitMultiplication(g) == g
    requires Trig.ConvertTrigToRadians(g) == r
    ensures Preprocess(c) == r
  {
    assert AutoClose(0) == [];
    assert g + [] == g;
  }

  lemma SinAngleKept(s: string, a: char, b: char)
    requires IsAsciiDigit(a) && IsAsciiDigit(b)
    requires s == "sin(" + [a, b] + ")"
    ensures AddImplicitMultiplication(s) == s
  {
    SinText(a, b);
    SinAngleJuxtaposed(a, b);
  }

  lemma SinAngleConverted(s: string, a: char, b: char)
    requires IsAsciiDigit(a) && IsAsciiDigit(b)
    requires s == "sin(" + [a, b] + ")"
    ensures Trig.ConvertTrigToRadians(s) == RadiansCall("sin", [a, b])
  {
    SinOfAngle(s, a, b);
    SinAngleOnly(s, a, b);
  }

  lemma SinAngleOnly(s: string, a: char, b: char)
    requires IsAsciiDigit(a) && IsAsciiDigit(b)
    requires s == "sin(" + [a, b] + ")"
    requires RewriteCalls("sin", s) == RadiansCall("sin", [a, b])
    ensures Trig.ConvertTrigToRadians(s) == RadiansCall("sin", [a, b])
  {
    SinRewrittenOnly(s, [a, b]);
  }

  /** A string whose sin pass yields one rewritten call of digits is left there by
      the cos and tan passes. */
  lemma SinRewrittenOnly(s: string, arg: string)
    requires forall k :: 0 <= k < |arg| ==> IsAsciiDigit(arg[k])
    requires RewriteCalls("sin", s) == RadiansCall("sin", arg)
    ensures Trig.ConvertTrigToRadians(s) == RadiansCall("sin", arg)
  {
    NoCosTan(arg);
    OnlySinRewritten(s, RadiansCall("sin", arg));
  }

  lemma SinAngleTyped(keys: seq<Key>, a: DigitChar, b: DigitChar, eval: string -> EvalOutcome)
    requires keys == [Function(Sin), Digit(a), Digit(b), CloseParen]
    ensures var c := Run(Default(), keys, eval);
            c.expression == "sin(" + [a, b] + ")" && c.openParens == 0 && c.angleMode == Degrees
  {
    SinSteps(Default(), keys, a, b, eval);
    var c1 := InputFunction(Default(), "sin");
    assert c1.expression == "sin(" && c1.openParens == 1;
    var c3 := InputDigit(InputDigit(c1, [a]), [b]);
    assert c3.expression == "sin(" + [a, b];
  }

  /** The four keys as the operations they call. */
  lemma SinSteps(c0: Calculator, keys: seq<Key>, a: DigitChar, b: DigitChar, eval: string -> EvalOutcome)
    requires keys == [Function(Sin), Digit(a), Digit(b), CloseParen]
    ensures Run(c0, keys, eval)
            == InputCloseParen(InputDigit(InputDigit(InputFunction(c0, "sin"), [a]), [b]))
  {
    var k1 := [Function(Sin)];
    var k2 := k1 + [Digit(a)];
    var k3 := k2 + [Digit(b)];
    assert keys == k3 + [CloseParen];
    RunSnoc(c0, [], Function(Sin), eval);
    assert [] + k1 == k1;
    RunSnoc(c0, k1, Digit(a), eval);
    RunSnoc(c0, k2, Digit(b), eval);
    RunSnoc(c0, k3, CloseParen, eval);
  }

  lemma SinAngleGlyphs(s: string, a: char, b: char)
    requires IsAsciiDigit(a) && IsAsciiDigit(b)
    requires s == "sin(" + [a, b] + ")"
    ensures SubstituteGlyphs(s) == s
  {
    SinAngleNoGlyph(s, a, b);
    Behaviour.GlyphFreeKept(s);
  }

  lemma SinAngleNoGlyph(s: string, a: char, b: char)
    requires IsAsciiDigit(a) && IsAsciiDigit(b)
    requires s == "sin(" + [a, b] + ")"
    ensures forall k :: 0 <= k < |s| ==> !Behaviour.IsGlyph(s[k])
  {
  }

  lemma SinText(a: char, b: char)
    ensures "sin" + Argument(a, b) == "sin(" + [a, b] + ")"
  {
  }

  lemma SinAngleJuxtaposed(a: char, b: char)
    requires IsAsciiDigit(a) && IsAsciiDigit(b)
    ensures AddImplicitMultiplication("sin" + Argument(a, b)) == "sin" + Argument(a, b)
  {
    var s := "sin" + Argument(a, b);
    ArgumentKept(a, b);
    assert s[..3] == "sin";
    FirstTokenIndexIs(s, 0);
    TokenFacts(0);
    assert FunctionTable[0] == "sin";
    assert s[3..] == Argument(a, b);
    TokenCopied(s, None, 0, Argument(a, b));
    ScanFromStart(s, s);
  }

  /** `(ab)`, written as the pass reads it. */
  function Argument(a: char, b: char): (r: string)
    ensures r == "(" + [a, b] + ")"
  {
    ['('] + ([a] + ([b] + [')']))
  }

  /** `(ab)` after the `n` of `sin` is copied unchanged. */
  lemma ArgumentKept(a: char, b: char)
    requires IsAsciiDigit(a) && IsAsciiDigit(b)
    ensures Juxtapose(Argument(a, b), Some('n')) == Argument(a, b)
  {
    DigitsThenClose(a, b);
    CharKept('(', [a] + ([b] + [')']), Some('n'));
  }

  lemma DigitsThenClose(a: char, b: char)
    requires IsAsciiDigit(a) && IsAsciiDigit(b)
    ensures Juxtapose([a] + ([b] + [')']), Some('(')) == [a] + ([b] + [')'])
  {
    DigitThenCloseAfter(a, b);
    CharKept(a, [b] + [')'], Some('('));
  }

  lemma DigitThenCloseAfter(a: char, b: char)
    requires IsAsciiDigit(a) && IsAsciiDigit(b)
    ensures Juxtapose([b] + [')'], Some(a)) == [b] + [')']
  {
    LastKept(')', Some(b));
    CharKept(b, [')'], Some(a));
  }

  /** When the sine pass leaves no `cos(` or `tan(` behind, the other passes copy. */
  lemma OnlySinRewritten(s: string, r: string)
    requires RewriteCalls("sin", s) == r
    requires forall q: nat :: !OccursAt(r, "cos(", q)
    requires forall q: nat :: !OccursAt(r, "tan(", q)
    ensures Trig.ConvertTrigToRadians(s) == r
  {
    assert "cos" + "(" == "cos(" && "tan" + "(" == "tan(";
  }

  lemma NoCosTan(arg: string)
    requires forall k :: 0 <= k < |arg| ==> IsAsciiDigit(arg[k])
    ensures forall q: nat :: !OccursAt(RadiansCall("sin", arg), "cos(", q)
    ensures forall q: nat :: !OccursAt(RadiansCall("sin", arg), "tan(", q)
  {
    var r := RadiansCall("sin", arg);
    assert 'c' !in DegToRad && 't' !in DegToRad;
    assert 'c' !in arg && 't' !in arg;
    assert 'c' !in r && 't' !in r;
    AbsentHead(r, "cos(");
    AbsentHead(r, "tan(");
  }
}
