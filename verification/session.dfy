/** The keypad as a whole: the keys the application offers, one step of the
    calculator per key, and the invariant every key keeps. */
module Session {
  import opened Text
  import opened Editor

  type DigitChar = c: char | '0' <= c <= '9' witness '0'

  datatype OperatorKey = Plus | Minus | Times | Divide

  datatype FunctionKey = Sin | Cos | Tan | Log | Ln | Sqrt

  datatype ConstantKey = Pi | Euler

  /** The buttons and keys of the application, each bound to one editor operation. */
  datatype Key =
    | Digit(d: DigitChar)
    | Point
    | Operator(op: OperatorKey)
    | Function(f: FunctionKey)
    | Constant(k: ConstantKey)
    | OpenParen
    | CloseParen
    | Square
    | Power
    | Percent
    | Negate
    | ClearAll
    | Backspace
    | Equals
    | Recall(index: nat)
    | AngleToggle

  /** The text each operator key sends: the keypad glyphs, with the minus sign for `-`. */
  function OperatorText(op: OperatorKey): (r: string)
    ensures |r| == 1 && (IsOperatorChar(r[0]) || r[0] == MinusSign)
  {
    match op
    case Plus => "+"
    case Minus => [MinusSign]
    case Times => [TimesSign]
    case Divide => [DivideSign]
  }

  function FunctionName(f: FunctionKey): string {
    match f
    case Sin => "sin"
    case Cos => "cos"
    case Tan => "tan"
    case Log => "log10"
    case Ln => "ln"
    case Sqrt => "sqrt"
  }

  function ConstantText(k: ConstantKey): string {
    match k
    case Pi => [PiSign]
    case Euler => "e"
  }

  /** The calculator after one key; `eval` is the evaluator used by `=`. A history
      entry is recalled only when it exists. */
  function Step(c: Calculator, key: Key, eval: string -> EvalOutcome): Calculator {
    match key
    case Digit(d) => InputDigit(c, [d])
    case Point => InputDecimal(c)
    case Operator(op) => InputOperator(c, OperatorText(op))
    case Function(f) => InputFunction(c, FunctionName(f))
    case Constant(k) => InputConstant(c, ConstantText(k))
    case OpenParen => InputOpenParen(c)
    case CloseParen => InputCloseParen(c)
    case Square => InputSquare(c)
    case Power => InputPower(c)
    case Percent => InputPercent(c)
    case Negate => ToggleSign(c)
    case ClearAll => Clear(c)
    case Backspace => ClearEntry(c)
    case Equals => Calculate(c, eval).0
    case Recall(i) => if i < |c.history| then UseHistory(c, c.history[i].result) else c
    case AngleToggle => ToggleAngleMode(c)
  }

  /** The calculator after a sequence of keys. */
  function Run(c: Calculator, keys: seq<Key>, eval: string -> EvalOutcome): Calculator {
    if |keys| == 0 then c else Step(Run(c, keys[..|keys| - 1], eval), keys[|keys| - 1], eval)
  }

  /** Three keys are three steps. */
  lemma RunThree(c: Calculator, keys: seq<Key>, x: Key, y: Key, z: Key, eval: string -> EvalOutcome)
    requires keys == [x, y, z]
    ensures Run(c, keys, eval) == Step(Step(Step(c, x, eval), y, eval), z, eval)
  {
    assert keys == [x, y] + [z] && [x, y] == [x] + [y] && [x] == [] + [x];
    RunSnoc(c, [x, y], z, eval);
    RunSnoc(c, [x], y, eval);
    RunSnoc(c, [], x, eval);
  }

  /** One more key is one more step. */
  lemma RunSnoc(c: Calculator, keys: seq<Key>, key: Key, eval: string -> EvalOutcome)
    ensures Run(c, keys + [key], eval) == Step(Run(c, keys, eval), key, eval)
  {
    assert (keys + [key])[..|keys|] == keys;
  }

  // ---------------------------------------------------------------- invariant

  /** The characters the result formatting prints: digits, point, minus and the
      exponent marker. */
  predicate IsNumeral(s: string) {
    |s| > 0 && forall k :: 0 <= k < |s| ==> IsAsciiDigit(s[k]) || s[k] == '.' || s[k] == '-' || s[k] == 'e'
  }

  /** What the evaluator is assumed to deliver: formatted values are numerals. */
  ghost predicate FormatsNumerals(eval: string -> EvalOutcome) {
    forall x :: eval(x).Value? ==> IsNumeral(eval(x).formatted)
  }

  predicate AllZeros(s: string) {
    forall k :: 0 <= k < |s| ==> s[k] == '0'
  }

  /** The state invariant: the counter of open parentheses is the expression's
      balance, no prefix of the expression closes more than it opened, a display of
      "0" stands for nothing but zeros, an empty display for an empty expression, and
      the history is bounded and holds numerals only. */
  ghost predicate Inv(c: Calculator) {
    && c.openParens == Depth(c.expression)
    && NonNegPrefixes(c.expression)
    && (c.display == [] ==> c.expression == [])
    && (c.display == "0" ==> AllZeros(c.expression))
    && |c.history| <= MaxHistory
    && forall i :: 0 <= i < |c.history| ==> IsNumeral(c.history[i].result)
  }

  lemma DefaultInv()
    ensures Inv(Default())
  {
    assert Default().expression[..0] == [];
  }

  /** Appending text without parentheses keeps the balance. */
  lemma AppendPlain(e: string, x: string)
    requires NonNegPrefixes(e)
    requires NoParens(x)
    ensures NonNegPrefixes(e + x) && Depth(e + x) == Depth(e)
  {
    NoParensNonNeg(x);
    NonNegConcat(e, x);
    NoParensDepth(x);
    DepthAppend(e, x);
  }

  /** Appending text without parentheses and then `(` opens one more. */
  lemma AppendOpen(e: string, x: string)
    requires NonNegPrefixes(e)
    requires NoParens(x)
    ensures NonNegPrefixes(e + x + "(") && Depth(e + x + "(") == Depth(e) + 1
  {
    AppendPlain(e, x);
    NoCloseNonNeg("(");
    NonNegConcat(e + x, "(");
    DepthAppend(e + x, "(");
    assert "(" == ['('];
    DepthOfChar('(');
  }

  lemma AllZerosNoParens(s: string)
    requires AllZeros(s)
    ensures NoParens(s)
  {
    assert '(' !in s && ')' !in s;
  }

  lemma NumeralNoParens(s: string)
    requires IsNumeral(s)
    ensures NoParens(s)
  {
    assert '(' !in s && ')' !in s;
  }

  /** Removing a last character that is no parenthesis keeps the balance. */
  lemma DropPlain(e: string)
    requires NonNegPrefixes(e)
    requires |e| > 0 && e[|e| - 1] != '(' && e[|e| - 1] != ')'
    ensures NonNegPrefixes(e[..|e| - 1]) && Depth(e[..|e| - 1]) == Depth(e)
  {
    NonNegPrefixClosed(e, |e| - 1);
    assert e == e[..|e| - 1] + [e[|e| - 1]];
    DepthAppend(e[..|e| - 1], [e[|e| - 1]]);
    DepthOfChar(e[|e| - 1]);
  }

  lemma DigitInv(c: Calculator, d: DigitChar)
    requires Inv(c)
    ensures Inv(InputDigit(c, [d]))
  {
    AppendPlain(c.expression, [d]);
  }

  lemma PointInv(c: Calculator)
    requires Inv(c)
    ensures Inv(InputDecimal(c))
  {
    var piece := DecimalPiece(c.display);
    assert NoParens(piece);
    AppendPlain(c.expression, piece);
  }

  lemma OperatorInv(c: Calculator, op: OperatorKey)
    requires Inv(c)
    ensures Inv(InputOperator(c, OperatorText(op)))
  {
    var o := OperatorText(op);
    var e := c.expression;
    assert NoParens(o);
    if |e| == 0 {
      AppendPlain(e, o);
    } else if EndsWithOperator(e) {
      EndsWithOperatorChars(e);
      DropPlain(e);
      AppendPlain(e[..|e| - 1], o);
    } else {
      AppendPlain(e, o);
    }
  }

  lemma FunctionInv(c: Calculator, f: FunctionKey)
    requires Inv(c)
    ensures Inv(InputFunction(c, FunctionName(f)))
  {
    var e := c.expression;
    var t := ImplicitTimes(e);
    var name := FunctionName(f);
    assert NoParens(t) && NoParens(name);
    AppendPlain(e, t);
    AppendOpen(e + t, name);
  }

  lemma ConstantInv(c: Calculator, k: ConstantKey)
    requires Inv(c)
    ensures Inv(InputConstant(c, ConstantText(k)))
  {
    var e := c.expression;
    var t := ImplicitTimes(e);
    assert NoParens(t) && NoParens(ConstantText(k));
    AppendPlain(e, t);
    AppendPlain(e + t, ConstantText(k));
  }

  lemma OpenParenInv(c: Calculator)
    requires Inv(c)
    ensures Inv(InputOpenParen(c))
  {
    var t := ImplicitTimes(c.expression);
    assert NoParens(t);
    AppendOpen(c.expression, t);
  }

  lemma CloseParenInv(c: Calculator)
    requires Inv(c)
    ensures Inv(InputCloseParen(c))
  {
    if c.openParens > 0 {
      NonNegAppendClose(c.expression);
    }
  }

  lemma SuffixInv(c: Calculator)
    requires Inv(c)
    ensures Inv(InputSquare(c)) && Inv(InputPower(c)) && Inv(InputPercent(c))
  {
    assert NoParens("^2") && NoParens("^") && NoParens("/100");
    AppendPlain(c.expression, "^2");
    AppendPlain(c.expression, "^");
    AppendPlain(c.expression, "/100");
  }

  /** Inserting a minus sign keeps the balance. */
  lemma InsertedBalance(e: string, p: nat)
    requires NonNegPrefixes(e)
    requires p <= |e|
    ensures NonNegPrefixes(Inserted(e, p)) && Depth(Inserted(e, p)) == Depth(e)
  {
    assert e == e[..p] + e[p..];
    assert NoParens([MinusSign]);
    NonNegInsert(e[..p], e[p..], [MinusSign]);
    DepthAppend(e[..p], e[p..]);
    DepthAppend(e[..p] + [MinusSign], e[p..]);
    DepthAppend(e[..p], [MinusSign]);
    NoParensDepth([MinusSign]);
  }

  /** Removing a minus keeps the balance. */
  lemma RemovedBalance(e: string, p: nat)
    requires NonNegPrefixes(e)
    requires p < |e| && IsMinus(e[p])
    ensures NonNegPrefixes(Removed(e, p)) && Depth(Removed(e, p)) == Depth(e)
  {
    var r := Removed(e, p);
    assert NoParens([e[p]]);
    NonNegDelete(r[..p], r[p..], [e[p]]);
    assert r == r[..p] + r[p..];
    DepthAppend(r[..p], r[p..]);
    DepthAppend(r[..p] + [e[p]], r[p..]);
    DepthAppend(r[..p], [e[p]]);
    NoParensDepth([e[p]]);
  }

  lemma NegateInv(c: Calculator)
    requires Inv(c)
    ensures Inv(ToggleSign(c))
  {
    var e := c.expression;
    if |e| > 0 && c.display != "0" {
      ToggledBalance(e);
      ShownInv(c, Toggled(e));
    }
  }

  /** The corrected toggle keeps the balance. */
  lemma ToggledBalance(e: string)
    requires NonNegPrefixes(e) && |e| > 0
    ensures NonNegPrefixes(Toggled(e)) && Depth(Toggled(e)) == Depth(e)
  {
    var r := Toggled(e);
    var p: nat :| || (p <= |e| && r == Inserted(e, p))
                  || (p < |e| && IsMinus(e[p]) && r == Removed(e, p));
    if p <= |e| && r == Inserted(e, p) {
      InsertedBalance(e, p);
    } else {
      RemovedBalance(e, p);
    }
  }

  /** Showing a balanced text `x` of the same depth in both buffers keeps the invariant. */
  lemma ShownInv(c: Calculator, x: string)
    requires Inv(c)
    requires NonNegPrefixes(x) && Depth(x) == Depth(c.expression)
    ensures Inv(c.(expression := x, display := x))
  {
    if x == "0" {
      assert x[0] == '0';
    }
  }

  lemma BackspaceInv(c: Calculator)
    requires Inv(c)
    ensures Inv(ClearEntry(c))
  {
    var e := c.expression;
    if |e| > 0 {
      var last := e[|e| - 1];
      NonNegPrefixClosed(e, |e| - 1);
      assert e == e[..|e| - 1] + [last];
      DepthAppend(e[..|e| - 1], [last]);
      DepthOfChar(last);
    }
  }

  lemma RecordNumerals(history: seq<HistoryEntry>, entry: HistoryEntry)
    requires forall i :: 0 <= i < |history| ==> IsNumeral(history[i].result)
    requires IsNumeral(entry.result)
    ensures var h := Record(history, entry);
            forall i :: 0 <= i < |h| ==> IsNumeral(h[i].result)
  {
    var h := history + [entry];
    assert forall i :: 0 <= i < |h| ==> IsNumeral(h[i].result);
  }

  lemma EqualsInv(c: Calculator, eval: string -> EvalOutcome)
    requires Inv(c)
    requires FormatsNumerals(eval)
    ensures Inv(Calculate(c, eval).0)
  {
    if |c.expression| > 0 && !EndsIncomplete(c.expression) {
      match eval(Preprocess(c))
      case Value(f) =>
        assert IsNumeral(f);
        ResultInv(c, f);
      case _ =>
    }
  }

  /** The state after a successful calculation with a numeral result keeps the invariant. */
  lemma ResultInv(c: Calculator, f: string)
    requires Inv(c) && IsNumeral(f)
    ensures Inv(c.(expression := f, display := f, openParens := 0,
                   history := Record(c.history, HistoryEntry(c.display, f))))
  {
    NumeralNoParens(f);
    NoParensNonNeg(f);
    NoParensDepth(f);
    RecordNumerals(c.history, HistoryEntry(c.display, f));
  }

  lemma RecallInv(c: Calculator, i: nat)
    requires Inv(c)
    requires i < |c.history|
    ensures Inv(UseHistory(c, c.history[i].result))
  {
    var result := c.history[i].result;
    NumeralNoParens(result);
    if c.display == "0" {
      AllZerosNoParens(c.expression);
      NoParensDepth(c.expression);
      NoParensNonNeg(result);
      NoParensDepth(result);
    } else {
      AppendPlain(c.expression, result);
    }
  }

  /** Every key keeps the invariant, given an evaluator that formats numerals. */
  lemma StepInv(c: Calculator, key: Key, eval: string -> EvalOutcome)
    requires Inv(c)
    requires FormatsNumerals(eval)
    ensures Inv(Step(c, key, eval))
  {
    match key
    case Digit(d) => DigitInv(c, d);
    case Point => PointInv(c);
    case Operator(op) => OperatorInv(c, op);
    case Function(f) => FunctionInv(c, f);
    case Constant(k) => ConstantInv(c, k);
    case OpenParen => OpenParenInv(c);
    case CloseParen => CloseParenInv(c);
    case Square => SuffixInv(c);
    case Power => SuffixInv(c);
    case Percent => SuffixInv(c);
    case Negate => NegateInv(c);
    case ClearAll => assert Clear(c).expression[..0] == [];
    case Backspace => BackspaceInv(c);
    case Equals => EqualsInv(c, eval);
    case Recall(i) => if i < |c.history| { RecallInv(c, i); }
    case AngleToggle =>
  }

  /** Any sequence of keys keeps the invariant. */
  lemma {:induction false} RunInv(c: Calculator, keys: seq<Key>, eval: string -> EvalOutcome)
    requires Inv(c)
    requires FormatsNumerals(eval)
    ensures Inv(Run(c, keys, eval))
    decreases |keys|
  {
    if |keys| > 0 {
      RunInv(c, keys[..|keys| - 1], eval);
      StepInv(Run(c, keys[..|keys| - 1], eval), keys[|keys| - 1], eval);
    }
  }

  /** From a fresh calculator, whatever the keys: the counter of open parentheses is
      never negative and is exactly the number of parentheses left open, so the
      parentheses preprocessing appends close the expression. */
  lemma ParenthesesBalanced(keys: seq<Key>, eval: string -> EvalOutcome)
    requires FormatsNumerals(eval)
    ensures var c := Run(Default(), keys, eval);
            && c.openParens >= 0
            && c.openParens == Depth(c.expression)
            && Depth(c.expression + AutoClose(c.openParens)) == 0
            && NonNegPrefixes(c.expression + AutoClose(c.openParens))
  {
    DefaultInv();
    RunInv(Default(), keys, eval);
    var c := Run(Default(), keys, eval);
    assert c.expression[..|c.expression|] == c.expression;
    var close := AutoClose(c.openParens);
    assert '(' !in close;
    CountAbsent(close, '(');
    CountOnly(close, ')');
    DepthAppend(c.expression, close);
    NonNegIsFloor(c.expression);
    CloseAllFloor(c.expression, c.openParens, 0);
    NonNegIsFloor(c.expression + close);
  }

  /** A string made of `c` only counts `c` once per character. */
  lemma {:induction false} CountOnly(s: string, c: char)
    requires forall k :: 0 <= k < |s| ==> s[k] == c
    ensures Count(s, c) == |s|
    decreases |s|
  {
    if |s| > 0 {
      CountOnly(s[..|s| - 1], c);
    }
  }
}
