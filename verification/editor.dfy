/** The expression editor behind the keypad: two character buffers, the one sent to
    the evaluator (`expression`) and the one shown to the user (`display`), a counter
    of unclosed parentheses, the angle mode and the history of finished calculations.
    Every key is a total function from state to state. */
module Editor {
  import opened Text
  import ImplicitMul
  import Trig

  /** U+2212 MINUS SIGN, the keypad's minus, as opposed to the ASCII `-`. */
  const MinusSign: char := '−'
  /** U+00D7 MULTIPLICATION SIGN. */
  const TimesSign: char := '×'
  /** U+00F7 DIVISION SIGN. */
  const DivideSign: char := '÷'
  /** U+03C0 GREEK SMALL LETTER PI. */
  const PiSign: char := 'π'
  /** U+00B2 SUPERSCRIPT TWO, shown for a square. */
  const SquareSign: char := '²'

  /** The operator characters checked by most guards: `+ - × ÷` with the ASCII minus,
      not the minus sign the keypad actually inserts. */
  predicate IsOperatorChar(c: char) {
    c == '+' || c == '-' || c == TimesSign || c == DivideSign
  }

  /** Characters that end a number for the decimal-point check: operators and both parentheses. */
  predicate IsNumberBreak(c: char) {
    IsOperatorChar(c) || c == '(' || c == ')'
  }

  /** Characters after which a new operand starts: operators and `(`. */
  predicate IsOperandStart(c: char) {
    IsOperatorChar(c) || c == '('
  }

  /** Characters after which an implicit `×` is written before a function, constant or `(`. */
  predicate EndsValue(c: char) {
    IsAsciiDigit(c) || c == ')' || c == PiSign || c == 'e'
  }

  datatype AngleMode = Radians | Degrees

  datatype HistoryEntry = HistoryEntry(expression: string, result: string)

  datatype Calculator = Calculator(
    expression: string,
    display: string,
    history: seq<HistoryEntry>,
    angleMode: AngleMode,
    openParens: int)

  /** The number of history entries kept. */
  const MaxHistory: nat := 100

  /** The state of a fresh calculator. */
  function Default(): (c: Calculator)
    ensures c.expression == [] && c.display == "0" && c.history == []
    ensures c.angleMode == Degrees && c.openParens == 0
  {
    Calculator([], "0", [], Degrees, 0)
  }

  // ---------------------------------------------------------------- keys

  /** input_digit: the digit always goes to the expression; the display's lone "0"
      is replaced, unless the key is "." */
  function InputDigit(c: Calculator, digit: string): (r: Calculator)
    ensures r.expression == c.expression + digit
    ensures c.display == "0" && digit != "." ==> r.display == digit
    ensures !(c.display == "0" && digit != ".") ==> r.display == c.display + digit
    ensures r.history == c.history && r.angleMode == c.angleMode && r.openParens == c.openParens
  {
    c.(expression := c.expression + digit,
       display := if c.display == "0" && digit != "." then digit else c.display + digit)
  }

  /** The number being typed at the end of `s`: everything after the last operator or parenthesis. */
  function LastNumber(s: string): (r: string)
    ensures |r| <= |s| && r == s[|s| - |r|..]
    ensures forall k :: 0 <= k < |r| ==> !IsNumberBreak(r[k])
    ensures |r| < |s| ==> IsNumberBreak(s[|s| - |r| - 1])
  {
    if |s| == 0 || IsNumberBreak(s[|s| - 1]) then []
    else LastNumber(s[..|s| - 1]) + [s[|s| - 1]]
  }

  /** Appending text that breaks no number extends the last number by that text. */
  lemma {:induction false} LastNumberAppend(s: string, x: string)
    requires forall k :: 0 <= k < |x| ==> !IsNumberBreak(x[k])
    ensures LastNumber(s + x) == LastNumber(s) + x
    decreases |x|
  {
    if |x| == 0 {
      assert s + x == s;
    } else {
      var x' := x[..|x| - 1];
      assert (s + x)[..|s + x| - 1] == s + x';
      LastNumberAppend(s, x');
    }
  }

  /** Whether `s` ends with a character satisfying the operand-start test. */
  predicate EndsWithOperandStart(s: string) {
    |s| > 0 && IsOperandStart(s[|s| - 1])
  }

  /** The text input_decimal writes: "0." when the display is "0" or ends where an
      operand starts, "." otherwise. */
  function DecimalPiece(display: string): (r: string)
    ensures r == "0." <==> display == "0" || EndsWithOperandStart(display)
    ensures r == "0." || r == "."
    ensures |r| > 0 && r[|r| - 1] == '.'
    ensures forall k :: 0 <= k < |r| ==> !IsNumberBreak(r[k])
  {
    if display == "0" || EndsWithOperandStart(display) then "0." else "."
  }

  /** input_decimal: no second point in the same number. */
  function InputDecimal(c: Calculator): (r: Calculator)
    ensures '.' in LastNumber(c.expression) ==> r == c
    ensures '.' !in LastNumber(c.expression) ==>
              r == c.(expression := c.expression + DecimalPiece(c.display),
                      display := c.display + DecimalPiece(c.display))
    ensures '.' in LastNumber(r.expression)
  {
    if '.' in LastNumber(c.expression) then c
    else
      var piece := DecimalPiece(c.display);
      LastNumberAppend(c.expression, piece);
      c.(expression := c.expression + piece, display := c.display + piece)
  }

  /** get_last_char_normalized: the last character with the keypad glyphs mapped to
      ASCII, a space for an empty expression. */
  function LastCharNormalized(s: string): char {
    if |s| == 0 then ' '
    else
      var ch := s[|s| - 1];
      if ch == MinusSign then '-'
      else if ch == TimesSign then '*'
      else if ch == DivideSign then '/'
      else ch
  }

  /** The trailing-operator test of input_operator: the last character is an operator,
      or maps to one. Through the mapping the minus sign counts as well. */
  predicate EndsWithOperator(s: string) {
    |s| > 0 && (IsOperatorChar(s[|s| - 1]) || IsOperatorChar(LastCharNormalized(s)))
  }

  lemma EndsWithOperatorChars(s: string)
    requires |s| > 0
    ensures EndsWithOperator(s) <==> IsOperatorChar(s[|s| - 1]) || s[|s| - 1] == MinusSign
  {
  }

  /** input_operator. An empty expression accepts only the minus sign. A trailing
      operator is removed from the expression (and from the display when that holds
      more than one byte), then the new one is written, except after `(` where only
      the minus sign is accepted. */
  function InputOperator(c: Calculator, op: string): (r: Calculator)
    ensures |c.expression| == 0 && op == [MinusSign] ==>
              r == c.(expression := op, display := op)
    ensures |c.expression| == 0 && op != [MinusSign] ==> r == c
    ensures |c.expression| > 0 && c.expression[|c.expression| - 1] == '(' && op != [MinusSign] ==> r == c
    ensures |c.expression| > 0 && !EndsWithOperator(c.expression)
            && !(c.expression[|c.expression| - 1] == '(' && op != [MinusSign]) ==>
              r == c.(expression := c.expression + op, display := c.display + op)
    ensures |c.expression| > 0 && EndsWithOperator(c.expression) ==>
              r.expression == c.expression[..|c.expression| - 1] + op
              && r.display == (if ByteLen(c.display) > 1 then c.display[..|c.display| - 1] else c.display) + op
    ensures r.history == c.history && r.angleMode == c.angleMode && r.openParens == c.openParens
  {
    if |c.expression| == 0 then
      if op == [MinusSign] then c.(expression := c.expression + op, display := op) else c
    else
      var last := c.expression[|c.expression| - 1];
      var c1 :=
        if EndsWithOperator(c.expression) then
          c.(expression := c.expression[..|c.expression| - 1],
             display := if ByteLen(c.display) > 1 then c.display[..|c.display| - 1] else c.display)
        else c;
      if last == '(' && op != [MinusSign] then c1
      else c1.(expression := c1.expression + op, display := c1.display + op)
  }

  /** The `×` written before a function, a constant or `(` that follows a value. */
  function ImplicitTimes(expression: string): string {
    if |expression| > 0 && EndsValue(expression[|expression| - 1]) then [TimesSign] else []
  }

  /** input_function: `name(`, after a `×` when it follows a value; one more open parenthesis. */
  function InputFunction(c: Calculator, func: string): (r: Calculator)
    ensures r.expression == c.expression + ImplicitTimes(c.expression) + func + "("
    ensures r.display == c.display + ImplicitTimes(c.expression) + func + "("
    ensures r.openParens == c.openParens + 1
    ensures r.history == c.history && r.angleMode == c.angleMode
  {
    var t := ImplicitTimes(c.expression);
    c.(expression := c.expression + t + func + "(",
       display := c.display + t + func + "(",
       openParens := c.openParens + 1)
  }

  /** input_constant: the constant, after a `×` when it follows a value. */
  function InputConstant(c: Calculator, constant: string): (r: Calculator)
    ensures r.expression == c.expression + ImplicitTimes(c.expression) + constant
    ensures r.display == c.display + ImplicitTimes(c.expression) + constant
    ensures r.history == c.history && r.angleMode == c.angleMode && r.openParens == c.openParens
  {
    var t := ImplicitTimes(c.expression);
    c.(expression := c.expression + t + constant, display := c.display + t + constant)
  }

  /** input_open_paren: `(`, after a `×` when it follows a value; one more open parenthesis. */
  function InputOpenParen(c: Calculator): (r: Calculator)
    ensures r.expression == c.expression + ImplicitTimes(c.expression) + "("
    ensures r.display == c.display + ImplicitTimes(c.expression) + "("
    ensures r.openParens == c.openParens + 1
    ensures r.history == c.history && r.angleMode == c.angleMode
  {
    var t := ImplicitTimes(c.expression);
    c.(expression := c.expression + t + "(", display := c.display + t + "(", openParens := c.openParens + 1)
  }

  /** input_close_paren: only while a parenthesis is open, and never right after `(`
      or an operator (an empty expression counts as ending in `(`). */
  function InputCloseParen(c: Calculator): (r: Calculator)
    ensures var last := if |c.expression| == 0 then '(' else c.expression[|c.expression| - 1];
            if c.openParens > 0 && last != '(' && !IsOperatorChar(last)
            then r == c.(expression := c.expression + ")", display := c.display + ")",
                         openParens := c.openParens - 1)
            else r == c
  {
    if c.openParens > 0 then
      var last := if |c.expression| == 0 then '(' else c.expression[|c.expression| - 1];
      if last != '(' && !IsOperatorChar(last) then
        c.(expression := c.expression + ")", display := c.display + ")", openParens := c.openParens - 1)
      else c
    else c
  }

  /** Whether the expression ends with a value that can be squared or raised to a power. */
  predicate EndsWithValue(s: string) {
    |s| > 0 && EndsValue(s[|s| - 1])
  }

  /** input_square: `^2` in the expression, `²` on the display, only after a value. */
  function InputSquare(c: Calculator): (r: Calculator)
    ensures EndsWithValue(c.expression) ==>
              r == c.(expression := c.expression + "^2", display := c.display + [SquareSign])
    ensures !EndsWithValue(c.expression) ==> r == c
  {
    if EndsWithValue(c.expression) then
      c.(expression := c.expression + "^2", display := c.display + [SquareSign])
    else c
  }

  /** input_power: `^`, only after a value. */
  function InputPower(c: Calculator): (r: Calculator)
    ensures EndsWithValue(c.expression) ==>
              r == c.(expression := c.expression + "^", display := c.display + "^")
    ensures !EndsWithValue(c.expression) ==> r == c
  {
    if EndsWithValue(c.expression) then c.(expression := c.expression + "^", display := c.display + "^")
    else c
  }

  /** input_percent: `/100` in the expression, `%` on the display, only after a digit or `)`. */
  function InputPercent(c: Calculator): (r: Calculator)
    ensures var ok := |c.expression| > 0 && Operand(c.expression[|c.expression| - 1]);
            (ok ==> r == c.(expression := c.expression + "/100", display := c.display + "%"))
            && (!ok ==> r == c)
  {
    if |c.expression| > 0 && Operand(c.expression[|c.expression| - 1]) then
      c.(expression := c.expression + "/100", display := c.display + "%")
    else c
  }

  // ---------------------------------------------------------------- sign

  /** Index of the last character of `s` after which an operand starts, if any. */
  function LastOperandStart(s: string): (r: Option<nat>)
    ensures r.Some? ==> r.value < |s| && IsOperandStart(s[r.value])
    ensures r.Some? ==> forall k :: r.value < k < |s| ==> !IsOperandStart(s[k])
    ensures r.None? ==> forall k :: 0 <= k < |s| ==> !IsOperandStart(s[k])
  {
    if |s| == 0 then None
    else if IsOperandStart(s[|s| - 1]) then Some(|s| - 1)
    else LastOperandStart(s[..|s| - 1])
  }

  /** A minus of either kind in front of a number. */
  predicate IsMinus(c: char) {
    c == MinusSign || c == '-'
  }

  /** toggle_sign as written. The current number starts after the last operator or
      `(`. When the character there is a minus, the code cuts the three bytes of a
      minus sign before the number; an ASCII `-` is only one byte, so either the
      subtraction underflows or the cut lands elsewhere. None stands for the panic
      (subtraction underflow, or a slice that is not on a character boundary). */
  function ToggleSignAsWritten(c: Calculator): (r: Option<Calculator>)
    ensures !AfterAsciiMinus(c) <==> r == Some(ToggleSign(c))
  {
    if |c.expression| == 0 || c.display == "0" then Some(c)
    else
      match WrittenToggle(c.expression)
      case None => None
      case Some(x) => Some(c.(expression := x, display := x))
  }

  /** The case toggle_sign gets wrong: the current number follows an ASCII `-`, the
      sign a negative result is printed with. */
  predicate AfterAsciiMinus(c: Calculator) {
    |c.expression| > 0 && c.display != "0" && FollowsAsciiMinus(c.expression)
  }

  predicate FollowsAsciiMinus(e: string) {
    match LastOperandStart(e)
    case Some(j) => e[j] == '-'
    case None => false
  }

  /** The expression text toggle_sign computes, None for a panic. */
  function WrittenToggle(e: string): (r: Option<string>)
    requires |e| > 0
    ensures !FollowsAsciiMinus(e) <==> r == Some(Toggled(e))
  {
    match LastOperandStart(e)
    case Some(j) =>
      if IsMinus(e[j]) then WrittenRemoval(e, j) else Some(e[..j + 1] + [MinusSign] + e[j + 1..])
    case None =>
      assert e[..0] + [MinusSign] + e[0..] == [MinusSign] + e;
      assert Toggled(e) == if IsMinus(e[0]) then Removed(e, 0) else Inserted(e, 0);
      if IsMinus(e[0]) then Some(e[1..]) else Some([MinusSign] + e)
  }

  /** The removal branch of toggle_sign for the minus at `j`: the cut starts three
      bytes before the number, which is right only for the three-byte minus sign. */
  function WrittenRemoval(e: string, j: nat): (r: Option<string>)
    requires j < |e| && e[j] == '-'
    ensures r != Some(Removed(e, j))
  {
    var startIdx := ByteLen(e[..j + 1]);
    if startIdx < Utf8Width(MinusSign) then None
    else
      match CharBoundary(e, startIdx - Utf8Width(MinusSign))
      case None => None
      case Some(k) =>
        assert e[..j + 1][..j] == e[..j];
        assert k != j;
        Some(e[..k] + e[j + 1..])
  }

  /** toggle_sign as evidently intended: the minus in front of the current number is
      removed, whatever its kind, or a minus sign is inserted there. */
  function ToggleSign(c: Calculator): (r: Calculator)
    ensures |c.expression| == 0 || c.display == "0" ==> r == c
    ensures !(|c.expression| == 0 || c.display == "0") ==>
              r.display == r.expression && r.expression == Toggled(c.expression)
    ensures r.history == c.history && r.angleMode == c.angleMode && r.openParens == c.openParens
  {
    if |c.expression| == 0 || c.display == "0" then c
    else
      var e' := Toggled(c.expression);
      c.(expression := e', display := e')
  }

  /** Where the current number starts: just after the last operator or `(`, or at 0. */
  function NumberStart(e: string): (n: nat)
    ensures n <= |e|
    ensures n == 0 || IsOperandStart(e[n - 1])
    ensures forall k :: n <= k < |e| ==> !IsOperandStart(e[k])
  {
    match LastOperandStart(e)
    case Some(j) => j + 1
    case None => 0
  }

  /** The corrected expression text of toggle_sign: exactly one minus removed, or one
      minus sign inserted, at the start of the current number. */
  function Toggled(e: string): (r: string)
    requires |e| > 0
    ensures exists p: nat :: || (p <= |e| && r == Inserted(e, p))
                             || (p < |e| && IsMinus(e[p]) && r == Removed(e, p))
    ensures var n := NumberStart(e);
            && (n > 0 && IsMinus(e[n - 1]) ==> r == e[..n - 1] + e[n..])
            && (n == 0 && IsMinus(e[0]) ==> r == e[1..])
            && (!(n > 0 && IsMinus(e[n - 1])) && !(n == 0 && IsMinus(e[0])) ==>
                  r == e[..n] + [MinusSign] + e[n..])
  {
    assert e[..0] + e[1..] == e[1..];
    match LastOperandStart(e)
    case Some(j) => if IsMinus(e[j]) then Removed(e, j) else Inserted(e, j + 1)
    case None => if IsMinus(e[0]) then Removed(e, 0) else Inserted(e, 0)
  }

  /** `e` without its character at `p`. */
  function Removed(e: string, p: nat): (r: string)
    requires p < |e|
    ensures r == e[..p] + e[p + 1..]
    ensures |r| == |e| - 1
    ensures e == r[..p] + [e[p]] + r[p..]
  {
    var r := e[..p] + e[p + 1..];
    assert r[..p] == e[..p] && r[p..] == e[p + 1..];
    r
  }

  /** `e` with a minus sign inserted at `p`. */
  function Inserted(e: string, p: nat): (r: string)
    requires p <= |e|
    ensures r == e[..p] + [MinusSign] + e[p..]
    ensures |r| == |e| + 1 && r[p] == MinusSign
    ensures e == r[..p] + r[p + 1..]
  {
    var r := e[..p] + [MinusSign] + e[p..];
    assert r[..p] == e[..p] && r[p + 1..] == e[p..];
    r
  }

  // ---------------------------------------------------------------- editing

  /** clear: empties the expression, shows "0", no open parentheses; history and angle mode stay. */
  function Clear(c: Calculator): (r: Calculator)
    ensures r.expression == [] && r.display == "0" && r.openParens == 0
    ensures r.history == c.history && r.angleMode == c.angleMode
  {
    c.(expression := [], display := "0", openParens := 0)
  }

  /** clear_entry: removes the last character and undoes its effect on the
      parenthesis counter; the display shows the expression, or "0" when it is empty. */
  function ClearEntry(c: Calculator): (r: Calculator)
    ensures |c.expression| == 0 ==> r == c
    ensures |c.expression| > 0 ==>
              var last := c.expression[|c.expression| - 1];
              && c.expression == r.expression + [last]
              && r.openParens == c.openParens - (if last == '(' then 1 else if last == ')' then -1 else 0)
              && (r.display == "0" <==> (r.expression == [] || r.expression == "0"))
              && (r.expression != [] ==> r.display == r.expression)
    ensures r.history == c.history && r.angleMode == c.angleMode
  {
    var e := c.expression;
    if |e| == 0 then c
    else
      var last := e[|e| - 1];
      var parens := if last == '(' then c.openParens - 1 else if last == ')' then c.openParens + 1 else c.openParens;
      var e' := e[..|e| - 1];
      assert e == e' + [last];
      c.(expression := e', display := if |e'| == 0 then "0" else e', openParens := parens)
  }

  /** use_history: a shown "0" is replaced by the result, otherwise the result is appended. */
  function UseHistory(c: Calculator, result: string): (r: Calculator)
    ensures c.display == "0" ==> r.expression == result && r.display == result
    ensures c.display != "0" ==> r.expression == c.expression + result && r.display == c.display + result
    ensures r.history == c.history && r.angleMode == c.angleMode && r.openParens == c.openParens
  {
    if c.display == "0" then c.(expression := result, display := result)
    else c.(expression := c.expression + result, display := c.display + result)
  }

  /** toggle_angle_mode. */
  function ToggleAngleMode(c: Calculator): (r: Calculator)
    ensures r.angleMode != c.angleMode
    ensures r == c.(angleMode := r.angleMode)
  {
    c.(angleMode := if c.angleMode == Radians then Degrees else Radians)
  }

  // ---------------------------------------------------------------- evaluation

  /** What the external evaluator, together with the result formatting, makes of the
      normalised expression: a formatted finite number, NaN, an infinity, a refusal
      with its message, or a panic caught around it. */
  datatype EvalOutcome = Value(formatted: string) | NotANumber | Infinite | Rejected(message: string) | Aborted

  /** simplify_error: the user-facing text for an evaluator message. */
  function SimplifyError(msg: string): (r: string)
    ensures r == "Syntax error" <==> (exists q: nat :: OccursAt(msg, "parse", q) || OccursAt(msg, "Parse", q))
    ensures r == "Missing )" <==>
              (forall q: nat :: !OccursAt(msg, "parse", q) && !OccursAt(msg, "Parse", q))
              && (exists q: nat :: OccursAt(msg, "parenthesis", q))
    ensures r == "Syntax error" || r == "Missing )" || r == "Error"
  {
    if Contains(msg, "parse") || Contains(msg, "Parse") then "Syntax error"
    else if Contains(msg, "parenthesis") then "Missing )"
    else "Error"
  }

  /** The four glyph rewrites of preprocess_expression, in order: `×` to `*`, `÷` to
      `/`, the minus sign to `-`, `π` to `pi`. */
  function SubstituteGlyphs(e: string): string {
    ReplaceChar(ReplaceChar(ReplaceChar(ReplaceChar(e, TimesSign, "*"), DivideSign, "/"), MinusSign, "-"), PiSign, "pi")
  }

  /** The `)` characters appended to close every open parenthesis (none when the
      counter is not positive). */
  function AutoClose(openParens: int): (r: string)
    ensures |r| == (if openParens > 0 then openParens else 0)
    ensures forall k :: 0 <= k < |r| ==> r[k] == ')'
  {
    Repeat(')', if openParens > 0 then openParens else 0)
  }

  /** preprocess_expression: glyph substitution, auto-closing, implicit
      multiplication, and in Degrees mode the trigonometric rewrite. */
  function Preprocess(c: Calculator): (r: string)
    ensures var marked := ImplicitMul.MarkJuxtapositions(SubstituteGlyphs(c.expression) + AutoClose(c.openParens), None);
            && (c.angleMode == Radians ==> r == marked)
            && (c.angleMode == Degrees ==> r == Trig.ConvertTrigToRadians(marked))
  {
    var closed := SubstituteGlyphs(c.expression) + AutoClose(c.openParens);
    var explicit := ImplicitMul.AddImplicitMultiplication(closed);
    if c.angleMode == Degrees then Trig.ConvertTrigToRadians(explicit) else explicit
  }

  /** The characters after which calculate refuses with "Incomplete": operators and `(`,
      with the ASCII minus only. */
  predicate EndsIncomplete(s: string) {
    |s| > 0 && IsOperandStart(s[|s| - 1])
  }

  /** The history after recording one more calculation: appended, then the oldest
      entry dropped when there are more than the limit. */
  function Record(history: seq<HistoryEntry>, entry: HistoryEntry): (r: seq<HistoryEntry>)
    ensures |history| <= MaxHistory ==> |r| <= MaxHistory
    ensures |r| > 0 && r[|r| - 1] == entry
    ensures |history| < MaxHistory ==> r == history + [entry]
    ensures |history| >= MaxHistory ==> r == (history + [entry])[1..]
  {
    var h := history + [entry];
    if |h| > MaxHistory then h[1..] else h
  }

  /** calculate, with the evaluator given as a parameter. Returns the new state and
      either the formatted result or the error text. */
  function Calculate(c: Calculator, eval: string -> EvalOutcome): (r: (Calculator, Result<string, string>))
    ensures |c.expression| == 0 ==> r == (c, Success("0"))
    ensures EndsIncomplete(c.expression) ==> r == (c, Failure("Incomplete"))
    ensures r.1.Failure? ==> r.0 == c
    ensures |c.expression| > 0 && !EndsIncomplete(c.expression) ==>
              match eval(Preprocess(c))
              case Value(f) =>
                r == (c.(expression := f, display := f, openParens := 0,
                         history := Record(c.history, HistoryEntry(c.display, f))), Success(f))
              case NotANumber => r == (c, Failure("Undefined"))
              case Infinite => r == (c, Failure("Infinity"))
              case Rejected(m) => r == (c, Failure(SimplifyError(m)))
              case Aborted => r == (c, Failure("Error"))
  {
    if |c.expression| == 0 then (c, Success("0"))
    else if EndsIncomplete(c.expression) then (c, Failure("Incomplete"))
    else
      match eval(Preprocess(c))
      case Value(f) =>
        (c.(expression := f, display := f, openParens := 0,
            history := Record(c.history, HistoryEntry(c.display, f))), Success(f))
      case NotANumber => (c, Failure("Undefined"))
      case Infinite => (c, Failure("Infinity"))
      case Rejected(m) => (c, Failure(SimplifyError(m)))
      case Aborted => (c, Failure("Error"))
  }
}
