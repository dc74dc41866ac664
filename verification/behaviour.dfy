/** What the calculator promises over sequences of keys, and the quirks of the
    editor as written. */
module Behaviour {
  import opened Text
  import opened Editor
  import opened Session
  import ImplicitMul
  import Trig

  // ---------------------------------------------------------------- digits

  /** What the display shows for a number typed from scratch: the digits without
      their leading zeros, "0" when nothing else is left. */
  function StripLeadingZeros(s: string): (r: string)
    ensures |r| > 0
    ensures r == "0" <==> AllZeros(s)
    ensures r != "0" ==> r[0] != '0' && |r| <= |s| && r == s[|s| - |r|..] && AllZeros(s[..|s| - |r|])
  {
    if |s| == 0 then "0"
    else if s[0] == '0' then
      var r := StripLeadingZeros(s[1..]);
      assert s == [s[0]] + s[1..];
      assert r != "0" ==> s[1..][|s| - 1 - |r|..] == s[|s| - |r|..];
      assert r != "0" ==> s[..|s| - |r|] == [s[0]] + s[1..][..|s| - 1 - |r|];
      r
    else
      assert s != "0";
      s
  }

  predicate AllDigits(ds: string) {
    forall k :: 0 <= k < |ds| ==> IsAsciiDigit(ds[k])
  }

  /** The digit keys that type `ds`. */
  function DigitKeys(ds: string): (keys: seq<Key>)
    requires AllDigits(ds)
    ensures |keys| == |ds|
    ensures forall k :: 0 <= k < |ds| ==> keys[k] == Digit(ds[k])
  {
    if |ds| == 0 then [] else DigitKeys(ds[..|ds| - 1]) + [Digit(ds[|ds| - 1])]
  }

  lemma {:induction false} StripAppend(s: string, d: char)
    ensures StripLeadingZeros(s + [d])
            == if StripLeadingZeros(s) == "0" then [d] else StripLeadingZeros(s) + [d]
    decreases |s|
  {
    if |s| == 0 {
      assert s + [d] == [d];
      assert [d][1..] == [];
    } else if s[0] == '0' {
      assert (s + [d])[1..] == s[1..] + [d];
      StripAppend(s[1..], d);
    } else {
      assert (s + [d])[0] == s[0];
    }
  }

  /** Typing digits on a fresh calculator: the expression receives every digit, the
      display drops the leading zeros. */
  lemma {:induction false} TypingDigits(ds: string, eval: string -> EvalOutcome)
    requires AllDigits(ds)
    ensures Run(Default(), DigitKeys(ds), eval).expression == ds
    ensures Run(Default(), DigitKeys(ds), eval).display == StripLeadingZeros(ds)
    decreases |ds|
  {
    if |ds| > 0 {
      var ds' := ds[..|ds| - 1];
      var d: DigitChar := ds[|ds| - 1];
      var c' := Run(Default(), DigitKeys(ds'), eval);
      assert c'.expression == ds' && c'.display == StripLeadingZeros(ds') by {
        TypingDigits(ds', eval);
      }
      assert Run(Default(), DigitKeys(ds), eval) == InputDigit(c', [d]) by {
        assert DigitKeys(ds) == DigitKeys(ds') + [Digit(d)];
        RunSnoc(Default(), DigitKeys(ds'), Digit(d), eval);
      }
      DigitShows(c', ds', d);
      assert ds == ds' + [d];
    }
  }

  /** One more digit: the expression gains it, the display follows the stripped number. */
  lemma DigitShows(c: Calculator, ds: string, d: DigitChar)
    requires c.expression == ds && c.display == StripLeadingZeros(ds)
    ensures InputDigit(c, [d]).expression == ds + [d]
    ensures InputDigit(c, [d]).display == StripLeadingZeros(ds + [d])
  {
    StripAppend(ds, d);
  }

  // ---------------------------------------------------------------- decimal point

  /** A second decimal point in the same number is ignored. */
  lemma PointTwice(c: Calculator)
    ensures InputDecimal(InputDecimal(c)) == InputDecimal(c)
  {
  }

  /** The decimal point on a fresh calculator writes "0." after the shown "0". */
  lemma PointOnFreshDisplay()
    ensures InputDecimal(Default()).expression == "0."
    ensures InputDecimal(Default()).display == "00."
  {
    var c := Default();
    assert LastNumber(c.expression) == [];
    PointAfterZero(c);
  }

  /** The decimal point after a shown "0", outside a number with a point. */
  lemma PointAfterZero(c: Calculator)
    requires c.display == "0" && '.' !in LastNumber(c.expression)
    ensures InputDecimal(c).expression == c.expression + "0."
    ensures InputDecimal(c).display == "00."
  {
    PointAppends(c);
    ZeroPiece(c.display);
  }

  lemma ZeroPiece(d: string)
    requires d == "0"
    ensures DecimalPiece(d) == "0." && d + DecimalPiece(d) == "00."
  {
  }

  /** Outside a number with a point, the point's text goes to both buffers. */
  lemma PointAppends(c: Calculator)
    requires '.' !in LastNumber(c.expression)
    ensures InputDecimal(c).expression == c.expression + DecimalPiece(c.display)
    ensures InputDecimal(c).display == c.display + DecimalPiece(c.display)
  {
  }

  // ---------------------------------------------------------------- operators

  /** A second operator replaces the first instead of stacking, in the expression and
      on the display. */
  lemma OperatorReplaces(c: Calculator, first: OperatorKey, second: OperatorKey)
    requires |c.expression| > 0 && |c.display| > 0
    requires c.expression[|c.expression| - 1] != '('
    requires !EndsWithOperator(c.expression)
    ensures InputOperator(InputOperator(c, OperatorText(first)), OperatorText(second))
            == InputOperator(c, OperatorText(second))
  {
    var o := OperatorText(first);
    var c1 := InputOperator(c, o);
    var d1 := c.display + o;
    assert c1.expression == c.expression + o && c1.display == d1;
    assert d1[..|d1| - 1] == c.display;
    assert c1.expression[..|c1.expression| - 1] == c.expression;
    assert ByteLen(d1) == ByteLen(c.display) + Utf8Width(o[0]);
    assert ByteLen(c.display) >= Utf8Width(c.display[|c.display| - 1]) >= 1;
    EndsWithOperatorChars(c1.expression);
  }

  /** After `(` only the minus sign is accepted. */
  lemma OnlyMinusAfterOpenParen(c: Calculator, op: OperatorKey)
    requires |c.expression| > 0 && c.expression[|c.expression| - 1] == '('
    ensures op != Minus ==> InputOperator(c, OperatorText(op)) == c
    ensures op == Minus ==> InputOperator(c, OperatorText(op)).expression == c.expression + [MinusSign]
  {
  }

  /** Once the minus sign follows `(`, another operator replaces it, so `(` gets an
      operator it would not accept directly. */
  lemma OperatorAfterParenMinus(c: Calculator)
    requires |c.expression| > 0 && c.expression[|c.expression| - 1] == '('
    ensures InputOperator(InputOperator(c, [MinusSign]), "+").expression == c.expression + "+"
    ensures InputOperator(c, "+") == c
  {
    var e1 := c.expression + [MinusSign];
    assert e1[..|e1| - 1] == c.expression;
    EndsWithOperatorChars(e1);
  }

  /** The byte-length guard on the display lets the two buffers part: from a fresh
      calculator, `−`, `+`, `×` leave `×` in the expression and `+×` on the display. */
  lemma DisplayDrifts(keys: seq<Key>, eval: string -> EvalOutcome)
    requires keys == [Operator(Minus), Operator(Plus), Operator(Times)]
    ensures Run(Default(), keys, eval).expression == [TimesSign]
    ensures Run(Default(), keys, eval).display == ['+', TimesSign]
  {
    RunThree(Default(), keys, Operator(Minus), Operator(Plus), Operator(Times), eval);
    var c1 := Step(Default(), Operator(Minus), eval);
    MinusFirst(c1, eval);
    var c2 := Step(c1, Operator(Plus), eval);
    PlusOverMinus(c1, c2, eval);
    TimesOverPlus(c2, Step(c2, Operator(Times), eval), eval);
  }

  lemma MinusFirst(c1: Calculator, eval: string -> EvalOutcome)
    requires c1 == Step(Default(), Operator(Minus), eval)
    ensures c1.expression == [MinusSign] && c1.display == [MinusSign]
  {
  }

  /** `+` over the minus sign: the display's last character is three bytes, so it is
      dropped there too. */
  lemma PlusOverMinus(c1: Calculator, c2: Calculator, eval: string -> EvalOutcome)
    requires c1.expression == [MinusSign] && c1.display == [MinusSign]
    requires c2 == Step(c1, Operator(Plus), eval)
    ensures c2.expression == "+" && c2.display == "+"
  {
    assert ByteLen([MinusSign]) == 3 by { assert [MinusSign][..0] == []; }
    EndsWithOperatorChars(c1.expression);
  }

  /** `×` over `+`: the display is one byte long, so the guard keeps its `+`. */
  lemma TimesOverPlus(c2: Calculator, c3: Calculator, eval: string -> EvalOutcome)
    requires c2.expression == "+" && c2.display == "+"
    requires c3 == Step(c2, Operator(Times), eval)
    ensures c3.expression == [TimesSign] && c3.display == ['+', TimesSign]
  {
    assert ByteLen("+") == 1 by { assert "+"[..0] == []; }
    EndsWithOperatorChars(c2.expression);
    assert c2.expression[..0] + [TimesSign] == [TimesSign];
    assert c2.display + [TimesSign] == ['+', TimesSign];
  }

  // ---------------------------------------------------------------- parentheses

  /** `)` is accepted only while a parenthesis is open, so the counter never goes
      below zero, and `)` right after an operator or `(` is ignored. */
  lemma CloseParenGuard(c: Calculator)
    requires Inv(c)
    ensures InputCloseParen(c).openParens >= 0
    ensures c.openParens == 0 ==> InputCloseParen(c) == c
  {
    assert c.expression[..|c.expression|] == c.expression;
  }

  // ---------------------------------------------------------------- clearing

  function Backspaces(n: nat): (keys: seq<Key>)
    ensures |keys| == n && forall k :: 0 <= k < n ==> keys[k] == Backspace
  {
    seq(n, _ => Backspace)
  }

  /** `n` backspaces remove the last `n` characters, keeping the invariant. */
  lemma {:induction false} BackspacesTrim(c: Calculator, n: nat, eval: string -> EvalOutcome)
    requires Inv(c)
    requires n <= |c.expression|
    ensures Inv(Run(c, Backspaces(n), eval))
    ensures Run(c, Backspaces(n), eval).expression == c.expression[..|c.expression| - n]
    ensures n > 0 && n == |c.expression| ==> Run(c, Backspaces(n), eval).display == "0"
    ensures Run(c, Backspaces(n), eval).history == c.history
    decreases n
  {
    if n == 0 {
      assert c.expression[..|c.expression|] == c.expression;
    } else {
      assert Backspaces(n)[..n - 1] == Backspaces(n - 1);
      BackspacesTrim(c, n - 1, eval);
      var prev := Run(c, Backspaces(n - 1), eval);
      BackspaceInv(prev);
      assert prev.expression[..|prev.expression| - 1] == c.expression[..|c.expression| - n];
    }
  }

  /** As many backspaces as characters give back the cleared state, history kept. */
  lemma BackspaceToEmpty(c: Calculator, eval: string -> EvalOutcome)
    requires Inv(c)
    requires |c.expression| > 0
    ensures Run(c, Backspaces(|c.expression|), eval) == Clear(c)
  {
    BackspacesTrim(c, |c.expression|, eval);
    var r := Run(c, Backspaces(|c.expression|), eval);
    assert r.openParens == 0;
    assert r.angleMode == c.angleMode by { AngleKept(c, |c.expression|, eval); }
  }

  lemma {:induction false} AngleKept(c: Calculator, n: nat, eval: string -> EvalOutcome)
    ensures Run(c, Backspaces(n), eval).angleMode == c.angleMode
    decreases n
  {
    if n > 0 {
      assert Backspaces(n)[..n - 1] == Backspaces(n - 1);
      AngleKept(c, n - 1, eval);
    }
  }

  /** The angle-mode key is its own inverse. */
  lemma AngleToggleTwice(c: Calculator)
    ensures ToggleAngleMode(ToggleAngleMode(c)) == c
  {
    var r := ToggleAngleMode(c);
    assert ToggleAngleMode(r).angleMode == c.angleMode;
  }

  // ---------------------------------------------------------------- sign

  /** Toggling twice at the start of a plain number gives the number back. */
  lemma ToggleTwiceOnNumber(c: Calculator)
    requires |c.expression| > 0 && c.display == c.expression && c.display != "0"
    requires forall k :: 0 <= k < |c.expression| ==> !IsOperandStart(c.expression[k])
    requires !IsMinus(c.expression[0])
    ensures ToggleSign(ToggleSign(c)) == c
  {
    var e := c.expression;
    var e1 := [MinusSign] + e;
    assert e[..0] + [MinusSign] + e[0..] == e1;
    assert LastOperandStart(e).None?;
    assert Toggled(e) == e1;
    SignedNumberStart(e);
    assert e1[1..] == e;
    assert Toggled(e1) == e;
  }

  /** A minus sign in front of a number starts no operand. */
  lemma SignedNumberStart(e: string)
    requires forall k :: 0 <= k < |e| ==> !IsOperandStart(e[k])
    ensures LastOperandStart([MinusSign] + e).None?
  {
    var e1 := [MinusSign] + e;
    forall k | 0 <= k < |e1|
      ensures !IsOperandStart(e1[k])
    {
      if k > 0 {
        assert e1[k] == e[k - 1];
      }
    }
  }

  /** After an operator the inserted minus sign is not recognised as the number's
      sign, so a second toggle inserts another one: `a+b` becomes `a+−b`, then
      `a+−−b`. */
  lemma ToggleTwiceAfterOperator(c: Calculator, a: DigitChar, b: DigitChar)
    requires c.expression == [a, '+', b] && c.display == c.expression
    ensures ToggleSign(c).expression == [a, '+', MinusSign, b]
    ensures ToggleSign(ToggleSign(c)).expression == [a, '+', MinusSign, MinusSign, b]
  {
    var e1 := [a, '+', MinusSign, b];
    var e2 := [a, '+', MinusSign, MinusSign, b];
    PlusSplits(c.expression, e1, e2, a, b);
    SignAfterPlus(c.expression, e1, [a, '+'], [b]);
    ToggleShows(c, e1);
    SignAfterPlus(e1, e2, [a, '+'], [MinusSign, b]);
    ToggleShows(ToggleSign(c), e2);
  }

  lemma PlusSplits(e: string, e1: string, e2: string, a: char, b: char)
    requires e == [a, '+', b] && e1 == [a, '+', MinusSign, b] && e2 == [a, '+', MinusSign, MinusSign, b]
    ensures e == [a, '+'] + [b] && e1 == [a, '+'] + [MinusSign] + [b]
    ensures e1 == [a, '+'] + [MinusSign, b] && e2 == [a, '+'] + [MinusSign] + [MinusSign, b]
  {
  }

  /** What the toggle computes is what both buffers show. */
  lemma ToggleShows(c: Calculator, r: string)
    requires |c.expression| > 0 && c.display != "0" && Toggled(c.expression) == r
    ensures ToggleSign(c).expression == r && ToggleSign(c).display == r
  {
  }

  /** `p` ending in `+`, then a tail with no operand start: the toggle inserts a
      minus sign between the two. */
  lemma SignAfterPlus(e: string, r: string, p: string, t: string)
    requires e == p + t && |p| > 0 && p[|p| - 1] == '+' && r == p + [MinusSign] + t
    requires forall k :: 0 <= k < |t| ==> !IsOperandStart(t[k])
    ensures Toggled(e) == r
  {
    LastOperandStartAt(e, |p| - 1);
    InsertsAfterStart(e, |p| - 1);
    assert e[..|p|] == p && e[|p|..] == t;
  }

  /** Without a minus at the operand start `j`, the toggle inserts a minus sign
      right after it. */
  lemma InsertsAfterStart(e: string, j: nat)
    requires |e| > 0 && LastOperandStart(e) == Some(j) && !IsMinus(e[j])
    ensures Toggled(e) == e[..j + 1] + [MinusSign] + e[j + 1..]
  {
    assert Toggled(e) == Inserted(e, j + 1);
  }

  /** A negative result, the only way an ASCII `-` gets in front of a number, makes
      toggle_sign as written panic: the cut would start before byte 0. */
  lemma NegativeResultPanics(c: Calculator)
    requires |c.expression| > 1 && c.expression[0] == '-' && c.display != "0"
    requires forall k :: 1 <= k < |c.expression| ==> !IsOperandStart(c.expression[k])
    ensures ToggleSignAsWritten(c) == None
    ensures ToggleSign(c).expression == c.expression[1..]
  {
    var e := c.expression;
    assert LastOperandStart(e) == Some(0) by { LastOperandStartAt(e, 0); }
    assert ByteLen(e[..1]) == 1 by { assert e[..1][..0] == []; }
  }

  /** LastOperandStart finds `j` when nothing after it starts an operand. */
  lemma {:induction false} LastOperandStartAt(s: string, j: nat)
    requires j < |s| && IsOperandStart(s[j])
    requires forall k :: j < k < |s| ==> !IsOperandStart(s[k])
    ensures LastOperandStart(s) == Some(j)
    decreases |s|
  {
    if j < |s| - 1 {
      LastOperandStartAt(s[..|s| - 1], j);
    }
  }

  /** A negative result pasted after a number: toggle_sign as written cuts from
      three bytes before the number and drops the digits in front as well, so
      `ab-d` becomes `d`, where `abd` was meant. */
  lemma PastedNegativeLosesDigits(c: Calculator, a: DigitChar, b: DigitChar, d: DigitChar)
    requires c.expression == [a, b, '-', d] && c.display == c.expression
    ensures ToggleSignAsWritten(c) == Some(c.(expression := [d], display := [d]))
    ensures ToggleSign(c).expression == [a, b, d]
  {
    LastOperandStartAt(c.expression, 2);
    PastedWritten(c, a, b, d);
    PastedCorrected(c, a, b, d);
  }

  lemma PastedWritten(c: Calculator, a: DigitChar, b: DigitChar, d: DigitChar)
    requires c.expression == [a, b, '-', d] && c.display == c.expression
    requires LastOperandStart(c.expression) == Some(2)
    ensures ToggleSignAsWritten(c) == Some(c.(expression := [d], display := [d]))
  {
    PastedRemoval(c.expression, a, b, d);
  }

  lemma PastedCorrected(c: Calculator, a: DigitChar, b: DigitChar, d: DigitChar)
    requires c.expression == [a, b, '-', d] && c.display == c.expression
    requires LastOperandStart(c.expression) == Some(2)
    ensures ToggleSign(c).expression == [a, b, d]
  {
    assert c.expression[..2] + c.expression[3..] == [a, b, d];
  }

  /** The cut of toggle_sign as written on `ab-d`: three bytes before the `d` is byte 0. */
  lemma PastedRemoval(e: string, a: DigitChar, b: DigitChar, d: DigitChar)
    requires e == [a, b, '-', d]
    ensures WrittenRemoval(e, 2) == Some([d])
  {
    assert ByteLen(e[..3]) == 3 by { AsciiByteLen(e[..3]); }
    assert CharBoundary(e, 0) == Some(0) by { assert e[..0] == []; }
    assert e[..0] + e[3..] == [d];
  }

  /** A negative result recalled inside a group: on `(a-d` toggle_sign as written
      cuts from byte 0, dropping the open parenthesis with the digit, while the
      counter stays at one. The state leaves the invariant, and preprocessing then
      closes a group that was never opened. The corrected toggle gives `(ad` and
      keeps the invariant. */
  lemma CounterDesync(c: Calculator, a: DigitChar, d: DigitChar)
    requires Inv(c) && c.expression == ['(', a, '-', d] && c.display != "0"
    ensures ToggleSignAsWritten(c) == Some(c.(expression := [d], display := [d]))
    ensures var w := c.(expression := [d], display := [d]);
            && w.openParens == 1 && Depth(w.expression) == 0 && !Inv(w)
            && Depth(Preprocess(w)) == -1
    ensures ToggleSign(c).expression == ['(', a, d] && Inv(ToggleSign(c))
  {
    DesyncWritten(c, a, d);
    GroupDepth(c.expression, a, d);
    DesyncCounter(c.(expression := [d], display := [d]), d);
    DesyncCorrected(c, a, d);
  }

  lemma DesyncWritten(c: Calculator, a: DigitChar, d: DigitChar)
    requires c.expression == ['(', a, '-', d] && c.display != "0"
    ensures ToggleSignAsWritten(c) == Some(c.(expression := [d], display := [d]))
  {
    LastOperandStartAt(c.expression, 2);
    DesyncRemoval(c.expression, a, d);
  }

  lemma DesyncCorrected(c: Calculator, a: DigitChar, d: DigitChar)
    requires Inv(c) && c.expression == ['(', a, '-', d] && c.display != "0"
    ensures ToggleSign(c).expression == ['(', a, d] && Inv(ToggleSign(c))
  {
    var e := c.expression;
    LastOperandStartAt(e, 2);
    assert e[..2] + e[3..] == ['(', a, d];
    NegateInv(c);
  }

  lemma GroupDepth(e: string, a: DigitChar, d: DigitChar)
    requires e == ['(', a, '-', d]
    ensures Depth(e) == 1
  {
    DepthOfChar('(');
    DepthOfChar(a);
    DepthOfChar('-');
    DepthOfChar(d);
    assert ['(', a] == ['('] + [a];
    DepthAppend(['('], [a]);
    assert ['(', a, '-'] == ['(', a] + ['-'];
    DepthAppend(['(', a], ['-']);
    assert e == ['(', a, '-'] + [d];
    DepthAppend(['(', a, '-'], [d]);
  }

  /** The written cut on `(a-d`: three bytes before the `d` is byte 0. */
  lemma DesyncRemoval(e: string, a: DigitChar, d: DigitChar)
    requires e == ['(', a, '-', d]
    ensures WrittenRemoval(e, 2) == Some([d])
  {
    assert ByteLen(e[..3]) == 3 by { AsciiByteLen(e[..3]); }
    assert CharBoundary(e, 0) == Some(0) by { assert e[..0] == []; }
    assert e[..0] + e[3..] == [d];
  }

  /** `d` with the counter at one: unbalanced, and preprocessing appends a `)`. */
  lemma DesyncCounter(w: Calculator, d: DigitChar)
    requires w.openParens == 1 && w.expression == [d]
    ensures Depth(w.expression) == 0 && !Inv(w) && Depth(Preprocess(w)) == -1
  {
    DepthOfChar(d);
    DesyncPreprocess(w, d);
  }

  lemma DesyncPreprocess(w: Calculator, d: DigitChar)
    requires w.openParens == 1 && w.expression == [d]
    ensures Depth(Preprocess(w)) == -1
  {
    DesyncClosed(w, d);
    PreprocessDepth(w);
  }

  lemma DesyncClosed(w: Calculator, d: DigitChar)
    requires w.openParens == 1 && w.expression == [d]
    ensures Depth(SubstituteGlyphs(w.expression) + AutoClose(w.openParens)) == -1
  {
    var g := SubstituteGlyphs([d]);
    assert g == [d] by {
      assert forall k :: 0 <= k < |[d]| ==> !IsGlyph([d][k]);
      GlyphFreeKept([d]);
    }
    DepthOfChar(d);
    DepthOfChar(')');
    assert AutoClose(1) == [')'];
    DepthAppend(g, [')']);
  }

  /** Preprocessing after the auto-closing only inserts stars and rewrites calls,
      which keep the balance. */
  lemma PreprocessDepth(c: Calculator)
    ensures Depth(Preprocess(c)) == Depth(SubstituteGlyphs(c.expression) + AutoClose(c.openParens))
  {
  }

  // ---------------------------------------------------------------- calculate

  /** calculate refuses with "Incomplete" exactly when the expression ends in one of
      `+ - × ÷ (`: the evaluator's own errors never read "Incomplete". A trailing
      minus sign is not among them and reaches the evaluator. */
  lemma IncompleteExactly(c: Calculator, eval: string -> EvalOutcome)
    ensures Calculate(c, eval).1 == Failure("Incomplete") <==> EndsIncomplete(c.expression)
    ensures !EndsIncomplete("5" + [MinusSign])
  {
    if |c.expression| > 0 && !EndsIncomplete(c.expression) {
      match eval(Preprocess(c))
      case Rejected(m) =>
        var s := SimplifyError(m);
        assert s == "Syntax error" || s == "Missing )" || s == "Error";
      case _ =>
    }
  }

  /** A successful calculation: the result replaces both buffers, the counter is
      reset, and the history ends with what was shown and its result, the oldest
      entry giving way beyond the limit. */
  lemma SuccessfulCalculation(c: Calculator, eval: string -> EvalOutcome, f: string)
    requires |c.expression| > 0 && !EndsIncomplete(c.expression)
    requires |c.history| <= MaxHistory
    requires eval(Preprocess(c)) == Value(f)
    ensures var (r, outcome) := Calculate(c, eval);
            && outcome == Success(f)
            && r.expression == f && r.display == f && r.openParens == 0
            && |r.history| == (if |c.history| < MaxHistory then |c.history| + 1 else MaxHistory)
            && r.history[|r.history| - 1] == HistoryEntry(c.display, f)
            && r.history[..|r.history| - 1] == c.history[|c.history| + 1 - |r.history|..]
  {
    var h := Record(c.history, HistoryEntry(c.display, f));
    if |c.history| >= MaxHistory {
      assert h[..|h| - 1] == c.history[1..];
    } else {
      assert h[..|h| - 1] == c.history;
    }
  }

  // ---------------------------------------------------------------- preprocessing

  predicate IsGlyph(ch: char) {
    ch == TimesSign || ch == DivideSign || ch == MinusSign || ch == PiSign
  }

  /** What the evaluator reads for one character of the expression. */
  function Glyph(ch: char): (r: string)
    ensures forall k :: 0 <= k < |r| ==> !IsGlyph(r[k])
    ensures Depth(r) == Depth([ch])
  {
    assert NoParens("pi");
    NoParensDepth("pi");
    DepthOfChar(ch);
    if ch == TimesSign then "*"
    else if ch == DivideSign then "/"
    else if ch == MinusSign then "-"
    else if ch == PiSign then "pi"
    else [ch]
  }

  /** The glyph substitution as one pass over the characters: a reference definition
      for the four successive replacements of preprocess_expression. */
  function MapGlyphs(s: string): (r: string)
    ensures forall k :: 0 <= k < |r| ==> !IsGlyph(r[k])
    ensures Depth(r) == Depth(s)
  {
    if |s| == 0 then []
    else
      var init := MapGlyphs(s[..|s| - 1]);
      var last := Glyph(s[|s| - 1]);
      assert s == s[..|s| - 1] + [s[|s| - 1]];
      DepthAppend(s[..|s| - 1], [s[|s| - 1]]);
      DepthAppend(init, last);
      init + last
  }

  lemma SubstituteAppend(a: string, b: string)
    ensures SubstituteGlyphs(a + b) == SubstituteGlyphs(a) + SubstituteGlyphs(b)
  {
    var a1 := ReplaceChar(a, TimesSign, "*");
    var b1 := ReplaceChar(b, TimesSign, "*");
    ReplaceCharAppend(a, b, TimesSign, "*");
    var a2 := ReplaceChar(a1, DivideSign, "/");
    var b2 := ReplaceChar(b1, DivideSign, "/");
    ReplaceCharAppend(a1, b1, DivideSign, "/");
    var a3 := ReplaceChar(a2, MinusSign, "-");
    var b3 := ReplaceChar(b2, MinusSign, "-");
    ReplaceCharAppend(a2, b2, MinusSign, "-");
    ReplaceCharAppend(a3, b3, PiSign, "pi");
  }

  /** Replacing a character in a string that does not hold it changes nothing. */
  lemma {:induction false} ReplaceAbsent(s: string, c: char, repl: string)
    requires c !in s
    ensures ReplaceChar(s, c, repl) == s
    decreases |s|
  {
    if |s| > 0 {
      assert s[..|s| - 1] <= s;
      ReplaceAbsent(s[..|s| - 1], c, repl);
      assert s == s[..|s| - 1] + [s[|s| - 1]];
    }
  }

  /** A string without keypad glyphs passes the substitution unchanged. */
  lemma GlyphFreeKept(s: string)
    requires forall k :: 0 <= k < |s| ==> !IsGlyph(s[k])
    ensures SubstituteGlyphs(s) == s
  {
    ReplaceAbsent(s, TimesSign, "*");
    ReplaceAbsent(s, DivideSign, "/");
    ReplaceAbsent(s, MinusSign, "-");
    ReplaceAbsent(s, PiSign, "pi");
  }

  lemma ReplaceOne(ch: char, c: char, repl: string)
    ensures ReplaceChar([ch], c, repl) == if ch == c then repl else [ch]
  {
    assert [ch][..0] == [];
  }

  lemma SubstituteOne(ch: char)
    ensures SubstituteGlyphs([ch]) == Glyph(ch)
  {
    var x1 := if ch == TimesSign then '*' else ch;
    ReplaceOne(ch, TimesSign, "*");
    assert ReplaceChar([ch], TimesSign, "*") == [x1];
    var x2 := if x1 == DivideSign then '/' else x1;
    ReplaceOne(x1, DivideSign, "/");
    assert ReplaceChar([x1], DivideSign, "/") == [x2];
    var x3 := if x2 == MinusSign then '-' else x2;
    ReplaceOne(x2, MinusSign, "-");
    assert ReplaceChar([x2], MinusSign, "-") == [x3];
    ReplaceOne(x3, PiSign, "pi");
  }

  /** The four replacements of preprocess_expression amount to the one-pass glyph map,
      so no keypad glyph reaches the evaluator and the parenthesis balance is kept. */
  lemma {:induction false} SubstituteIsMap(e: string)
    ensures SubstituteGlyphs(e) == MapGlyphs(e)
    decreases |e|
  {
    if |e| > 0 {
      var init := e[..|e| - 1];
      assert e == init + [e[|e| - 1]];
      SubstituteAppend(init, [e[|e| - 1]]);
      SubstituteOne(e[|e| - 1]);
      SubstituteIsMap(init);
    } else {
      assert SubstituteGlyphs(e) == [];
    }
  }

  /** No prefix of the evaluator text closes more than it opened. */
  lemma PreprocessNeverUnderflows(c: Calculator)
    requires Inv(c)
    ensures NonNegPrefixes(Preprocess(c))
  {
    var closed := SubstituteGlyphs(c.expression) + AutoClose(c.openParens);
    ClosedFloor(c);
    var explicit := ImplicitMul.AddImplicitMultiplication(closed);
    ImplicitMul.StarsInsertedFloor(explicit, closed, 0);
    NonNegIsFloor(explicit);
    if c.angleMode == Degrees {
      Trig.ConvertTrigFloor(explicit);
    }
  }

  /** The substituted expression followed by the auto-closing parentheses stays at
      non-negative depth. */
  lemma ClosedFloor(c: Calculator)
    requires Inv(c)
    ensures FloorAbove(SubstituteGlyphs(c.expression) + AutoClose(c.openParens), 0)
  {
    var e := c.expression;
    NonNegIsFloor(e);
    assert e[..|e|] == e;
    SubstituteIsMap(e);
    MapGlyphsFloor(e, 0);
    CloseAllFloor(SubstituteGlyphs(e), c.openParens, 0);
  }

  /** Glyph substitution keeps the floor of the text: only parentheses move the
      depth, and they are copied as they are. */
  lemma {:induction false} MapGlyphsFloor(s: string, b: int)
    requires FloorAbove(s, b)
    ensures FloorAbove(MapGlyphs(s), b)
    decreases |s|
  {
    if |s| == 0 {
      assert s[..0] == [];
    } else {
      var init := s[..|s| - 1];
      var last := s[|s| - 1];
      assert s == init + [last];
      FloorSplit(init, [last], b);
      MapGlyphsFloor(init, b);
      GlyphFloor(last, b + Depth(init));
      FloorCompose(MapGlyphs(init), Glyph(last), b);
    }
  }

  lemma GlyphFloor(ch: char, b: int)
    requires FloorAbove([ch], b)
    ensures FloorAbove(Glyph(ch), b)
  {
    CharFloor(ch, b);
    if IsGlyph(ch) {
      NoParensFloor(Glyph(ch), b);
    }
  }

  /** get_last_char_normalized agrees with the glyph substitution of preprocessing
      on every last character but π, which becomes two characters there. */
  lemma NormalizedIsSubstituted(s: string)
    requires |s| > 0 && s[|s| - 1] != PiSign
    ensures SubstituteGlyphs([s[|s| - 1]]) == [LastCharNormalized(s)]
  {
    var ch := s[|s| - 1];
    SubstituteIsMap([ch]);
    assert [ch][..0] == [];
  }

  /** Under the invariant the evaluator always receives a balanced expression: the
      auto-closing makes up exactly for the parentheses left open, and the later
      passes keep the balance. */
  lemma PreprocessBalanced(c: Calculator)
    requires Inv(c)
    ensures Depth(Preprocess(c)) == 0
    ensures NonNegPrefixes(Preprocess(c))
  {
    PreprocessNeverUnderflows(c);
    var e := c.expression;
    assert e[..|e|] == e;
    SubstituteIsMap(e);
    var close := AutoClose(c.openParens);
    assert '(' !in close;
    CountAbsent(close, '(');
    CountOnly(close, ')');
    DepthAppend(SubstituteGlyphs(e), close);
  }
}
