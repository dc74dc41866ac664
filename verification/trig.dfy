/** The degrees-to-radians pass: in Degrees mode every `sin(`, `cos(` and `tan(`
    call whose argument closes gets its argument multiplied by pi/180. */
module Trig {
  import opened Text

  /** The printed form of pi/180 that the pass splices in; its numeric value is not
      modelled. */
  const DegToRad: string := "0.017453292519943295"

  /** Depth of the parentheses of `s` from `lo` up to and including index `k`. */
  function DepthThrough(s: string, lo: nat, k: nat): int
    requires lo <= k < |s|
  {
    Depth(s[lo..k + 1])
  }

  /** find_closing_paren: given that the call's name occupies the first `funcLen`
      characters of `s`, the index of the `)` that closes the `(` at `funcLen`.
      None when that `(` is missing, is the last character, or never closes. */
  function FindClosingParen(s: string, funcLen: nat): (r: Option<nat>)
    ensures r.Some? ==> funcLen + 1 < |s| && s[funcLen] == '('
    ensures r.Some? ==> funcLen < r.value < |s| && s[r.value] == ')'
    ensures r.Some? ==> DepthThrough(s, funcLen, r.value) == 0
    ensures r.Some? ==> forall k :: funcLen <= k < r.value ==> DepthThrough(s, funcLen, k) > 0
    ensures r.None? ==> funcLen + 1 >= |s| || s[funcLen] != '('
                        || forall k :: funcLen <= k < |s| ==> DepthThrough(s, funcLen, k) > 0
  {
    if funcLen + 1 >= |s| || s[funcLen] != '(' then None
    else
      DepthOfChar(s[funcLen]);
      assert s[funcLen..funcLen + 1] == [s[funcLen]];
      ScanClose(s, funcLen, funcLen + 1, 1)
  }

  /** The scan of find_closing_paren from index `i` with `depth` parentheses open. */
  function ScanClose(s: string, lo: nat, i: nat, depth: int): (r: Option<nat>)
    requires lo < i <= |s|
    requires depth == Depth(s[lo..i]) && depth > 0
    requires forall k :: lo <= k < i ==> DepthThrough(s, lo, k) > 0
    ensures r.Some? ==> i <= r.value < |s| && s[r.value] == ')'
    ensures r.Some? ==> DepthThrough(s, lo, r.value) == 0
    ensures r.Some? ==> forall k :: lo <= k < r.value ==> DepthThrough(s, lo, k) > 0
    ensures r.None? ==> forall k :: lo <= k < |s| ==> DepthThrough(s, lo, k) > 0
    decreases |s| - i
  {
    if i == |s| then None
    else
      StepDepth(s, lo, i);
      if s[i] == '(' then ScanClose(s, lo, i + 1, depth + 1)
      else if s[i] == ')' then
        if depth - 1 == 0 then Some(i) else ScanClose(s, lo, i + 1, depth - 1)
      else ScanClose(s, lo, i + 1, depth)
  }

  /** Extending the scanned window by one character changes the depth by that
      character's contribution. */
  lemma StepDepth(s: string, lo: nat, i: nat)
    requires lo <= i < |s|
    ensures DepthThrough(s, lo, i)
            == Depth(s[lo..i]) + (if s[i] == '(' then 1 else if s[i] == ')' then -1 else 0)
  {
    assert s[lo..i + 1] == s[lo..i] + [s[i]];
    DepthAppend(s[lo..i], [s[i]]);
    DepthOfChar(s[i]);
  }

  /** The replacement text for one call: `f((inner)*pi/180)`. */
  function RadiansCall(func: string, inner: string): string {
    func + "((" + inner + ")*" + DegToRad + ")"
  }

  /** Where the pass next acts on `s`: nothing to do, or the text `pre` copied as it
      is, then `call` (the pattern, with its argument and closing parenthesis when
      that closes) written as `replacement`, then the rest `tail` still to scan. */
  datatype Cut = NoCall | Call(pre: string, call: string, replacement: string, tail: string)

  /** One step of the scan in convert_trig_to_radians for the name `func`: the first
      `func(` is found; when its argument closes, the whole call is rewritten, the
      argument copied as it is (so a nested call of the same name is left alone);
      otherwise only the pattern is copied and the scan goes on after it. */
  function NextCall(func: string, s: string): (r: Cut)
    requires NoParens(func)
    ensures r.NoCall? <==> forall q: nat :: !OccursAt(s, func + "(", q)
    ensures r.Call? ==> s == r.pre + r.call + r.tail && |r.tail| < |s|
    ensures r.Call? ==> forall q: nat :: q < |r.pre| ==> !OccursAt(s, func + "(", q)
    ensures r.Call? ==> Depth(r.replacement) == Depth(r.call)
    ensures r.Call? ==> OccursAt(s, func + "(", |r.pre|)
    ensures r.Call? ==>
              match FindClosingParen(s[|r.pre|..], |func|)
              case Some(end) =>
                && r.call == s[|r.pre|..][..end + 1]
                && r.replacement == RadiansCall(func, r.call[|func| + 1..|r.call| - 1])
              case None => r.call == func + "(" && r.replacement == r.call
  {
    match Find(s, func + "(")
    case None => NoCall
    case Some(pos) =>
      match FindClosingParen(s[pos..], |func|)
      case Some(end) => ClosedCut(func, s, pos, end)
      case None => OpenCut(func, s, pos)
  }

  /** The cut at a call `func(inner)` starting at `pos` whose argument closes at `end`
      (counted from `pos`). */
  function ClosedCut(func: string, s: string, pos: nat, end: nat): (r: Cut)
    requires NoParens(func)
    requires OccursAt(s, func + "(", pos)
    requires |func| < end && pos + end < |s| && s[pos + end] == ')'
    ensures r.Call? && r.pre == s[..pos] && |r.tail| < |s|
    ensures s == r.pre + r.call + r.tail
    ensures Depth(r.replacement) == Depth(r.call)
    ensures r.call == s[pos..][..end + 1]
    ensures r.call == func + "(" + r.call[|func| + 1..|r.call| - 1] + ")"
    ensures r.replacement == RadiansCall(func, r.call[|func| + 1..|r.call| - 1])
  {
    var inner := s[pos..][|func| + 1..end];
    SplitClosed(s, pos, func, end);
    ClosedCallDepth(func, inner);
    var call := func + "(" + inner + [')'];
    assert call[|func| + 1..|call| - 1] == inner;
    Call(s[..pos], call, RadiansCall(func, inner), s[pos..][end + 1..])
  }

  /** The cut at a pattern `func(` starting at `pos` whose argument never closes. */
  function OpenCut(func: string, s: string, pos: nat): (r: Cut)
    requires OccursAt(s, func + "(", pos)
    ensures r.Call? && r.pre == s[..pos] && |r.tail| < |s|
    ensures s == r.pre + r.call + r.tail
    ensures r.call == func + "(" && r.replacement == r.call
  {
    var pattern := func + "(";
    SplitOpen(s, pos, pattern);
    Call(s[..pos], pattern, pattern, s[pos..][|pattern|..])
  }

  /** One pass of convert_trig_to_radians for the name `func`: text without the
      pattern is left as it is, and the parenthesis balance is kept. */
  function RewriteCalls(func: string, s: string): (r: string)
    requires NoParens(func)
    ensures (forall q: nat :: !OccursAt(s, func + "(", q)) ==> r == s
    ensures Depth(r) == Depth(s)
    decreases |s|
  {
    match NextCall(func, s)
    case NoCall => s
    case Call(pre, call, replacement, tail) =>
      var rest := RewriteCalls(func, tail);
      DepthAppend(pre, call);
      DepthAppend(pre + call, tail);
      DepthAppend(pre, replacement);
      DepthAppend(pre + replacement, rest);
      pre + replacement + rest
  }

  /** convert_trig_to_radians: the sin, cos and tan passes, in that order. Text with
      none of `sin(`, `cos(`, `tan(` is left as it is, and the balance is kept. */
  function ConvertTrigToRadians(expr: string): (r: string)
    ensures ((forall q: nat :: !OccursAt(expr, "sin(", q))
             && (forall q: nat :: !OccursAt(expr, "cos(", q))
             && (forall q: nat :: !OccursAt(expr, "tan(", q))) ==> r == expr
    ensures Depth(r) == Depth(expr)
  {
    var s1 := RewriteCalls("sin", expr);
    PassIdentity("sin", "sin(", expr, s1);
    var s2 := RewriteCalls("cos", s1);
    PassIdentity("cos", "cos(", s1, s2);
    var s3 := RewriteCalls("tan", s2);
    PassIdentity("tan", "tan(", s2, s3);
    s3
  }

  /** The identity half of a pass's contract, for the pattern spelled as a literal. */
  lemma PassIdentity(func: string, pattern: string, s: string, r: string)
    requires NoParens(func) && pattern == func + "(" && r == RewriteCalls(func, s)
    ensures (forall q: nat :: !OccursAt(s, pattern, q)) ==> r == s
  {
  }

  /** A pass spelled out on any text: nothing to do without a `func(`; otherwise the
      text before the first one is copied, a call whose argument closes becomes
      `func((inner)*pi/180)`, an unclosed `func(` is copied, and the scan goes on
      after it. */
  lemma RewriteCallsUnfold(func: string, s: string)
    requires NoParens(func)
    ensures match Find(s, func + "(")
            case None => RewriteCalls(func, s) == s
            case Some(pos) =>
              match FindClosingParen(s[pos..], |func|)
              case Some(end) =>
                RewriteCalls(func, s)
                == s[..pos] + RadiansCall(func, s[pos..][|func| + 1..end]) + RewriteCalls(func, s[pos..][end + 1..])
              case None =>
                RewriteCalls(func, s) == s[..pos] + (func + "(") + RewriteCalls(func, s[pos..][|func| + 1..])
  {
    match Find(s, func + "(")
    case None =>
    case Some(pos) =>
      match FindClosingParen(s[pos..], |func|)
      case Some(end) => UnfoldClosed(func, s, pos, end);
      case None => UnfoldOpen(func, s, pos);
  }

  lemma UnfoldClosed(func: string, s: string, pos: nat, end: nat)
    requires NoParens(func)
    requires Find(s, func + "(") == Some(pos) && FindClosingParen(s[pos..], |func|) == Some(end)
    ensures RewriteCalls(func, s)
            == s[..pos] + RadiansCall(func, s[pos..][|func| + 1..end]) + RewriteCalls(func, s[pos..][end + 1..])
  {
    var cut := ClosedCut(func, s, pos, end);
    assert NextCall(func, s) == cut;
  }

  lemma UnfoldOpen(func: string, s: string, pos: nat)
    requires NoParens(func)
    requires Find(s, func + "(") == Some(pos) && FindClosingParen(s[pos..], |func|) == None
    ensures RewriteCalls(func, s) == s[..pos] + (func + "(") + RewriteCalls(func, s[pos..][|func| + 1..])
  {
    var cut := OpenCut(func, s, pos);
    assert NextCall(func, s) == cut;
  }

  /** A pass never takes a prefix below the floor the text kept: a rewritten call
      opens one group more than the call and closes it again. */
  lemma {:induction false} RewriteCallsFloor(func: string, s: string, b: int)
    requires NoParens(func) && FloorAbove(s, b)
    ensures FloorAbove(RewriteCalls(func, s), b)
    decreases |s|
  {
    match NextCall(func, s)
    case NoCall =>
    case Call(pre, call, replacement, tail) =>
      FloorSplit(pre + call, tail, b);
      FloorSplit(pre, call, b);
      DepthAppend(pre, call);
      var b1 := b + Depth(pre);
      ReplacementFloor(func, s, b1);
      RewriteCallsFloor(func, tail, b1 + Depth(call));
      FloorCompose(pre, replacement, b);
      FloorCompose(pre + replacement, RewriteCalls(func, tail), b);
  }

  /** The conversion keeps every prefix of a text at non-negative depth. */
  lemma ConvertTrigFloor(expr: string)
    requires NonNegPrefixes(expr)
    ensures NonNegPrefixes(ConvertTrigToRadians(expr))
  {
    NonNegIsFloor(expr);
    var s1 := RewriteCalls("sin", expr);
    RewriteCallsFloor("sin", expr, 0);
    var s2 := RewriteCalls("cos", s1);
    RewriteCallsFloor("cos", s1, 0);
    RewriteCallsFloor("tan", s2, 0);
    NonNegIsFloor(ConvertTrigToRadians(expr));
  }

  /** The replacement of a cut keeps the floor its call kept. */
  lemma ReplacementFloor(func: string, s: string, b: int)
    requires NoParens(func) && NextCall(func, s).Call? && FloorAbove(NextCall(func, s).call, b)
    ensures FloorAbove(NextCall(func, s).replacement, b)
  {
    match Find(s, func + "(")
    case Some(pos) =>
      match FindClosingParen(s[pos..], |func|)
      case Some(end) =>
        var cut := ClosedCut(func, s, pos, end);
        assert NextCall(func, s) == cut;
        CallFloor(func, cut.call[|func| + 1..|cut.call| - 1], b);
      case None =>
  }

  /** `func((inner)*pi/180)` keeps the floor of `func(inner)`. */
  lemma CallFloor(func: string, inner: string, b: int)
    requires NoParens(func) && FloorAbove(func + "(" + inner + ")", b)
    ensures FloorAbove(RadiansCall(func, inner), b)
  {
    var open := func + "(";
    FloorSplit(open + inner, ")", b);
    FloorSplit(open, inner, b);
    DepthAppend(open, inner);
    OpenFloor(func, b);
    DepthOfChar(')');
    assert ")" == [')'];
    CharFloor(')', b + Depth(open) + Depth(inner));
    var d := Depth(inner);
    OpenTwiceFloor(func, b);
    var head := func + "((";
    assert FloorAbove(inner, b + Depth(head));
    FloorCompose(head, inner, b);
    CloseStarFloor(b + 2 + d);
    FloorCompose(head + inner, ")*", b);
    NoParensFloor(DegToRad, b + 1 + d);
    FloorCompose(head + inner + ")*", DegToRad, b);
    CharFloor(')', b + 1 + d);
    FloorCompose(head + inner + ")*" + DegToRad, ")", b);
  }

  lemma OpenFloor(func: string, b: int)
    requires NoParens(func) && b >= 0
    ensures FloorAbove(func + "(", b) && Depth(func + "(") == 1
  {
    NoParensFloor(func, b);
    DepthOfChar('(');
    assert "(" == ['('];
    CharFloor('(', b);
    FloorCompose(func, "(", b);
  }

  lemma OpenTwiceFloor(func: string, b: int)
    requires NoParens(func) && b >= 0
    ensures FloorAbove(func + "((", b) && Depth(func + "((") == 2
  {
    OpenFloor(func, b);
    CharFloor('(', b + 1);
    assert "(" == ['('];
    FloorCompose(func + "(", "(", b);
    assert func + "((" == func + "(" + "(";
  }

  lemma CloseStarFloor(b: int)
    requires b >= 1
    ensures FloorAbove(")*", b) && Depth(")*") == -1
  {
    DepthOfChar(')');
    DepthOfChar('*');
    CharFloor(')', b);
    CharFloor('*', b - 1);
    assert ")*" == [')'] + ['*'];
    FloorCompose([')'], ['*'], b);
  }

  lemma DepthOfLiterals(func: string)
    requires NoParens(func)
    ensures Depth(func) == 0
    ensures Depth(func + "(") == 1
    ensures Depth("((") == 2
    ensures Depth(")*") == -1
    ensures Depth(")") == -1
    ensures Depth(DegToRad) == 0
  {
    NoParensDepth(func);
    DepthAppend(func, "(");
    DepthOfChar('(');
    DepthOfChar(')');
    assert "((" == ['('] + ['('];
    DepthAppend(['('], ['(']);
    assert ")*" == [')'] + ['*'];
    DepthAppend([')'], ['*']);
    DepthOfChar('*');
    assert NoParens(DegToRad);
    NoParensDepth(DegToRad);
  }

  /** The rewritten call has the same depth as the call it replaces. */
  lemma ClosedCallDepth(func: string, inner: string)
    requires NoParens(func)
    ensures Depth(RadiansCall(func, inner)) == Depth(func + "(" + inner + [')'])
  {
    DepthOfLiterals(func);
    DepthAppend(func, "((");
    DepthAppend(func + "((", inner);
    DepthAppend(func + "((" + inner, ")*");
    DepthAppend(func + "((" + inner + ")*", DegToRad);
    DepthAppend(func + "((" + inner + ")*" + DegToRad, ")");
    DepthAppend(func + "(", inner);
    DepthAppend(func + "(" + inner, [')']);
  }

  /** `s` cut at a call `func(inner)` that starts at `pos`. */
  lemma SplitClosed(s: string, pos: nat, func: string, end: nat)
    requires OccursAt(s, func + "(", pos)
    requires |func| < end && pos + end < |s| && s[pos + end] == ')'
    ensures s == s[..pos] + (func + "(" + s[pos..][|func| + 1..end] + [')']) + s[pos..][end + 1..]
  {
    var rem := s[pos..];
    assert rem[..|func| + 1] == func + "(";
    assert rem == rem[..|func| + 1] + rem[|func| + 1..end] + [rem[end]] + rem[end + 1..];
    assert s == s[..pos] + rem;
  }

  /** `s` cut at an occurrence of `pattern` at `pos`. */
  lemma SplitOpen(s: string, pos: nat, pattern: string)
    requires OccursAt(s, pattern, pos)
    ensures s == s[..pos] + pattern + s[pos..][|pattern|..]
  {
    var rem := s[pos..];
    assert rem[..|pattern|] == pattern;
    assert rem == rem[..|pattern|] + rem[|pattern|..];
    assert s == s[..pos] + rem;
  }
}
