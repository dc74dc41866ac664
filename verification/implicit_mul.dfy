/** The implicit-multiplication pass that runs on the normalised expression just
    before evaluation: a `*` goes between a number or `)` and a following known
    identifier or `(`, and between `)` and a following digit. */
module ImplicitMul {
  import opened Text

  /** The identifiers the pass recognises, in the order it tries them. The first
      entry that matches wins, not the longest. */
  const FunctionTable: seq<string> :=
    ["sin", "cos", "tan", "asin", "acos", "atan", "log10", "ln", "sqrt", "abs", "exp", "pi"]

  predicate OperandBefore(prev: Option<char>) {
    prev.Some? && Operand(prev.value)
  }

  /** Index of the first table entry, in table order, that `s` starts with. */
  function FirstTokenIndex(s: string): (r: Option<nat>)
    ensures r.Some? ==> r.value < |FunctionTable| && StartsWith(s, FunctionTable[r.value])
    ensures r.Some? ==> forall j :: 0 <= j < r.value ==> !StartsWith(s, FunctionTable[j])
    ensures r.None? ==> forall j :: 0 <= j < |FunctionTable| ==> !StartsWith(s, FunctionTable[j])
    ensures r.Some? ==> 2 <= |FunctionTable[r.value]| <= |s|
  {
    var r := TokenIndexFrom(s, 0);
    if r.Some? then TokenFacts(r.value); r else r
  }

  function TokenIndexFrom(s: string, k: nat): (r: Option<nat>)
    requires k <= |FunctionTable|
    requires forall j :: 0 <= j < k ==> !StartsWith(s, FunctionTable[j])
    ensures r.Some? ==> k <= r.value < |FunctionTable| && StartsWith(s, FunctionTable[r.value])
    ensures r.Some? ==> forall j :: 0 <= j < r.value ==> !StartsWith(s, FunctionTable[j])
    ensures r.None? ==> forall j :: 0 <= j < |FunctionTable| ==> !StartsWith(s, FunctionTable[j])
    decreases |FunctionTable| - k
  {
    if k == |FunctionTable| then None
    else if StartsWith(s, FunctionTable[k]) then Some(k)
    else TokenIndexFrom(s, k + 1)
  }

  /** Some identifier of the table starts at the head of `s`. */
  predicate StartsToken(s: string) {
    exists j :: 0 <= j < |FunctionTable| && StartsWith(s, FunctionTable[j])
  }

  lemma FirstTokenIndexIs(s: string, k: nat)
    requires k < |FunctionTable| && StartsWith(s, FunctionTable[k])
    requires forall j :: 0 <= j < k ==> !StartsWith(s, FunctionTable[j])
    ensures FirstTokenIndex(s) == Some(k)
  {
  }

  lemma FirstTokenIndexFound(s: string)
    ensures FirstTokenIndex(s).Some? <==> StartsToken(s)
  {
    if FirstTokenIndex(s).Some? {
      assert StartsWith(s, FunctionTable[FirstTokenIndex(s).value]);
    }
  }

  /** Every identifier of the table is at least two characters long, starts with a
      letter, contains no `*`, and its only digits are the "10" closing "log10". */
  lemma TokenFacts(j: nat)
    requires j < |FunctionTable|
    ensures |FunctionTable[j]| >= 2
    ensures FunctionTable[j][0] in "sctalep"
    ensures '*' !in FunctionTable[j]
    ensures forall k :: 0 <= k < |FunctionTable[j]| - 1 && Operand(FunctionTable[j][k]) ==>
              FunctionTable[j][k] != ')' && IsAsciiDigit(FunctionTable[j][k + 1])
  {
    var t := FunctionTable[j];
    assert t == "sin" || t == "cos" || t == "tan" || t == "asin" || t == "acos" || t == "atan"
        || t == "log10" || t == "ln" || t == "sqrt" || t == "abs" || t == "exp" || t == "pi";
  }

  /** No identifier starts with a character outside "sctalep". */
  lemma NoTokenAt(s: string)
    requires |s| > 0 && s[0] !in "sctalep"
    ensures !StartsToken(s)
    ensures FirstTokenIndex(s).None?
  {
    forall j | 0 <= j < |FunctionTable|
      ensures !StartsWith(s, FunctionTable[j])
    {
      TokenFacts(j);
    }
  }

  /** The output is the input with some `*` characters inserted and nothing else. */
  predicate StarsInserted(out: string, input: string)
    decreases |out|
  {
    if |out| == 0 then |input| == 0
    else (|input| > 0 && out[0] == input[0] && StarsInserted(out[1..], input[1..]))
         || (out[0] == '*' && StarsInserted(out[1..], input))
  }

  /** `a` followed by `rest` is a juxtaposition the evaluator would reject:
      a number or `)` directly before an identifier or `(`, or `)` directly before a digit. */
  predicate Juxtaposed(a: char, rest: string) {
    || (Operand(a) && (StartsToken(rest) || (|rest| > 0 && rest[0] == '(')))
    || (a == ')' && |rest| > 0 && IsAsciiDigit(rest[0]))
  }

  /** No juxtaposition is left anywhere in `s`. */
  predicate NoJuxtaposition(s: string)
    decreases |s|
  {
    |s| == 0 || (!Juxtaposed(s[0], s[1..]) && NoJuxtaposition(s[1..]))
  }

  /** Whether the pass writes a `*` before a character `c` that starts no identifier. */
  predicate StarBeforeChar(c: char, prev: Option<char>) {
    (c == '(' && OperandBefore(prev)) || (IsAsciiDigit(c) && prev == Some(')'))
  }

  function StarIf(b: bool): string {
    if b then "*" else ""
  }

  /** The pass, with `prev` the last character already written (None at the start). */
  function Juxtapose(s: string, prev: Option<char>): string
    decreases |s|
  {
    if |s| == 0 then []
    else match FirstTokenIndex(s)
      case Some(j) =>
        var t := FunctionTable[j];
        TokenFacts(j);
        StarIf(OperandBefore(prev)) + t + Juxtapose(s[|t|..], Some(t[|t| - 1]))
      case None =>
        var c := s[0];
        StarIf(StarBeforeChar(c, prev)) + [c] + Juxtapose(s[1..], Some(c))
  }

  /** add_implicit_multiplication: inserts only `*`, leaves no juxtaposition behind,
      and so keeps the parenthesis balance. */
  function AddImplicitMultiplication(expr: string): (r: string)
    ensures StarsInserted(r, expr)
    ensures NoJuxtaposition(r)
    ensures Depth(r) == Depth(expr)
    ensures r == MarkJuxtapositions(expr, None)
  {
    JuxtaposeIsMark(expr, None);
    JuxtaposeStarsOnly(expr, None);
    JuxtaposeSeparates(expr, None);
    StarsInsertedDepth(Juxtapose(expr, None), expr);
    Juxtapose(expr, None)
  }

  /** The pass as the source writes it: a left-to-right scan with an inner search of
      the identifier table. */
  method AddImplicitMultiplicationLoop(expr: string) returns (result: string)
    ensures result == AddImplicitMultiplication(expr)
    ensures StarsInserted(result, expr)
  {
    result := [];
    var i := 0;
    assert expr[0..] == expr;
    while i < |expr|
      invariant Scanned(expr, i, result)
      decreases |expr| - i
    {
      i, result := ScanStep(expr, i, result);
    }
    assert expr[i..] == [];
  }

  /** One iteration of the scan: writes the identifier or character at `i`, with a
      `*` before it when it follows a number or `)`. */
  method ScanStep(expr: string, i: nat, result: string) returns (i': nat, result': string)
    requires i < |expr| && Scanned(expr, i, result)
    ensures i < i' && Scanned(expr, i', result')
  {
    var k := MatchToken(expr[i..]);
    if k < |FunctionTable| {
      i', result' := WriteToken(expr, i, k, result);
    } else {
      i', result' := WriteChar(expr, i, result);
    }
  }

  /** Writes the table entry `k` found at `i`, after a `*` when it follows a number or `)`. */
  method WriteToken(expr: string, i: nat, k: nat, result: string) returns (i': nat, result': string)
    requires i < |expr| && k < |FunctionTable| && FirstTokenIndex(expr[i..]) == Some(k)
    requires Scanned(expr, i, result)
    ensures i < i' && Scanned(expr, i', result')
  {
    var t := FunctionTable[k];
    TokenFacts(k);
    result' := result;
    if |result'| > 0 && Operand(result'[|result'| - 1]) {
      result' := result' + "*";
    }
    result' := result' + t;
    i' := i + |t|;
    TokenStep(expr, i, k, result, result', i');
  }

  /** Writes the character at `i`, after a `*` when it is `(` following a number or `)`,
      or a digit following `)`. */
  method WriteChar(expr: string, i: nat, result: string) returns (i': nat, result': string)
    requires i < |expr| && FirstTokenIndex(expr[i..]).None?
    requires Scanned(expr, i, result)
    ensures i' == i + 1 && Scanned(expr, i', result')
  {
    var c := expr[i];
    result' := result;
    if c == '(' && |result'| > 0 && Operand(result'[|result'| - 1]) {
      result' := result' + "*";
    }
    if IsAsciiDigit(c) && |result'| > 0 && result'[|result'| - 1] == ')' {
      result' := result' + "*";
    }
    result' := result' + [c];
    i' := i + 1;
    CharStep(expr, i, result, result');
  }

  /** After `i` characters of `expr`, the scan has written `result`, and finishing
      the pass from there gives the pass's output on all of `expr`. */
  predicate Scanned(expr: string, i: nat, result: string) {
    i <= |expr| && result + Juxtapose(expr[i..], LastChar(result)) == Juxtapose(expr, None)
  }

  /** The inner search of the scan: the first table entry `s` starts with, or the
      table's length when there is none. */
  method MatchToken(s: string) returns (k: nat)
    ensures k <= |FunctionTable|
    ensures k < |FunctionTable| ==> FirstTokenIndex(s) == Some(k)
    ensures k == |FunctionTable| ==> FirstTokenIndex(s).None?
  {
    k := 0;
    while k < |FunctionTable| && !StartsWith(s, FunctionTable[k])
      invariant 0 <= k <= |FunctionTable|
      invariant forall j :: 0 <= j < k ==> !StartsWith(s, FunctionTable[j])
    {
      k := k + 1;
    }
    if k < |FunctionTable| {
      FirstTokenIndexIs(s, k);
    }
  }

  /** An iteration of the scan that writes an identifier keeps the loop invariant. */
  lemma TokenStep(expr: string, i: nat, k: nat, before: string, after: string, next: nat)
    requires i < |expr| && FirstTokenIndex(expr[i..]) == Some(k)
    requires next == i + |FunctionTable[k]|
    requires Scanned(expr, i, before)
    requires after == before + StarIf(OperandBefore(LastChar(before))) + FunctionTable[k]
    ensures i < next && Scanned(expr, next, after)
  {
    var t := FunctionTable[k];
    UnfoldToken(expr[i..], LastChar(before), k);
    assert expr[i..][|t|..] == expr[next..];
    WriteStep(before, StarIf(OperandBefore(LastChar(before))), t, after,
              Juxtapose(expr[next..], Some(t[|t| - 1])), Juxtapose(expr[i..], LastChar(before)),
              Juxtapose(expr, None));
  }

  /** An iteration of the scan that writes one character keeps the loop invariant. */
  lemma CharStep(expr: string, i: nat, before: string, after: string)
    requires i < |expr| && FirstTokenIndex(expr[i..]).None?
    requires Scanned(expr, i, before)
    requires after == before + StarIf(StarBeforeChar(expr[i], LastChar(before))) + [expr[i]]
    ensures Scanned(expr, i + 1, after)
  {
    UnfoldChar(expr[i..], LastChar(before));
    assert expr[i..][1..] == expr[i + 1..];
    WriteStep(before, StarIf(StarBeforeChar(expr[i], LastChar(before))), [expr[i]], after,
              Juxtapose(expr[i + 1..], Some(expr[i])), Juxtapose(expr[i..], LastChar(before)),
              Juxtapose(expr, None));
  }

  /** One iteration of the scan appends `star + piece` to what was already written. */
  lemma WriteStep(before: string, star: string, piece: string, after: string,
                  rest: string, pending: string, output: string)
    requires |piece| > 0
    requires after == before + star + piece
    requires pending == star + (piece + rest)
    requires before + pending == output
    ensures after + rest == output
    ensures LastChar(after) == Some(piece[|piece| - 1])
  {
  }

  lemma ConcatAssoc(a: string, b: string, c: string)
    ensures a + b + c == a + (b + c)
  {
  }

  lemma UnfoldToken(s: string, prev: Option<char>, j: nat)
    requires |s| > 0 && FirstTokenIndex(s) == Some(j)
    ensures 2 <= |FunctionTable[j]| <= |s|
    ensures s == FunctionTable[j] + s[|FunctionTable[j]|..]
    ensures Juxtapose(s, prev) == StarIf(OperandBefore(prev)) + (FunctionTable[j]
              + Juxtapose(s[|FunctionTable[j]|..], Some(FunctionTable[j][|FunctionTable[j]| - 1])))
  {
    var t := FunctionTable[j];
    var rest := Juxtapose(s[|t|..], Some(t[|t| - 1]));
    ConcatAssoc(StarIf(OperandBefore(prev)), t, rest);
  }

  lemma UnfoldChar(s: string, prev: Option<char>)
    requires |s| > 0 && FirstTokenIndex(s).None?
    ensures s == [s[0]] + s[1..]
    ensures Juxtapose(s, prev) == StarIf(StarBeforeChar(s[0], prev)) + ([s[0]] + Juxtapose(s[1..], Some(s[0])))
  {
    var rest := Juxtapose(s[1..], Some(s[0]));
    ConcatAssoc(StarIf(StarBeforeChar(s[0], prev)), [s[0]], rest);
  }

  lemma {:induction false} StarsInsertedPrefix(t: string, a: string, b: string)
    requires StarsInserted(a, b)
    ensures StarsInserted(t + a, t + b)
    decreases |t|
  {
    if |t| > 0 {
      StarsInsertedPrefix(t[1..], a, b);
      assert (t + a)[1..] == t[1..] + a;
      assert (t + b)[1..] == t[1..] + b;
      assert (t + a)[0] == (t + b)[0];
    } else {
      assert t + a == a && t + b == b;
    }
  }

  lemma StarsInsertedStar(b: bool, a: string, input: string)
    requires StarsInserted(a, input)
    ensures StarsInserted(StarIf(b) + a, input)
  {
    if b {
      assert (StarIf(b) + a)[1..] == a;
    } else {
      assert StarIf(b) + a == a;
    }
  }

  /** Each step of the pass writes its piece, possibly after a `*`. */
  lemma StarsOnlyStep(piece: string, rest: string, restIn: string, b: bool)
    requires StarsInserted(rest, restIn)
    ensures StarsInserted(StarIf(b) + (piece + rest), piece + restIn)
  {
    StarsInsertedPrefix(piece, rest, restIn);
    StarsInsertedStar(b, piece + rest, piece + restIn);
  }

  lemma {:induction false} JuxtaposeStarsOnly(s: string, prev: Option<char>)
    ensures StarsInserted(Juxtapose(s, prev), s)
    decreases |s|
  {
    if |s| > 0 {
      match FirstTokenIndex(s)
      case Some(j) =>
        var t := FunctionTable[j];
        UnfoldToken(s, prev, j);
        JuxtaposeStarsOnly(s[|t|..], Some(t[|t| - 1]));
        StarsOnlyStep(t, Juxtapose(s[|t|..], Some(t[|t| - 1])), s[|t|..], OperandBefore(prev));
      case None =>
        UnfoldChar(s, prev);
        JuxtaposeStarsOnly(s[1..], Some(s[0]));
        StarsOnlyStep([s[0]], Juxtapose(s[1..], Some(s[0])), s[1..], StarBeforeChar(s[0], prev));
    }
  }

  lemma {:induction false} StarsInsertedDepth(out: string, input: string)
    requires StarsInserted(out, input)
    ensures Depth(out) == Depth(input)
    decreases |out|
  {
    if |out| > 0 {
      assert out == [out[0]] + out[1..];
      DepthAppend([out[0]], out[1..]);
      DepthOfChar(out[0]);
      if |input| > 0 && out[0] == input[0] && StarsInserted(out[1..], input[1..]) {
        StarsInsertedDepth(out[1..], input[1..]);
        assert input == [input[0]] + input[1..];
        DepthAppend([input[0]], input[1..]);
      } else {
        StarsInsertedDepth(out[1..], input);
      }
    }
  }

  /** Inserting stars never takes a prefix below the floor the input kept: the
      stars themselves leave the depth where it was. */
  lemma {:induction false} StarsInsertedFloor(out: string, input: string, b: int)
    requires StarsInserted(out, input) && FloorAbove(input, b)
    ensures FloorAbove(out, b)
    decreases |out|
  {
    if |out| > 0 {
      assert out == [out[0]] + out[1..];
      if |input| > 0 && out[0] == input[0] && StarsInserted(out[1..], input[1..]) {
        assert input == [input[0]] + input[1..];
        FloorSplit([input[0]], input[1..], b);
        StarsInsertedFloor(out[1..], input[1..], b + Depth([input[0]]));
        FloorCompose([out[0]], out[1..], b);
      } else {
        assert b >= 0 by { assert input[..0] == []; }
        DepthOfChar('*');
        CharFloor('*', b);
        StarsInsertedFloor(out[1..], input, b);
        FloorCompose([out[0]], out[1..], b);
      }
    }
  }

  /** An identifier (which contains no `*`) at the head of the output was already
      at the head of the input. */
  lemma {:induction false} TokenSurvivesStars(out: string, input: string, t: string)
    requires StarsInserted(out, input)
    requires StartsWith(out, t)
    requires '*' !in t
    ensures StartsWith(input, t)
    decreases |t|
  {
    if |t| > 0 {
      assert out[0] == t[0];
      var t' := t[1..];
      assert '*' !in t' by {
        forall k | 0 <= k < |t'| ensures t'[k] != '*' {
          assert t'[k] == t[k + 1];
        }
      }
      assert out[1..][..|t'|] == out[..|t|][1..];
      TokenSurvivesStars(out[1..], input[1..], t');
      assert input[..|t|] == [input[0]] + input[1..][..|t'|];
    }
  }

  lemma NoJuxtapositionCons(x: char, y: string)
    requires NoJuxtaposition(y)
    requires !Juxtaposed(x, y)
    ensures NoJuxtaposition([x] + y)
  {
    assert ([x] + y)[0] == x;
    assert ([x] + y)[1..] == y;
  }

  /** Dropping a prefix keeps a string juxtaposition-free, and the dropped part's last
      character does not juxtapose with what remains. */
  lemma {:induction false} NoJuxtapositionDrop(s: string, n: nat)
    requires NoJuxtaposition(s)
    requires 1 <= n <= |s|
    ensures NoJuxtaposition(s[n..])
    ensures !Juxtaposed(s[n - 1], s[n..])
    decreases n
  {
    if n > 1 {
      NoJuxtapositionDrop(s[1..], n - 1);
      assert s[1..][n - 1..] == s[n..];
      assert s[1..][n - 2] == s[n - 1];
    }
  }

  /** Shaped like a table identifier: a digit or `)` only ever stands before a digit. */
  predicate WordShaped(t: string) {
    forall k :: 0 <= k < |t| - 1 && Operand(t[k]) ==> t[k] != ')' && IsAsciiDigit(t[k + 1])
  }

  /** A word-shaped string followed by a juxtaposition-free rest is juxtaposition-free,
      provided its last character does not juxtapose with the rest. */
  lemma {:induction false} WordThenRest(t: string, rest: string)
    requires |t| >= 1 && WordShaped(t)
    requires NoJuxtaposition(rest)
    requires !Juxtaposed(t[|t| - 1], rest)
    ensures NoJuxtaposition(t + rest)
    decreases |t|
  {
    if |t| == 1 {
      NoJuxtapositionCons(t[0], rest);
      assert t == [t[0]];
    } else {
      var u := t[1..];
      forall k | 0 <= k < |u| - 1 && Operand(u[k])
        ensures u[k] != ')' && IsAsciiDigit(u[k + 1])
      {
        assert u[k] == t[k + 1] && u[k + 1] == t[k + 2];
      }
      assert u[|u| - 1] == t[|t| - 1];
      WordThenRest(u, rest);
      HeadNotJuxtaposed(t, rest);
      NoJuxtapositionCons(t[0], u + rest);
      assert t + rest == [t[0]] + (u + rest);
    }
  }

  lemma HeadNotJuxtaposed(t: string, rest: string)
    requires |t| >= 2 && WordShaped(t)
    ensures !Juxtaposed(t[0], t[1..] + rest)
  {
    if Operand(t[0]) {
      assert IsAsciiDigit(t[1]);
      assert (t[1..] + rest)[0] == t[1];
      NoTokenAt(t[1..] + rest);
    }
  }

  lemma TokenThenRest(j: nat, rest: string)
    requires j < |FunctionTable|
    requires NoJuxtaposition(rest)
    requires !Juxtaposed(FunctionTable[j][|FunctionTable[j]| - 1], rest)
    ensures NoJuxtaposition(FunctionTable[j] + rest)
  {
    TokenFacts(j);
    WordThenRest(FunctionTable[j], rest);
  }

  /** A `*` in front of a juxtaposition-free string keeps it so, and juxtaposes with nothing before it. */
  lemma StarPrefixSeparates(b: bool, a: string)
    requires NoJuxtaposition(a)
    ensures NoJuxtaposition(StarIf(b) + a)
    ensures b ==> forall x :: !Juxtaposed(x, StarIf(b) + a)
  {
    if b {
      assert StarIf(b) + a == ['*'] + a;
      NoTokenAt(StarIf(b) + a);
      NoJuxtapositionCons('*', a);
    } else {
      assert StarIf(b) + a == a;
    }
  }

  /** Token step of the separation proof. */
  lemma SeparatesToken(s: string, prev: Option<char>, j: nat)
    requires |s| > 0 && FirstTokenIndex(s) == Some(j)
    requires var t := FunctionTable[j]; var rest := Juxtapose(s[|t|..], Some(t[|t| - 1]));
      NoJuxtaposition(rest) && !Juxtaposed(t[|t| - 1], rest)
    ensures NoJuxtaposition(Juxtapose(s, prev))
    ensures prev.Some? ==> !Juxtaposed(prev.value, Juxtapose(s, prev))
  {
    var t := FunctionTable[j];
    var rest := Juxtapose(s[|t|..], Some(t[|t| - 1]));
    UnfoldToken(s, prev, j);
    TokenThenRest(j, rest);
    TokenHead(j, rest);
    WordAfterPrev(prev, t + rest, Juxtapose(s, prev));
  }

  lemma TokenHead(j: nat, rest: string)
    requires j < |FunctionTable|
    ensures |FunctionTable[j] + rest| > 0 && (FunctionTable[j] + rest)[0] in "sctalep"
  {
    TokenFacts(j);
  }

  /** A juxtaposition-free string that starts with a letter, after `prev` and the
      `*` the pass writes when `prev` is an operand. */
  lemma WordAfterPrev(prev: Option<char>, w: string, out: string)
    requires NoJuxtaposition(w) && |w| > 0 && w[0] in "sctalep"
    requires out == StarIf(OperandBefore(prev)) + w
    ensures NoJuxtaposition(out)
    ensures prev.Some? ==> !Juxtaposed(prev.value, out)
  {
    StarPrefixSeparates(OperandBefore(prev), w);
    if !OperandBefore(prev) {
      assert StarIf(false) + w == w;
    }
  }

  /** Inserting `*` after a head character cannot make an identifier start there. */
  lemma CharHeadNoToken(c: char, rest: string, restIn: string)
    requires StarsInserted(rest, restIn)
    requires !StartsToken([c] + restIn)
    ensures !StartsToken([c] + rest)
  {
    if StartsToken([c] + rest) {
      var i :| 0 <= i < |FunctionTable| && StartsWith([c] + rest, FunctionTable[i]);
      StarsInsertedPrefix([c], rest, restIn);
      TokenFacts(i);
      TokenSurvivesStars([c] + rest, [c] + restIn, FunctionTable[i]);
      assert false;
    }
  }

  /** A character that starts no identifier, written after `prev` with a `*` exactly
      when the pass would write one, separates `prev` from a juxtaposition-free rest. */
  lemma CharStepSeparates(c: char, rest: string, restIn: string, prev: Option<char>)
    requires !StartsToken([c] + restIn)
    requires NoJuxtaposition(rest) && !Juxtaposed(c, rest) && StarsInserted(rest, restIn)
    ensures NoJuxtaposition(StarIf(StarBeforeChar(c, prev)) + ([c] + rest))
    ensures prev.Some? ==> !Juxtaposed(prev.value, StarIf(StarBeforeChar(c, prev)) + ([c] + rest))
  {
    NoJuxtapositionCons(c, rest);
    StarPrefixSeparates(StarBeforeChar(c, prev), [c] + rest);
    CharHeadNoToken(c, rest, restIn);
    assert ([c] + rest)[0] == c;
  }

  /** Single-character step of the separation proof. */
  lemma SeparatesChar(s: string, prev: Option<char>)
    requires |s| > 0 && FirstTokenIndex(s).None?
    requires var rest := Juxtapose(s[1..], Some(s[0]));
      NoJuxtaposition(rest) && !Juxtaposed(s[0], rest) && StarsInserted(rest, s[1..])
    ensures NoJuxtaposition(Juxtapose(s, prev))
    ensures prev.Some? ==> !Juxtaposed(prev.value, Juxtapose(s, prev))
  {
    UnfoldChar(s, prev);
    FirstTokenIndexFound(s);
    CharStepSeparates(s[0], Juxtapose(s[1..], Some(s[0])), s[1..], prev);
  }

  /** The pass leaves no juxtaposition, neither inside its output nor between the
      character written before it and its output. */
  lemma {:induction false} JuxtaposeSeparates(s: string, prev: Option<char>)
    ensures NoJuxtaposition(Juxtapose(s, prev))
    ensures prev.Some? ==> !Juxtaposed(prev.value, Juxtapose(s, prev))
    decreases |s|, 1
  {
    if |s| == 0 {
      assert !StartsToken([]);
    } else {
      match FirstTokenIndex(s)
      case Some(j) => TokenSeparates(s, prev, j);
      case None => CharSeparates(s, prev);
    }
  }

  /** JuxtaposeSeparates when `s` starts with the identifier at `j` of the table. */
  lemma {:induction false} TokenSeparates(s: string, prev: Option<char>, j: nat)
    requires |s| > 0 && FirstTokenIndex(s) == Some(j)
    ensures NoJuxtaposition(Juxtapose(s, prev))
    ensures prev.Some? ==> !Juxtaposed(prev.value, Juxtapose(s, prev))
    decreases |s|, 0
  {
    var t := FunctionTable[j];
    TokenFacts(j);
    JuxtaposeSeparates(s[|t|..], Some(t[|t| - 1]));
    SeparatesToken(s, prev, j);
  }

  /** JuxtaposeSeparates when `s` starts with no identifier. */
  lemma {:induction false} CharSeparates(s: string, prev: Option<char>)
    requires |s| > 0 && FirstTokenIndex(s).None?
    ensures NoJuxtaposition(Juxtapose(s, prev))
    ensures prev.Some? ==> !Juxtaposed(prev.value, Juxtapose(s, prev))
    decreases |s|, 0
  {
    JuxtaposeSeparates(s[1..], Some(s[0]));
    JuxtaposeStarsOnly(s[1..], Some(s[0]));
    SeparatesChar(s, prev);
  }

  /** On input that is already free of juxtaposition the pass changes nothing. */
  lemma {:induction false} JuxtaposeKeepsSeparated(s: string, prev: Option<char>)
    requires NoJuxtaposition(s)
    requires prev.Some? ==> !Juxtaposed(prev.value, s)
    ensures Juxtapose(s, prev) == s
    decreases |s|
  {
    if |s| > 0 {
      match FirstTokenIndex(s)
      case Some(j) =>
        var t := FunctionTable[j];
        TokenFacts(j);
        NoJuxtapositionDrop(s, |t|);
        assert s[|t| - 1] == t[|t| - 1];
        JuxtaposeKeepsSeparated(s[|t|..], Some(t[|t| - 1]));
        TokenUnchanged(s, prev, j);
      case None =>
        NoJuxtapositionDrop(s, 1);
        JuxtaposeKeepsSeparated(s[1..], Some(s[0]));
        CharUnchanged(s, prev);
    }
  }

  /** Token step of JuxtaposeKeepsSeparated: no `*` before an identifier that
      follows no operand. */
  lemma TokenUnchanged(s: string, prev: Option<char>, j: nat)
    requires |s| > 0 && FirstTokenIndex(s) == Some(j)
    requires prev.Some? ==> !Juxtaposed(prev.value, s)
    requires var t := FunctionTable[j]; Juxtapose(s[|t|..], Some(t[|t| - 1])) == s[|t|..]
    ensures Juxtapose(s, prev) == s
  {
    UnfoldToken(s, prev, j);
    assert StartsToken(s) by {
      assert StartsWith(s, FunctionTable[j]);
    }
    assert StarIf(OperandBefore(prev)) == "";
  }

  /** Character step of JuxtaposeKeepsSeparated. */
  lemma CharUnchanged(s: string, prev: Option<char>)
    requires |s| > 0 && FirstTokenIndex(s).None?
    requires prev.Some? ==> !Juxtaposed(prev.value, s)
    requires Juxtapose(s[1..], Some(s[0])) == s[1..]
    ensures Juxtapose(s, prev) == s
  {
    UnfoldChar(s, prev);
    assert StarIf(StarBeforeChar(s[0], prev)) == "";
  }

  /** Running the pass twice is the same as running it once. */
  lemma AddImplicitMultiplicationIdempotent(expr: string)
    ensures AddImplicitMultiplication(AddImplicitMultiplication(expr)) == AddImplicitMultiplication(expr)
  {
    JuxtaposeKeepsSeparated(AddImplicitMultiplication(expr), None);
  }

  // ---------------------------------------------------------------- reference

  /** The pass described without the scan: before each character a `*` is written
      exactly when the character before it (`prev` at the start) is juxtaposed with
      the text from there on. */
  function MarkJuxtapositions(s: string, prev: Option<char>): string
    decreases |s|
  {
    if |s| == 0 then []
    else StarIf(prev.Some? && Juxtaposed(prev.value, s)) + [s[0]] + MarkJuxtapositions(s[1..], Some(s[0]))
  }

  /** The scan writes a `*` exactly where the reference does: identifiers are copied
      whole, and no juxtaposition occurs inside one. */
  lemma {:induction false} JuxtaposeIsMark(s: string, prev: Option<char>)
    ensures Juxtapose(s, prev) == MarkJuxtapositions(s, prev)
    decreases |s|, 1
  {
    if |s| > 0 {
      match FirstTokenIndex(s)
      case Some(j) => TokenIsMark(s, prev, j);
      case None => CharIsMark(s, prev);
    }
  }

  lemma {:induction false} TokenIsMark(s: string, prev: Option<char>, j: nat)
    requires |s| > 0 && FirstTokenIndex(s) == Some(j)
    ensures Juxtapose(s, prev) == MarkJuxtapositions(s, prev)
    decreases |s|, 0
  {
    var t := FunctionTable[j];
    TokenFacts(j);
    UnfoldToken(s, prev, j);
    var rest := s[|t|..];
    JuxtaposeIsMark(rest, Some(t[|t| - 1]));
    MarkAcrossWord(t, rest);
    TokenStar(s, prev, j);
    MarkWordStart(s, prev, t, rest, MarkJuxtapositions(rest, Some(t[|t| - 1])));
  }

  /** The reference at the head of a word whose tail it copies whole. */
  lemma MarkWordStart(s: string, prev: Option<char>, t: string, rest: string, m: string)
    requires |t| >= 1 && s == t + rest
    requires MarkJuxtapositions(t[1..] + rest, Some(t[0])) == t[1..] + m
    ensures MarkJuxtapositions(s, prev) == StarIf(prev.Some? && Juxtaposed(prev.value, s)) + (t + m)
  {
    var star := StarIf(prev.Some? && Juxtaposed(prev.value, s));
    assert s[0] == t[0] && s[1..] == t[1..] + rest;
    calc {
      MarkJuxtapositions(s, prev);
      star + [t[0]] + MarkJuxtapositions(t[1..] + rest, Some(t[0]));
      star + [t[0]] + (t[1..] + m);
      { assert [t[0]] + (t[1..] + m) == t + m; }
      star + (t + m);
    }
  }

  /** Before an identifier the reference writes a `*` exactly after a digit or `)`. */
  lemma TokenStar(s: string, prev: Option<char>, j: nat)
    requires |s| > 0 && FirstTokenIndex(s) == Some(j)
    ensures (prev.Some? && Juxtaposed(prev.value, s)) == OperandBefore(prev)
  {
    assert StartsWith(s, FunctionTable[j]);
  }

  lemma {:induction false} CharIsMark(s: string, prev: Option<char>)
    requires |s| > 0 && FirstTokenIndex(s).None?
    ensures Juxtapose(s, prev) == MarkJuxtapositions(s, prev)
    decreases |s|, 0
  {
    UnfoldChar(s, prev);
    JuxtaposeIsMark(s[1..], Some(s[0]));
    FirstTokenIndexFound(s);
  }

  /** Inside an identifier nothing is juxtaposed, so the reference copies it whole. */
  lemma {:induction false} MarkAcrossWord(t: string, rest: string)
    requires |t| >= 1 && WordShaped(t)
    ensures MarkJuxtapositions(t[1..] + rest, Some(t[0]))
            == t[1..] + MarkJuxtapositions(rest, Some(t[|t| - 1]))
    decreases |t|
  {
    if |t| == 1 {
      assert t[1..] + rest == rest;
    } else {
      var u := t[1..];
      WordShapedTail(t);
      MarkAcrossWord(u, rest);
      HeadNotJuxtaposed(t, rest);
      var m := MarkJuxtapositions(rest, Some(t[|t| - 1]));
      MarkCopiesHead(t[0], u, rest, m);
    }
  }

  lemma WordShapedTail(t: string)
    requires |t| >= 1 && WordShaped(t)
    ensures WordShaped(t[1..])
  {
    var u := t[1..];
    forall k | 0 <= k < |u| - 1 && Operand(u[k])
      ensures u[k] != ')' && IsAsciiDigit(u[k + 1])
    {
      assert u[k] == t[k + 1] && u[k + 1] == t[k + 2];
    }
  }

  /** One step of the reference where no `*` is due. */
  lemma MarkCopiesHead(a: char, u: string, rest: string, m: string)
    requires |u| >= 1 && !Juxtaposed(a, u + rest)
    requires MarkJuxtapositions(u[1..] + rest, Some(u[0])) == u[1..] + m
    ensures MarkJuxtapositions(u + rest, Some(a)) == u + m
  {
    var w := u + rest;
    assert w[0] == u[0] && w[1..] == u[1..] + rest;
    assert [u[0]] + (u[1..] + m) == u + m;
  }
}
