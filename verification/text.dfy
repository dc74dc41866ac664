/** Character-sequence helpers shared by the editor and the normalisation passes.
    Strings are sequences of Unicode scalar values; the UTF-8 width of a character
    is modelled explicitly for the few places where the editor does byte arithmetic. */
module Text {

  datatype Option<T> = None | Some(value: T)

  datatype Result<T, E> = Success(value: T) | Failure(error: E)

  predicate IsAsciiDigit(c: char) {
    '0' <= c <= '9'
  }

  /** A digit or `)`: the characters that end a number or a group, after which
      percent is accepted and juxtaposition means multiplication. */
  predicate Operand(c: char) {
    IsAsciiDigit(c) || c == ')'
  }

  /** Number of occurrences of `c` in `s`. */
  function Count(s: string, c: char): nat {
    if |s| == 0 then 0
    else Count(s[..|s| - 1], c) + (if s[|s| - 1] == c then 1 else 0)
  }

  /** Net parenthesis depth of `s`: opening minus closing parentheses. */
  function Depth(s: string): int {
    Count(s, '(') - Count(s, ')')
  }

  /** No prefix of `s` closes more parentheses than it opened. */
  ghost predicate NonNegPrefixes(s: string) {
    forall k :: 0 <= k <= |s| ==> Depth(s[..k]) >= 0
  }

  predicate NoParens(s: string) {
    '(' !in s && ')' !in s
  }

  function LastChar(s: string): Option<char> {
    if |s| == 0 then None else Some(s[|s| - 1])
  }

  predicate StartsWith(s: string, prefix: string) {
    |prefix| <= |s| && s[..|prefix|] == prefix
  }

  /** `n` copies of `c`. */
  function Repeat(c: char, n: nat): (r: string)
    ensures |r| == n
    ensures forall i :: 0 <= i < n ==> r[i] == c
  {
    if n == 0 then [] else Repeat(c, n - 1) + [c]
  }

  /** Number of bytes of the UTF-8 encoding of `c`. */
  function Utf8Width(c: char): nat {
    if c as int < 0x80 then 1
    else if c as int < 0x800 then 2
    else if c as int < 0x1_0000 then 3
    else 4
  }

  /** Length in bytes of the UTF-8 encoding of `s` (what Rust's `str::len` returns). */
  function ByteLen(s: string): nat {
    if |s| == 0 then 0 else ByteLen(s[..|s| - 1]) + Utf8Width(s[|s| - 1])
  }

  /** The character index at which byte offset `b` starts a character, if any:
      the only byte offsets at which a Rust `str` may be sliced. */
  function CharBoundary(s: string, b: nat): (r: Option<nat>)
    ensures r.Some? ==> r.value <= |s| && ByteLen(s[..r.value]) == b
    ensures r.None? ==> forall k :: 0 <= k <= |s| ==> ByteLen(s[..k]) != b
  {
    BoundaryFrom(s, b, 0)
  }

  function BoundaryFrom(s: string, b: nat, k: nat): (r: Option<nat>)
    requires k <= |s|
    requires forall j :: 0 <= j < k ==> ByteLen(s[..j]) < b
    ensures r.Some? ==> k <= r.value <= |s| && ByteLen(s[..r.value]) == b
    ensures r.None? ==> forall j :: 0 <= j <= |s| ==> ByteLen(s[..j]) != b
    decreases |s| - k
  {
    if ByteLen(s[..k]) == b then Some(k)
    else if ByteLen(s[..k]) > b then
      PrefixBytesMonotone(s, k);
      None
    else if k == |s| then None
    else BoundaryFrom(s, b, k + 1)
  }

  /** Byte offsets of character boundaries grow with the character index. */
  lemma PrefixBytesMonotone(s: string, k: nat)
    requires k <= |s|
    ensures forall j :: k <= j <= |s| ==> ByteLen(s[..k]) <= ByteLen(s[..j])
  {
    forall j | k <= j <= |s|
      ensures ByteLen(s[..k]) <= ByteLen(s[..j])
    {
      var j' := j;
      while j' > k
        invariant k <= j' <= j
        invariant ByteLen(s[..j']) <= ByteLen(s[..j])
      {
        assert s[..j'][..j' - 1] == s[..j' - 1];
        j' := j' - 1;
      }
    }
  }

  /** `pat` occurs in `s` starting at index `q`. */
  predicate OccursAt(s: string, pat: string, q: nat) {
    q + |pat| <= |s| && s[q..q + |pat|] == pat
  }

  /** Index of the first occurrence of `pat` in `s` (Rust's `str::find`). */
  function Find(s: string, pat: string): (r: Option<nat>)
    ensures r.Some? ==> OccursAt(s, pat, r.value)
    ensures r.Some? ==> forall q: nat :: q < r.value ==> !OccursAt(s, pat, q)
    ensures r.None? ==> forall q: nat :: !OccursAt(s, pat, q)
  {
    FindFrom(s, pat, 0)
  }

  function FindFrom(s: string, pat: string, i: nat): (r: Option<nat>)
    requires forall q: nat :: q < i ==> !OccursAt(s, pat, q)
    ensures r.Some? ==> i <= r.value && OccursAt(s, pat, r.value)
    ensures r.Some? ==> forall q: nat :: q < r.value ==> !OccursAt(s, pat, q)
    ensures r.None? ==> forall q: nat :: !OccursAt(s, pat, q)
    decreases |s| - i
  {
    if i + |pat| > |s| then None
    else if s[i..i + |pat|] == pat then Some(i)
    else FindFrom(s, pat, i + 1)
  }

  predicate Contains(s: string, pat: string) {
    Find(s, pat).Some?
  }

  /** `s` with every occurrence of the character `c` replaced by `repl`
      (Rust's `str::replace` with a one-character pattern). */
  function ReplaceChar(s: string, c: char, repl: string): string {
    if |s| == 0 then []
    else ReplaceChar(s[..|s| - 1], c, repl) + (if s[|s| - 1] == c then repl else [s[|s| - 1]])
  }

  lemma {:induction false} ReplaceCharAppend(a: string, b: string, c: char, repl: string)
    ensures ReplaceChar(a + b, c, repl) == ReplaceChar(a, c, repl) + ReplaceChar(b, c, repl)
    decreases |b|
  {
    if |b| == 0 {
      assert a + b == a;
    } else {
      var b' := b[..|b| - 1];
      assert (a + b)[..|a + b| - 1] == a + b';
      ReplaceCharAppend(a, b', c, repl);
    }
  }

  lemma {:induction false} CountAppend(a: string, b: string, c: char)
    ensures Count(a + b, c) == Count(a, c) + Count(b, c)
    decreases |b|
  {
    if |b| == 0 {
      assert a + b == a;
    } else {
      var b' := b[..|b| - 1];
      assert (a + b)[..|a + b| - 1] == a + b';
      CountAppend(a, b', c);
    }
  }

  lemma DepthAppend(a: string, b: string)
    ensures Depth(a + b) == Depth(a) + Depth(b)
  {
    CountAppend(a, b, '(');
    CountAppend(a, b, ')');
  }

  lemma {:induction false} CountAbsent(s: string, c: char)
    requires c !in s
    ensures Count(s, c) == 0
    decreases |s|
  {
    if |s| > 0 {
      assert s[..|s| - 1] <= s;
      CountAbsent(s[..|s| - 1], c);
    }
  }

  lemma NoParensDepth(s: string)
    requires NoParens(s)
    ensures Depth(s) == 0
    ensures forall k :: 0 <= k <= |s| ==> Depth(s[..k]) == 0
  {
    CountAbsent(s, '(');
    CountAbsent(s, ')');
    forall k | 0 <= k <= |s|
      ensures Depth(s[..k]) == 0
    {
      assert s[..k] <= s;
      CountAbsent(s[..k], '(');
      CountAbsent(s[..k], ')');
    }
  }

  /** Depth of a one-character string. */
  lemma DepthOfChar(c: char)
    ensures Depth([c]) == (if c == '(' then 1 else if c == ')' then -1 else 0)
  {
    assert [c][..0] == [];
    assert Count([c], '(') == (if c == '(' then 1 else 0);
    assert Count([c], ')') == (if c == ')' then 1 else 0);
  }

  /** Appending a string whose own prefixes never go negative keeps the property. */
  lemma NonNegConcat(a: string, b: string)
    requires NonNegPrefixes(a)
    requires NonNegPrefixes(b)
    ensures NonNegPrefixes(a + b)
  {
    assert a[..|a|] == a;
    forall k | 0 <= k <= |a + b|
      ensures Depth((a + b)[..k]) >= 0
    {
      if k <= |a| {
        assert (a + b)[..k] == a[..k];
      } else {
        assert (a + b)[..k] == a + b[..k - |a|];
        DepthAppend(a, b[..k - |a|]);
      }
    }
  }

  lemma NoParensNonNeg(s: string)
    requires NoParens(s)
    ensures NonNegPrefixes(s)
  {
    NoParensDepth(s);
  }

  /** Inserting or deleting one character that is not a parenthesis at position `i`
      keeps every prefix depth non-negative. */
  lemma NonNegInsert(a: string, b: string, x: string)
    requires NonNegPrefixes(a + b)
    requires NoParens(x)
    ensures NonNegPrefixes(a + x + b)
  {
    NoParensDepth(x);
    forall k | 0 <= k <= |a + x + b|
      ensures Depth((a + x + b)[..k]) >= 0
    {
      if k <= |a| {
        assert (a + x + b)[..k] == (a + b)[..k];
      } else if k <= |a| + |x| {
        assert (a + x + b)[..k] == a + x[..k - |a|];
        assert (a + b)[..|a|] == a;
        DepthAppend(a, x[..k - |a|]);
      } else {
        var m := k - |x|;
        assert (a + x + b)[..k] == a + x + b[..m - |a|];
        assert (a + b)[..m] == a + b[..m - |a|];
        DepthAppend(a + x, b[..m - |a|]);
        DepthAppend(a, x);
        DepthAppend(a, b[..m - |a|]);
      }
    }
  }

  lemma NonNegDelete(a: string, b: string, x: string)
    requires NonNegPrefixes(a + x + b)
    requires NoParens(x)
    ensures NonNegPrefixes(a + b)
  {
    NoParensDepth(x);
    forall k | 0 <= k <= |a + b|
      ensures Depth((a + b)[..k]) >= 0
    {
      if k <= |a| {
        assert (a + b)[..k] == (a + x + b)[..k];
      } else {
        var m := k + |x|;
        assert (a + x + b)[..m] == a + x + b[..k - |a|];
        assert (a + b)[..k] == a + b[..k - |a|];
        DepthAppend(a + x, b[..k - |a|]);
        DepthAppend(a, x);
        DepthAppend(a, b[..k - |a|]);
      }
    }
  }

  /** Every prefix of a string whose prefixes never go negative has the same property. */
  lemma NonNegPrefixClosed(s: string, n: nat)
    requires NonNegPrefixes(s)
    requires n <= |s|
    ensures NonNegPrefixes(s[..n])
  {
    forall k | 0 <= k <= n
      ensures Depth(s[..n][..k]) >= 0
    {
      assert s[..n][..k] == s[..k];
    }
  }

  /** A string without a closing parenthesis never goes negative. */
  lemma NoCloseNonNeg(s: string)
    requires ')' !in s
    ensures NonNegPrefixes(s)
  {
    forall k | 0 <= k <= |s|
      ensures Depth(s[..k]) >= 0
    {
      assert s[..k] <= s;
      CountAbsent(s[..k], ')');
    }
  }

  /** Closing a parenthesis that is open keeps every prefix non-negative. */
  lemma NonNegAppendClose(s: string)
    requires NonNegPrefixes(s)
    requires Depth(s) > 0
    ensures NonNegPrefixes(s + ")")
    ensures Depth(s + ")") == Depth(s) - 1
  {
    DepthAppend(s, ")");
    DepthOfChar(')');
    assert ")" == [')'];
    assert (s + ")")[..|s| + 1] == s + ")";
    forall k | 0 <= k <= |s|
      ensures Depth((s + ")")[..k]) >= 0
    {
      assert (s + ")")[..k] == s[..k];
    }
  }

  /** Starting from depth `b`, no prefix of `s` takes the depth below zero. */
  ghost predicate FloorAbove(s: string, b: int) {
    forall k :: 0 <= k <= |s| ==> b + Depth(s[..k]) >= 0
  }

  lemma NonNegIsFloor(s: string)
    ensures NonNegPrefixes(s) <==> FloorAbove(s, 0)
  {
  }

  /** A concatenation keeps its floor exactly when the first part does, and the
      second part does from the depth the first part ends at. */
  lemma ConcatFloor(x: string, y: string, b: int)
    ensures FloorAbove(x + y, b) <==> FloorAbove(x, b) && FloorAbove(y, b + Depth(x))
  {
    assert (x + y)[..|x|] == x;
    if FloorAbove(x + y, b) {
      forall k | 0 <= k <= |x|
        ensures b + Depth(x[..k]) >= 0
      {
        assert (x + y)[..k] == x[..k];
      }
      forall k | 0 <= k <= |y|
        ensures b + Depth(x) + Depth(y[..k]) >= 0
      {
        assert (x + y)[..|x| + k] == x + y[..k];
        DepthAppend(x, y[..k]);
      }
    }
    if FloorAbove(x, b) && FloorAbove(y, b + Depth(x)) {
      forall k | 0 <= k <= |x + y|
        ensures b + Depth((x + y)[..k]) >= 0
      {
        if k <= |x| {
          assert (x + y)[..k] == x[..k];
        } else {
          assert (x + y)[..k] == x + y[..k - |x|];
          DepthAppend(x, y[..k - |x|]);
        }
      }
    }
  }

  /** Both parts keep their floors, so the whole does, and the depths add up. */
  lemma FloorCompose(x: string, y: string, b: int)
    requires FloorAbove(x, b) && FloorAbove(y, b + Depth(x))
    ensures FloorAbove(x + y, b) && Depth(x + y) == Depth(x) + Depth(y)
  {
    ConcatFloor(x, y, b);
    DepthAppend(x, y);
  }

  lemma FloorSplit(x: string, y: string, b: int)
    requires FloorAbove(x + y, b)
    ensures FloorAbove(x, b) && FloorAbove(y, b + Depth(x)) && b >= 0
  {
    ConcatFloor(x, y, b);
    assert x[..0] == [];
  }

  /** A single character from depth `b`. */
  lemma CharFloor(c: char, b: int)
    ensures FloorAbove([c], b) <==> b >= 0 && b + Depth([c]) >= 0
  {
    assert [c][..0] == [] && [c][..1] == [c];
  }

  /** A text without parentheses keeps any non-negative floor. */
  lemma NoParensFloor(s: string, b: int)
    requires NoParens(s) && b >= 0
    ensures FloorAbove(s, b) && Depth(s) == 0
  {
    NoParensDepth(s);
  }

  /** Appending `m` closing parentheses to a text that ends at least `m` deep stays
      above the floor and lowers the depth by `m`. */
  lemma {:induction false} CloseAllFloor(s: string, m: nat, b: int)
    requires FloorAbove(s, b) && b + Depth(s) >= m
    ensures FloorAbove(s + Repeat(')', m), b)
    ensures Depth(s + Repeat(')', m)) == Depth(s) - m
    decreases m
  {
    if m == 0 {
      assert s + Repeat(')', 0) == s;
    } else {
      var t := s + Repeat(')', m - 1);
      CloseAllFloor(s, m - 1, b);
      assert s + Repeat(')', m) == t + [')'];
      DepthOfChar(')');
      CharFloor(')', b + Depth(t));
      FloorCompose(t, [')'], b);
    }
  }

  /** A string of ASCII characters takes one byte per character. */
  lemma {:induction false} AsciiByteLen(s: string)
    requires forall k :: 0 <= k < |s| ==> s[k] as int < 0x80
    ensures ByteLen(s) == |s|
    decreases |s|
  {
    if |s| > 0 {
      AsciiByteLen(s[..|s| - 1]);
    }
  }
}
