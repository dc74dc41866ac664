# rust-calc `Calculator` model

This project models the expression editor behind the rust-calc desktop calculator: the `Calculator` in `src/calculator.rs`. The calculator has these parts:

- two character buffers: `expression`, the text given to the evaluator, and `display`, the text shown;
- a counter of open parentheses;
- an angle mode, Degrees or Radians;
- a history of up to 100 calculations.

Every key press is a total edit of this state. Before evaluation the expression passes through four pure string rewrites:

1. glyph substitution (`×` `÷` `−` `π` become `*` `/` `-` `pi`);
2. automatic closing of open parentheses;
3. insertion of implicit multiplications;
4. in Degrees mode, rewriting of every `sin(`, `cos(` and `tan(` argument into radians.

The model works on characters (`string` is `seq<char>`). It counts UTF-8 bytes in only two places, because the source's byte arithmetic matters there:

- the `display.len() > 1` guard of `input_operator`;
- the three-byte cut of `toggle_sign`.

The evaluator is a function parameter `eval: string -> EvalOutcome`. It stands for `meval::eval_str`, the `catch_unwind` around it, the NaN and infinity checks, and `format_result`. An outcome is one of:

- a formatted value;
- NaN;
- infinity;
- a rejection with the evaluator's message;
- an aborted evaluation.

Modules:

- `Text`: character counts, parenthesis depth, UTF-8 byte lengths, `find`, single-character `replace`.
- `Editor`: the state, every input operation, `calculate`, `preprocess_expression` and `simplify_error`.
- `ImplicitMul`: `add_implicit_multiplication` as a recursive reference definition and as the source's loop. The two are proved equal.
- `Trig`: `find_closing_paren` and `convert_trig_to_radians`.
- `Session`: the keypad as a `Key` datatype, `Step` and `Run` over key sequences, and the state invariant that every key keeps.
- `Behaviour`: properties of single operations and short key sequences, including the quirks the code has as written.
- `Scenarios`: the source's unit tests, and the rewrite quirks, as statements about concrete key sequences and strings.

Quirks the model keeps as written:

- Several separator sets hold the ASCII `-` but not the minus sign `−` that the keypad inserts: the decimal-point check, `input_close_paren`, `toggle_sign` and the "Incomplete" check.
- `input_operator` does treat `−` as an operator, through `get_last_char_normalized`.
- The decimal point on a fresh calculator makes the expression `0.` and the display `00.`.
- After `(−`, a `+` replaces the minus, giving `(+`.
- The display guard of `input_operator` counts bytes. Keys `− + ×` on a fresh calculator leave the expression `×` but the display `+×`.
- `add_implicit_multiplication` takes the first table entry in table order. Because `log10` ends in a digit, `log10(2)` becomes `log10*(2)`.
- `convert_trig_to_radians` copies a call's argument verbatim, so a nested `sin(sin(..))` has only its outer call rewritten. The `sin(` pattern also matches inside `asin(`.

## Model

| member | source | states |
|---|---|---|
| Editor.Default | src/calculator.rs:24-35 | A fresh calculator has an empty expression, display "0", no history, Degrees mode and no open parenthesis. |
| Editor.InputDigit | src/calculator.rs:39-46 | The digit is always appended to the expression. The display becomes the digit when it showed "0" and the input is not "."; otherwise the digit is appended to it. Nothing else changes. |
| Editor.LastNumber | src/calculator.rs:51-55 | The last number is the longest suffix of the expression holding none of `+ - × ÷ ( )`. When it is not the whole expression, one of those characters precedes it. |
| Editor.LastNumberAppend | src/calculator.rs:51-55 | Appending text that holds no separator extends the last number by exactly that text. |
| Editor.DecimalPiece | src/calculator.rs:58-64 | The text written for a decimal point is "0." exactly when the display is "0" or ends in `+ - × ÷ (`, and "." otherwise. Either way it ends in the point. |
| Editor.InputDecimal | src/calculator.rs:49-66 | When the last number already has a point, the state is unchanged. Otherwise both buffers get "0." (display "0" or ending in `+ - × ÷ (`) or ".". Afterwards the last number always holds a point. |
| Editor.EndsWithOperatorChars | src/calculator.rs:81 | The trailing-operator test of input_operator holds exactly when the expression ends in `+ - × ÷` or in the minus sign `−`. |
| Editor.InputOperator | src/calculator.rs:69-95 | On an empty expression only `−` is accepted, and it sets both buffers. After `(` every operator but `−` is refused. A trailing operator is replaced, not stacked; the display drops its last character only when it is longer than one byte. Otherwise the operator is appended to both buffers. History, angle mode and counter are unchanged. |
| Editor.InputFunction | src/calculator.rs:98-113 | Appends `×` when the expression ends in a digit, `)`, `π` or `e`, then `name(`, to both buffers. The counter rises by one. |
| Editor.InputConstant | src/calculator.rs:116-128 | Appends `×` after a value, then the constant, to both buffers. The counter is unchanged. |
| Editor.InputOpenParen | src/calculator.rs:131-144 | Appends `×` after a value, then `(`, to both buffers. The counter rises by one. |
| Editor.InputCloseParen | src/calculator.rs:147-157 | Appends `)` and lowers the counter only when the counter is positive and the expression does not end in `(` or in `+ - × ÷`. An empty expression counts as ending in `(`. Otherwise the state is unchanged. |
| Editor.InputSquare | src/calculator.rs:160-168 | After a digit, `)`, `π` or `e`, appends `^2` to the expression and `²` to the display. Otherwise the state is unchanged. |
| Editor.InputPower | src/calculator.rs:171-179 | After a value, appends `^` to both buffers. Otherwise the state is unchanged. |
| Editor.InputPercent | src/calculator.rs:182-190 | After a digit or `)` only, appends `/100` to the expression and `%` to the display. Otherwise the state is unchanged. |
| Editor.LastOperandStart | src/calculator.rs:198-208 | Returns the index of the last `+ - × ÷ (` in the expression, with nothing of that set after it, or None when there is none. |
| Editor.ToggleSignAsWritten | src/calculator.rs:193-235 | toggle_sign as written agrees with the corrected operation exactly when the current number does not follow an ASCII `-`. |
| Editor.WrittenToggle | src/calculator.rs:198-232 | The expression text computed as written equals the corrected text exactly when the number does not follow an ASCII `-`. |
| Editor.WrittenRemoval | src/calculator.rs:211-220 | After an ASCII `-`, the as-written removal never yields the expression with just that minus removed. |
| Editor.ToggleSign | src/calculator.rs:193-235 | With an empty expression or display "0", nothing changes. Otherwise the display is resynchronised to the toggled expression. History, angle mode and counter are unchanged. |
| Editor.NumberStart | src/calculator.rs:198-209 | The current number starts right after the last `+ - × ÷ (`, or at 0 when there is none; nothing from that set follows it. |
| Editor.Toggled | src/calculator.rs:198-232 | The toggled expression is the original with one minus sign inserted, or with one minus removed. A minus right before the current number is removed; at the start, a leading minus is removed. Otherwise a minus sign is inserted where the current number starts. |
| Editor.Clear | src/calculator.rs:238-242 | Empties the expression, sets the display to "0" and the counter to 0. History and angle mode are kept. |
| Editor.ClearEntry | src/calculator.rs:245-270 | Removes exactly the last character and corrects the counter for a removed parenthesis. The display is "0" exactly when the expression becomes empty or "0"; otherwise it is the expression. |
| Editor.UseHistory | src/calculator.rs:321-329 | On display "0" the result replaces both buffers; otherwise it is appended to both. |
| Editor.ToggleAngleMode | src/calculator.rs:369-374 | The angle mode flips, and nothing else changes. |
| Editor.SimplifyError | src/calculator.rs:510-518 | "Syntax error" exactly when the message mentions "parse" or "Parse". "Missing )" exactly when it does not but mentions "parenthesis". Otherwise "Error". |
| Editor.AutoClose | src/calculator.rs:354-356 | The auto-closing text holds as many `)` as there are open parentheses, and none when the counter is not positive. |
| Editor.Record | src/calculator.rs:298-305 | The entry is appended and becomes the last one. The oldest entry is dropped once the history holds the maximum of 100, so it never exceeds 100. |
| Editor.Calculate | src/calculator.rs:273-318 | An empty expression gives "0" and changes nothing. An expression ending in `+ - × ÷ (` gives "Incomplete". Every failure leaves the state untouched, and each evaluator outcome maps to its message. On success the history records (old display, result), both buffers become the result and the counter becomes 0. |
| Text.Find | src/calculator.rs:389 | Returns the first index where the pattern occurs, or None when it occurs nowhere. |
| Text.CharBoundary | src/calculator.rs:213-219 | Returns the character index at which a byte offset starts a character, or None when no prefix has that byte length. |
| Text.ReplaceCharAppend | src/calculator.rs:348-351 | Replacing a character distributes over concatenation. |
| Trig.FindClosingParen | src/calculator.rs:410-432 | Returns None when the name is not followed by `(` or that `(` is the last character. Otherwise it returns the first index where the depth counted from the `(` returns to 0, which holds `)`. Returns None when the depth never returns to 0. |
| Trig.NextCall | src/calculator.rs:388-400 | Finds the first occurrence of `name(`, cutting the text into the untouched prefix, the call and the rest. When the argument closes, the call runs through its matching `)` and is replaced by `name((inner)*0.017453292519943295)`. Otherwise only `name(` is taken, and it is copied. The replacement keeps the call's parenthesis balance. |
| Trig.RewriteCalls | src/calculator.rs:386-404 | A pass over text with no `name(` leaves it unchanged. A pass always keeps the parenthesis balance of the text. |
| Trig.RewriteCallsUnfold | src/calculator.rs:386-404 | On any text, the pass copies everything before the first `name(`. A call whose argument closes is rewritten with the argument scaled to radians, and the pass continues after its `)`. An unclosed `name(` is copied, and the pass continues after it. |
| Trig.ConvertTrigToRadians | src/calculator.rs:381-408 | Text holding no `sin(`, `cos(` or `tan(` is left unchanged. The whole conversion keeps the parenthesis balance. |
| Trig.RewriteCallsFloor | src/calculator.rs:386-404 | From any starting depth, if no prefix of the text goes below zero, no prefix of one pass's output does either. A rewritten call opens one group more than the call and closes it again. |
| Trig.ConvertTrigFloor | src/calculator.rs:381-408 | A text none of whose prefixes closes more than it opened keeps that property through the whole conversion. |
| ImplicitMul.FirstTokenIndex | src/calculator.rs:437-459 | Returns the first table entry, in table order, that the rest of the text starts with. No earlier entry matches; None when no entry matches. |
| ImplicitMul.FirstTokenIndexFound | src/calculator.rs:444-459 | A table entry is found exactly when the text starts with some table entry. |
| ImplicitMul.TokenFacts | src/calculator.rs:437-439 | Every table entry has at least two characters, starts with one of `s c t a l e p` and holds no `*`. A digit inside an entry is followed by another digit. |
| ImplicitMul.AddImplicitMultiplication | src/calculator.rs:434-487 | The output is the input with only `*` characters inserted. No value is left juxtaposed with a following call, constant, `(` or digit. The parenthesis balance is kept. The stars go exactly where the character-by-character reference MarkJuxtapositions puts them: between a digit or `)` and a following table entry or `(`, and between `)` and a following digit. |
| ImplicitMul.JuxtaposeIsMark | src/calculator.rs:441-484 | The token-by-token scan (whole table entries copied at once) equals the character-by-character reference, from any previous character. |
| ImplicitMul.AddImplicitMultiplicationLoop | src/calculator.rs:434-487 | The source's scanning loop computes the reference definition, so its output is the input with stars inserted. |
| ImplicitMul.MatchToken | src/calculator.rs:444-459 | The inner search returns the index of the first matching table entry, or the table's length when none matches. |
| ImplicitMul.JuxtaposeStarsOnly | src/calculator.rs:441-484 | The scan, from any previous character, only inserts `*`. |
| ImplicitMul.StarsInsertedDepth | src/calculator.rs:434-487 | Inserting stars keeps the parenthesis balance. |
| ImplicitMul.StarsInsertedFloor | src/calculator.rs:434-487 | Inserting stars never takes a prefix below the depth floor the input kept. |
| ImplicitMul.JuxtaposeSeparates | src/calculator.rs:446-479 | The scan's output has no juxtaposition, and none with the character written before it. |
| ImplicitMul.JuxtaposeKeepsSeparated | src/calculator.rs:441-484 | Text without juxtapositions, also none with the previous character, passes the scan unchanged. |
| ImplicitMul.AddImplicitMultiplicationIdempotent | src/calculator.rs:434-487 | Applying the pass twice is the same as applying it once. |
| Session.DefaultInv | src/calculator.rs:24-35 | The fresh calculator satisfies the state invariant: counter equal to the expression's balance, no prefix closing more than it opened, display "0" only for zeros, history bounded and numeric. |
| Session.DigitInv | src/calculator.rs:39-46 | A digit keeps the invariant. |
| Session.PointInv | src/calculator.rs:49-66 | The decimal point keeps the invariant. |
| Session.OperatorInv | src/calculator.rs:69-95 | An operator keeps the invariant. |
| Session.FunctionInv | src/calculator.rs:98-113 | A function keeps the invariant; the counter follows the added `(`. |
| Session.ConstantInv | src/calculator.rs:116-128 | A constant keeps the invariant. |
| Session.OpenParenInv | src/calculator.rs:131-144 | An opening parenthesis keeps the invariant. |
| Session.CloseParenInv | src/calculator.rs:147-157 | A closing parenthesis keeps the invariant, so it never closes more than was opened. |
| Session.SuffixInv | src/calculator.rs:160-190 | Square, power and percent keep the invariant. |
| Session.NegateInv | src/calculator.rs:193-235 | The sign toggle keeps the invariant. |
| Session.BackspaceInv | src/calculator.rs:245-270 | Backspace keeps the invariant, with the counter corrected for a removed parenthesis. |
| Session.EqualsInv | src/calculator.rs:273-318 | `=` keeps the invariant: on success the counter is 0 and the result has no parentheses; the history stays at most 100. |
| Session.RecordNumerals | src/calculator.rs:298-305 | Recording a numeric result keeps every history result numeric. |
| Session.RecallInv | src/calculator.rs:321-329 | Recalling a history result keeps the invariant. |
| Session.StepInv | src/calculator.rs:39-374 | With the corrected toggle, every key of Session.Step keeps the invariant. |
| Session.RunInv | src/calculator.rs:39-374 | With the corrected toggle, any key sequence keeps the invariant. |
| Session.ParenthesesBalanced | src/calculator.rs:354-356 | With the corrected toggle, after any key sequence from a fresh calculator, the counter is non-negative and equals the expression's balance. Appending the auto-closing parentheses gives as many `)` as `(`, and no prefix of the result closes more than it opened. |
| Behaviour.StripLeadingZeros | src/calculator.rs:40-44 | The reference for a typed number's display. It is "0" exactly when every digit is a zero. Otherwise it is the suffix starting at the first non-zero digit, and only zeros come before it. |
| Behaviour.StripAppend | src/calculator.rs:40-44 | The display of a typed number follows the number with its leading zeros collapsed, one digit at a time. |
| Behaviour.TypingDigits | src/calculator.rs:534-543 | Typing any digits from a fresh calculator gives those digits as the expression, and as the display without leading zeros. |
| Behaviour.PointTwice | src/calculator.rs:546-557 | A second decimal point right after the first is a no-op. |
| Behaviour.PointOnFreshDisplay | src/calculator.rs:58-60 | A point on a fresh calculator makes the expression "0." and the display "00.". |
| Behaviour.PointAfterZero | src/calculator.rs:57-60 | On display "0" a point appends "0." to the expression, and the display becomes "00.". |
| Behaviour.OperatorReplaces | src/calculator.rs:80-95 | A second operator replaces the first: the result equals entering only the second. |
| Behaviour.OnlyMinusAfterOpenParen | src/calculator.rs:88-91 | After `(` any operator but minus is a no-op; minus appends `−`. |
| Behaviour.OperatorAfterParenMinus | src/calculator.rs:80-95 | After `(−` a `+` replaces the minus, leaving `(+`, although `+` right after `(` is refused. |
| Behaviour.DisplayDrifts | src/calculator.rs:69-95 | Keys `− + ×` on a fresh calculator leave the expression `×` and the display `+×`. |
| Behaviour.CloseParenGuard | src/calculator.rs:147-157 | Closing never drives the counter negative; with no open parenthesis it is a no-op. |
| Behaviour.BackspacesTrim | src/calculator.rs:245-270 | n backspaces remove exactly the last n characters and keep the invariant and the history. Removing everything shows "0". |
| Behaviour.BackspaceToEmpty | src/calculator.rs:699-710 | Backspacing over the whole expression gives the same state as clear. |
| Behaviour.AngleKept | src/calculator.rs:245-270 | Backspaces never change the angle mode. |
| Behaviour.AngleToggleTwice | src/calculator.rs:369-374 | Toggling the angle mode twice restores the state. |
| Behaviour.ToggleTwiceOnNumber | src/calculator.rs:193-235 | On a plain number, toggling the sign twice restores the state. |
| Behaviour.ToggleTwiceAfterOperator | src/calculator.rs:210-224 | After `a+b` the toggle inserts `−` after `+`. A second toggle inserts another in front of the first, because the separator search does not see `−`, so the number still starts right after `+`. |
| Behaviour.NegativeResultPanics | src/calculator.rs:211-215 | On a negative result such as `-5`, toggle_sign as written panics. The corrected toggle removes the minus. |
| Behaviour.PastedNegativeLosesDigits | src/calculator.rs:211-220 | On `ab-d`, toggle_sign as written leaves only `d`. The corrected toggle gives `abd`. |
| Behaviour.CounterDesync | src/calculator.rs:211-220 | From a state satisfying the invariant with expression `(a-d`, toggle_sign as written leaves `d` with the counter still at 1. The invariant is broken, and the evaluator would receive text with one `)` too many. The corrected toggle gives `(ad` and keeps the invariant. |
| Behaviour.LastOperandStartAt | src/calculator.rs:199-208 | The separator search finds the given index when it holds a separator and nothing after it does. |
| Behaviour.IncompleteExactly | src/calculator.rs:278-282 | calculate reports "Incomplete" exactly when the expression ends in `+ - × ÷ (` (Editor.EndsIncomplete). An expression ending in the minus sign `−` does not. |
| Behaviour.SuccessfulCalculation | src/calculator.rs:286-312 | On a value, the result is returned and shown. The history grows by one entry (old display, result), up to 100 entries. Earlier entries are kept in order, minus the oldest when the limit is passed. |
| Behaviour.Glyph | src/calculator.rs:348-351 | The evaluator text for one character has no display glyph and the same balance. |
| Behaviour.SubstituteAppend | src/calculator.rs:348-351 | Glyph substitution distributes over concatenation. |
| Behaviour.GlyphFreeKept | src/calculator.rs:348-351 | Text without display glyphs is left unchanged. |
| Behaviour.SubstituteIsMap | src/calculator.rs:348-351 | The four successive replacements of Editor.SubstituteGlyphs equal one character-by-character translation (`×` to `*`, `÷` to `/`, `−` to `-`, `π` to `pi`), so no glyph is left. |
| Behaviour.NormalizedIsSubstituted | src/calculator.rs:330-341 | get_last_char_normalized (Editor.LastCharNormalized) maps the last character as glyph substitution does, for every character but `π`. |
| Editor.Preprocess | src/calculator.rs:343-367 | The evaluator text is the glyph-substituted expression followed by the auto-closing parentheses, with stars inserted as the reference MarkJuxtapositions places them. In Radians mode that is the result. In Degrees mode the trigonometric conversion is applied on top. |
| Behaviour.MapGlyphsFloor | src/calculator.rs:348-351 | Glyph substitution keeps the depth floor of the text: only parentheses move the depth, and they are copied as they are. |
| Behaviour.PreprocessNeverUnderflows | src/calculator.rs:343-367 | Under the invariant, no prefix of the evaluator text closes more than it opened, after substitution, auto-closing, star insertion and the trigonometric rewrite. |
| Behaviour.PreprocessBalanced | src/calculator.rs:343-367 | With the corrected toggle, from any reachable state, the text given to the evaluator has balanced parentheses: as many `)` as `(`, and no prefix closes more than it opened. |
| Text.CloseAllFloor | src/calculator.rs:354-356 | Appending m closing parentheses to a text that ends at least m deep keeps every prefix above the floor and lowers the depth by m. |
| Scenarios.Addition | src/calculator.rs:560-567 | Typing `a + b` yields expression `a+b`, which the evaluator receives unchanged. Calculating returns the evaluator's value for `a+b`, shows it and records one history entry (`a+b`, value). Calculating right after `a +` is "Incomplete". |
| Scenarios.TypingDecimal | src/calculator.rs:546-557 | Typing `a . b d` with `a` not 0 yields the expression `a.bd`. |
| Scenarios.DigitThenPi | src/calculator.rs:783-789 | Typing a digit then π gives `d×π`, which the evaluator receives as `d*pi`. |
| Scenarios.SinAngleKeys | src/calculator.rs:664-673 | Typing `sin ( a b )` in Degrees mode gives `sin(ab)` with no open parenthesis. The evaluator receives `sin((ab)*0.017453292519943295)`. |
| Scenarios.NumberBeforePi | src/calculator.rs:434-487 | A digit followed by `pi` gets a `*` between them. |
| Scenarios.LogNameThenParen | src/calculator.rs:437-472 | `log10(x)` becomes `log10*(x)`, because `log10` ends in a digit. |
| Scenarios.NestedSinKept | src/calculator.rs:388-397 | In `sin(sin(ab))` only the outer call is rewritten; the inner one is copied verbatim. |
| Scenarios.ArcSineMatched | src/calculator.rs:389 | The `sin(` pattern matches inside `asin(a)`, which becomes `asin((a)*…)`. |
| Scenarios.UnclosedCallCopied | src/calculator.rs:397-400 | A `sin(` whose argument never closes is copied unchanged. |

## Left out

- src/app.rs (egui rendering, layout, keyboard dispatch), src/main.rs and build.rs: window and platform plumbing. They only forward key presses, which `Session.Key` enumerates.
- scripts/create_font_subset.py: a font build script, unrelated to the calculator's behaviour.
- `meval::eval_str`, the `catch_unwind` around it, the NaN and infinity checks and `format_result`: floating-point evaluation and formatting. They are folded into the `eval` parameter and its `EvalOutcome`.
- The f64 value that `calculate` returns, and `last_result`: floating point, and `last_result` is never read by the core. The model's `calculate` returns the formatted text or the error message.
- The numeric value of pi/180: the conversion splices in its printed form `0.017453292519943295` as a constant string.
- `get_open_parens`: a getter for the counter.
- `char_to_byte_index` and the byte indexing of `find`, `find_closing_paren` and the table match: the model indexes characters. In every reachable state, the text these functions see after glyph substitution is ASCII, so the byte and character indices agree. Text.CharBoundary models byte offsets where they do differ (toggle_sign).
- The 32-bit width of `open_parens`: the counter is an unbounded integer. It stays between 0 and the expression's length (Session.Inv), so it cannot overflow in the model.
- Session.EqualsInv: its contract assumes the evaluator's formatted values are numerals (digits, `.`, `-`, `e`). The invariant needs this, and it is what `format_result` prints. The same assumption carries to Session.StepInv, Session.RunInv and Session.ParenthesesBalanced.
- Scenarios.TypingDecimal: it does not restate the test's second decimal point being ignored, which Behaviour.PointTwice proves for every state.
- Scenarios.Addition, Scenarios.DigitThenPi, Scenarios.SinAngleKeys: these tests check numeric results (5, 2π, 0.5). The model stops at the text given to the evaluator and at what the calculator does with the evaluator's answer.

## Findings

| source | as written | input that shows it | evidently intended | confidence | as-written member | corrected member |
|---|---|---|---|---|---|---|
| src/calculator.rs:211-220 | When the current number follows a minus, toggle_sign cuts `'−'.len_utf8()` (3) bytes before the number. Its separator search only ever finds the ASCII `-`, which is one byte. | `-5` (a negative result): 1 − 3 underflows and panics. `12-5`: the cut removes `12-`, leaving `5`. Keys `5 ± =` (the evaluator gives `-5`), then `C ( 1`, recall of entry 0, then `±`: `(1-5` becomes `5` with the counter still 1, so the evaluator receives `5)`. | Remove just the one minus before the number. | not executed | Editor.ToggleSignAsWritten (Behaviour.NegativeResultPanics, Behaviour.PastedNegativeLosesDigits, Behaviour.CounterDesync) | Editor.ToggleSign (Editor.Toggled) |

`Session.Step` uses the corrected toggle, so the invariant lemmas are about the intended behaviour.
