# ComputorV1 in Dafny

A model of the core of ComputorV1, a solver for polynomial equations of
degree at most 2 written as text such as `5 * X^0 + 4 * X^1 - 9.3 * X^2 = 1 * X^0`.
The whole core sits in `src/lib.rs`, and the model keeps its pipeline:

- `remove_whitespace` deletes every whitespace character of the input in
  place. It becomes `Text.RemoveWhitespace`, an in-place compaction of an
  `array<char>`, specified by the function `Text.Stripped`.
- `reduce` splits the text at its first `=` (`Text.SplitOnce`) and parses
  both sides. It then merges them into `left − right` (`Reducer.Merge`,
  specified by `Reducer.Subtract`), takes the largest power as the degree
  (`Reducer.Degree`) and refuses a degree above 2. It is modelled as the
  method `Reducer.Reduce`, specified by the function `Reducer.ReduceResult`.
- `extract_coefficients` reads one side term by term with two anchored
  regular expressions:
  - the first term may carry a sign;
  - every later term must carry one.

  Each term is `digits[.digits*]*X^digits`. The model has:
  - the grammar written out character by character (`Terms.MatchAt`);
  - the scanner (`Terms.Scan`);
  - the scanning loop itself (`Terms.ExtractCoefficients`);
  - a proof that the scanner accepts exactly the texts of term lists and
    reads them back (`Terms.ScanSound`, `Terms.ScanComplete`).
- `print_reduced` writes the reduced form. It becomes `Format.PrintReduced`,
  a loop over the powers in increasing order. The model proves that the
  line is "Reduced form: " + body + "= 0", and that the body, with its
  spaces removed, parses back into the same polynomial whenever every
  number is displayed exactly (`Format.ReducedFormParses`, under
  `Format.ExactFor`).
- `calculate` picks the solver branch from the coefficients c, b and a of
  powers 0, 1 and 2:
  - `Solver.Calculate` is the code as written;
  - `Solver.CalculateCorrected` settles the case a = b = 0 (see Findings).

  The model proves that the outcome names exactly the real roots of the
  polynomial (`Solver.CalculateCorrectedRoots`).
- `solve` chains all of the above. It becomes `Pipeline.Solve`, specified by
  `Pipeline.SolveResult`. It calls the corrected solver
  `Solver.CalculateCorrected`, so on the inputs of the Findings row it
  answers "no solution" or "every real" where `src/lib.rs` divides by zero.

Coefficients are exact real numbers. The square root of a positive
discriminant stays symbolic: a two-root outcome carries a, b and the
discriminant Δ, and its roots are stated for any s with s · s = Δ. The
display of a number (Rust's `f64::to_string`) is a parameter `show` of the
printing functions. The round trip of the reduced form is proved for every
display that writes each number exactly.

## Model

| member | source | states |
|---|---|---|
| Text.RemoveWhitespace | src/lib.rs:130-132 | after the call the first n cells of the buffer hold exactly the non-whitespace characters of the old contents, in their order |
| Text.StrippedMembers | src/lib.rs:130-132 | a character survives whitespace removal if and only if it occurs in the input and is not whitespace |
| Text.StrippedConcat | src/lib.rs:130-132 | removing whitespace from a concatenation equals removing it from each part |
| Text.SplitOnce | src/lib.rs:21-26 | there is no split exactly when the text has no '='; otherwise the text is left + "=" + right, and left holds no '=' |
| Text.SplitOnceFirst | src/lib.rs:21-26 | the split is at the first '=': with no '=' in x, x + "=" + y splits into (x, y) even when y holds more '=' |
| Terms.DigitsEnd | src/lib.rs:52 | the greedy `\d` run from i ends at a position j ≥ i that is the end of the text or holds a non-digit |
| Terms.MatchAt | src/lib.rs:52-55 | a match ends after its start and within the text; the later-term pattern only matches signed terms; a match never stops before a digit |
| Terms.MatchAtSound | src/lib.rs:52-55 | the text a match spans is the rendering of a well-formed term: sign, integer digits, optional '.' and fraction digits, `*X^`, power digits |
| Terms.MatchRendered | src/lib.rs:52-55 | a rendered well-formed term that is not followed by a digit is matched in full, as exactly that term |
| Terms.ScanSound | src/lib.rs:58-89 | whatever a side parses into is a term list whose later terms are all signed, and it renders back to exactly the side's text |
| Terms.ScanComplete | src/lib.rs:58-89 | the text of every such term list is parsed back into exactly that list |
| Terms.ExtractCoefficients | src/lib.rs:49-90 | the scanning loop returns WrongFormat exactly when the text is not a side, and otherwise the map the terms insert in order |
| Terms.CollectKeys | src/lib.rs:65-83 | the map `Terms.Collect` builds by the `insert`s at lines 65-68 and 80-83 has exactly the powers written on the side as its keys |
| Terms.CollectLastWins | src/lib.rs:65-83 | a power keeps the coefficient of its last occurrence on the side |
| Terms.RepeatedPowerOverwrites | src/lib.rs:80-83 | `1*X^1+2*X^1` parses to {1: 2}: a repeated power overwrites, it is not summed and not refused |
| Terms.ParseSideNonEmpty | src/lib.rs:59-61 | an empty side is a format error, and a side that parses yields at least one power |
| Reducer.Subtract | src/lib.rs:29-35 | the merged keys are the union of both sides' keys; a shared power holds left − right, a left-only power keeps its value, a right-only power holds its negation |
| Reducer.Merge | src/lib.rs:29-36 | the loop over the right side leaves exactly the subtraction of the right map from the left one |
| Reducer.SubtractEval | src/lib.rs:29-35 | at every x the merged polynomial evaluates to left(x) − right(x), so the equation keeps its solutions |
| Reducer.SubtractAntisymmetric | src/lib.rs:29-35 | swapping the sides keeps the same powers and negates every coefficient |
| Reducer.SortedKeys | src/lib.rs:10 | the powers are visited in strictly increasing order, each power of the map exactly once |
| Reducer.Degree | src/lib.rs:37-40 | there is no degree exactly for the empty map; otherwise the degree is a present power and no power exceeds it |
| Reducer.Reduce | src/lib.rs:20-47 | the method returns what ReduceResult states for the same text |
| Reducer.ReduceResult | src/lib.rs:20-47 | a successful reduction is a non-empty map whose powers are all at most 2 |
| Reducer.MissingSeparatorExactly | src/lib.rs:21-24 | the separator error is returned if and only if the text has no '=' |
| Reducer.NoPowerUnreachable | src/lib.rs:37-38 | "No power in expression" can never be returned: a parsed left side always leaves a power |
| Reducer.DegreeAboveTwoExactly | src/lib.rs:43-45 | once both sides parse, the degree error is returned if and only if some power above 2 is written on either side |
| Reducer.ReduceOk | src/lib.rs:27-46 | a successful reduction means that both sides parsed, that it is their difference, and that every power written on either side is at most 2 |
| Format.NatDigitsValue | src/lib.rs:12-14 | the decimal digits printed for a power read back as that power |
| Format.EntryRender | src/lib.rs:11-15 | an entry of `Format.Entry` with its spaces removed is the term with sign '-' and the magnitude of v for a negative v, and with sign '+' and v otherwise, then `*X^` and the digits of k |
| Format.EntryTermValue | src/lib.rs:11-15 | with an exact display, that term reads back as power k and coefficient v, sign included |
| Format.TrimStartMatches | src/lib.rs:17 | the trimmed text is no longer than the input and no longer starts with the pattern |
| Format.TrimmedCopies | src/lib.rs:17 | what was trimmed is a whole number of copies of the pattern, in front of the result |
| Format.PrintReduced | src/lib.rs:8-18 | the loop over the increasing powers builds exactly the reduced-form line |
| Format.ReducedFormParses | src/lib.rs:8-18 | for a non-empty map and an exact number display, the line is "Reduced form: " + body + "= 0", and the body without its spaces parses back into the same map |
| Solver.Calculate | src/lib.rs:92-127 | as written: every real exactly for a single zero entry; the division by zero exactly when the map is not a single zero and a = b = 0; no solution exactly when a ≠ 0 and Δ < 0; a single root solves c + bx + ax² = 0; two roots carry a ≠ 0, b and Δ = b² − 4ac > 0 |
| Solver.CalculateCorrected | src/lib.rs:92-127 | the corrected solver never divides by zero |
| Solver.CalculateCorrectedRoots | src/lib.rs:92-127 | for powers at most 2, x solves c + bx + ax² = 0 if and only if the outcome names x: every real, none, the one root, or (−b ± s) / 2a for a square root s of Δ |
| Solver.TwoRootsOrder | src/lib.rs:106-126 | a two-root outcome has a ≠ 0, Δ = b² − 4ac > 0 and distinct roots; the `+√Δ` root comes first and is the larger exactly when a > 0 |
| Solver.CorrectionAgrees | src/lib.rs:93-104 | the correction changes nothing but the as-written division by zero, which happens exactly when the map is not a single zero and a = b = 0 |
| Solver.DivisionByZeroWitnesses | src/lib.rs:101-103 | as written, {0: 1} (1 = 0) and {0: 0, 1: 0} (0 = 0) reach the division by b = 0; corrected, they give no solution and every real |
| Pipeline.Solve | src/lib.rs:135-140 | the method copies the input, removes its whitespace in place, reduces, and solves with the corrected solver Solver.CalculateCorrected, returning what SolveResult states |
| Pipeline.SolveRoots | src/lib.rs:135-140 | a solved equation's sides both parse with powers at most 2, and the outcome names x exactly when x makes both sides equal |
| Pipeline.SolveMissingSeparator | src/lib.rs:21-24 | solve reports the separator error if and only if the input has no '=' |
| Pipeline.SolveNeverNoPower | src/lib.rs:37-38 | solve never reports "No power in expression" |
| Pipeline.SolveIgnoresWhitespace | src/lib.rs:130-138 | inserting whitespace anywhere in the input does not change the result |
| Examples.Equation | src/lib.rs:135-140 | an equation written as two sides of terms is solved as the difference of what the sides parse into, unless its degree exceeds 2 |
| Examples.ZeroEqualsZero | src/lib.rs:93-96 | `0*X^0=0*X^0` is solved by every real |
| Examples.OneEqualsZero | src/lib.rs:101-103 | `1*X^0=0*X^0` reduces to {0: 1}; as written it reaches the division by zero, corrected it has no solution |
| Examples.TwoXEqualsZero | src/lib.rs:101-103 | `2*X^1=0*X^0` has the single root 0 |
| Examples.SquareEqualsFour | src/lib.rs:106-126 | `1*X^2=4*X^0` has Δ = 16 and the roots 2 and then −2 |
| Examples.CubeRefused | src/lib.rs:43-45 | `1*X^3=0*X^0` is refused for its degree |
| Examples.SignedTermsEquation | src/lib.rs:135-140 | `8*X^0-6*X^1+0*X^2=3*X^0` reduces to {0: 5, 1: −6, 2: 0}, of degree 2, and has the single root 5/6 |
| Examples.FractionalEquation | src/lib.rs:135-140 | `5*X^0+4*X^1-9.3*X^2=1*X^0` reduces to {0: 4, 1: 4, 2: −9.3} and has two roots from Δ = 164.8 |

## Left out

- Floating point: `f64` rounding, NaN, infinities and `-0.0` are not modelled. Coefficients are exact reals. The test `is_sign_negative` in `print_reduced` becomes `v < 0.0`, so a `-0.0` coefficient prints with `+` in the model.
- Square roots: `delta.sqrt()` is kept symbolic. Solver.CalculateCorrectedRoots and Solver.TwoRootsOrder state the roots for any s with s · s = Δ.
- Number display: `f64::to_string` and the eight-digit `PrettyPrintFloat` output are outside the model. The reduced form takes the display as a parameter `show`. The round trip is proved only for displays that write every number exactly (`Format.ExactFor`).
- Console output: the `println!` calls (the reduced form, the degree line, the solution lines, the debug line of `calculate`) are not modelled as I/O. `Format.PrintReduced` returns the reduced-form line instead of printing it.
- Return shape: `calculate` returns `Err` for "every real" and for a negative discriminant, and `Ok((x, NaN))` or `Ok((x1, x2))` otherwise. The model returns an `Outcome` value instead: `AllReals`, `NoSolution`, `One(x)` or `Two(a, b, Δ)`. The error strings are the `Failure` values `MissingSeparator`, `WrongFormat`, `NoPower` and `DegreeAboveTwo`.
- Pipeline.Solve: it and `Pipeline.SolveResult` use `Solver.CalculateCorrected`, not the as-written `Solver.Calculate`. With a = b = 0 (see Findings) `src/lib.rs` returns `Ok((NaN, NaN))` for `0*X^0+0*X^1=0*X^0` and `Ok((-inf, NaN))` for `1*X^0=0*X^0`; the model returns `AllReals` and `NoSolution`.
- Missing '=': `reduce` panics when the text has no '='. The model returns `MissingSeparator` instead.
- Regular-expression engine: `lazy_static` and `regex` are replaced by the equivalent anchored matcher `Terms.MatchAt`. Rust's `\d` also matches non-ASCII decimal digits, on which `parse::<u64>` would panic. The model accepts ASCII digits only.
- Integer widths: a power above `u64::MAX` makes `parse::<u64>().unwrap()` panic. Powers are unbounded naturals in the model.
- Documented behaviour the code does not have: repeated powers on one side are described as a format error, and an empty side as the empty polynomial. The code overwrites a repeated power (`Terms.RepeatedPowerOverwrites`) and refuses an empty side (`Terms.ParseSideNonEmpty`). The model follows the code.
- `src/main.rs`, the argument handling and the exit codes are not part of this model.

## Findings

| source | as written | input that shows it | evidently intended | confidence | as-written member | corrected member |
|---|---|---|---|---|---|---|
| src/lib.rs:101-103 | with a = 0 the linear branch always computes −c / b, also when b = 0 | `1*X^0=0*X^0` (reduces to {0: 1}: −1 / 0); `0*X^0+0*X^1=0*X^0` (reduces to {0: 0, 1: 0}: 0 / 0) | with a = b = 0 the equation reads c = 0: no solution when c ≠ 0, every real when c = 0 | not executed | Solver.DivisionByZeroWitnesses | Solver.CalculateCorrectedRoots |
