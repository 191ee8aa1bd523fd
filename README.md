# PolynomialSolver, modelled in Dafny

`PolynomialSolver` reads a document of shares. Each share is a number written
as a digit string in its own base, and the entry `"keys"` holds `n` and `k`.
With `m = k - 1`, the solver takes the shares under the `m` numerically
smallest keys and converts each to an exact integer root. It then expands
`(x - r1) * ... * (x - rm)` into the coefficients of a monic polynomial and
prints them as one line:

    P(x) = 1x^2 -11x^1 +28x^0

The model is split into one module per part of that run:

- `Outcomes` (outcomes.dfy): the `Result`/`Option` values that stand in for exceptions.
- `Radix` (radix.dfy): `new BigInteger(value, radix)` (`Convert`), `Integer.parseInt` (`ParseInt`) and `toString(radix)` (`Render`). These are exact conversions between digit strings and unbounded integers.
- `Selection` (selection.dfy): the key handling. It drops `"keys"`, sorts the rest with a comparator on `Integer.parseInt`, and then runs the collecting loop, which stops after `m` roots. The loop is the method `CollectRoots`.
- `Expansion` (expansion.dfy): `generatePolynomial`. It is the in-place method `GeneratePolynomial` over arrays, proved equal to the function `Expand`. Lemmas state what `Expand` means: its length, that it is monic, that every root is a zero, Vieta's formulas, and that the order of the roots does not matter.
- `Formatting` (formatting.dfy): the printing loop, as the method `PrintPolynomial`. The module also has a reader, `ReadLine`, that recovers the nonzero terms from a printed line. This shows that the line determines the polynomial.
- `Solver` (solver.dfy): the body of `main`. `Solve` chains the pieces; `Output` is the function it is proved against. `m = k - 1` is computed with 32-bit wrap-around.

The printing loop at PolynomialSolver.java:72-82 always prints the
coefficient, so the leading term is `1x^2`. It ends every term with a blank,
skips zero coefficients, and prints a `+` only before positive coefficients
after the first slot. For roots 4 and 7 it prints
`P(x) = 1x^2 -11x^1 +28x^0 ` and a line break.

## Model

| member | source | states |
|---|---|---|
| Radix.Convert | PolynomialSolver.java:12-14 | The radix is out of range exactly when it lies outside [2, 36]. There are no digits exactly when the string is empty or only a sign. Otherwise the value is the Horner fold of the digit values, negated after a '-'. |
| Radix.ConvertRejects | PolynomialSolver.java:12-14 | Any character after the sign that is not a digit of the radix makes the conversion fail; it never truncates. |
| Radix.RenderRoundTrip | PolynomialSolver.java:12-14 | Converting what `toString(radix)` writes gives back the same integer. |
| Radix.PlusRoundTrip | PolynomialSolver.java:12-14 | A leading '+' before the digits is accepted and does not change the value. |
| Radix.CanonicalRoundTrip | PolynomialSolver.java:12-14 | A canonical spelling always converts, and `toString(radix)` reproduces it: same sign, lower-case digits, no leading zero. |
| Radix.ConvertRenderCanonical | PolynomialSolver.java:12-14 | For every spelling the conversion accepts, `toString(radix)` of its value is `Canonicalize` of that spelling: without '+', leading zeros or a sign on zero, with lower-case letters ("+0012" gives "12", "-0" gives "0"). |
| Radix.CanonicalizeExamples | PolynomialSolver.java:12-14 | "+0012" canonicalizes to "12", "-00" to "0" and "-0Ff" to "-ff". |
| Radix.CaseInsensitive | PolynomialSolver.java:12-14 | Letters are digits in either case: lower-casing the input leaves the result, or the error, unchanged. |
| Radix.ConvertExamples | PolynomialSolver.java:12-14 | "111" in base 2 is 7 and "213" in base 4 is 39. "-fF" in base 16 is -255. A digit too large for the radix, a bare sign and radix 37 are errors. |
| Radix.ParseInt | PolynomialSolver.java:60 | `Integer.parseInt` succeeds exactly when the base-10 conversion succeeds and its value fits in 32 bits; the value is then in range. |
| Radix.Render | PolynomialSolver.java:79 | The text is nonempty and starts with '-' exactly for negative values. |
| Radix.NatDigits | PolynomialSolver.java:79 | The digits of a natural number form a nonempty string of digits valid in the radix. |
| Radix.HornerNatDigits | PolynomialSolver.java:79 | Folding the digits `toString` writes gives back the number. |
| Radix.NatDigitsHorner | PolynomialSolver.java:12-14 | Lower-case digits with no leading zero are exactly the digits `toString` writes for their value. |
| Solver.Degree | PolynomialSolver.java:46 | `m` is a 32-bit integer congruent to `k - 1` modulo 2^32, so it wraps to `Integer.MAX_VALUE` for `k = Integer.MIN_VALUE`. |
| Selection.ShareKeys | PolynomialSolver.java:52-53 | The remaining keys are exactly the document's keys other than "keys". |
| Selection.NumericKeys | PolynomialSolver.java:54 | Sorting fails exactly when there are at least two share keys and one of them is not a 32-bit integer. On success the result is a permutation of the share keys, in ascending numeric order when there are two or more. |
| Selection.InsertPermutes | PolynomialSolver.java:54 | One insertion step adds exactly the inserted key to the keys. |
| Selection.InsertSorted | PolynomialSolver.java:54 | One insertion step keeps the keys sorted by the comparator's value. |
| Selection.SortByPermutes | PolynomialSolver.java:54 | The sort returns a permutation of its input. |
| Selection.SortBySorted | PolynomialSolver.java:54 | The sort returns its input ordered by the comparator's value. |
| Selection.SortedByTable | PolynomialSolver.java:54 | Sorting by the parsed values is ascending numeric order of the keys. |
| Selection.SortedUnique | PolynomialSolver.java:54 | Two sorted permutations of the same keys are equal when no two keys share a value. |
| Selection.NumericKeysReordered | PolynomialSolver.java:51-54 | Reordering the document's keys does not change whether sorting fails, nor the sorted keys, unless two keys parse to the same value. |
| Selection.Selected | PolynomialSolver.java:56-58 | The loop visits a prefix of the sorted keys of length `m`, clamped to [0, number of keys]. |
| Selection.ConvertShare | PolynomialSolver.java:59-62 | A key with no share object fails. A success means the base parsed as an int and the value converted in that base to the root. |
| Selection.ConvertShares | PolynomialSolver.java:56-64 | On success there is one root per visited key. |
| Selection.ConvertSharesMeaning | PolynomialSolver.java:56-64 | Conversion succeeds exactly when every visited share converts, and then root `i` is the conversion of share `i`. |
| Selection.ConvertSharesFirstError | PolynomialSolver.java:56-64 | If every share before `i` converts and share `i` fails, the run fails with the error of share `i`. |
| Selection.CollectRoots | PolynomialSolver.java:56-64 | The collecting loop returns the conversion of exactly the first `m` sorted keys, or the first error among them. |
| Selection.SelectionProperties | PolynomialSolver.java:51-64 | The selection never holds "keys", and it has as many keys as `m` allows and the document has. It is in ascending order, and no unselected share key is smaller than a selected one. |
| Selection.SelectionExample | PolynomialSolver.java:51-58 | Keys 6, 1, 2 and 3 beside "keys" sort to 1, 2, 3, 6, and with `m` = 2 the selection is 1 and 2. |
| Expansion.MulLinear | PolynomialSolver.java:25-27 | One pass multiplies by `(x - root)`: the result is one slot longer and keeps the leading coefficient. |
| Expansion.Expand | PolynomialSolver.java:19-22 | The coefficient vector of `m` roots has `m + 1` slots, and its leading slot is 1 (monic). |
| Expansion.GeneratePolynomial | PolynomialSolver.java:18-30 | The in-place nested loop returns a fresh array holding exactly `Expand` of the roots. |
| Expansion.Pass | PolynomialSolver.java:24-28 | After the pass for root `j`, the first `j + 2` slots are the expansion of the first `j + 1` roots, and the slots after them stay zero. |
| Expansion.EvalMulLinear | PolynomialSolver.java:25-27 | The value of one pass's result at `x` is the old value times `(x - root)`. |
| Expansion.EvalExpand | PolynomialSolver.java:18-30 | The value of the coefficients at any `x` is the product of the factors `x - r`. |
| Expansion.RootsAreZeros | PolynomialSolver.java:18-30 | Every root is a zero of the generated polynomial. |
| Expansion.Vieta | PolynomialSolver.java:18-30 | Coefficient `i` is `(-1)^i` times the `i`-th elementary symmetric sum of the roots. |
| Expansion.MulLinearCommutes | PolynomialSolver.java:24-28 | Multiplying by two factors in either order gives the same coefficients. |
| Expansion.ExpandPermutation | PolynomialSolver.java:18-30 | Any permutation of the roots gives the same coefficient vector. |
| Expansion.ExpandSmall | PolynomialSolver.java:18-30 | No roots give [1], one root `r` gives [1, -r], and two roots give [1, -(r1 + r2), r1 r2]. In particular 4 and 7 give [1, -11, 28]. |
| Formatting.CoefficientText | PolynomialSolver.java:76-79 | The coefficient text starts with '+' exactly for a positive coefficient after slot 0, and with '-' exactly for a negative one. |
| Formatting.CoefficientReadsBack | PolynomialSolver.java:76-79 | The printed coefficient, with its '+' if any, converts back in base 10 to the coefficient. |
| Formatting.PrintPolynomial | PolynomialSolver.java:72-82 | The printing loop produces the prefix, one token and a blank per nonzero slot, and a line break. |
| Formatting.PrintStep | PolynomialSolver.java:74-80 | One pass of the printing loop extends the output by the token of its slot, or by nothing for a zero. |
| Formatting.TokensRead | PolynomialSolver.java:74-80 | Every printed token is free of blanks and reads back as its slot's coefficient and power. |
| Formatting.ReadJoin | PolynomialSolver.java:79 | Blank-free tokens, each followed by a blank, are read back token by token. |
| Formatting.LineRoundTrip | PolynomialSolver.java:72-82 | Reading the printed line gives exactly the nonzero coefficients with their powers, leading first. |
| Formatting.CoefficientOfSlot | PolynomialSolver.java:73-80 | The terms read back hold every slot's coefficient at its power, zero slots included. |
| Formatting.LeadingTerm | PolynomialSolver.java:73-80 | With a nonzero leading coefficient, the first printed term carries that coefficient and the degree. |
| Formatting.TermsDeterminePolynomial | PolynomialSolver.java:73-80 | The nonzero terms determine a polynomial whose leading coefficient is nonzero. |
| Formatting.LineDeterminesPolynomial | PolynomialSolver.java:72-82 | Two polynomials with nonzero leading coefficients that print the same line are equal. |
| Formatting.BlankLine | PolynomialSolver.java:72-82 | The line is the bare prefix exactly when every coefficient is zero. |
| Formatting.LineExample | PolynomialSolver.java:72-82 | [1, -11, 28] prints as "P(x) = 1x^2 -11x^1 +28x^0 ". |
| Solver.Solve | PolynomialSolver.java:45-82 | The body of `main` produces the line `Output` describes, or the error that ends the run. |
| Solver.OutputFails | PolynomialSolver.java:51-64 | The run fails exactly when sorting the keys fails or one of the visited shares does not convert. |
| Solver.TermsAreEval | PolynomialSolver.java:72-82 | The printed terms, read as a polynomial, have the value of the coefficients at every point. |
| Solver.PrintedPolynomial | PolynomialSolver.java:45-82 | A successful run prints one line ending in a line break. Reading it back gives a monic polynomial of degree equal to the number of roots, leading term `1x^m`. There is one root per visited share, and the printed terms vanish at every root. |
| Solver.KeyOrderIrrelevant | PolynomialSolver.java:51-54 | Listing the document's keys in another order prints the same line, or fails alike, unless two share keys parse to the same value. |
| Solver.SampleRun | PolynomialSolver.java:44-82 | With keys 6, 1, 2, 3 and `k` = 3, the run takes 4 (base 10) and 7 ("111" in base 2) and prints "P(x) = 1x^2 -11x^1 +28x^0 " and a line break. |

## Left out

- Reading the file, the argument check and the usage message (PolynomialSolver.java:33-41) are left out. So is JSON parsing. The document enters the model already parsed: its keys are a sequence and its share entries a map from key to `(base, value)` text.
- `keys.getInt("n")` and `keys.getInt("k")` (lines 44-45) are left out. Only a missing `"keys"` object, a missing entry or text that is not a number throws there. Any JSON number is narrowed to an `int`: `3.5` becomes 3 and `4294967299` wraps to 3. Here `k` is a parameter that may be any 32-bit `int`, which covers every value such a narrowing can give. `n` is read by the source but never used.
- `rootObj.getString("base")` and `getString("value")` (lines 60-61) are not checked: every share has both fields as text. The model covers a key whose entry is missing or not an object (`NotAnObject`), but not a missing or non-text field.
- Radix.Convert and Radix.ParseInt: only ASCII digits and letters are digits here. `Character.digit`, which the JDK uses, also accepts other Unicode decimal digits and the full-width Latin letters.
- Exception messages, the stack trace and the `"Error: "` line (lines 84-87) are left out. A failure is the `Err` value of the exception's kind.
- Selection.NumericKeys: when several keys are not integers, which one's exception surfaces depends on TimSort's comparison order. The model reports the first one in document order. With two or more keys TimSort compares, and so parses, every key; with fewer it compares none, which the model follows.
- Selection.SortBy: a stable insertion sort. It gives the same result as TimSort, which is also stable, but stability is not stated as a lemma of its own. `Solver.KeyOrderIrrelevant` therefore requires that no two share keys parse to the same value (as "1" and "01" do).
- The order of `obj.keySet()` is whatever the JSON library gives; the model takes any order as input.
- `System.out.println()` writes the platform line separator; the model writes "\n". Output printed before a failure does not arise, since nothing after line 72 can throw.
- Integer width: roots and coefficients are `BigInteger` in the source and unbounded `int` here, so nothing there is truncated. The only 32-bit arithmetic is `m = k - 1` (`Solver.Degree`) and `Integer.parseInt`'s range (`Radix.ParseInt`), both modelled.
