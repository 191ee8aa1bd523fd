/**
 * The solver's run, from the parsed document to the printed line.
 *
 * `m = k - 1` is computed in 32-bit arithmetic. The share keys are sorted,
 * the first `m` shares are converted into roots, the roots are expanded into
 * the coefficients of the monic polynomial they are zeros of, and that
 * polynomial is printed. Any exception on the way ends the run with its
 * error instead of a line.
 */
module Solver {
  import opened Outcomes
  import Radix
  import Selection
  import Expansion
  import Formatting

  const Modulus := 0x1_0000_0000

  /** `k - 1` on a Java `int`: it wraps to `Integer.MAX_VALUE` below `Integer.MIN_VALUE`. */
  function Degree(k: int): (m: int)
    requires Radix.IntMin <= k <= Radix.IntMax
    ensures Radix.IntMin <= m <= Radix.IntMax
    ensures (m - (k - 1)) % Modulus == 0
  {
    if k == Radix.IntMin then Radix.IntMax else k - 1
  }

  /** The roots the run collects: the first `m` shares in key order, converted. */
  function Roots(k: int, keys: seq<string>, shares: map<string, Selection.Share>): Result<seq<int>, Selection.Error>
    requires Radix.IntMin <= k <= Radix.IntMax
  {
    match Selection.NumericKeys(keys)
    case Err(e) => Err(e)
    case Ok(sorted) => Selection.ConvertShares(Selection.Selected(sorted, Degree(k)), shares)
  }

  /** What the run prints: the polynomial line and its line break, or the error that ends it. */
  function Output(k: int, keys: seq<string>, shares: map<string, Selection.Share>): Result<string, Selection.Error>
    requires Radix.IntMin <= k <= Radix.IntMax
  {
    match Roots(k, keys, shares)
    case Err(e) => Err(e)
    case Ok(roots) => Ok(Formatting.Line(Expansion.Expand(roots)) + "\n")
  }

  /**
   * The body of the run: sort the keys, collect the roots, copy them into an
   * array, expand them and print the coefficients.
   */
  method Solve(k: int, keys: seq<string>, shares: map<string, Selection.Share>)
    returns (r: Result<string, Selection.Error>)
    requires Radix.IntMin <= k <= Radix.IntMax
    ensures r == Output(k, keys, shares)
  {
    var m := Degree(k);
    var numericKeys := Selection.NumericKeys(keys);
    if numericKeys.Err? {
      return Err(numericKeys.error);
    }
    var collected := Selection.CollectRoots(numericKeys.value, shares, m);
    if collected.Err? {
      return Err(collected.error);
    }
    var rootsList := collected.value;
    var roots := new int[|rootsList|](i requires 0 <= i < |rootsList| => rootsList[i]);
    assert roots[..] == rootsList;
    var coeffs := Expansion.GeneratePolynomial(roots);
    var line := Formatting.PrintPolynomial(coeffs);
    r := Ok(line);
  }

  // ---------------------------------------------------------------------------
  // The value of the printed terms

  /** The value at `x` of a list of terms; a negative power contributes nothing. */
  function TermsValue(ms: seq<Formatting.Monomial>, x: int): int {
    if ms == [] then 0
    else
      var m := ms[|ms| - 1];
      TermsValue(ms[..|ms| - 1], x) + (if m.power >= 0 then m.coefficient * Expansion.Pow(x, m.power) else 0)
  }

  /** The value at `x` of slots `0 .. n-1` alone. */
  function SlotsValue(p: seq<int>, n: nat, x: int): int
    requires n <= |p|
  {
    if n == 0 then 0 else SlotsValue(p, n - 1, x) + p[n - 1] * Expansion.Pow(x, |p| - n)
  }

  lemma {:induction false} TermsOfSlots(p: seq<int>, n: nat, x: int)
    requires n <= |p|
    ensures TermsValue(Formatting.NonzeroTerms(p, n), x) == SlotsValue(p, n, x)
  {
    if n > 0 {
      TermsOfSlots(p, n - 1, x);
      var ms := Formatting.NonzeroTerms(p, n);
      var front := Formatting.NonzeroTerms(p, n - 1);
      if p[n - 1] != 0 {
        assert ms[..|ms| - 1] == front;
      } else {
        assert ms == front;
      }
    }
  }

  /** Dropping the leading slot leaves the same powers for the others. */
  lemma {:induction false} SlotsOfTail(p: seq<int>, n: nat, x: int)
    requires 0 < n <= |p|
    ensures SlotsValue(p, n, x) == p[0] * Expansion.Pow(x, |p| - 1) + SlotsValue(p[1..], n - 1, x)
  {
    if n > 1 {
      SlotsOfTail(p, n - 1, x);
    }
  }

  lemma {:induction false} SlotsAreEval(p: seq<int>, x: int)
    ensures SlotsValue(p, |p|, x) == Expansion.Eval(p, x)
    decreases |p|
  {
    if p != [] {
      SlotsOfTail(p, |p|, x);
      SlotsAreEval(p[1..], x);
    }
  }

  /** The printed terms have the value of the polynomial at every point. */
  lemma TermsAreEval(p: seq<int>, x: int)
    ensures TermsValue(Formatting.NonzeroTerms(p, |p|), x) == Expansion.Eval(p, x)
  {
    TermsOfSlots(p, |p|, x);
    SlotsAreEval(p, x);
  }

  lemma DropNewline(line: string)
    ensures var out := line + "\n"; |out| > 0 && out[|out| - 1] == '\n' && out[..|out| - 1] == line
  {
  }

  // ---------------------------------------------------------------------------
  // What a successful run prints

  /** The run fails exactly when sorting the keys or converting a selected share fails. */
  lemma OutputFails(k: int, keys: seq<string>, shares: map<string, Selection.Share>)
    requires Radix.IntMin <= k <= Radix.IntMax
    ensures Output(k, keys, shares).Err? <==>
      Selection.NumericKeys(keys).Err? ||
      exists i :: 0 <= i < |Selection.Selected(Selection.NumericKeys(keys).value, Degree(k))| &&
        Selection.ConvertShare(Selection.Selected(Selection.NumericKeys(keys).value, Degree(k))[i], shares).Err?
  {
    if Selection.NumericKeys(keys).Ok? {
      Selection.ConvertSharesMeaning(Selection.Selected(Selection.NumericKeys(keys).value, Degree(k)), shares);
    }
  }

  /**
   * A successful run prints one line, ending in a line break, from which the
   * reader recovers a monic polynomial of degree `|roots|`, one root per
   * selected share, whose printed terms vanish at every root.
   */
  lemma PrintedPolynomial(k: int, keys: seq<string>, shares: map<string, Selection.Share>)
    requires Radix.IntMin <= k <= Radix.IntMax
    requires Output(k, keys, shares).Ok?
    ensures Roots(k, keys, shares).Ok?
    ensures var roots := Roots(k, keys, shares).value;
      var out := Output(k, keys, shares).value;
      var m := Degree(k);
      var shareCount := |Selection.ShareKeys(keys)|;
      var terms := Formatting.ReadLine(out[..|out| - 1]);
      |roots| == (if m <= 0 then 0 else if m < shareCount then m else shareCount) &&
      out[|out| - 1] == '\n' &&
      terms.Some? && |terms.value| > 0 &&
      terms.value[0] == Formatting.Monomial(1, |roots|) &&
      forall t :: 0 <= t < |roots| ==> TermsValue(terms.value, roots[t]) == 0
  {
    var roots := Roots(k, keys, shares).value;
    var p := Expansion.Expand(roots);
    var line := Formatting.Line(p);
    Selection.SelectedKeys(keys, Degree(k));
    DropNewline(line);
    Formatting.LineRoundTrip(p);
    Formatting.LeadingTerm(p, |p|);
    forall t | 0 <= t < |roots|
      ensures TermsValue(Formatting.NonzeroTerms(p, |p|), roots[t]) == 0
    {
      TermsAreEval(p, roots[t]);
      Expansion.RootsAreZeros(roots, t);
    }
  }

  /**
   * Listing the document's keys in another order prints the same line (or
   * fails alike), as long as no two share keys parse to the same value.
   */
  lemma KeyOrderIrrelevant(k: int, keys: seq<string>, keys': seq<string>, shares: map<string, Selection.Share>)
    requires Radix.IntMin <= k <= Radix.IntMax
    requires multiset(keys) == multiset(keys')
    requires Selection.DistinctValues(Selection.ShareKeys(keys))
    ensures Output(k, keys, shares).Err? <==> Output(k, keys', shares).Err?
    ensures Selection.NumericKeys(keys).Ok? ==> Output(k, keys, shares) == Output(k, keys', shares)
  {
    Selection.NumericKeysReordered(keys, keys');
  }

  // ---------------------------------------------------------------------------
  // A whole run

  const SampleKeys := ["keys", "6", "1", "2", "3"]

  /** Share 1 holds 4 in base 10 and share 2 holds 7 in base 2; 3 and 6 are never read. */
  const SampleShares := map[
    "1" := Selection.Share("10", "4"),
    "2" := Selection.Share("2", "111"),
    "3" := Selection.Share("4", "213"),
    "6" := Selection.Share("16", "zz")]

  lemma SampleBases()
    ensures Radix.ParseInt("10") == Ok(10) && Radix.ParseInt("2") == Ok(2)
  {
    assert "10"[..1] == "1" && "1"[..0] == [] && "2"[..0] == [];
  }

  lemma SampleValues()
    ensures Radix.Convert("4", 10) == Ok(4) && Radix.Convert("111", 2) == Ok(7)
  {
    assert "4"[..0] == [];
    Radix.ConvertExamples();
  }

  lemma ShareOf(key: string, shares: map<string, Selection.Share>, base: int, v: int)
    requires key in shares
    requires Radix.ParseInt(shares[key].base) == Ok(base)
    requires Radix.Convert(shares[key].value, base) == Ok(v)
    ensures Selection.ConvertShare(key, shares) == Ok(v)
  {
  }

  lemma TwoShares(a: string, b: string, shares: map<string, Selection.Share>, x: int, y: int)
    requires Selection.ConvertShare(a, shares) == Ok(x)
    requires Selection.ConvertShare(b, shares) == Ok(y)
    ensures Selection.ConvertShares([a, b], shares) == Ok([x, y])
  {
    assert [a][..0] == [] && [] + [x] == [x];
    assert Selection.ConvertShares([], shares) == Ok([]);
    assert Selection.ConvertShares([a], shares) == Ok([x]);
    assert [a, b][..1] == [a];
    assert [x] + [y] == [x, y];
  }

  lemma SampleRoots()
    ensures Selection.ConvertShares(["1", "2"], SampleShares) == Ok([4, 7])
  {
    var shares := SampleShares;
    assert shares["1"] == Selection.Share("10", "4") && shares["2"] == Selection.Share("2", "111");
    SampleBases();
    SampleValues();
    ShareOf("1", shares, 10, 4);
    ShareOf("2", shares, 2, 7);
    TwoShares("1", "2", shares, 4, 7);
  }

  lemma SampleSelection()
    ensures Selection.NumericKeys(SampleKeys) == Ok(["1", "2", "3", "6"])
    ensures Selection.Selected(["1", "2", "3", "6"], Degree(3)) == ["1", "2"]
  {
    Selection.SelectionExample();
  }

  lemma OutputOf(k: int, keys: seq<string>, shares: map<string, Selection.Share>, roots: seq<int>,
                  line: string, out: string)
    requires Radix.IntMin <= k <= Radix.IntMax
    requires Roots(k, keys, shares) == Ok(roots)
    requires Formatting.Line(Expansion.Expand(roots)) == line && line + "\n" == out
    ensures Output(k, keys, shares) == Ok(out)
  {
  }

  lemma SampleLine()
    ensures Formatting.Line(Expansion.Expand([4, 7])) == "P(x) = 1x^2 -11x^1 +28x^0 "
  {
    Expansion.ExpandSmall(0, 0, 0);
    Formatting.LineExample();
  }

  lemma RootsOf(k: int, keys: seq<string>, shares: map<string, Selection.Share>,
                 sorted: seq<string>, chosen: seq<string>, roots: seq<int>)
    requires Radix.IntMin <= k <= Radix.IntMax
    requires Selection.NumericKeys(keys) == Ok(sorted)
    requires Selection.Selected(sorted, Degree(k)) == chosen
    requires Selection.ConvertShares(chosen, shares) == Ok(roots)
    ensures Roots(k, keys, shares) == Ok(roots)
  {
  }

  /** With `k` = 3 the run takes the shares under keys 1 and 2, the roots 4 and 7. */
  lemma SampleRun()
    ensures Roots(3, SampleKeys, SampleShares) == Ok([4, 7])
    ensures Output(3, SampleKeys, SampleShares) == Ok("P(x) = 1x^2 -11x^1 +28x^0 \n")
  {
    SampleSelection();
    SampleRoots();
    RootsOf(3, SampleKeys, SampleShares, ["1", "2", "3", "6"], ["1", "2"], [4, 7]);
    SampleLine();
    SampleNewline();
    OutputOf(3, SampleKeys, SampleShares, [4, 7], "P(x) = 1x^2 -11x^1 +28x^0 ", "P(x) = 1x^2 -11x^1 +28x^0 \n");
  }

  /** The line break `println` adds to the sample line, stated on its own to keep the proof of `SampleRun` small. */
  lemma SampleNewline()
    ensures "P(x) = 1x^2 -11x^1 +28x^0 " + "\n" == "P(x) = 1x^2 -11x^1 +28x^0 \n"
  {
  }
}
