/**
 * The printed polynomial.
 *
 * The solver prints "P(x) = " and then walks the coefficients from the
 * leading one down. A zero coefficient prints nothing; any other prints as
 * "<coefficient>x^<power> ", with a "+" in front of a positive coefficient
 * unless it is the first slot. A line break ends the output.
 *
 * `ReadLine` is the reader of that format: it recovers, from a printed line,
 * the nonzero terms with their powers, so that the line determines the
 * polynomial.
 */
module Formatting {
  import opened Outcomes
  import Radix
  import Sequences

  const Prefix := "P(x) = "

  /** `BigInteger.toString()` and `Integer.toString`: base 10, '-' for negatives. */
  function Decimal(v: int): string {
    Radix.Render(v, 10)
  }

  /** A coefficient as printed in slot `i`, with its sign. */
  function CoefficientText(c: int, i: nat): (t: string)
    ensures |t| > 0
    ensures t[0] == '+' <==> c > 0 && i > 0
    ensures t[0] == '-' <==> c < 0
  {
    if c > 0 && i > 0 then "+" + Decimal(c)
    else
      assert Decimal(c)[0] != '+' by { DecimalChars(c); }
      Decimal(c)
  }

  /** The printed coefficient reads back, sign included, as the coefficient. */
  lemma CoefficientReadsBack(c: int, i: nat)
    ensures Radix.Convert(CoefficientText(c, i), 10) == Ok(c)
  {
    if c > 0 && i > 0 {
      Radix.PlusRoundTrip(c, 10);
    } else {
      Radix.RenderRoundTrip(c, 10);
    }
  }

  /** What the second `print` of a nonzero slot writes: "<coefficient>x^<power> ". */
  function TermText(c: int, power: int): string {
    Decimal(c) + "x^" + Decimal(power) + " "
  }

  /** A nonzero slot as the reader sees it: the signed coefficient, "x^" and the power. */
  function Token(c: int, i: nat, power: int): string {
    CoefficientText(c, i) + "x^" + Decimal(power)
  }

  /** The tokens of the nonzero slots below `n`, leading slot first. */
  function Tokens(coeffs: seq<int>, n: nat): seq<string>
    requires n <= |coeffs|
  {
    if n == 0 then []
    else
      Tokens(coeffs, n - 1) +
      (if coeffs[n - 1] == 0 then [] else [Token(coeffs[n - 1], n - 1, |coeffs| - n)])
  }

  /** Every token followed by a blank. */
  function Join(ts: seq<string>): string {
    if ts == [] then "" else Join(ts[..|ts| - 1]) + ts[|ts| - 1] + " "
  }

  /** The printed line, before its line break. */
  function Line(coeffs: seq<int>): string {
    Prefix + Join(Tokens(coeffs, |coeffs|))
  }

  /** The printing loop: the prefix, one term per nonzero slot, and the line break. */
  method PrintPolynomial(coeffs: array<int>) returns (out: string)
    ensures out == Line(coeffs[..]) + "\n"
  {
    ghost var slots := coeffs[..];
    out := Prefix;
    for i := 0 to coeffs.Length
      invariant out == Prefix + Join(Tokens(slots, i))
    {
      var power := coeffs.Length - 1 - i;
      ghost var before := out;
      if coeffs[i] != 0 {
        if coeffs[i] > 0 && i > 0 {
          out := out + "+";
        }
        out := out + TermText(coeffs[i], power);
      }
      PrintStep(slots, i, coeffs[i], power, before, out);
    }
    out := out + "\n";
  }

  /** What one pass of the printing loop writes is the token of slot `i` and a blank. */
  lemma TokenText(c: int, i: nat, power: int)
    ensures Token(c, i, power) + " " == if c > 0 && i > 0 then "+" + TermText(c, power) else TermText(c, power)
  {
    if c > 0 && i > 0 {
      Sequences.AssociativeFour("+", Decimal(c), "x^", Decimal(power), " ");
    }
  }

  /** One pass of the printing loop appends the token of slot `i` and a blank. */
  lemma PrintStep(slots: seq<int>, i: nat, c: int, power: int, before: string, after: string)
    requires i < |slots| && c == slots[i] && power == |slots| - 1 - i
    requires before == Prefix + Join(Tokens(slots, i))
    requires after == if c == 0 then before
                      else if c > 0 && i > 0 then before + "+" + TermText(c, power)
                      else before + TermText(c, power)
    ensures after == Prefix + Join(Tokens(slots, i + 1))
  {
    var ts := Tokens(slots, i);
    if c == 0 {
      assert Tokens(slots, i + 1) == ts + [] == ts;
    } else {
      var t := Token(c, i, power);
      assert Tokens(slots, i + 1) == ts + [t];
      assert (ts + [t])[..|ts|] == ts;
      assert Join(ts + [t]) == Join(ts) + t + " ";
      TokenText(c, i, power);
      if c > 0 && i > 0 {
        Sequences.Associative(before, "+", TermText(c, power));
      }
      Sequences.Associative(Join(ts), t, " ");
      Sequences.Associative(Prefix, Join(ts), t + " ");
    }
  }

  // ---------------------------------------------------------------------------
  // Reading a printed line back

  /** A nonzero term as it appears in the output. */
  datatype Monomial = Monomial(coefficient: int, power: int)

  /** The nonzero coefficients of slots `0 .. n-1` with their powers, leading first. */
  function NonzeroTerms(coeffs: seq<int>, n: nat): seq<Monomial>
    requires n <= |coeffs|
  {
    if n == 0 then []
    else
      NonzeroTerms(coeffs, n - 1) +
      (if coeffs[n - 1] == 0 then [] else [Monomial(coeffs[n - 1], |coeffs| - n)])
  }

  /** The position of the first 'x' in `s`, or `|s|`. */
  function FindX(s: string): (x: nat)
    ensures x <= |s|
  {
    if s == [] || s[0] == 'x' then 0 else 1 + FindX(s[1..])
  }

  /** One past the last blank in `s`, or 0 when there is none. */
  function TokenStart(s: string): (j: nat)
    ensures j <= |s|
  {
    if s == [] then 0
    else if s[|s| - 1] == ' ' then |s|
    else TokenStart(s[..|s| - 1])
  }

  /** Reads "<coefficient>x^<power>". */
  function ReadTerm(token: string): Option<Monomial> {
    var x := FindX(token);
    if x + 1 >= |token| || token[x + 1] != '^' then None
    else
      match Radix.Convert(token[..x], 10)
      case Err(_) => None
      case Ok(c) =>
        match Radix.Convert(token[x + 2..], 10)
        case Err(_) => None
        case Ok(p) => Some(Monomial(c, p))
  }

  /** Reads blank-terminated terms, the last one first. */
  function ReadTerms(s: string): Option<seq<Monomial>>
    decreases |s|
  {
    if s == [] then Some([])
    else if s[|s| - 1] != ' ' then None
    else
      var body := s[..|s| - 1];
      var j := TokenStart(body);
      match ReadTerms(body[..j])
      case None => None
      case Some(front) =>
        match ReadTerm(body[j..])
        case None => None
        case Some(t) => Some(front + [t])
  }

  function ReadLine(line: string): Option<seq<Monomial>> {
    if |line| >= |Prefix| && line[..|Prefix|] == Prefix then ReadTerms(line[|Prefix|..])
    else None
  }

  /** The coefficient of `power` in a list of terms, 0 when the power is absent. */
  function CoefficientOf(ms: seq<Monomial>, power: int): int {
    if ms == [] then 0
    else if ms[|ms| - 1].power == power then ms[|ms| - 1].coefficient
    else CoefficientOf(ms[..|ms| - 1], power)
  }

  // ---------------------------------------------------------------------------
  // Lemmas

  /** `s` does not contain `ch`. */
  predicate Free(s: string, ch: char) {
    forall k :: 0 <= k < |s| ==> s[k] != ch
  }

  /** A decimal number holds no blank, no 'x' and no '+'. */
  lemma DecimalChars(v: int)
    ensures Free(Decimal(v), ' ') && Free(Decimal(v), 'x') && Free(Decimal(v), '+')
  {
    var s := Decimal(v);
    if v < 0 {
      var ds := Radix.NatDigits(-v, 10);
      assert s == "-" + ds;
      forall k | 0 <= k < |s|
        ensures s[k] != ' ' && s[k] != 'x' && s[k] != '+'
      {
        if k > 0 {
          assert Radix.ValidDigit(ds[k - 1], 10);
        }
      }
    } else {
      forall k | 0 <= k < |s|
        ensures s[k] != ' ' && s[k] != 'x' && s[k] != '+'
      {
        assert Radix.ValidDigit(s[k], 10);
      }
    }
  }

  lemma CoefficientChars(c: int, i: nat)
    ensures Free(CoefficientText(c, i), ' ') && Free(CoefficientText(c, i), 'x')
  {
    DecimalChars(c);
    var ct := CoefficientText(c, i);
    if c > 0 && i > 0 {
      forall k | 0 <= k < |ct|
        ensures ct[k] != ' ' && ct[k] != 'x'
      {
        if k > 0 {
          assert ct[k] == Decimal(c)[k - 1];
        }
      }
    }
  }

  lemma FreeConcat(a: string, b: string, c: string, ch: char)
    requires Free(a, ch) && Free(b, ch) && Free(c, ch)
    ensures Free(a + b + c, ch)
  {
    var s := a + b + c;
    forall k | 0 <= k < |s|
      ensures s[k] != ch
    {
      if k < |a| {
        assert s[k] == a[k];
      } else if k < |a| + |b| {
        assert s[k] == b[k - |a|];
      } else {
        assert s[k] == c[k - |a| - |b|];
      }
    }
  }

  lemma TokenHasNoBlank(c: int, i: nat, power: int)
    ensures Free(Token(c, i, power), ' ')
  {
    CoefficientChars(c, i);
    DecimalChars(power);
    FreeConcat(CoefficientText(c, i), "x^", Decimal(power), ' ');
  }

  /** The first 'x' after a text without one is found past that text. */
  lemma {:induction false} FindXAfter(a: string, b: string)
    requires Free(a, 'x') && |b| > 0 && b[0] == 'x'
    ensures FindX(a + b) == |a|
    decreases |a|
  {
    if a != [] {
      assert (a + b)[1..] == a[1..] + b;
      FindXAfter(a[1..], b);
    } else {
      assert a + b == b;
    }
  }

  /** The reader splits a token at its first 'x' and reads both halves in base 10. */
  lemma ReadTermOf(ct: string, pt: string, c: int, power: int)
    requires Free(ct, 'x')
    requires Radix.Convert(ct, 10) == Ok(c) && Radix.Convert(pt, 10) == Ok(power)
    ensures ReadTerm(ct + "x^" + pt) == Some(Monomial(c, power))
  {
    var token := ct + "x^" + pt;
    assert token[|ct| + 1] == '^';
    assert token == ct + ("x^" + pt);
    FindXAfter(ct, "x^" + pt);
    assert token[..|ct|] == ct;
    assert token[|ct| + 2..] == pt;
  }

  /** A token reads back as its coefficient and power. */
  lemma ReadToken(c: int, i: nat, power: int)
    ensures ReadTerm(Token(c, i, power)) == Some(Monomial(c, power))
  {
    CoefficientChars(c, i);
    CoefficientReadsBack(c, i);
    Radix.RenderRoundTrip(power, 10);
    ReadTermOf(CoefficientText(c, i), Decimal(power), c, power);
  }

  /** A text of tokens, each followed by a blank, is empty or ends in a blank. */
  lemma JoinEndsInBlank(ts: seq<string>)
    ensures |Join(ts)| == 0 || Join(ts)[|Join(ts)| - 1] == ' '
  {
  }

  /** After a blank-terminated text, a token without blanks starts where the text ends. */
  lemma {:induction false} TokenStartAfter(front: string, token: string)
    requires |front| == 0 || front[|front| - 1] == ' '
    requires forall k :: 0 <= k < |token| ==> token[k] != ' '
    ensures TokenStart(front + token) == |front|
    decreases |token|
  {
    if token != [] {
      var s := front + token;
      assert s[..|s| - 1] == front + token[..|token| - 1];
      TokenStartAfter(front, token[..|token| - 1]);
    } else {
      assert front + token == front;
    }
  }

  /** One more blank-terminated token reads back as one more term. */
  lemma ReadTermsStep(front: string, token: string, ms: seq<Monomial>, m: Monomial)
    requires |front| == 0 || front[|front| - 1] == ' '
    requires Free(token, ' ')
    requires ReadTerms(front) == Some(ms) && ReadTerm(token) == Some(m)
    ensures ReadTerms(front + token + " ") == Some(ms + [m])
  {
    var s := front + token + " ";
    assert s[..|s| - 1] == front + token;
    TokenStartAfter(front, token);
    assert (front + token)[..|front|] == front;
    assert (front + token)[|front|..] == token;
  }

  /** Each token is blank-free and reads back as the matching term. */
  predicate ReadsAs(ts: seq<string>, ms: seq<Monomial>) {
    |ts| == |ms| && forall k :: 0 <= k < |ts| ==> Free(ts[k], ' ') && ReadTerm(ts[k]) == Some(ms[k])
  }

  lemma ReadsAsAppend(ts: seq<string>, ms: seq<Monomial>, t: string, m: Monomial)
    requires ReadsAs(ts, ms) && Free(t, ' ') && ReadTerm(t) == Some(m)
    ensures ReadsAs(ts + [t], ms + [m])
  {
    forall k | 0 <= k < |ts| + 1
      ensures Free((ts + [t])[k], ' ') && ReadTerm((ts + [t])[k]) == Some((ms + [m])[k])
    {
      if k < |ts| {
        assert (ts + [t])[k] == ts[k] && (ms + [m])[k] == ms[k];
      }
    }
  }

  lemma ReadsAsPrefix(ts: seq<string>, ms: seq<Monomial>)
    requires ReadsAs(ts, ms) && |ts| > 0
    ensures ReadsAs(ts[..|ts| - 1], ms[..|ms| - 1])
  {
  }

  /** Blank-free tokens joined by blanks read back token by token. */
  lemma {:induction false} ReadJoin(ts: seq<string>, ms: seq<Monomial>)
    requires ReadsAs(ts, ms)
    ensures ReadTerms(Join(ts)) == Some(ms)
    decreases |ts|
  {
    if ts != [] {
      var n := |ts|;
      ReadsAsPrefix(ts, ms);
      ReadJoin(ts[..n - 1], ms[..n - 1]);
      JoinEndsInBlank(ts[..n - 1]);
      ReadTermsStep(Join(ts[..n - 1]), ts[n - 1], ms[..n - 1], ms[n - 1]);
      Sequences.SplitLast(ms);
    }
  }

  /** Appending the token of one more slot appends its term to what the tokens read as. */
  lemma ReadsAsExtend(ts: seq<string>, ms: seq<Monomial>, c: int, i: nat, power: int,
                      ts': seq<string>, ms': seq<Monomial>)
    requires ReadsAs(ts, ms)
    requires ts' == ts + (if c == 0 then [] else [Token(c, i, power)])
    requires ms' == ms + (if c == 0 then [] else [Monomial(c, power)])
    ensures ReadsAs(ts', ms')
  {
    if c != 0 {
      TokenHasNoBlank(c, i, power);
      ReadToken(c, i, power);
      ReadsAsAppend(ts, ms, Token(c, i, power), Monomial(c, power));
    } else {
      Sequences.AppendEmpty(ts);
      Sequences.AppendEmpty(ms);
    }
  }

  lemma TokensStep(coeffs: seq<int>, n: nat)
    requires 0 < n <= |coeffs|
    ensures var c := coeffs[n - 1];
      Tokens(coeffs, n) == Tokens(coeffs, n - 1) + (if c == 0 then [] else [Token(c, n - 1, |coeffs| - n)]) &&
      NonzeroTerms(coeffs, n) == NonzeroTerms(coeffs, n - 1) + (if c == 0 then [] else [Monomial(c, |coeffs| - n)])
  {
  }

  /** Each token of the printed line is blank-free and reads back as its slot's term. */
  lemma {:induction false} TokensRead(coeffs: seq<int>, n: nat)
    requires n <= |coeffs|
    ensures ReadsAs(Tokens(coeffs, n), NonzeroTerms(coeffs, n))
  {
    if n > 0 {
      TokensStep(coeffs, n);
      TokensRead(coeffs, n - 1);
      ReadsAsExtend(Tokens(coeffs, n - 1), NonzeroTerms(coeffs, n - 1), coeffs[n - 1], n - 1, |coeffs| - n,
                    Tokens(coeffs, n), NonzeroTerms(coeffs, n));
    }
  }

  /** The printed line reads back as the nonzero terms of the polynomial. */
  lemma LineRoundTrip(coeffs: seq<int>)
    ensures ReadLine(Line(coeffs)) == Some(NonzeroTerms(coeffs, |coeffs|))
  {
    var line := Line(coeffs);
    var ts := Tokens(coeffs, |coeffs|);
    assert line[..|Prefix|] == Prefix;
    assert line[|Prefix|..] == Join(ts);
    TokensRead(coeffs, |coeffs|);
    ReadJoin(ts, NonzeroTerms(coeffs, |coeffs|));
  }

  /** Every listed power is one of the first `n` slots' powers. */
  lemma {:induction false} PowersOfPrefix(coeffs: seq<int>, n: nat, power: int)
    requires n <= |coeffs| && power < |coeffs| - n
    ensures CoefficientOf(NonzeroTerms(coeffs, n), power) == 0
  {
    if n > 0 {
      var ms := NonzeroTerms(coeffs, n);
      var front := NonzeroTerms(coeffs, n - 1);
      PowersOfPrefix(coeffs, n - 1, power);
      if coeffs[n - 1] != 0 {
        assert ms[..|ms| - 1] == front;
      } else {
        assert ms == front;
      }
    }
  }

  /** The terms hold, for every slot, its coefficient at its power. */
  lemma {:induction false} CoefficientOfSlot(coeffs: seq<int>, n: nat, i: nat)
    requires i < n <= |coeffs|
    ensures CoefficientOf(NonzeroTerms(coeffs, n), |coeffs| - 1 - i) == coeffs[i]
  {
    var ms := NonzeroTerms(coeffs, n);
    var front := NonzeroTerms(coeffs, n - 1);
    if coeffs[n - 1] != 0 {
      assert ms[..|ms| - 1] == front;
    } else {
      assert ms == front;
    }
    if i < n - 1 {
      CoefficientOfSlot(coeffs, n - 1, i);
    } else if coeffs[i] == 0 {
      PowersOfPrefix(coeffs, n - 1, |coeffs| - 1 - i);
    }
  }

  /** With a nonzero leading coefficient, the first printed term carries the degree. */
  lemma {:induction false} LeadingTerm(coeffs: seq<int>, n: nat)
    requires 0 < n <= |coeffs| && coeffs[0] != 0
    ensures |NonzeroTerms(coeffs, n)| > 0
    ensures NonzeroTerms(coeffs, n)[0] == Monomial(coeffs[0], |coeffs| - 1)
  {
    if n > 1 {
      LeadingTerm(coeffs, n - 1);
    } else {
      assert NonzeroTerms(coeffs, 0) == [];
    }
  }

  /** The nonzero terms determine a polynomial whose leading coefficient is not zero. */
  lemma TermsDeterminePolynomial(p: seq<int>, q: seq<int>)
    requires |p| > 0 && p[0] != 0 && |q| > 0 && q[0] != 0
    requires NonzeroTerms(p, |p|) == NonzeroTerms(q, |q|)
    ensures p == q
  {
    SameDegree(p, q);
    forall i | 0 <= i < |p|
      ensures p[i] == q[i]
    {
      CoefficientOfSlot(p, |p|, i);
      CoefficientOfSlot(q, |q|, i);
    }
  }

  lemma SameDegree(p: seq<int>, q: seq<int>)
    requires |p| > 0 && p[0] != 0 && |q| > 0 && q[0] != 0
    requires NonzeroTerms(p, |p|) == NonzeroTerms(q, |q|)
    ensures |p| == |q|
  {
    LeadingTerm(p, |p|);
    LeadingTerm(q, |q|);
  }

  /** Two polynomials with nonzero leading coefficients that print alike are equal. */
  lemma LineDeterminesPolynomial(p: seq<int>, q: seq<int>)
    requires |p| > 0 && p[0] != 0 && |q| > 0 && q[0] != 0
    requires Line(p) == Line(q)
    ensures p == q
  {
    LineRoundTrip(p);
    LineRoundTrip(q);
    TermsDeterminePolynomial(p, q);
  }

  /** The all-zero polynomial, and only it, prints as the bare prefix. */
  lemma {:induction false} NoTokens(coeffs: seq<int>, n: nat)
    requires n <= |coeffs|
    ensures |Tokens(coeffs, n)| == 0 <==> forall i :: 0 <= i < n ==> coeffs[i] == 0
  {
    if n > 0 {
      NoTokens(coeffs, n - 1);
    }
  }

  lemma {:induction false} JoinLength(ts: seq<string>)
    ensures |Join(ts)| >= |ts|
    decreases |ts|
  {
    if ts != [] {
      JoinLength(ts[..|ts| - 1]);
    }
  }

  lemma BlankLine(coeffs: seq<int>)
    ensures Line(coeffs) == Prefix <==> forall i :: 0 <= i < |coeffs| ==> coeffs[i] == 0
  {
    NoTokens(coeffs, |coeffs|);
    JoinLength(Tokens(coeffs, |coeffs|));
    assert Prefix + [] == Prefix;
  }

  lemma DecimalExamples()
    ensures Decimal(0) == "0" && Decimal(1) == "1" && Decimal(2) == "2"
    ensures Decimal(-11) == "-11" && Decimal(28) == "28"
  {
    assert Radix.NatDigits(1, 10) == "1";
    assert Radix.NatDigits(11, 10) == "11";
    assert Radix.NatDigits(28, 10) == "28";
  }

  lemma TokensExample()
    ensures Tokens([1, -11, 28], 3) == ["1x^2", "-11x^1", "+28x^0"]
  {
    var p := [1, -11, 28];
    DecimalExamples();
    assert Token(1, 0, 2) == "1x^2";
    assert Token(-11, 1, 1) == "-11x^1";
    assert Token(28, 2, 0) == "+28x^0";
    assert Tokens(p, 1) == ["1x^2"];
    assert Tokens(p, 2) == ["1x^2", "-11x^1"];
  }

  lemma JoinExample()
    ensures Join(["1x^2", "-11x^1", "+28x^0"]) == "1x^2 -11x^1 +28x^0 "
  {
    var ts := ["1x^2", "-11x^1", "+28x^0"];
    assert ts[..2] == ["1x^2", "-11x^1"] && ts[..2][..1] == ["1x^2"] && ts[..2][..1][..0] == [];
    assert Join(ts[..1]) == "1x^2 ";
    assert Join(ts[..2]) == "1x^2 -11x^1 ";
  }

  /** The polynomial with roots 4 and 7, as the solver prints it. */
  lemma LineExample()
    ensures Line([1, -11, 28]) == "P(x) = 1x^2 -11x^1 +28x^0 "
  {
    var p := [1, -11, 28];
    TokensExample();
    JoinExample();
    assert Line(p) == Prefix + Join(Tokens(p, 3));
    PrefixExample();
  }

  /** The sample tokens after the prefix, stated on its own to keep the proof of `LineExample` small. */
  lemma PrefixExample()
    ensures Prefix + "1x^2 -11x^1 +28x^0 " == "P(x) = 1x^2 -11x^1 +28x^0 "
  {
  }
}
