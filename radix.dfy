/**
 * Exact conversion between digit strings and unbounded integers.
 *
 * `Convert` is the meaning of `new BigInteger(value, radix)`, which the solver
 * uses to turn every root from its stated base into an integer: an optional
 * leading sign, then one or more ASCII digits or letters (either case) whose
 * values are all below the radix, folded as `acc * radix + digit`.
 * `Render` is `toString(radix)` of the same class (lower-case letters, a `-`
 * for negative values, no leading zeros), and `ParseInt` is
 * `Integer.parseInt`, a base-10 conversion that must also fit in 32 bits.
 */
module Radix {
  import opened Outcomes

  const MinRadix := 2
  const MaxRadix := 36

  const IntMin := -0x8000_0000
  const IntMax := 0x7fff_ffff

  /** Why a string is not a number (a `NumberFormatException`). */
  datatype ParseError =
    | RadixOutOfRange   // radix outside [2, 36]
    | NoDigits          // empty, or a sign with nothing after it
    | IllegalDigit      // a character that is not a digit of the radix
    | IntOverflow       // a base-10 integer outside the 32-bit range

  predicate IsAsciiAlnum(c: char) {
    '0' <= c <= '9' || 'a' <= c <= 'z' || 'A' <= c <= 'Z'
  }

  /** The digit value of `0-9`, then `a-z` or `A-Z` as 10 to 35. */
  function DigitValue(c: char): (d: nat)
    requires IsAsciiAlnum(c)
    ensures d < 36
    ensures d < 10 <==> '0' <= c <= '9'
  {
    if c <= '9' then c as int - '0' as int
    else if c <= 'Z' then c as int - 'A' as int + 10
    else c as int - 'a' as int + 10
  }

  predicate ValidDigit(c: char, radix: int) {
    IsAsciiAlnum(c) && DigitValue(c) < radix
  }

  predicate AllDigits(ds: string, radix: int) {
    forall i :: 0 <= i < |ds| ==> ValidDigit(ds[i], radix)
  }

  /** The character `toString` writes for digit `d`: `0-9`, then lower-case letters. */
  function DigitChar(d: nat): (c: char)
    requires d < 36
    ensures IsAsciiAlnum(c) && DigitValue(c) == d
    ensures !('A' <= c <= 'Z')
  {
    if d < 10 then ('0' as int + d) as char else ('a' as int + d - 10) as char
  }

  /** Horner's rule over the digits, most significant first. */
  function Horner(ds: string, radix: int): int
    requires AllDigits(ds, radix)
  {
    if ds == [] then 0
    else Horner(ds[..|ds| - 1], radix) * radix + DigitValue(ds[|ds| - 1])
  }

  /** Length of the optional leading sign. */
  function SignLength(value: string): (n: nat)
    ensures n <= |value|
  {
    if |value| > 0 && (value[0] == '-' || value[0] == '+') then 1 else 0
  }

  /** `new BigInteger(value, radix)`. */
  function Convert(value: string, radix: int): (r: Result<int, ParseError>)
    ensures r == Err(RadixOutOfRange) <==> !(MinRadix <= radix <= MaxRadix)
    ensures r == Err(NoDigits) <==> MinRadix <= radix <= MaxRadix && |value| == SignLength(value)
  {
    if radix < MinRadix || radix > MaxRadix then Err(RadixOutOfRange)
    else
      var digits := value[SignLength(value)..];
      if digits == [] then Err(NoDigits)
      else if !AllDigits(digits, radix) then Err(IllegalDigit)
      else if value[0] == '-' then Ok(-Horner(digits, radix))
      else Ok(Horner(digits, radix))
  }

  /** `Integer.parseInt(s)`: base 10, and the value must fit in an `int`. */
  function ParseInt(s: string): (r: Result<int, ParseError>)
    ensures r.Ok? ==> IntMin <= r.value <= IntMax
    ensures r.Ok? <==> Convert(s, 10).Ok? && IntMin <= Convert(s, 10).value <= IntMax
  {
    match Convert(s, 10)
    case Err(e) => Err(e)
    case Ok(v) => if IntMin <= v <= IntMax then Ok(v) else Err(IntOverflow)
  }

  /** The digits of a natural number, most significant first, without leading zeros. */
  function NatDigits(n: nat, radix: int): (s: string)
    requires MinRadix <= radix <= MaxRadix
    ensures |s| > 0 && AllDigits(s, radix)
    decreases n
  {
    if n < radix then [DigitChar(n)]
    else
      DivMod(n, radix);
      var front, last := NatDigits(n / radix, radix), DigitChar(n % radix);
      assert ValidDigit(last, radix);
      front + [last]
  }

  /** `BigInteger.toString(radix)` (and `Integer.toString` for radix 10). */
  function Render(v: int, radix: int): (s: string)
    requires MinRadix <= radix <= MaxRadix
    ensures |s| > 0
    ensures s[0] == '-' <==> v < 0
  {
    if v < 0 then "-" + NatDigits(-v, radix) else NatDigits(v, radix)
  }

  /** What `Render` produces: the one spelling of each integer in a radix. */
  predicate Canonical(s: string, radix: int) {
    var ds := CanonicalDigits(s);
    |ds| > 0 && AllDigits(ds, radix) &&
    (forall i :: 0 <= i < |ds| ==> !('A' <= ds[i] <= 'Z')) &&
    (ds[0] == '0' ==> s == "0")
  }

  function LowerChar(c: char): char {
    if 'A' <= c <= 'Z' then (c as int - 'A' as int + 'a' as int) as char else c
  }

  function Lower(s: string): (t: string)
    ensures |t| == |s|
  {
    seq(|s|, i requires 0 <= i < |s| => LowerChar(s[i]))
  }

  // ---------------------------------------------------------------------------
  // Lemmas

  lemma DivMod(n: nat, radix: int)
    requires MinRadix <= radix
    ensures 0 <= n / radix && 0 <= n % radix < radix
    ensures n == n / radix * radix + n % radix
    ensures n >= radix ==> 0 < n / radix < n
  {
  }

  lemma MulAtLeast(a: int, b: nat)
    requires a >= 1
    ensures a * b >= b
  {
    assert a * b == (a - 1) * b + b;
  }

  lemma DivModUnique(h: nat, d: nat, radix: int)
    requires MinRadix <= radix && d < radix
    ensures (h * radix + d) / radix == h && (h * radix + d) % radix == d
  {
    var n := h * radix + d;
    DivMod(n, radix);
    var q, r := n / radix, n % radix;
    assert (q - h) * radix == d - r;
    if q > h {
      MulAtLeast(q - h, radix);
    } else if q < h {
      MulAtLeast(h - q, radix);
    }
  }

  lemma {:induction false} HornerNatDigits(n: nat, radix: int)
    requires MinRadix <= radix <= MaxRadix
    ensures Horner(NatDigits(n, radix), radix) == n
    decreases n
  {
    if n >= radix {
      var q, d := n / radix, n % radix;
      DivMod(n, radix);
      var s := NatDigits(n, radix);
      var front := NatDigits(q, radix);
      assert s == front + [DigitChar(d)];
      assert s[..|s| - 1] == front;
      HornerNatDigits(q, radix);
      assert Horner(s, radix) == q * radix + d;
    }
  }

  /** A character after the sign that is not a digit of the radix is an error, never a truncated value. */
  lemma ConvertRejects(value: string, radix: int, i: nat)
    requires SignLength(value) <= i < |value| && !ValidDigit(value[i], radix)
    ensures Convert(value, radix).Err?
  {
    var k := SignLength(value);
    if MinRadix <= radix <= MaxRadix {
      assert value[k..][i - k] == value[i];
    }
  }

  /** Reading back what `toString(radix)` writes gives the same integer. */
  lemma RenderRoundTrip(v: int, radix: int)
    requires MinRadix <= radix <= MaxRadix
    ensures Convert(Render(v, radix), radix) == Ok(v)
  {
    var s := Render(v, radix);
    if v < 0 {
      assert s[SignLength(s)..] == NatDigits(-v, radix);
      HornerNatDigits(-v, radix);
    } else {
      HornerNatDigits(v, radix);
    }
  }

  /** A leading '+' before the digits is accepted and changes nothing. */
  lemma PlusRoundTrip(v: nat, radix: int)
    requires MinRadix <= radix <= MaxRadix
    ensures Convert("+" + Render(v, radix), radix) == Ok(v)
  {
    var s := "+" + Render(v, radix);
    assert s[SignLength(s)..] == NatDigits(v, radix);
    HornerNatDigits(v, radix);
  }

  lemma {:induction false} HornerPositive(ds: string, radix: int)
    requires MinRadix <= radix <= MaxRadix
    requires |ds| > 0 && AllDigits(ds, radix) && ds[0] != '0'
    ensures Horner(ds, radix) > 0
    decreases |ds|
  {
    var front := ds[..|ds| - 1];
    if |ds| > 1 {
      assert front[0] == ds[0];
      HornerPositive(front, radix);
      MulAtLeast(Horner(front, radix), radix);
    } else {
      assert front == [];
      assert DigitValue(ds[0]) > 0;
    }
  }

  lemma {:induction false} NatDigitsHorner(ds: string, radix: int)
    requires MinRadix <= radix <= MaxRadix
    requires |ds| > 0 && AllDigits(ds, radix)
    requires forall i :: 0 <= i < |ds| ==> !('A' <= ds[i] <= 'Z')
    requires ds[0] == '0' ==> |ds| == 1
    ensures Horner(ds, radix) >= 0
    ensures NatDigits(Horner(ds, radix), radix) == ds
    decreases |ds|
  {
    var last := ds[|ds| - 1];
    var d := DigitValue(last);
    assert DigitChar(d) == last;
    if |ds| == 1 {
      assert ds[..0] == [];
      assert ds == [last];
    } else {
      var front := ds[..|ds| - 1];
      NatDigitsHorner(front, radix);
      HornerPositive(front, radix);
      var h := Horner(front, radix);
      var n := h * radix + d;
      assert Horner(ds, radix) == n;
      DivModUnique(h, d, radix);
      MulAtLeast(h, radix);
      assert n >= radix;
      assert NatDigits(n, radix) == NatDigits(h, radix) + [DigitChar(d)];
      assert ds == front + [last];
    }
  }

  /** The digits of a canonical spelling, after its optional minus sign. */
  function CanonicalDigits(s: string): string {
    if |s| > 0 && s[0] == '-' then s[1..] else s
  }

  lemma CanonicalConvert(s: string, radix: int)
    requires MinRadix <= radix <= MaxRadix
    requires Canonical(s, radix)
    ensures AllDigits(CanonicalDigits(s), radix)
    ensures Convert(s, radix) ==
      if s[0] == '-' then Ok(-Horner(CanonicalDigits(s), radix)) else Ok(Horner(CanonicalDigits(s), radix))
  {
    var ds := CanonicalDigits(s);
    assert ValidDigit(ds[0], radix);
    assert s[SignLength(s)..] == ds;
  }

  /** Every canonical spelling is what `toString(radix)` writes for its value. */
  lemma CanonicalRoundTrip(s: string, radix: int)
    requires MinRadix <= radix <= MaxRadix
    requires Canonical(s, radix)
    ensures Convert(s, radix).Ok?
    ensures Render(Convert(s, radix).value, radix) == s
  {
    var ds := CanonicalDigits(s);
    CanonicalConvert(s, radix);
    NatDigitsHorner(ds, radix);
    if s[0] == '-' {
      HornerPositive(ds, radix);
      assert s == "-" + ds;
    }
  }

  /** The digits after the sign with their leading zeros dropped, keeping one digit. */
  function StripZeros(ds: string): (z: string)
    ensures |z| <= |ds|
  {
    if |ds| > 1 && ds[0] == '0' then StripZeros(ds[1..]) else ds
  }

  /**
   * The one spelling `toString(radix)` gives the value of `s`: no '+', no
   * leading zeros, lower-case letters, and no sign on zero.
   */
  function Canonicalize(s: string): string {
    var ds := Lower(StripZeros(s[SignLength(s)..]));
    if |s| > 0 && s[0] == '-' && ds != "0" then "-" + ds else ds
  }

  /** A leading zero digit does not change the value. */
  lemma {:induction false} HornerLeadingZero(ds: string, radix: int)
    requires MinRadix <= radix <= MaxRadix && AllDigits(ds, radix)
    ensures AllDigits("0" + ds, radix)
    ensures Horner("0" + ds, radix) == Horner(ds, radix)
    decreases |ds|
  {
    var zs := "0" + ds;
    assert ValidDigit(zs[0], radix);
    if ds == [] {
      assert zs[..0] == [];
    } else {
      var n := |ds|;
      HornerLeadingZero(ds[..n - 1], radix);
      assert zs[..n] == "0" + ds[..n - 1];
      assert zs[n] == ds[n - 1];
    }
  }

  lemma {:induction false} StripZerosValue(ds: string, radix: int)
    requires MinRadix <= radix <= MaxRadix
    requires |ds| > 0 && AllDigits(ds, radix)
    ensures |StripZeros(ds)| > 0 && AllDigits(StripZeros(ds), radix)
    ensures StripZeros(ds)[0] == '0' ==> |StripZeros(ds)| == 1
    ensures Horner(StripZeros(ds), radix) == Horner(ds, radix)
    decreases |ds|
  {
    if |ds| > 1 && ds[0] == '0' {
      var rest := ds[1..];
      StripZerosValue(rest, radix);
      HornerLeadingZero(rest, radix);
      assert ds == "0" + rest;
    }
  }

  lemma LowerCanonical(z: string, radix: int)
    requires |z| > 0 && AllDigits(z, radix)
    ensures Lower(z)[0] == '0' <==> z[0] == '0'
    ensures forall i :: 0 <= i < |z| ==> !('A' <= Lower(z)[i] <= 'Z')
  {
  }

  /**
   * Whatever spelling `new BigInteger(s, radix)` accepts, `toString(radix)`
   * of its value is the canonical spelling of `s`: "+0012" comes back as
   * "12", "-0" as "0" and "FF" as "ff".
   */
  lemma ConvertRenderCanonical(s: string, radix: int)
    ensures Convert(s, radix).Ok? ==> Render(Convert(s, radix).value, radix) == Canonicalize(s)
  {
    if Convert(s, radix).Ok? {
      var ds := s[SignLength(s)..];
      var z := StripZeros(ds);
      StripZerosValue(ds, radix);
      HornerLower(z, radix);
      LowerCanonical(z, radix);
      var low := Lower(z);
      NatDigitsHorner(low, radix);
      if low[0] == '0' {
        assert low == "0";
      } else {
        HornerPositive(low, radix);
      }
    }
  }

  lemma {:induction false} HornerLower(ds: string, radix: int)
    requires AllDigits(ds, radix)
    ensures AllDigits(Lower(ds), radix)
    ensures Horner(Lower(ds), radix) == Horner(ds, radix)
    decreases |ds|
  {
    if ds != [] {
      assert Lower(ds)[..|ds| - 1] == Lower(ds[..|ds| - 1]);
      HornerLower(ds[..|ds| - 1], radix);
    }
  }

  /** Letters are digits in either case: lower-casing the input changes nothing. */
  lemma CaseInsensitive(value: string, radix: int)
    ensures Convert(Lower(value), radix) == Convert(value, radix)
  {
    var k := SignLength(value);
    var low := Lower(value);
    assert SignLength(low) == k;
    var ds := value[k..];
    assert low[k..] == Lower(ds);
    if MinRadix <= radix <= MaxRadix && ds != [] {
      if AllDigits(ds, radix) {
        HornerLower(ds, radix);
      } else {
        var i :| 0 <= i < |ds| && !ValidDigit(ds[i], radix);
        assert !ValidDigit(Lower(ds)[i], radix);
      }
    }
  }

  lemma ConvertExamples()
    ensures Convert("111", 2) == Ok(7)
    ensures Convert("213", 4) == Ok(39)
    ensures Convert("-fF", 16) == Ok(-255)
    ensures Convert("+z", 36) == Ok(35)
    ensures Convert("2", 2) == Err(IllegalDigit)
    ensures Convert("-", 10) == Err(NoDigits)
    ensures Convert("7", 37) == Err(RadixOutOfRange)
  {
    assert "111"[..2] == "11" && "11"[..1] == "1" && "1"[..0] == "";
    assert "213"[..2] == "21" && "21"[..1] == "2" && "2"[..0] == "";
    assert "-fF"[1..] == "fF" && "fF"[..1] == "f" && "f"[..0] == "";
    assert "+z"[1..] == "z" && "z"[..0] == "";
    assert !ValidDigit("2"[0], 2);
  }

  lemma CanonicalizeExamples()
    ensures Canonicalize("+0012") == "12"
    ensures Canonicalize("-00") == "0"
    ensures Canonicalize("-0Ff") == "-ff"
  {
  }
}
