/**
 * The monic polynomial with given integer roots.
 *
 * A polynomial of degree `d` is its coefficient vector of length `d + 1`,
 * highest power first: slot `i` holds the coefficient of `x^(d - i)`.
 * `Expand` is the specification: the product of the linear factors
 * `(x - r)`, taken one root at a time in the given order. `GeneratePolynomial`
 * is the solver's in-place algorithm over an array, proved to compute it.
 * The lemmas state what the result means: every root is a zero of it, its
 * coefficients are the signed elementary symmetric sums of the roots (Vieta's
 * formulas), and it does not depend on the order of the roots.
 */
module Expansion {
  import Sequences

  /** Coefficient `i` of `p`, and 0 outside the vector. */
  function At(p: seq<int>, i: int): int {
    if 0 <= i < |p| then p[i] else 0
  }

  /** `p * (x - r)`: the new slot `i` is the old slot `i` minus `r` times the old slot `i - 1`. */
  function MulLinear(p: seq<int>, r: int): (q: seq<int>)
    ensures |q| == |p| + 1
    ensures |p| > 0 ==> q[0] == p[0]
  {
    seq(|p| + 1, i => At(p, i) - At(p, i - 1) * r)
  }

  lemma AtMulLinear(p: seq<int>, r: int, i: int)
    ensures At(MulLinear(p, r), i) == At(p, i) - At(p, i - 1) * r
  {
  }

  /** The coefficients of `(x - roots[0]) * ... * (x - roots[|roots| - 1])`. */
  function Expand(roots: seq<int>): (p: seq<int>)
    ensures |p| == |roots| + 1
    ensures p[0] == 1
  {
    if roots == [] then [1]
    else MulLinear(Expand(roots[..|roots| - 1]), roots[|roots| - 1])
  }

  /**
   * Generates the coefficients in place: a vector sized for the final degree
   * starts as the constant 1, and every root multiplies it by `(x - root)`,
   * updating slots from the highest index down so that each slot still reads
   * the old value of the slot below it.
   */
  method GeneratePolynomial(roots: array<int>) returns (coeffs: array<int>)
    ensures fresh(coeffs)
    ensures coeffs[..] == Expand(roots[..])
  {
    var degree := roots.Length;
    coeffs := new int[degree + 1](_ => 0);
    coeffs[0] := 1;
    assert coeffs[..1] == Expand(roots[..0]);
    for j := 0 to degree
      invariant coeffs[..j + 1] == Expand(roots[..j])
      invariant forall k :: j + 1 <= k <= degree ==> coeffs[k] == 0
    {
      var root := roots[j];
      ghost var prev := coeffs[..];
      var i := degree;
      while i >= 1
        invariant 0 <= i <= degree
        invariant forall k :: 0 <= k <= i ==> coeffs[k] == prev[k]
        invariant forall k :: i < k <= degree ==> coeffs[k] == prev[k] - prev[k - 1] * root
      {
        coeffs[i] := coeffs[i] - coeffs[i - 1] * root;
        i := i - 1;
      }
      Pass(roots[..], j, prev, coeffs[..]);
    }
    assert roots[..degree] == roots[..];
  }

  /** One pass of the outer loop takes the expansion of `j` roots to that of `j + 1`. */
  lemma Pass(roots: seq<int>, j: nat, prev: seq<int>, cur: seq<int>)
    requires j < |roots| && |prev| == |roots| + 1
    requires prev[..j + 1] == Expand(roots[..j])
    requires forall k :: j + 1 <= k < |prev| ==> prev[k] == 0
    requires |cur| == |prev| && cur[0] == prev[0]
    requires forall k :: 0 < k < |cur| ==> cur[k] == prev[k] - prev[k - 1] * roots[j]
    ensures cur[..j + 2] == Expand(roots[..j + 1])
    ensures forall k :: j + 2 <= k < |cur| ==> cur[k] == 0
  {
    assert roots[..j + 1] == roots[..j] + [roots[j]];
    ExpandSnoc(roots[..j], roots[j]);
    PassResult(prev, cur, j, roots[j]);
  }

  /**
   * One pass of the outer loop over a vector whose slots past `j` are zero
   * multiplies its first `j + 1` slots by `(x - root)` and keeps the rest zero.
   */
  lemma PassResult(prev: seq<int>, cur: seq<int>, j: nat, root: int)
    requires |cur| == |prev| && j + 1 < |prev|
    requires forall k :: j + 1 <= k < |prev| ==> prev[k] == 0
    requires cur[0] == prev[0]
    requires forall k :: 0 < k < |cur| ==> cur[k] == prev[k] - prev[k - 1] * root
    ensures cur[..j + 2] == MulLinear(prev[..j + 1], root)
    ensures forall k :: j + 2 <= k < |cur| ==> cur[k] == 0
  {
    var p := prev[..j + 1];
    forall k | 0 <= k < j + 2
      ensures cur[k] == MulLinear(p, root)[k]
    {
      AtMulLinear(p, root, k);
    }
    assert cur[..j + 2] == MulLinear(p, root);
    forall k | j + 2 <= k < |cur|
      ensures cur[k] == 0
    {
      assert prev[k] == 0 && prev[k - 1] == 0;
    }
  }

  // ---------------------------------------------------------------------------
  // Evaluation: the roots are zeros of the result

  function Pow(x: int, n: nat): int {
    if n == 0 then 1 else x * Pow(x, n - 1)
  }

  /** The value at `x`: the sum of `p[i] * x^(|p| - 1 - i)`. */
  function Eval(p: seq<int>, x: int): int {
    if p == [] then 0 else p[0] * Pow(x, |p| - 1) + Eval(p[1..], x)
  }

  /** `(x - roots[0]) * ... * (x - roots[|roots| - 1])` as a number. */
  function Product(roots: seq<int>, x: int): int {
    if roots == [] then 1 else Product(roots[..|roots| - 1], x) * (x - roots[|roots| - 1])
  }

  /** Pointwise `a - r * b`, over vectors of one length. */
  function Combine(a: seq<int>, b: seq<int>, r: int): (c: seq<int>)
    requires |a| == |b|
    ensures |c| == |a|
  {
    seq(|a|, i requires 0 <= i < |a| => a[i] - r * b[i])
  }

  lemma ShiftArith(a: int, w: int, e: int, x: int)
    ensures a * (x * w) + e * x == (a * w + e) * x
  {
    assert a * (x * w) == (a * w) * x;
  }

  lemma {:induction false} EvalShift(p: seq<int>, x: int)
    ensures Eval(p + [0], x) == Eval(p, x) * x
    decreases |p|
  {
    if p != [] {
      var n := |p|;
      var q := p + [0];
      assert q[0] == p[0] && |q| - 1 == n;
      assert q[1..] == p[1..] + [0];
      EvalShift(p[1..], x);
      assert Eval(q, x) == p[0] * Pow(x, n) + Eval(p[1..], x) * x;
      assert Pow(x, n) == x * Pow(x, n - 1);
      ShiftArith(p[0], Pow(x, n - 1), Eval(p[1..], x), x);
    } else {
      assert [0][1..] == [];
    }
  }

  lemma {:induction false} EvalCombine(a: seq<int>, b: seq<int>, r: int, x: int)
    requires |a| == |b|
    ensures Eval(Combine(a, b, r), x) == Eval(a, x) - r * Eval(b, x)
    decreases |a|
  {
    if a != [] {
      var c := Combine(a, b, r);
      var n := |a|;
      assert c[1..] == Combine(a[1..], b[1..], r);
      EvalCombine(a[1..], b[1..], r, x);
      var w := Pow(x, n - 1);
      calc {
        Eval(c, x);
        (a[0] - r * b[0]) * w + Eval(c[1..], x);
        (a[0] - r * b[0]) * w + Eval(a[1..], x) - r * Eval(b[1..], x);
        { assert (a[0] - r * b[0]) * w == a[0] * w - r * (b[0] * w); }
        a[0] * w + Eval(a[1..], x) - r * (b[0] * w + Eval(b[1..], x));
      }
    }
  }

  /** `p * (x - r)` is `p * x` less `r * p`, slot by slot. */
  lemma MulLinearIsCombine(p: seq<int>, r: int)
    ensures MulLinear(p, r) == Combine(p + [0], [0] + p, r)
  {
    var q := MulLinear(p, r);
    var c := Combine(p + [0], [0] + p, r);
    forall i | 0 <= i < |q|
      ensures q[i] == c[i]
    {
      AtMulLinear(p, r, i);
      assert (p + [0])[i] == At(p, i);
      assert ([0] + p)[i] == At(p, i - 1);
      assert c[i] == At(p, i) - r * At(p, i - 1);
    }
    assert q == c;
  }

  lemma EvalLeadingZero(p: seq<int>, x: int)
    ensures Eval([0] + p, x) == Eval(p, x)
  {
    assert ([0] + p)[1..] == p;
  }

  lemma EvalMulLinear(p: seq<int>, r: int, x: int)
    ensures Eval(MulLinear(p, r), x) == Eval(p, x) * (x - r)
  {
    MulLinearIsCombine(p, r);
    EvalCombine(p + [0], [0] + p, r, x);
    EvalShift(p, x);
    EvalLeadingZero(p, x);
    var e := Eval(p, x);
    assert e * x - r * e == e * (x - r);
  }

  /** The value of the expansion at any `x` is the product of the factors `x - r`. */
  lemma {:induction false} EvalExpand(roots: seq<int>, x: int)
    ensures Eval(Expand(roots), x) == Product(roots, x)
    decreases |roots|
  {
    if roots != [] {
      var n := |roots|;
      EvalExpand(roots[..n - 1], x);
      EvalMulLinear(Expand(roots[..n - 1]), roots[n - 1], x);
    } else {
      assert [1][1..] == [];
    }
  }

  lemma {:induction false} ProductVanishes(roots: seq<int>, t: nat)
    requires t < |roots|
    ensures Product(roots, roots[t]) == 0
    decreases |roots|
  {
    var n := |roots|;
    if t < n - 1 {
      ProductVanishes(roots[..n - 1], t);
    }
  }

  /** Every given root is a zero of the generated polynomial. */
  lemma RootsAreZeros(roots: seq<int>, t: nat)
    requires t < |roots|
    ensures Eval(Expand(roots), roots[t]) == 0
  {
    EvalExpand(roots, roots[t]);
    ProductVanishes(roots, t);
  }

  // ---------------------------------------------------------------------------
  // Vieta's formulas

  /**
   * The elementary symmetric sum of degree `k`: the sum, over all ways of
   * choosing `k` of the roots, of their product. A choice either leaves out
   * the first root or takes it.
   */
  function ElemSym(roots: seq<int>, k: nat): int
    decreases |roots|
  {
    if k == 0 then 1
    else if roots == [] then 0
    else ElemSym(roots[1..], k) + roots[0] * ElemSym(roots[1..], k - 1)
  }

  function Sign(i: nat): int {
    if i % 2 == 0 then 1 else -1
  }

  lemma {:induction false} ElemSymBeyond(roots: seq<int>, k: nat)
    requires k > |roots|
    ensures ElemSym(roots, k) == 0
    decreases |roots|
  {
    if roots != [] {
      ElemSymBeyond(roots[1..], k);
      ElemSymBeyond(roots[1..], k - 1);
    }
  }

  lemma ElemSymArith(e0: int, e1: int, e2: int, a: int, x: int)
    ensures (e0 + a * e1) + x * (e1 + a * e2) == (e0 + x * e1) + a * (e1 + x * e2)
  {
  }

  /** Choosing from `roots + [a]`: the last root is either left out or taken. */
  lemma {:induction false} ElemSymSnoc(roots: seq<int>, a: int, k: nat)
    requires k > 0
    ensures ElemSym(roots + [a], k) == ElemSym(roots, k) + a * ElemSym(roots, k - 1)
    decreases |roots|
  {
    if roots == [] {
      assert ([] + [a])[1..] == [];
      if k > 1 {
        ElemSymBeyond([], k - 1);
      }
    } else {
      var rest, x := roots[1..], roots[0];
      assert (roots + [a])[1..] == rest + [a];
      ElemSymSnoc(rest, a, k);
      var e0, e1 := ElemSym(rest, k), ElemSym(rest, k - 1);
      if k > 1 {
        ElemSymSnoc(rest, a, k - 1);
        var e2 := ElemSym(rest, k - 2);
        assert ElemSym(rest + [a], k - 1) == e1 + a * e2;
        ElemSymArith(e0, e1, e2, a, x);
      } else {
        assert ElemSym(rest + [a], 0) == 1 && ElemSym(rest, 0) == 1 && ElemSym(roots, 0) == 1;
      }
    }
  }

  /** Vieta's formulas: slot `i` is `(-1)^i` times the elementary symmetric sum of degree `i`. */
  lemma {:induction false} Vieta(roots: seq<int>, i: nat)
    requires i <= |roots|
    ensures Expand(roots)[i] == Sign(i) * ElemSym(roots, i)
    decreases |roots|
  {
    if roots != [] && i > 0 {
      var n := |roots|;
      var front, a := roots[..n - 1], roots[n - 1];
      var p := Expand(front);
      assert roots == front + [a];
      var sg := Sign(i);
      assert Sign(i - 1) == -sg;
      ElemSymSnoc(front, a, i);
      var e0, e1 := ElemSym(front, i), ElemSym(front, i - 1);
      Vieta(front, i - 1);
      assert At(p, i - 1) == -sg * e1;
      if i < n {
        Vieta(front, i);
      } else {
        ElemSymBeyond(front, i);
      }
      assert At(p, i) == sg * e0;
      AtMulLinear(p, a, i);
      SignedStep(sg, e0, e1, a);
    }
  }

  lemma SignedStep(sg: int, e0: int, e1: int, a: int)
    ensures sg * e0 - (-sg * e1) * a == sg * (e0 + a * e1)
  {
  }

  // ---------------------------------------------------------------------------
  // Independence from the order of the roots

  lemma MulLinearTwice(p: seq<int>, a: int, b: int, i: int)
    ensures At(MulLinear(MulLinear(p, a), b), i)
         == At(p, i) - At(p, i - 1) * (a + b) + At(p, i - 2) * (a * b)
  {
    var p0, p1, p2 := At(p, i), At(p, i - 1), At(p, i - 2);
    AtMulLinear(MulLinear(p, a), b, i);
    AtMulLinear(p, a, i);
    AtMulLinear(p, a, i - 1);
    TwoFactors(p0, p1, p2, a, b);
  }

  lemma TwoFactors(p0: int, p1: int, p2: int, a: int, b: int)
    ensures (p0 - p1 * a) - (p1 - p2 * a) * b == p0 - p1 * (a + b) + p2 * (a * b)
  {
    assert (p1 - p2 * a) * b == p1 * b - p2 * (a * b);
  }

  lemma MulLinearCommutes(p: seq<int>, a: int, b: int)
    ensures MulLinear(MulLinear(p, a), b) == MulLinear(MulLinear(p, b), a)
  {
    var ab, ba := MulLinear(MulLinear(p, a), b), MulLinear(MulLinear(p, b), a);
    forall i | 0 <= i < |ab|
      ensures ab[i] == ba[i]
    {
      MulLinearTwice(p, a, b, i);
      MulLinearTwice(p, b, a, i);
      assert a + b == b + a && a * b == b * a;
    }
  }

  /** Appending a root multiplies the expansion by its factor. */
  lemma ExpandSnoc(s: seq<int>, b: int)
    ensures Expand(s + [b]) == MulLinear(Expand(s), b)
  {
    assert (s + [b])[..|s|] == s;
  }

  /** A root in the middle of the list can be multiplied in last instead. */
  lemma {:induction false} ExpandMoveToEnd(u: seq<int>, a: int, v: seq<int>)
    ensures Expand(u + [a] + v) == MulLinear(Expand(u + v), a)
    decreases |v|
  {
    if v == [] {
      assert u + [a] + v == u + [a];
      assert u + v == u;
      ExpandSnoc(u, a);
    } else {
      var n := |v|;
      var w, b := v[..n - 1], v[n - 1];
      assert v == w + [b];
      Sequences.SnocInside(u + [a], w, b);
      Sequences.SnocInside(u, w, b);
      ExpandSnoc(u + [a] + w, b);
      ExpandSnoc(u + w, b);
      ExpandMoveToEnd(u, a, w);
      MulLinearCommutes(Expand(u + w), a, b);
    }
  }

  /** Taking the same root out of two permutations of each other leaves permutations. */
  lemma RemoveRoot(front: seq<int>, a: int, u: seq<int>, v: seq<int>)
    requires multiset(front + [a]) == multiset(u + [a] + v)
    ensures multiset(front) == multiset(u + v)
  {
    assert multiset(front + [a]) == multiset(front) + multiset{a};
    assert multiset(u + [a] + v) == multiset(u + v) + multiset{a};
    assert multiset(front) == multiset(front + [a]) - multiset{a};
    assert multiset(u + v) == multiset(u + [a] + v) - multiset{a};
  }

  /** Any permutation of the roots gives the same coefficient vector. */
  lemma {:induction false} ExpandPermutation(s: seq<int>, t: seq<int>)
    requires multiset(s) == multiset(t)
    ensures Expand(s) == Expand(t)
    decreases |s|
  {
    if s != [] {
      var n := |s|;
      var front, a := s[..n - 1], s[n - 1];
      assert s == front + [a];
      assert a in multiset(t);
      var j :| 0 <= j < |t| && t[j] == a;
      var u, v := t[..j], t[j + 1..];
      Sequences.SplitAt(t, j);
      RemoveRoot(front, a, u, v);
      ExpandPermutation(front, u + v);
      ExpandMoveToEnd(u, a, v);
    } else {
      assert |t| == |multiset(t)| == 0;
    }
  }

  // ---------------------------------------------------------------------------
  // Small cases

  lemma ExpandOne(r: int)
    ensures Expand([r]) == [1, -r]
  {
    assert [r][..0] == [];
    var q := MulLinear([1], r);
    assert q[0] == 1 && q[1] == -r;
  }

  lemma ExpandTwo(r1: int, r2: int)
    ensures Expand([r1, r2]) == [1, -(r1 + r2), r1 * r2]
  {
    ExpandOne(r1);
    assert [r1, r2][..1] == [r1];
    var q := MulLinear([1, -r1], r2);
    assert q[0] == 1 && q[1] == -r1 - r2 && q[2] == r1 * r2;
  }

  /** No roots give the constant 1, one root `r` gives `x - r`, two give `x^2 - (r1 + r2) x + r1 r2`. */
  lemma ExpandSmall(r: int, r1: int, r2: int)
    ensures Expand([]) == [1]
    ensures Expand([r]) == [1, -r]
    ensures Expand([r1, r2]) == [1, -(r1 + r2), r1 * r2]
    ensures Expand([4, 7]) == [1, -11, 28]
  {
    ExpandOne(r);
    ExpandTwo(r1, r2);
    ExpandTwo(4, 7);
  }
}
