/** Dense integer polynomials (02.cpp:29-82): a coefficient vector indexed by
    exponent. Coefficients are unbounded integers; the source's 32-bit `int`
    arithmetic in addition and evaluation is not modelled. */
module Polynomials {

  /** Coefficient of x^i, zero past the end of the vector. */
  function Coeff(c: seq<int>, i: nat): int {
    if i < |c| then c[i] else 0
  }

  function Max(a: nat, b: nat): nat {
    if a < b then b else a
  }

  function Pow(x: int, n: nat): int {
    if n == 0 then 1 else Pow(x, n - 1) * x
  }

  /** Term-by-term sum, defined structurally: the common prefix is added and
      the tail of the longer operand is carried over. */
  function Sum(p: seq<int>, q: seq<int>): seq<int> {
    if p == [] then q
    else if q == [] then p
    else [p[0] + q[0]] + Sum(p[1..], q[1..])
  }

  /** The first n terms of the series: coefficient i times x^i for i < n. */
  function Series(c: seq<int>, x: int, n: nat): int {
    if n == 0 then 0 else Series(c, x, n - 1) + Coeff(c, n - 1) * Pow(x, n - 1)
  }

  /** The value of the polynomial at x: the sum over every stored term. */
  function Eval(c: seq<int>, x: int): int {
    Series(c, x, |c|)
  }

  /** `Sum` pads the shorter operand with zeros (02.cpp:61-67). */
  lemma {:induction false} SumAt(p: seq<int>, q: seq<int>)
    ensures |Sum(p, q)| == Max(|p|, |q|)
    ensures forall i: nat :: i < |Sum(p, q)| ==> Sum(p, q)[i] == Coeff(p, i) + Coeff(q, i)
  {
    if p != [] && q != [] {
      SumAt(p[1..], q[1..]);
      var s := Sum(p, q);
      forall i: nat | i < |s| ensures s[i] == Coeff(p, i) + Coeff(q, i) {
        if i > 0 {
          assert s[i] == Sum(p[1..], q[1..])[i - 1];
          assert Coeff(p, i) == Coeff(p[1..], i - 1);
          assert Coeff(q, i) == Coeff(q[1..], i - 1);
        }
      }
    }
  }

  /** Addition is commutative. */
  lemma {:induction false} SumCommutes(p: seq<int>, q: seq<int>)
    ensures Sum(p, q) == Sum(q, p)
  {
    SumAt(p, q);
    SumAt(q, p);
    assert forall i: nat :: i < |Sum(p, q)| ==> Sum(p, q)[i] == Sum(q, p)[i];
  }

  /** Terms past the end of the vector contribute nothing. */
  lemma {:induction false} SeriesPastEnd(c: seq<int>, x: int, n: nat)
    requires n >= |c|
    ensures Series(c, x, n) == Eval(c, x)
  {
    if n > |c| {
      SeriesPastEnd(c, x, n - 1);
    }
  }

  /** Summing termwise then evaluating adds the values, up to any n terms. */
  lemma {:induction false} SeriesOfSum(p: seq<int>, q: seq<int>, x: int, n: nat)
    ensures Series(Sum(p, q), x, n) == Series(p, x, n) + Series(q, x, n)
  {
    if n > 0 {
      SeriesOfSum(p, q, x, n - 1);
      SumAt(p, q);
      var k := n - 1;
      assert Coeff(Sum(p, q), k) == Coeff(p, k) + Coeff(q, k);
      assert (Coeff(p, k) + Coeff(q, k)) * Pow(x, k) == Coeff(p, k) * Pow(x, k) + Coeff(q, k) * Pow(x, k);
    }
  }

  /** Evaluation is additive: (p + q)(x) == p(x) + q(x) (02.cpp:60-81). */
  lemma {:induction false} EvalOfSum(p: seq<int>, q: seq<int>, x: int)
    ensures Eval(Sum(p, q), x) == Eval(p, x) + Eval(q, x)
  {
    var m := Max(|p|, |q|);
    SumAt(p, q);
    SeriesOfSum(p, q, x, m);
    SeriesPastEnd(p, x, m);
    SeriesPastEnd(q, x, m);
  }

  class Polynomial {
    var coeff: seq<int>

    /** 02.cpp:35-37: degree + 1 zero coefficients. A degree below -1 makes
        `resize` fail in C++; -1 gives the empty vector, which `+` relies on. */
    constructor (degree: int)
      requires degree >= -1
      ensures |coeff| == degree + 1
      ensures forall i :: 0 <= i < |coeff| ==> coeff[i] == 0
    {
      coeff := seq(degree + 1, _ => 0);
    }

    /** 02.cpp:40-44: an exponent outside the vector (a negative one too, as it
        is compared unsigned) leaves the polynomial unchanged. */
    method SetCoefficient(exponent: int, value: int)
      modifies this
      ensures 0 <= exponent < |old(coeff)| ==> coeff == old(coeff)[exponent := value]
      ensures !(0 <= exponent < |old(coeff)|) ==> coeff == old(coeff)
    {
      if 0 <= exponent < |coeff| {
        coeff := coeff[exponent := value];
      }
    }

    /** 02.cpp:60-70: a fresh polynomial holding the termwise sum; neither
        operand changes. */
    method Add(other: Polynomial) returns (result: Polynomial)
      ensures fresh(result)
      ensures |result.coeff| == Max(|coeff|, |other.coeff|)
      ensures forall i :: 0 <= i < |result.coeff| ==>
                result.coeff[i] == Coeff(coeff, i) + Coeff(other.coeff, i)
      ensures result.coeff == Sum(coeff, other.coeff)
    {
      var maxDegree: int := Max(|coeff|, |other.coeff|);
      result := new Polynomial(maxDegree - 1);
      for i := 0 to maxDegree
        invariant |result.coeff| == maxDegree
        invariant forall j :: 0 <= j < i ==> result.coeff[j] == Coeff(coeff, j) + Coeff(other.coeff, j)
      {
        var c1 := if i < |coeff| then coeff[i] else 0;
        var c2 := if i < |other.coeff| then other.coeff[i] else 0;
        result.SetCoefficient(i, c1 + c2);
      }
      SumAt(coeff, other.coeff);
    }

    /** 02.cpp:73-81: sum of coeff[i] * x^i, with a running power of x. */
    method Evaluate(x: int) returns (result: int)
      ensures result == Eval(coeff, x)
    {
      result := 0;
      var power := 1;
      for i := 0 to |coeff|
        invariant power == Pow(x, i)
        invariant result == Series(coeff, x, i)
      {
        result := result + coeff[i] * power;
        power := power * x;
      }
    }
  }

  /** The sample output printed beside the demo (02.cpp:136, 150-152) gives 62
      for the sum at x = 2; the terms it lists, 32 + 12 + 4 + 6, add up to 54,
      which is what `evaluate` computes. */
  lemma DocumentedValueIsWrong()
    ensures Eval([6, 2, 3, 4], 2) != 62
    ensures Eval([6, 2, 3, 4], 2) == 32 + 12 + 4 + 6
  {
  }

  /** The demo (02.cpp:84-109): (3x^2 + 5) + (4x^3 + 2x + 1) is
      4x^3 + 3x^2 + 2x + 6, which is 54 at x = 2. */
  method PolynomialScenario() returns (sum: seq<int>, atTwo: int)
    ensures sum == [6, 2, 3, 4]
    ensures atTwo == 54
  {
    var p1 := new Polynomial(2);
    p1.SetCoefficient(2, 3);
    p1.SetCoefficient(0, 5);
    var p2 := new Polynomial(3);
    p2.SetCoefficient(3, 4);
    p2.SetCoefficient(1, 2);
    p2.SetCoefficient(0, 1);
    var p3 := p1.Add(p2);
    sum := p3.coeff;
    atTwo := p3.Evaluate(2);
    assert sum == [6, 2, 3, 4];
    DocumentedValueIsWrong();
  }
}
