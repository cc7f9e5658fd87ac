/** Polynomials over GF(256): evaluation, synthetic division, and the interpolation theorem. */
module Polynomials {
  import opened Gf256

  /** The value at `x` of the polynomial with coefficients `cs`, lowest first. */
  function Eval(cs: seq<Byte>, x: Byte): Byte {
    if cs == [] then ZERO else Add(cs[0], Mul(x, Eval(cs[1..], x)))
  }

  ghost predicate Distinct(xs: seq<Byte>) {
    forall i, j :: 0 <= i < j < |xs| ==> xs[i] != xs[j]
  }

  lemma AddIsZero(a: Byte, b: Byte)
    ensures Add(a, b) == ZERO <==> a == b
  {
  }

  lemma AddCancel(a: Byte, b: Byte)
    ensures Add(a, Add(a, b)) == b
  {
  }

  lemma EvalAtZero(cs: seq<Byte>)
    requires cs != []
    ensures Eval(cs, ZERO) == cs[0]
  {
    MulZero(Eval(cs[1..], ZERO));
    AddLaws(cs[0], ZERO, ZERO);
  }

  // ----- dividing by x - r, and multiplying back

  /** The coefficients of (P(x) - P(r)) / (x - r). */
  function Quotient(cs: seq<Byte>, r: Byte): (q: seq<Byte>)
    ensures cs != [] ==> |q| == |cs| - 1
  {
    if |cs| <= 1 then [] else [Eval(cs[1..], r)] + Quotient(cs[1..], r)
  }

  /** The coefficients of y + (x - r) Q(x). */
  function Build(q: seq<Byte>, r: Byte, y: Byte): (cs: seq<Byte>)
    ensures |cs| == |q| + 1
  {
    if q == [] then [y] else [Add(y, Mul(r, q[0]))] + Build(q[1..], r, q[0])
  }

  lemma {:induction false} BuildEval(q: seq<Byte>, r: Byte, y: Byte, x: Byte)
    ensures Eval(Build(q, r, y), x) == Add(y, Mul(Add(x, r), Eval(q, x)))
  {
    hide Add, Mul;
    if q == [] {
      assert Eval([y], x) == Add(y, Mul(x, ZERO));
      MulZero(x);
      MulZero(Add(x, r));
    } else {
      var tail := Eval(q[1..], x);
      BuildEval(q[1..], r, q[0], x);
      assert Build(q, r, y)[1..] == Build(q[1..], r, q[0]);
      BuildStep(q[0], r, y, x, tail);
    }
  }

  lemma BuildStep(q0: Byte, r: Byte, y: Byte, x: Byte, tail: Byte)
    ensures Add(Add(y, Mul(r, q0)), Mul(x, Add(q0, Mul(Add(x, r), tail))))
            == Add(y, Mul(Add(x, r), Add(q0, Mul(x, tail))))
  {
    hide Add, Mul;
    var d := Add(x, r);
    var (rq, xq, xdt) := (Mul(r, q0), Mul(x, q0), Mul(d, Mul(x, tail)));
    assert Mul(x, Mul(d, tail)) == xdt by {
      Associate(x, d, tail);
      Commute(x, d);
      Associate(d, x, tail);
    }
    DistributeRight(x, q0, Mul(d, tail));
    DistributeRight(d, q0, Mul(x, tail));
    DistributeLeft(x, r, q0);
    AddShuffle(y, rq, xq, xdt);
  }

  lemma AddShuffle(y: Byte, a: Byte, b: Byte, c: Byte)
    ensures Add(Add(y, a), Add(b, c)) == Add(y, Add(Add(b, a), c))
  {
    hide Add;
    AddLaws(y, a, Add(b, c));
    AddLaws(a, b, c);
  }

  lemma {:induction false} BuildQuotient(cs: seq<Byte>, r: Byte)
    requires cs != []
    ensures Build(Quotient(cs, r), r, Eval(cs, r)) == cs
  {
    hide Add, Mul;
    if |cs| == 1 {
      assert cs[1..] == [];
      MulZero(r);
      AddLaws(cs[0], ZERO, ZERO);
    } else {
      var rest := Mul(r, Eval(cs[1..], r));
      BuildQuotient(cs[1..], r);
      AddLaws(cs[0], rest, rest);
      AddLaws(rest, rest, cs[0]);
      AddLaws(cs[0], ZERO, ZERO);
    }
  }

  lemma Division(cs: seq<Byte>, r: Byte, x: Byte)
    requires cs != []
    ensures Eval(cs, x) == Add(Eval(cs, r), Mul(Add(x, r), Eval(Quotient(cs, r), x)))
  {
    BuildQuotient(cs, r);
    BuildEval(Quotient(cs, r), r, Eval(cs, r), x);
  }

  // ----- a polynomial with k coefficients is fixed by its values at k points, and those may be any

  ghost predicate Through(cs: seq<Byte>, xs: seq<Byte>, ys: seq<Byte>)
    requires |xs| == |ys|
  {
    forall i :: 0 <= i < |xs| ==> Eval(cs, xs[i]) == ys[i]
  }

  lemma {:induction false} Unique(xs: seq<Byte>, ys: seq<Byte>, cs: seq<Byte>, ds: seq<Byte>)
    requires Distinct(xs) && |xs| == |ys| == |cs| == |ds|
    requires Through(cs, xs, ys) && Through(ds, xs, ys)
    ensures cs == ds
  {
    hide Add, Mul;
    var k := |xs|;
    if k > 0 {
      var r, y := xs[k - 1], ys[k - 1];
      var (p, q) := (Quotient(cs, r), Quotient(ds, r));
      var values := seq(k - 1, i requires 0 <= i < k - 1 => Eval(p, xs[i]));
      forall i | 0 <= i < k - 1 ensures Eval(p, xs[i]) == Eval(q, xs[i]) {
        Division(cs, r, xs[i]);
        Division(ds, r, xs[i]);
        SameFactor(y, Add(xs[i], r), Eval(p, xs[i]), Eval(q, xs[i])) by { AddIsZero(xs[i], r); }
      }
      Unique(xs[..k - 1], values, p, q);
      BuildQuotient(cs, r);
      BuildQuotient(ds, r);
    }
  }

  lemma SameFactor(y: Byte, d: Byte, a: Byte, b: Byte)
    requires d != ZERO && Add(y, Mul(d, a)) == Add(y, Mul(d, b))
    ensures a == b
  {
    hide Add, Mul;
    AddCancel(y, Mul(d, a));
    AddCancel(y, Mul(d, b));
    Commute(d, a);
    Commute(d, b);
    Cancel(a, d);
    Cancel(b, d);
  }

  /** The values a quotient by x - r must take at the other points. */
  function Reduced(xs: seq<Byte>, ys: seq<Byte>, r: Byte, y: Byte): (zs: seq<Byte>)
    requires |xs| == |ys|
  {
    seq(|xs|, i requires 0 <= i < |xs| => Mul(Add(ys[i], y), Inv(Add(xs[i], r))))
  }

  function Interpolant(xs: seq<Byte>, ys: seq<Byte>): (cs: seq<Byte>)
    requires |xs| == |ys|
    ensures |cs| == |xs|
  {
    var k := |xs|;
    if k == 0 then [] else
      var (r, y) := (xs[k - 1], ys[k - 1]);
      Build(Interpolant(xs[..k - 1], Reduced(xs[..k - 1], ys[..k - 1], r, y)), r, y)
  }

  lemma {:induction false} InterpolantThrough(xs: seq<Byte>, ys: seq<Byte>)
    requires Distinct(xs) && |xs| == |ys|
    ensures Through(Interpolant(xs, ys), xs, ys)
  {
    hide Add, Mul, Inv;
    var k := |xs|;
    if k > 0 {
      var r, y := xs[k - 1], ys[k - 1];
      var zs := Reduced(xs[..k - 1], ys[..k - 1], r, y);
      var q := Interpolant(xs[..k - 1], zs);
      InterpolantThrough(xs[..k - 1], zs);
      forall i | 0 <= i < k ensures Eval(Interpolant(xs, ys), xs[i]) == ys[i] {
        BuildEval(q, r, y, xs[i]);
        AddIsZero(xs[i], r);
        if i == k - 1 {
          MulZero(Eval(q, r));
          AddLaws(y, ZERO, ZERO);
        } else {
          assert xs[..k - 1][i] == xs[i] && ys[..k - 1][i] == ys[i];
          var d := Add(xs[i], r);
          assert Mul(d, Mul(Add(ys[i], y), Inv(d))) == Add(ys[i], y) by {
            Commute(d, Mul(Add(ys[i], y), Inv(d)));
            Associate(Add(ys[i], y), Inv(d), d);
            Commute(Inv(d), d);
            Inverse(d);
            MulOne(Add(ys[i], y));
          }
          AddLaws(ys[i], y, y);
          AddCancel(y, ys[i]);
        }
      }
    }
  }

  // ----- the Lagrange formula

  /** The product over j < n, j != i, of x - xs[j]. */
  function Product(xs: seq<Byte>, i: nat, x: Byte, n: nat): Byte
    requires n <= |xs|
  {
    if n == 0 then ONE
    else if n - 1 == i then Product(xs, i, x, n - 1)
    else Mul(Product(xs, i, x, n - 1), Add(x, xs[n - 1]))
  }

  function Basis(xs: seq<Byte>, i: nat, x: Byte): Byte
    requires i < |xs|
  {
    Mul(Product(xs, i, x, |xs|), Inv(Product(xs, i, xs[i], |xs|)))
  }

  /** The first `n` terms of the Lagrange sum. */
  function Lagrange(xs: seq<Byte>, ys: seq<Byte>, x: Byte, n: nat): Byte
    requires n <= |xs| == |ys|
  {
    if n == 0 then ZERO else Add(Lagrange(xs, ys, x, n - 1), Mul(ys[n - 1], Basis(xs, n - 1, x)))
  }

  lemma {:induction false} ProductNonzero(xs: seq<Byte>, i: nat, n: nat)
    requires i < |xs| && n <= |xs| && Distinct(xs)
    ensures Product(xs, i, xs[i], n) != ZERO
  {
    hide Add, Mul;
    if n > 0 {
      ProductNonzero(xs, i, n - 1);
      if n - 1 != i {
        AddIsZero(xs[i], xs[n - 1]);
        NoZeroDivisors(Product(xs, i, xs[i], n - 1), Add(xs[i], xs[n - 1]));
      }
    }
  }

  lemma {:induction false} ProductPrefix(xs: seq<Byte>, ys: seq<Byte>, i: nat, x: Byte, n: nat)
    requires n <= |xs| && n <= |ys| && xs[..n] == ys[..n]
    ensures Product(xs, i, x, n) == Product(ys, i, x, n)
  {
    if n > 0 {
      assert xs[n - 1] == xs[..n][n - 1] == ys[n - 1];
      assert xs[..n - 1] == xs[..n][..n - 1] == ys[..n - 1];
      ProductPrefix(xs, ys, i, x, n - 1);
    }
  }

  /** Taking the first point out of the product. */
  lemma {:induction false} ProductFirst(xs: seq<Byte>, i: nat, x: Byte, n: nat)
    requires 1 <= n <= |xs| && 1 <= i
    ensures Product(xs, i, x, n) == Mul(Add(x, xs[0]), Product(xs[1..], i - 1, x, n - 1))
  {
    hide Add, Mul;
    var first := Add(x, xs[0]);
    if n == 1 {
      assert Product(xs, i, x, 0) == ONE;
      MulOne(first);
    } else {
      ProductFirst(xs, i, x, n - 1);
      assert xs[1..][n - 2] == xs[n - 1];
      if n - 1 != i {
        Associate(first, Product(xs[1..], i - 1, x, n - 2), Add(x, xs[n - 1]));
      }
    }
  }

  /** How a basis polynomial changes when a point `r` is taken away: the factor (x - r) / (xi - r). */
  lemma BasisFactor(num: Byte, den: Byte, x: Byte, xi: Byte, r: Byte, q: Byte)
    requires den != ZERO && xi != r
    ensures Mul(Mul(Add(xi, r), q), Mul(Mul(num, Add(x, r)), Inv(Mul(den, Add(xi, r)))))
            == Mul(Add(x, r), Mul(q, Mul(num, Inv(den))))
  {
    hide Add, Mul, Inv;
    var (d, e) := (Add(xi, r), Add(x, r));
    AddIsZero(xi, r);
    InvMul(den, d);
    var b := Mul(num, Inv(den));
    assert Mul(Mul(num, e), Mul(Inv(den), Inv(d))) == Mul(b, Mul(e, Inv(d))) by {
      MulSwap(num, e, Inv(den), Inv(d));
    }
    assert Mul(Mul(d, q), Mul(b, Mul(e, Inv(d)))) == Mul(Mul(q, b), Mul(e, ONE)) by {
      Commute(d, q);
      MulSwap(q, d, b, Mul(e, Inv(d)));
      Commute(e, Inv(d));
      Associate(d, Inv(d), e);
      Inverse(d);
      Commute(ONE, e);
    }
    MulOne(e);
    Commute(Mul(q, b), e);
  }

  lemma DropLastTerm(xs: seq<Byte>, i: nat, x: Byte, q: Byte)
    requires Distinct(xs) && i < |xs| - 1
    ensures var r := xs[|xs| - 1];
            Mul(Mul(Add(xs[i], r), q), Basis(xs, i, x)) == Mul(Add(x, r), Mul(q, Basis(xs[..|xs| - 1], i, x)))
  {
    hide Add, Mul, Inv;
    var k := |xs| - 1;
    ProductPrefix(xs, xs[..k], i, x, k);
    ProductPrefix(xs, xs[..k], i, xs[i], k);
    ProductNonzero(xs, i, k);
    BasisFactor(Product(xs, i, x, k), Product(xs, i, xs[i], k), x, xs[i], xs[k], q);
  }

  lemma DropFirstTerm(xs: seq<Byte>, i: nat, x: Byte, q: Byte)
    requires Distinct(xs) && 1 <= i < |xs|
    ensures Mul(Mul(Add(xs[i], xs[0]), q), Basis(xs, i, x))
            == Mul(Add(x, xs[0]), Mul(q, Basis(xs[1..], i - 1, x)))
  {
    hide Add, Mul, Inv;
    var k := |xs| - 1;
    var (num, den) := (Product(xs[1..], i - 1, x, k), Product(xs[1..], i - 1, xs[i], k));
    ProductFirst(xs, i, x, k + 1);
    ProductFirst(xs, i, xs[i], k + 1);
    ProductNonzero(xs[1..], i - 1, k);
    Commute(Add(x, xs[0]), num);
    Commute(Add(xs[i], xs[0]), den);
    BasisFactor(num, den, x, xs[i], xs[0], q);
  }

  lemma {:induction false} LagrangeAdd(xs: seq<Byte>, us: seq<Byte>, vs: seq<Byte>, ys: seq<Byte>, x: Byte, n: nat)
    requires n <= |xs| == |us| == |vs| == |ys|
    requires forall i :: 0 <= i < n ==> ys[i] == Add(us[i], vs[i])
    ensures Lagrange(xs, ys, x, n) == Add(Lagrange(xs, us, x, n), Lagrange(xs, vs, x, n))
  {
    hide Add, Mul, Basis;
    if n == 0 {
      AddLaws(ZERO, ZERO, ZERO);
    } else {
      var b := Basis(xs, n - 1, x);
      LagrangeAdd(xs, us, vs, ys, x, n - 1);
      DistributeLeft(us[n - 1], vs[n - 1], b);
      AddSwap(Lagrange(xs, us, x, n - 1), Lagrange(xs, vs, x, n - 1), Mul(us[n - 1], b), Mul(vs[n - 1], b));
    }
  }

  lemma {:induction false} DropLast(xs: seq<Byte>, ys: seq<Byte>, qs: seq<Byte>, x: Byte, n: nat)
    requires Distinct(xs) && |xs| == |ys| == |qs| + 1 && n <= |xs| - 1
    requires forall i :: 0 <= i < |qs| ==> ys[i] == Mul(Add(xs[i], xs[|xs| - 1]), qs[i])
    ensures Lagrange(xs, ys, x, n) == Mul(Add(x, xs[|xs| - 1]), Lagrange(xs[..|xs| - 1], qs, x, n))
  {
    hide Add, Mul, Basis;
    var r := xs[|xs| - 1];
    if n == 0 {
      MulZero(Add(x, r));
    } else {
      DropLast(xs, ys, qs, x, n - 1);
      DropLastTerm(xs, n - 1, x, qs[n - 1]);
      DistributeRight(Add(x, r), Lagrange(xs[..|xs| - 1], qs, x, n - 1),
                      Mul(qs[n - 1], Basis(xs[..|xs| - 1], n - 1, x)));
    }
  }

  lemma {:induction false} DropFirst(xs: seq<Byte>, ys: seq<Byte>, qs: seq<Byte>, x: Byte, n: nat)
    requires Distinct(xs) && |xs| == |ys| == |qs| + 1 && 1 <= n <= |xs|
    requires ys[0] == ZERO
    requires forall i :: 0 <= i < |qs| ==> ys[i + 1] == Mul(Add(xs[i + 1], xs[0]), qs[i])
    ensures Lagrange(xs, ys, x, n) == Mul(Add(x, xs[0]), Lagrange(xs[1..], qs, x, n - 1))
  {
    hide Add, Mul, Basis;
    var d := Add(x, xs[0]);
    if n == 1 {
      assert Lagrange(xs, ys, x, 0) == ZERO;
      MulZero(Basis(xs, 0, x));
      MulZero(d);
      AddLaws(ZERO, ZERO, ZERO);
    } else {
      DropFirst(xs, ys, qs, x, n - 1);
      assert ys[(n - 2) + 1] == Mul(Add(xs[(n - 2) + 1], xs[0]), qs[n - 2]);
      DropFirstTerm(xs, n - 1, x, qs[n - 2]);
      DistributeRight(d, Lagrange(xs[1..], qs, x, n - 2), Mul(qs[n - 2], Basis(xs[1..], n - 2, x)));
    }
  }

  /** The last term vanishes when its value does. */
  lemma DropLastWhole(xs: seq<Byte>, ys: seq<Byte>, qs: seq<Byte>, x: Byte)
    requires Distinct(xs) && |xs| == |ys| == |qs| + 1
    requires forall i :: 0 <= i < |qs| ==> ys[i] == Mul(Add(xs[i], xs[|xs| - 1]), qs[i])
    requires ys[|xs| - 1] == ZERO
    ensures Lagrange(xs, ys, x, |xs|) == Mul(Add(x, xs[|xs| - 1]), Lagrange(xs[..|xs| - 1], qs, x, |qs|))
  {
    hide Add, Mul, Basis;
    DropLast(xs, ys, qs, x, |qs|);
    MulZero(Basis(xs, |qs|, x));
    AddLaws(Lagrange(xs, ys, x, |qs|), ZERO, ZERO);
  }

  function Constant(c: Byte, k: nat): (ys: seq<Byte>)
    ensures |ys| == k && forall i :: 0 <= i < k ==> ys[i] == c
  {
    seq(k, i => c)
  }

  /** A constant is interpolated exactly: the basis sums to one. */
  lemma {:induction false} LagrangeConstant(xs: seq<Byte>, c: Byte, x: Byte)
    requires Distinct(xs) && xs != []
    ensures Lagrange(xs, Constant(c, |xs|), x, |xs|) == c
    decreases |xs|
  {
    hide Add, Mul, Inv;
    var k := |xs|;
    if k == 1 {
      SinglePoint(xs, c, x);
    } else {
      var (a, b) := (xs[k - 1], xs[0]);
      var c' := Mul(c, Inv(Add(a, b)));
      var us := seq(k, i requires 0 <= i < k => Mul(Add(xs[i], a), c'));
      var vs := seq(k, i requires 0 <= i < k => Mul(Add(xs[i], b), c'));
      TwoNodes(a, b, c);
      forall i | 0 <= i < k ensures Constant(c, k)[i] == Add(us[i], vs[i]) {
        TwoNodesAt(xs[i], a, b, c');
      }
      LagrangeAdd(xs, us, vs, Constant(c, k), x, k);
      AddIsZero(a, a);
      AddIsZero(b, b);
      MulZero(c');
      DropLastWhole(xs, us, Constant(c', k - 1), x);
      DropFirst(xs, vs, Constant(c', k - 1), x, k);
      LagrangeConstant(xs[..k - 1], c', x);
      LagrangeConstant(xs[1..], c', x);
      TwoNodesAt(x, a, b, c');
    }
  }

  lemma SinglePoint(xs: seq<Byte>, c: Byte, x: Byte)
    requires |xs| == 1
    ensures Lagrange(xs, Constant(c, 1), x, 1) == c
  {
    hide Add, Mul, Inv;
    assert Product(xs, 0, x, 0) == ONE && Product(xs, 0, xs[0], 0) == ONE;
    Cancel(ONE, ONE);
    MulOne(ONE);
    MulOne(c);
    assert Lagrange(xs, Constant(c, 1), x, 0) == ZERO;
    AddLaws(ZERO, c, ZERO);
    AddLaws(c, ZERO, ZERO);
  }

  lemma TwoNodes(a: Byte, b: Byte, c: Byte)
    requires a != b
    ensures Mul(Add(a, b), Mul(c, Inv(Add(a, b)))) == c
  {
    hide Add, Mul, Inv;
    var d := Add(a, b);
    AddIsZero(a, b);
    Commute(d, Mul(c, Inv(d)));
    Associate(c, Inv(d), d);
    Commute(Inv(d), d);
    Inverse(d);
    MulOne(c);
  }

  lemma TwoNodesAt(x: Byte, a: Byte, b: Byte, c: Byte)
    ensures Add(Mul(Add(x, a), c), Mul(Add(x, b), c)) == Mul(Add(a, b), c)
  {
    hide Mul;
    DistributeLeft(Add(x, a), Add(x, b), c);
    AddLaws(x, a, ZERO);
    AddMiddle(a, x, b);
  }

  /** The interpolation theorem: through k distinct points the Lagrange formula recovers every
      polynomial with at most k coefficients, at every x. */
  lemma {:induction false} Interpolation(xs: seq<Byte>, ys: seq<Byte>, cs: seq<Byte>, x: Byte)
    requires Distinct(xs) && 1 <= |cs| <= |xs| == |ys| && Through(cs, xs, ys)
    ensures Lagrange(xs, ys, x, |xs|) == Eval(cs, x)
    decreases |cs|
  {
    hide Add, Mul, Inv;
    var k := |xs|;
    if |cs| == 1 {
      MulZero(x);
      AddLaws(cs[0], ZERO, ZERO);
      forall z ensures Eval(cs, z) == cs[0] {
        assert cs[1..] == [];
        MulZero(z);
      }
      assert ys == Constant(cs[0], k);
      LagrangeConstant(xs, cs[0], x);
    } else {
      var r := xs[k - 1];
      var q := Quotient(cs, r);
      var y := Eval(cs, r);
      var zs := seq(k - 1, i requires 0 <= i < k - 1 => Eval(q, xs[i]));
      var vs := seq(k, i requires 0 <= i < k => Mul(Add(xs[i], r), Eval(q, xs[i])));
      forall i | 0 <= i < k ensures ys[i] == Add(Constant(y, k)[i], vs[i]) {
        Division(cs, r, xs[i]);
      }
      LagrangeAdd(xs, Constant(y, k), vs, ys, x, k);
      LagrangeConstant(xs, y, x);
      AddIsZero(r, r);
      MulZero(Eval(q, r));
      DropLastWhole(xs, vs, zs, x);
      assert Through(q, xs[..k - 1], zs);
      Interpolation(xs[..k - 1], zs, q, x);
      Division(cs, r, x);
    }
  }
}
