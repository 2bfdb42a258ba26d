/** Roots of a locator are simple and few, and Forney's quotient at a root is the damage there. */
module Forney {
  import opened Bits
  import opened GaloisField
  import opened Polynomials
  import opened CodeTheory
  import opened Locator

  // ----- division by a linear factor

  /** The quotient of p by x + r. */
  function Deflate(p: Poly, r: byte): Poly {
    if |p| <= 1 then [] else [Eval(p[1..], r)] + Deflate(p[1..], r)
  }

  lemma {:induction false} DeflateShape(p: Poly, r: byte)
    requires |p| >= 1
    ensures |Deflate(p, r)| == |p| - 1
    ensures |p| >= 2 ==> Deflate(p, r)[|p| - 2] == p[|p| - 1]
  {
    hide Add, Mul, Eval;
    if |p| >= 2 {
      DeflateShape(p[1..], r);
      if |p| == 2 {
        EvalConstant(p[1..], r);
      } else {
        assert Deflate(p, r)[|p| - 2] == Deflate(p[1..], r)[|p| - 3];
      }
    }
  }

  lemma {:induction false} DeflateEval(p: Poly, r: byte, x: byte)
    ensures Add(Eval(p, x), Eval(p, r)) == Mul(Add(x, r), Eval(Deflate(p, r), x))
  {
    hide Add, Mul;
    if |p| == 0 {
      MulZero(Add(x, r));
      AddZero(0);
    } else if |p| == 1 {
      MulZero(Add(x, r));
      MulZero(x);
      MulZero(r);
      AddZero(Add(p[0], 0));
    } else {
      DeflateEval(p[1..], r, x);
      LinearFactorStep(p[0], x, r, Eval(p[1..], x), Eval(p[1..], r), Eval(Deflate(p[1..], r), x));
    }
  }

  lemma LinearFactorStep(c: byte, x: byte, r: byte, u: byte, v: byte, q: byte)
    requires Add(u, v) == Mul(Add(x, r), q)
    ensures Add(Add(c, Mul(x, u)), Add(c, Mul(r, v))) == Mul(Add(x, r), Add(v, Mul(x, q)))
  {
    hide Add, Mul;
    calc {
      Mul(Add(x, r), Add(v, Mul(x, q)));
      { MulAddRight(Add(x, r), v, Mul(x, q)); }
      Add(Mul(Add(x, r), v), Mul(Add(x, r), Mul(x, q)));
      { MulAssoc(Add(x, r), x, q); MulComm(Add(x, r), x); MulAssoc(x, Add(x, r), q); }
      Add(Mul(Add(x, r), v), Mul(x, Add(u, v)));
      { MulAddLeft(x, r, v); MulAddRight(x, u, v); }
      Add(Add(Mul(x, v), Mul(r, v)), Add(Mul(x, u), Mul(x, v)));
      { AddComm(Mul(x, v), Mul(r, v)); AddComm(Mul(x, u), Mul(x, v)); }
      Add(Add(Mul(r, v), Mul(x, v)), Add(Mul(x, v), Mul(x, u)));
      { CancelMiddle(Mul(r, v), Mul(x, v), Mul(x, u)); }
      Add(Mul(r, v), Mul(x, u));
      { AddComm(Mul(r, v), Mul(x, u)); AddSwap(c, Mul(x, u), c, Mul(r, v)); AddZero(c); AddZero(Add(Mul(x, u), Mul(r, v))); }
      Add(Add(c, Mul(x, u)), Add(c, Mul(r, v)));
    }
  }

  lemma CancelMiddle(a: byte, b: byte, c: byte)
    ensures Add(Add(a, b), Add(b, c)) == Add(a, c)
  {
    hide Add;
    AddAssoc(a, b, Add(b, c));
    AddCancel(b, c);
  }

  lemma EvalConstant(p: Poly, x: byte)
    requires |p| == 1
    ensures Eval(p, x) == p[0]
  {
    hide Add, Mul;
    MulZero(x);
    AddZero(p[0]);
    assert p[1..] == [];
  }

  /** A polynomial vanishes at fewer elements than it has coefficients. */
  lemma {:induction false} RootBound(p: Poly, ds: set<nat>)
    requires |p| >= 1 && p[|p| - 1] != 0
    requires forall d :: d in ds ==> d < 255 && Eval(p, Root(d)) == 0
    ensures |ds| <= |p| - 1
    decreases |p|
  {
    hide Add, Mul, Root;
    if ds != {} {
      var d :| d in ds;
      if |p| == 1 {
        EvalConstant(p, Root(d));
      } else {
        var q := Deflate(p, Root(d));
        DeflateShape(p, Root(d));
        hide Eval, Deflate;
        forall e | e in ds - {d}
          ensures Eval(q, Root(e)) == 0
        {
          DeflatedRoot(p, d, e);
        }
        RootBound(q, ds - {d});
      }
    }
  }

  lemma DeflatedRoot(p: Poly, d: nat, e: nat)
    requires d < 255 && e < 255 && d != e
    requires Eval(p, Root(d)) == 0 && Eval(p, Root(e)) == 0
    ensures Eval(Deflate(p, Root(d)), Root(e)) == 0
  {
    hide Add, Mul, Root, Eval, Deflate;
    DeflateEval(p, Root(d), Root(e));
    AddZero(0);
    RootsDiffer(d, e);
    AddCancel(Root(e), Root(d));
    if Eval(Deflate(p, Root(d)), Root(e)) != 0 {
      MulNonzero(Add(Root(e), Root(d)), Eval(Deflate(p, Root(d)), Root(e)));
    }
  }

  // ----- the formal derivative

  function Derivative(p: Poly): Poly {
    if |p| <= 1 then [0] else seq(|p| - 1, i requires 0 <= i < |p| - 1 => if i % 2 == 0 then p[i + 1] else 0)
  }

  /** The derivative at r is the quotient by x + r at r. */
  lemma {:induction false} DerivativeEval(p: Poly, r: byte)
    ensures Eval(Derivative(p), r) == Eval(Deflate(p, r), r)
  {
    hide Add, Mul;
    MulZero(r);
    AddZero(0);
    if |p| <= 1 {
      assert Eval([0], r) == Add(0, Mul(r, Eval([], r)));
    } else if |p| == 2 {
      assert Derivative(p) == [p[1]] == p[1..];
      AddZero(p[1]);
      assert Deflate(p, r) == [Eval(p[1..], r)];
    } else {
      DerivativeEval(p[2..], r);
      DeflateTwice(p, r);
      DerivativeTwice(p, r);
    }
  }

  lemma DeflateTwice(p: Poly, r: byte)
    requires |p| >= 3
    ensures Eval(Deflate(p, r), r) == Add(p[1], Mul(r, Mul(r, Eval(Deflate(p[2..], r), r))))
  {
    hide Add, Mul;
    var d := Eval(Deflate(p[2..], r), r);
    var v := Eval(p[2..], r);
    assert p[1..][1..] == p[2..];
    assert Eval(Deflate(p[1..], r), r) == Add(v, Mul(r, d));
    assert Eval(p[1..], r) == Add(p[1], Mul(r, v));
    assert Eval(Deflate(p, r), r) == Add(Add(p[1], Mul(r, v)), Mul(r, Add(v, Mul(r, d))));
    MulAddRight(r, v, Mul(r, d));
    CancelMiddle(p[1], Mul(r, v), Mul(r, Mul(r, d)));
  }

  lemma DerivativeTwice(p: Poly, r: byte)
    requires |p| >= 3
    ensures Eval(Derivative(p), r) == Add(p[1], Mul(r, Mul(r, Eval(Derivative(p[2..]), r))))
  {
    hide Add, Mul;
    MulZero(r);
    AddZero(0);
    var q := Derivative(p);
    assert q[1..][0] == 0;
    var tail := q[1..][1..];
    AddZero(Mul(r, Eval(tail, r)));
    if |p| == 3 {
      assert tail == [] && Derivative(p[2..]) == [0];
      assert Eval([0], r) == Add(0, Mul(r, Eval([], r)));
    } else {
      assert tail == Derivative(p[2..]);
    }
  }

  // ----- the evaluator polynomial

  lemma {:induction false} EvalSameCoefs(p: Poly, q: Poly, x: byte)
    requires forall i: nat :: Coef(p, i) == Coef(q, i)
    ensures Eval(p, x) == Eval(q, x)
    decreases |p| + |q|
  {
    hide Add, Mul;
    if |p| + |q| > 0 {
      forall i: nat ensures Coef(Tail(p), i) == Coef(Tail(q), i) {
        TailCoef(p, i);
        TailCoef(q, i);
      }
      EvalSameCoefs(Tail(p), Tail(q), x);
      EvalUnfold(p, x);
      EvalUnfold(q, x);
    }
  }

  lemma EvalUnfold(p: Poly, x: byte)
    ensures Eval(p, x) == Add(Coef(p, 0), Mul(x, Eval(Tail(p), x)))
  {
    hide Add, Mul;
    MulZero(x);
    AddZero(0);
  }

  lemma {:induction false} EvalPlus(p: Poly, q: Poly, x: byte)
    requires |p| == |q|
    ensures Eval(Plus(p, q), x) == Add(Eval(p, x), Eval(q, x))
  {
    hide Add, Mul;
    if |p| == 0 {
      AddZero(0);
    } else {
      EvalPlus(p[1..], q[1..], x);
      assert Plus(p, q)[1..] == Plus(p[1..], q[1..]);
      MulAddRight(x, Eval(p[1..], x), Eval(q[1..], x));
      AddSwap(p[0], q[0], Mul(x, Eval(p[1..], x)), Mul(x, Eval(q[1..], x)));
    }
  }

  lemma {:induction false} EvalTimes(c: byte, p: Poly, x: byte)
    ensures Eval(Times(c, p), x) == Mul(c, Eval(p, x))
  {
    hide Add, Mul;
    if |p| == 0 {
      MulZero(c);
    } else {
      EvalTimes(c, p[1..], x);
      assert Times(c, p)[1..] == Times(c, p[1..]);
      var v := Eval(p[1..], x);
      MulAssoc(x, c, v);
      MulComm(x, c);
      MulAssoc(c, x, v);
      MulAddRight(c, p[0], Mul(x, v));
    }
  }

  lemma {:induction false} GeometricPrefix(a: Poly, d: nat, n: nat, m: nat)
    requires m < n
    ensures Conv(a, Geometric(d, n), m) == Add(Coef(a, m), Mul(Exp(d), Conv(a, Geometric(d, n), m - 1)))
    decreases m
  {
    hide Add, Mul, Exp;
    var s := Geometric(d, n);
    MulZero(Exp(d));
    if |a| == 0 {
      AddZero(0);
    } else if m == 0 {
      FirstPowers();
      assert d * 0 == 0;
      MulOne(a[0]);
      AddZero(a[0]);
    } else {
      GeometricPrefix(a[1..], d, n, m - 1);
      assert d * m == d + d * (m - 1);
      ExpAdd(d, d * (m - 1));
      PrefixStep(a[0], Exp(d), s[m - 1], Coef(a, m), Conv(a[1..], s, m - 2));
    }
  }

  lemma PrefixStep(c: byte, x: byte, p: byte, e: byte, v: byte)
    ensures Add(Mul(c, Mul(x, p)), Add(e, Mul(x, v))) == Add(e, Mul(x, Add(Mul(c, p), v)))
  {
    hide Add, Mul;
    MulAddRight(x, Mul(c, p), v);
    MulAssoc(x, c, p);
    MulComm(x, c);
    MulAssoc(c, x, p);
    var u := Mul(c, Mul(x, p));
    AddAssoc(u, e, Mul(x, v));
    AddComm(u, e);
    AddAssoc(e, u, Mul(x, v));
  }

  lemma {:induction false} DeflateCoef(p: Poly, r: byte, m: nat)
    ensures Coef(Deflate(p, r), m) == if m + 1 <= |p| then Eval(p[m + 1..], r) else 0
    decreases m
  {
    hide Add, Mul;
    if |p| >= 2 && m > 0 {
      DeflateCoef(p[1..], r, m - 1);
      if m + 1 <= |p| {
        assert p[1..][m..] == p[m + 1..];
      }
    }
  }

  /** A single error's evaluator is the locator with the factor for that error divided out. */
  lemma {:induction false} SingleEvaluator(a: Poly, d: nat, n: nat, m: nat)
    requires m < n && Eval(a, Root(d)) == 0
    ensures Conv(a, Geometric(d, n), m) == Mul(Root(d), Coef(Deflate(a, Root(d)), m))
    decreases m
  {
    hide Add, Mul, Exp, Root, Eval, Deflate, Coef, Conv;
    var r := Root(d);
    RootInverts(d);
    GeometricPrefix(a, d, n, m);
    MulZero(Exp(d));
    AddZero(Coef(a, m));
    DeflateNext(a, r, m);
    if m == 0 {
      ConvNegative(a, Geometric(d, n), m - 1);
      AddCancel(Coef(a, 0), Mul(r, Coef(Deflate(a, r), 0)));
    } else {
      SingleEvaluator(a, d, n, m - 1);
      var e := Coef(Deflate(a, r), m - 1);
      MulAssoc(Exp(d), r, e);
      MulOne(e);
      AddCancel(Coef(a, m), Mul(r, Coef(Deflate(a, r), m)));
    }
  }

  lemma DeflateNext(a: Poly, r: byte, m: nat)
    ensures (if m == 0 then Eval(a, r) else Coef(Deflate(a, r), m - 1))
         == Add(Coef(a, m), Mul(r, Coef(Deflate(a, r), m)))
  {
    hide Add, Mul, Deflate;
    DeflateCoef(a, r, m);
    MulZero(r);
    AddZero(0);
    if m < |a| {
      assert a[m..][1..] == a[m + 1..];
    }
    if m > 0 {
      DeflateCoef(a, r, m - 1);
    }
  }

  lemma SingleEvaluatorEval(a: Poly, d: nat, n: nat, x: byte)
    requires |a| >= 1 && |a| - 1 <= n && Eval(a, Root(d)) == 0
    ensures Eval(Product(a, Geometric(d, n)), x) == Mul(Root(d), Eval(Deflate(a, Root(d)), x))
  {
    hide Add, Mul, Exp, Root, Eval, Deflate, Conv, Geometric;
    var r := Root(d);
    var q := Deflate(a, r);
    DeflateShape(a, r);
    forall i: nat ensures Coef(Product(a, Geometric(d, n)), i) == Coef(Times(r, q), i) {
      if i < n {
        SingleEvaluator(a, d, n, i);
        MulZero(r);
      }
    }
    EvalSameCoefs(Product(a, Geometric(d, n)), Times(r, q), x);
    EvalTimes(r, q, x);
  }

  lemma {:induction false} EvaluatorSum(a: Poly, w: Word, n: nat, x: byte, g: nat -> byte)
    requires forall d: nat :: d < |w| ==> g(d) == Eval(Product(a, Geometric(d, n)), x)
    ensures Eval(Product(a, Syndromes(w, n)), x) == Syndrome(Reweigh(w, g), 0)
    decreases |w|
  {
    hide Add, Mul, Exp, Conv, Geometric, Eval, Product;
    if |w| == 0 {
      ZeroEvaluator(a, n, x);
      assert Syndromes(w, n) == Syndromes([], n);
    } else {
      var d: nat := |w| - 1;
      EvaluatorSum(a, w[1..], n, x, g);
      SyndromesCons(w, n);
      ProductPlus(a, Times(w[0], Geometric(d, n)), Syndromes(w[1..], n));
      ProductTimes(a, w[0], Geometric(d, n));
      EvalPlus(Times(w[0], Product(a, Geometric(d, n))), Product(a, Syndromes(w[1..], n)), x);
      EvalTimes(w[0], Product(a, Geometric(d, n)), x);
      assert Reweigh(w, g)[1..] == Reweigh(w[1..], g);
      assert d * 0 == 0;
      FirstPowers();
      MulOne(Mul(w[0], g(d)));
    }
  }

  lemma ZeroEvaluator(a: Poly, n: nat, x: byte)
    ensures Eval(Product(a, Syndromes([], n)), x) == 0
  {
    hide Add, Mul, Conv, Exp;
    forall m | 0 <= m < n ensures Product(a, Syndromes([], n))[m] == 0 {
      ConvZeros(a, Syndromes([], n), m);
    }
    EvalSameCoefs(Product(a, Syndromes([], n)), [], x);
  }

  lemma ProductPlus(a: Poly, s: seq<byte>, t: seq<byte>)
    requires |s| == |t|
    ensures Product(a, Plus(s, t)) == Plus(Product(a, s), Product(a, t))
  {
    hide Add, Mul, Conv;
    forall m | 0 <= m < |s| ensures Product(a, Plus(s, t))[m] == Plus(Product(a, s), Product(a, t))[m] {
      ConvPlus(a, s, t, m);
    }
  }

  lemma ProductTimes(a: Poly, c: byte, s: seq<byte>)
    ensures Product(a, Times(c, s)) == Times(c, Product(a, s))
  {
    hide Add, Mul, Conv;
    forall m | 0 <= m < |s| ensures Product(a, Times(c, s))[m] == Times(c, Product(a, s))[m] {
      ConvTimes(a, c, s, m);
    }
  }

  lemma {:induction false} SingleSyndrome(w: Word, d: nat)
    requires d < |w| && Support(w) <= {d}
    ensures Syndrome(w, 0) == At(w, d)
  {
    SupportCons(w);
    hide Mul, Add, Support;
    var k := |w| - 1;
    assert k * 0 == 0;
    FirstPowers();
    MulOne(w[0]);
    AddZero(w[0]);
    AddZero(Syndrome(w[1..], 0));
    if d == k {
      assert Support(w[1..]) == {} by { SupportRange(w[1..]); }
      ZeroWordSyndrome(w[1..], 0);
    } else {
      assert k !in Support(w);
      SingleSyndrome(w[1..], d);
    }
  }

  /** Forney: where the locator is zero at every damaged position, the evaluator at one of them is the damage there,
      scaled by the root and the locator's derivative. */
  lemma EvaluatorAtRoot(a: Poly, w: Word, n: nat, d: nat)
    requires |w| <= 255 && d in Support(w)
    requires |a| >= 1 && |a| - 1 <= n
    requires forall k :: k in Support(w) ==> Eval(a, Root(k)) == 0
    ensures Eval(Product(a, Syndromes(w, n)), Root(d)) == Mul(At(w, d), Mul(Root(d), Eval(Derivative(a), Root(d))))
  {
    hide Add, Mul, Exp, Conv, Geometric, Eval, Root, Support, Product, Syndrome, Syndromes, Deflate, Derivative, Reweigh, At;
    var g := (k: nat) => Eval(Product(a, Geometric(k, n)), Root(d));
    EvaluatorSum(a, w, n, Root(d), g);
    SupportRange(w);
    forall k | k in Support(w) && k != d ensures g(k) == 0 {
      SingleEvaluatorEval(a, k, n, Root(d));
      DeflatedRoot(a, k, d);
      MulZero(Root(k));
    }
    ReweighSupport(w, g);
    SingleSyndrome(Reweigh(w, g), d);
    ReweighAt(w, g, d);
    SingleEvaluatorEval(a, d, n, Root(d));
    DerivativeEval(a, Root(d));
  }

  /** The roots of a locator that has no more coefficients than it must are simple. */
  lemma DerivativeNonzero(a: Poly, ds: set<nat>, d: nat)
    requires |a| == |ds| + 1 && a[|a| - 1] != 0 && d in ds
    requires forall k :: k in ds ==> k < 255 && Eval(a, Root(k)) == 0
    ensures Eval(Derivative(a), Root(d)) != 0
  {
    hide Add, Mul, Eval, Root, Deflate, Derivative;
    DerivativeEval(a, Root(d));
    var q := Deflate(a, Root(d));
    DeflateShape(a, Root(d));
    if Eval(q, Root(d)) == 0 {
      forall k | k in ds ensures Eval(q, Root(k)) == 0 {
        if k != d { DeflatedRoot(a, d, k); }
      }
      RootBound(q, ds);
    }
  }

  /** The quotient the decoder computes at a damaged position. */
  lemma Magnitude(e: byte, d: nat, denom: byte, omega: byte, quotient: byte)
    requires omega == Mul(e, Mul(Root(d), denom)) && denom != 0
    requires Mul(quotient, denom) == omega
    ensures Mul(Exp(d), quotient) == e
  {
    hide Mul, Exp, Root;
    RootInverts(d);
    MulAssoc(e, Root(d), denom);
    MulComm(quotient, denom);
    MulComm(Mul(e, Root(d)), denom);
    MulCancel(denom, quotient, Mul(e, Root(d)));
    MulComm(e, Root(d));
    MulAssoc(Exp(d), Root(d), e);
    MulOne(e);
  }
}
