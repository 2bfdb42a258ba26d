/** Polynomials over the field as coefficient sequences, constant term first. */
module Polynomials {
  import opened Bits
  import opened GaloisField

  type Poly = seq<byte>

  function Coef(p: Poly, i: int): byte {
    if 0 <= i < |p| then p[i] else 0
  }

  function Tail(p: Poly): Poly {
    if |p| == 0 then [] else p[1..]
  }

  function Eval(p: Poly, x: byte): byte {
    if |p| == 0 then 0 else Add(p[0], Mul(x, Eval(p[1..], x)))
  }

  /** Coefficient m of a times s, which for a recurrence a is what a predicts about s at m. */
  function Conv(a: Poly, s: seq<byte>, m: int): byte
    requires m < |s|
  {
    if |a| == 0 || m < 0 then 0 else Add(Mul(a[0], s[m]), Conv(a[1..], s, m - 1))
  }

  /** The low coefficients of a times s, as many as s has. */
  function Product(a: Poly, s: seq<byte>): (r: seq<byte>)
    ensures |r| == |s|
  {
    seq(|s|, m requires 0 <= m < |s| => Conv(a, s, m))
  }

  /** a + scale * x^shift * b */
  function AddShifted(a: Poly, b: Poly, shift: nat, scale: byte): (r: Poly)
    ensures |r| == if |a| > |b| + shift then |a| else |b| + shift
  {
    seq(if |a| > |b| + shift then |a| else |b| + shift, i => Add(Coef(a, i), Mul(Coef(b, i - shift), scale)))
  }

  function Plus(s: seq<byte>, t: seq<byte>): (r: seq<byte>)
    requires |s| == |t|
    ensures |r| == |s|
  {
    seq(|s|, i requires 0 <= i < |s| => Add(s[i], t[i]))
  }

  function Times(c: byte, s: seq<byte>): (r: seq<byte>)
    ensures |r| == |s|
  {
    seq(|s|, i requires 0 <= i < |s| => Mul(c, s[i]))
  }

  /** s delayed by one step, keeping its length. */
  function Delay(s: seq<byte>): (r: seq<byte>)
    requires |s| > 0
    ensures |r| == |s|
  {
    [0] + s[..|s| - 1]
  }

  // ----- convolution is linear in both arguments

  lemma ConvUnfold(a: Poly, s: seq<byte>, m: int)
    requires 0 <= m < |s|
    ensures Conv(a, s, m) == Add(Mul(Coef(a, 0), s[m]), Conv(Tail(a), s, m - 1))
  {
    hide Add, Mul;
    MulZero(s[m]);
    AddZero(0);
  }

  lemma AddShiftedCoef(a: Poly, b: Poly, shift: nat, scale: byte, i: nat)
    ensures Coef(AddShifted(a, b, shift, scale), i) == Add(Coef(a, i), Mul(Coef(b, i - shift), scale))
  {
    hide Add, Mul;
    MulZero(scale);
    AddZero(0);
  }

  lemma TailCoef(p: Poly, i: nat)
    ensures Coef(Tail(p), i) == Coef(p, i + 1)
  {}

  lemma SameCoefs(p: Poly, q: Poly)
    requires |p| == |q|
    requires forall i: nat :: i < |p| ==> Coef(p, i) == Coef(q, i)
    ensures p == q
  {
    forall i: nat | i < |p|
      ensures p[i] == q[i]
    {
      assert Coef(p, i) == Coef(q, i);
    }
  }

  lemma ShiftedTail(a: Poly, b: Poly, shift: nat, scale: byte)
    requires shift > 0
    ensures Tail(AddShifted(a, b, shift, scale)) == AddShifted(Tail(a), b, shift - 1, scale)
    ensures Coef(AddShifted(a, b, shift, scale), 0) == Coef(a, 0)
  {
    hide Add, Mul;
    var r, t := AddShifted(a, b, shift, scale), AddShifted(Tail(a), b, shift - 1, scale);
    assert |Tail(r)| == |t|;
    hide AddShifted, Coef, Tail;
    forall i: nat | i < |t|
      ensures Coef(Tail(r), i) == Coef(t, i)
    {
      TailCoef(r, i);
      TailCoef(a, i);
      AddShiftedCoef(a, b, shift, scale, i + 1);
      AddShiftedCoef(Tail(a), b, shift - 1, scale, i);
    }
    SameCoefs(Tail(r), t);
    ShiftedHead(a, b, shift, scale);
  }

  lemma ShiftedHead(a: Poly, b: Poly, shift: nat, scale: byte)
    requires shift > 0
    ensures Coef(AddShifted(a, b, shift, scale), 0) == Coef(a, 0)
  {
    hide Add, Mul;
    AddShiftedCoef(a, b, shift, scale, 0);
    MulZero(scale);
    AddZero(Coef(a, 0));
  }

  lemma UnshiftedTail(a: Poly, b: Poly, scale: byte)
    ensures Tail(AddShifted(a, b, 0, scale)) == AddShifted(Tail(a), Tail(b), 0, scale)
    ensures Coef(AddShifted(a, b, 0, scale), 0) == Add(Coef(a, 0), Mul(Coef(b, 0), scale))
  {
    hide Add, Mul;
    var r, t := AddShifted(a, b, 0, scale), AddShifted(Tail(a), Tail(b), 0, scale);
    assert |Tail(r)| == |t|;
    hide AddShifted, Coef, Tail;
    forall i: nat | i < |t|
      ensures Coef(Tail(r), i) == Coef(t, i)
    {
      TailCoef(r, i);
      TailCoef(a, i);
      TailCoef(b, i);
      AddShiftedCoef(a, b, 0, scale, i + 1);
      AddShiftedCoef(Tail(a), Tail(b), 0, scale, i);
    }
    SameCoefs(Tail(r), t);
    AddShiftedCoef(a, b, 0, scale, 0);
  }

  lemma {:induction false} ConvAddShifted(a: Poly, b: Poly, shift: nat, scale: byte, s: seq<byte>, m: int)
    requires m < |s|
    ensures Conv(AddShifted(a, b, shift, scale), s, m) == Add(Conv(a, s, m), Mul(scale, Conv(b, s, m - shift)))
    decreases m + 1
  {
    hide Add, Mul, AddShifted, Conv;
    var r := AddShifted(a, b, shift, scale);
    if m < 0 {
      ConvNegative(r, s, m);
      ConvNegative(a, s, m);
      ConvNegative(b, s, m - shift);
      MulZero(scale);
      AddZero(0);
    } else {
      ConvUnfold(r, s, m);
      ConvUnfold(a, s, m);
      if shift > 0 {
        ShiftedTail(a, b, shift, scale);
        ConvAddShifted(Tail(a), b, shift - 1, scale, s, m - 1);
        AddAssoc(Mul(Coef(a, 0), s[m]), Conv(Tail(a), s, m - 1), Mul(scale, Conv(b, s, m - shift)));
      } else {
        UnshiftedTail(a, b, scale);
        ConvAddShifted(Tail(a), Tail(b), 0, scale, s, m - 1);
        ConvUnfold(b, s, m);
        AddedTerm(Coef(a, 0), Coef(b, 0), scale, s[m], Conv(Tail(a), s, m - 1), Conv(Tail(b), s, m - 1));
      }
    }
  }

  lemma ConvNegative(a: Poly, s: seq<byte>, m: int)
    requires m < 0
    ensures Conv(a, s, m) == 0
  {}

  lemma AddedTerm(a: byte, b: byte, c: byte, x: byte, u: byte, v: byte)
    ensures Add(Mul(Add(a, Mul(b, c)), x), Add(u, Mul(c, v))) == Add(Add(Mul(a, x), u), Mul(c, Add(Mul(b, x), v)))
  {
    hide Add, Mul;
    MulAddLeft(a, Mul(b, c), x);
    MulComm(b, c);
    MulAssoc(c, b, x);
    MulAddRight(c, Mul(b, x), v);
    AddSwap(Mul(a, x), Mul(c, Mul(b, x)), u, Mul(c, v));
  }

  lemma {:induction false} ConvPlus(a: Poly, s: seq<byte>, t: seq<byte>, m: int)
    requires |s| == |t| && m < |s|
    ensures Conv(a, Plus(s, t), m) == Add(Conv(a, s, m), Conv(a, t, m))
  {
    hide Add, Mul;
    if |a| == 0 || m < 0 {
      AddZero(0);
    } else {
      ConvPlus(a[1..], s, t, m - 1);
      MulAddRight(a[0], s[m], t[m]);
      AddSwap(Mul(a[0], s[m]), Mul(a[0], t[m]), Conv(a[1..], s, m - 1), Conv(a[1..], t, m - 1));
    }
  }

  lemma {:induction false} ConvTimes(a: Poly, c: byte, s: seq<byte>, m: int)
    requires m < |s|
    ensures Conv(a, Times(c, s), m) == Mul(c, Conv(a, s, m))
  {
    hide Add, Mul;
    if |a| == 0 || m < 0 {
      MulZero(c);
    } else {
      ConvTimes(a[1..], c, s, m - 1);
      MulAssoc(a[0], c, s[m]);
      MulComm(a[0], c);
      MulAssoc(c, a[0], s[m]);
      MulAddRight(c, Mul(a[0], s[m]), Conv(a[1..], s, m - 1));
    }
  }

  lemma {:induction false} ConvDelay(a: Poly, s: seq<byte>, m: int)
    requires |s| > 0 && m < |s|
    ensures Conv(a, Delay(s), m) == Conv(a, s, m - 1)
  {
    hide Add, Mul;
    if |a| == 0 || m < 0 {
    } else {
      ConvDelay(a[1..], s, m - 1);
      MulZero(a[0]);
      AddZero(0);
    }
  }

  /** A window of zeros predicts zero. */
  lemma {:induction false} ConvZeros(a: Poly, s: seq<byte>, m: int)
    requires m < |s|
    requires forall k :: m - |a| < k <= m && 0 <= k ==> s[k] == 0
    ensures Conv(a, s, m) == 0
  {
    hide Add, Mul;
    if |a| != 0 && m >= 0 {
      ConvZeros(a[1..], s, m - 1);
      MulZero(a[0]);
      AddZero(0);
    }
  }

  /** Multiplying by a and then by b is multiplying by b and then by a. */
  lemma {:induction false} ConvCommutes(a: Poly, b: Poly, s: seq<byte>, n: int)
    requires n < |s|
    ensures Conv(a, Product(b, s), n) == Conv(b, Product(a, s), n)
    decreases |a|
  {
    hide Add, Mul, Conv;
    if n < 0 {
      ConvNegative(a, Product(b, s), n);
      ConvNegative(b, Product(a, s), n);
    } else if |a| == 0 {
      assert forall m :: 0 <= m < |s| ==> Product(a, s)[m] == 0 by { EmptyProduct(s); }
      ConvZeros(b, Product(a, s), n);
      ConvEmpty(Product(b, s), n);
    } else {
      var a' := Tail(a);
      ConvCommutes(a', b, s, n - 1);
      ConvUnfold(a, Product(b, s), n);
      ProductStep(a, s);
      ConvPlus(b, Times(a[0], s), Delay(Product(a', s)), n);
      ConvTimes(b, a[0], s, n);
      ConvDelay(b, Product(a', s), n);
    }
  }

  lemma ConvEmpty(s: seq<byte>, m: int)
    requires m < |s|
    ensures Conv([], s, m) == 0
  {}

  lemma EmptyProduct(s: seq<byte>)
    ensures forall m :: 0 <= m < |s| ==> Product([], s)[m] == 0
  {}

  lemma ProductStep(a: Poly, s: seq<byte>)
    requires |a| > 0 && |s| > 0
    ensures Product(a, s) == Plus(Times(a[0], s), Delay(Product(Tail(a), s)))
  {
    hide Add, Mul;
    forall m | 0 <= m < |s|
      ensures Product(a, s)[m] == Plus(Times(a[0], s), Delay(Product(Tail(a), s)))[m]
    {
      assert Tail(a) == a[1..];
      if m == 0 {
        ConvNegative(a[1..], s, -1);
      }
    }
  }
}
