/** The error locator: why the shortest recurrence of the syndromes vanishes exactly at the damaged positions,
    and what the damage there is. */
module Locator {
  import opened Bits
  import opened GaloisField
  import opened GaloisTables
  import opened Polynomials
  import opened BerlekampMassey
  import opened CodeTheory

  /** 1, X, X^2, ... for X the generator raised to d: the syndromes of a single error at degree d. */
  function Geometric(d: nat, n: nat): (r: seq<byte>)
    ensures |r| == n
  {
    seq(n, j requires 0 <= j < n => Exp(d * j))
  }

  /** The element at which a locator vanishes when degree d is damaged. */
  function Root(d: nat): byte {
    Power(0 - d)
  }

  lemma RootInverts(d: nat)
    ensures Mul(Exp(d), Root(d)) == 1 && Root(d) != 0
  {
    hide Mul, Exp;
    PowersOfInterest();
    ExpReduce(d);
    ExpNonzero((0 - d) % 255);
    ExpAdd(d % 255, (0 - d) % 255);
    OppositeExponents(d);
    FirstPowers();
  }

  lemma OppositeExponents(d: nat)
    ensures d % 255 + (0 - d) % 255 == 0 || d % 255 + (0 - d) % 255 == 255
  {}

  lemma RootsDiffer(d: nat, e: nat)
    requires d < 255 && e < 255 && d != e
    ensures Root(d) != Root(e)
  {
    hide Mul, Exp, Root;
    RootInverts(d);
    RootInverts(e);
    if Root(d) == Root(e) {
      MulComm(Exp(d), Root(d));
      MulComm(Exp(e), Root(d));
      MulCancel(Root(d), Exp(d), Exp(e));
      if d < e { ExpInjective(d, e); } else { ExpInjective(e, d); }
    }
  }

  /** Past its own length a recurrence multiplies a geometric sequence by its ratio. */
  lemma {:induction false} GeometricStep(a: Poly, d: nat, n: nat, m: int)
    requires |a| <= m + 1 && m + 1 < n
    ensures Conv(a, Geometric(d, n), m + 1) == Mul(Exp(d), Conv(a, Geometric(d, n), m))
  {
    hide Add, Mul, Exp;
    if |a| == 0 {
      MulZero(Exp(d));
    } else {
      GeometricStep(a[1..], d, n, m - 1);
      var s := Geometric(d, n);
      assert d * (m + 1) == d + d * m;
      ExpAdd(d, d * m);
      MulAssoc(a[0], Exp(d), s[m]);
      MulComm(a[0], Exp(d));
      MulAssoc(Exp(d), a[0], s[m]);
      MulAddRight(Exp(d), Mul(a[0], s[m]), Conv(a[1..], s, m - 1));
    }
  }

  lemma {:induction false} GeometricRun(a: Poly, d: nat, n: nat, m: nat, i: nat)
    requires |a| <= m + 1 && m + i < n
    ensures Conv(a, Geometric(d, n), m + i) == Mul(Exp(d * i), Conv(a, Geometric(d, n), m))
    decreases i
  {
    hide Add, Mul, Exp, Conv, Geometric;
    var c := Conv(a, Geometric(d, n), m);
    if i == 0 {
      FirstPowers();
      assert d * 0 == 0;
      MulOne(c);
    } else {
      GeometricRun(a, d, n, m, i - 1);
      GeometricStep(a, d, n, m + i - 1);
      ExpAdd(d, d * (i - 1));
      assert d * i == d + d * (i - 1);
      MulAssoc(Exp(d), Exp(d * (i - 1)), c);
    }
  }

  /** A recurrence applied to a geometric sequence is its polynomial at the inverse ratio. */
  lemma {:induction false} GeometricEval(a: Poly, d: nat, n: nat, m: nat)
    requires |a| <= m + 1 && m < n
    ensures Conv(a, Geometric(d, n), m) == Mul(Exp(d * m), Eval(a, Root(d)))
    decreases |a|
  {
    hide Add, Mul, Exp, Root;
    var p := Exp(d * m);
    if |a| == 0 {
      MulZero(p);
    } else {
      var rest := Eval(a[1..], Root(d));
      MulComm(a[0], p);
      MulAddRight(p, a[0], Mul(Root(d), rest));
      if m == 0 {
        assert a[1..] == [];
        MulZero(Root(d));
        MulZero(p);
      } else {
        GeometricEval(a[1..], d, n, m - 1);
        RootInverts(d);
        assert d * m == d + d * (m - 1);
        ExpAdd(d, d * (m - 1));
        CancelRoot(Exp(d), Root(d), Exp(d * (m - 1)), rest);
      }
    }
  }

  lemma CancelRoot(x: byte, r: byte, p: byte, v: byte)
    requires Mul(x, r) == 1
    ensures Mul(Mul(x, p), Mul(r, v)) == Mul(p, v)
  {
    hide Mul;
    MulComm(x, p);
    MulAssoc(p, x, Mul(r, v));
    MulAssoc(x, r, v);
    MulOne(v);
  }

  /** A recurrence applied to the syndromes is the sum over the errors of what it does to each. */
  lemma {:induction false} SyndromesConv(a: Poly, w: Word, n: nat, m: nat, g: nat -> byte, i: nat)
    requires m < n
    requires forall d: nat :: d < |w| ==> Conv(a, Geometric(d, n), m) == Mul(Exp(d * i), g(d))
    ensures Conv(a, Syndromes(w, n), m) == Syndrome(Reweigh(w, g), i)
    decreases |w|
  {
    hide Add, Mul, Exp, Conv, Geometric;
    if |w| == 0 {
      ConvZeros(a, Syndromes(w, n), m);
    } else {
      var d: nat := |w| - 1;
      SyndromesConv(a, w[1..], n, m, g, i);
      SyndromesCons(w, n);
      ConvPlus(a, Times(w[0], Geometric(d, n)), Syndromes(w[1..], n), m);
      ConvTimes(a, w[0], Geometric(d, n), m);
      MulComm(Exp(d * i), g(d));
      MulAssoc(w[0], g(d), Exp(d * i));
      assert Reweigh(w, g)[1..] == Reweigh(w[1..], g);
    }
  }

  lemma SyndromesCons(w: Word, n: nat)
    requires |w| > 0
    ensures Syndromes(w, n) == Plus(Times(w[0], Geometric(|w| - 1, n)), Syndromes(w[1..], n))
  {
    hide Add, Mul, Exp;
  }

  /** A recurrence of the syndromes vanishes at every damaged position, if together with the number of damaged
      positions it is no longer than the syndrome sequence. */
  lemma RecurrenceVanishes(a: Poly, len: nat, w: Word, n: nat, d: nat)
    requires |w| <= 255 && Generates(a, len, Syndromes(w, n), n)
    requires len + |Support(w)| <= n
    requires d in Support(w)
    ensures Eval(a, Root(d)) == 0
  {
    hide Add, Mul, Exp, Conv, Geometric, Syndrome, Syndromes, Support, Eval;
    var g := (k: nat) => if len < n then Conv(a, Geometric(k, n), len) else 0;
    assert |Support(w)| > 0;
    forall i: nat | i < |Support(w)|
      ensures Syndrome(Reweigh(w, g), i) == 0
    {
      forall k: nat | k < |w|
        ensures Conv(a, Geometric(k, n), len + i) == Mul(Exp(k * i), g(k))
      {
        GeometricRun(a, k, n, len, i);
      }
      SyndromesConv(a, w, n, len + i, g, i);
    }
    var v := Reweigh(w, g);
    ReweighSupport(w, g);
    SubsetSize(Support(v), Support(w));
    Vandermonde(v, |Support(w)|);
    assert d !in Support(v);
    assert g(d) == 0;
    GeometricEval(a, d, n, len);
    ExpNonzero(d * len);
    if Eval(a, Root(d)) != 0 {
      MulNonzero(Exp(d * len), Eval(a, Root(d)));
    }
  }

  // ----- a recurrence as long as the number of damaged positions exists

  function ErrorLocator(w: Word): (r: Poly)
    ensures |r| >= 1
  {
    if |w| == 0 then [1]
    else
      var rest := ErrorLocator(w[1..]);
      if w[0] == 0 then rest else AddShifted(rest, rest, 1, Exp(|w| - 1))
  }

  lemma {:induction false} LocatorShape(w: Word)
    ensures |ErrorLocator(w)| == |Support(w)| + 1 && ErrorLocator(w)[0] == 1
  {
    hide Add, Mul, Exp, AddShifted;
    if |w| > 0 {
      SupportCons(w);
      LocatorShape(w[1..]);
      var rest := ErrorLocator(w[1..]);
      ShiftedHead(rest, rest, 1, Exp(|w| - 1));
    }
  }

  /** The factor for degree d makes a recurrence vanish on the powers belonging to d. */
  lemma NewFactor(a: Poly, d: nat, n: nat, m: nat)
    requires |a| <= m < n
    ensures Conv(AddShifted(a, a, 1, Exp(d)), Geometric(d, n), m) == 0
  {
    hide Add, Mul, Exp, Conv, Geometric, AddShifted;
    var s := Geometric(d, n);
    ConvAddShifted(a, a, 1, Exp(d), s, m);
    GeometricStep(a, d, n, m - 1);
    AddZero(Conv(a, s, m));
  }

  lemma OldFactor(a: Poly, x: byte, s: seq<byte>, m: nat)
    requires m < |s| && Conv(a, s, m) == 0 && Conv(a, s, m - 1) == 0
    ensures Conv(AddShifted(a, a, 1, x), s, m) == 0
  {
    hide Add, Mul, Conv, AddShifted;
    ConvAddShifted(a, a, 1, x, s, m);
    MulZero(x);
    AddZero(0);
  }

  lemma {:induction false} LocatorVanishes(w: Word, d: nat, n: nat, m: nat)
    requires d in Support(w) && |Support(w)| <= m < n
    ensures Conv(ErrorLocator(w), Geometric(d, n), m) == 0
    decreases |w|
  {
    hide Add, Mul, Exp, Conv, Geometric, AddShifted, Support;
    if |w| == 0 {
      SupportRange(w);
    } else {
      SupportCons(w);
      var rest := ErrorLocator(w[1..]);
      if w[0] == 0 {
        LocatorVanishes(w[1..], d, n, m);
      } else if d == |w| - 1 {
        LocatorShape(w[1..]);
        NewFactor(rest, d, n, m);
      } else {
        LocatorVanishes(w[1..], d, n, m);
        LocatorVanishes(w[1..], d, n, m - 1);
        OldFactor(rest, Exp(|w| - 1), Geometric(d, n), m);
      }
    }
  }

  lemma {:induction false} SupportWordZero(w: Word, g: nat -> byte)
    requires forall d :: d in Support(w) ==> g(d) == 0
    ensures Syndrome(Reweigh(w, g), 0) == 0
  {
    hide Add, Mul, Syndrome, Reweigh;
    ReweighSupport(w, g);
    ZeroWordSyndrome(Reweigh(w, g), 0);
  }

  lemma LocatorGenerates(w: Word, n: nat)
    ensures Generates(ErrorLocator(w), |Support(w)|, Syndromes(w, n), n)
  {
    hide Add, Mul, Exp, Conv, Geometric, Syndrome, Syndromes, ErrorLocator, Support;
    LocatorShape(w);
    var a := ErrorLocator(w);
    forall m: nat | |Support(w)| <= m < n
      ensures Conv(a, Syndromes(w, n), m) == 0
    {
      var g := (k: nat) => Conv(a, Geometric(k, n), m);
      forall k: nat | k < |w| ensures Conv(a, Geometric(k, n), m) == Mul(Exp(k * 0), g(k)) {
        FirstPowers();
        MulOne(g(k));
      }
      SyndromesConv(a, w, n, m, g, 0);
      forall d | d in Support(w) ensures g(d) == 0 {
        LocatorVanishes(w, d, n, m);
      }
      SupportWordZero(w, g);
    }
  }
}
