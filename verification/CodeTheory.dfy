/** The Reed-Solomon code: syndromes as weighted power sums, its distance, and what a locator must vanish on. */
module CodeTheory {
  import opened Bits
  import opened GaloisField
  import opened Polynomials

  /** A block of bytes, highest degree first, as it is transmitted. */
  type Word = seq<byte>

  /** The word as a polynomial, at the generator raised to j. */
  function Syndrome(w: Word, j: nat): byte {
    if |w| == 0 then 0 else Add(Mul(w[0], Exp((|w| - 1) * j)), Syndrome(w[1..], j))
  }

  function Syndromes(w: Word, n: nat): (r: seq<byte>)
    ensures |r| == n
  {
    seq(n, j requires 0 <= j < n => Syndrome(w, j))
  }

  /** The codewords with eccLen error-correction bytes: every syndrome is zero. */
  ghost predicate IsCodeword(w: Word, eccLen: nat) {
    forall j: nat :: j < eccLen ==> Syndrome(w, j) == 0
  }

  /** The byte that multiplies the generator's d-th power. */
  function At(w: Word, d: nat): byte {
    if d < |w| then w[|w| - 1 - d] else 0
  }

  /** The degrees at which the word is not zero. */
  function Support(w: Word): set<nat> {
    set d: nat | d < |w| && At(w, d) != 0
  }

  function Diff(u: Word, v: Word): (r: Word)
    requires |u| == |v|
    ensures |r| == |u|
  {
    Plus(u, v)
  }

  /** In how many bytes two words differ. */
  function Distance(u: Word, v: Word): nat
    requires |u| == |v|
  {
    |Support(Diff(u, v))|
  }

  lemma SupportCons(w: Word)
    requires |w| > 0
    ensures Support(w) == Support(w[1..]) + (if w[0] != 0 then {|w| - 1} else {})
    ensures |Support(w)| == |Support(w[1..])| + (if w[0] != 0 then 1 else 0)
  {
    var d: nat := |w| - 1;
    assert forall k: nat :: k < d ==> At(w[1..], k) == At(w, k);
    assert Support(w) == Support(w[1..]) + (if w[0] != 0 then {d} else {});
    assert d !in Support(w[1..]);
  }

  // ----- syndromes are linear

  lemma {:induction false} SyndromePlus(u: Word, v: Word, j: nat)
    requires |u| == |v|
    ensures Syndrome(Plus(u, v), j) == Add(Syndrome(u, j), Syndrome(v, j))
  {
    hide Add, Mul, Exp;
    if |u| == 0 {
      AddZero(0);
    } else {
      assert Plus(u, v)[1..] == Plus(u[1..], v[1..]);
      SyndromePlus(u[1..], v[1..], j);
      var x := Exp((|u| - 1) * j);
      MulAddLeft(u[0], v[0], x);
      AddSwap(Mul(u[0], x), Mul(v[0], x), Syndrome(u[1..], j), Syndrome(v[1..], j));
    }
  }

  lemma {:induction false} ZeroWordSyndrome(w: Word, j: nat)
    requires Support(w) == {}
    ensures Syndrome(w, j) == 0
  {
    hide Add, Mul, Exp;
    if |w| != 0 {
      SupportCons(w);
      ZeroWordSyndrome(w[1..], j);
      MulZero(Exp((|w| - 1) * j));
      AddZero(0);
    }
  }

  lemma {:induction false} SingleSyndromeZero(w: Word, d: nat)
    requires Support(w) == {d}
    ensures Syndrome(w, 0) != 0
  {
    assert |w| > 0 by { assert d in Support(w); }
    hide Mul, Add, Support;
    SupportCons(w);
    assert Exp((|w| - 1) * 0) == 1;
    MulOne(w[0]);
    AddZero(w[0]);
    AddZero(Syndrome(w[1..], 0));
    if w[0] != 0 {
      OnlyHead(w, d);
      ZeroWordSyndrome(w[1..], 0);
    } else {
      SingleSyndromeZero(w[1..], d);
    }
  }

  lemma OnlyHead(w: Word, d: nat)
    requires Support(w) == {d} && |w| > 0 && w[0] != 0
    ensures Support(w[1..]) == {}
  {
    SupportCons(w);
    assert |w| - 1 in Support(w);
  }

  // ----- few nonzero bytes cannot hide from as many syndromes

  /** Each byte multiplied by a factor that depends on its degree. */
  function Reweigh(w: Word, g: nat -> byte): (r: Word)
    ensures |r| == |w|
  {
    if |w| == 0 then [] else [Mul(w[0], g(|w| - 1))] + Reweigh(w[1..], g)
  }

  lemma {:induction false} ReweighAt(w: Word, g: nat -> byte, d: nat)
    requires d < |w|
    ensures At(Reweigh(w, g), d) == Mul(At(w, d), g(d))
  {
    hide Mul;
    if d < |w| - 1 {
      ReweighAt(w[1..], g, d);
    }
  }

  lemma ReweighSupport(w: Word, g: nat -> byte)
    ensures Support(Reweigh(w, g)) == set d | d in Support(w) && g(d) != 0
  {
    hide Mul;
    forall d: nat | d < |w|
      ensures At(Reweigh(w, g), d) != 0 <==> At(w, d) != 0 && g(d) != 0
    {
      ReweighAt(w, g, d);
      MulZero(At(w, d));
      MulZero(g(d));
      if At(w, d) != 0 && g(d) != 0 {
        MulNonzero(At(w, d), g(d));
      }
    }
  }

  /** Weighing by the distance to x turns neighbouring syndromes into their difference. */
  lemma {:induction false} ReweighSyndrome(w: Word, x: byte, g: nat -> byte, j: nat)
    requires forall d: nat :: g(d) == Add(Exp(d), x)
    ensures Syndrome(Reweigh(w, g), j) == Add(Syndrome(w, j + 1), Mul(x, Syndrome(w, j)))
  {
    hide Add, Mul, Exp;
    if |w| == 0 {
      MulZero(x);
      AddZero(0);
    } else {
      ReweighSyndrome(w[1..], x, g, j);
      var d: nat := |w| - 1;
      ExpAdd(d, d * j);
      assert d * (j + 1) == d + d * j;
      WeighTerm(w[0], Exp(d), x, Exp(d * j), Syndrome(w[1..], j + 1), Syndrome(w[1..], j));
    }
  }

  lemma WeighTerm(c: byte, e: byte, x: byte, p: byte, u: byte, v: byte)
    ensures Add(Mul(Mul(c, Add(e, x)), p), Add(u, Mul(x, v))) == Add(Add(Mul(c, Mul(e, p)), u), Mul(x, Add(Mul(c, p), v)))
  {
    hide Add, Mul;
    MulAddRight(c, e, x);
    MulAddLeft(Mul(c, e), Mul(c, x), p);
    MulAssoc(c, e, p);
    MulComm(c, x);
    MulAssoc(x, c, p);
    MulAddRight(x, Mul(c, p), v);
    AddSwap(Mul(c, Mul(e, p)), Mul(x, Mul(c, p)), u, Mul(x, v));
  }

  /** A word with at most n nonzero bytes and n zero syndromes is zero. */
  lemma {:induction false} Vandermonde(w: Word, n: nat)
    requires |w| <= 255 && |Support(w)| <= n
    requires forall j: nat :: j < n ==> Syndrome(w, j) == 0
    ensures Support(w) == {}
    decreases n
  {
    hide Add, Mul, Exp, Syndrome, Support;
    if Support(w) != {} {
      var d :| d in Support(w);
      SupportRange(w);
      var x := Exp(d);
      var g := (k: nat) => Add(Exp(k), x);
      ReweighSupport(w, g);
      forall k | k in Support(w)
        ensures g(k) != 0 <==> k != d
      {
        AddCancel(Exp(k), x);
        if k < d { ExpInjective(k, d); } else if d < k { ExpInjective(d, k); }
      }
      var v := Reweigh(w, g);
      assert Support(v) == Support(w) - {d};
      forall j: nat | j < n - 1 ensures Syndrome(v, j) == 0 {
        ReweighSyndrome(w, x, g, j);
        MulZero(x);
        AddZero(0);
      }
      Vandermonde(v, n - 1);
      assert Support(w) == {d};
      SingleSyndromeZero(w, d);
    }
  }

  lemma SupportRange(w: Word)
    ensures forall d :: d in Support(w) ==> d < |w|
  {}

  lemma {:induction false} EmptySupport(w: Word)
    requires Support(w) == {}
    ensures forall i :: 0 <= i < |w| ==> w[i] == 0
  {
    if |w| > 0 {
      SupportCons(w);
      EmptySupport(w[1..]);
    }
  }

  lemma DiffZero(u: Word, v: Word)
    requires |u| == |v|
    ensures Support(Diff(u, v)) == {} <==> u == v
  {
    hide Add;
    if Support(Diff(u, v)) == {} {
      EmptySupport(Diff(u, v));
      forall i | 0 <= i < |u| ensures u[i] == v[i] {
        assert Diff(u, v)[i] == 0;
        AddCancel(u[i], v[i]);
      }
    }
    if u == v {
      forall i | 0 <= i < |u| ensures Diff(u, v)[i] == 0 {
        AddZero(u[i]);
      }
    }
  }

  lemma DiffSupport(u: Word, v: Word)
    requires |u| == |v|
    ensures Support(Diff(u, v)) == set d: nat | d < |u| && At(u, d) != At(v, d)
  {
    hide Add;
    forall d: nat | d < |u|
      ensures At(Diff(u, v), d) != 0 <==> At(u, d) != At(v, d)
    {
      AddCancel(At(u, d), At(v, d));
    }
  }

  lemma DistanceTriangle(u: Word, v: Word, w: Word)
    requires |u| == |v| == |w|
    ensures Distance(u, w) <= Distance(u, v) + Distance(v, w)
    ensures Distance(u, v) == Distance(v, u)
  {
    hide Add, Diff, Support;
    DiffSupport(u, w);
    DiffSupport(u, v);
    DiffSupport(v, u);
    DiffSupport(v, w);
    var a, b := Support(Diff(u, v)), Support(Diff(v, w));
    assert Support(Diff(u, w)) <= a + b;
    SubsetSize(Support(Diff(u, w)), a + b);
    assert |a + b| == |a| + |b| - |a * b|;
    assert Support(Diff(v, u)) == a;
  }

  lemma SubsetSize<T>(a: set<T>, b: set<T>)
    requires a <= b
    ensures |a| <= |b|
  {
    assert b == a + (b - a);
  }

  /** Two different codewords differ in more than eccLen bytes. */
  lemma MinimumDistance(u: Word, v: Word, eccLen: nat)
    requires |u| == |v| <= 255
    requires IsCodeword(u, eccLen) && IsCodeword(v, eccLen) && u != v
    ensures Distance(u, v) > eccLen
  {
    hide Add, Syndrome, Support;
    if Distance(u, v) <= eccLen {
      forall j: nat | j < eccLen ensures Syndrome(Diff(u, v), j) == 0 {
        SyndromePlus(u, v, j);
        AddZero(0);
      }
      Vandermonde(Diff(u, v), eccLen);
      DiffZero(u, v);
    }
  }

  /** No word is within half the redundancy of two codewords. */
  lemma UniqueDecoding(r: Word, u: Word, v: Word, eccLen: nat)
    requires |r| == |u| == |v| <= 255
    requires IsCodeword(u, eccLen) && IsCodeword(v, eccLen)
    requires Distance(r, u) <= eccLen / 2 && Distance(r, v) <= eccLen / 2
    ensures u == v
  {
    hide Distance, Syndrome;
    if u != v {
      MinimumDistance(u, v, eccLen);
      DistanceTriangle(u, r, v);
      DistanceTriangle(r, u, r);
    }
  }
}
