/** Block repair: syndromes, root search and correct of cli/internal/qr/rs.go. */
module ReedSolomon {
  import opened Bits
  import opened IncreasingLists
  import opened GaloisField
  import opened GaloisTables
  import opened Polynomials
  import BerlekampMassey
  import opened CodeTheory
  import opened Locator
  import Forney

  // ----- polynomial loops

  method PolyEval(f: Field, p: Poly, x: byte) returns (acc: byte)
    requires f.Valid()
    ensures acc == Eval(p, x)
  {
    hide Add, Mul;
    acc := 0;
    var i := |p| - 1;
    while i >= 0
      invariant -1 <= i < |p|
      invariant acc == Eval(p[i + 1..], x)
    {
      assert p[i..][1..] == p[i + 1..];
      MulComm(acc, x);
      AddComm(Mul(acc, x), p[i]);
      acc := Add(f.GfMul(acc, x), p[i]);
      i := i - 1;
    }
  }

  function Padded(a: Poly, n: nat): (r: seq<byte>)
    ensures |r| == n
  {
    seq(n, i => Coef(a, i))
  }

  function Unit(i: nat, x: byte, n: nat): (r: seq<byte>)
    ensures |r| == n
  {
    seq(n, k => if k == i then x else 0)
  }

  lemma {:induction false} ConvUnit(b: Poly, i: nat, x: byte, n: nat, k: int)
    requires k < n
    ensures Conv(b, Unit(i, x, n), k) == Mul(Coef(b, k - i), x)
  {
    hide Add, Mul;
    MulZero(x);
    if |b| == 0 || k < 0 {
    } else {
      ConvUnit(b[1..], i, x, n, k - 1);
      MulZero(b[0]);
      AddZero(Mul(b[0], x));
      AddZero(Mul(Coef(b, k - i), x));
    }
  }

  /** Adding row i of the schoolbook product. */
  lemma ProductRow(a: Poly, b: Poly, i: nat, n: nat, k: nat)
    requires i < |a| <= n && k < n
    ensures Conv(b, Padded(a[..i + 1], n), k) == Add(Conv(b, Padded(a[..i], n), k), Mul(a[i], Coef(b, k - i)))
  {
    hide Add, Mul, Conv;
    forall j | 0 <= j < n
      ensures Padded(a[..i + 1], n)[j] == Plus(Padded(a[..i], n), Unit(i, a[i], n))[j]
    {
      AddZero(Coef(a[..i], j));
      AddZero(a[i]);
    }
    assert Padded(a[..i + 1], n) == Plus(Padded(a[..i], n), Unit(i, a[i], n));
    ConvPlus(b, Padded(a[..i], n), Unit(i, a[i], n), k);
    ConvUnit(b, i, a[i], n, k);
    MulComm(Coef(b, k - i), a[i]);
  }

  lemma EmptyRow(b: Poly, n: nat, k: nat)
    requires k < n
    ensures Conv(b, Padded([], n), k) == 0
  {
    ConvZeros(b, Padded([], n), k);
  }

  method PolyMul(f: Field, a: Poly, b: Poly) returns (r: Poly)
    requires f.Valid()
    ensures |a| == 0 || |b| == 0 ==> r == []
    ensures |a| > 0 && |b| > 0 ==> |r| == |a| + |b| - 1 && forall k :: 0 <= k < |r| ==> r[k] == Conv(b, Padded(a, |r|), k)
  {
    hide Add, Mul, Conv, Padded;
    if |a| == 0 || |b| == 0 {
      return [];
    }
    var n := |a| + |b| - 1;
    var out := new byte[n](_ => 0);
    forall k | 0 <= k < n ensures Conv(b, Padded(a[..0], n), k) == 0 {
      EmptyRow(b, n, k);
    }
    for i := 0 to |a|
      invariant forall k :: 0 <= k < n ==> out[k] == Conv(b, Padded(a[..i], n), k)
    {
      forall k | 0 <= k < n
        ensures Conv(b, Padded(a[..i + 1], n), k) == Add(Conv(b, Padded(a[..i], n), k), Mul(a[i], Coef(b, k - i)))
      {
        ProductRow(a, b, i, n, k);
      }
      MulZero(a[i]);
      RowOutside(a[i], b);
      if a[i] != 0 {
        for j := 0 to |b|
          invariant forall k :: 0 <= k < n ==>
            out[k] == if k < i + j then Conv(b, Padded(a[..i + 1], n), k) else Conv(b, Padded(a[..i], n), k)
        {
          out[i + j] := Add(out[i + j], f.GfMul(a[i], b[j]));
        }
      }
    }
    assert a[..|a|] == a;
    r := out[..];
  }

  lemma RowOutside(c: byte, b: Poly)
    ensures forall u: byte, k: int :: (c == 0 || k < 0 || k >= |b|) ==> Add(u, Mul(c, Coef(b, k))) == u
  {
    hide Add, Mul;
    MulZero(c);
    forall u: byte, k: int | c == 0 || k < 0 || k >= |b| ensures Add(u, Mul(c, Coef(b, k))) == u {
      AddZero(u);
      MulZero(Coef(b, k));
    }
  }

  lemma {:induction false} ConvPrefix(b: Poly, s: seq<byte>, t: seq<byte>, m: int)
    requires m < |s| && m < |t|
    requires forall k :: 0 <= k <= m ==> s[k] == t[k]
    ensures Conv(b, s, m) == Conv(b, t, m)
  {
    hide Add, Mul;
    if |b| > 0 && m >= 0 {
      ConvPrefix(b[1..], s, t, m - 1);
    }
  }

  method FormalDerivative(p: Poly) returns (r: Poly)
    ensures r == Forney.Derivative(p)
  {
    if |p| <= 1 {
      return [0];
    }
    var out := new byte[|p| - 1](_ => 0);
    for i := 1 to |p|
      invariant forall k :: 0 <= k < |p| - 1 ==> out[k] == if k < i - 1 && k % 2 == 0 then p[k + 1] else 0
    {
      if i % 2 == 1 {
        out[i - 1] := p[i];
      }
    }
    r := out[..];
  }

  // ----- syndromes

  lemma {:induction false} HornerStep(w: Word, c: byte, j: nat)
    ensures Syndrome(w + [c], j) == Add(Mul(Syndrome(w, j), Exp(j)), c)
    decreases |w|
  {
    hide Add, Mul, Exp;
    if |w| == 0 {
      assert (w + [c])[1..] == [];
      assert 0 * j == 0;
      FirstPowers();
      MulOne(c);
      MulZero(Exp(j));
      AddZero(c);
    } else {
      HornerStep(w[1..], c, j);
      assert (w + [c])[1..] == w[1..] + [c];
      var d := |w| - 1;
      assert (d + 1) * j == d * j + j;
      ExpAdd(d * j, j);
      MulAssoc(w[0], Exp(d * j), Exp(j));
      MulAddLeft(Mul(w[0], Exp(d * j)), Syndrome(w[1..], j), Exp(j));
      AddAssoc(Mul(w[0], Exp(d * j + j)), Mul(Syndrome(w[1..], j), Exp(j)), c);
    }
  }

  method ComputeSyndromes(f: Field, codeword: Word, eccLen: nat) returns (r: seq<byte>)
    requires f.Valid()
    ensures r == Syndromes(codeword, eccLen)
  {
    hide Add, Mul, Exp, Syndrome;
    r := [];
    for j := 0 to eccLen
      invariant |r| == j && forall k :: 0 <= k < j ==> r[k] == Syndrome(codeword, k)
    {
      var x := f.GfPow(j);
      ExpReduce(j);
      var acc: byte := 0;
      EmptySyndrome(j);
      for i := 0 to |codeword|
        invariant acc == Syndrome(codeword[..i], j)
      {
        HornerStep(codeword[..i], codeword[i], j);
        assert codeword[..i] + [codeword[i]] == codeword[..i + 1];
        acc := Add(f.GfMul(acc, x), codeword[i]);
      }
      assert codeword[..|codeword|] == codeword;
      r := r + [acc];
    }
  }

  lemma EmptySyndrome(j: nat)
    ensures Syndrome([], j) == 0
  {}

  // ----- root search

  function Degree(p: Poly): (d: nat)
    requires |p| >= 1
    ensures d < |p| && (d > 0 ==> p[d] != 0)
    ensures forall k :: d < k < |p| ==> p[k] == 0
  {
    if |p| == 1 || p[|p| - 1] != 0 then |p| - 1 else Degree(p[..|p| - 1])
  }

  /** The degrees below n at which the locator vanishes. */
  function RootSet(p: Poly, n: nat): set<nat> {
    set d: nat | d < n && Eval(p, Root(d)) == 0
  }

  lemma ConstantHasNoRoots(p: Poly, x: byte)
    requires |p| >= 1 && p[0] == 1 && Degree(p) == 0
    ensures Eval(p, x) == 1
  {
    hide Add, Mul;
    Forney.EvalSameCoefs(p, [1], x);
    MulZero(x);
    AddZero(1);
  }

  method FindErrorPositions(f: Field, lambda: Poly, codewordLen: nat) returns (positions: seq<nat>, ok: bool)
    requires f.Valid() && |lambda| >= 1 && lambda[0] == 1
    ensures Increasing(positions) && Elements(positions) == RootSet(lambda, codewordLen)
    ensures ok <==> |positions| == Degree(lambda)
  {
    hide Add, Mul, Exp, Eval;
    var degree := |lambda| - 1;
    while degree > 0 && lambda[degree] == 0
      invariant 0 <= degree < |lambda|
      invariant Degree(lambda) == Degree(lambda[..degree + 1])
    {
      assert lambda[..degree + 1][..degree] == lambda[..degree];
      degree := degree - 1;
    }
    assert degree == Degree(lambda);
    positions := [];
    if degree == 0 {
      forall d: nat | d < codewordLen ensures Eval(lambda, Root(d)) != 0 {
        ConstantHasNoRoots(lambda, Root(d));
      }
      return positions, true;
    }
    for j := 0 to codewordLen
      invariant Increasing(positions) && forall i :: 0 <= i < |positions| ==> positions[i] < j
      invariant Elements(positions) == RootSet(lambda, j)
    {
      assert RootSet(lambda, j + 1) == RootSet(lambda, j) + (if Eval(lambda, Root(j)) == 0 then {j} else {});
      var v := PolyEval(f, lambda, f.GfPow(-j));
      if v == 0 {
        assert Elements(positions + [j]) == Elements(positions) + {j};
        positions := positions + [j];
      }
    }
    ok := |positions| == degree;
  }

  // ----- repair

  ghost predicate CloseCodeword(r: Word, c: Word, eccLen: nat) {
    |c| == |r| && IsCodeword(c, eccLen) && Distance(r, c) <= eccLen / 2
  }

  /** Some codeword is within half the redundancy of the received block, and the block has a legal size. */
  ghost predicate Correctable(r: Word, eccLen: int) {
    0 < eccLen < |r| <= 255 && exists c: Word :: CloseCodeword(r, c, eccLen)
  }

  lemma ErrorSyndromes(r: Word, c: Word, eccLen: nat)
    requires CloseCodeword(r, c, eccLen)
    ensures Syndromes(r, eccLen) == Syndromes(Diff(r, c), eccLen)
  {
    hide Add, Syndrome, Support;
    forall j | 0 <= j < eccLen ensures Syndrome(r, j) == Syndrome(Diff(r, c), j) {
      SyndromePlus(r, c, j);
      AddZero(Syndrome(r, j));
    }
  }

  lemma DegreeBound(p: Poly, ds: set<nat>)
    requires |p| >= 1 && p[0] == 1
    requires forall d :: d in ds ==> d < 255 && Eval(p, Root(d)) == 0
    ensures |ds| <= Degree(p)
  {
    var q := p[..Degree(p) + 1];
    hide Add, Mul, Root, Eval;
    forall d | d in ds ensures Eval(q, Root(d)) == 0 {
      Forney.EvalSameCoefs(p, q, Root(d));
    }
    Forney.RootBound(q, ds);
  }

  /** A locator of least possible degree that vanishes at every damaged position. */
  ghost predicate Exact(r: Word, c: Word, lambda: Poly)
    requires |c| == |r|
  {
    && |lambda| == |Support(Diff(r, c))| + 1 && lambda[|lambda| - 1] != 0
    && forall d :: d in Support(Diff(r, c)) ==> Eval(lambda, Root(d)) == 0
  }

  /** The shortest recurrence of the syndromes has exactly the damaged positions as its roots. */
  lemma LocatorIsExact(r: Word, c: Word, eccLen: nat, lambda: Poly, len: nat)
    requires |r| <= 255 && CloseCodeword(r, c, eccLen)
    requires BerlekampMassey.Generates(lambda, len, Syndromes(r, eccLen), eccLen)
    requires BerlekampMassey.Shortest(len, Syndromes(r, eccLen), eccLen)
    ensures RootSet(lambda, |r|) == Support(Diff(r, c)) && Degree(lambda) == |Support(Diff(r, c))|
    ensures Exact(r, c, lambda)
  {
    hide Add, Mul, Root, Eval, Conv, Syndrome, Syndromes, Support, Diff, ErrorLocator;
    var e := Diff(r, c);
    var ds := Support(e);
    SupportRange(e);
    ErrorSyndromes(r, c, eccLen);
    LocatorGenerates(e, eccLen);
    assert len <= |ds|;
    forall d | d in ds ensures Eval(lambda, Root(d)) == 0 {
      RecurrenceVanishes(lambda, len, e, eccLen, d);
    }
    DegreeBound(lambda, ds);
    var roots := RootSet(lambda, |r|);
    assert ds <= roots;
    DegreeBound(lambda, roots);
    SubsetSize(ds, roots);
    SubsetOfSameSize(ds, roots);
  }

  /** With an exact locator, the quotient computed at each root is the damage there. */
  lemma QuotientIsDamage(r: Word, c: Word, eccLen: nat, lambda: Poly, d: nat, quotient: byte)
    requires |r| <= 255 && CloseCodeword(r, c, eccLen)
    requires Exact(r, c, lambda)
    requires d in Support(Diff(r, c))
    ensures Eval(Forney.Derivative(lambda), Root(d)) != 0
    ensures Mul(quotient, Eval(Forney.Derivative(lambda), Root(d))) == Eval(Product(lambda, Syndromes(r, eccLen)), Root(d)) ==>
      Add(At(r, d), Mul(Exp(d), quotient)) == At(c, d)
  {
    hide Add, Mul, Exp, Root, Eval, Conv, Syndrome, Syndromes, Product, Forney.Derivative, Support;
    var e := Diff(r, c);
    SupportRange(e);
    ErrorSyndromes(r, c, eccLen);
    Forney.EvaluatorAtRoot(lambda, e, eccLen, d);
    Forney.DerivativeNonzero(lambda, Support(e), d);
    var denom := Eval(Forney.Derivative(lambda), Root(d));
    var omega := Eval(Product(lambda, Syndromes(r, eccLen)), Root(d));
    if Mul(quotient, denom) == omega {
      Forney.Magnitude(At(e, d), d, denom, omega, quotient);
      AddCancel(At(r, d), At(c, d));
    }
  }

  lemma ZeroSyndromes(w: Word, eccLen: nat)
    ensures (forall j :: 0 <= j < eccLen ==> Syndromes(w, eccLen)[j] == 0) <==> IsCodeword(w, eccLen)
  {
    hide Syndrome;
    forall j: nat | j < eccLen ensures Syndromes(w, eccLen)[j] == Syndrome(w, j) {}
  }

  lemma SelfDistance(w: Word)
    ensures Distance(w, w) == 0
  {
    DiffZero(w, w);
  }

  method AllZero(s: seq<byte>) returns (clean: bool)
    ensures clean <==> forall j :: 0 <= j < |s| ==> s[j] == 0
  {
    for i := 0 to |s|
      invariant forall j :: 0 <= j < i ==> s[j] == 0
    {
      if s[i] != 0 {
        return false;
      }
    }
    return true;
  }

  /** The error evaluator: the product of syndromes and locator, cut to as many terms as there are syndromes. */
  method Evaluator(f: Field, synd: seq<byte>, lambda: Poly) returns (omega: Poly)
    requires f.Valid() && |synd| > 0 && |lambda| > 0
    ensures omega == Product(lambda, synd)
  {
    hide Conv, Add, Mul;
    omega := PolyMul(f, synd, lambda);
    var n := |omega|;
    forall k | 0 <= k < |synd| ensures Conv(lambda, Padded(synd, n), k) == Conv(lambda, synd, k) {
      ConvPrefix(lambda, Padded(synd, n), synd, k);
    }
    if |omega| > |synd| {
      omega := omega[..|synd|];
    }
  }

  /** Forney's quotient at one position, unless the locator's derivative is zero there. */
  method Magnitude(f: Field, omega: Poly, derivative: Poly, j: nat) returns (finite: bool, magnitude: byte, ghost quotient: byte)
    requires f.Valid()
    ensures finite <==> Eval(derivative, Root(j)) != 0
    ensures finite ==> Mul(quotient, Eval(derivative, Root(j))) == Eval(omega, Root(j))
    ensures finite ==> magnitude == Mul(Exp(j), quotient)
  {
    hide Mul, Exp, Eval;
    var xInv := f.GfPow(0 - (j as int));
    var denom := PolyEval(f, derivative, xInv);
    if denom == 0 {
      return false, 0, 0;
    }
    var value := PolyEval(f, omega, xInv);
    var q := f.GfDiv(value, denom);
    ExpReduce(j);
    return true, f.GfMul(f.GfPow(j), q), q;
  }

  /** The correction loop and the final check. */
  method Repair(f: Field, codeword: array<byte>, eccLen: nat, positions: seq<nat>, omega: Poly, derivative: Poly,
                ghost lambda: Poly, ghost correctable: bool, ghost c: Word) returns (ok: bool)
    requires f.Valid() && codeword.Length <= 255
    requires Increasing(positions) && forall j :: j in positions ==> j < codeword.Length
    requires omega == Product(lambda, Syndromes(codeword[..], eccLen)) && derivative == Forney.Derivative(lambda)
    requires correctable ==> CloseCodeword(codeword[..], c, eccLen) && Exact(codeword[..], c, lambda)
    requires correctable ==> Elements(positions) == Support(Diff(codeword[..], c))
    modifies codeword
    ensures ok ==> IsCodeword(codeword[..], eccLen) && Distance(old(codeword[..]), codeword[..]) <= |positions|
    ensures correctable ==> ok && codeword[..] == c
  {
    hide Add, Mul, Exp, Root, Eval, Conv, Syndrome, Syndromes, Product, Support, Distance, IsCodeword, Exact, Diff;
    ghost var r := codeword[..];
    var n := codeword.Length;
    for i := 0 to |positions|
      invariant codeword.Length == n
      invariant PatchedAt(r, codeword[..], positions[..i])
      invariant correctable ==> forall k :: 0 <= k < i ==> At(codeword[..], positions[k]) == At(c, positions[k])
    {
      var j := positions[i];
      assert j in Elements(positions);
      ghost var w := codeword[..];
      var finite, magnitude, quotient := Magnitude(f, omega, derivative, j);
      if correctable {
        QuotientIsDamage(r, c, eccLen, lambda, j, quotient);
      }
      if !finite {
        return false;
      }
      codeword[n - 1 - j] := Add(codeword[n - 1 - j], magnitude);
      PatchOne(r, w, codeword[..], positions, i, Add(w[n - 1 - j], magnitude));
      if correctable {
        PatchOnTarget(r, w, codeword[..], c, positions, i, Add(w[n - 1 - j], magnitude));
      }
    }
    assert positions[..|positions|] == positions;
    var again := ComputeSyndromes(f, codeword[..], eccLen);
    ok := AllZero(again);
    ZeroSyndromes(codeword[..], eccLen);
    PatchedDistance(r, codeword[..], positions);
    if correctable {
      PatchedIsTarget(r, c, codeword[..], positions);
    }
  }

  /** Repairs a block in place, or reports that it cannot: exactly the blocks within half the redundancy of some
      codeword are repaired, and to that codeword. */
  method Correct(f: Field, codeword: array<byte>, eccLen: int) returns (ok: bool)
    requires f.Valid()
    modifies codeword
    ensures ok <==> Correctable(old(codeword[..]), eccLen)
    ensures ok ==> CloseCodeword(old(codeword[..]), codeword[..], eccLen)
  {
    hide Add, Mul, Exp, Root, Eval, Conv, Syndrome, Syndromes, Product, Forney.Derivative, Support, Distance, IsCodeword, Degree;
    if eccLen <= 0 || codeword.Length <= eccLen || codeword.Length > 255 {
      return false;
    }
    ghost var r := codeword[..];
    var n := codeword.Length;
    var synd := ComputeSyndromes(f, codeword[..], eccLen);
    var clean := AllZero(synd);
    ZeroSyndromes(r, eccLen);
    if clean {
      SelfDistance(r);
      assert CloseCodeword(r, r, eccLen);
      return true;
    }
    var lambda := BerlekampMassey.Run(f, synd);
    ghost var len: nat :| BerlekampMassey.Generates(lambda, len, synd, |synd|) && BerlekampMassey.Shortest(len, synd, |synd|);
    var positions, located := FindErrorPositions(f, lambda, n);
    IncreasingSize(positions);
    ghost var correctable := Correctable(r, eccLen);
    ghost var c: Word := if correctable then (var c: Word :| CloseCodeword(r, c, eccLen); c) else [];
    if correctable {
      LocatorIsExact(r, c, eccLen, lambda, len);
      NotClean(r, c, eccLen);
    }
    if !located || |positions| == 0 || |positions| > eccLen / 2 {
      return false;
    }
    var omega := Evaluator(f, synd, lambda);
    var derivative := FormalDerivative(lambda);
    forall j | j in positions ensures j < n {
      assert j in Elements(positions);
    }
    ok := Repair(f, codeword, eccLen, positions, omega, derivative, lambda, correctable, c);
    assert ok ==> CloseCodeword(r, codeword[..], eccLen);
  }

  /** w differs from r at no degree but the listed ones. */
  ghost predicate PatchedAt(r: Word, w: Word, positions: seq<nat>) {
    |w| == |r| && forall d: nat {:trigger At(w, d)} :: d < |r| && d !in positions ==> At(w, d) == At(r, d)
  }

  lemma PatchOne(r: Word, w: Word, w': Word, positions: seq<nat>, i: nat, b: byte)
    requires i < |positions| && positions[i] < |r| && Increasing(positions)
    requires PatchedAt(r, w, positions[..i])
    requires w' == w[|w| - 1 - positions[i] := b]
    ensures PatchedAt(r, w', positions[..i + 1])
    ensures At(w', positions[i]) == b
    ensures forall k :: 0 <= k < i ==> At(w', positions[k]) == At(w, positions[k])
  {
    assert positions[..i + 1] == positions[..i] + [positions[i]];
    forall d: nat | d < |r| && d != positions[i] ensures At(w', d) == At(w, d) {}
    forall k | 0 <= k < i ensures At(w', positions[k]) == At(w, positions[k]) {
      assert positions[k] != positions[i];
    }
  }

  /** If the new byte is the target's, the listed degrees handled so far all agree with the target. */
  lemma PatchOnTarget(r: Word, w: Word, w': Word, c: Word, positions: seq<nat>, i: nat, b: byte)
    requires i < |positions| && positions[i] < |r| == |c| && Increasing(positions)
    requires PatchedAt(r, w, positions[..i])
    requires w' == w[|w| - 1 - positions[i] := b]
    requires forall k :: 0 <= k < i ==> At(w, positions[k]) == At(c, positions[k])
    ensures positions[i] !in positions[..i] && At(w, positions[i]) == At(r, positions[i])
    ensures b == At(c, positions[i]) ==> forall k :: 0 <= k <= i ==> At(w', positions[k]) == At(c, positions[k])
  {
    PatchOne(r, w, w', positions, i, b);
  }

  lemma PatchedDistance(r: Word, w: Word, positions: seq<nat>)
    requires PatchedAt(r, w, positions) && Increasing(positions)
    ensures Distance(r, w) <= |positions|
  {
    hide Support, Diff;
    DiffSupport(r, w);
    IncreasingSize(positions);
    assert Support(Diff(r, w)) <= Elements(positions);
    SubsetSize(Support(Diff(r, w)), Elements(positions));
  }

  lemma PatchedIsTarget(r: Word, c: Word, w: Word, positions: seq<nat>)
    requires |c| == |r| && PatchedAt(r, w, positions)
    requires Elements(positions) == Support(Diff(r, c))
    requires forall k :: 0 <= k < |positions| ==> At(w, positions[k]) == At(c, positions[k])
    ensures w == c
  {
    hide Support, Diff;
    DiffSupport(r, c);
    forall d: nat | d < |r| ensures At(w, d) == At(c, d) {
      if d in positions {
        var k :| 0 <= k < |positions| && positions[k] == d;
      } else {
        assert d !in Elements(positions);
      }
    }
    forall p | 0 <= p < |r| ensures w[p] == c[p] {
      assert At(w, |r| - 1 - p) == At(c, |r| - 1 - p);
    }
  }

  lemma NotClean(r: Word, c: Word, eccLen: nat)
    requires CloseCodeword(r, c, eccLen)
    ensures 0 < |Support(Diff(r, c))| <= eccLen / 2 || IsCodeword(r, eccLen)
  {
    DiffZero(r, c);
  }
}
