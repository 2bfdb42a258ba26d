/** The shortest recurrence of a syndrome sequence: berlekampMassey and polyAddShifted of cli/internal/qr/rs.go. */
module BerlekampMassey {
  import opened Bits
  import opened GaloisField
  import opened GaloisTables
  import opened Polynomials

  /** a, with constant term 1 and degree at most len, is a recurrence of length len for the first n terms of s. */
  ghost predicate Generates(a: Poly, len: nat, s: seq<byte>, n: nat)
    requires n <= |s|
  {
    && 1 <= |a| <= len + 1
    && a[0] == 1
    && forall m :: len <= m < n ==> Conv(a, s, m) == 0
  }

  /** Massey's bound: a recurrence that fails at n forces every recurrence that survives n to be long. */
  lemma MasseyBound(a: Poly, lenA: nat, b: Poly, lenB: nat, s: seq<byte>, n: nat)
    requires n < |s|
    requires Generates(a, lenA, s, n) && Conv(a, s, n) != 0
    requires Generates(b, lenB, s, n + 1)
    ensures lenA + lenB >= n + 1
  {
    hide Add, Mul, Conv;
    if lenA + lenB <= n {
      ConvZeros(a, Product(b, s), n);
      ConvCommutes(a, b, s, n);
      var u := Product(a, s);
      ConvUnfold(b, u, n);
      ConvZeros(Tail(b), u, n - 1);
      MulOne(u[n]);
      AddZero(u[n]);
    }
  }

  /** No recurrence for the first n terms is shorter than len. */
  ghost predicate Shortest(len: nat, s: seq<byte>, n: nat)
    requires n <= |s|
  {
    forall b: Poly, lenB: nat {:trigger Generates(b, lenB, s, n)} :: Generates(b, lenB, s, n) ==> len <= lenB
  }

  /** A recurrence of the whole sequence that no shorter one matches; it is no longer than the sequence. */
  ghost predicate IsShortestRecurrence(lambda: Poly, s: seq<byte>) {
    exists len: nat | len <= |s| :: Generates(lambda, len, s, |s|) && Shortest(len, s, |s|)
  }

  /** What the registers hold before step n; prev is the recurrence that failed shift steps ago. */
  ghost predicate Registers(s: seq<byte>, n: nat, lambda: Poly, len: nat, prev: Poly, lenPrev: nat, prevDisc: byte, shift: nat)
    requires n <= |s|
  {
    && Generates(lambda, len, s, n) && len <= n && Shortest(len, s, n)
    && prevDisc != 0 && 1 <= shift <= n + 1
    && 1 <= |prev| <= lenPrev + 1
    && len + lenPrev == n - shift + 1
    && (shift == n + 1 ==> lambda == [1])
    && (shift <= n ==> Generates(prev, lenPrev, s, n - shift) && Conv(prev, s, n - shift) == prevDisc)
  }

  lemma InitialRegisters(s: seq<byte>)
    ensures Registers(s, 0, [1], 0, [1], 0, 1, 1)
  {}

  lemma ShortestGrows(len: nat, s: seq<byte>, n: nat)
    requires n < |s| && Shortest(len, s, n)
    ensures Shortest(len, s, n + 1)
  {
    hide Conv;
    var k := n + 1;
    forall b: Poly, lenB: nat | Generates(b, lenB, s, k) ensures len <= lenB {
      assert Generates(b, lenB, s, n);
    }
  }

  /** The recurrence already predicts term n. */
  lemma KeepStep(s: seq<byte>, n: nat, lambda: Poly, len: nat, prev: Poly, lenPrev: nat, prevDisc: byte, shift: nat)
    requires n < |s| && Registers(s, n, lambda, len, prev, lenPrev, prevDisc, shift)
    requires Conv(lambda, s, n) == 0
    ensures Registers(s, n + 1, lambda, len, prev, lenPrev, prevDisc, shift + 1)
  {
    hide Conv;
    ShortestGrows(len, s, n);
  }

  /** The corrected recurrence predicts term n as well, at the longer of the two possible lengths. */
  lemma CorrectedGenerates(s: seq<byte>, n: nat, lambda: Poly, len: nat, prev: Poly, lenPrev: nat, prevDisc: byte, shift: nat,
                           scale: byte, newLen: nat)
    requires n < |s| && Registers(s, n, lambda, len, prev, lenPrev, prevDisc, shift)
    requires Mul(scale, prevDisc) == Conv(lambda, s, n) != 0
    requires newLen == if 2 * len <= n then n + 1 - len else len
    ensures Generates(AddShifted(lambda, prev, shift, scale), newLen, s, n + 1)
  {
    hide Add, Mul, Conv;
    var r := AddShifted(lambda, prev, shift, scale);
    assert r[0] == 1 by {
      assert Coef(r, 0) == r[0];
      ShiftedHead(lambda, prev, shift, scale);
    }
    forall m | newLen <= m < n + 1 ensures Conv(r, s, m) == 0 {
      ConvAddShifted(lambda, prev, shift, scale, s, m);
      MulZero(scale);
      AddZero(Conv(lambda, s, m));
    }
  }

  lemma GrowStep(s: seq<byte>, n: nat, lambda: Poly, len: nat, prev: Poly, lenPrev: nat, prevDisc: byte, shift: nat, scale: byte)
    requires n < |s| && Registers(s, n, lambda, len, prev, lenPrev, prevDisc, shift)
    requires Mul(scale, prevDisc) == Conv(lambda, s, n) != 0
    requires 2 * len <= n
    ensures Registers(s, n + 1, AddShifted(lambda, prev, shift, scale), n + 1 - len, lambda, len, Conv(lambda, s, n), 1)
  {
    hide Add, Mul, Conv, AddShifted;
    CorrectedGenerates(s, n, lambda, len, prev, lenPrev, prevDisc, shift, scale, n + 1 - len);
    var k := n + 1;
    forall b: Poly, lenB: nat | Generates(b, lenB, s, k) ensures k - len <= lenB {
      MasseyBound(lambda, len, b, lenB, s, n);
    }
  }

  lemma AdjustStep(s: seq<byte>, n: nat, lambda: Poly, len: nat, prev: Poly, lenPrev: nat, prevDisc: byte, shift: nat, scale: byte)
    requires n < |s| && Registers(s, n, lambda, len, prev, lenPrev, prevDisc, shift)
    requires Mul(scale, prevDisc) == Conv(lambda, s, n) != 0
    requires 2 * len > n
    ensures Registers(s, n + 1, AddShifted(lambda, prev, shift, scale), len, prev, lenPrev, prevDisc, shift + 1)
  {
    hide Add, Mul, Conv, AddShifted;
    CorrectedGenerates(s, n, lambda, len, prev, lenPrev, prevDisc, shift, scale, len);
    ShortestGrows(len, s, n);
  }

  method PolyAddShifted(f: Field, a: Poly, b: Poly, shift: nat, scale: byte) returns (r: Poly)
    requires f.Valid()
    ensures r == AddShifted(a, b, shift, scale)
  {
    hide Add, Mul;
    var size := if |a| > |b| + shift then |a| else |b| + shift;
    var out := new byte[size](i => if 0 <= i < |a| then a[i] else 0);
    MulZero(scale);
    AddZeroAll();
    for i := 0 to |b|
      invariant forall k :: 0 <= k < size ==>
        out[k] == if k - shift < i then Add(Coef(a, k), Mul(Coef(b, k - shift), scale)) else Coef(a, k)
    {
      out[i + shift] := Add(out[i + shift], f.GfMul(b[i], scale));
    }
    r := out[..];
  }

  lemma AddZeroAll()
    ensures forall a: byte :: Add(a, 0) == a
  {
    hide Add;
    forall a: byte ensures Add(a, 0) == a { AddZero(a); }
  }

  /** The discrepancy loop: what the recurrence lambda predicts wrongly at term n. */
  method Discrepancy(f: Field, lambda: Poly, len: nat, s: seq<byte>, n: nat) returns (d: byte)
    requires f.Valid()
    requires n < |s| && len <= n && 1 <= |lambda| <= len + 1 && lambda[0] == 1
    ensures d == Conv(lambda, s, n)
  {
    hide Add, Mul;
    d := s[n];
    MulOne(s[n]);
    var i := 1;
    while i <= len && i < |lambda|
      invariant 1 <= i <= |lambda|
      invariant Conv(lambda, s, n) == Add(d, Conv(lambda[i..], s, n - i))
    {
      AddAssoc(d, Mul(lambda[i], s[n - i]), Conv(lambda[i + 1..], s, n - i - 1));
      assert lambda[i..][1..] == lambda[i + 1..];
      d := Add(d, f.GfMul(lambda[i], s[n - i]));
      i := i + 1;
    }
    assert lambda[i..] == [];
    AddZero(d);
  }

  /** The shortest recurrence of the whole syndrome sequence. */
  method Run(f: Field, synd: seq<byte>) returns (lambda: Poly)
    requires f.Valid()
    ensures IsShortestRecurrence(lambda, synd)
  {
    hide Add, Mul, Conv, AddShifted;
    lambda := [1];
    var prev: Poly := [1];
    var prevDiscrepancy: byte := 1;
    var length: nat := 0;
    var shift: nat := 1;
    ghost var lenPrev := 0;
    InitialRegisters(synd);
    for n := 0 to |synd|
      invariant Registers(synd, n, lambda, length, prev, lenPrev, prevDiscrepancy, shift)
    {
      var d := Discrepancy(f, lambda, length, synd, n);
      if d == 0 {
        KeepStep(synd, n, lambda, length, prev, lenPrev, prevDiscrepancy, shift);
        shift := shift + 1;
      } else if 2 * length <= n {
        var scale := f.GfDiv(d, prevDiscrepancy);
        GrowStep(synd, n, lambda, length, prev, lenPrev, prevDiscrepancy, shift, scale);
        var saved := lambda;
        lambda := PolyAddShifted(f, lambda, prev, shift, scale);
        lenPrev := length;
        length := n + 1 - length;
        prev := saved;
        prevDiscrepancy := d;
        shift := 1;
      } else {
        var scale := f.GfDiv(d, prevDiscrepancy);
        AdjustStep(synd, n, lambda, length, prev, lenPrev, prevDiscrepancy, shift, scale);
        lambda := PolyAddShifted(f, lambda, prev, shift, scale);
        shift := shift + 1;
      }
    }
  }
}
