/** The log and antilog tables of cli/internal/qr/rs.go, and multiplication, division and powers by table lookup. */
module GaloisTables {
  import opened Bits
  import opened GaloisField

  /** The generator raised to any integer: exponents count modulo 255. */
  function Power(e: int): byte {
    Exp(e % 255)
  }

  datatype Field = Field(exp: seq<byte>, log: seq<byte>) {

    ghost predicate Valid() {
      && |exp| == 512 && |log| == 256
      && (forall i :: 0 <= i < 512 ==> exp[i] == Exp(i))
      && (forall i :: 0 <= i < 255 ==> log[Exp(i)] == i)
    }

    function GfMul(a: byte, b: byte): (r: byte)
      requires Valid()
      ensures r == Mul(a, b)
    {
      LogLookup(this, a);
      LogLookup(this, b);
      LookupProduct(a, b);
      if a == 0 || b == 0 then 0 else exp[(log[a] as int) + log[b]]
    }

    function GfDiv(a: byte, b: byte): (r: byte)
      requires Valid() && b != 0
      ensures Mul(r, b) == a
    {
      LogLookup(this, a);
      LogLookup(this, b);
      LookupQuotient(a, b);
      if a == 0 then 0 else exp[(log[a] as int) - log[b] + 255]
    }

    function GfPow(e: int): (r: byte)
      requires Valid()
      ensures r == Power(e)
    {
      var rem := Rem(e, 255);
      RemIsMod(e);
      exp[if rem < 0 then rem + 255 else rem]
    }
  }

  /** Go's remainder, which takes the sign of the dividend. */
  function Rem(e: int, n: int): int
    requires n > 0
  {
    if e >= 0 then e % n else -((-e) % n)
  }

  lemma RemIsMod(e: int)
    ensures (if Rem(e, 255) < 0 then Rem(e, 255) + 255 else Rem(e, 255)) == e % 255
  {}

  lemma LogLookup(f: Field, a: byte)
    requires f.Valid()
    ensures a != 0 ==> f.log[a] == Log(a)
  {
    if a != 0 {
      assert Exp(Log(a)) == a;
    }
  }

  lemma LookupProduct(a: byte, b: byte)
    ensures a == 0 || b == 0 ==> Mul(a, b) == 0
    ensures a != 0 && b != 0 ==> Exp(Log(a) + Log(b)) == Mul(a, b)
  {
    MulZero(a);
    MulZero(b);
    if a != 0 && b != 0 {
      ExpAdd(Log(a), Log(b));
    }
  }

  lemma LookupQuotient(a: byte, b: byte)
    requires b != 0
    ensures Mul(0, b) == 0
    ensures a != 0 ==> Mul(Exp(Log(a) - Log(b) + 255), b) == a
  {
    MulZero(b);
    if a != 0 {
      ExpAdd(Log(a) - Log(b) + 255, Log(b));
      ExpPeriod(Log(a));
    }
  }

  lemma ExpPeriod(n: nat)
    ensures Exp(n + 255) == Exp(n)
  {
    hide Exp;
    PowersOfInterest();
    ExpAfter(255, n);
  }

  lemma ExpReduce(n: nat)
    ensures Exp(n) == Power(n)
  {
    hide Exp;
    PowersOfInterest();
    ExpMod(255, n);
  }

  /** The package initialiser: x runs through the generator's powers, and the second half repeats the first. */
  method InitTables() returns (f: Field)
    ensures f.Valid()
  {
    hide Exp, Double, Xor;
    var gfExp := new byte[512](_ => 0);
    var gfLog := new byte[256](_ => 0);
    var x: int := 1;
    FirstPowers();
    for i := 0 to 255
      invariant 0 <= x < 256 && x == Exp(i)
      invariant forall k :: 0 <= k < i ==> gfExp[k] == Exp(k)
      invariant forall k :: 0 <= k < i ==> gfLog[Exp(k)] == k
    {
      forall k | 0 <= k < i ensures Exp(k) != Exp(i) {
        ExpInjective(k, i);
      }
      gfExp[i] := x;
      gfLog[x] := i;
      ExpNext(i);
      ShiftReduces(x);
      x := 2 * x;
      if x >= 256 {
        x := Xor(x, PRIMITIVE);
      }
    }
    for i := 255 to 512
      invariant forall k :: 0 <= k < i ==> gfExp[k] == Exp(k)
      invariant forall k :: 0 <= k < 255 ==> gfLog[Exp(k)] == k
    {
      ExpPeriod(i - 255);
      gfExp[i] := gfExp[i - 255];
    }
    f := Field(gfExp[..], gfLog[..]);
  }

  lemma ShiftReduces(x: byte)
    ensures Double(x) == if 2 * x >= 256 then Xor(2 * x, PRIMITIVE) else 2 * x
  {}
}
