/** Exclusive or on unsigned machine words, the words being natural numbers. */
module Bits {
  type byte = x: int | 0 <= x < 256

  function Pow2(k: nat): (p: nat)
    ensures p >= 1
  {
    if k == 0 then 1 else 2 * Pow2(k - 1)
  }

  lemma {:induction false} Pow2Monotone(a: nat, b: nat)
    requires a <= b
    ensures Pow2(a) <= Pow2(b)
    decreases b
  {
    if a < b {
      Pow2Monotone(a, b - 1);
    }
  }

  /** Bitwise exclusive or, least significant bit first. */
  function Xor(a: nat, b: nat): nat {
    if a == 0 && b == 0 then 0 else (a + b) % 2 + 2 * Xor(a / 2, b / 2)
  }

  lemma XorUnfold(a: nat, b: nat)
    ensures Xor(a, b) == (a + b) % 2 + 2 * Xor(a / 2, b / 2)
  {}

  /** How exclusive or acts on the last bit and on the bits above it. */
  lemma XorHalves(a: nat, b: nat)
    ensures Xor(a, b) % 2 == (a + b) % 2
    ensures Xor(a, b) / 2 == Xor(a / 2, b / 2)
  {
    hide Xor;
    XorUnfold(a, b);
    LowBitApart(Xor(a, b), (a + b) % 2, Xor(a / 2, b / 2));
  }

  lemma LowBitApart(x: nat, bit: nat, high: nat)
    requires bit < 2 && x == bit + 2 * high
    ensures x % 2 == bit && x / 2 == high
  {}

  lemma {:induction false} XorZero(a: nat)
    ensures Xor(a, 0) == a && Xor(0, a) == a && Xor(a, a) == 0
  {
    if a != 0 {
      XorZero(a / 2);
    }
  }

  lemma {:induction false} XorComm(a: nat, b: nat)
    ensures Xor(a, b) == Xor(b, a)
  {
    if a != 0 || b != 0 {
      XorComm(a / 2, b / 2);
    }
  }

  lemma {:induction false} XorAssoc(a: nat, b: nat, c: nat)
    ensures Xor(Xor(a, b), c) == Xor(a, Xor(b, c))
    decreases a + b + c
  {
    hide Xor;
    if a == 0 && b == 0 && c == 0 {
      XorZero(0);
    } else {
      XorAssoc(a / 2, b / 2, c / 2);
      XorHalves(a, b);
      XorHalves(b, c);
      XorHalves(Xor(a, b), c);
      XorHalves(a, Xor(b, c));
      ParityAdd(Xor(a, b), a + b, c);
      ParityAdd(Xor(b, c), b + c, a);
      HalvesDetermine(Xor(Xor(a, b), c), Xor(a, Xor(b, c)));
    }
  }

  lemma ParityAdd(x: nat, y: nat, c: nat)
    requires x % 2 == y % 2
    ensures (x + c) % 2 == (y + c) % 2
  {}

  lemma HalvesDetermine(x: nat, y: nat)
    requires x % 2 == y % 2 && x / 2 == y / 2
    ensures x == y
  {}

  lemma XorSwap(a: nat, b: nat, c: nat, d: nat)
    ensures Xor(Xor(a, b), Xor(c, d)) == Xor(Xor(a, c), Xor(b, d))
  {
    hide Xor;
    XorAssoc(a, b, Xor(c, d));
    XorAssoc(b, c, d);
    XorComm(b, c);
    XorAssoc(c, b, d);
    XorAssoc(a, c, Xor(b, d));
  }

  lemma XorCancel(a: nat, b: nat)
    ensures Xor(a, Xor(a, b)) == b
    ensures Xor(a, b) == 0 ==> a == b
  {
    hide Xor;
    XorAssoc(a, a, b);
    XorZero(a);
    XorZero(b);
  }

  lemma {:induction false} XorBound(k: nat, a: nat, b: nat)
    requires a < Pow2(k) && b < Pow2(k)
    ensures Xor(a, b) < Pow2(k)
  {
    if k != 0 {
      XorBound(k - 1, a / 2, b / 2);
      XorUnfold(a, b);
    }
  }

  lemma XorByte(a: byte, b: byte)
    ensures Xor(a, b) < 256
  {
    assert Pow2(8) == 256;
    XorBound(8, a, b);
  }

  lemma XorDouble(a: nat, b: nat)
    ensures Xor(2 * a, 2 * b) == 2 * Xor(a, b)
  {
    hide Xor;
    XorHalves(2 * a, 2 * b);
    HalvesDetermine(Xor(2 * a, 2 * b), 2 * Xor(a, b));
  }

  /** Words that are split at the same bit are combined part by part. */
  lemma {:induction false} XorSplit(k: nat, x: nat, u: nat, y: nat, v: nat)
    requires u < Pow2(k) && v < Pow2(k)
    ensures Xor(Pow2(k) * x + u, Pow2(k) * y + v) == Pow2(k) * Xor(x, y) + Xor(u, v)
  {
    hide Xor;
    if k == 0 {
      assert u == 0 && v == 0;
      XorZero(0);
    } else {
      var p := Pow2(k - 1);
      XorSplit(k - 1, x, u / 2, y, v / 2);
      SplitHalf(p, x, u);
      SplitHalf(p, y, v);
      SplitHalf(p, Xor(x, y), Xor(u, v));
      XorHalves(u, v);
      XorSplitStep(2 * p * x + u, 2 * p * y + v, 2 * p * Xor(x, y) + Xor(u, v), u, v);
    }
  }

  lemma XorSplitStep(s: nat, t: nat, w: nat, u: nat, v: nat)
    requires w / 2 == Xor(s / 2, t / 2)
    requires s % 2 == u % 2 && t % 2 == v % 2 && w % 2 == (u + v) % 2
    ensures Xor(s, t) == w
  {
    hide Xor;
    XorHalves(s, t);
    ParityAdd(s, u, t);
    ParityAdd(t, v, u);
    HalvesDetermine(Xor(s, t), w);
  }

  lemma SplitHalf(p: nat, x: nat, u: nat)
    ensures (2 * p * x + u) / 2 == p * x + u / 2
    ensures (2 * p * x + u) % 2 == u % 2
  {
    assert 2 * p * x + u == 2 * (p * x) + u;
  }

  function Int(a: bv8): nat {
    a as int
  }

  lemma HalfWord(a: bv8)
    ensures Int(a >> 1) == Int(a) / 2
    ensures Int(a & 1) == Int(a) % 2
  {}

  lemma WordFromHalves(a: bv8, b: bv8)
    ensures (a ^ b) >> 1 == (a >> 1) ^ (b >> 1)
    ensures (a ^ b) & 1 == (a & 1) ^ (b & 1)
  {}

  lemma LastBits(a: bv8, b: bv8)
    ensures Int((a & 1) ^ (b & 1)) == (Int(a & 1) + Int(b & 1)) % 2
  {}

  lemma MachineXorHalves(a: bv8, b: bv8)
    ensures Int(a ^ b) % 2 == (Int(a) + Int(b)) % 2
    ensures Int(a ^ b) / 2 == Int((a >> 1) ^ (b >> 1))
  {
    hide Int;
    HalfWord(a);
    HalfWord(b);
    WordFromHalves(a, b);
    HalfWord(a ^ b);
    LastBits(a, b);
    ParitySum(Int(a), Int(b));
  }

  lemma ParitySum(a: nat, b: nat)
    ensures (a % 2 + b % 2) % 2 == (a + b) % 2
  {}

  lemma XorFromHalves(x: nat, y: nat, w: nat, x': nat, y': nat, w': nat)
    requires x' == x / 2 && y' == y / 2 && w' == w / 2 && Xor(x', y') == w'
    requires w % 2 == (x + y) % 2
    ensures Xor(x, y) == w
  {
    hide Xor;
    XorHalves(x, y);
    HalvesDetermine(Xor(x, y), w);
  }

  lemma NextHalves(a: bv8, b: bv8)
    requires Xor(Int(a >> 1), Int(b >> 1)) == Int((a >> 1) ^ (b >> 1))
    ensures Xor(Int(a), Int(b)) == Int(a ^ b)
  {
    hide Xor, Int;
    HalfWord(a);
    HalfWord(b);
    MachineXorHalves(a, b);
    XorFromHalves(Int(a), Int(b), Int(a ^ b), Int(a >> 1), Int(b >> 1), Int((a >> 1) ^ (b >> 1)));
  }

  lemma ZeroWord(a: bv8)
    requires Int(a) == 0
    ensures a == 0
  {}

  lemma {:induction false} XorOfWords(n: nat, a: bv8, b: bv8)
    requires Int(a) < Pow2(n) && Int(b) < Pow2(n)
    ensures Xor(Int(a), Int(b)) == Int(a ^ b)
  {
    hide Xor, Int;
    if n == 0 {
      ZeroWord(a);
      ZeroWord(b);
      XorZero(Int(0));
    } else {
      HalfWord(a);
      HalfWord(b);
      XorOfWords(n - 1, a >> 1, b >> 1);
      NextHalves(a, b);
    }
  }

  /** The recursive definition is the machine's operator. */
  lemma XorIsMachineXor(a: bv8, b: bv8)
    ensures Xor(a as int, b as int) == (a ^ b) as int
  {
    assert Pow2(8) == 256;
    XorOfWords(8, a, b);
  }

  function Zeros(n: nat): (z: seq<byte>)
    ensures |z| == n && forall k: nat | k < n :: z[k] == 0
  {
    seq(n, _ => 0)
  }
}
