/** GF(256) with the polynomial x^8+x^4+x^3+x^2+1: the field laws, and the log and antilog tables. */
module GaloisField {
  import opened Bits

  const PRIMITIVE: nat := 0x11d

  function Add(a: byte, b: byte): byte {
    XorByte(a, b);
    Xor(a, b)
  }

  /** Multiplication by the generator. */
  function Double(a: byte): byte {
    if a < 128 then 2 * a else DoubleReduces(a); Xor(2 * a, PRIMITIVE)
  }

  function Gate(b: nat, a: byte): byte {
    if b % 2 == 1 then a else 0
  }

  /** Carry-less product of a and b reduced by the primitive polynomial. */
  function Mul(a: byte, b: byte): byte
    decreases b
  {
    if b == 0 then 0 else Add(Gate(b, a), Mul(Double(a), b / 2))
  }

  /** The generator raised to n. */
  function Exp(n: nat): byte {
    if n == 0 then 1 else Double(Exp(n - 1))
  }

  lemma DoubleReduces(a: byte)
    requires a >= 128
    ensures Xor(2 * a, PRIMITIVE) == Xor(2 * a - 256, 0x1d) < 256
  {
    hide Xor;
    assert Pow2(8) == 256;
    XorSplit(8, 1, 2 * a - 256, 1, 0x1d);
    XorZero(1);
    XorByte(2 * a - 256, 0x1d);
  }

  // ----- addition

  lemma AddZero(a: byte)
    ensures Add(a, 0) == a && Add(0, a) == a && Add(a, a) == 0
  {
    XorZero(a);
  }

  lemma AddComm(a: byte, b: byte)
    ensures Add(a, b) == Add(b, a)
  {
    hide Xor;
    XorComm(a, b);
  }

  lemma AddAssoc(a: byte, b: byte, c: byte)
    ensures Add(Add(a, b), c) == Add(a, Add(b, c))
  {
    hide Xor;
    XorAssoc(a, b, c);
  }

  lemma AddSwap(a: byte, b: byte, c: byte, d: byte)
    ensures Add(Add(a, b), Add(c, d)) == Add(Add(a, c), Add(b, d))
  {
    hide Xor;
    XorSwap(a, b, c, d);
  }

  lemma AddCancel(a: byte, b: byte)
    ensures Add(a, Add(a, b)) == b
    ensures Add(a, b) == 0 <==> a == b
  {
    hide Xor;
    XorCancel(a, b);
    XorZero(a);
  }

  // ----- multiplication

  lemma DoubleLinear(a: byte, b: byte)
    ensures Double(Add(a, b)) == Add(Double(a), Double(b))
  {
    hide Xor;
    assert Pow2(7) == 128;
    var (h, u) := if a < 128 then (0, a) else (1, a - 128);
    var (k, v) := if b < 128 then (0, b) else (1, b - 128);
    XorSplit(7, h, u, k, v);
    XorBound(7, u, v);
    XorDouble(a, b);
    XorZero(0);
    XorZero(1);
    var pa := if a < 128 then 0 else PRIMITIVE;
    var pb := if b < 128 then 0 else PRIMITIVE;
    XorZero(2 * a);
    XorZero(2 * b);
    XorZero(PRIMITIVE);
    XorSwap(2 * a, pa, 2 * b, pb);
    XorZero(Xor(2 * a, 2 * b));
  }

  lemma GateAdd(b: nat, a: byte, c: byte)
    ensures Gate(b, Add(a, c)) == Add(Gate(b, a), Gate(b, c))
  {
    hide Xor;
    XorZero(0);
  }

  lemma GateDouble(b: nat, a: byte)
    ensures Gate(b, Double(a)) == Double(Gate(b, a))
  {}

  lemma MulUnfold(a: byte, b: byte)
    ensures Mul(a, b) == Add(Gate(b, a), Mul(Double(a), b / 2))
  {
    hide Xor;
    if b == 0 {
      AddZero(0);
    }
  }

  lemma {:induction false} MulAddLeft(a: byte, b: byte, c: byte)
    ensures Mul(Add(a, b), c) == Add(Mul(a, c), Mul(b, c))
    decreases c
  {
    hide Add, Double, Gate;
    if c == 0 {
      AddZero(0);
    } else {
      MulAddLeft(Double(a), Double(b), c / 2);
      DoubleLinear(a, b);
      GateAdd(c, a, b);
      AddSwap(Gate(c, a), Gate(c, b), Mul(Double(a), c / 2), Mul(Double(b), c / 2));
    }
  }

  lemma {:induction false} MulDoubleLeft(a: byte, b: byte)
    ensures Mul(Double(a), b) == Double(Mul(a, b))
    decreases b
  {
    hide Add, Double, Gate;
    if b == 0 {
      assert Double(0) == 0 by { DoubleZero(); }
    } else {
      MulDoubleLeft(Double(a), b / 2);
      GateDouble(b, a);
      DoubleLinear(Gate(b, a), Mul(Double(a), b / 2));
    }
  }

  lemma DoubleZero()
    ensures Double(0) == 0
  {}

  lemma {:induction false} MulZero(a: byte)
    ensures Mul(a, 0) == 0 && Mul(0, a) == 0
    decreases a
  {
    hide Add;
    AddZero(0);
    if a != 0 {
      MulZero(a / 2);
    }
  }

  /** Every element is its last bit plus twice its other bits. */
  lemma LastBit(a: byte)
    ensures a == Add(Gate(a, 1), Double(a / 2))
  {
    hide Xor;
    assert Pow2(1) == 2;
    XorSplit(1, 0, a % 2, a / 2, 0);
    XorZero(a / 2);
    XorZero(a % 2);
  }

  lemma {:induction false} MulOne(a: byte)
    ensures Mul(1, a) == a && Mul(a, 1) == a
    decreases a
  {
    hide Add, Double, Gate;
    if a == 0 {
      assert Mul(0, 1) == 0 by { MulZero(1); }
    } else {
      MulOne(a / 2);
      MulDoubleLeft(1, a / 2);
      LastBit(a);
      MulUnfold(a, 1);
      assert Gate(1, a) == a by { GateOne(a); }
      MulZero(Double(a));
      AddZero(a);
    }
  }

  lemma GateOne(a: byte)
    ensures Gate(1, a) == a
  {}

  lemma {:induction false} MulComm(a: byte, b: byte)
    ensures Mul(a, b) == Mul(b, a)
    decreases b
  {
    hide Add, Double, Gate;
    if b == 0 {
      MulZero(a);
    } else {
      MulComm(a, b / 2);
      MulDoubleLeft(a, b / 2);
      MulDoubleLeft(b / 2, a);
      LastBit(b);
      MulAddLeft(Gate(b, 1), Double(b / 2), a);
      MulGateLeft(b, 1, a);
      MulOne(a);
    }
  }

  lemma MulGateLeft(b: nat, a: byte, c: byte)
    ensures Mul(Gate(b, a), c) == Gate(b, Mul(a, c))
  {
    hide Mul;
    MulZero(c);
  }

  lemma MulAddRight(a: byte, b: byte, c: byte)
    ensures Mul(a, Add(b, c)) == Add(Mul(a, b), Mul(a, c))
  {
    hide Add, Mul;
    MulComm(a, Add(b, c));
    MulComm(a, b);
    MulComm(a, c);
    MulAddLeft(b, c, a);
  }

  lemma {:induction false} MulAssoc(a: byte, b: byte, c: byte)
    ensures Mul(Mul(a, b), c) == Mul(a, Mul(b, c))
    decreases c
  {
    hide Add, Double, Gate;
    if c == 0 {
      MulZero(a);
    } else {
      MulAssoc(a, Double(b), c / 2);
      MulComm(a, b);
      MulComm(a, Double(b));
      MulDoubleLeft(b, a);
      MulAddRight(a, Gate(c, b), Mul(Double(b), c / 2));
      MulComm(a, Gate(c, b));
      MulGateLeft(c, b, a);
    }
  }

  // ----- the generator

  lemma {:induction false} ExpAdd(m: nat, n: nat)
    ensures Exp(m + n) == Mul(Exp(m), Exp(n))
    decreases m
  {
    hide Double, Mul;
    if m == 0 {
      MulOne(Exp(n));
    } else {
      ExpAdd(m - 1, n);
      MulDoubleLeft(Exp(m - 1), Exp(n));
    }
  }

  /** Doubling as the machine does it. */
  function DoubleWord(v: bv8): bv8 {
    if v & 0x80 == 0 then v << 1 else (v << 1) ^ 0x1d
  }

  lemma DoubleIsWord(v: bv8)
    ensures Double(v as int) == DoubleWord(v) as int
  {
    hide Xor;
    if v & 0x80 != 0 {
      DoubleReduces(v as int);
      XorIsMachineXor(v << 1, 0x1d);
    }
  }

  function Double4(v: bv8): bv8 {
    DoubleWord(DoubleWord(DoubleWord(DoubleWord(v))))
  }

  lemma Exp4(k: nat, v: bv8)
    requires Exp(k) == v as int
    ensures Exp(k + 4) == Double4(v) as int
  {
    hide Double, DoubleWord;
    DoubleIsWord(v);
    assert Exp(k + 1) == DoubleWord(v) as int;
    DoubleIsWord(DoubleWord(v));
    assert Exp(k + 2) == DoubleWord(DoubleWord(v)) as int;
    DoubleIsWord(DoubleWord(DoubleWord(v)));
    assert Exp(k + 3) == DoubleWord(DoubleWord(DoubleWord(v))) as int;
    DoubleIsWord(DoubleWord(DoubleWord(DoubleWord(v))));
  }

  lemma Exp16(k: nat, v: bv8, w: bv8)
    requires Exp(k) == v as int && w == Double4(Double4(Double4(Double4(v))))
    ensures Exp(k + 16) == w as int
  {
    hide Exp, Double, DoubleWord, Double4;
    Exp4(k, v);
    Exp4(k + 4, Double4(v));
    Exp4(k + 8, Double4(Double4(v)));
    Exp4(k + 12, Double4(Double4(Double4(v))));
  }

  /** Powers of the generator sixteen apart, up to the first repetition. */
  lemma Landmarks()
    ensures Exp(16) == 76 && Exp(48) == 70 && Exp(80) == 253 && Exp(256) == 2
  {
    assert Exp(0) == 1;
    hide Exp, Double;
    Exp16(0, 1, 76);
    Exp16(16, 76, 157);
    Exp16(32, 157, 70);
    Exp16(48, 70, 95);
    Exp16(64, 95, 253);
    Exp16(80, 253, 217);
    Exp16(96, 217, 129);
    Exp16(112, 129, 133);
    Exp16(128, 133, 168);
    Exp16(144, 168, 230);
    Exp16(160, 230, 227);
    Exp16(176, 227, 130);
    Exp16(192, 130, 81);
    Exp16(208, 81, 18);
    Exp16(224, 18, 44);
    Exp16(240, 44, 2);
  }

  lemma DoubleInjective(a: byte, b: byte)
    requires Double(a) == Double(b)
    ensures a == b
  {
    hide Xor;
    DoubleLinear(a, b);
    AddCancel(a, b);
    AddCancel(Double(a), Double(b));
    var d := Add(a, b);
    if d >= 128 {
      DoubleOdd(d);
    }
  }

  lemma DoubleOdd(d: byte)
    requires d >= 128
    ensures Double(d) % 2 == 1
  {
    hide Xor;
    XorHalves(2 * d, PRIMITIVE);
  }

  lemma MoreLandmarks()
    ensures Exp(52) == 20 && Exp(88) == 254
  {
    Landmarks();
    hide Exp, Double;
    Exp4(48, 70);
    Exp4(80, 253);
    Exp4(84, 107);
  }

  lemma FirstPowers()
    ensures Exp(0) == 1 && Exp(1) == 2 && Exp(3) == 8 && Double(1) == 2
  {
    assert Exp(2) == 4;
  }

  /** The generator does not repeat after a maximal proper divisor of 255, and does after 255. */
  lemma PowersOfInterest()
    ensures Exp(15) != 1 && Exp(51) != 1 && Exp(85) != 1 && Exp(255) == 1
  {
    hide Exp, Double, Add;
    Landmarks();
    MoreLandmarks();
    FirstPowers();
    ExpAfter(15, 1);
    ExpAfter(51, 1);
    ExpAfter(85, 3);
    ExpNext(255);
    DoubleInjective(Exp(255), 1);
  }

  lemma ExpAfter(k: nat, n: nat)
    ensures Exp(k) == 1 ==> Exp(k + n) == Exp(n)
  {
    hide Exp, Mul;
    ExpAdd(k, n);
    MulOne(Exp(n));
  }

  lemma ExpNext(k: nat)
    ensures Exp(k + 1) == Double(Exp(k))
  {}

  lemma {:induction false} ExpMultiple(d: nat, q: nat)
    requires Exp(d) == 1
    ensures Exp(q * d) == 1
  {
    hide Exp;
    FirstPowers();
    if q != 0 {
      ExpMultiple(d, q - 1);
      ExpAfter(d, (q - 1) * d);
      assert q * d == d + (q - 1) * d;
    }
  }

  lemma ExpMod(d: nat, n: nat)
    requires d > 0 && Exp(d) == 1
    ensures Exp(n) == Exp(n % d)
  {
    hide Exp;
    ExpMultiple(d, n / d);
    ExpAfter(n / d * d, n % d);
  }

  lemma SmallDivisors(d: nat, q: nat)
    requires d <= 16 && q * d == 255
    ensures d == 1 || d == 3 || d == 5 || d == 15
  {}

  lemma ProperDivisors(d: nat, q: nat)
    requires d < 255 && q * d == 255
    ensures d == 1 || d == 3 || d == 5 || d == 15 || d == 17 || d == 51 || d == 85
  {
    if d <= 16 {
      SmallDivisors(d, q);
    } else {
      Crowded(q, d);
      SmallDivisors(q, d);
    }
  }

  lemma Crowded(q: nat, d: nat)
    requires d >= 17 && q * d == 255
    ensures q <= 16
  {
    if q >= 17 {
      LargeProduct(q, d);
    }
  }

  lemma LargeProduct(q: nat, d: nat)
    requires d >= 17 && q >= 17
    ensures q * d >= 17 * 17
  {}

  /** The generator's order is 255. */
  lemma {:induction false} OrderIs255(d: nat)
    requires 0 < d < 255
    ensures Exp(d) != 1
    decreases d
  {
    hide Exp;
    if Exp(d) == 1 {
      if 255 % d > 0 {
        PowersOfInterest();
        ExpMod(d, 255);
        OrderIs255(255 % d);
      } else {
        ProperDivisors(d, 255 / d);
        if 85 % d == 0 {
          ExpMod(d, 85);
        } else if 51 % d == 0 {
          ExpMod(d, 51);
        } else {
          ExpMod(d, 15);
        }
        PowersOfInterest();
        FirstPowers();
      }
    }
  }

  lemma {:induction false} ExpNonzero(n: nat)
    ensures Exp(n) != 0
  {
    hide Double;
    if n != 0 {
      ExpNonzero(n - 1);
      DoubleZero();
      if Double(Exp(n - 1)) == Double(0) {
        DoubleInjective(Exp(n - 1), 0);
      }
    }
  }

  lemma {:induction false} ExpInjective(i: nat, j: nat)
    requires i < j < 255
    ensures Exp(i) != Exp(j)
  {
    hide Double;
    if i == 0 {
      OrderIs255(j);
    } else {
      ExpInjective(i - 1, j - 1);
      if Exp(i) == Exp(j) {
        DoubleInjective(Exp(i - 1), Exp(j - 1));
      }
    }
  }

  // ----- every nonzero element is a power of the generator

  function Powers(n: nat): set<byte> {
    set i | 0 <= i < n :: Exp(i)
  }

  lemma {:induction false} PowersAreMany(n: nat)
    requires n <= 255
    ensures |Powers(n)| == n
  {
    hide Exp;
    if n == 0 {
      assert Powers(0) == {};
    } else {
      PowersAreMany(n - 1);
      assert Powers(n) == Powers(n - 1) + {Exp(n - 1)};
      forall i | 0 <= i < n - 1 ensures Exp(i) != Exp(n - 1) {
        ExpInjective(i, n - 1);
      }
    }
  }

  function Nonzero(n: nat): (r: set<byte>)
    requires n <= 255
    ensures |r| == n
    ensures forall a: byte :: a in r <==> 0 < a <= n
  {
    if n == 0 then {} else Nonzero(n - 1) + {n}
  }

  lemma SubsetOfSameSize<T>(a: set<T>, b: set<T>)
    requires a <= b && |a| == |b|
    ensures a == b
  {
    assert |b - a| == |b| - |a|;
    assert b == a + (b - a);
  }

  lemma LogExists(a: byte)
    requires a != 0
    ensures exists i :: 0 <= i < 255 && Exp(i) == a
  {
    hide Exp;
    PowersAreMany(255);
    forall i | 0 <= i < 255 ensures Exp(i) in Nonzero(255) {
      ExpNonzero(i);
    }
    SubsetOfSameSize(Powers(255), Nonzero(255));
    assert a in Nonzero(255);
  }

  ghost function Log(a: byte): (i: nat)
    requires a != 0
    ensures i < 255 && Exp(i) == a
  {
    LogExists(a);
    var i :| 0 <= i < 255 && Exp(i) == a;
    i
  }

  lemma MulNonzero(a: byte, b: byte)
    requires a != 0 && b != 0
    ensures Mul(a, b) != 0
  {
    hide Exp, Mul;
    ExpAdd(Log(a), Log(b));
    ExpNonzero(Log(a) + Log(b));
  }

  /** A nonzero factor can be cancelled. */
  lemma MulCancel(a: byte, b: byte, c: byte)
    requires a != 0 && Mul(a, b) == Mul(a, c)
    ensures b == c
  {
    hide Exp, Mul, Add;
    MulAddRight(a, b, c);
    AddCancel(Mul(a, b), Mul(a, c));
    AddCancel(b, c);
    if Add(b, c) != 0 {
      MulNonzero(a, Add(b, c));
    }
  }
}
