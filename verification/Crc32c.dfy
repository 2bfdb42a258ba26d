/** CRC32C by slicing-by-eight: core/dhow-codec/src/crc32c.rs. */
module Crc32c {
  import opened Bits
  import opened LittleEndian

  const POLY: nat := 0x82F63B78
  const ALL_ONES: nat := 0xFFFFFFFF

  // ----- the bit-at-a-time register

  /** One shift of the reflected register. */
  function StepBit(x: nat): nat {
    if x % 2 == 1 then Xor(x / 2, POLY) else x / 2
  }

  function Shift(x: nat, n: nat): nat
    decreases n
  {
    if n == 0 then x else Shift(StepBit(x), n - 1)
  }

  /** Shifting the bits in one at a time, the first bit first. */
  function Register(x: nat, bits: seq<bool>): nat
    decreases |bits|
  {
    if |bits| == 0 then x else Register(StepBit(Xor(x, if bits[0] then 1 else 0)), bits[1..])
  }

  /** A byte's bits, least significant first. */
  function ByteBits(v: nat, n: nat): (b: seq<bool>)
    ensures |b| == n
  {
    if n == 0 then [] else [v % 2 == 1] + ByteBits(v / 2, n - 1)
  }

  function DataBits(data: seq<byte>): (b: seq<bool>)
    ensures |b| == 8 * |data|
  {
    if |data| == 0 then [] else ByteBits(data[0], 8) + DataBits(data[1..])
  }

  /** The number whose bits, least significant first, are b. */
  function Number(b: seq<bool>): nat {
    if |b| == 0 then 0 else (if b[0] then 1 else 0) + 2 * Number(b[1..])
  }

  // ----- the register is linear

  /** What the register takes in for the bit that leaves it. */
  function Tap(bit: nat): nat {
    if bit == 1 then POLY else 0
  }

  lemma StepTaps(x: nat)
    ensures StepBit(x) == Xor(x / 2, Tap(x % 2))
  {
    hide Xor;
    XorZero(x / 2);
  }

  lemma TapLinear(a: nat, b: nat)
    requires a < 2 && b < 2
    ensures Tap((a + b) % 2) == Xor(Tap(a), Tap(b))
  {
    hide Xor;
    XorZero(POLY);
    XorZero(0);
  }

  lemma StepLinear(x: nat, y: nat)
    ensures StepBit(Xor(x, y)) == Xor(StepBit(x), StepBit(y))
  {
    hide Xor, StepBit, Tap;
    StepTaps(x);
    StepTaps(y);
    StepTaps(Xor(x, y));
    XorHalves(x, y);
    ParitySum(x, y);
    TapLinear(x % 2, y % 2);
    XorSwap(x / 2, Tap(x % 2), y / 2, Tap(y % 2));
  }

  lemma {:induction false} ShiftLinear(x: nat, y: nat, n: nat)
    ensures Shift(Xor(x, y), n) == Xor(Shift(x, n), Shift(y, n))
    decreases n
  {
    hide Xor, StepBit;
    if n > 0 {
      StepLinear(x, y);
      ShiftLinear(StepBit(x), StepBit(y), n - 1);
    }
  }

  lemma {:induction false} ShiftAdd(x: nat, m: nat, n: nat)
    ensures Shift(x, m + n) == Shift(Shift(x, m), n)
    decreases m
  {
    hide StepBit;
    if m > 0 {
      ShiftAdd(StepBit(x), m - 1, n);
    }
  }

  /** Bits above the ones shifted out only move down. */
  lemma {:induction false} ShiftHigh(h: nat, n: nat)
    ensures Shift(Pow2(n) * h, n) == h
    decreases n
  {
    hide Xor;
    if n > 0 {
      assert Pow2(n) * h == 2 * (Pow2(n - 1) * h);
      ShiftHigh(h, n - 1);
    }
  }

  /** Low part and high part shift independently. */
  lemma ShiftSplit(u: nat, h: nat, k: nat, n: nat)
    requires u < Pow2(k) && k <= n
    ensures Shift(u + Pow2(k) * h, n) == Xor(Shift(u, n), Shift(h, n - k))
  {
    hide Xor, Shift, Pow2;
    XorSplit(k, 0, u, h, 0);
    XorZero(h);
    XorZero(u);
    ShiftLinear(u, Pow2(k) * h, n);
    ShiftAdd(Pow2(k) * h, k, n - k);
    ShiftHigh(h, k);
  }

  /** Shifting bits in one at a time is adding them as a number and shifting once for each. */
  lemma {:induction false} RegisterIsShift(x: nat, bits: seq<bool>)
    ensures Register(x, bits) == Shift(Xor(x, Number(bits)), |bits|)
    decreases |bits|
  {
    hide Xor, StepBit;
    if |bits| == 0 {
      XorZero(x);
    } else {
      var b := if bits[0] then 1 else 0;
      var rest := Number(bits[1..]);
      RegisterIsShift(StepBit(Xor(x, b)), bits[1..]);
      StepLinear(Xor(x, b), 2 * rest);
      StepEven(rest);
      XorAssoc(x, b, 2 * rest);
      LowBit(b, rest);
    }
  }

  lemma StepEven(h: nat)
    ensures StepBit(2 * h) == h
  {}

  lemma LowBit(b: nat, h: nat)
    requires b < 2
    ensures Xor(b, 2 * h) == b + 2 * h
  {
    hide Xor;
    assert Pow2(1) == 2;
    XorSplit(1, 0, b, h, 0);
    XorZero(h);
    XorZero(b);
  }

  lemma {:induction false} RegisterConcat(x: nat, a: seq<bool>, b: seq<bool>)
    ensures Register(x, a + b) == Register(Register(x, a), b)
    decreases |a|
  {
    hide Xor, StepBit;
    if |a| == 0 {
      assert a + b == b;
    } else {
      assert (a + b)[1..] == a[1..] + b;
      RegisterConcat(StepBit(Xor(x, if a[0] then 1 else 0)), a[1..], b);
    }
  }

  lemma {:induction false} DataBitsConcat(a: seq<byte>, b: seq<byte>)
    ensures DataBits(a + b) == DataBits(a) + DataBits(b)
  {
    hide ByteBits;
    if |a| == 0 {
      assert a + b == b;
    } else {
      assert (a + b)[1..] == a[1..] + b;
      DataBitsConcat(a[1..], b);
    }
  }

  lemma {:induction false} NumberOfBits(v: nat, n: nat)
    requires v < Pow2(n)
    ensures Number(ByteBits(v, n)) == v
  {
    if n > 0 {
      NumberOfBits(v / 2, n - 1);
    }
  }

  lemma DoubleFactor(p: nat, x: nat)
    ensures 2 * p * x == 2 * (p * x)
  {}

  lemma {:induction false} NumberConcat(a: seq<bool>, b: seq<bool>)
    ensures Number(a + b) == Number(a) + Pow2(|a|) * Number(b)
  {
    if |a| == 0 {
      assert a + b == b;
    } else {
      assert (a + b)[1..] == a[1..] + b;
      NumberConcat(a[1..], b);
      DoubleFactor(Pow2(|a| - 1), Number(b));
    }
  }

  lemma {:induction false} StepWord(x: nat)
    requires IsU32(x)
    ensures IsU32(StepBit(x))
  {
    Word32();
    XorBound(32, x / 2, POLY);
  }

  lemma Word32()
    ensures Pow2(32) == 0x1_0000_0000 && Pow2(8) == 256 && Pow2(16) == 0x1_0000 && Pow2(24) == 0x100_0000
  {
    assert Pow2(8) == 256;
    assert Pow2(16) == 0x1_0000;
    assert Pow2(24) == 0x100_0000;
  }

  lemma {:induction false} ShiftWord(x: nat, n: nat)
    requires IsU32(x)
    ensures IsU32(Shift(x, n))
    decreases n
  {
    hide StepBit;
    if n > 0 {
      StepWord(x);
      ShiftWord(StepBit(x), n - 1);
    }
  }

  /** Shifting in the bits of a whole byte string. */
  function Absorb(x: nat, data: seq<byte>): nat {
    Register(x, DataBits(data))
  }

  lemma AbsorbConcat(x: nat, a: seq<byte>, b: seq<byte>)
    ensures Absorb(x, a + b) == Absorb(Absorb(x, a), b)
  {
    hide Register, DataBits;
    DataBitsConcat(a, b);
    RegisterConcat(x, DataBits(a), DataBits(b));
  }

  lemma AbsorbByte(x: nat, b: byte)
    ensures Absorb(x, [b]) == Shift(Xor(x, b), 8)
  {
    hide Xor, Shift, Register, ByteBits;
    assert DataBits([b]) == ByteBits(b, 8) by {
      assert DataBits([b][1..]) == [];
    }
    Word32();
    NumberOfBits(b, 8);
    RegisterIsShift(x, ByteBits(b, 8));
  }

  // ----- the tables

  ghost predicate IsTable(t: seq<nat>, k: nat) {
    |t| == 256 && forall n :: 0 <= n < 256 ==> t[n] == Shift(n, 8 * (k + 1))
  }

  /** Table k is what a byte contributes after k more bytes have been shifted through. */
  ghost predicate AreTables(t: seq<seq<nat>>) {
    |t| == 8 && forall k :: 0 <= k < 8 ==> IsTable(t[k], k)
  }

  lemma {:induction false} ShiftSnoc(x: nat, n: nat)
    ensures Shift(x, n + 1) == StepBit(Shift(x, n))
    decreases n
  {
    hide StepBit;
    if n > 0 {
      ShiftSnoc(StepBit(x), n - 1);
    } else {
      assert Shift(x, 1) == Shift(StepBit(x), 0);
    }
  }

  method MakeTable() returns (t: seq<nat>)
    ensures IsTable(t, 0)
  {
    hide Xor, Shift;
    var a := new nat[256](_ => 0);
    var n := 0;
    while n < 256
      invariant 0 <= n <= 256
      invariant forall k :: 0 <= k < n ==> a[k] == Shift(k, 8)
    {
      var crc := n;
      var i := 0;
      ShiftNone(n);
      while i < 8
        invariant 0 <= i <= 8 && crc == Shift(n, i)
        invariant forall k :: 0 <= k < n ==> a[k] == Shift(k, 8)
      {
        ShiftSnoc(n, i);
        if crc % 2 != 0 {
          crc := Xor(crc / 2, POLY);
        } else {
          crc := crc / 2;
        }
        i := i + 1;
      }
      assert crc == Shift(n, 8);
      a[n] := crc;
      n := n + 1;
    }
    t := a[..];
  }

  lemma ShiftNone(x: nat)
    ensures Shift(x, 0) == x
  {}

  /** A whole byte leaves the register: the byte-at-a-time step. */
  lemma ByteStep(x: nat)
    ensures Shift(x, 8) == Xor(x / 256, Shift(x % 256, 8))
  {
    hide Xor, Shift;
    Word32();
    ShiftSplit(x % 256, x / 256, 8, 8);
    ShiftNone(x / 256);
    XorComm(Shift(x % 256, 8), x / 256);
  }

  method MakeSlicingTables() returns (tables: seq<seq<nat>>)
    ensures AreTables(tables)
  {
    hide Xor, Shift;
    var first := MakeTable();
    tables := [first];
    var k := 1;
    while k < 8
      invariant 1 <= k <= 8 && |tables| == k
      invariant forall i :: 0 <= i < k ==> IsTable(tables[i], i)
    {
      var a := new nat[256](_ => 0);
      var n := 0;
      while n < 256
        invariant 0 <= n <= 256
        invariant forall i :: 0 <= i < n ==> a[i] == Shift(i, 8 * (k + 1))
      {
        var previous := tables[k - 1][n];
        ByteStep(previous);
        ShiftAdd(n, 8 * k, 8);
        a[n] := Xor(previous / 256, tables[0][previous % 256]);
        n := n + 1;
      }
      tables := tables + [a[..]];
      k := k + 1;
    }
  }

  // ----- eight bytes at a time

  /** Little-endian value of four bytes. */
  lemma {:induction false} DataNumber(data: seq<byte>)
    ensures Number(DataBits(data)) == Le(data)
  {
    hide ByteBits, Number;
    if |data| == 0 {
      EmptyNumber();
    } else {
      DataNumber(data[1..]);
      Word32();
      NumberOfBits(data[0], 8);
      NumberConcat(ByteBits(data[0], 8), DataBits(data[1..]));
    }
  }

  lemma EmptyNumber()
    ensures Number([]) == 0
  {}

  /** The register after a byte string is one long shift of the string's little-endian value. */
  lemma AbsorbIsShift(x: nat, data: seq<byte>)
    ensures Absorb(x, data) == Shift(Xor(x, Le(data)), 8 * |data|)
  {
    hide Register, DataBits, Xor, Shift;
    RegisterIsShift(x, DataBits(data));
    DataNumber(data);
  }

  /** The bytes of a number contribute independently, each by as many shifts as there are bytes from it on. */
  lemma {:induction false} BytesContribute(data: seq<byte>)
    ensures Shift(Le(data), 8 * |data|) == Contributions(data)
  {
    hide Xor, Shift;
    if |data| == 0 {
      ShiftNone(0);
    } else {
      BytesContribute(data[1..]);
      Word32();
      ShiftSplit(data[0], Le(data[1..]), 8, 8 * |data|);
    }
  }

  function Contributions(data: seq<byte>): nat {
    if |data| == 0 then 0 else Xor(Shift(data[0], 8 * |data|), Contributions(data[1..]))
  }

  function Bytes4(x: nat): (b: seq<byte>)
    requires IsU32(x)
    ensures |b| == 4 && Le(b) == x
  {
    LeOf4(x % 256, x / 256 % 256, x / 65536 % 256, x / 16777216 % 256);
    WordBytes(x);
    [x % 256, x / 256 % 256, x / 65536 % 256, x / 16777216 % 256]
  }

  lemma LeOf4(a: byte, b: byte, c: byte, d: byte)
    ensures Le([a, b, c, d]) == (a as int) + 256 * ((b as int) + 256 * ((c as int) + 256 * (d as int)))
  {
    assert [a, b, c, d][1..] == [b, c, d];
    assert [b, c, d][1..] == [c, d];
    assert [c, d][1..] == [d];
    assert Le([d]) == d;
    assert Le([c, d]) == (c as int) + 256 * (d as int);
    assert Le([b, c, d]) == (b as int) + 256 * ((c as int) + 256 * (d as int));
  }

  lemma WordBytes(x: nat)
    requires IsU32(x)
    ensures x % 256 + 256 * (x / 256 % 256 + 256 * (x / 65536 % 256 + 256 * (x / 16777216 % 256))) == x
  {}

  lemma {:induction false} LeConcat(a: seq<byte>, b: seq<byte>)
    ensures Le(a + b) == Le(a) + Pow2(8 * |a|) * Le(b)
  {
    if |a| == 0 {
      assert a + b == b;
    } else {
      assert (a + b)[1..] == a[1..] + b;
      LeConcat(a[1..], b);
      Pow2Byte(|a| - 1);
      ByteFactor(Pow2(8 * (|a| - 1)), Le(b));
    }
  }

  lemma ByteFactor(p: nat, x: nat)
    ensures 256 * p * x == 256 * (p * x)
  {}

  /** The eight independent lookups of one iteration. */
  lemma EightBytes(x: nat, chunk: seq<byte>)
    requires IsU32(x) && |chunk| == 8
    ensures IsU32(Xor(x, U32(chunk[..4])))
    ensures Absorb(x, chunk) == Contributions(Bytes4(Xor(x, U32(chunk[..4]))) + chunk[4..])
  {
    hide Xor, Shift, Absorb, Le, Contributions, Bytes4;
    var lo, hi := Le(chunk[..4]), Le(chunk[4..]);
    assert chunk == chunk[..4] + chunk[4..];
    LeOf4(chunk[0], chunk[1], chunk[2], chunk[3]);
    assert chunk[..4] == [chunk[0], chunk[1], chunk[2], chunk[3]];
    LeConcat(chunk[..4], chunk[4..]);
    Word32();
    LeBound(chunk[..4]);
    XorBound(32, x, lo);
    var y := Xor(x, lo);
    XorSplit(32, 0, x, hi, lo);
    XorZero(hi);
    AbsorbIsShift(x, chunk);
    LeConcat(Bytes4(y), chunk[4..]);
    BytesContribute(Bytes4(y) + chunk[4..]);
  }

  lemma ContributionsCons(y: byte, rest: seq<byte>)
    ensures Contributions([y] + rest) == Xor(Shift(y, 8 * (|rest| + 1)), Contributions(rest))
  {
    assert ([y] + rest)[1..] == rest;
  }

  lemma ContributionsOf8(t: seq<seq<nat>>, b: seq<byte>)
    requires AreTables(t) && |b| == 8
    ensures Contributions(b) ==
      Xor(t[7][b[0]], Xor(t[6][b[1]], Xor(t[5][b[2]], Xor(t[4][b[3]],
      Xor(t[3][b[4]], Xor(t[2][b[5]], Xor(t[1][b[6]], t[0][b[7]])))))))
  {
    hide Xor, Shift;
    forall i | 0 <= i < 8
      ensures Contributions(b[i..]) == Xor(t[7 - i][b[i]], Contributions(b[i + 1..]))
    {
      assert b[i..] == [b[i]] + b[i + 1..];
      ContributionsCons(b[i], b[i + 1..]);
      assert IsTable(t[7 - i], 7 - i);
    }
    assert b[8..] == [] && b[0..] == b;
    XorZero(t[0][b[7]]);
  }

  /** The source combines the eight lookups from the left. */
  lemma XorLeft8(a: nat, b: nat, c: nat, d: nat, e: nat, f: nat, g: nat, h: nat)
    ensures Xor(Xor(Xor(Xor(Xor(Xor(Xor(a, b), c), d), e), f), g), h) == Xor(a, Xor(b, Xor(c, Xor(d, Xor(e, Xor(f, Xor(g, h)))))))
  {
    hide Xor;
    XorAssoc(Xor(Xor(Xor(Xor(Xor(a, b), c), d), e), f), g, h);
    XorAssoc(Xor(Xor(Xor(Xor(a, b), c), d), e), f, Xor(g, h));
    XorAssoc(Xor(Xor(Xor(a, b), c), d), e, Xor(f, Xor(g, h)));
    XorAssoc(Xor(Xor(a, b), c), d, Xor(e, Xor(f, Xor(g, h))));
    XorAssoc(Xor(a, b), c, Xor(d, Xor(e, Xor(f, Xor(g, h)))));
    XorAssoc(a, b, Xor(c, Xor(d, Xor(e, Xor(f, Xor(g, h))))));
  }

  method EightLookups(t: seq<seq<nat>>, crc: nat, chunk: seq<byte>) returns (r: nat)
    requires AreTables(t) && IsU32(crc) && |chunk| == 8
    ensures r == Absorb(crc, chunk)
  {
    hide Xor, Shift, Absorb, Contributions, IsTable;
    EightBytes(crc, chunk);
    var x := Xor(crc, U32(chunk[..4]));
    ghost var b := Bytes4(x) + chunk[4..];
    assert b[..4] == Bytes4(x) && b[4..] == chunk[4..];
    ContributionsOf8(t, b);
    assert forall k :: 0 <= k < 8 ==> |t[k]| == 256 by { TableSizes(t); }
    XorLeft8(t[7][b[0]], t[6][b[1]], t[5][b[2]], t[4][b[3]], t[3][b[4]], t[2][b[5]], t[1][b[6]], t[0][b[7]]);
    r := Xor(Xor(Xor(Xor(Xor(Xor(Xor(t[7][x % 256], t[6][x / 256 % 256]), t[5][x / 65536 % 256]), t[4][x / 16777216 % 256]),
                 t[3][chunk[4]]), t[2][chunk[5]]), t[1][chunk[6]]), t[0][chunk[7]]);
  }

  lemma TableSizes(t: seq<seq<nat>>)
    requires AreTables(t)
    ensures forall k :: 0 <= k < 8 ==> |t[k]| == 256
  {}

  lemma AbsorbWord(x: nat, data: seq<byte>)
    requires IsU32(x)
    ensures IsU32(Absorb(x, data))
    decreases |data|
  {
    hide Absorb, Xor, Shift;
    if |data| == 0 {
      AbsorbNone(x);
    } else {
      assert data == [data[0]] + data[1..];
      AbsorbConcat(x, [data[0]], data[1..]);
      AbsorbByte(x, data[0]);
      Word32();
      XorBound(32, x, data[0]);
      ShiftWord(Xor(x, data[0]), 8);
      AbsorbWord(Absorb(x, [data[0]]), data[1..]);
    }
  }

  lemma AbsorbNone(x: nat)
    ensures Absorb(x, []) == x
  {}

  /** Folding data into the register by table is shifting in every bit of it. */
  method Fold(t: seq<seq<nat>>, start: nat, data: seq<byte>) returns (crc: nat)
    requires AreTables(t) && IsU32(start)
    ensures crc == Absorb(start, data) && IsU32(crc)
  {
    hide Absorb, Xor, Shift, AreTables;
    AbsorbWord(start, data);
    crc := start;
    var rest := data;
    while |rest| >= 8
      invariant IsU32(crc) && Absorb(crc, rest) == Absorb(start, data)
    {
      var chunk, tail := rest[..8], rest[8..];
      assert rest == chunk + tail;
      AbsorbConcat(crc, chunk, tail);
      AbsorbWord(crc, chunk);
      rest := tail;
      crc := EightLookups(t, crc, chunk);
    }
    for i := 0 to |rest|
      invariant IsU32(crc) && Absorb(crc, rest[i..]) == Absorb(start, data)
    {
      var byte := rest[i];
      assert rest[i..] == [byte] + rest[i + 1..];
      AbsorbConcat(crc, [byte], rest[i + 1..]);
      AbsorbWord(crc, [byte]);
      crc := OneLookup(t, crc, byte);
    }
    assert rest[|rest|..] == [];
    AbsorbNone(crc);
  }

  method OneLookup(t: seq<seq<nat>>, crc: nat, b: byte) returns (r: nat)
    requires AreTables(t) && IsU32(crc)
    ensures r == Absorb(crc, [b])
  {
    hide Absorb, Xor, Shift;
    AbsorbByte(crc, b);
    var x := Xor(crc, b);
    ByteStep(x);
    Word32();
    XorSplit(8, crc / 256, crc % 256, 0, b);
    XorZero(crc / 256);
    XorBound(8, crc % 256, b);
    assert IsTable(t[0], 0);
    XorComm(x / 256, t[0][x % 256]);
    r := Xor(t[0][Xor(crc, b) % 256], crc / 256);
  }

  // ----- digests

  function Digest(data: seq<byte>): nat {
    Xor(Absorb(ALL_ONES, data), ALL_ONES)
  }

  method ComputeDigest(t: seq<seq<nat>>, data: seq<byte>) returns (r: nat)
    requires AreTables(t)
    ensures r == Digest(data)
  {
    hide Absorb, Xor, AreTables;
    var crc := Fold(t, ALL_ONES, data);
    r := Xor(crc, ALL_ONES);
  }

  /** The streaming hasher; absorbed is what it has been fed. */
  class Hasher {
    const tables: seq<seq<nat>>
    var state: nat
    ghost var absorbed: seq<byte>

    ghost predicate Valid()
      reads this
    {
      AreTables(tables) && state == Digest(absorbed)
    }

    constructor (tables: seq<seq<nat>>)
      requires AreTables(tables)
      ensures Valid() && absorbed == []
    {
      this.tables := tables;
      state := 0;
      absorbed := [];
      new;
      hide Xor, AreTables;
      AbsorbNone(ALL_ONES);
      XorZero(ALL_ONES);
    }

    method Update(data: seq<byte>)
      requires Valid()
      modifies this
      ensures Valid() && absorbed == old(absorbed) + data
    {
      hide Absorb, Xor, AreTables;
      DigestState(absorbed);
      AbsorbConcat(ALL_ONES, absorbed, data);
      var crc := Fold(tables, Xor(state, ALL_ONES), data);
      state := Xor(crc, ALL_ONES);
      absorbed := absorbed + data;
    }

    method Finalize() returns (r: nat)
      requires Valid()
      ensures r == Digest(absorbed)
    {
      r := state;
    }
  }

  /** Undoing the final inversion recovers the register. */
  lemma DigestState(data: seq<byte>)
    ensures Xor(Digest(data), ALL_ONES) == Absorb(ALL_ONES, data)
    ensures IsU32(Absorb(ALL_ONES, data))
  {
    hide Absorb, Xor;
    AbsorbWord(ALL_ONES, data);
    XorAssoc(Absorb(ALL_ONES, data), ALL_ONES, ALL_ONES);
    XorZero(ALL_ONES);
    XorZero(Absorb(ALL_ONES, data));
  }

  lemma DigestIsWord(data: seq<byte>)
    ensures IsU32(Digest(data))
  {
    hide Absorb, Xor;
    DigestState(data);
    WordSizes();
    XorBound(32, Absorb(ALL_ONES, data), ALL_ONES);
  }

  // ----- detection

  function DiffBits(a: seq<bool>, b: seq<bool>): (d: seq<bool>)
    requires |a| == |b|
    ensures |d| == |a|
  {
    seq(|a|, i requires 0 <= i < |a| => a[i] != b[i])
  }

  lemma DiffTail(a: seq<bool>, b: seq<bool>)
    requires |a| == |b| > 0
    ensures DiffBits(a, b)[0] == (a[0] != b[0]) && DiffBits(a, b)[1..] == DiffBits(a[1..], b[1..])
  {}

  lemma {:induction false} RegisterDiff(x: nat, y: nat, a: seq<bool>, b: seq<bool>)
    requires |a| == |b|
    ensures Xor(Register(x, a), Register(y, b)) == Register(Xor(x, y), DiffBits(a, b))
    decreases |a|
  {
    hide Xor, StepBit, DiffBits;
    if |a| > 0 {
      var p, q := if a[0] then 1 else 0, if b[0] then 1 else 0;
      RegisterDiff(StepBit(Xor(x, p)), StepBit(Xor(y, q)), a[1..], b[1..]);
      DiffTail(a, b);
      StepLinear(Xor(x, p), Xor(y, q));
      XorSwap(x, p, y, q);
      XorZero(1);
      XorZero(0);
    }
  }

  lemma StepNonzero(x: nat)
    requires IsU32(x) && x != 0
    ensures StepBit(x) != 0
  {
    hide Xor;
    XorCancel(x / 2, POLY);
  }

  /** No nonzero register is ever shifted to zero: each step can be undone. */
  lemma {:induction false} ShiftNonzero(x: nat, n: nat)
    requires IsU32(x) && x != 0
    ensures Shift(x, n) != 0
    decreases n
  {
    hide StepBit;
    if n > 0 {
      StepNonzero(x);
      StepWord(x);
      ShiftNonzero(StepBit(x), n - 1);
    }
  }

  lemma {:induction false} NumberOfZeros(b: seq<bool>)
    requires forall i :: 0 <= i < |b| ==> !b[i]
    ensures Number(b) == 0
  {
    if |b| > 0 {
      NumberOfZeros(b[1..]);
    }
  }

  lemma {:induction false} NumberNonzero(b: seq<bool>, i: nat)
    requires i < |b| && b[i]
    ensures Number(b) != 0
  {
    if i > 0 {
      NumberNonzero(b[1..], i - 1);
    }
  }

  lemma {:induction false} NumberBound(b: seq<bool>)
    ensures Number(b) < Pow2(|b|)
  {
    if |b| > 0 {
      NumberBound(b[1..]);
    }
  }

  lemma {:induction false} ShiftZero(n: nat)
    ensures Shift(0, n) == 0
  {
    if n > 0 {
      assert StepBit(0) == 0;
      ShiftZero(n - 1);
    }
  }

  lemma ZerosKeepShifting(x: nat, b: seq<bool>)
    requires forall i :: 0 <= i < |b| ==> !b[i]
    ensures Register(x, b) == Shift(x, |b|)
  {
    hide Xor, Shift, Register;
    NumberOfZeros(b);
    RegisterIsShift(x, b);
    XorZero(x);
  }

  /** A difference confined to at most 32 consecutive bits leaves a nonzero trace in the register. */
  lemma BurstTrace(d: seq<bool>, start: nat, len: nat, hit: nat)
    requires len <= 32 && start + len <= |d| && start <= hit < start + len && d[hit]
    requires forall k :: 0 <= k < |d| && d[k] ==> start <= k < start + len
    ensures Register(0, d) != 0
  {
    hide Xor, Shift, Register, Number;
    var a, w, z := d[..start], d[start..start + len], d[start + len..];
    assert d == a + (w + z);
    RegisterConcat(0, a, w + z);
    RegisterConcat(Register(0, a), w, z);
    ZerosKeepShifting(0, a);
    ShiftZero(start);
    RegisterIsShift(0, w);
    XorZero(Number(w));
    NumberNonzero(w, hit - start);
    NumberBound(w);
    Pow2Monotone(len, 32);
    Word32();
    ShiftNonzero(Number(w), len);
    ShiftWord(Number(w), len);
    ZerosKeepShifting(Register(0, w), z);
    ShiftNonzero(Register(0, w), |z|);
  }

  lemma {:induction false} DataBitsAt(data: seq<byte>, k: nat)
    requires k < 8 * |data|
    ensures DataBits(data)[k] == ByteBits(data[k / 8], 8)[k % 8]
    decreases |data|
  {
    hide ByteBits;
    if k >= 8 {
      DataBitsAt(data[1..], k - 8);
      assert (k - 8) / 8 == k / 8 - 1 && (k - 8) % 8 == k % 8;
    }
  }

  lemma {:induction false} DataBitsInjective(a: seq<byte>, b: seq<byte>)
    requires |a| == |b| && DataBits(a) == DataBits(b)
    ensures a == b
  {
    hide ByteBits;
    if |a| > 0 {
      assert DataBits(a)[..8] == ByteBits(a[0], 8) && DataBits(a)[8..] == DataBits(a[1..]);
      assert DataBits(b)[..8] == ByteBits(b[0], 8) && DataBits(b)[8..] == DataBits(b[1..]);
      DataBitsInjective(a[1..], b[1..]);
      Word32();
      NumberOfBits(a[0], 8);
      NumberOfBits(b[0], 8);
      assert a == [a[0]] + a[1..] && b == [b[0]] + b[1..];
    }
  }

  /** Equal-length payloads that differ, but only inside a run of at most 32 bits, have different checksums. */
  lemma BurstDetected(a: seq<byte>, b: seq<byte>, start: nat, len: nat)
    requires |a| == |b| && a != b
    requires len <= 32 && start + len <= 8 * |a|
    requires forall k :: 0 <= k < 8 * |a| && DataBits(a)[k] != DataBits(b)[k] ==> start <= k < start + len
    ensures Digest(a) != Digest(b)
  {
    hide Xor, Register, DataBits;
    var u, v := DataBits(a), DataBits(b);
    var d := DiffBits(u, v);
    if Digest(a) == Digest(b) {
      DigestState(a);
      DigestState(b);
      RegisterDiff(ALL_ONES, ALL_ONES, u, v);
      XorZero(ALL_ONES);
      XorZero(Register(ALL_ONES, u));
      if u == v {
        DataBitsInjective(a, b);
      } else {
        var hit :| 0 <= hit < |u| && u[hit] != v[hit];
        assert d[hit];
        BurstTrace(d, start, len, hit);
      }
    }
  }

  /** In particular, four consecutive damaged bytes never go unnoticed. */
  lemma FourBytesDetected(a: seq<byte>, b: seq<byte>, p: nat)
    requires |a| == |b| && a != b
    requires forall i :: 0 <= i < |a| && a[i] != b[i] ==> p <= i < p + 4
    ensures Digest(a) != Digest(b)
  {
    hide Digest, DataBits, ByteBits;
    var start := if p > |a| then 8 * |a| else 8 * p;
    var len := if start + 32 <= 8 * |a| then 32 else 8 * |a| - start;
    forall k | 0 <= k < 8 * |a| && DataBits(a)[k] != DataBits(b)[k]
      ensures start <= k < start + len
    {
      DataBitsAt(a, k);
      DataBitsAt(b, k);
      assert a[k / 8] != b[k / 8];
    }
    BurstDetected(a, b, start, len);
  }

  // ----- what this polynomial adds

  /** Whether an odd number of bits is set. */
  function Odd(n: nat): bool {
    if n == 0 then false else (n % 2 == 1) != Odd(n / 2)
  }

  lemma {:induction false} OddXor(a: nat, b: nat)
    ensures Odd(Xor(a, b)) == (Odd(a) != Odd(b))
  {
    if a != 0 || b != 0 {
      OddXor(a / 2, b / 2);
      XorHalves(a, b);
      hide Xor;
      OddHalves(a);
      OddHalves(b);
      OddHalves(Xor(a, b));
      LastBitOfSum(a, b);
    }
  }

  lemma OddHalves(n: nat)
    ensures Odd(n) == ((n % 2 == 1) != Odd(n / 2))
  {}

  lemma LastBitOfSum(a: nat, b: nat)
    ensures ((a + b) % 2 == 1) == ((a % 2 == 1) != (b % 2 == 1))
  {}

  lemma OddPolynomial()
    ensures Odd(POLY)
  {
    hide Odd;
    OddDigit(0, 0x8);
    OddDigit(0x8, 0x2);
    OddDigit(0x82, 0xF);
    OddDigit(0x82F, 0x6);
    OddDigit(0x82F6, 0x3);
    OddDigit(0x82F63, 0xB);
    OddDigit(0x82F63B, 0x7);
    OddDigit(0x82F63B7, 0x8);
    OddDigits();
  }

  lemma OddOfNothing()
    ensures !Odd(0)
  {}

  lemma OddDigit(n: nat, d: nat)
    requires d < 16
    ensures Odd(16 * n + d) == (Odd(n) != Odd(d))
  {
    hide Odd;
    var d1 := d / 2;
    var d2 := d1 / 2;
    var d3 := d2 / 2;
    OddShift(8 * n, d);
    OddShift(4 * n, d1);
    OddShift(2 * n, d2);
    OddShift(n, d3);
    OddOfNothing();
  }

  /** Dropping the last bit changes the parity of 2 x + d as it changes that of d. */
  lemma OddShift(x: nat, d: nat)
    ensures (Odd(2 * x + d) == Odd(x + d / 2)) == (Odd(d) == Odd(d / 2))
  {
    hide Odd;
    OddHalves(2 * x + d);
    OddHalves(d);
  }

  lemma OddDigits()
    ensures !Odd(0) && Odd(2) && !Odd(3) && !Odd(6) && Odd(7) && Odd(8) && Odd(0xB) && !Odd(0xF)
  {}

  /** The polynomial has seventeen terms, so every step keeps the parity of the register. */
  lemma StepKeepsParity(x: nat)
    ensures Odd(StepBit(x)) == Odd(x)
  {
    hide Xor;
    OddHalves(x);
    OddPolynomial();
    OddXor(x / 2, POLY);
  }

  function Trues(b: seq<bool>): nat {
    if |b| == 0 then 0 else (if b[0] then 1 else 0) + Trues(b[1..])
  }

  lemma {:induction false} RegisterParity(x: nat, bits: seq<bool>)
    ensures Odd(Register(x, bits)) == (Odd(x) != (Trues(bits) % 2 == 1))
    decreases |bits|
  {
    hide Xor, StepBit;
    if |bits| > 0 {
      var bit := if bits[0] then 1 else 0;
      var y := Xor(x, bit);
      OddXor(x, bit);
      assert Odd(bit) == bits[0];
      StepKeepsParity(y);
      RegisterParity(StepBit(y), bits[1..]);
      LastBitOfSum(bit, Trues(bits[1..]));
    }
  }

  function DifferingBits(a: seq<byte>, b: seq<byte>): nat
    requires |a| == |b|
  {
    Trues(DiffBits(DataBits(a), DataBits(b)))
  }

  /** Payloads of equal length that differ in an odd number of bits, wherever these lie, have different checksums. */
  lemma OddDamageDetected(a: seq<byte>, b: seq<byte>)
    requires |a| == |b| && DifferingBits(a, b) % 2 == 1
    ensures Digest(a) != Digest(b)
  {
    hide Xor, Register, DataBits, Trues, DiffBits;
    var u, v := DataBits(a), DataBits(b);
    if Digest(a) == Digest(b) {
      DigestState(a);
      DigestState(b);
      RegisterDiff(ALL_ONES, ALL_ONES, u, v);
      XorZero(ALL_ONES);
      XorZero(Register(ALL_ONES, u));
      RegisterParity(0, DiffBits(u, v));
    }
  }

  // ----- known answers

  lemma EightSteps(x0: nat, x1: nat, x2: nat, x3: nat, x4: nat, x5: nat, x6: nat, x7: nat, x8: nat)
    requires StepBit(x0) == x1 && StepBit(x1) == x2 && StepBit(x2) == x3 && StepBit(x3) == x4
    requires StepBit(x4) == x5 && StepBit(x5) == x6 && StepBit(x6) == x7 && StepBit(x7) == x8
    ensures Shift(x0, 8) == x8
  {
    hide StepBit;
    assert Shift(x6, 2) == x8;
    assert Shift(x4, 4) == x8;
    assert Shift(x2, 6) == x8;
  }

  function Word(a: bv8, b: bv8, c: bv8, d: bv8): nat {
    0x100 * (0x100 * (0x100 * Int(a) + Int(b)) + Int(c)) + Int(d)
  }

  lemma XorWords(a: bv8, b: bv8, c: bv8, d: bv8, e: bv8, f: bv8, g: bv8, h: bv8)
    ensures Xor(Word(a, b, c, d), Word(e, f, g, h)) == Word(a ^ e, b ^ f, c ^ g, d ^ h)
  {
    hide Xor, Int;
    XorOfBytes(a, e);
    XorMoreBytes(Int(a), b, Int(e), f);
    XorMoreBytes(0x100 * Int(a) + Int(b), c, 0x100 * Int(e) + Int(f), g);
    XorMoreBytes(0x100 * (0x100 * Int(a) + Int(b)) + Int(c), d, 0x100 * (0x100 * Int(e) + Int(f)) + Int(g), h);
  }

  lemma XorMoreBytes(x: nat, a: bv8, y: nat, b: bv8)
    ensures Xor(0x100 * x + Int(a), 0x100 * y + Int(b)) == 0x100 * Xor(x, y) + Int(a ^ b)
  {
    hide Xor, Int;
    XorOfBytes(a, b);
    assert Pow2(8) == 0x100;
    XorSplit(8, x, Int(a), y, Int(b));
  }

  lemma XorOfBytes(a: bv8, b: bv8)
    ensures Xor(Int(a), Int(b)) == Int(a ^ b) && Int(a) < 256 && Int(b) < 256
  {
    XorIsMachineXor(a, b);
  }

  /** The polynomial, as the register adds it to the other bits. */
  lemma StepByWords(a: bv8, b: bv8, c: bv8, d: bv8, x: nat)
    requires x / 2 == Word(a, b, c, d)
    ensures x % 2 == 1 ==> StepBit(x) == Word(a ^ 0x82, b ^ 0xF6, c ^ 0x3B, d ^ 0x78)
    ensures x % 2 == 0 ==> StepBit(x) == Word(a, b, c, d)
  {
    hide Xor;
    XorWords(a, b, c, d, 0x82, 0xF6, 0x3B, 0x78);
  }

  lemma DigestOfZeroSteps()
    ensures Shift(0xFFFFFFFF, 8) == 0xAD82ACAE
  {
    hide StepBit, Shift;
    StepByWords(0x7F, 0xFF, 0xFF, 0xFF, 0xFFFFFFFF);
    StepByWords(0x7E, 0x84, 0xE2, 0x43, 0xFD09C487);
    StepByWords(0x7E, 0x39, 0x6C, 0x9D, 0xFC72D93B);
    StepByWords(0x7E, 0x67, 0xAB, 0xF2, 0xFCCF57E5);
    StepByWords(0x7E, 0x48, 0xC8, 0x45, 0xFC91908A);
    StepByWords(0x3F, 0x24, 0x64, 0x22, 0x7E48C845);
    StepByWords(0x5E, 0xE9, 0x2F, 0xAD, 0xBDD25F5A);
    StepByWords(0x2F, 0x74, 0x97, 0xD6, 0x5EE92FAD);
    EightSteps(0xFFFFFFFF, 0xFD09C487, 0xFC72D93B, 0xFCCF57E5, 0xFC91908A, 0x7E48C845, 0xBDD25F5A, 0x5EE92FAD, 0xAD82ACAE);
  }

  /** The known answer for a single zero byte. */
  lemma DigestOfZero()
    ensures Digest([0x00]) == 0x527D5351
  {
    hide Xor, Shift, Absorb;
    AbsorbByte(ALL_ONES, 0x00);
    XorWords(0xFF, 0xFF, 0xFF, 0xFF, 0x00, 0x00, 0x00, 0x00);
    DigestOfZeroSteps();
    XorWords(0xAD, 0x82, 0xAC, 0xAE, 0xFF, 0xFF, 0xFF, 0xFF);
  }

  lemma DigestOfLetterSteps()
    ensures Shift(0xFFFFFF9E, 8) == 0x3E2FBCCF
  {
    hide StepBit, Shift;
    StepByWords(0x7F, 0xFF, 0xFF, 0xCF, 0xFFFFFF9E);
    StepByWords(0x3F, 0xFF, 0xFF, 0xE7, 0x7FFFFFCF);
    StepByWords(0x5E, 0x84, 0xE2, 0x4F, 0xBD09C49F);
    StepByWords(0x6E, 0x39, 0x6C, 0x9B, 0xDC72D937);
    StepByWords(0x76, 0x67, 0xAB, 0xF1, 0xECCF57E3);
    StepByWords(0x7A, 0x48, 0xC8, 0x44, 0xF4919089);
    StepByWords(0x7C, 0x5F, 0x79, 0x9E, 0xF8BEF33C);
    StepByWords(0x3E, 0x2F, 0xBC, 0xCF, 0x7C5F799E);
    EightSteps(0xFFFFFF9E, 0x7FFFFFCF, 0xBD09C49F, 0xDC72D937, 0xECCF57E3, 0xF4919089, 0xF8BEF33C, 0x7C5F799E, 0x3E2FBCCF);
  }

  /** The known answer for the letter a. */
  lemma DigestOfLetter()
    ensures Digest([0x61]) == 0xC1D04330
  {
    hide Xor, Shift, Absorb;
    AbsorbByte(ALL_ONES, 0x61);
    XorWords(0xFF, 0xFF, 0xFF, 0xFF, 0x00, 0x00, 0x00, 0x61);
    DigestOfLetterSteps();
    XorWords(0x3E, 0x2F, 0xBC, 0xCF, 0xFF, 0xFF, 0xFF, 0xFF);
  }
}
