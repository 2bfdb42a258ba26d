/** Unsigned numbers as little-endian bytes. */
module LittleEndian {
  import opened Bits

  function Le(b: seq<byte>): nat {
    if |b| == 0 then 0 else b[0] + 256 * Le(b[1..])
  }

  function LeBytes(v: nat, n: nat): (b: seq<byte>)
    ensures |b| == n
  {
    if n == 0 then [] else [v % 256] + LeBytes(v / 256, n - 1)
  }

  lemma Pow2Byte(n: nat)
    ensures Pow2(8 * (n + 1)) == 256 * Pow2(8 * n)
  {
    var k := 8 * n;
    assert Pow2(k + 2) == 4 * Pow2(k);
    assert Pow2(k + 4) == 4 * Pow2(k + 2);
    assert Pow2(k + 6) == 4 * Pow2(k + 4);
    assert Pow2(k + 8) == 4 * Pow2(k + 6);
  }

  lemma {:induction false} LeBound(b: seq<byte>)
    ensures Le(b) < Pow2(8 * |b|)
  {
    if |b| > 0 {
      LeBound(b[1..]);
      Pow2Byte(|b| - 1);
    }
  }

  /** Reading what was written: the number comes back when it fits. */
  lemma {:induction false} LeOfBytes(v: nat, n: nat)
    requires v < Pow2(8 * n)
    ensures Le(LeBytes(v, n)) == v
  {
    if n > 0 {
      Pow2Byte(n - 1);
      LeOfBytes(v / 256, n - 1);
      assert LeBytes(v, n)[1..] == LeBytes(v / 256, n - 1);
    }
  }

  lemma LowByte(low: byte, high: nat)
    ensures (low + 256 * high) % 256 == low && (low + 256 * high) / 256 == high
  {}

  /** Writing what was read: the bytes come back. */
  lemma {:induction false} BytesOfLe(b: seq<byte>)
    ensures LeBytes(Le(b), |b|) == b
  {
    if |b| > 0 {
      BytesOfLe(b[1..]);
      LowByte(b[0], Le(b[1..]));
      assert b == [b[0]] + b[1..];
    }
  }

  predicate IsU16(v: nat) { v < 0x1_0000 }
  predicate IsU32(v: nat) { v < 0x1_0000_0000 }
  predicate IsU64(v: nat) { v < 0x1_0000_0000_0000_0000 }

  lemma WordSizes()
    ensures Pow2(16) == 0x1_0000 && Pow2(32) == 0x1_0000_0000 && Pow2(64) == 0x1_0000_0000_0000_0000
  {
    assert Pow2(8) == 256;
    assert Pow2(16) == 0x1_0000;
    assert Pow2(24) == 0x100_0000;
    assert Pow2(32) == 0x1_0000_0000;
    assert Pow2(40) == 0x100_0000_0000;
    assert Pow2(48) == 0x1_0000_0000_0000;
    assert Pow2(56) == 0x100_0000_0000_0000;
  }

  function U16(b: seq<byte>): (v: nat)
    requires |b| == 2
    ensures IsU16(v)
  {
    LeBound(b);
    WordSizes();
    Le(b)
  }

  function U32(b: seq<byte>): (v: nat)
    requires |b| == 4
    ensures IsU32(v)
  {
    LeBound(b);
    WordSizes();
    Le(b)
  }

  function U64(b: seq<byte>): (v: nat)
    requires |b| == 8
    ensures IsU64(v)
  {
    LeBound(b);
    WordSizes();
    Le(b)
  }

  lemma U16RoundTrip(v: nat)
    requires IsU16(v)
    ensures U16(LeBytes(v, 2)) == v
  {
    WordSizes();
    LeOfBytes(v, 2);
  }

  lemma U32RoundTrip(v: nat)
    requires IsU32(v)
    ensures U32(LeBytes(v, 4)) == v
  {
    WordSizes();
    LeOfBytes(v, 4);
  }

  lemma U64RoundTrip(v: nat)
    requires IsU64(v)
    ensures U64(LeBytes(v, 8)) == v
  {
    WordSizes();
    LeOfBytes(v, 8);
  }

  // ----- numbers at an offset, byte by byte

  function ShortAt(b: seq<byte>, k: nat): nat
    requires k + 2 <= |b|
  {
    (b[k] as int) + 256 * (b[k + 1] as int)
  }

  function WordAt(b: seq<byte>, k: nat): nat
    requires k + 4 <= |b|
  {
    (b[k] as int) + 256 * (b[k + 1] as int) + 65536 * (b[k + 2] as int) + 16777216 * (b[k + 3] as int)
  }

  lemma TwoBytes(w: seq<byte>)
    requires |w| == 2
    ensures U16(w) == ShortAt(w, 0)
  {
    assert w[1..][1..] == [];
    assert Le(w[1..]) == w[1];
  }

  lemma FourBytes(w: seq<byte>)
    requires |w| == 4
    ensures U32(w) == WordAt(w, 0)
  {
    assert Le(w[3..]) == w[3] by {
      assert w[3..][1..] == [];
    }
    assert w[2..][1..] == w[3..] && w[1..][1..] == w[2..];
    assert Le(w[2..]) == (w[2] as int) + 256 * Le(w[3..]);
    assert Le(w[1..]) == (w[1] as int) + 256 * Le(w[2..]);
  }

  lemma U16At(b: seq<byte>, k: nat)
    requires k + 2 <= |b|
    ensures U16(b[k..k + 2]) == ShortAt(b, k)
  {
    hide U16;
    TwoBytes(b[k..k + 2]);
  }

  lemma U32At(b: seq<byte>, k: nat)
    requires k + 4 <= |b|
    ensures U32(b[k..k + 4]) == WordAt(b, k)
  {
    hide U32;
    FourBytes(b[k..k + 4]);
  }

  lemma {:induction false} LeSplit(b: seq<byte>, n: nat)
    requires n <= |b|
    ensures Le(b) == Le(b[..n]) + Pow2(8 * n) * Le(b[n..])
  {
    if n > 0 {
      LeSplit(b[1..], n - 1);
      assert b[1..][..n - 1] == b[..n][1..] && b[1..][n - 1..] == b[n..];
      Pow2Byte(n - 1);
      Regroup(Le(b[..n][1..]), Pow2(8 * (n - 1)), Le(b[n..]));
    } else {
      assert b[n..] == b;
    }
  }

  lemma Regroup(a: nat, m: nat, c: nat)
    ensures 256 * (a + m * c) == 256 * a + (256 * m) * c
  {}

  lemma U64At(b: seq<byte>, k: nat)
    requires k + 8 <= |b|
    ensures U64(b[k..k + 8]) == WordAt(b, k) + 0x1_0000_0000 * WordAt(b, k + 4)
  {
    U32At(b, k);
    U32At(b, k + 4);
    WordSizes();
    var w := b[k..k + 8];
    LeSplit(w, 4);
    assert w[..4] == b[k..k + 4] && w[4..] == b[k + 4..k + 8];
    hide Le, Pow2;
  }
}
