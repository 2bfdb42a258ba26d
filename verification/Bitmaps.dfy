/** Symbol bitmaps: one bit for each symbol, least significant bit of the first byte first. */
module Bitmaps {
  import opened Bits
  import opened BitStrings
  import opened ResumeFormat

  predicate BitSet(b: nat, i: nat) {
    ShiftRight(b, i) % 2 == 1
  }

  predicate Holds(bitmap: seq<byte>, symbol: nat)
    requires symbol < 8 * |bitmap|
  {
    BitSet(bitmap[symbol / 8], symbol % 8)
  }

  lemma {:induction false} ShiftInner(b: nat, k: nat)
    requires k > 0
    ensures ShiftRight(b, k) == ShiftRight(b / 2, k - 1)
  {
    if k > 1 {
      ShiftInner(b, k - 1);
    } else {
      assert ShiftRight(b, 1) == ShiftRight(b, 0) / 2;
    }
  }

  lemma AddHalves(b: nat, p: nat)
    ensures (b + 2 * p) / 2 == b / 2 + p && (b + 2 * p) % 2 == b % 2
  {}

  /** Setting a clear bit adds one to the bits set, and keeps the byte within its width. */
  lemma {:induction false} SetClearBit(b: nat, i: nat, n: nat)
    requires !BitSet(b, i) && i < n && b < Pow2(n)
    ensures Ones(b + Pow2(i)) == Ones(b) + 1
    ensures b + Pow2(i) < Pow2(n)
    decreases n
  {
    if i == 0 {
      assert b % 2 == 0;
      assert (b + 1) / 2 == b / 2 && (b + 1) % 2 == 1;
    } else {
      ShiftInner(b, i);
      SetClearBit(b / 2, i - 1, n - 1);
      AddHalves(b, Pow2(i - 1));
    }
  }

  lemma {:induction false} ShiftedOut(b: nat, n: nat)
    ensures ShiftRight(b, n) == 0 <==> b < Pow2(n)
    decreases n
  {
    if n > 0 {
      ShiftInner(b, n);
      ShiftedOut(b / 2, n - 1);
    }
  }

  lemma {:induction false} OnesBound(b: nat, n: nat)
    requires b < Pow2(n)
    ensures Ones(b) <= n
    decreases n
  {
    if n > 0 {
      OnesBound(b / 2, n - 1);
    }
  }

  lemma ByteOnes(b: byte)
    ensures Ones(b) <= 8
  {
    assert Pow2(8) == 256;
    OnesBound(b, 8);
  }

  /** Which of two bits of a byte is set after one of them is. */
  lemma {:induction false} OtherBits(b: nat, i: nat, k: nat)
    requires !BitSet(b, i)
    ensures BitSet(b + Pow2(i), k) <==> k == i || BitSet(b, k)
    decreases i + k
  {
    if i == 0 {
      assert b % 2 == 0;
      assert (b + 1) / 2 == b / 2 && (b + 1) % 2 == 1;
      if k > 0 {
        ShiftInner(b, k);
        ShiftInner(b + 1, k);
      }
    } else {
      AddHalves(b, Pow2(i - 1));
      ShiftInner(b, i);
      if k > 0 {
        ShiftInner(b, k);
        ShiftInner(b + Pow2(i), k);
        OtherBits(b / 2, i - 1, k - 1);
      }
    }
  }

  lemma {:induction false} PopCountUpdate(bitmap: seq<byte>, k: nat, b: byte)
    requires k < |bitmap|
    ensures PopCount(bitmap[k := b]) == PopCount(bitmap) - Ones(bitmap[k]) + Ones(b)
  {
    hide Ones;
    if k > 0 {
      PopCountUpdate(bitmap[1..], k - 1, b);
      assert bitmap[k := b][1..] == bitmap[1..][k - 1 := b];
    } else {
      assert bitmap[0 := b][1..] == bitmap[1..];
    }
  }

  /** The bitmap covers the symbols and nothing past the last one is set. */
  predicate Shaped(bitmap: seq<byte>, symbols: nat) {
    && |bitmap| == BitmapLen(symbols)
    && (symbols % 8 != 0 ==> ShiftRight(bitmap[|bitmap| - 1], symbols % 8) == 0)
  }

  lemma {:induction false} ShapedBound(bitmap: seq<byte>, symbols: nat)
    requires Shaped(bitmap, symbols)
    ensures PopCount(bitmap) <= symbols
    decreases |bitmap|
  {
    hide Ones, ShiftRight, Pow2;
    if |bitmap| == 1 && symbols < 8 {
      ShiftedOut(bitmap[0], symbols);
      OnesBound(bitmap[0], symbols);
      assert bitmap[1..] == [];
    } else if |bitmap| > 0 {
      ByteOnes(bitmap[0]);
      ShapedBound(bitmap[1..], symbols - 8);
    }
  }

  lemma {:induction false} ZerosShaped(symbols: nat)
    ensures Shaped(Zeros(BitmapLen(symbols)), symbols) && PopCount(Zeros(BitmapLen(symbols))) == 0
  {
    ZerosPop(BitmapLen(symbols));
    if symbols % 8 != 0 {
      ShiftedOut(0, symbols % 8);
    }
  }

  lemma {:induction false} ZerosPop(n: nat)
    ensures PopCount(Zeros(n)) == 0
  {
    if n > 0 {
      assert Zeros(n)[1..] == Zeros(n - 1);
      ZerosPop(n - 1);
    }
  }

  function SetSymbol(bitmap: seq<byte>, symbol: nat): (r: seq<byte>)
    requires symbol < 8 * |bitmap| && !Holds(bitmap, symbol)
    ensures |r| == |bitmap|
  {
    assert Pow2(8) == 256;
    SetClearBit(bitmap[symbol / 8], symbol % 8, 8);
    bitmap[symbol / 8 := bitmap[symbol / 8] + Pow2(symbol % 8)]
  }

  lemma SetSymbolShaped(bitmap: seq<byte>, symbols: nat, symbol: nat)
    requires Shaped(bitmap, symbols) && symbol < symbols && !Holds(bitmap, symbol)
    ensures Shaped(SetSymbol(bitmap, symbol), symbols)
  {
    hide Ones, ShiftRight, PopCount;
    var i, bit := symbol / 8, symbol % 8;
    if symbols % 8 != 0 && i == |bitmap| - 1 {
      ShiftedOut(bitmap[i], symbols % 8);
      SetClearBit(bitmap[i], bit, symbols % 8);
      ShiftedOut(bitmap[i] + Pow2(bit), symbols % 8);
    }
  }

  lemma SetSymbolHolds(bitmap: seq<byte>, symbol: nat, k: nat)
    requires symbol < 8 * |bitmap| && k < 8 * |bitmap| && !Holds(bitmap, symbol)
    ensures Holds(SetSymbol(bitmap, symbol), k) <==> k == symbol || Holds(bitmap, k)
  {
    hide Ones, ShiftRight, PopCount;
    OtherBits(bitmap[symbol / 8], symbol % 8, k % 8);
  }

  /** Recording a symbol keeps the bitmap's shape, counts one more, and marks that symbol and no other. */
  lemma SetSymbolCounts(bitmap: seq<byte>, symbols: nat, symbol: nat)
    requires Shaped(bitmap, symbols) && symbol < symbols && !Holds(bitmap, symbol)
    ensures Shaped(SetSymbol(bitmap, symbol), symbols)
    ensures PopCount(SetSymbol(bitmap, symbol)) == PopCount(bitmap) + 1
    ensures forall k: nat :: k < symbols ==> (Holds(SetSymbol(bitmap, symbol), k) <==> k == symbol || Holds(bitmap, k))
  {
    hide Ones, ShiftRight, PopCount, Pow2, Holds;
    SetSymbolShaped(bitmap, symbols, symbol);
    SetSymbolPops(bitmap, symbol);
    forall k: nat | k < symbols
      ensures Holds(SetSymbol(bitmap, symbol), k) <==> k == symbol || Holds(bitmap, k)
    {
      SetSymbolHolds(bitmap, symbol, k);
    }
  }

  lemma SetSymbolPops(bitmap: seq<byte>, symbol: nat)
    requires symbol < 8 * |bitmap| && !Holds(bitmap, symbol)
    ensures PopCount(SetSymbol(bitmap, symbol)) == PopCount(bitmap) + 1
  {
    hide Ones, ShiftRight, PopCount;
    var i, bit := symbol / 8, symbol % 8;
    assert Pow2(8) == 256;
    SetClearBit(bitmap[i], bit, 8);
    PopCountUpdate(bitmap, i, bitmap[i] + Pow2(bit));
  }
}
