/** Bytes as bit strings, most significant bit first. */
module BitStrings {
  import opened Bits

  /** The number a bit string spells. */
  function Value(b: seq<bool>): nat {
    if |b| == 0 then 0 else 2 * Value(b[..|b| - 1]) + if b[|b| - 1] then 1 else 0
  }

  lemma {:induction false} ValueBound(b: seq<bool>)
    ensures Value(b) < Pow2(|b|)
  {
    if |b| > 0 {
      ValueBound(b[..|b| - 1]);
    }
  }

  lemma ValueSnoc(b: seq<bool>, bit: bool)
    ensures Value(b + [bit]) == 2 * Value(b) + if bit then 1 else 0
  {
    assert (b + [bit])[..|b|] == b;
  }

  function Digit(bit: bool): nat {
    if bit then 1 else 0
  }

  lemma EightDigits(b: seq<bool>)
    requires |b| == 8
    ensures Value(b) == 128 * Digit(b[0]) + 64 * Digit(b[1]) + 32 * Digit(b[2]) + 16 * Digit(b[3]) + 8 * Digit(b[4])
                      + 4 * Digit(b[5]) + 2 * Digit(b[6]) + Digit(b[7])
  {
    hide Value;
    FourDigits(b[..4]);
    Snoc(b, 4);
    Snoc(b, 5);
    Snoc(b, 6);
    Snoc(b, 7);
    assert b[..8] == b;
  }

  lemma FourDigits(b: seq<bool>)
    requires |b| == 4
    ensures Value(b) == 8 * Digit(b[0]) + 4 * Digit(b[1]) + 2 * Digit(b[2]) + Digit(b[3])
  {
    Snoc(b, 0);
    Snoc(b, 1);
    Snoc(b, 2);
    Snoc(b, 3);
    assert b[..4] == b && b[..0] == [];
  }

  lemma Snoc(b: seq<bool>, k: nat)
    requires k < |b|
    ensures Value(b[..k + 1]) == 2 * Value(b[..k]) + Digit(b[k])
  {
    assert b[..k + 1] == b[..k] + [b[k]];
    ValueSnoc(b[..k], b[k]);
  }

  /** b shifted right by k bits. */
  function ShiftRight(b: nat, k: nat): nat {
    if k == 0 then b else ShiftRight(b, k - 1) / 2
  }

  lemma {:induction false} ShiftBound(b: nat, k: nat, n: nat)
    requires b < Pow2(k + n)
    ensures ShiftRight(b, k) < Pow2(n)
    decreases k
  {
    if k > 0 {
      ShiftBound(b, k - 1, n + 1);
    }
  }

  function BitAt(b: byte, i: nat): bool
    requires i < 8
  {
    ShiftRight(b, 7 - i) % 2 == 1
  }

  function Unpack(data: seq<byte>): (r: seq<bool>)
    ensures |r| == 8 * |data|
  {
    seq(8 * |data|, k requires 0 <= k < 8 * |data| => BitAt(data[k / 8], k % 8))
  }

  function ByteOf(b: seq<bool>): byte
    requires |b| == 8
  {
    ValueBound(b);
    assert Pow2(8) == 256;
    Value(b)
  }

  /** The whole bytes in a bit string; a last partial byte is dropped. */
  function Pack(b: seq<bool>): (r: seq<byte>)
    ensures |r| == |b| / 8
  {
    seq(|b| / 8, i requires 0 <= i < |b| / 8 => ByteOf(b[8 * i..8 * i + 8]))
  }

  lemma {:induction false} BytePrefix(data: seq<byte>, i: nat, m: nat)
    requires i < |data| && m <= 8
    ensures Value(Unpack(data)[8 * i..8 * i + m]) == ShiftRight(data[i], 8 - m)
  {
    hide ShiftRight, Pow2, Unpack;
    if m == 0 {
      AllShifted(data[i]);
    } else {
      BytePrefix(data, i, m - 1);
      PrefixSnoc(data, i, m);
      hide Value;
      ValueSnoc(Unpack(data)[8 * i..8 * i + m - 1], BitAt(data[i], m - 1));
      NextShift(data[i], 8 - m);
    }
  }

  lemma AllShifted(b: byte)
    ensures ShiftRight(b, 8) == 0
  {
    assert Pow2(8) == 256 && Pow2(0) == 1;
    ShiftBound(b, 8, 0);
  }

  lemma NextShift(b: nat, k: nat)
    ensures ShiftRight(b, k + 1) == ShiftRight(b, k) / 2
  {}

  lemma PrefixSnoc(data: seq<byte>, i: nat, m: nat)
    requires i < |data| && 0 < m <= 8
    ensures Unpack(data)[8 * i..8 * i + m] == Unpack(data)[8 * i..8 * i + m - 1] + [BitAt(data[i], m - 1)]
  {
    hide BitAt;
    var k := 8 * i + m - 1;
    assert k / 8 == i && k % 8 == m - 1;
    assert Unpack(data)[k] == BitAt(data[i], m - 1);
  }

  /** Every byte is spelled by its eight bits. */
  lemma ByteValue(data: seq<byte>, i: nat)
    requires i < |data|
    ensures Value(Unpack(data)[8 * i..8 * i + 8]) == data[i]
  {
    BytePrefix(data, i, 8);
  }

  lemma PackUnpack(data: seq<byte>, rest: seq<bool>)
    ensures |Pack(Unpack(data) + rest)| >= |data|
    ensures Pack(Unpack(data) + rest)[..|data|] == data
  {
    forall i | 0 <= i < |data|
      ensures Pack(Unpack(data) + rest)[i] == data[i]
    {
      ByteValue(data, i);
      assert (Unpack(data) + rest)[8 * i..8 * i + 8] == Unpack(data)[8 * i..8 * i + 8];
    }
  }

  lemma PackSnoc(b: seq<bool>, bit: bool)
    ensures Pack(b + [bit]) == if |b| % 8 == 7 then Pack(b) + [ByteOf(b[|b| - 7..] + [bit])] else Pack(b)
  {
    forall i | 0 <= i < |b| / 8
      ensures Pack(b + [bit])[i] == Pack(b)[i]
    {
      assert (b + [bit])[8 * i..8 * i + 8] == b[8 * i..8 * i + 8];
    }
    if |b| % 8 == 7 {
      var i := |b| / 8;
      assert (b + [bit])[8 * i..8 * i + 8] == b[|b| - 7..] + [bit];
    }
  }
}
