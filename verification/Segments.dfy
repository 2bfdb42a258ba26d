/** The segment parser: bitReader and parseSegments of cli/internal/qr/decode.go, after section 7.4 of ISO/IEC 18004:2015. */
module Segments {
  import opened Wrappers
  import opened Bits
  import opened Concatenation
  import opened BitStrings

  const MODE_TERMINATOR: nat := 0
  const MODE_BYTE: nat := 4

  datatype Error = UnsupportedMode(mode: nat) | Truncated

  function CharCountBits(version: int): nat {
    if version <= 9 then 8 else 16
  }

  class BitReader {
    const data: seq<byte>
    var pos: nat

    constructor (data: seq<byte>)
      ensures this.data == data && pos == 0
    {
      this.data := data;
      pos := 0;
    }

    ghost predicate Valid()
      reads this
    {
      pos <= 8 * |data|
    }

    /** The bits not yet read. */
    ghost function Left(): (b: seq<bool>)
      requires Valid()
      reads this
      ensures |b| == Remaining()
    {
      Unpack(data)[pos..]
    }

    function Remaining(): int
      reads this
    {
      |data| * 8 - pos
    }

    method Read(n: int) returns (v: nat, ok: bool)
      requires Valid()
      modifies this
      ensures Valid()
      ensures ok <==> 0 <= n <= 32 && n <= |old(Left())|
      ensures ok ==> v == Value(old(Left())[..n]) && Left() == old(Left())[n..]
      ensures !ok ==> v == 0 && pos == old(pos)
    {
      if n < 0 || n > 32 || Remaining() < n {
        return 0, false;
      }
      hide Value, Unpack, BitAt;
      v := 0;
      ghost var b := Left();
      NoValue(b[..0]);
      for i := 0 to n
        invariant Valid() && pos == old(pos) + i
        invariant v == Value(b[..i])
      {
        var bit := BitAt(data[pos / 8], pos % 8);
        NextBit(data, pos);
        assert b[..i + 1] == b[..i] + [b[i]];
        ValueSnoc(b[..i], bit);
        v := 2 * v + if bit then 1 else 0;
        pos := pos + 1;
      }
      ok := true;
    }
  }

  lemma NextBit(data: seq<byte>, pos: nat)
    requires pos < 8 * |data|
    ensures BitAt(data[pos / 8], pos % 8) == Unpack(data)[pos]
  {}

  lemma NoValue(b: seq<bool>)
    requires b == []
    ensures Value(b) == 0
  {}

  // ----- what a bit string says

  function Prepend(s: seq<byte>, r: Result<seq<seq<byte>>, Error>): Result<seq<seq<byte>>, Error> {
    match r
    case Ok(rest) => Ok([s] + rest)
    case Err(e) => Err(e)
  }

  /** The byte-mode payloads of a segment list, up to its end. */
  function Payloads(b: seq<bool>, countBits: nat): Result<seq<seq<byte>>, Error>
    decreases |b|
  {
    if |b| < 4 || Value(b[..4]) == MODE_TERMINATOR then Ok([])
    else if Value(b[..4]) != MODE_BYTE then Err(UnsupportedMode(Value(b[..4])))
    else if |b| - 4 < countBits then Err(Truncated)
    else
      var count := Value(b[4..][..countBits]);
      var rest := b[4..][countBits..];
      if 8 * count > |rest| then Err(Truncated)
      else Prepend(Pack(rest[..8 * count]), Payloads(rest[8 * count..], countBits))
  }

  function Joined(before: seq<byte>, r: Result<seq<seq<byte>>, Error>): Result<seq<byte>, Error> {
    match r
    case Ok(ss) => Ok(before + Concat(ss))
    case Err(e) => Err(e)
  }

  lemma PayloadsStep(before: seq<byte>, b: seq<bool>, countBits: nat)
    requires |b| >= 4 && Value(b[..4]) == MODE_BYTE && |b| - 4 >= countBits
    requires 8 * Value(b[4..][..countBits]) <= |b[4..][countBits..]|
    ensures var count := Value(b[4..][..countBits]);
            var rest := b[4..][countBits..];
            Joined(before, Payloads(b, countBits)) == Joined(before + Pack(rest[..8 * count]), Payloads(rest[8 * count..], countBits))
  {
    var count := Value(b[4..][..countBits]);
    var rest := b[4..][countBits..];
    var s := Pack(rest[..8 * count]);
    var r := Payloads(rest[8 * count..], countBits);
    if r.Ok? {
      ConcatFront([s] + r.value);
      assert ([s] + r.value)[1..] == r.value;
      assert before + (s + Concat(r.value)) == before + s + Concat(r.value);
    }
  }

  method ReadBytes(r: BitReader, count: nat) returns (bytes: seq<byte>)
    requires r.Valid() && 8 * count <= |r.Left()|
    modifies r
    ensures r.Valid() && bytes == Pack(old(r.Left())[..8 * count]) && r.Left() == old(r.Left())[8 * count..]
  {
    hide Value, Pack, Unpack, Pow2;
    bytes := [];
    ghost var b := r.Left();
    PackNone(b[..0]);
    for i := 0 to count
      invariant r.Valid() && r.Left() == b[8 * i..]
      invariant bytes == Pack(b[..8 * i])
    {
      var v, ok := r.Read(8);
      assert b[8 * i..][..8] == b[8 * i..8 * i + 8];
      PackByte(b, i);
      bytes := bytes + [v];
    }
  }

  lemma PackNone(b: seq<bool>)
    requires b == []
    ensures Pack(b) == []
  {}

  lemma PackByte(b: seq<bool>, i: nat)
    requires 8 * i + 8 <= |b|
    ensures Value(b[8 * i..8 * i + 8]) < 256
    ensures Pack(b[..8 * i + 8]) == Pack(b[..8 * i]) + [Value(b[8 * i..8 * i + 8])]
  {
    ValueBound(b[8 * i..8 * i + 8]);
    assert Pow2(8) == 256;
    var p, q := Pack(b[..8 * i + 8]), Pack(b[..8 * i]) + [ByteOf(b[8 * i..8 * i + 8])];
    forall k | 0 <= k <= i
      ensures p[k] == q[k]
    {
      assert b[..8 * i + 8][8 * k..8 * k + 8] == b[8 * k..8 * k + 8];
      if k < i {
        assert b[..8 * i][8 * k..8 * k + 8] == b[8 * k..8 * k + 8];
      }
    }
  }

  /** The payloads of the data's segment list, joined. */
  method ParseSegments(data: seq<byte>, version: int) returns (result: Result<seq<byte>, Error>)
    ensures result == Joined([], Payloads(Unpack(data), CharCountBits(version)))
  {
    hide Pack, Unpack, Value;
    var r := new BitReader(data);
    var out: seq<byte> := [];
    ghost var all := Unpack(data);
    var countBits := CharCountBits(version);
    assert all[0..] == all;
    while true
      invariant r.Valid() && fresh(r) && r.data == data
      invariant Joined([], Payloads(all, countBits)) == Joined(out, Payloads(r.Left(), countBits))
      decreases |r.Left()|
    {
      ghost var b := r.Left();
      if r.Remaining() < 4 {
        assert out + Concat([]) == out;
        return Ok(out);
      }
      var mode, _ := r.Read(4);
      if mode == MODE_TERMINATOR {
        assert out + Concat([]) == out;
        return Ok(out);
      }
      if mode != MODE_BYTE {
        return Err(UnsupportedMode(mode));
      }
      var count, ok := r.Read(countBits);
      if !ok {
        return Err(Truncated);
      }
      if count * 8 > r.Remaining() {
        return Err(Truncated);
      }
      PayloadsStep(out, b, countBits);
      var bytes := ReadBytes(r, count);
      out := out + bytes;
    }
  }

  // ----- the encoder's form

  /** v in n bits, most significant first. */
  function BitsOf(v: nat, n: nat): (b: seq<bool>)
    ensures |b| == n
  {
    if n == 0 then [] else BitsOf(v / 2, n - 1) + [v % 2 == 1]
  }

  lemma {:induction false} ValueOfBits(v: nat, n: nat)
    requires v < Pow2(n)
    ensures Value(BitsOf(v, n)) == v
  {
    if n > 0 {
      ValueOfBits(v / 2, n - 1);
      ValueSnoc(BitsOf(v / 2, n - 1), v % 2 == 1);
    }
  }

  lemma {:induction false} BitsOfValue(b: seq<bool>)
    ensures BitsOf(Value(b), |b|) == b
  {
    hide Value;
    if |b| > 0 {
      var front, last := b[..|b| - 1], b[|b| - 1];
      BitsOfValue(front);
      assert b == front + [last];
      ValueSnoc(front, last);
    }
  }

  function EncodeSegment(payload: seq<byte>, countBits: nat): seq<bool> {
    BitsOf(MODE_BYTE, 4) + BitsOf(|payload|, countBits) + Unpack(payload)
  }

  function EncodeSegments(payloads: seq<seq<byte>>, countBits: nat): seq<bool> {
    if |payloads| == 0 then [] else EncodeSegment(payloads[0], countBits) + EncodeSegments(payloads[1..], countBits)
  }

  /** What may follow the last segment: too few bits for a mode, or a terminator and any padding. */
  predicate Ending(b: seq<bool>) {
    |b| < 4 || Value(b[..4]) == MODE_TERMINATOR
  }

  lemma SegmentParses(payload: seq<byte>, countBits: nat, rest: seq<bool>)
    requires |payload| < Pow2(countBits)
    ensures Payloads(EncodeSegment(payload, countBits) + rest, countBits) == Prepend(payload, Payloads(rest, countBits))
  {
    hide Pack, Unpack, Value, BitsOf, Payloads, Pow2;
    var m, c, p := BitsOf(MODE_BYTE, 4), BitsOf(|payload|, countBits), Unpack(payload);
    var b := m + c + p + rest;
    assert EncodeSegment(payload, countBits) + rest == b;
    assert b[..4] == m && b[4..] == c + p + rest;
    assert b[4..][..countBits] == c && b[4..][countBits..] == p + rest;
    assert (p + rest)[..8 * |payload|] == p && (p + rest)[8 * |payload|..] == rest;
    ModeParses();
    ValueOfBits(|payload|, countBits);
    PackUnpack(payload, []);
    assert p + [] == p;
    PackWhole(payload);
    PayloadsUnfold(b, countBits);
  }

  lemma PayloadsUnfold(b: seq<bool>, countBits: nat)
    requires |b| >= 4 && Value(b[..4]) == MODE_BYTE && |b| - 4 >= countBits
    requires 8 * Value(b[4..][..countBits]) <= |b[4..][countBits..]|
    ensures var count := Value(b[4..][..countBits]);
            var rest := b[4..][countBits..];
            Payloads(b, countBits) == Prepend(Pack(rest[..8 * count]), Payloads(rest[8 * count..], countBits))
  {}

  lemma ModeParses()
    ensures Value(BitsOf(MODE_BYTE, 4)) == MODE_BYTE
  {
    assert Pow2(4) == 16;
    ValueOfBits(MODE_BYTE, 4);
  }

  lemma PackWhole(data: seq<byte>)
    ensures Pack(Unpack(data)) == data
  {
    PackUnpack(data, []);
    assert Unpack(data) + [] == Unpack(data);
  }

  lemma UnpackPack(b: seq<bool>)
    requires |b| % 8 == 0
    ensures Unpack(Pack(b)) == b
  {
    hide Unpack, Pack;
    PackedLength(b);
    forall k: nat | k < |b|
      ensures Unpack(Pack(b))[k] == b[k]
    {
      UnpackPackByte(b, k / 8);
      assert b[k] == b[k / 8 * 8..k / 8 * 8 + 8][k % 8];
      assert Unpack(Pack(b))[k] == Unpack(Pack(b))[k / 8 * 8..k / 8 * 8 + 8][k % 8];
    }
  }

  lemma PackedLength(b: seq<bool>)
    requires |b| % 8 == 0
    ensures |Unpack(Pack(b))| == |b|
  {}

  lemma UnpackPackByte(b: seq<bool>, i: nat)
    requires |b| % 8 == 0 && i < |b| / 8
    ensures |Unpack(Pack(b))| == |b|
    ensures Unpack(Pack(b))[i * 8..i * 8 + 8] == b[i * 8..i * 8 + 8]
  {
    var x, y := Unpack(Pack(b))[8 * i..8 * i + 8], b[8 * i..8 * i + 8];
    ByteValue(Pack(b), i);
    hide Unpack;
    assert Value(x) == Value(y);
    BitsOfValue(x);
    BitsOfValue(y);
  }

  lemma EndingParses(ending: seq<bool>, countBits: nat)
    requires Ending(ending)
    ensures Payloads(ending, countBits) == Ok([])
  {}

  function PrependAll(payloads: seq<seq<byte>>, r: Result<seq<seq<byte>>, Error>): Result<seq<seq<byte>>, Error> {
    match r
    case Ok(rest) => Ok(payloads + rest)
    case Err(e) => Err(e)
  }

  /** Encoded payloads are read off, then whatever follows them decides. */
  lemma {:induction false} EncodingThen(payloads: seq<seq<byte>>, countBits: nat, rest: seq<bool>)
    requires forall i :: 0 <= i < |payloads| ==> |payloads[i]| < Pow2(countBits)
    ensures Payloads(EncodeSegments(payloads, countBits) + rest, countBits) == PrependAll(payloads, Payloads(rest, countBits))
    decreases |payloads|
  {
    hide EncodeSegment, Payloads, Pow2, Value;
    if |payloads| == 0 {
      assert EncodeSegments(payloads, countBits) + rest == rest;
      PrependNone(Payloads(rest, countBits));
    } else {
      var more := EncodeSegments(payloads[1..], countBits) + rest;
      EncodingThen(payloads[1..], countBits, rest);
      SegmentParses(payloads[0], countBits, more);
      assert EncodeSegments(payloads, countBits) + rest == EncodeSegment(payloads[0], countBits) + more;
      assert [payloads[0]] + payloads[1..] == payloads;
      PrependOne(payloads[0], payloads[1..], Payloads(rest, countBits));
    }
  }

  lemma PrependNone(r: Result<seq<seq<byte>>, Error>)
    ensures PrependAll([], r) == r
  {
    if r.Ok? {
      assert [] + r.value == r.value;
    }
  }

  lemma PrependOne(s: seq<byte>, payloads: seq<seq<byte>>, r: Result<seq<seq<byte>>, Error>)
    ensures Prepend(s, PrependAll(payloads, r)) == PrependAll([s] + payloads, r)
  {
    if r.Ok? {
      assert [s] + (payloads + r.value) == [s] + payloads + r.value;
    }
  }

  /** Every byte-mode encoding, followed by any legal ending, parses to its payloads. */
  lemma EncodingParses(payloads: seq<seq<byte>>, countBits: nat, ending: seq<bool>)
    requires Ending(ending)
    requires forall i :: 0 <= i < |payloads| ==> |payloads[i]| < Pow2(countBits)
    ensures Payloads(EncodeSegments(payloads, countBits) + ending, countBits) == Ok(payloads)
  {
    hide Payloads, Pow2, EncodeSegments, Ending;
    EncodingThen(payloads, countBits, ending);
    EndingParses(ending, countBits);
    assert payloads + [] == payloads;
  }

  /** Nothing else parses: what is accepted is the encoding of the payloads returned, followed by a legal ending. */
  lemma {:induction false} ParsesOnlyEncodings(b: seq<bool>, countBits: nat) returns (ending: seq<bool>)
    requires Payloads(b, countBits).Ok?
    ensures Ending(ending) && b == EncodeSegments(Payloads(b, countBits).value, countBits) + ending
    ensures forall i :: 0 <= i < |Payloads(b, countBits).value| ==> |Payloads(b, countBits).value[i]| < Pow2(countBits)
    decreases |b|
  {
    hide EncodeSegment, Pow2, Value, Pack;
    if Ending(b) {
      ending := b;
      assert EncodeSegments([], countBits) + b == b;
    } else {
      var count := Value(b[4..][..countBits]);
      var rest := b[4..][countBits..];
      var s := Pack(rest[..8 * count]);
      ending := ParsesOnlyEncodings(rest[8 * count..], countBits);
      PayloadsUnfold(b, countBits);
      var ss := Payloads(rest[8 * count..], countBits).value;
      assert ([s] + ss)[1..] == ss;
      ValueBound(b[4..][..countBits]);
      SegmentRebuilt(b, countBits);
    }
  }

  lemma SegmentRebuilt(b: seq<bool>, countBits: nat)
    requires |b| >= 4 && Value(b[..4]) == MODE_BYTE && |b| - 4 >= countBits
    requires 8 * Value(b[4..][..countBits]) <= |b[4..][countBits..]|
    ensures var count := Value(b[4..][..countBits]);
            var rest := b[4..][countBits..];
            b == EncodeSegment(Pack(rest[..8 * count]), countBits) + rest[8 * count..]
  {
    hide Value, BitsOf;
    var count := Value(b[4..][..countBits]);
    var rest := b[4..][countBits..];
    BitsOfValue(b[..4]);
    BitsOfValue(b[4..][..countBits]);
    UnpackPack(rest[..8 * count]);
    assert b == b[..4] + b[4..][..countBits] + rest[..8 * count] + rest[8 * count..];
  }

  // ----- errors

  /** The segment that b starts with cannot be read: its mode is neither the terminator's nor byte mode, or its count or its
      payload is cut short. */
  predicate Faulty(b: seq<bool>, countBits: nat, e: Error) {
    && |b| >= 4
    && match e
       case UnsupportedMode(mode) => Value(b[..4]) == mode && mode != 0 && mode != 4
       case Truncated =>
         Value(b[..4]) == 4 && (|b| < 4 + countBits || |b| < 4 + countBits + 8 * Value(b[4..][..countBits]))
  }

  predicate FaultAfter(b: seq<bool>, countBits: nat, payloads: seq<seq<byte>>, rest: seq<bool>, e: Error) {
    && b == EncodeSegments(payloads, countBits) + rest && Faulty(rest, countBits, e)
    && forall i :: 0 <= i < |payloads| ==> |payloads[i]| < Pow2(countBits)
  }

  lemma FaultyFails(b: seq<bool>, countBits: nat, e: Error)
    ensures Faulty(b, countBits, e) ==> Payloads(b, countBits) == Err(e)
  {
    hide Value;
  }

  lemma {:induction false} FaultFound(b: seq<bool>, countBits: nat) returns (payloads: seq<seq<byte>>, rest: seq<bool>)
    requires Payloads(b, countBits).Err?
    ensures FaultAfter(b, countBits, payloads, rest, Payloads(b, countBits).error)
    decreases |b|
  {
    hide EncodeSegment, Pow2, Value, Pack;
    payloads, rest := [], b;
    assert EncodeSegments([], countBits) + b == b;
    if !Faulty(b, countBits, Payloads(b, countBits).error) {
      var count := Value(b[4..][..countBits]);
      var after := b[4..][countBits..];
      var s := Pack(after[..8 * count]);
      PayloadsUnfold(b, countBits);
      ValueBound(b[4..][..countBits]);
      SegmentRebuilt(b, countBits);
      payloads, rest := FaultFound(after[8 * count..], countBits);
      hide Payloads, Faulty;
      FaultLater(s, after[8 * count..], countBits, payloads, rest, Payloads(b, countBits).error);
      payloads := [s] + payloads;
    }
  }

  lemma FaultLater(s: seq<byte>, b: seq<bool>, countBits: nat, payloads: seq<seq<byte>>, rest: seq<bool>, e: Error)
    requires |s| < Pow2(countBits) && FaultAfter(b, countBits, payloads, rest, e)
    ensures FaultAfter(EncodeSegment(s, countBits) + b, countBits, [s] + payloads, rest, e)
  {
    hide EncodeSegment, Pow2, Faulty;
    assert ([s] + payloads)[1..] == payloads;
    assert EncodeSegment(s, countBits) + (EncodeSegments(payloads, countBits) + rest)
        == EncodeSegment(s, countBits) + EncodeSegments(payloads, countBits) + rest;
  }

  /** An error is reported exactly when, after some whole segments, there is one that cannot be read in just this way. */
  lemma ErrorsExactly(b: seq<bool>, countBits: nat, e: Error)
    ensures Payloads(b, countBits) == Err(e) <==> exists payloads, rest :: FaultAfter(b, countBits, payloads, rest, e)
  {
    hide Payloads, EncodeSegments, Faulty, Pow2;
    if Payloads(b, countBits) == Err(e) {
      var payloads, rest := FaultFound(b, countBits);
    }
    forall payloads, rest | FaultAfter(b, countBits, payloads, rest, e)
      ensures Payloads(b, countBits) == Err(e)
    {
      EncodingThen(payloads, countBits, rest);
      FaultyFails(rest, countBits, e);
    }
  }

  // ----- a single segment, byte by byte

  /** The bytes of p behind four leading bits: each byte's high half ends the byte before it, and four zero bits end the last. */
  function Shifted(high: nat, p: seq<byte>): seq<nat>
    decreases |p|
  {
    if |p| == 0 then [16 * high] else [16 * high + p[0] / 16] + Shifted(p[0] % 16, p[1..])
  }

  lemma {:induction false} ShiftedAreBytes(high: nat, p: seq<byte>)
    requires high < 16
    ensures forall i :: 0 <= i < |Shifted(high, p)| ==> Shifted(high, p)[i] < 256
    decreases |p|
  {
    if |p| > 0 {
      ShiftedAreBytes(p[0] % 16, p[1..]);
    }
  }

  /** The symbol data that carries one payload: the mode 4 in four bits, the length in one byte up to version 9 and in two from
      version 10 on, the payload, and the terminator. */
  function OneSegment(payload: seq<byte>, version: int): (data: seq<byte>)
    requires |payload| < if version <= 9 then 256 else 65536
  {
    var n := |payload|;
    var counted: seq<byte> := (if version <= 9 then [n] else [n / 256, n % 256]) + payload;
    ShiftedAreBytes(4, counted);
    Shifted(4, counted)
  }

  lemma {:induction false} BitsOfSplit(a: nat, b: nat, n: nat, m: nat)
    requires b < Pow2(m)
    ensures BitsOf(a * Pow2(m) + b, n + m) == BitsOf(a, n) + BitsOf(b, m)
  {
    if m > 0 {
      BitsOfSplit(a, b / 2, n, m - 1);
      HalfOf(a, Pow2(m - 1), b);
      assert Pow2(m) == 2 * Pow2(m - 1);
      hide Pow2;
    } else {
      assert a * Pow2(0) + b == a;
    }
  }

  lemma HalfOf(a: nat, p: nat, b: nat)
    ensures (a * (2 * p) + b) / 2 == a * p + b / 2 && (a * (2 * p) + b) % 2 == b % 2
  {
    var x := a * p;
    assert a * (2 * p) == 2 * x;
  }

  lemma ByteBits(b: byte)
    ensures Unpack([b]) == BitsOf(b, 8)
  {
    hide Value, Unpack, BitsOf;
    ByteValue([b], 0);
    assert Unpack([b])[0..8] == Unpack([b]);
    BitsOfValue(Unpack([b]));
  }

  lemma HalfBytes(a: nat, b: nat)
    requires a < 16 && b < 16
    ensures BitsOf(16 * a + b, 8) == BitsOf(a, 4) + BitsOf(b, 4)
  {
    hide BitsOf, Pow2;
    PowersUsed();
    BitsOfSplit(a, b, 4, 4);
  }

  lemma PowersUsed()
    ensures Pow2(4) == 16 && Pow2(8) == 256 && Pow2(16) == 65536
  {
    assert Pow2(4) == 16;
    assert Pow2(8) == 256;
    assert Pow2(12) == 4096;
  }

  lemma UnpackFront(b: byte, rest: seq<byte>)
    ensures Unpack([b] + rest) == Unpack([b]) + Unpack(rest)
  {
    hide BitAt;
    forall k | 8 <= k < 8 + 8 * |rest|
      ensures Unpack([b] + rest)[k] == Unpack(rest)[k - 8]
    {
      assert ([b] + rest)[k / 8] == rest[(k - 8) / 8] && k % 8 == (k - 8) % 8;
    }
  }

  lemma {:induction false} UnpackShifted(high: nat, p: seq<byte>, data: seq<byte>)
    requires high < 16 && data == Shifted(high, p)
    ensures Unpack(data) == BitsOf(high, 4) + Unpack(p) + BitsOf(0, 4)
    decreases |p|
  {
    hide Unpack, BitsOf;
    if |p| == 0 {
      assert data == [16 * high + 0];
      ByteBits(16 * high + 0);
      HalfBytes(high, 0);
      assert Unpack(p) == [];
    } else {
      var a, b := p[0] / 16, p[0] % 16;
      var first := 16 * high + a;
      ShiftedAreBytes(b, p[1..]);
      var rest: seq<byte> := Shifted(b, p[1..]);
      assert data == [first] + rest;
      UnpackShifted(b, p[1..], rest);
      UnpackFront(first, rest);
      ByteBits(first);
      HalfBytes(high, a);
      assert p == [p[0]] + p[1..];
      UnpackFront(p[0], p[1..]);
      ByteBits(p[0]);
      HalfBytes(a, b);
    }
  }

  lemma CountBits(n: nat, version: int)
    requires n < if version <= 9 then 256 else 65536
    ensures n < Pow2(CharCountBits(version))
    ensures BitsOf(n, CharCountBits(version)) == Unpack(if version <= 9 then [n] else [n / 256, n % 256])
  {
    hide Unpack, BitsOf, Pow2;
    PowersUsed();
    if version <= 9 {
      ByteBits(n);
    } else {
      BitsOfSplit(n / 256, n % 256, 8, 8);
      ByteBits(n / 256);
      ByteBits(n % 256);
      UnpackFront(n / 256, [n % 256]);
      assert [n / 256] + [n % 256] == [n / 256, n % 256];
    }
  }

  lemma {:induction false} UnpackJoin(a: seq<byte>, b: seq<byte>)
    ensures Unpack(a + b) == Unpack(a) + Unpack(b)
  {
    hide Unpack;
    if |a| == 0 {
      assert a + b == b && Unpack(a) == [];
    } else {
      assert a + b == [a[0]] + (a[1..] + b) && a == [a[0]] + a[1..];
      UnpackFront(a[0], a[1..] + b);
      UnpackFront(a[0], a[1..]);
      UnpackJoin(a[1..], b);
    }
  }

  /** The mode's value, the width of the length at each version and the order of the bits are those of the standard. */
  lemma OneSegmentParses(payload: seq<byte>, version: int)
    requires |payload| < if version <= 9 then 256 else 65536
    ensures Payloads(Unpack(OneSegment(payload, version)), CharCountBits(version)) == Ok([payload])
  {
    hide Unpack, BitsOf, Payloads, Value, Pow2, Shifted;
    var n, countBits := |payload|, CharCountBits(version);
    var count: seq<byte> := if version <= 9 then [n] else [n / 256, n % 256];
    var ending := BitsOf(0, 4);
    CountBits(n, version);
    UnpackShifted(4, count + payload, OneSegment(payload, version));
    UnpackJoin(count, payload);
    TerminatorEnds();
    EncodingParses([payload], countBits, ending);
    assert [payload][1..] == [];
    assert EncodeSegments([payload], countBits) == EncodeSegment(payload, countBits) + EncodeSegments([], countBits);
    assert Unpack(OneSegment(payload, version)) == EncodeSegments([payload], countBits) + ending;
  }

  lemma TerminatorEnds()
    ensures Ending(BitsOf(0, 4))
  {
    assert Pow2(4) == 16;
    ValueOfBits(0, 4);
    assert BitsOf(0, 4)[..4] == BitsOf(0, 4);
  }
}
