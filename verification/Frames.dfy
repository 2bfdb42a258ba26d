/** Parsing and authenticating one frame: Frame::from_bytes of core/dhow-codec/src/frame.rs. The keyed MAC is a parameter. */
module Frames {
  import opened Bits
  import opened LittleEndian
  import Crc32c

  type Mac = seq<byte> -> seq<byte>

  const MAGIC: seq<byte> := [0x44, 0x48, 0x4F, 0x57]
  const VERSION: byte := 1
  const FRAME_HEADER_SIZE: nat := 46
  const TYPE_REPAIR: byte := 1

  datatype Frame = Frame(frameType: byte, sessionId: seq<byte>, blockIndex: nat, symbolIndex: nat, payload: seq<byte>) {
    predicate Valid() {
      && frameType <= 2 && |sessionId| == 16 && IsU32(blockIndex) && IsU32(symbolIndex) && IsU16(|payload|)
    }
  }

  datatype FrameError = HeaderTooShort | InvalidMagic | UnsupportedVersion | UnknownFrameType | ReservedFieldNonZero
                      | MacVerificationFailed | Truncated | CrcMismatch

  datatype Parsed = Ok(frame: Frame) | Err(error: FrameError)

  /** The header fields the MAC covers. */
  function MacInput(bytes: seq<byte>): seq<byte>
    requires |bytes| >= FRAME_HEADER_SIZE
  {
    bytes[0..6] + bytes[8..24] + bytes[32..42]
  }

  function ParseFrame(mac: Mac, bytes: seq<byte>): Parsed {
    if |bytes| < FRAME_HEADER_SIZE then Err(HeaderTooShort)
    else if bytes[0..4] != MAGIC then Err(InvalidMagic)
    else if bytes[4] != VERSION then Err(UnsupportedVersion)
    else if bytes[5] > 2 then Err(UnknownFrameType)
    else if U16(bytes[6..8]) != 0 then Err(ReservedFieldNonZero)
    else if bytes[24..32] != mac(MacInput(bytes)) then Err(MacVerificationFailed)
    else
      var end := FRAME_HEADER_SIZE + U16(bytes[40..42]);
      if |bytes| < end then Err(Truncated)
      else if Crc32c.Digest(bytes[FRAME_HEADER_SIZE..end]) != U32(bytes[42..46]) then Err(CrcMismatch)
      else Ok(Frame(bytes[5], bytes[8..24], U32(bytes[32..36]), U32(bytes[36..40]), bytes[FRAME_HEADER_SIZE..end]))
  }

  // ----- the sender's form

  /** What a sender authenticates: to_vec without the reserved field, the MAC, the CRC and the payload. */
  function Authenticated(f: Frame): seq<byte> {
    [0x44, 0x48, 0x4F, 0x57, 1, f.frameType] + f.sessionId + LeBytes(f.blockIndex, 4) + LeBytes(f.symbolIndex, 4) + LeBytes(|f.payload|, 2)
  }

  /** A frame as a sender writes it. */
  function Written(mac: Mac, f: Frame): seq<byte> {
    Leading(f) + mac(Authenticated(f)) + Numbers(f) + f.payload
  }

  function Leading(f: Frame): seq<byte> {
    [0x44, 0x48, 0x4F, 0x57, 1, f.frameType, 0, 0] + f.sessionId
  }

  function Numbers(f: Frame): seq<byte> {
    LeBytes(f.blockIndex, 4) + LeBytes(f.symbolIndex, 4) + LeBytes(|f.payload|, 2) + LeBytes(Crc32c.Digest(f.payload), 4)
  }

  lemma WrittenParts(mac: Mac, f: Frame)
    requires |f.sessionId| == 16 && |mac(Authenticated(f))| == 8
    ensures var w := Written(mac, f);
      && |w| == FRAME_HEADER_SIZE + |f.payload|
      && w[..24] == Leading(f) && w[24..32] == mac(Authenticated(f)) && w[32..46] == Numbers(f) && w[46..] == f.payload
  {
    hide LeBytes, Crc32c.Digest;
  }

  lemma LeadingFields(f: Frame)
    requires |f.sessionId| == 16
    ensures var b := Leading(f);
      && |b| == 24 && b[0..4] == MAGIC && b[4] == VERSION && b[5] == f.frameType && b[6..8] == [0, 0] && b[8..24] == f.sessionId
  {}

  lemma NumberFields(f: Frame)
    ensures var b := Numbers(f);
      && |b| == 14 && b[0..4] == LeBytes(f.blockIndex, 4) && b[4..8] == LeBytes(f.symbolIndex, 4)
      && b[8..10] == LeBytes(|f.payload|, 2) && b[10..14] == LeBytes(Crc32c.Digest(f.payload), 4)
  {
    hide LeBytes, Crc32c.Digest;
  }

  lemma WrittenFields(mac: Mac, f: Frame)
    requires |f.sessionId| == 16 && |mac(Authenticated(f))| == 8
    ensures var w := Written(mac, f);
      && |w| == FRAME_HEADER_SIZE + |f.payload|
      && w[0..4] == MAGIC && w[4] == VERSION && w[5] == f.frameType && w[6..8] == [0, 0] && w[8..24] == f.sessionId
      && w[24..32] == mac(Authenticated(f)) && w[32..36] == LeBytes(f.blockIndex, 4) && w[36..40] == LeBytes(f.symbolIndex, 4)
      && w[40..42] == LeBytes(|f.payload|, 2) && w[42..46] == LeBytes(Crc32c.Digest(f.payload), 4)
      && w[46..] == f.payload
  {
    hide Written, Leading, Numbers, Authenticated, LeBytes, Crc32c.Digest;
    WrittenParts(mac, f);
    LeadingFields(f);
    NumberFields(f);
    var w := Written(mac, f);
    assert w[..24] == w[0..24] && w[..24][4] == w[4] && w[..24][5] == w[5];
    InnerSlice(w, 0, 24, 0, 4);
    InnerSlice(w, 0, 24, 6, 8);
    InnerSlice(w, 0, 24, 8, 24);
    InnerSlice(w, 32, 46, 0, 4);
    InnerSlice(w, 32, 46, 4, 8);
    InnerSlice(w, 32, 46, 8, 10);
    InnerSlice(w, 32, 46, 10, 14);
    assert w[0..4] == MAGIC;
    assert w[6..8] == [0, 0];
    assert w[8..24] == f.sessionId;
    assert w[32..36] == LeBytes(f.blockIndex, 4);
    assert w[36..40] == LeBytes(f.symbolIndex, 4);
    assert w[40..42] == LeBytes(|f.payload|, 2);
    assert w[42..46] == LeBytes(Crc32c.Digest(f.payload), 4);
  }

  lemma InnerSlice(w: seq<byte>, i: nat, j: nat, a: nat, b: nat)
    requires i <= j <= |w| && a <= b <= j - i
    ensures w[i..j][a..b] == w[i + a..i + b]
  {
    var (u, v) := (w[i..j][a..b], w[i + a..i + b]);
    assert |u| == |v| && forall k :: 0 <= k < |u| ==> u[k] == v[k];
  }

  lemma NoWord()
    ensures U16([0, 0]) == 0 && LeBytes(0, 2) == [0, 0]
  {
    var one: seq<byte> := [0];
    assert [0, 0][1..] == one && one[1..] == [];
    assert Le(one) == 0;
  }

  /** The frame parser ignores whatever follows the declared payload. */
  lemma TailIgnored(mac: Mac, frame: seq<byte>, tail: seq<byte>)
    requires ParseFrame(mac, frame).Ok?
    ensures ParseFrame(mac, frame + tail) == ParseFrame(mac, frame)
  {
    hide U16, U32, Crc32c.Digest;
    var w := frame + tail;
    assert w[0..4] == frame[0..4] && w[6..8] == frame[6..8] && w[24..32] == frame[24..32] && w[40..42] == frame[40..42];
    assert w[0..6] == frame[0..6] && w[8..24] == frame[8..24] && w[32..42] == frame[32..42];
    assert w[32..36] == frame[32..36] && w[36..40] == frame[36..40] && w[42..46] == frame[42..46];
    var end := FRAME_HEADER_SIZE + U16(frame[40..42]);
    assert w[FRAME_HEADER_SIZE..end] == frame[FRAME_HEADER_SIZE..end];
  }

  /** Every frame a sender writes parses to itself, whatever follows it. */
  lemma WrittenParses(mac: Mac, f: Frame, tail: seq<byte>)
    requires f.Valid() && |mac(Authenticated(f))| == 8
    ensures ParseFrame(mac, Written(mac, f) + tail) == Ok(f)
  {
    WrittenFields(mac, f);
    hide Written, LeBytes, U16, U32, Crc32c.Digest;
    NoWord();
    Crc32c.DigestIsWord(f.payload);
    U32RoundTrip(f.blockIndex);
    U32RoundTrip(f.symbolIndex);
    U16RoundTrip(|f.payload|);
    U32RoundTrip(Crc32c.Digest(f.payload));
    WrittenMacInput(mac, f);
    var w := Written(mac, f);
    assert w[46..46 + |f.payload|] == w[46..];
    TailIgnored(mac, w, tail);
  }

  lemma WrittenMacInput(mac: Mac, f: Frame)
    requires |f.sessionId| == 16 && |mac(Authenticated(f))| == 8
    ensures |Written(mac, f)| >= FRAME_HEADER_SIZE && MacInput(Written(mac, f)) == Authenticated(f)
  {
    WrittenFields(mac, f);
    hide Written, LeBytes, Crc32c.Digest;
    JoinedFields(Written(mac, f), f.frameType);
    AuthenticatedFields(f);
  }

  lemma JoinedFields(b: seq<byte>, frameType: byte)
    requires |b| >= FRAME_HEADER_SIZE && b[0..4] == MAGIC && b[4] == VERSION && b[5] == frameType
    ensures b[0..6] == [0x44, 0x48, 0x4F, 0x57, 1, frameType]
    ensures b[32..42] == b[32..36] + b[36..40] + b[40..42]
  {
    assert b[0..6] == b[0..4] + [b[4]] + [b[5]];
  }

  lemma AuthenticatedFields(f: Frame)
    ensures Authenticated(f) ==
      [0x44, 0x48, 0x4F, 0x57, 1, f.frameType] + f.sessionId + (LeBytes(f.blockIndex, 4) + LeBytes(f.symbolIndex, 4) + LeBytes(|f.payload|, 2))
  {
    hide LeBytes;
  }

  /** Nothing else parses: what is accepted begins with the written form of the frame returned. */
  lemma ParsesOnlyWritten(mac: Mac, b: seq<byte>)
    requires ParseFrame(mac, b).Ok?
    ensures var f := ParseFrame(mac, b).frame;
      f.Valid() && |mac(Authenticated(f))| == 8 && Written(mac, f) <= b
  {
    hide ParseFrame, Leading, Numbers, Authenticated, Frame.Valid;
    ParsedParts(mac, b);
    ParsedHeader(mac, b);
    FourParts(b, FRAME_HEADER_SIZE + |ParseFrame(mac, b).frame.payload|);
  }

  lemma FourParts(b: seq<byte>, end: nat)
    requires FRAME_HEADER_SIZE <= end <= |b|
    ensures b[..24] + b[24..32] + b[32..46] + b[46..end] == b[..end]
  {}

  lemma ParsedHeader(mac: Mac, b: seq<byte>)
    requires ParseFrame(mac, b).Ok?
    ensures var f := ParseFrame(mac, b).frame;
      f.Valid() && |mac(Authenticated(f))| == 8 && b[24..32] == mac(Authenticated(f))
  {
    hide LeBytes, Crc32c.Digest, Leading, Numbers;
    var f := ParseFrame(mac, b).frame;
    ParsedParts(mac, b);
    JoinedFields(b, f.frameType);
    AuthenticatedFields(f);
    hide Authenticated;
    assert MacInput(b) == Authenticated(f);
  }

  lemma ParsedParts(mac: Mac, b: seq<byte>)
    requires ParseFrame(mac, b).Ok?
    ensures var f := ParseFrame(mac, b).frame;
      && FRAME_HEADER_SIZE + |f.payload| <= |b| && b[46..46 + |f.payload|] == f.payload
      && b[..24] == Leading(f) && b[32..46] == Numbers(f)
      && b[32..36] == LeBytes(f.blockIndex, 4) && b[36..40] == LeBytes(f.symbolIndex, 4) && b[40..42] == LeBytes(|f.payload|, 2)
  {
    hide LeBytes, Crc32c.Digest;
    BytesOfLe(b[6..8]);
    BytesOfLe(b[32..36]);
    BytesOfLe(b[36..40]);
    BytesOfLe(b[40..42]);
    BytesOfLe(b[42..46]);
    NoWord();
    assert b[..24] == b[0..4] + [b[4]] + [b[5]] + b[6..8] + b[8..24];
    assert b[32..46] == b[32..36] + b[36..40] + b[40..42] + b[42..46];
  }

  /** A frame is returned for exactly the byte strings that begin with its written form. */
  lemma ParsesExactly(mac: Mac, b: seq<byte>, f: Frame)
    ensures ParseFrame(mac, b) == Ok(f) <==> f.Valid() && |mac(Authenticated(f))| == 8 && Written(mac, f) <= b
  {
    hide ParseFrame, Written, Authenticated, Frame.Valid;
    if ParseFrame(mac, b) == Ok(f) {
      ParsesOnlyWritten(mac, b);
    }
    if f.Valid() && |mac(Authenticated(f))| == 8 && Written(mac, f) <= b {
      WrittenParses(mac, f, b[|Written(mac, f)|..]);
      assert Written(mac, f) + b[|Written(mac, f)|..] == b;
    }
  }

  // ----- damage

  /** The two byte strings have the same length and differ only inside the payload of the frame that the first one holds. */
  predicate PayloadDamaged(mac: Mac, good: seq<byte>, bad: seq<byte>) {
    && ParseFrame(mac, good).Ok? && |bad| == |good|
    && forall i :: 0 <= i < |good| && bad[i] != good[i] ==> FRAME_HEADER_SIZE <= i < FRAME_HEADER_SIZE + |ParseFrame(mac, good).frame.payload|
  }

  /** n bytes of payload. */
  function Part(b: seq<byte>, n: nat): (r: seq<byte>)
    requires FRAME_HEADER_SIZE + n <= |b|
    ensures |r| == n
  {
    b[FRAME_HEADER_SIZE..FRAME_HEADER_SIZE + n]
  }

  lemma SamePart(mac: Mac, good: seq<byte>, bad: seq<byte>, n: nat)
    requires PayloadDamaged(mac, good, bad) && n == |ParseFrame(mac, good).frame.payload|
    requires FRAME_HEADER_SIZE + n <= |good| && Part(bad, n) == Part(good, n)
    ensures bad == good
  {
    hide ParseFrame;
    forall i | 0 <= i < |good| ensures bad[i] == good[i] {
      if FRAME_HEADER_SIZE <= i < FRAME_HEADER_SIZE + n {
        assert Part(bad, n)[i - FRAME_HEADER_SIZE] == Part(good, n)[i - FRAME_HEADER_SIZE];
      }
    }
  }

  /** The header still verifies, so the checksum decides. */
  lemma DamageMeetsChecksum(mac: Mac, good: seq<byte>, bad: seq<byte>)
    requires PayloadDamaged(mac, good, bad)
    ensures var n := |ParseFrame(mac, good).frame.payload|;
      && FRAME_HEADER_SIZE + n <= |good|
      && (Crc32c.Digest(Part(bad, n)) != Crc32c.Digest(Part(good, n)) ==> ParseFrame(mac, bad) == Err(CrcMismatch))
  {
    hide Crc32c.Digest, U16, U32;
    assert bad[0..4] == good[0..4] && bad[6..8] == good[6..8] && bad[24..32] == good[24..32];
    assert bad[40..42] == good[40..42] && bad[42..46] == good[42..46];
    assert MacInput(bad) == MacInput(good) by {
      assert bad[0..6] == good[0..6] && bad[8..24] == good[8..24] && bad[32..42] == good[32..42];
    }
  }

  /** Damage inside four consecutive payload bytes is always refused, and as a checksum mismatch. */
  lemma FourDamagedBytesRefused(mac: Mac, good: seq<byte>, bad: seq<byte>, p: nat)
    requires PayloadDamaged(mac, good, bad) && bad != good
    requires forall i :: 0 <= i < |good| && bad[i] != good[i] ==> p <= i - FRAME_HEADER_SIZE < p + 4
    ensures ParseFrame(mac, bad) == Err(CrcMismatch)
  {
    hide Crc32c.Digest, ParseFrame;
    DamageMeetsChecksum(mac, good, bad);
    var n := |ParseFrame(mac, good).frame.payload|;
    if Part(bad, n) == Part(good, n) {
      SamePart(mac, good, bad, n);
    } else {
      forall k | 0 <= k < n && Part(bad, n)[k] != Part(good, n)[k] ensures p <= k < p + 4 {
        assert bad[FRAME_HEADER_SIZE + k] != good[FRAME_HEADER_SIZE + k];
      }
      Crc32c.FourBytesDetected(Part(bad, n), Part(good, n), p);
    }
  }

  /** So is any damage that flips an odd number of payload bits, wherever they lie. */
  lemma OddDamageRefused(mac: Mac, good: seq<byte>, bad: seq<byte>)
    requires PayloadDamaged(mac, good, bad)
    requires var n := |ParseFrame(mac, good).frame.payload|;
      FRAME_HEADER_SIZE + n <= |good| && Crc32c.DifferingBits(Part(bad, n), Part(good, n)) % 2 == 1
    ensures ParseFrame(mac, bad) == Err(CrcMismatch)
  {
    hide Crc32c.Digest, Crc32c.DifferingBits, ParseFrame;
    DamageMeetsChecksum(mac, good, bad);
    var n := |ParseFrame(mac, good).frame.payload|;
    Crc32c.OddDamageDetected(Part(bad, n), Part(good, n));
  }
}
