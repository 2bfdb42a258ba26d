/** The resume file: core/dhow-codec/src/resume.rs. The BLAKE3 digest is a parameter. */
module ResumeFormat {
  import opened Wrappers
  import opened Bits
  import opened Concatenation
  import opened BitStrings
  import opened LittleEndian
  import Crc32c

  type Blake3 = seq<byte> -> seq<byte>

  ghost predicate IsDigest(h: Blake3) {
    forall data: seq<byte> :: |h(data)| == 32
  }

  datatype Error =
    | Truncated(expected: nat, actual: nat)
    | InvalidMagic
    | UnsupportedVersion(version: byte)
    | ReservedNotZero(offset: nat)
    | IntegrityCheckFailed
    | InvalidSymbolCount(count: nat)
    | HeldCountMismatch(declared: nat, bitmap: nat)
    | BlockIndexOutOfRange(index: nat)
    | TrailingBytes(extra: nat)

  const RESUME_MAGIC: seq<byte> := [0x44, 0x48, 0x52, 0x53]
  const RESUME_VERSION: byte := 2
  const RESUME_HEADER_SIZE: nat := 128
  const CRC_COVER_BYTES: nat := 92
  const INTEGRITY_COVER_BYTES: nat := 96
  const BLOCK_ENTRY_HEADER_SIZE: nat := 12

  // ----- block entries

  datatype BlockEntry = BlockEntry(blockIndex: nat, symbolCount: nat, symbolsHeld: nat, symbolBitmap: seq<byte>) {

    function ToVec(): seq<byte> {
      LeBytes(blockIndex, 4) + LeBytes(symbolCount, 4) + LeBytes(symbolsHeld, 4) + symbolBitmap
    }

    /** The bitmap has one bit for each symbol, none past the last, and as many set as are declared held. */
    predicate Consistent() {
      && symbolsHeld <= symbolCount
      && |symbolBitmap| == BitmapLen(symbolCount)
      && PopCount(symbolBitmap) == symbolsHeld
      && (symbolCount % 8 != 0 ==> ShiftRight(symbolBitmap[|symbolBitmap| - 1], symbolCount % 8) == 0)
    }

    predicate Valid() {
      IsU32(blockIndex) && IsU32(symbolCount) && Consistent()
    }
  }

  function BitmapLen(symbols: nat): nat {
    (symbols + 7) / 8
  }

  /** How many bits of a byte are set. */
  function Ones(b: nat): nat {
    if b == 0 then 0 else b % 2 + Ones(b / 2)
  }

  function PopCount(bitmap: seq<byte>): nat {
    if |bitmap| == 0 then 0 else Ones(bitmap[0]) + PopCount(bitmap[1..])
  }

  function ParseEntry(bytes: seq<byte>): Result<(BlockEntry, nat), Error> {
    if |bytes| < BLOCK_ENTRY_HEADER_SIZE then Err(Truncated(BLOCK_ENTRY_HEADER_SIZE, |bytes|))
    else
      var blockIndex, symbolCount, symbolsHeld := U32(bytes[0..4]), U32(bytes[4..8]), U32(bytes[8..12]);
      if symbolsHeld > symbolCount then Err(InvalidSymbolCount(symbolsHeld))
      else
        var end := BLOCK_ENTRY_HEADER_SIZE + BitmapLen(symbolCount);
        if |bytes| < end then Err(Truncated(end, |bytes|))
        else
          var bitmap := bytes[BLOCK_ENTRY_HEADER_SIZE..end];
          if PopCount(bitmap) != symbolsHeld then Err(HeldCountMismatch(symbolsHeld, PopCount(bitmap)))
          else if symbolCount % 8 != 0 && ShiftRight(bitmap[|bitmap| - 1], symbolCount % 8) != 0 then
            Err(InvalidSymbolCount(symbolCount))
          else Ok((BlockEntry(blockIndex, symbolCount, symbolsHeld, bitmap), end))
  }

  lemma EntryParses(e: BlockEntry, rest: seq<byte>)
    requires e.Valid()
    ensures ParseEntry(e.ToVec() + rest) == Ok((e, |e.ToVec()|))
  {
    hide ShiftRight, PopCount, LeBytes, U32;
    var b := e.ToVec() + rest;
    U32RoundTrip(e.blockIndex);
    U32RoundTrip(e.symbolCount);
    U32RoundTrip(e.symbolsHeld);
    assert b[0..4] == LeBytes(e.blockIndex, 4) && b[4..8] == LeBytes(e.symbolCount, 4) && b[8..12] == LeBytes(e.symbolsHeld, 4);
    assert b[12..12 + |e.symbolBitmap|] == e.symbolBitmap;
  }

  /** An entry that can be built and written, but declares a count its bitmap does not have, is refused. */
  lemma MiscountRefused(e: BlockEntry)
    requires IsU32(e.blockIndex) && IsU32(e.symbolCount) && e.symbolsHeld <= e.symbolCount
    requires |e.symbolBitmap| == BitmapLen(e.symbolCount) && PopCount(e.symbolBitmap) != e.symbolsHeld
    ensures ParseEntry(e.ToVec()) == Err(HeldCountMismatch(e.symbolsHeld, PopCount(e.symbolBitmap)))
  {
    hide ShiftRight, PopCount, LeBytes, U32;
    var b := e.ToVec();
    U32RoundTrip(e.blockIndex);
    U32RoundTrip(e.symbolCount);
    U32RoundTrip(e.symbolsHeld);
    assert b[0..4] == LeBytes(e.blockIndex, 4) && b[4..8] == LeBytes(e.symbolCount, 4) && b[8..12] == LeBytes(e.symbolsHeld, 4);
    assert b[12..12 + |e.symbolBitmap|] == e.symbolBitmap;
  }

  lemma EntryExact(bytes: seq<byte>)
    requires ParseEntry(bytes).Ok?
    ensures var (e, n) := ParseEntry(bytes).value;
      e.Valid() && n == |e.ToVec()| <= |bytes| && bytes[..n] == e.ToVec()
  {
    hide ShiftRight, PopCount, LeBytes;
    var (e, n) := ParseEntry(bytes).value;
    BytesOfLe(bytes[0..4]);
    BytesOfLe(bytes[4..8]);
    BytesOfLe(bytes[8..12]);
    assert bytes[..n] == bytes[0..4] + bytes[4..8] + bytes[8..12] + bytes[12..n];
  }

  // ----- the header

  datatype Header = Header(sessionId: seq<byte>, blockCount: nat, journalBytes: nat, journalDigest: seq<byte>, crc: nat,
                           integrityDigest: seq<byte>)
  {
    predicate FieldsFit() {
      |sessionId| == 16 && IsU32(blockCount) && IsU64(journalBytes) && |journalDigest| == 32
    }

    predicate Valid(h: Blake3) {
      && FieldsFit()
      && crc == Crc32c.Digest(Covered(sessionId, blockCount, journalBytes, journalDigest))
      && |integrityDigest| == 32
      && integrityDigest == h(Covered(sessionId, blockCount, journalBytes, journalDigest) + LeBytes(crc, 4))
    }

    function ToVec(): seq<byte> {
      Covered(sessionId, blockCount, journalBytes, journalDigest) + LeBytes(crc, 4) + integrityDigest
    }
  }

  /** The bytes the header's CRC covers. */
  function Covered(sessionId: seq<byte>, blockCount: nat, journalBytes: nat, journalDigest: seq<byte>): seq<byte> {
    RESUME_MAGIC + [RESUME_VERSION] + Zeros(3) + sessionId + LeBytes(blockCount, 4) + LeBytes(journalBytes, 8) + journalDigest + Zeros(24)
  }

  function NewHeader(h: Blake3, sessionId: seq<byte>, journalBytes: nat, journalDigest: seq<byte>, entries: seq<BlockEntry>): Header {
    var covered := Covered(sessionId, |entries|, journalBytes, journalDigest);
    var crc := Crc32c.Digest(covered);
    Header(sessionId, |entries|, journalBytes, journalDigest, crc, h(covered + LeBytes(crc, 4)))
  }

  function ParseHeader(h: Blake3, bytes: seq<byte>): Result<Header, Error> {
    if |bytes| < RESUME_HEADER_SIZE then Err(Truncated(RESUME_HEADER_SIZE, |bytes|))
    else if bytes[0..4] != RESUME_MAGIC then Err(InvalidMagic)
    else if bytes[4] != RESUME_VERSION then Err(UnsupportedVersion(bytes[4]))
    else if bytes[5..8] != Zeros(3) then Err(ReservedNotZero(5))
    else
      var header := Header(bytes[8..24], U32(bytes[24..28]), U64(bytes[28..36]), bytes[36..68], U32(bytes[92..96]), bytes[96..128]);
      if bytes[68..92] != Zeros(24) then Err(ReservedNotZero(68))
      else if header.crc != Crc32c.Digest(bytes[0..CRC_COVER_BYTES]) then Err(IntegrityCheckFailed)
      else if header.integrityDigest != h(bytes[0..INTEGRITY_COVER_BYTES]) then Err(IntegrityCheckFailed)
      else Ok(header)
  }

  lemma NewHeaderValid(h: Blake3, sessionId: seq<byte>, journalBytes: nat, journalDigest: seq<byte>, entries: seq<BlockEntry>)
    requires IsDigest(h) && |sessionId| == 16 && IsU64(journalBytes) && |journalDigest| == 32 && IsU32(|entries|)
    ensures NewHeader(h, sessionId, journalBytes, journalDigest, entries).Valid(h)
  {}

  lemma HeaderParses(h: Blake3, header: Header, rest: seq<byte>)
    requires header.Valid(h)
    ensures |header.ToVec()| == RESUME_HEADER_SIZE
    ensures ParseHeader(h, header.ToVec() + rest) == Ok(header)
  {
    hide LeBytes, U32, U64, Crc32c.Digest;
    var b := header.ToVec() + rest;
    var c := Covered(header.sessionId, header.blockCount, header.journalBytes, header.journalDigest);
    Crc32c.DigestIsWord(c);
    U32RoundTrip(header.blockCount);
    U64RoundTrip(header.journalBytes);
    U32RoundTrip(header.crc);
    CoveredFields(header.sessionId, header.blockCount, header.journalBytes, header.journalDigest);
    hide Covered;
    assert b[0..92] == c;
    assert b[92..96] == LeBytes(header.crc, 4) && b[96..128] == header.integrityDigest && b[0..96] == c + LeBytes(header.crc, 4);
    assert b[0..4] == c[0..4] && b[4] == c[4] && b[5..8] == c[5..8] && b[8..24] == c[8..24] && b[24..28] == c[24..28];
    assert b[28..36] == c[28..36] && b[36..68] == c[36..68] && b[68..92] == c[68..92];
  }

  lemma CoveredFields(sessionId: seq<byte>, blockCount: nat, journalBytes: nat, journalDigest: seq<byte>)
    requires |sessionId| == 16 && |journalDigest| == 32
    ensures var c := Covered(sessionId, blockCount, journalBytes, journalDigest);
      && |c| == 92
      && c[0..4] == RESUME_MAGIC && c[4] == RESUME_VERSION && c[5..8] == Zeros(3) && c[8..24] == sessionId
      && c[24..28] == LeBytes(blockCount, 4) && c[28..36] == LeBytes(journalBytes, 8) && c[36..68] == journalDigest
      && c[68..92] == Zeros(24)
  {
    hide LeBytes;
  }

  lemma HeaderExact(h: Blake3, bytes: seq<byte>)
    requires ParseHeader(h, bytes).Ok?
    ensures ParseHeader(h, bytes).value.Valid(h)
    ensures bytes[..RESUME_HEADER_SIZE] == ParseHeader(h, bytes).value.ToVec()
  {
    hide LeBytes, Crc32c.Digest, Zeros;
    var header := ParseHeader(h, bytes).value;
    BytesOfLe(bytes[24..28]);
    BytesOfLe(bytes[28..36]);
    BytesOfLe(bytes[92..96]);
    var c := Covered(header.sessionId, header.blockCount, header.journalBytes, header.journalDigest);
    assert bytes[0..92] == bytes[0..4] + [bytes[4]] + bytes[5..8] + bytes[8..24] + bytes[24..28] + bytes[28..36] + bytes[36..68] + bytes[68..92];
    assert bytes[0..92] == c;
    assert bytes[0..96] == c + bytes[92..96];
    assert bytes[..128] == c + bytes[92..96] + bytes[96..128];
  }

  /** Where an accepted header's fields are, what is fixed, and what the two checks cover. */
  lemma HeaderLayout(h: Blake3, b: seq<byte>, header: Header)
    ensures ParseHeader(h, b) == Ok(header) <==>
      && |b| >= 128 && b[0..8] == [0x44, 0x48, 0x52, 0x53, 2, 0, 0, 0] && (forall i :: 68 <= i < 92 ==> b[i] == 0)
      && header.sessionId == b[8..24] && header.blockCount == WordAt(b, 24)
      && header.journalBytes == WordAt(b, 28) + 0x1_0000_0000 * WordAt(b, 32) && header.journalDigest == b[36..68]
      && header.crc == WordAt(b, 92) == Crc32c.Digest(b[0..92])
      && header.integrityDigest == b[96..128] == h(b[0..96])
  {
    hide U32, U64, Crc32c.Digest, WordAt;
    if |b| >= 128 {
      U32At(b, 24);
      U64At(b, 28);
      U32At(b, 92);
      FixedBytes(b);
    }
  }

  lemma FixedBytes(b: seq<byte>)
    requires |b| >= 128
    ensures b[0..8] == [0x44, 0x48, 0x52, 0x53, 2, 0, 0, 0] <==> b[0..4] == RESUME_MAGIC && b[4] == RESUME_VERSION && b[5..8] == Zeros(3)
    ensures (forall i :: 68 <= i < 92 ==> b[i] == 0) <==> b[68..92] == Zeros(24)
  {
    var z := Zeros(24);
    assert b[0..8] == b[0..4] + [b[4]] + b[5..8];
    assert [0x44, 0x48, 0x52, 0x53, 2, 0, 0, 0] == RESUME_MAGIC + [2] + Zeros(3);
    if forall i :: 68 <= i < 92 ==> b[i] == 0 {
      assert b[68..92] == z;
    }
    if b[68..92] == z {
      forall i | 68 <= i < 92 ensures b[i] == 0 {
        assert b[68..92][i - 68] == z[i - 68];
      }
    }
  }

  /** Where an accepted entry's fields are. */
  lemma EntryLayout(b: seq<byte>)
    requires ParseEntry(b).Ok?
    ensures var (e, n) := ParseEntry(b).value;
      && 12 <= n <= |b| && n == 12 + (e.symbolCount + 7) / 8
      && e.blockIndex == WordAt(b, 0) && e.symbolCount == WordAt(b, 4) && e.symbolsHeld == WordAt(b, 8) && e.symbolBitmap == b[12..n]
  {
    hide U32, PopCount, ShiftRight, WordAt;
    U32At(b, 0);
    U32At(b, 4);
    U32At(b, 8);
  }

  // ----- the file

  datatype ResumeFile = ResumeFile(header: Header, entries: seq<BlockEntry>) {

    function ToVec(): seq<byte> {
      header.ToVec() + EntriesToVec(entries)
    }

    /** Entries in block order, one for each block the header counts. */
    predicate Valid(h: Blake3) {
      && header.Valid(h)
      && |entries| == header.blockCount
      && forall i :: 0 <= i < |entries| ==> entries[i].Valid() && entries[i].blockIndex == i
    }
  }

  function EntryBytes(entry: BlockEntry): seq<byte> {
    entry.ToVec()
  }

  function EntriesToVec(entries: seq<BlockEntry>): seq<byte> {
    Serialized(entries, EntryBytes)
  }

  /** The entries index, ..., count - 1 at the start of bytes, which they must fill. */
  function ParseEntries(bytes: seq<byte>, index: nat, count: nat): Result<seq<BlockEntry>, Error>
    requires index <= count
    decreases count - index
  {
    if index == count then (if |bytes| == 0 then Ok([]) else Err(TrailingBytes(|bytes|)))
    else match ParseEntry(bytes)
      case Err(e) => Err(e)
      case Ok((entry, consumed)) =>
        EntryExact(bytes);
        if entry.blockIndex != index then Err(BlockIndexOutOfRange(entry.blockIndex))
        else match ParseEntries(bytes[consumed..], index + 1, count)
          case Err(e) => Err(e)
          case Ok(rest) => Ok([entry] + rest)
  }

  function Parse(h: Blake3, bytes: seq<byte>): Result<ResumeFile, Error> {
    match ParseHeader(h, bytes)
    case Err(e) => Err(e)
    case Ok(header) =>
      match ParseEntries(bytes[RESUME_HEADER_SIZE..], 0, header.blockCount)
      case Err(e) => Err(e)
      case Ok(entries) => Ok(ResumeFile(header, entries))
  }

  method ToVec(file: ResumeFile) returns (buf: seq<byte>)
    ensures buf == file.ToVec()
  {
    buf := file.header.ToVec();
    for i := 0 to |file.entries|
      invariant buf == file.header.ToVec() + EntriesToVec(file.entries[..i])
    {
      SerializedSnoc(file.entries[..i], file.entries[i], EntryBytes);
      assert file.entries[..i + 1] == file.entries[..i] + [file.entries[i]];
      buf := buf + file.entries[i].ToVec();
    }
    assert file.entries[..|file.entries|] == file.entries;
  }

  method FromBytes(h: Blake3, bytes: seq<byte>) returns (result: Result<ResumeFile, Error>)
    ensures result == Parse(h, bytes)
  {
    hide ParseHeader, ParseEntry;
    var parsed := ParseHeader(h, bytes);
    if parsed.Err? {
      return Err(parsed.error);
    }
    HeaderLength(h, bytes);
    var header := parsed.value;
    var entries: seq<BlockEntry> := [];
    var offset: nat := RESUME_HEADER_SIZE;
    ghost var whole := ParseEntries(bytes[RESUME_HEADER_SIZE..], 0, header.blockCount);
    PrefixedNone(whole);
    for index := 0 to header.blockCount
      invariant offset <= |bytes|
      invariant whole == Prefixed(entries, ParseEntries(bytes[offset..], index, header.blockCount))
    {
      var next := ParseEntry(bytes[offset..]);
      if next.Err? {
        return Err(next.error);
      }
      var (entry, consumed) := next.value;
      EntryExact(bytes[offset..]);
      if entry.blockIndex != index {
        return Err(BlockIndexOutOfRange(entry.blockIndex));
      }
      assert bytes[offset..][consumed..] == bytes[offset + consumed..];
      PrefixedStep(entries, entry, ParseEntries(bytes[offset + consumed..], index + 1, header.blockCount));
      entries := entries + [entry];
      offset := offset + consumed;
    }
    if offset != |bytes| {
      return Err(TrailingBytes(|bytes| - offset));
    }
    assert entries + [] == entries;
    return Ok(ResumeFile(header, entries));
  }

  lemma HeaderLength(h: Blake3, bytes: seq<byte>)
    requires ParseHeader(h, bytes).Ok?
    ensures |bytes| >= RESUME_HEADER_SIZE
  {}

  // ----- round trips

  lemma {:induction false} EntriesParse(entries: seq<BlockEntry>, index: nat)
    requires forall i :: 0 <= i < |entries| ==> entries[i].Valid() && entries[i].blockIndex == index + i
    ensures ParseEntries(EntriesToVec(entries), index, index + |entries|) == Ok(entries)
    decreases |entries|
  {
    hide ParseEntry;
    if |entries| > 0 {
      SerializedFront(entries, EntryBytes);
      EntryParses(entries[0], EntriesToVec(entries[1..]));
      EntriesParse(entries[1..], index + 1);
      assert EntriesToVec(entries)[|entries[0].ToVec()|..] == EntriesToVec(entries[1..]);
      assert [entries[0]] + entries[1..] == entries;
    }
  }

  lemma {:induction false} EntriesExact(bytes: seq<byte>, index: nat, count: nat)
    requires index <= count && ParseEntries(bytes, index, count).Ok?
    ensures var es := ParseEntries(bytes, index, count).value;
      && EntriesToVec(es) == bytes && |es| == count - index
      && forall i :: 0 <= i < |es| ==> es[i].Valid() && es[i].blockIndex == index + i
    decreases count - index
  {
    hide ParseEntry;
    if index < count {
      var (entry, consumed) := ParseEntry(bytes).value;
      EntryExact(bytes);
      EntriesExact(bytes[consumed..], index + 1, count);
      var rest := ParseEntries(bytes[consumed..], index + 1, count).value;
      SerializedFront([entry] + rest, EntryBytes);
      assert ([entry] + rest)[1..] == rest;
      assert bytes == bytes[..consumed] + bytes[consumed..];
    }
  }

  lemma WellFormedParses(h: Blake3, file: ResumeFile)
    requires file.Valid(h)
    ensures Parse(h, file.ToVec()) == Ok(file)
  {
    hide ParseHeader, ParseEntries, EntriesToVec;
    HeaderParses(h, file.header, EntriesToVec(file.entries));
    EntriesParse(file.entries, 0);
    assert file.ToVec()[RESUME_HEADER_SIZE..] == EntriesToVec(file.entries);
  }

  /** Whatever parses is well-formed and is written back as the very same bytes. */
  lemma ParsedRewrites(h: Blake3, bytes: seq<byte>)
    requires Parse(h, bytes).Ok?
    ensures Parse(h, bytes).value.Valid(h)
    ensures Parse(h, bytes).value.ToVec() == bytes
  {
    hide ParseHeader, ParseEntries, EntriesToVec;
    HeaderLength(h, bytes);
    HeaderExact(h, bytes);
    var header := ParseHeader(h, bytes).value;
    EntriesExact(bytes[RESUME_HEADER_SIZE..], 0, header.blockCount);
    assert bytes == bytes[..RESUME_HEADER_SIZE] + bytes[RESUME_HEADER_SIZE..];
  }

  /** A file, once written, parses back to itself exactly when it is well-formed. */
  lemma WrittenParses(h: Blake3, file: ResumeFile)
    ensures Parse(h, file.ToVec()) == Ok(file) <==> file.Valid(h)
  {
    hide Parse, ResumeFile.Valid, ResumeFile.ToVec;
    if file.Valid(h) {
      WellFormedParses(h, file);
    }
    if Parse(h, file.ToVec()) == Ok(file) {
      ParsedRewrites(h, file.ToVec());
    }
  }
}
