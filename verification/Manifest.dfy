/**
 * The manifest: core/dhow-codec/src/manifest.rs. Its names are UTF-8; the decoding of UTF-8 to characters is a
 * parameter that refuses what is not UTF-8.
 */
module Manifest {
  import opened Wrappers
  import opened Bits
  import opened Concatenation
  import opened LittleEndian
  import Crc32c

  type Utf8 = seq<byte> -> Option<string>

  datatype Error =
    | Truncated(expected: nat, actual: nat)
    | InvalidMagic
    | UnsupportedVersion(version: byte)
    | ReservedNotZero(offset: nat)
    | CrcMismatch
    | InvalidFileCount(count: nat)
    | FileNameTooLong(length: nat)
    | PathTraversal
    | InvalidUtf8
    | UndefinedFlags(flags: byte)
    | TrailingBytes(extra: nat)

  const MANIFEST_MAGIC: seq<byte> := [0x44, 0x48, 0x4d, 0x46]
  const MANIFEST_VERSION: byte := 2
  const MANIFEST_HEADER_SIZE: nat := 228
  const CRC_OFFSET: nat := 160
  const SIGNATURE_OFFSET: nat := 164
  const MAX_NAME_LEN: nat := 4096
  const MAX_FILE_COUNT: nat := 1_000_000
  const ENTRY_FIXED_LEN: nat := 43
  const ENTRY_FLAG_EXECUTABLE: byte := 1

  // ----- names

  /** The parts of a name between its slashes. */
  function Split(name: string): (parts: seq<string>)
    ensures |parts| > 0
  {
    if name == "" then [""]
    else
      var parts := Split(name[..|name| - 1]);
      var last := |parts| - 1;
      if name[|name| - 1] == '/' then parts + [""] else parts[..last] + [parts[last] + [name[|name| - 1]]]
  }

  /** What validate_name refuses; length is the name's length in bytes. */
  function NameError(name: string, length: nat): Option<Error> {
    if name == "" then Some(PathTraversal)
    else if length > MAX_NAME_LEN then Some(FileNameTooLong(length))
    else if '\0' in name || '\\' in name then Some(PathTraversal)
    else if name[0] == '/' || (|name| > 1 && name[1] == ':') then Some(PathTraversal)
    else if ".." in Split(name) then Some(PathTraversal)
    else None
  }

  method ValidateName(name: string, length: nat) returns (refused: Option<Error>)
    ensures refused == NameError(name, length)
  {
    if name == "" { return Some(PathTraversal); }
    if length > MAX_NAME_LEN { return Some(FileNameTooLong(length)); }
    if '\0' in name || '\\' in name { return Some(PathTraversal); }
    if name[0] == '/' || (|name| > 1 && name[1] == ':') { return Some(PathTraversal); }
    var components := Split(name);
    for i := 0 to |components|
      invariant ".." !in components[..i]
    {
      if components[i] == ".." { return Some(PathTraversal); }
    }
    return None;
  }

  /** How deep below its starting directory a path ends; it goes below zero when the path climbs out. */
  function Depth(parts: seq<string>): int {
    if parts == [] then 0
    else
      var before := Depth(parts[..|parts| - 1]);
      var part := parts[|parts| - 1];
      if part == ".." then before - 1 else if part == "" || part == "." then before else before + 1
  }

  lemma {:induction false} NeverClimbs(parts: seq<string>)
    requires ".." !in parts
    ensures Depth(parts) >= 0
  {
    if parts != [] {
      NeverClimbs(parts[..|parts| - 1]);
    }
  }

  /** An accepted name never leaves the directory it is unpacked into, not even midway. */
  lemma NameStaysInside(name: string, length: nat, i: nat)
    requires NameError(name, length).None? && i <= |Split(name)|
    ensures Depth(Split(name)[..i]) >= 0 && Split(name)[0] != ""
  {
    NeverClimbs(Split(name)[..i]);
    FirstPart(name);
  }

  lemma {:induction false} FirstPart(name: string)
    ensures Split(name)[0] == "" <==> name == "" || name[0] == '/'
  {
    if |name| > 1 {
      FirstPart(name[..|name| - 1]);
    }
  }

  /** A part is ".." exactly when those two characters stand between slashes or the ends of the name. */
  predicate DotsAt(name: string, i: nat) {
    && i + 2 <= |name| && name[i] == '.' && name[i + 1] == '.'
    && (i == 0 || name[i - 1] == '/') && (i + 2 == |name| || name[i + 2] == '/')
  }

  /** The last part of a name is what follows its last slash. */
  lemma {:induction false} LastPart(name: string)
    ensures var last := Split(name)[|Split(name)| - 1];
      && |last| <= |name| && name[|name| - |last|..] == last && '/' !in last
      && (|last| < |name| ==> name[|name| - |last| - 1] == '/')
  {
    if |name| > 0 {
      LastPart(name[..|name| - 1]);
    }
  }

  /** ".." is the last part exactly when the name ends in such dots. */
  lemma LastDots(name: string)
    ensures Split(name)[|Split(name)| - 1] == ".." <==> |name| >= 2 && DotsAt(name, |name| - 2)
  {
    hide Split, DotsAt;
    LastPart(name);
    DotsLast(name, Split(name)[|Split(name)| - 1]);
  }

  lemma DotsLast(name: string, last: string)
    requires |last| <= |name| && name[|name| - |last|..] == last && '/' !in last
    requires |last| < |name| ==> name[|name| - |last| - 1] == '/'
    ensures last == ".." <==> |name| >= 2 && DotsAt(name, |name| - 2)
  {
    var n := |last|;
    assert forall k :: 0 <= k < n ==> last[k] == name[|name| - n + k] && last[k] != '/';
    if n >= 3 {
      assert last[n - 3] == name[|name| - 3];
    } else if n == 2 {
      assert last == [last[0], last[1]];
    } else if n == 1 {
      assert last[0] == name[|name| - 1];
    }
  }

  /** An earlier part is ".." exactly when such dots are followed by a slash. */
  lemma {:induction false} EarlierDots(name: string)
    ensures ".." in Split(name)[..|Split(name)| - 1] <==> exists i: nat :: DotsAt(name, i) && i + 2 < |name|
  {
    if |name| > 0 {
      var (front, c) := (name[..|name| - 1], name[|name| - 1]);
      var (parts, before) := (Split(name), Split(front));
      EarlierDots(front);
      LastDots(front);
      if c == '/' {
        assert parts[..|parts| - 1] == before;
        assert before == before[..|before| - 1] + [before[|before| - 1]];
      } else {
        assert parts[..|parts| - 1] == before[..|before| - 1];
      }
      hide Split, DotsAt;
      forall i: nat | i + 2 < |name| ensures DotsAt(name, i) <==> DotsAt(front, i) && (i + 2 < |front| || c == '/') {
        DotsLonger(name, i);
      }
    }
  }

  lemma DotsLonger(name: string, i: nat)
    requires i + 2 < |name|
    ensures var front := name[..|name| - 1];
      DotsAt(name, i) <==> DotsAt(front, i) && (i + 2 < |front| || name[|name| - 1] == '/')
  {}

  lemma DotsArePart(name: string)
    ensures ".." in Split(name) <==> exists i: nat :: DotsAt(name, i)
  {
    EarlierDots(name);
    LastDots(name);
    var parts := Split(name);
    hide Split;
    assert parts == parts[..|parts| - 1] + [parts[|parts| - 1]];
  }

  /** The accepted names, exactly. */
  lemma AcceptedExactly(name: string, length: nat)
    ensures NameError(name, length).None? <==>
      && 0 < |name| && length <= 4096
      && (forall i :: 0 <= i < |name| ==> name[i] != '\0' && name[i] != '\\')
      && name[0] != '/' && (|name| > 1 ==> name[1] != ':')
      && !exists i: nat :: DotsAt(name, i)
  {
    hide DotsAt, Split;
    DotsArePart(name);
  }

  // ----- file entries

  /** The name is the bytes of the string. */
  datatype FileEntry = FileEntry(name: seq<byte>, size: nat, digest: seq<byte>, executable: bool) {

    function Flags(): byte {
      if executable then ENTRY_FLAG_EXECUTABLE else 0
    }

    function ToVec(): seq<byte> {
      LeBytes(|name|, 2) + name + LeBytes(size, 8) + digest + [Flags()]
    }

    predicate Valid(text: Utf8) {
      && IsU64(size) && |digest| == 32 && |name| <= MAX_NAME_LEN
      && text(name).Some? && NameError(text(name).value, |name|).None?
    }
  }

  function ParseEntry(text: Utf8, bytes: seq<byte>): Result<(FileEntry, nat), Error> {
    if |bytes| < 2 then Err(Truncated(2, |bytes|))
    else
      var nameLen := U16(bytes[0..2]);
      if nameLen > MAX_NAME_LEN then Err(FileNameTooLong(nameLen))
      else
        var end := ENTRY_FIXED_LEN + nameLen;
        if |bytes| < end then Err(Truncated(end, |bytes|))
        else
          var name := bytes[2..2 + nameLen];
          if text(name).None? then Err(InvalidUtf8)
          else if NameError(text(name).value, nameLen).Some? then Err(NameError(text(name).value, nameLen).value)
          else
            var flags := bytes[42 + nameLen];
            if flags > ENTRY_FLAG_EXECUTABLE then Err(UndefinedFlags(flags))
            else Ok((FileEntry(name, U64(bytes[2 + nameLen..10 + nameLen]), bytes[10 + nameLen..42 + nameLen], flags == ENTRY_FLAG_EXECUTABLE), end))
  }

  lemma EntryParses(text: Utf8, e: FileEntry, rest: seq<byte>)
    requires e.Valid(text)
    ensures ParseEntry(text, e.ToVec() + rest) == Ok((e, |e.ToVec()|))
  {
    hide LeBytes, U16, U64, NameError;
    var (b, n) := (e.ToVec() + rest, |e.name|);
    U16RoundTrip(n);
    U64RoundTrip(e.size);
    assert b == LeBytes(n, 2) + (e.name + (LeBytes(e.size, 8) + (e.digest + ([e.Flags()] + rest))));
    assert b[0..2] == LeBytes(n, 2);
    assert b[2..2 + n] == e.name;
    assert b[2 + n..10 + n] == LeBytes(e.size, 8);
    assert b[10 + n..42 + n] == e.digest && b[42 + n] == e.Flags();
  }

  /** A name of 65536 bytes is written with length zero, and what was written is refused. */
  lemma LongNameLost(text: Utf8, e: FileEntry)
    requires |e.name| == 0x1_0000 && |e.digest| == 32 && text([]) == Some("")
    ensures e.ToVec()[0..2] == [0, 0] && ParseEntry(text, e.ToVec()).Err?
  {
    var b := e.ToVec();
    assert LeBytes(0x1_0000, 2) == [0, 0];
    assert b[0..2] == [0, 0];
    assert U16([0, 0]) == 0 by {
      var one: seq<byte> := [0];
      assert [0, 0][1..] == one && one[1..] == [];
      assert Le(one) == 0;
    }
    assert b[2..2] == [];
  }

  lemma EntryExact(text: Utf8, bytes: seq<byte>)
    requires ParseEntry(text, bytes).Ok?
    ensures var (e, n) := ParseEntry(text, bytes).value;
      e.Valid(text) && n == |e.ToVec()| <= |bytes| && bytes[..n] == e.ToVec()
  {
    hide LeBytes, NameError;
    var (e, n) := ParseEntry(text, bytes).value;
    var k := |e.name|;
    BytesOfLe(bytes[0..2]);
    BytesOfLe(bytes[2 + k..10 + k]);
    EntryPieces(bytes, k);
  }

  lemma EntryPieces(b: seq<byte>, k: nat)
    requires 43 + k <= |b|
    ensures b[..43 + k] == b[0..2] + b[2..2 + k] + b[2 + k..10 + k] + b[10 + k..42 + k] + [b[42 + k]]
  {
    assert b[..10 + k] == b[0..2] + b[2..2 + k] + b[2 + k..10 + k];
    assert b[..43 + k] == b[..10 + k] + b[10 + k..42 + k] + [b[42 + k]];
  }

  // ----- the header

  datatype SessionParams = SessionParams(payloadSize: nat, blockCount: nat, symbolSize: nat, sourceSymbols: nat, totalSymbols: nat,
                                         z: nat, n: nat, psi: nat, payloadDigest: seq<byte>)
  {
    predicate Fits() {
      && IsU64(payloadSize) && IsU32(blockCount) && IsU32(symbolSize) && IsU32(sourceSymbols) && IsU32(totalSymbols)
      && IsU32(z) && IsU32(n) && IsU16(psi) && |payloadDigest| == 32
    }
  }

  datatype Header = Header(sessionId: seq<byte>, fileCount: nat, totalSize: nat, salt: seq<byte>, nonce: seq<byte>,
                           params: SessionParams, crc: nat, signature: seq<byte>)
  {
    predicate Fits() {
      && |sessionId| == 16 && IsU32(fileCount) && IsU64(totalSize) && |salt| == 32 && |nonce| == 24 && params.Fits()
      && |signature| == 64
    }

    predicate Valid() {
      Fits() && crc == Crc32c.Digest(Covered())
    }

    function Identity(): seq<byte> {
      MANIFEST_MAGIC + [MANIFEST_VERSION] + Zeros(3) + sessionId + LeBytes(fileCount, 4) + LeBytes(totalSize, 8)
        + params.payloadDigest + salt + nonce
    }

    function Coding(): seq<byte> {
      LeBytes(params.payloadSize, 8) + LeBytes(params.blockCount, 4) + LeBytes(params.symbolSize, 4)
        + LeBytes(params.sourceSymbols, 4) + LeBytes(params.totalSymbols, 4) + LeBytes(params.z, 4) + LeBytes(params.n, 4)
        + LeBytes(params.psi, 2) + Zeros(2)
    }

    /** The bytes the header's CRC covers. */
    function Covered(): seq<byte> {
      Identity() + Coding()
    }

    function ToVec(): seq<byte> {
      Covered() + LeBytes(crc, 4) + signature
    }
  }

  function ParseParams(coding: seq<byte>, payloadDigest: seq<byte>): SessionParams
    requires |coding| == 36
  {
    SessionParams(U64(coding[0..8]), U32(coding[8..12]), U32(coding[12..16]), U32(coding[16..20]), U32(coding[20..24]),
                  U32(coding[24..28]), U32(coding[28..32]), U16(coding[32..34]), payloadDigest)
  }

  function ParseHeader(bytes: seq<byte>): Result<Header, Error> {
    if |bytes| < 5 then Err(Truncated(MANIFEST_HEADER_SIZE, |bytes|))
    else if bytes[0..4] != MANIFEST_MAGIC then Err(InvalidMagic)
    else if bytes[4] != MANIFEST_VERSION then Err(UnsupportedVersion(bytes[4]))
    else if |bytes| < MANIFEST_HEADER_SIZE then Err(Truncated(MANIFEST_HEADER_SIZE, |bytes|))
    else if bytes[5..8] != Zeros(3) then Err(ReservedNotZero(5))
    else if bytes[158..160] != Zeros(2) then Err(ReservedNotZero(158))
    else
      var params := ParseParams(bytes[124..160], bytes[36..68]);
      var header := Header(bytes[8..24], U32(bytes[24..28]), U64(bytes[28..36]), bytes[68..100], bytes[100..124], params,
                           U32(bytes[160..164]), bytes[164..228]);
      if header.crc != Crc32c.Digest(bytes[0..CRC_OFFSET]) then Err(CrcMismatch) else Ok(header)
  }

  lemma CodingParses(header: Header)
    requires header.Fits()
    ensures |header.Coding()| == 36 && header.Coding()[34..36] == Zeros(2)
    ensures ParseParams(header.Coding(), header.params.payloadDigest) == header.params
  {
    hide LeBytes, U16, U32, U64;
    var (p, c) := (header.params, header.Coding());
    U64RoundTrip(p.payloadSize);
    U32RoundTrip(p.blockCount);
    U32RoundTrip(p.symbolSize);
    U32RoundTrip(p.sourceSymbols);
    U32RoundTrip(p.totalSymbols);
    U32RoundTrip(p.z);
    U32RoundTrip(p.n);
    U16RoundTrip(p.psi);
    assert c[0..8] == LeBytes(p.payloadSize, 8) && c[8..12] == LeBytes(p.blockCount, 4) && c[12..16] == LeBytes(p.symbolSize, 4);
    assert c[16..20] == LeBytes(p.sourceSymbols, 4) && c[20..24] == LeBytes(p.totalSymbols, 4) && c[24..28] == LeBytes(p.z, 4);
    assert c[28..32] == LeBytes(p.n, 4) && c[32..34] == LeBytes(p.psi, 2);
    var z := Zeros(2);
    assert c[34] == z[0] && c[35] == z[1];
    assert c[34..36] == z;
  }

  lemma CodingExact(header: Header, coding: seq<byte>)
    requires |coding| == 36 && coding[34..36] == Zeros(2) && header.params == ParseParams(coding, header.params.payloadDigest)
    ensures header.Coding() == coding
  {
    hide LeBytes, Zeros;
    BytesOfLe(coding[0..8]);
    BytesOfLe(coding[8..12]);
    BytesOfLe(coding[12..16]);
    BytesOfLe(coding[16..20]);
    BytesOfLe(coding[20..24]);
    BytesOfLe(coding[24..28]);
    BytesOfLe(coding[28..32]);
    BytesOfLe(coding[32..34]);
    assert coding == coding[0..8] + coding[8..12] + coding[12..16] + coding[16..20] + coding[20..24] + coding[24..28] + coding[28..32]
                   + coding[32..34] + coding[34..36];
  }

  lemma IdentityFields(header: Header)
    requires header.Fits()
    ensures var i := header.Identity();
      && |i| == 124
      && i[0..4] == MANIFEST_MAGIC && i[4] == MANIFEST_VERSION && i[5..8] == Zeros(3) && i[8..24] == header.sessionId
      && i[24..28] == LeBytes(header.fileCount, 4) && i[28..36] == LeBytes(header.totalSize, 8)
      && i[36..68] == header.params.payloadDigest && i[68..100] == header.salt && i[100..124] == header.nonce
  {
    hide LeBytes;
  }

  lemma HeaderParses(header: Header, rest: seq<byte>)
    requires header.Valid()
    ensures |header.ToVec()| == MANIFEST_HEADER_SIZE
    ensures ParseHeader(header.ToVec() + rest) == Ok(header)
  {
    hide LeBytes, U16, U32, U64, Crc32c.Digest, Zeros, ParseParams;
    var b := header.ToVec() + rest;
    var (i, c) := (header.Identity(), header.Coding());
    Crc32c.DigestIsWord(header.Covered());
    U32RoundTrip(header.fileCount);
    U64RoundTrip(header.totalSize);
    U32RoundTrip(header.crc);
    CodingParses(header);
    IdentityFields(header);
    hide Header.Identity, Header.Coding;
    assert b[0..160] == header.Covered() && b[160..164] == LeBytes(header.crc, 4) && b[164..228] == header.signature;
    assert b[124..160] == c && b[158..160] == c[34..36];
    assert b[0..4] == i[0..4] && b[4] == i[4] && b[5..8] == i[5..8] && b[8..24] == i[8..24] && b[24..28] == i[24..28];
    assert b[28..36] == i[28..36] && b[36..68] == i[36..68] && b[68..100] == i[68..100] && b[100..124] == i[100..124];
  }

  lemma HeaderExact(bytes: seq<byte>)
    requires ParseHeader(bytes).Ok?
    ensures |bytes| >= MANIFEST_HEADER_SIZE && ParseHeader(bytes).value.Valid()
    ensures bytes[..MANIFEST_HEADER_SIZE] == ParseHeader(bytes).value.ToVec()
  {
    hide LeBytes, Crc32c.Digest, Zeros;
    var header := ParseHeader(bytes).value;
    BytesOfLe(bytes[24..28]);
    BytesOfLe(bytes[28..36]);
    BytesOfLe(bytes[160..164]);
    HeaderPieces(bytes);
    CodingExact(header, bytes[124..160]);
    hide ParseParams, Header.Coding;
    assert bytes[0..124] == header.Identity();
  }

  lemma HeaderPieces(b: seq<byte>)
    requires |b| >= 228
    ensures b[0..124] == b[0..4] + [b[4]] + b[5..8] + b[8..24] + b[24..28] + b[28..36] + b[36..68] + b[68..100] + b[100..124]
    ensures b[0..160] == b[0..124] + b[124..160]
    ensures b[..228] == b[0..160] + b[160..164] + b[164..228]
    ensures b[124..160][34..36] == b[158..160]
  {
    assert b[0..8] == b[0..4] + [b[4]] + b[5..8];
    assert b[0..24] == b[0..8] + b[8..24];
    assert b[0..36] == b[0..24] + b[24..28] + b[28..36];
    assert b[0..124] == b[0..36] + b[36..68] + b[68..100] + b[100..124];
  }

  /** Where an accepted header's fields are, what is fixed, and what the checksum covers. */
  lemma HeaderLayout(b: seq<byte>, header: Header)
    ensures ParseHeader(b) == Ok(header) <==>
      && |b| >= 228 && b[0..8] == [0x44, 0x48, 0x4d, 0x46, 2, 0, 0, 0] && b[158] == b[159] == 0
      && header.sessionId == b[8..24] && header.fileCount == WordAt(b, 24)
      && header.totalSize == WordAt(b, 28) + 0x1_0000_0000 * WordAt(b, 32)
      && header.salt == b[68..100] && header.nonce == b[100..124] && header.params == ParamsAt(b)
      && header.crc == WordAt(b, 160) == Crc32c.Digest(b[0..160]) && header.signature == b[164..228]
  {
    hide U16, U32, U64, Crc32c.Digest, WordAt, ParseParams, ParamsAt;
    if |b| >= 228 {
      U32At(b, 24);
      U64At(b, 28);
      U32At(b, 160);
      FixedBytes(b);
      ParamsLayout(b);
    }
  }

  /** The coding parameters at their offsets in the header. */
  function ParamsAt(b: seq<byte>): SessionParams
    requires |b| >= 228
  {
    SessionParams(payloadSize := WordAt(b, 124) + 0x1_0000_0000 * WordAt(b, 128), blockCount := WordAt(b, 132), symbolSize := WordAt(b, 136),
                  sourceSymbols := WordAt(b, 140), totalSymbols := WordAt(b, 144), z := WordAt(b, 148), n := WordAt(b, 152),
                  psi := ShortAt(b, 156), payloadDigest := b[36..68])
  }

  lemma ParamsLayout(b: seq<byte>)
    requires |b| >= 228
    ensures ParseParams(b[124..160], b[36..68]) == ParamsAt(b)
  {
    hide U16, U32, U64;
    var c := b[124..160];
    U64At(c, 0);
    U32At(c, 8);
    U32At(c, 12);
    U32At(c, 16);
    U32At(c, 20);
    U32At(c, 24);
    U32At(c, 28);
    U16At(c, 32);
    hide WordAt, ShortAt;
    ShiftedNumbers(b, c);
  }

  lemma ShiftedNumbers(b: seq<byte>, c: seq<byte>)
    requires |b| >= 228 && c == b[124..160]
    ensures forall k :: 0 <= k <= 32 ==> WordAt(c, k) == WordAt(b, 124 + k)
    ensures ShortAt(c, 32) == ShortAt(b, 156)
  {}

  lemma FixedBytes(b: seq<byte>)
    requires |b| >= 228
    ensures b[0..8] == [0x44, 0x48, 0x4d, 0x46, 2, 0, 0, 0] <==>
      b[0..4] == MANIFEST_MAGIC && b[4] == MANIFEST_VERSION && b[5..8] == Zeros(3)
    ensures b[158] == b[159] == 0 <==> b[158..160] == Zeros(2)
  {
    var z := Zeros(2);
    assert b[0..8] == b[0..4] + [b[4]] + b[5..8];
    assert [0x44, 0x48, 0x4d, 0x46, 2, 0, 0, 0] == MANIFEST_MAGIC + [2] + Zeros(3);
    assert b[158..160] == [b[158], b[159]];
    assert z == [0, 0];
  }

  /** Where an accepted entry's fields are, counted from the end of its name. */
  lemma EntryLayout(text: Utf8, b: seq<byte>)
    requires ParseEntry(text, b).Ok?
    ensures var (e, n) := ParseEntry(text, b).value;
      var k := |e.name|;
      && k == ShortAt(b, 0) && 43 + k == n <= |b| && e.name == b[2..2 + k]
      && e.size == WordAt(b, 2 + k) + 0x1_0000_0000 * WordAt(b, 6 + k) && e.digest == b[10 + k..42 + k]
      && b[42 + k] == if e.executable then 1 else 0
  {
    hide U16, U64, NameError, WordAt, ShortAt;
    U16At(b, 0);
    U64At(b, 2 + |ParseEntry(text, b).value.0.name|);
  }

  // ----- the manifest

  datatype File = File(header: Header, entries: seq<FileEntry>) {

    function ToVec(): seq<byte> {
      header.ToVec() + EntriesToVec(entries)
    }

    predicate Valid(text: Utf8) {
      && header.Valid()
      && |entries| == header.fileCount <= MAX_FILE_COUNT
      && forall i :: 0 <= i < |entries| ==> entries[i].Valid(text)
    }

    /** What the Ed25519 signature covers: the whole manifest with the signature's own bytes zeroed. */
    function SigningBytes(): seq<byte>
      requires |ToVec()| >= MANIFEST_HEADER_SIZE
    {
      ToVec()[..SIGNATURE_OFFSET] + Zeros(64) + ToVec()[MANIFEST_HEADER_SIZE..]
    }
  }

  function EntryBytes(entry: FileEntry): seq<byte> {
    entry.ToVec()
  }

  function EntriesToVec(entries: seq<FileEntry>): seq<byte> {
    Serialized(entries, EntryBytes)
  }

  /** The next count entries, which must fill the bytes; total is the length of the whole manifest. */
  function ParseEntries(text: Utf8, bytes: seq<byte>, count: nat, total: nat): Result<seq<FileEntry>, Error>
    decreases count
  {
    if count == 0 then (if |bytes| == 0 then Ok([]) else Err(TrailingBytes(|bytes|)))
    else if |bytes| == 0 then Err(Truncated(total + 1, total))
    else match ParseEntry(text, bytes)
      case Err(e) => Err(e)
      case Ok((entry, consumed)) =>
        EntryExact(text, bytes);
        Prefixed([entry], ParseEntries(text, bytes[consumed..], count - 1, total))
  }

  function Parse(text: Utf8, bytes: seq<byte>): Result<File, Error> {
    match ParseHeader(bytes)
    case Err(e) => Err(e)
    case Ok(header) =>
      if header.fileCount > MAX_FILE_COUNT then Err(InvalidFileCount(header.fileCount))
      else match ParseEntries(text, bytes[MANIFEST_HEADER_SIZE..], header.fileCount, |bytes|)
        case Err(e) => Err(e)
        case Ok(entries) => Ok(File(header, entries))
  }

  method ToVec(file: File) returns (buf: seq<byte>)
    ensures buf == file.ToVec()
  {
    buf := file.header.ToVec();
    for i := 0 to |file.entries|
      invariant buf == file.header.ToVec() + EntriesToVec(file.entries[..i])
    {
      SerializedSnoc(file.entries[..i], file.entries[i], EntryBytes);
      assert file.entries[..i + 1] == file.entries[..i] + [file.entries[i]];
      buf := buf + file.entries[i].ToVec();
    }
    assert file.entries[..|file.entries|] == file.entries;
  }

  method FromBytes(text: Utf8, bytes: seq<byte>) returns (result: Result<File, Error>)
    ensures result == Parse(text, bytes)
  {
    hide ParseHeader, ParseEntry, FileEntry.Valid, FileEntry.ToVec, Header.Valid, Header.ToVec;
    var parsed := ParseHeader(bytes);
    if parsed.Err? {
      return Err(parsed.error);
    }
    HeaderExact(bytes);
    var header := parsed.value;
    if header.fileCount > MAX_FILE_COUNT {
      return Err(InvalidFileCount(header.fileCount));
    }
    var entries: seq<FileEntry> := [];
    var offset: nat := MANIFEST_HEADER_SIZE;
    ghost var whole := ParseEntries(text, bytes[MANIFEST_HEADER_SIZE..], header.fileCount, |bytes|);
    PrefixedNone(whole);
    for i := 0 to header.fileCount
      invariant offset <= |bytes|
      invariant whole == Prefixed(entries, ParseEntries(text, bytes[offset..], header.fileCount - i, |bytes|))
    {
      if offset >= |bytes| {
        return Err(Truncated(|bytes| + 1, |bytes|));
      }
      var next := ParseEntry(text, bytes[offset..]);
      if next.Err? {
        return Err(next.error);
      }
      var (entry, consumed) := next.value;
      EntryExact(text, bytes[offset..]);
      assert bytes[offset..][consumed..] == bytes[offset + consumed..];
      PrefixedStep(entries, entry, ParseEntries(text, bytes[offset + consumed..], header.fileCount - i - 1, |bytes|));
      entries := entries + [entry];
      offset := offset + consumed;
    }
    if offset != |bytes| {
      return Err(TrailingBytes(|bytes| - offset));
    }
    assert entries + [] == entries;
    return Ok(File(header, entries));
  }

  // ----- round trips

  lemma {:induction false} EntriesParse(text: Utf8, entries: seq<FileEntry>, total: nat)
    requires forall i :: 0 <= i < |entries| ==> entries[i].Valid(text)
    ensures ParseEntries(text, EntriesToVec(entries), |entries|, total) == Ok(entries)
    decreases |entries|
  {
    hide ParseEntry, FileEntry.Valid;
    if |entries| > 0 {
      SerializedFront(entries, EntryBytes);
      EntryParses(text, entries[0], EntriesToVec(entries[1..]));
      EntriesParse(text, entries[1..], total);
      assert EntriesToVec(entries)[|entries[0].ToVec()|..] == EntriesToVec(entries[1..]);
      assert [entries[0]] + entries[1..] == entries;
    }
  }

  lemma {:induction false} EntriesExact(text: Utf8, bytes: seq<byte>, count: nat, total: nat)
    requires ParseEntries(text, bytes, count, total).Ok?
    ensures var es := ParseEntries(text, bytes, count, total).value;
      EntriesToVec(es) == bytes && |es| == count && forall i :: 0 <= i < |es| ==> es[i].Valid(text)
    decreases count
  {
    hide ParseEntry, FileEntry.Valid, FileEntry.ToVec;
    if count > 0 {
      var (entry, consumed) := ParseEntry(text, bytes).value;
      EntryExact(text, bytes);
      EntriesExact(text, bytes[consumed..], count - 1, total);
      var rest := ParseEntries(text, bytes[consumed..], count - 1, total).value;
      SerializedFront([entry] + rest, EntryBytes);
      assert ([entry] + rest)[1..] == rest;
      assert bytes == bytes[..consumed] + bytes[consumed..];
    }
  }

  /** Whatever parses is well-formed and is written back as the very same bytes. */
  lemma ParsedRewrites(text: Utf8, bytes: seq<byte>)
    requires Parse(text, bytes).Ok?
    ensures Parse(text, bytes).value.Valid(text)
    ensures Parse(text, bytes).value.ToVec() == bytes
  {
    hide ParseHeader, ParseEntries, EntriesToVec, Header.ToVec, Header.Valid, FileEntry.Valid;
    HeaderExact(bytes);
    EntriesExact(text, bytes[MANIFEST_HEADER_SIZE..], ParseHeader(bytes).value.fileCount, |bytes|);
    assert bytes == bytes[..MANIFEST_HEADER_SIZE] + bytes[MANIFEST_HEADER_SIZE..];
  }

  /** A manifest, once written, parses back to itself exactly when it is well-formed. */
  lemma WrittenParses(text: Utf8, file: File)
    ensures Parse(text, file.ToVec()) == Ok(file) <==> file.Valid(text)
  {
    hide ParseHeader, ParseEntries, EntriesToVec, Header.ToVec, Header.Valid, FileEntry.Valid, Parse;
    if file.Valid(text) {
      hide *;
      WellFormedParses(text, file);
    }
    if Parse(text, file.ToVec()) == Ok(file) {
      ParsedRewrites(text, file.ToVec());
    }
  }

  lemma WellFormedParses(text: Utf8, file: File)
    requires file.Valid(text)
    ensures Parse(text, file.ToVec()) == Ok(file)
  {
    hide ParseHeader, ParseEntries, EntriesToVec, Header.ToVec, Header.Valid, FileEntry.Valid;
    HeaderParses(file.header, EntriesToVec(file.entries));
    EntriesParse(text, file.entries, |file.ToVec()|);
    assert file.ToVec()[MANIFEST_HEADER_SIZE..] == EntriesToVec(file.entries);
  }

  lemma SignatureApart(header: Header, entries: seq<FileEntry>)
    requires header.Valid()
    ensures var v := File(header, entries).ToVec();
      && |v| >= MANIFEST_HEADER_SIZE && v[..SIGNATURE_OFFSET] == header.Covered() + LeBytes(header.crc, 4)
      && v[SIGNATURE_OFFSET..MANIFEST_HEADER_SIZE] == header.signature
      && v[MANIFEST_HEADER_SIZE..] == EntriesToVec(entries)
  {
    hide Header.Covered, EntriesToVec;
    HeaderParses(header, []);
  }

  /** Writing is one-to-one on well-formed manifests. */
  lemma WrittenDiffer(text: Utf8, a: File, b: File)
    requires a.Valid(text) && b.Valid(text) && a.ToVec() == b.ToVec()
    ensures a == b
  {
    hide File.Valid, File.ToVec, Parse;
    WrittenParses(text, a);
    WrittenParses(text, b);
  }

  /** The signed bytes fix everything but the signature: names, sizes, digests and session parameters included. */
  lemma SigningBytesDetermine(text: Utf8, a: File, b: File)
    requires a.Valid(text) && b.Valid(text)
    ensures |a.ToVec()| >= MANIFEST_HEADER_SIZE && |b.ToVec()| >= MANIFEST_HEADER_SIZE
    ensures a.SigningBytes() == b.SigningBytes() <==> a == File(b.header.(signature := a.header.signature), b.entries)
  {
    hide EntriesToVec, Header.ToVec, Header.Identity, Header.Coding, File.ToVec, FileEntry.Valid, Crc32c.Digest, LeBytes;
    var c := File(b.header.(signature := a.header.signature), b.entries);
    assert c.header.Covered() == b.header.Covered() by { SameCovered(b.header, a.header.signature); }
    hide Header.Covered;
    SignatureApart(a.header, a.entries);
    SignatureApart(b.header, b.entries);
    SignatureApart(c.header, c.entries);
    var (x, y, w) := (a.ToVec(), b.ToVec(), c.ToVec());
    if a.SigningBytes() == b.SigningBytes() {
      assert a.SigningBytes()[..164] == x[..164] && b.SigningBytes()[..164] == y[..164];
      assert a.SigningBytes()[228..] == x[228..] && b.SigningBytes()[228..] == y[228..];
      assert x == x[..164] + x[164..228] + x[228..];
      assert w == w[..164] + w[164..228] + w[228..];
      WrittenDiffer(text, a, c);
    }
  }

  lemma SameCovered(header: Header, signature: seq<byte>)
    ensures header.(signature := signature).Covered() == header.Covered()
  {}
}
