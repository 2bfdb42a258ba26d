# Dhow: a verified model

Dhow moves files across an air gap as a stream of QR codes. This project models the parts of it whose correctness is
hardest to see and proves what they promise:

- **Reading a symbol** (`cli/internal/qr`): the field of 256 elements and its tables, Berlekamp-Massey, the root search,
  Forney's formula, in-place block correction, the block layout, the column-pair walk under its mask, and the segment
  parser, composed into one theorem from a smeared grid of modules to the payload. It follows sections 7.4 to 7.7 of
  ISO/IEC 18004:2015.
- **Surviving a crash** (`cli/internal/resume`, `cli/internal/cli/cli.go`, `core/dhow-codec/src/pipeline.rs`,
  `core/dhow-codec/src/resume.rs`): an append-only journal and a replaced index, over every run of appends, saves, power
  losses and restarts.
- **CRC32C** (`core/dhow-codec/src/crc32c.rs`): slicing-by-eight against the bit-at-a-time register, and which damage is
  always noticed.
- **BLAKE3's tree** (`scripts/blake3_ref.py`): the merge stack against the recursive tree, with the compression function
  a parameter.
- **The capture reader** (`cli/internal/capture/reader.go`): a producer and a consumer sharing a one-slot channel.
- **Layout and wire forms**: chunking, frame interleaving, the manifest and resume formats, and the projective map, over
  exact reals.

`dafny verify dfyconfig.toml` checks everything.

## How the files fit together

| Files | Contents |
|---|---|
| `Bits`, `BitStrings`, `LittleEndian`, `Concatenation`, `Arithmetic`, `IncreasingLists`, `Wrappers` | bytes, exclusive or, bit strings, integers as bytes, joined byte strings |
| `GaloisField`, `GaloisTables`, `Polynomials`, `CodeTheory` | the field by carry-less multiplication, its tables, polynomials and recurrences, codewords and distance |
| `BerlekampMassey`, `Locator`, `Forney`, `ReedSolomon` | the bounded-distance decoder |
| `BlockLayout`, `Deinterleave`, `SymbolWalk`, `Segments`, `SymbolDecoder` | from modules to payload |
| `Crc32c`, `Blake3Tree` | checksums |
| `ResumeFormat`, `Bitmaps`, `Frames`, `PipelineDecoder`, `BlockDecoding`, `JournalDigest` | frames, the receiving decoder, what its state says about the frames taken, and its resume file |
| `JournalStore`, `CrashSafety`, `Receiver`, `Reception` | the state directory, the crash model, the receiver's procedures as steps of that model, and a whole receiving process as one of its runs |
| `CaptureReader`, `FrameInterleave`, `Chunker`, `Manifest`, `Projective` | one component each |

Code that changes state keeps that form: `ReedSolomon.Correct` works in place on an array, the bit reader, hasher,
decoder, store, frame sink and capture reader are classes, and their methods are proved against functions of the old
state. Exclusive or on bytes is defined by recursion on bits and shown equal to the machine's operator
(`Bits.XorIsMachineXor`); field multiplication is carry-less multiplication modulo x^8 + x^4 + x^3 + x^2 + 1, which the
logarithm tables are then proved to compute.

## What the code turned out not to promise

- `PipelineDecoder::journal_digest` says any other stream of frames yields a different digest. The frame parser ignores
  bytes after the declared payload, and the digest absorbs frames without their lengths, so:
  - for every stream with at least two accepted frames the promise fails: gluing any two neighbours into one gives a
    different stream, accepted whole, with the same digest (`JournalDigest.GluedFrames`). A concrete pair also leaves
    different decoders (`JournalDigest.DigestRepeats`).
  - the check that would make it hold is that a frame ends where its header says, `|frame| == 46 + payload_length`. Among
    streams of such frames, barring a collision, digests are equal exactly when the accepted frames are
    (`JournalDigest.DigestTellsApart`).
  - without that check, a stream shares its digest input with no other exactly when it has no accepted frame, or a single
    one that cannot be cut into two acceptable frames (`JournalDigest.OnlyStream`).

  Replay is not affected, because the journal frames each record with its length.
- `ChunkMap::total_symbols` adds 32-bit counts. The sum fits exactly when the payload is not a full 4 GiB cut into
  one-byte symbols (`Chunker.SymbolTotalFits`); two blocks of 2 GiB are accepted and overflow it
  (`Chunker.SymbolTotalOverflows`). The codec's own floor of 64 bytes per symbol avoids it.
- `readCodewords` says a short read must not be silently padded, and then pads it with zeros. The model follows the code:
  codewords the symbol has no room for are zero (`SymbolWalk.CodewordAt`).
- Writing and re-reading a manifest or resume file gives the value back exactly when it is well-formed
  (`Manifest.WrittenParses`, `ResumeFormat.WrittenParses`). `FileEntry::to_vec` writes a name's length in 16 bits, so a
  name of 65536 bytes is written as an empty one and refused (`Manifest.LongNameLost`); a block entry can be built and
  written with a count its bitmap does not have, and is then refused (`ResumeFormat.MiscountRefused`).
- A quadrilateral with three collinear corners has no invertible map (`Projective.InvertibleIsGeneral`), and a target
  corner whose weight vanishes has no image (`Projective.CornerLands`).

## Model

| member | source | states |
|---|---|---|
| `GaloisTables.InitTables` | cli/internal/qr/rs.go:36-58 | The initialiser's two tables are the powers of the generator, repeated once, and their inverse on nonzero bytes. |
| `GaloisTables.Field.GfMul` | cli/internal/qr/rs.go:60-66 | Two lookups and an addition give the field product, defined independently by carry-less multiplication. |
| `GaloisTables.Field.GfDiv` | cli/internal/qr/rs.go:68-75 | The quotient times the divisor is the dividend. |
| `GaloisTables.Field.GfPow` | cli/internal/qr/rs.go:77-84 | The power of the generator for any integer exponent, negative ones included. |
| `GaloisField.OrderIs255` | cli/internal/qr/rs.go:33-34 | No positive exponent below 255 takes the generator to one, so the tables cover every nonzero byte. |
| `ReedSolomon.PolyEval` | cli/internal/qr/rs.go:91-98 | Horner's loop computes the value of the polynomial. |
| `ReedSolomon.PolyMul` | cli/internal/qr/rs.go:100-115 | Every coefficient of the result is the convolution of the inputs' coefficients. |
| `ReedSolomon.ComputeSyndromes` | cli/internal/qr/rs.go:117-133 | The j-th result is the received word evaluated at the generator's j-th power. |
| `BerlekampMassey.PolyAddShifted` | cli/internal/qr/rs.go:173-182 | The sum a + scale x^shift b, coefficient by coefficient. |
| `BerlekampMassey.Discrepancy` | cli/internal/qr/rs.go:148-153 | The discrepancy is what the current recurrence gets wrong at the next syndrome; no index leaves the syndromes. |
| `BerlekampMassey.Run` | cli/internal/qr/rs.go:135-171 | The locator has constant term one, its recurrence generates all syndromes, and no shorter recurrence does. |
| `BerlekampMassey.MasseyBound` | cli/internal/qr/rs.go:158-164 | A recurrence that fails where another succeeds has complementary length at least: the reason the length grows to n + 1 - length. |
| `ReedSolomon.FindErrorPositions` | cli/internal/qr/rs.go:184-209 | The positions are exactly the roots inside the codeword, in increasing order; success exactly when there are as many as the degree. |
| `ReedSolomon.FormalDerivative` | cli/internal/qr/rs.go:278-291 | The loop computes the derivative used in Forney's formula. |
| `Forney.DerivativeEval` | cli/internal/qr/rs.go:278-291 | At a root the formal derivative equals the polynomial divided by its linear factor. |
| `Forney.EvaluatorAtRoot` | cli/internal/qr/rs.go:246-252 | At each error's root, syndromes times locator cut to eccLen terms is that error's value times the other factors. |
| `CodeTheory.Vandermonde` | cli/internal/qr/rs.go:117-121 | A nonzero word with n consecutive zero syndromes has more than n nonzero bytes. |
| `CodeTheory.UniqueDecoding` | cli/internal/qr/rs.go:211-214 | At most one codeword lies within half the redundancy of a received word. |
| `ReedSolomon.LocatorIsExact` | cli/internal/qr/rs.go:232-244 | When the block is within reach of a codeword, the locator's roots in the block are exactly the damaged positions. |
| `ReedSolomon.Repair` | cli/internal/qr/rs.go:254-275 | The correction loop and the re-check: an exact locator restores the codeword, and nothing that fails the re-check is passed. |
| `ReedSolomon.Correct` | cli/internal/qr/rs.go:211-276 | In place: succeeds exactly when eccLen and length are in range and some codeword is within eccLen/2 bytes, and then leaves that codeword. |
| `BlockLayout.InterleavedLength` | cli/internal/qr/tables.go:226-237 | The interleaved columns, holes left out, are exactly the layout's total number of codewords. |
| `BlockLayout.InterleavedAt` | cli/internal/qr/decode.go:363-384 | Byte p of block j is where the standard's interleaving, written out as columns, puts it, hole included. |
| `BlockLayout.GatherInterleaved` | cli/internal/qr/decode.go:372-403 | Collecting a block out of the interleaved sequence gives the block back. |
| `BlockLayout.RunDamage` | cli/internal/qr/decode.go:297-303 | A run of w consecutive codewords touches each block at most ceil(w / numBlocks) + 1 times. |
| `Deinterleave.FillBlocks` | cli/internal/qr/decode.go:363-384 | The row-by-row fill puts every codeword in its block's cell. |
| `Deinterleave.TakeBlock` | cli/internal/qr/decode.go:387-398 | A block with its hole closed is the gathered block. |
| `Deinterleave.DeinterleaveAndCorrect` | cli/internal/qr/decode.go:356-405 | Succeeds exactly when every block is within reach of a codeword; the result is the blocks' repaired data, joined. |
| `Deinterleave.ScatteredDamageRepaired` | cli/internal/qr/decode.go:356-405 | Any damage of at most eccLen/2 codewords in each block is repaired to the sent data. |
| `Deinterleave.SmearRepaired` | cli/internal/qr/decode.go:300-303 | Any smear of up to numBlocks * (eccLen/2 - 1) consecutive codewords is repaired. |
| `Deinterleave.RecoveredLength` | cli/internal/qr/tables.go:211-212 | For every correctable reception the repaired data has the announced number of data codewords. |
| `SymbolWalk.WalkIsExact` | cli/internal/qr/decode.go:312-343 | For every version the walk visits each module outside column six exactly once. |
| `SymbolWalk.WalkAt` | cli/internal/qr/decode.go:312-324 | In closed form: the module at every place of the walk, its column pair, its row and the direction of that pair. |
| `SymbolWalk.WalkRows` | cli/internal/qr/decode.go:317-324 | The walk starts in the bottom right corner, and each row's right-hand module is followed by its left neighbour. |
| `SymbolWalk.WalkTurns` | cli/internal/qr/decode.go:317-324 | Inside a column pair the next module lies in the adjacent row of the same columns. |
| `SymbolWalk.WalkCrosses` | cli/internal/qr/decode.go:312-316 | At the top or bottom edge the walk goes to the next pair leftwards in the same row, stepping over column six. |
| `SymbolWalk.MasksMean` | cli/internal/qr/decode.go:273-295 | Which modules each of the eight masks inverts, told by the parities and thirds of the coordinates. |
| `SymbolWalk.DataModulesMembers` | cli/internal/qr/decode.go:325-327 | The data modules are exactly the modules of the walk that are not function modules, each once. |
| `SymbolWalk.DataModuleAt` | cli/internal/qr/decode.go:325-327 | They keep the order of the walk. |
| `SymbolWalk.CodewordAt` | cli/internal/qr/decode.go:328-350 | Codeword i is made of data modules 8i to 8i+7 with the mask undone, highest bit first; what the symbol has no room for is zero. |
| `SymbolWalk.ReadCodewords` | cli/internal/qr/decode.go:297-352 | The loops read the unmasked data modules of the walk into bytes, cut or zero-padded to the total. |
| `SymbolWalk.ReadsBack` | cli/internal/qr/decode.go:297-352 | Codewords written along the walk under any mask are read back unchanged when the data modules suffice. |
| `Segments.BitReader.Read` | cli/internal/qr/decode.go:418-430 | Fails exactly on a bad width or too few bits, then moves nothing; otherwise returns the next n bits' value and moves past them. |
| `Segments.ParseSegments` | cli/internal/qr/decode.go:462-504 | The loop returns the joined payloads of the bit string, or its error; it ends because every turn consumes bits. |
| `Segments.EncodingParses` | cli/internal/qr/decode.go:462-504 | Every byte-mode encoding, followed by a terminator and any padding or by fewer than four bits, parses to its payloads. |
| `Segments.ParsesOnlyEncodings` | cli/internal/qr/decode.go:462-504 | Whatever parses is such an encoding of the payloads returned. |
| `Segments.ErrorsExactly` | cli/internal/qr/decode.go:466-492 | An error is reported exactly when, after some whole segments, there is one of another mode, or one whose count or payload is cut short. |
| `Segments.OneSegmentParses` | cli/internal/qr/tables.go:240-247 | The symbol data of one payload, built from bytes by arithmetic, parses to it: mode 4, a one-byte length up to version 9 and a two-byte length from 10, highest bit first. |
| `SymbolDecoder.Decode` | cli/internal/qr/decode.go:85-96 | The chain of the three stages, with the error of the stage that fails. |
| `SymbolDecoder.SmearedSymbolDecodes` | cli/internal/qr/decode.go:65-97 | A symbol drawn from payloads, then smeared over at most numBlocks * (eccLen/2 - 1) codewords' modules, decodes to those payloads. |
| `Crc32c.MakeTable` | core/dhow-codec/src/crc32c.rs:46-64 | Entry b is what shifting byte b through the register leaves. |
| `Crc32c.MakeSlicingTables` | core/dhow-codec/src/crc32c.rs:66-85 | Entry b of table k is what byte b leaves after k further zero bytes. |
| `Crc32c.EightLookups` | core/dhow-codec/src/crc32c.rs:97-115 | Eight lookups equal shifting in eight bytes bit by bit. |
| `Crc32c.Fold` | core/dhow-codec/src/crc32c.rs:90-122 | For every register and every length, folding equals shifting in all bits under the reflected polynomial. |
| `Crc32c.ComputeDigest` | core/dhow-codec/src/crc32c.rs:124-130 | The one-shot digest, inversions included. |
| `Crc32c.Hasher.Update` | core/dhow-codec/src/crc32c.rs:148-150 | The hasher's state stays the digest of everything absorbed so far, however it was split. |
| `Crc32c.Hasher.Finalize` | core/dhow-codec/src/crc32c.rs:152-155 | The streaming result is the one-shot digest of the concatenation. |
| `Crc32c.BurstDetected` | core/dhow-codec/src/frame.rs:333-340 | Two payloads of equal length that differ only within 32 consecutive bits have different digests, at any position and length. |
| `Crc32c.FourBytesDetected` | core/dhow-codec/src/frame.rs:333-340 | In particular, differing only within four consecutive bytes. |
| `Crc32c.OddDamageDetected` | core/dhow-codec/src/crc32c.rs:44 | The polynomial has an odd number of terms: two payloads of equal length that differ in an odd number of bits have different digests. |
| `Crc32c.DigestOfZero` | core/dhow-codec/src/crc32c.rs:179 | The known answer for one zero byte. |
| `Crc32c.DigestOfLetter` | core/dhow-codec/src/crc32c.rs:178 | The known answer for the letter a. |
| `Frames.ParsesExactly` | core/dhow-codec/src/frame.rs:294-343 | A frame is returned for exactly the byte strings that begin with that frame as a sender writes it, its MAC and checksum included. |
| `Frames.FourDamagedBytesRefused` | core/dhow-codec/src/frame.rs:333-340 | A frame damaged inside four consecutive payload bytes, anywhere, is refused as a checksum mismatch. |
| `Frames.OddDamageRefused` | core/dhow-codec/src/frame.rs:333-340 | So is one with an odd number of payload bits flipped. |
| `Blake3Tree.ChunkChainingValue` | scripts/blake3_ref.py:109-122 | The block loop computes the chunk's chained output with START and END on the first and last block. |
| `Blake3Tree.PushChunk` | scripts/blake3_ref.py:158-164 | After m chunks the stack holds one subtree for each set bit of m; pushing one more and merging while even keeps that. |
| `Blake3Tree.StackSize` | scripts/blake3_ref.py:161-163 | The stack has as many entries as the count has set bits, so no pop finds it empty. |
| `Blake3Tree.MergeDown` | scripts/blake3_ref.py:166-169 | Merging right to left gives the root of the left-heavy tree, ROOT on the last merge. |
| `Blake3Tree.SubtreeIgnoresRoot` | scripts/blake3_ref.py:153-156 | Nothing below the root depends on what the compression function does under ROOT. |
| `Blake3Tree.Blake3` | scripts/blake3_ref.py:129-170 | The incremental hash equals the recursive tree hash for every input and output length, or refuses lengths over 32. |
| `Blake3Tree.OneBlockHash` | scripts/blake3_ref.py:136-151 | The hash of at most 64 bytes, written out: one compression, its chaining value, counter, length and flags. |
| `Blake3Tree.TwoBlockChunk` | scripts/blake3_ref.py:109-122 | A chunk of two blocks, written out: START on the first, END on the second. |
| `Blake3Tree.TwoChunkHash` | scripts/blake3_ref.py:158-170 | Input of two chunks, written out: the first chunk's value on the left, under PARENT and ROOT. |
| `Blake3Tree.LeftmostDecides` | scripts/blake3_ref.py:125-126 | If parents ignore their right child, the hash depends on the first chunk and the number of chunks only. |
| `Blake3Tree.BlockWords` | scripts/blake3_ref.py:104-106 | A block's words are little-endian, zero past its end. |
| `Blake3Tree.OutputAt` | scripts/blake3_ref.py:151 | The output's words are written little-endian. |
| `CaptureReader.Reader.Consume` | cli/internal/capture/reader.go:196-240 | Which bucket each reading raises, and no other, unless the handler fails, which changes nothing; a position is remembered exactly when it is accepted and counted. |
| `CaptureReader.Reader.RunDirect` | cli/internal/capture/reader.go:83-104 | Without a handler error every image is in exactly one bucket; with one, exactly that image is missing. |
| `CaptureReader.ConsumedInOrder` | cli/internal/capture/reader.go:126-180 | In every interleaving the images received are in the order produced. |
| `CaptureReader.NewestNeverDropped` | cli/internal/capture/reader.go:150-162 | In every interleaving the newest image is never dropped; the one last handed over is waiting or received, except while the producer is about to replace it. |
| `CaptureReader.BufferedAccounts` | cli/internal/capture/reader.go:46-50 | In every finished run the accounting balances, short by exactly one image when the handler failed. |
| `CaptureReader.FramesAreHeld` | cli/internal/capture/reader.go:220-238 | At every moment Frames is the number of positions held. |
| `ResumeFormat.ToVec` | core/dhow-codec/src/resume.rs:393-405 | The writing loop produces the header and the entries in order. |
| `ResumeFormat.FromBytes` | core/dhow-codec/src/resume.rs:407-431 | The parsing loop computes the parse function, with the same first error. |
| `ResumeFormat.EntryExact` | core/dhow-codec/src/resume.rs:141-203 | An accepted entry is consistent, bitmap against count, and is re-serialized to the bytes it was read from. |
| `ResumeFormat.HeaderLayout` | core/dhow-codec/src/resume.rs:282-337 | A header is accepted exactly when its fields, read at the documented offsets, are those returned, the fixed bytes are right, and both checks hold over the bytes they cover. |
| `ResumeFormat.EntryLayout` | core/dhow-codec/src/resume.rs:141-203 | Where an accepted entry's fields lie and how long it is. |
| `ResumeFormat.ParsedRewrites` | core/dhow-codec/src/resume.rs:282-337 | Whatever parses is well-formed and is written back as the very same bytes. |
| `ResumeFormat.WrittenParses` | core/dhow-codec/src/resume.rs:393-431 | A resume file parses back to itself exactly when it is well-formed. |
| `ResumeFormat.MiscountRefused` | core/dhow-codec/src/resume.rs:126-203 | An entry written with a count its bitmap does not have is refused with both counts. |
| `Bitmaps.SetSymbolCounts` | core/dhow-codec/src/pipeline.rs:383-391 | Setting a clear bit adds one to the count, marks that symbol and no other, and stays within the symbol count. |
| `PipelineDecoder.Decoder.MarkHeldSymbol` | core/dhow-codec/src/pipeline.rs:372-392 | Sets the bit and the count together, reports novelty, ignores indices past the end. |
| `PipelineDecoder.Decoder.AcceptFrame` | core/dhow-codec/src/pipeline.rs:394-466 | One frame's effect on the whole decoder and its outcome. |
| `PipelineDecoder.AcceptValid` | core/dhow-codec/src/pipeline.rs:396-399 | Bitmaps and counts stay in step; a frame is rejected regardless of progress, and then changes nothing. |
| `BlockDecoding.AcceptableExactly` | core/dhow-codec/src/pipeline.rs:400-438 | A frame is taken exactly when it begins with a repair frame of this session as a sender writes it, for an existing block, with more than the four bytes of a symbol identifier. |
| `BlockDecoding.DamagedFrameRejected` | core/dhow-codec/src/pipeline.rs:394-401 | Damage inside four consecutive payload bytes keeps a frame from being taken and leaves the decoder as it was. |
| `BlockDecoding.BlocksMean` | core/dhow-codec/src/pipeline.rs:451-465 | After any stream each block is what the packets of its accepted frames, in order, make of it. |
| `BlockDecoding.DoneExactly` | core/dhow-codec/src/pipeline.rs:451-465 | A block is done with some bytes exactly when it is empty, or its shortest decoding prefix of packets decodes to them. |
| `BlockDecoding.PendingExactly` | core/dhow-codec/src/pipeline.rs:451-465 | A block waits exactly while no prefix decodes, holding all its packets. |
| `BlockDecoding.ReportedExactly` | core/dhow-codec/src/pipeline.rs:451-465 | Completion is reported by the packet that makes the block decode and by no other; later ones are redundant. |
| `BlockDecoding.HeldExactly` | core/dhow-codec/src/pipeline.rs:372-392 | A symbol is recorded as held exactly when a frame that was taken carried it. |
| `PipelineDecoder.ReplayReproduces` | core/dhow-codec/src/pipeline.rs:322-328 | Replaying only the accepted frames, in order, into a fresh decoder reproduces its state. |
| `PipelineDecoder.ResumeStateAccepted` | core/dhow-codec/src/pipeline.rs:535-558 | Every reachable decoder's resume state is well-formed, parses back, and is accepted by that decoder. |
| `PipelineDecoder.MatchIsExact` | core/dhow-codec/src/pipeline.rs:560-613 | A resume file is accepted exactly when session, digest, and every bitmap and count agree. |
| `PipelineDecoder.Decoder.Finish` | core/dhow-codec/src/pipeline.rs:507-533 | Returns the payload exactly when every block is decoded, long enough, and the digest matches; otherwise the error names the first block that is missing, else the first that is short, else the digest. |
| `BlockDecoding.PayloadAt` | core/dhow-codec/src/chunker.rs:287-314 | In the payload returned each block's declared bytes lie at the sum of the sizes before it, and nothing else is there. |
| `BlockDecoding.StreamDelivers` | core/dhow-codec/src/pipeline.rs:507-533 | Once the packets taken let every block decode to the sender's bytes, the reassembled payload is the sender's. |
| `JournalDigest.DigestRepeats` | core/dhow-codec/src/pipeline.rs:486-492 | A concrete witness: two streams of accepted frames with equal digests and different bitmaps. |
| `JournalDigest.DigestTellsApart` | core/dhow-codec/src/pipeline.rs:486-492 | Among streams whose accepted frames end where their headers say, and barring a collision, digests are equal exactly when the accepted frames are. |
| `JournalDigest.WholeFramesApart` | core/dhow-codec/src/frame.rs:322-331 | Frames that end where they say are determined by their joined bytes. |
| `JournalDigest.GluedFrames` | core/dhow-codec/src/pipeline.rs:486-492 | Every stream with two accepted frames shares its digest input with a different stream, accepted whole: glue any two neighbours. |
| `JournalDigest.OnlyStream` | core/dhow-codec/src/pipeline.rs:486-492 | A stream shares its digest input with no other exactly when it has no accepted frame, or one that cannot be cut into two acceptable frames. |
| `JournalDigest.WholeUncut` | core/dhow-codec/src/frame.rs:322-331 | A single frame that ends where it says cannot be cut. |
| `Frames.TailIgnored` | core/dhow-codec/src/frame.rs:322-342 | Bytes after the declared payload do not change what is parsed. |
| `JournalStore.RecordsSplit` | cli/internal/resume/resume.go:147-177 | Splitting the records of a list of legal frames gives the frames back. |
| `JournalStore.SplitExact` | cli/internal/resume/resume.go:147-177 | Only the records of legal frames split, and they are the bytes that were split. |
| `JournalStore.Store.Replay` | cli/internal/resume/resume.go:119-180 | Succeeds exactly when the covered bytes are whole records of acceptable frames, and then the decoder has taken them in order. |
| `JournalStore.Store.Begin` | cli/internal/resume/resume.go:182-205 | The journal is cut or extended to the covered length, and appending continues there. |
| `JournalStore.Store.Append` | cli/internal/resume/resume.go:207-230 | The record, or as much of it as was written, is added; success only for a whole one. |
| `JournalStore.Store.Save` | cli/internal/resume/resume.go:236-280 | The journal is synced before the index is replaced; any failure leaves the index as it was. |
| `Receiver.FrameSink.SaveProgress` | cli/internal/cli/cli.go:1284-1296 | A save is the two steps of the crash model, or stops the run. |
| `Receiver.FrameSink.Apply` | cli/internal/cli/cli.go:833-882 | One frame is a sequence of crash-model steps: refused without trace, or journalled and then, every saveEvery frames, saved; it fails exactly when the record, or the index if due, is not written whole, and ends the run exactly at the limit. |
| `Receiver.RestoreProgress` | cli/internal/cli/cli.go:1215-1282 | Restoring is the crash model's restart step: the same verdict, decoder, journal and frames. |
| `Reception.ReceiveFromFrames` | cli/internal/cli/cli.go:1075-1124 | The input loop is a sequence of crash-model steps; it fails exactly on no input, or when a file cannot be read or an acceptable frame is not recorded before anything stops it, and stops exactly on an interrupt or the limit. Refused frames are counted and passed over; on an ordinary end the journal holds the accepted frames, in order. |
| `Reception.Receive` | cli/internal/cli/cli.go:940-981 | One process is a sequence of crash-model steps from its restart to its exit; it ends saved exactly when the restore succeeds, the input does not fail and the last save completes. |
| `Reception.NextProcessContinues` | cli/internal/cli/cli.go:940-981 | After a process that ends with a completed save, the next one restores every frame saved before and every frame this one accepted. |
| `Reception.SaveAfterShortAppend` | cli/internal/cli/cli.go:859-871 | Saving after an append that stopped short would leave an index every restart refuses: why no save follows a failed append. |
| `CrashSafety.DescribedRestores` | cli/internal/cli/cli.go:1245-1274 | An index that describes a durable prefix restores the decoder that was saved. |
| `CrashSafety.RestoresExactly` | cli/internal/cli/cli.go:1234-1280 | Restoring yields a given decoder, covered length and frames exactly when there is no index and they are a fresh start, or the index is the one a decoder of these frames writes and the journal starts with their records. |
| `CrashSafety.RefusedExactly` | cli/internal/cli/cli.go:1242-1274 | A restart is refused exactly when there is an index and no frames for which that holds; an index that does not parse is always refused. |
| `CrashSafety.NextInv` | cli/internal/cli/cli.go:856-871 | Every step, power losses included, keeps every version of the index describing durable whole records. |
| `CrashSafety.RestartRecovers` | cli/internal/resume/resume.go:236-245 | At every moment of every run a restart succeeds, covers whole durable records, and restores the decoder that was saved. |
| `CrashSafety.CrashRecovers` | cli/internal/resume/resume.go:236-245 | The same after a power loss, whatever unsynced bytes and whichever recent index survive. |
| `CrashSafety.SaveCaptures` | cli/internal/cli/cli.go:1284-1296 | A completed save records exactly the running decoder. |
| `FrameInterleave.Interleave` | core/dhow-codec/src/pipeline.rs:83-106 | The rounds over draining cursors produce the interleaved stream. |
| `FrameInterleave.EveryFrameOnce` | core/dhow-codec/src/pipeline.rs:83-106 | Every frame of every block is sent exactly once, and nothing else. |
| `FrameInterleave.BlockRecovered` | core/dhow-codec/src/pipeline.rs:83-106 | The stream's frames of one block are that block's list, in its order. |
| `FrameInterleave.WindowIsFair` | core/dhow-codec/src/pipeline.rs:193-200 | In any stretch sent while two blocks both have frames, their counts differ by at most one. |
| `FrameInterleave.OutageIsSpread` | core/dhow-codec/src/pipeline.rs:193-200 | An outage of w frames, while all blocks have frames, takes at most ceil(w / blocks) from each. |
| `Chunker.NewParams` | core/dhow-codec/src/chunker.rs:67-87 | Accepts exactly the documented ranges. |
| `Chunker.ComputeBlocks` | core/dhow-codec/src/chunker.rs:127-170 | Blocks tile the payload, sizes never grow and differ by at most one, counts cover; refused for one combination only. |
| `Chunker.LayoutUnique` | core/dhow-codec/src/pipeline.rs:129-137 | That description leaves no choice, so sender and receiver derive the same map. |
| `Chunker.SymbolTotalFits` | core/dhow-codec/src/chunker.rs:185-188 | The exact condition under which the symbol total fits 32 bits. |
| `Chunker.SymbolTotalOverflows` | core/dhow-codec/src/chunker.rs:185-188 | An accepted layout whose symbol total is exactly 2^32. |
| `Chunker.SymbolSizes` | core/dhow-codec/src/chunker.rs:203-234 | A symbol's size is exactly how much of the block lies in it, and it is padded exactly when short. |
| `Chunker.ChunkMap.ExtractSymbol` | core/dhow-codec/src/chunker.rs:259-285 | The bytes of the symbol, then zeros, whenever the indices exist and the bytes reach; the source's error otherwise. |
| `Chunker.SymbolsRebuildBlock` | core/dhow-codec/src/chunker.rs:259-285 | A block's padded symbols, joined and cut to size, are the block, and everything cut off is zero. |
| `Chunker.ChunkMap.Reassemble` | core/dhow-codec/src/chunker.rs:287-314 | Each block's declared bytes end up at its offset; blocks cut from a payload, with any spare tails, give that payload back; the first short block is the error. |
| `Chunker.BlocksDetermine` | core/dhow-codec/src/chunker.rs:287-314 | The blocks leave no gap: two payloads with equal blocks are equal. |
| `Manifest.ValidateName` | core/dhow-codec/src/manifest.rs:137-170 | The component loop decides what the name check says. |
| `Manifest.NameStaysInside` | core/dhow-codec/src/manifest.rs:62-67 | An accepted name never climbs out of its directory, not even midway. |
| `Manifest.DotsArePart` | core/dhow-codec/src/manifest.rs:164-170 | A component is `..` exactly where two dots stand between slashes or the ends of the name. |
| `Manifest.AcceptedExactly` | core/dhow-codec/src/manifest.rs:137-170 | The set of accepted names, told by characters and positions. |
| `Manifest.FromBytes` | core/dhow-codec/src/manifest.rs:579-631 | The parsing loop computes the parse function, with the same first error. |
| `Manifest.ToVec` | core/dhow-codec/src/manifest.rs:566-572 | The writing loop produces the header and the entries in order. |
| `Manifest.EntryExact` | core/dhow-codec/src/manifest.rs:250-299 | An accepted entry is valid and is re-serialized to the bytes it was read from. |
| `Manifest.HeaderLayout` | core/dhow-codec/src/manifest.rs:7-31 | A header is accepted exactly when its fields, read at the documented offsets, are those returned, the fixed bytes are right, and the checksum covers bytes 0 to 160. |
| `Manifest.EntryLayout` | core/dhow-codec/src/manifest.rs:33-41 | Where an accepted entry's fields lie, counted from the end of its name. |
| `Manifest.ParsedRewrites` | core/dhow-codec/src/manifest.rs:610-621 | Whatever parses is well-formed and is written back as the very same bytes. |
| `Manifest.WrittenParses` | core/dhow-codec/src/manifest.rs:566-631 | A manifest parses back to itself exactly when it is well-formed. |
| `Manifest.LongNameLost` | core/dhow-codec/src/manifest.rs:237-246 | A name of 65536 bytes is written with length zero and what was written is refused. |
| `Manifest.SigningBytesDetermine` | core/dhow-codec/src/manifest.rs:640-655 | Two well-formed manifests have the same signing bytes exactly when they agree in everything but the signature. |
| `Projective.SquareCorners` | cli/internal/optical/transform.go:39-66 | The unit square's corners go to the four given points, up to a weight. |
| `Projective.AdjointInverts` | cli/internal/optical/transform.go:68-83 | The adjoint undoes the transform up to the determinant. |
| `Projective.InvertibleIsGeneral` | cli/internal/optical/transform.go:39-66 | The map exists and is invertible exactly when no three corners are collinear. |
| `Projective.CornerLands` | cli/internal/optical/transform.go:100-112 | From a source in general position a corner lands on its partner, or nowhere if the partner has no weight. |
| `Projective.CornersMatch` | cli/internal/optical/transform.go:100-112 | For two quadrilaterals without collinear corners the map exists and takes every corner to its partner. |

## Left out

- RaptorQ, the keyed frame MAC, BLAKE3 where it is used as a digest, BLAKE3's compression rounds, and Ed25519 are parameters; RaptorQ is a deterministic function of the packets fed to a block.
- XChaCha20-Poly1305, key derivation, session files, archive packing and the QR capacity search are not modelled.
- The foreign-function layer (`core/dhow-ffi`, `cli/internal/ffi`), its handles and panic guards are not modelled; the receiver calls the decoder directly.
- Image acquisition, binarization, finder search, module sampling and rendering are heuristics over floating point with no exact claim.
- The 40-version tables, `functionModules`, `rawDataModules` and the 32 format codewords are parameters: a layout's two table entries, a map of function modules, and the mask.
- `BlockLayout.Derive` is used for layouts with 0 < eccLen < shortBlockLen < 255; a version outside 1 to 40 or an unknown level is not represented.
- The guard `k >= len(codewords)` in the fill loop is not modelled: `Deinterleave.FillBlocks` shows the index never gets that far.
- `ReedSolomon.Repair`, `ReedSolomon.Evaluator`, `ReedSolomon.Magnitude` and `ReedSolomon.AllZero` are loops and steps written inline in `correct`; `Deinterleave.FillBlocks`, `Deinterleave.TakeBlock`, `SymbolWalk.ReadModule` and `SymbolWalk.ReadPair` likewise in their callers.
- A failed `correct` may have changed the block before its final check; `ReedSolomon.Correct` says nothing about the array in that case, and no caller reads it.
- `SymbolDecoder.Decode` starts after the format information has been read, and its error carries no block number or text.
- Real files: a state directory is a journal with a synced length, an index, and the index versions a power loss may bring back. A journal file that was ever synced is taken to exist after a crash.
- `Store.Discard` and `Store.Close` are not modelled; `Discard` removes the journal before the index and runs only once the transfer is complete.
- Failures of opening, truncating and seeking the journal are not separate outcomes; in the crash model any operation may fail and end the run.
- `CrashSafety.NextInv`: the journal is taken to stay below 2^64 bytes, as the resume header's field does.
- `Reception.Receive`: the same bound is asked of the journal found and the frames that may arrive together.
- A frame over 1 MiB, which the journal refuses after the decoder has taken it, ends the run in the model as it does in the source.
- `Receiver.FrameSink.Apply` models a receiver with a state directory; without one there is nothing to recover. That it is not called again after a failure is a precondition, which `Reception.Receive` meets.
- `Reception.ReceiveFromFrames` models the frames directory; a capture hands frames to the same sink and may also end without any.
- `Receiver.RestoreProgress`: messages and exit codes are not represented.
- The capture model's image, detection and pre-filter are one reading per image; cancellation and source errors both end production.
- `Projective` computes over exact reals, not floating point.
- `Manifest` takes the decoding of UTF-8 as a parameter; names are the bytes of the string.
- Display, flags, logging and error text are not modelled; errors keep the data that tells them apart.
