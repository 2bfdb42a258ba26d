/**
 * The decoding chain of Decode in cli/internal/qr/decode.go: modules to codewords to data to payload. The format word,
 * the map of function modules and the two layout tables are parameters.
 */
module SymbolDecoder {
  import opened Bits
  import opened Concatenation
  import opened BitStrings
  import opened GaloisTables
  import opened CodeTheory
  import opened BlockLayout
  import opened Deinterleave
  import opened SymbolWalk
  import opened Segments

  datatype Outcome = Payload(data: seq<byte>) | Uncorrectable | BadSegments(error: Segments.Error)

  /** What a grid says: the payloads of its repaired data, joined. */
  ghost function Decoded(g: Grid, fn: Grid, version: nat, mask: int, lay: Layout): Outcome
    requires g.Valid() && fn.Valid() && lay.Valid()
  {
    var codewords := CodewordsOf(g, fn, mask, lay.totalCodewords);
    if !AllCorrectable(lay, codewords) then Uncorrectable
    else match Payloads(Unpack(RepairedData(lay, codewords, lay.numBlocks)), CharCountBits(version))
      case Ok(payloads) => Payload(Concat(payloads))
      case Err(error) => BadSegments(error)
  }

  method Decode(f: Field, g: Grid, fn: Grid, version: nat, mask: int, lay: Layout) returns (outcome: Outcome)
    requires f.Valid() && g.Valid() && fn.Valid() && lay.Valid()
    ensures outcome == Decoded(g, fn, version, mask, lay)
  {
    hide CodewordsOf, Payloads, Unpack, Concat;
    var codewords := ReadCodewords(g, fn, mask, lay.totalCodewords);
    var data := DeinterleaveAndCorrect(f, codewords, lay);
    if data.None? {
      return Uncorrectable;
    }
    var payload := ParseSegments(data.value, version);
    match payload
    case Ok(bytes) =>
      outcome := Payload(bytes);
    case Err(error) =>
      outcome := BadSegments(error);
  }

  /** The modules that carry codeword bits, in the order they are filled. */
  function DataPath(fn: Grid): seq<Module>
    requires fn.Valid()
  {
    DataModules(fn, Walk(fn.size, fn.size - 1))
  }

  /** The grid a sender draws for a sequence of codewords. */
  function Drawn(blank: Grid, fn: Grid, mask: int, codewords: seq<byte>): (g: Grid)
    requires blank.Valid() && fn.Valid() && 8 * |codewords| <= |DataPath(fn)|
    ensures g.Valid()
  {
    Place(blank, mask, DataPath(fn), Unpack(codewords), 8 * |codewords|)
  }

  /** The grids agree on every codeword module but those of codewords start, ..., start + run - 1. */
  predicate SmearedOnly(seen: Grid, drawn: Grid, fn: Grid, total: nat, start: nat, run: nat)
    requires seen.Valid() && drawn.Valid() && fn.Valid() && 8 * total <= |DataPath(fn)|
  {
    forall k: nat | k < 8 * total && !(start <= k / 8 < start + run) :: seen.At(DataPath(fn)[k]) == drawn.At(DataPath(fn)[k])
  }

  /** Codeword i depends only on its own eight modules. */
  lemma CodewordFromModules(a: Grid, b: Grid, fn: Grid, mask: int, total: nat, i: nat)
    requires a.Valid() && b.Valid() && fn.Valid() && 8 * total <= |DataPath(fn)| && i < total
    requires forall k: nat | 8 * i <= k < 8 * i + 8 :: a.At(DataPath(fn)[k]) == b.At(DataPath(fn)[k])
    ensures CodewordsOf(a, fn, mask, total)[i] == CodewordsOf(b, fn, mask, total)[i]
  {
    hide Grid.At, Grid.Valid, MaskBit, DataModules, Walk, ByteOf;
    var ms := DataPath(fn);
    var (x, y) := (ReadBits(a, mask, ms), ReadBits(b, mask, ms));
    assert x[8 * i..8 * i + 8] == y[8 * i..8 * i + 8];
    assert Pack(x)[i] == ByteOf(x[8 * i..8 * i + 8]) && Pack(y)[i] == ByteOf(y[8 * i..8 * i + 8]);
  }

  /** A drawn symbol whose smear covers at most numBlocks * (eccLen / 2 - 1) codewords still yields its payloads. */
  lemma SmearedSymbolDecodes(version: nat, blank: Grid, fn: Grid, mask: int, lay: Layout, cw: seq<Word>, payloads: seq<seq<byte>>,
                             ending: seq<bool>, seen: Grid, start: nat, run: nat)
    requires blank.Valid() && fn.Valid() && blank.size == fn.size == SizeForVersion(version)
    requires lay.Valid() && Blocks(lay, cw) && 8 * lay.totalCodewords <= |DataPath(fn)|
    requires forall j: nat :: j < lay.numBlocks ==> IsCodeword(cw[j], lay.eccLen)
    requires Ending(ending) && forall i :: 0 <= i < |payloads| ==> |payloads[i]| < Pow2(CharCountBits(version))
    requires Unpack(SentData(lay, cw, lay.numBlocks)) == EncodeSegments(payloads, CharCountBits(version)) + ending
    requires seen.Valid() && run <= lay.numBlocks * (lay.eccLen / 2 - 1)
    requires SmearedOnly(seen, Drawn(blank, fn, mask, Interleave(lay, cw)), fn, lay.totalCodewords, start, run)
    ensures Decoded(seen, fn, version, mask, lay) == Payload(Concat(payloads))
  {
    hide Interleave, IsCodeword, Unpack, Payloads, EncodeSegments, Concat, CodewordsOf, Place, SentData, RepairedData, AllCorrectable, DataPath, Ending, Pow2;
    var sent := Interleave(lay, cw);
    var drawn := Drawn(blank, fn, mask, sent);
    var received := CodewordsOf(seen, fn, mask, lay.totalCodewords);
    DrawnReadsBack(version, blank, fn, mask, sent);
    forall i: nat | i < |received| && received[i] != sent[i] ensures start <= i < start + run {
      if !(start <= i < start + run) {
        CodewordFromModules(seen, drawn, fn, mask, lay.totalCodewords, i);
      }
    }
    SmearRepaired(lay, cw, received, start, run);
    EncodingParses(payloads, CharCountBits(version), ending);
  }

  lemma DrawnReadsBack(version: nat, blank: Grid, fn: Grid, mask: int, codewords: seq<byte>)
    requires blank.Valid() && fn.Valid() && blank.size == fn.size == SizeForVersion(version)
    requires 8 * |codewords| <= |DataPath(fn)|
    ensures CodewordsOf(Drawn(blank, fn, mask, codewords), fn, mask, |codewords|) == codewords
  {
    hide DataModules, Walk, Place, Unpack, CodewordsOf;
    ReadsBack(version, blank, fn, mask, codewords);
  }
}
