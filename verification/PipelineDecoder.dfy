/** The receiving half of core/dhow-codec/src/pipeline.rs. RaptorQ is a deterministic function of the packets fed to a
    block's decoder; the keyed MAC and BLAKE3 are parameters. */
module PipelineDecoder {
  import opened Wrappers
  import opened Bits
  import opened LittleEndian
  import opened ResumeFormat
  import opened Bitmaps
  import Frames

  const PAYLOAD_ID_LEN: nat := 4

  /** What the decoder computes with but this model does not look into. */
  datatype Codec = Codec(mac: Frames.Mac, digest: Blake3, fec: (nat, seq<seq<byte>>) -> Option<seq<byte>>) {
    ghost predicate Valid() {
      IsDigest(digest)
    }
  }

  /** The session: its identifier, the size of each block, symbols per block, and the digest the sender committed to. */
  datatype Params = Params(sessionId: seq<byte>, blockSizes: seq<nat>, totalSymbols: nat, payloadDigest: seq<byte>) {
    predicate Valid() {
      |sessionId| == 16 && IsU32(|blockSizes|) && IsU32(totalSymbols)
    }
  }

  datatype BlockState = Pending(packets: seq<seq<byte>>) | Done(data: seq<byte>)

  datatype Outcome = Accepted | BlockComplete(blockIndex: nat) | Redundant | Rejected

  /** The decoder's state; journal is everything the rolling digest has absorbed. */
  datatype State = State(blocks: seq<BlockState>, held: seq<seq<byte>>, counts: seq<nat>, journal: seq<byte>) {

    /** One bitmap and one count for each block; each count is the number of bits set, and no bit is at or past the
        session's symbol count. */
    predicate Valid(p: Params) {
      && |blocks| == |held| == |counts| == |p.blockSizes|
      && forall i :: 0 <= i < |held| ==> Shaped(held[i], p.totalSymbols) && counts[i] == PopCount(held[i])
    }
  }

  function Fresh(p: Params): State {
    var n := |p.blockSizes|;
    State(seq(n, i requires 0 <= i < n => if p.blockSizes[i] == 0 then Done([]) else Pending([])),
          seq(n, _ => Zeros(BitmapLen(p.totalSymbols))),
          seq(n, _ => 0),
          [])
  }

  lemma FreshValid(p: Params)
    ensures Fresh(p).Valid(p)
  {
    hide PopCount, Shaped;
    ZerosShaped(p.totalSymbols);
  }

  function MarkHeld(p: Params, s: State, block: nat, symbol: nat): State
    requires s.Valid(p) && block < |s.held|
  {
    if symbol >= p.totalSymbols || Holds(s.held[block], symbol) then s
    else s.(held := s.held[block := SetSymbol(s.held[block], symbol)], counts := s.counts[block := s.counts[block] + 1])
  }

  /** Whether a frame is taken; this does not look at the decoder's progress. */
  predicate Acceptable(c: Codec, p: Params, bytes: seq<byte>) {
    match Frames.ParseFrame(c.mac, bytes)
    case Err(_) => false
    case Ok(f) =>
      && f.sessionId == p.sessionId
      && f.frameType == Frames.TYPE_REPAIR
      && f.blockIndex < |p.blockSizes|
      && |f.payload| > PAYLOAD_ID_LEN
  }

  /** Feeding one symbol to its block. */
  function Feed(c: Codec, s: State, block: nat, payload: seq<byte>): (State, Outcome)
    requires block < |s.blocks|
  {
    match s.blocks[block]
    case Done(_) => (s, Redundant)
    case Pending(packets) =>
      match c.fec(block, packets + [payload])
      case Some(data) => (s.(blocks := s.blocks[block := Done(data)]), BlockComplete(block))
      case None => (s.(blocks := s.blocks[block := Pending(packets + [payload])]), Accepted)
  }

  function Accept(c: Codec, p: Params, s: State, bytes: seq<byte>): (State, Outcome)
    requires s.Valid(p)
  {
    if !Acceptable(c, p, bytes) then (s, Rejected)
    else
      var f := Frames.ParseFrame(c.mac, bytes).frame;
      var marked := MarkHeld(p, s, f.blockIndex, f.symbolIndex);
      Feed(c, marked.(journal := marked.journal + bytes), f.blockIndex, f.payload)
  }

  lemma MarkHeldValid(p: Params, s: State, block: nat, symbol: nat)
    requires s.Valid(p) && block < |s.held|
    ensures MarkHeld(p, s, block, symbol).Valid(p)
  {
    hide PopCount, Shaped, Holds, SetSymbol;
    if symbol < p.totalSymbols {
      ShapedLength(s.held[block], p.totalSymbols);
      if !Holds(s.held[block], symbol) {
        SetSymbolCounts(s.held[block], p.totalSymbols, symbol);
      }
    }
  }

  lemma ShapedLength(bitmap: seq<byte>, symbols: nat)
    requires Shaped(bitmap, symbols)
    ensures symbols <= 8 * |bitmap|
  {}

  /** Every state reached by accepting frames keeps its bitmaps and counts in step; a rejected frame changes nothing. */
  lemma AcceptValid(c: Codec, p: Params, s: State, bytes: seq<byte>)
    requires s.Valid(p)
    ensures Accept(c, p, s, bytes).0.Valid(p)
    ensures Accept(c, p, s, bytes).1 == Rejected <==> !Acceptable(c, p, bytes)
    ensures Accept(c, p, s, bytes).1 == Rejected ==> Accept(c, p, s, bytes).0 == s
    ensures Accept(c, p, s, bytes).1 != Rejected ==> Accept(c, p, s, bytes).0.journal == s.journal + bytes
  {
    hide PopCount, Shaped, Holds, SetSymbol;
    if Acceptable(c, p, bytes) {
      var f := Frames.ParseFrame(c.mac, bytes).frame;
      hide Frames.ParseFrame;
      MarkHeldValid(p, s, f.blockIndex, f.symbolIndex);
    }
  }

  function DecodeAll(c: Codec, p: Params, frames: seq<seq<byte>>): (s: State)
    ensures s.Valid(p)
    decreases |frames|
  {
    if |frames| == 0 then FreshValid(p); Fresh(p)
    else
      var before := DecodeAll(c, p, frames[..|frames| - 1]);
      AcceptValid(c, p, before, frames[|frames| - 1]);
      Accept(c, p, before, frames[|frames| - 1]).0
  }

  function AcceptedFrames(c: Codec, p: Params, frames: seq<seq<byte>>): seq<seq<byte>> {
    if |frames| == 0 then []
    else AcceptedFrames(c, p, frames[..|frames| - 1]) +
         if Acceptable(c, p, frames[|frames| - 1]) then [frames[|frames| - 1]] else []
  }

  /** Replaying only the accepted frames, in order, into a fresh decoder reproduces its state. */
  lemma {:induction false} ReplayReproduces(c: Codec, p: Params, frames: seq<seq<byte>>)
    ensures DecodeAll(c, p, AcceptedFrames(c, p, frames)) == DecodeAll(c, p, frames)
    ensures forall i :: 0 <= i < |AcceptedFrames(c, p, frames)| ==> Acceptable(c, p, AcceptedFrames(c, p, frames)[i])
    decreases |frames|
  {
    hide Accept, Acceptable;
    if |frames| > 0 {
      var k := |frames| - 1;
      var prior := AcceptedFrames(c, p, frames[..k]);
      ReplayReproduces(c, p, frames[..k]);
      AcceptValid(c, p, DecodeAll(c, p, frames[..k]), frames[k]);
      if Acceptable(c, p, frames[k]) {
        DecodeSnoc(c, p, prior, frames[k]);
      } else {
        assert prior + [] == prior;
      }
    }
  }

  lemma DecodeSnoc(c: Codec, p: Params, frames: seq<seq<byte>>, frame: seq<byte>)
    ensures DecodeAll(c, p, frames + [frame]) == Accept(c, p, DecodeAll(c, p, frames), frame).0
  {
    hide Accept;
    assert (frames + [frame])[..|frames|] == frames;
  }

  // ----- the resume state

  function Entries(p: Params, s: State): (es: seq<BlockEntry>)
    requires s.Valid(p)
    ensures |es| == |s.blocks|
  {
    seq(|s.blocks|, i requires 0 <= i < |s.blocks| => BlockEntry(i, p.totalSymbols, s.counts[i], s.held[i]))
  }

  function ResumeState(c: Codec, p: Params, s: State, journalBytes: nat): ResumeFile
    requires s.Valid(p)
  {
    ResumeFile(NewHeader(c.digest, p.sessionId, journalBytes, c.digest(s.journal), Entries(p, s)), Entries(p, s))
  }

  datatype Verdict = Matches | SessionMismatch | JournalMismatch

  predicate EntryMatches(p: Params, s: State, e: BlockEntry, index: nat)
    requires s.Valid(p) && index < |s.held|
  {
    e.symbolCount == p.totalSymbols && e.symbolBitmap == s.held[index]
  }

  function VerifyResume(c: Codec, p: Params, s: State, file: ResumeFile): Verdict
    requires s.Valid(p) && file.Valid(c.digest)
  {
    if file.header.sessionId != p.sessionId then SessionMismatch
    else if file.header.blockCount != |s.blocks| then JournalMismatch
    else if file.header.journalDigest != c.digest(s.journal) then JournalMismatch
    else if forall i :: 0 <= i < |file.entries| ==> EntryMatches(p, s, file.entries[i], i) then Matches
    else JournalMismatch
  }

  lemma ResumeStateValid(c: Codec, p: Params, s: State, journalBytes: nat)
    requires c.Valid() && p.Valid() && s.Valid(p) && IsU64(journalBytes)
    ensures ResumeState(c, p, s, journalBytes).Valid(c.digest)
  {
    hide PopCount, Covered;
    NewHeaderValid(c.digest, p.sessionId, journalBytes, c.digest(s.journal), Entries(p, s));
    forall i | 0 <= i < |s.blocks|
      ensures Entries(p, s)[i].Valid()
    {
      ShapedBound(s.held[i], p.totalSymbols);
    }
  }

  /** The resume state of any reachable decoder, once written, parses back, and matches the decoder that wrote it. */
  lemma ResumeStateAccepted(c: Codec, p: Params, s: State, journalBytes: nat)
    requires c.Valid() && p.Valid() && s.Valid(p) && IsU64(journalBytes)
    ensures ResumeState(c, p, s, journalBytes).Valid(c.digest)
    ensures Parse(c.digest, ResumeState(c, p, s, journalBytes).ToVec()) == Ok(ResumeState(c, p, s, journalBytes))
    ensures VerifyResume(c, p, s, ResumeState(c, p, s, journalBytes)) == Matches
  {
    hide PopCount, Covered, Shaped, Parse;
    ResumeStateValid(c, p, s, journalBytes);
    WrittenParses(c.digest, ResumeState(c, p, s, journalBytes));
  }

  /** A match pins down the session, the digest of the frames taken, and every bitmap and count. */
  lemma MatchIsExact(c: Codec, p: Params, s: State, file: ResumeFile)
    requires s.Valid(p) && file.Valid(c.digest)
    ensures VerifyResume(c, p, s, file) == Matches <==>
      && file.header.sessionId == p.sessionId
      && file.header.journalDigest == c.digest(s.journal)
      && file.entries == Entries(p, s)
  {
    hide PopCount, Shaped;
    if VerifyResume(c, p, s, file) == Matches {
      forall i | 0 <= i < |file.entries| ensures file.entries[i] == Entries(p, s)[i] {
        assert EntryMatches(p, s, file.entries[i], i);
      }
    }
    if file.entries == Entries(p, s) {
      forall i | 0 <= i < |file.entries| ensures EntryMatches(p, s, file.entries[i], i) {}
    }
  }

  /** Only the state a decoder would write itself matches it. */
  lemma MatchIsOwn(c: Codec, p: Params, s: State, file: ResumeFile)
    requires s.Valid(p) && file.Valid(c.digest)
    ensures VerifyResume(c, p, s, file) == Matches ==> file == ResumeState(c, p, s, file.header.journalBytes)
  {
    hide VerifyResume, PopCount, Shaped, Covered;
    MatchIsExact(c, p, s, file);
  }

  // ----- the decoder object

  predicate Complete(blocks: seq<BlockState>, sizes: seq<nat>) {
    |blocks| == |sizes| && forall i :: 0 <= i < |blocks| ==> blocks[i].Done? && sizes[i] <= |blocks[i].data|
  }

  /** The decoded blocks joined, each cut to its declared size. */
  function Payload(blocks: seq<BlockState>, sizes: seq<nat>): seq<byte>
    requires Complete(blocks, sizes)
  {
    if |blocks| == 0 then []
    else
      var k := |blocks| - 1;
      Payload(blocks[..k], sizes[..k]) + blocks[k].data[..sizes[k]]
  }

  datatype FinishError = NotYetDecoded(block: nat) | Short(block: nat) | DigestMismatch

  class Decoder {
    const c: Codec
    const p: Params
    var blocks: seq<BlockState>
    var held: seq<seq<byte>>
    var heldCounts: seq<nat>
    var journal: seq<byte>

    ghost predicate Valid()
      reads this
    {
      View().Valid(p)
    }

    function View(): State
      reads this
    {
      State(blocks, held, heldCounts, journal)
    }

    constructor (c: Codec, p: Params)
      ensures this.c == c && this.p == p
      ensures Valid() && View() == Fresh(p)
    {
      this.c := c;
      this.p := p;
      var n := |p.blockSizes|;
      blocks := seq(n, i requires 0 <= i < n => if p.blockSizes[i] == 0 then Done([]) else Pending([]));
      held := seq(n, _ => Zeros(BitmapLen(p.totalSymbols)));
      heldCounts := seq(n, _ => 0);
      journal := [];
      new;
      hide PopCount, Shaped;
      FreshValid(p);
    }

    /** Records a symbol as seen; true when it was not already. */
    method MarkHeldSymbol(block: nat, symbol: nat) returns (isNew: bool)
      requires Valid() && block < |held|
      modifies this`held, this`heldCounts
      ensures Valid() && View() == MarkHeld(p, old(View()), block, symbol)
      ensures isNew <==> View() != old(View())
    {
      hide PopCount, Shaped, SetSymbol, Holds;
      MarkHeldValid(p, View(), block, symbol);
      if symbol >= p.totalSymbols {
        return false;
      }
      ShapedLength(held[block], p.totalSymbols);
      var bitmap := held[block];
      if Holds(bitmap, symbol) {
        return false;
      }
      held := held[block := SetSymbol(bitmap, symbol)];
      heldCounts := heldCounts[block := heldCounts[block] + 1];
      return true;
    }

    /** Parses, authenticates and consumes one frame. */
    method AcceptFrame(bytes: seq<byte>) returns (outcome: Outcome)
      requires Valid()
      modifies this
      ensures Valid() && (View(), outcome) == Accept(c, p, old(View()), bytes)
    {
      hide PopCount, Shaped, SetSymbol, Holds, Frames.ParseFrame;
      AcceptValid(c, p, View(), bytes);
      var parsed := Frames.ParseFrame(c.mac, bytes);
      if parsed.Err? {
        return Rejected;
      }
      var frame := parsed.frame;
      if frame.sessionId != p.sessionId || frame.frameType != Frames.TYPE_REPAIR {
        return Rejected;
      }
      if frame.blockIndex >= |blocks| || |frame.payload| <= PAYLOAD_ID_LEN {
        return Rejected;
      }
      var _ := MarkHeldSymbol(frame.blockIndex, frame.symbolIndex);
      journal := journal + bytes;
      match blocks[frame.blockIndex]
      case Done(_) =>
        return Redundant;
      case Pending(packets) =>
        var result := c.fec(frame.blockIndex, packets + [frame.payload]);
        match result {
          case Some(data) =>
            blocks := blocks[frame.blockIndex := Done(data)];
            return BlockComplete(frame.blockIndex);
          case None =>
            blocks := blocks[frame.blockIndex := Pending(packets + [frame.payload])];
            return Accepted;
        }
    }

    /** Returns the payload only when every block is decoded and the bytes have the digest the sender committed to. */
    method Finish() returns (ok: bool, payload: seq<byte>, error: FinishError)
      requires Valid()
      ensures ok <==> Complete(blocks, p.blockSizes) && c.digest(Payload(blocks, p.blockSizes)) == p.payloadDigest
      ensures ok ==> payload == Payload(blocks, p.blockSizes)
      ensures !ok ==> match error
        case NotYetDecoded(b) => b < |blocks| && blocks[b].Pending? && forall k :: 0 <= k < b ==> blocks[k].Done?
        case Short(b) =>
          && (forall k :: 0 <= k < |blocks| ==> blocks[k].Done?)
          && b < |blocks| && |blocks[b].data| < p.blockSizes[b] && forall k :: 0 <= k < b ==> p.blockSizes[k] <= |blocks[k].data|
        case DigestMismatch => Complete(blocks, p.blockSizes) && c.digest(Payload(blocks, p.blockSizes)) != p.payloadDigest
    {
      hide PopCount, Shaped;
      payload, error := [], DigestMismatch;
      for i := 0 to |blocks|
        invariant forall k :: 0 <= k < i ==> blocks[k].Done?
      {
        if blocks[i].Pending? {
          return false, [], NotYetDecoded(i);
        }
      }
      for i := 0 to |blocks|
        invariant Complete(blocks[..i], p.blockSizes[..i])
        invariant payload == Payload(blocks[..i], p.blockSizes[..i])
      {
        if |blocks[i].data| < p.blockSizes[i] {
          return false, [], Short(i);
        }
        assert blocks[..i + 1][..i] == blocks[..i] && p.blockSizes[..i + 1][..i] == p.blockSizes[..i];
        payload := payload + blocks[i].data[..p.blockSizes[i]];
      }
      assert blocks[..|blocks|] == blocks && p.blockSizes[..|blocks|] == p.blockSizes;
      if c.digest(payload) != p.payloadDigest {
        return false, [], DigestMismatch;
      }
      ok := true;
    }
  }
}
