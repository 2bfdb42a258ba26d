/** What a decoder's state says about the frames it was given: core/dhow-codec/src/pipeline.rs. */
module BlockDecoding {
  import opened Wrappers
  import opened Bits
  import opened ResumeFormat
  import opened Bitmaps
  import opened PipelineDecoder
  import BitStrings
  import Frames

  // ----- which frames are taken

  /** A frame is taken exactly when it begins with a repair frame of this session as a sender writes it, for one of the
      session's blocks and with at least one byte of symbol after the four of its identifier. */
  lemma AcceptableExactly(c: Codec, p: Params, b: seq<byte>)
    ensures Acceptable(c, p, b) <==> exists f: Frames.Frame ::
      && f.Valid() && |c.mac(Frames.Authenticated(f))| == 8 && Frames.Written(c.mac, f) <= b
      && f.sessionId == p.sessionId && f.frameType == 1 && f.blockIndex < |p.blockSizes| && |f.payload| >= 5
  {
    hide Frames.ParseFrame, Frames.Written, Frames.Authenticated, Frames.Frame.Valid;
    if Acceptable(c, p, b) {
      Frames.ParsesExactly(c.mac, b, Frames.ParseFrame(c.mac, b).frame);
    }
    forall f: Frames.Frame | f.Valid() && |c.mac(Frames.Authenticated(f))| == 8 && Frames.Written(c.mac, f) <= b
      ensures Frames.ParseFrame(c.mac, b) == Frames.Ok(f)
    {
      Frames.ParsesExactly(c.mac, b, f);
    }
  }

  /** Damage inside four consecutive payload bytes keeps a frame from being taken, so it changes nothing. */
  lemma DamagedFrameRejected(c: Codec, p: Params, s: State, good: seq<byte>, bad: seq<byte>, at: nat)
    requires s.Valid(p) && Frames.PayloadDamaged(c.mac, good, bad) && bad != good
    requires forall i :: 0 <= i < |good| && bad[i] != good[i] ==> at <= i - Frames.FRAME_HEADER_SIZE < at + 4
    ensures !Acceptable(c, p, bad) && Accept(c, p, s, bad) == (s, Rejected)
  {
    Frames.FourDamagedBytesRefused(c.mac, good, bad, at);
  }

  // ----- what the blocks say

  /** Whether the frame is taken for block b. */
  predicate For(c: Codec, p: Params, frame: seq<byte>, b: nat) {
    Acceptable(c, p, frame) && Frames.ParseFrame(c.mac, frame).frame.blockIndex == b
  }

  /** The payloads of the frames taken for block b, in order. */
  function Packets(c: Codec, p: Params, frames: seq<seq<byte>>, b: nat): seq<seq<byte>> {
    if |frames| == 0 then []
    else
      var (before, last) := (Packets(c, p, frames[..|frames| - 1], b), frames[|frames| - 1]);
      if For(c, p, last, b) then before + [Frames.ParseFrame(c.mac, last).frame.payload] else before
  }

  /** No prefix of the packets decodes. */
  predicate NeverDecodes(c: Codec, b: nat, packets: seq<seq<byte>>) {
    forall j {:trigger packets[..j]} :: 0 < j <= |packets| ==> c.fec(b, packets[..j]).None?
  }

  /** The first k packets are the shortest prefix that decodes. */
  predicate DecodesFirst(c: Codec, b: nat, packets: seq<seq<byte>>, k: nat) {
    && 0 < k <= |packets| && c.fec(b, packets[..k]).Some?
    && forall j {:trigger packets[..j]} :: 0 < j < k ==> c.fec(b, packets[..j]).None?
  }

  /** A block with the given packets: empty and done, done by the shortest prefix that decodes, or still waiting. */
  ghost predicate Means(c: Codec, b: nat, size: nat, packets: seq<seq<byte>>, block: BlockState) {
    if size == 0 then block == Done([])
    else
      && (NeverDecodes(c, b, packets) ==> block == Pending(packets))
      && (forall k: nat :: DecodesFirst(c, b, packets, k) ==> block == Done(c.fec(b, packets[..k]).value))
      && (NeverDecodes(c, b, packets) || exists k: nat :: DecodesFirst(c, b, packets, k))
  }

  lemma FirstsAgree(c: Codec, b: nat, packets: seq<seq<byte>>, j: nat, k: nat)
    requires DecodesFirst(c, b, packets, j) && DecodesFirst(c, b, packets, k)
    ensures j == k
  {}

  /** A decoded block stays as it is. */
  lemma LaterPacket(c: Codec, b: nat, packets: seq<seq<byte>>, packet: seq<byte>, k: nat)
    requires DecodesFirst(c, b, packets, k)
    ensures DecodesFirst(c, b, packets + [packet], k) && !NeverDecodes(c, b, packets + [packet])
    ensures (packets + [packet])[..k] == packets[..k]
  {
    var more := packets + [packet];
    forall j | 0 < j <= k ensures more[..j] == packets[..j] {}
    assert more[..k] == packets[..k];
  }

  lemma NextPacket(c: Codec, b: nat, packets: seq<seq<byte>>, packet: seq<byte>)
    requires NeverDecodes(c, b, packets)
    ensures var more := packets + [packet];
      if c.fec(b, more).Some? then DecodesFirst(c, b, more, |more|) && more[..|more|] == more
      else NeverDecodes(c, b, more) && forall k: nat :: !DecodesFirst(c, b, more, k)
  {
    var more := packets + [packet];
    assert more[..|more|] == more;
    forall j | 0 < j <= |packets| ensures more[..j] == packets[..j] {}
  }

  /** Feeding one more packet keeps the meaning. */
  lemma FeedMeans(c: Codec, s: State, b: nat, size: nat, packets: seq<seq<byte>>, packet: seq<byte>)
    requires b < |s.blocks| && Means(c, b, size, packets, s.blocks[b])
    ensures var (t, outcome) := Feed(c, s, b, packet);
      && |t.blocks| == |s.blocks| && Means(c, b, size, packets + [packet], t.blocks[b])
      && (outcome == Redundant <==> size == 0 || !NeverDecodes(c, b, packets))
      && (outcome == BlockComplete(b) <==> size > 0 && DecodesFirst(c, b, packets + [packet], |packets| + 1))
      && (outcome == Accepted <==> size > 0 && NeverDecodes(c, b, packets + [packet]))
  {
    if size > 0 {
      if NeverDecodes(c, b, packets) {
        NextPacket(c, b, packets, packet);
        if c.fec(b, packets + [packet]).Some? {
          forall k: nat | DecodesFirst(c, b, packets + [packet], k) ensures k == |packets| + 1 {
            FirstsAgree(c, b, packets + [packet], k, |packets| + 1);
          }
        }
      } else {
        var k: nat :| DecodesFirst(c, b, packets, k);
        LaterPacket(c, b, packets, packet, k);
        forall j: nat | DecodesFirst(c, b, packets + [packet], j) ensures j == k {
          FirstsAgree(c, b, packets + [packet], j, k);
        }
      }
    }
  }

  /** Accepting a frame touches its own block only. */
  lemma AcceptFeeds(c: Codec, p: Params, s: State, frame: seq<byte>)
    requires s.Valid(p) && Acceptable(c, p, frame)
    ensures var f := Frames.ParseFrame(c.mac, frame).frame;
      && f.blockIndex < |s.blocks|
      && Accept(c, p, s, frame).0.blocks == Feed(c, s, f.blockIndex, f.payload).0.blocks
      && Accept(c, p, s, frame).1 == Feed(c, s, f.blockIndex, f.payload).1
      && Accept(c, p, s, frame).0.held == MarkHeld(p, s, f.blockIndex, f.symbolIndex).held
      && forall b :: 0 <= b < |s.blocks| && b != f.blockIndex ==> Accept(c, p, s, frame).0.blocks[b] == s.blocks[b]
  {
    hide Frames.ParseFrame, Holds, SetSymbol, Shaped, PopCount;
  }

  /** After any stream of frames each block is what its packets make of it. */
  lemma {:induction false} BlocksMean(c: Codec, p: Params, frames: seq<seq<byte>>, b: nat)
    requires b < |p.blockSizes|
    ensures Means(c, b, p.blockSizes[b], Packets(c, p, frames, b), DecodeAll(c, p, frames).blocks[b])
    decreases |frames|
  {
    hide Accept, Means, Frames.ParseFrame;
    if |frames| == 0 {
      FreshMeans(c, p, b);
    } else {
      var (before, last) := (frames[..|frames| - 1], frames[|frames| - 1]);
      BlocksMean(c, p, before, b);
      var s := DecodeAll(c, p, before);
      AcceptValid(c, p, s, last);
      if Acceptable(c, p, last) {
        AcceptFeeds(c, p, s, last);
        if For(c, p, last, b) {
          FeedMeans(c, s, b, p.blockSizes[b], Packets(c, p, before, b), Frames.ParseFrame(c.mac, last).frame.payload);
        }
      }
    }
  }

  lemma FreshMeans(c: Codec, p: Params, b: nat)
    requires b < |p.blockSizes|
    ensures Means(c, b, p.blockSizes[b], [], Fresh(p).blocks[b])
  {}

  /** A block is done with some bytes exactly when it is empty, or they are what its shortest decoding prefix decodes to. */
  lemma DoneExactly(c: Codec, p: Params, frames: seq<seq<byte>>, b: nat, d: seq<byte>)
    requires b < |p.blockSizes|
    ensures var packets := Packets(c, p, frames, b);
      DecodeAll(c, p, frames).blocks[b] == Done(d) <==>
        if p.blockSizes[b] == 0 then d == []
        else exists k: nat :: DecodesFirst(c, b, packets, k) && c.fec(b, packets[..k]) == Some(d)
  {
    hide DecodeAll, Packets, NeverDecodes;
    BlocksMean(c, p, frames, b);
  }

  /** A block waits exactly while no prefix decodes, and then it holds all its packets. */
  lemma PendingExactly(c: Codec, p: Params, frames: seq<seq<byte>>, b: nat)
    requires b < |p.blockSizes|
    ensures var (packets, block) := (Packets(c, p, frames, b), DecodeAll(c, p, frames).blocks[b]);
      && (block.Pending? <==> p.blockSizes[b] > 0 && NeverDecodes(c, b, packets))
      && (block.Pending? ==> block == Pending(packets))
  {
    hide DecodeAll, Packets;
    BlocksMean(c, p, frames, b);
    if p.blockSizes[b] > 0 && !NeverDecodes(c, b, Packets(c, p, frames, b)) {
      var k: nat :| DecodesFirst(c, b, Packets(c, p, frames, b), k);
    }
  }

  /** What is reported for the next frame: completion by the packet that makes the block decode, and by no other. */
  lemma ReportedExactly(c: Codec, p: Params, frames: seq<seq<byte>>, frame: seq<byte>, b: nat)
    requires b < |p.blockSizes| && For(c, p, frame, b)
    ensures var packets := Packets(c, p, frames, b);
      var more := packets + [Frames.ParseFrame(c.mac, frame).frame.payload];
      var outcome := Accept(c, p, DecodeAll(c, p, frames), frame).1;
      && (outcome == Redundant <==> p.blockSizes[b] == 0 || !NeverDecodes(c, b, packets))
      && (outcome == BlockComplete(b) <==> p.blockSizes[b] > 0 && DecodesFirst(c, b, more, |more|))
      && (outcome == Accepted <==> p.blockSizes[b] > 0 && NeverDecodes(c, b, more))
  {
    hide Accept, Means, Feed, DecodeAll, Packets, NeverDecodes, DecodesFirst, Frames.ParseFrame;
    BlocksMean(c, p, frames, b);
    AcceptFeeds(c, p, DecodeAll(c, p, frames), frame);
    FeedMeans(c, DecodeAll(c, p, frames), b, p.blockSizes[b], Packets(c, p, frames, b), Frames.ParseFrame(c.mac, frame).frame.payload);
  }

  // ----- what the bitmaps say

  /** A frame taken for block b carried symbol k. */
  predicate Carried(c: Codec, p: Params, frames: seq<seq<byte>>, b: nat, k: nat) {
    exists i :: 0 <= i < |frames| && For(c, p, frames[i], b) && Frames.ParseFrame(c.mac, frames[i]).frame.symbolIndex == k
  }

  /** A symbol is recorded as held exactly when a frame that was taken carried it. */
  lemma {:induction false} HeldExactly(c: Codec, p: Params, frames: seq<seq<byte>>, b: nat, k: nat)
    requires b < |p.blockSizes| && k < p.totalSymbols
    ensures var held := DecodeAll(c, p, frames).held; k < 8 * |held[b]| && (Holds(held[b], k) <==> Carried(c, p, frames, b, k))
    decreases |frames|
  {
    hide Accept, Frames.ParseFrame, Holds, SetSymbol, Shaped;
    var held := DecodeAll(c, p, frames).held;
    ShapedLength(held[b], p.totalSymbols);
    if |frames| == 0 {
      NoneHeld(p, k);
    } else {
      var (before, last) := (frames[..|frames| - 1], frames[|frames| - 1]);
      HeldExactly(c, p, before, b, k);
      var s := DecodeAll(c, p, before);
      CarriedBySome(c, p, frames, b, k);
      AcceptValid(c, p, s, last);
      if Acceptable(c, p, last) {
        AcceptFeeds(c, p, s, last);
        var f := Frames.ParseFrame(c.mac, last).frame;
        MarkedExactly(p, s, f.blockIndex, f.symbolIndex, b, k);
      }
    }
  }

  lemma CarriedBySome(c: Codec, p: Params, frames: seq<seq<byte>>, b: nat, k: nat)
    requires |frames| > 0
    ensures var (before, last) := (frames[..|frames| - 1], frames[|frames| - 1]);
      Carried(c, p, frames, b, k) <==> Carried(c, p, before, b, k) || (For(c, p, last, b) && Frames.ParseFrame(c.mac, last).frame.symbolIndex == k)
  {
    hide Frames.ParseFrame;
    var before := frames[..|frames| - 1];
    if Carried(c, p, before, b, k) {
      var i :| 0 <= i < |before| && For(c, p, before[i], b) && Frames.ParseFrame(c.mac, before[i]).frame.symbolIndex == k;
      assert frames[i] == before[i];
    }
    if Carried(c, p, frames, b, k) {
      var i :| 0 <= i < |frames| && For(c, p, frames[i], b) && Frames.ParseFrame(c.mac, frames[i]).frame.symbolIndex == k;
      if i < |before| {
        assert before[i] == frames[i];
      }
    }
  }

  lemma MarkedExactly(p: Params, s: State, block: nat, symbol: nat, b: nat, k: nat)
    requires s.Valid(p) && block < |s.held| && b < |s.held| && k < p.totalSymbols && k < 8 * |s.held[b]|
    ensures var held := MarkHeld(p, s, block, symbol).held;
      |held| == |s.held| && k < 8 * |held[b]| && (Holds(held[b], k) <==> (b == block && k == symbol) || Holds(s.held[b], k))
  {
    hide Holds, SetSymbol, Shaped, PopCount;
    if symbol < p.totalSymbols {
      ShapedLength(s.held[block], p.totalSymbols);
      if !Holds(s.held[block], symbol) && b == block {
        SetSymbolHolds(s.held[block], symbol, k);
      }
    }
  }

  lemma NoneHeld(p: Params, k: nat)
    requires k < 8 * BitmapLen(p.totalSymbols)
    ensures !Holds(Zeros(BitmapLen(p.totalSymbols)), k)
  {
    NoBits(k % 8);
  }

  lemma {:induction false} NoBits(n: nat)
    ensures BitStrings.ShiftRight(0, n) == 0
  {
    if n > 0 {
      NoBits(n - 1);
    }
  }

  // ----- the payload

  /** Where block b starts in the payload. */
  function Offset(sizes: seq<nat>, b: nat): nat
    requires b <= |sizes|
  {
    if b == 0 then 0 else Offset(sizes, b - 1) + sizes[b - 1]
  }

  lemma {:induction false} OffsetPrefix(sizes: seq<nat>, n: nat, b: nat)
    requires b <= n <= |sizes|
    ensures Offset(sizes[..n], b) == Offset(sizes, b)
  {
    if b > 0 {
      OffsetPrefix(sizes, n, b - 1);
    }
  }

  lemma {:induction false} OffsetsGrow(sizes: seq<nat>, a: nat, b: nat)
    requires a <= b <= |sizes|
    ensures Offset(sizes, a) <= Offset(sizes, b)
  {
    if a < b {
      OffsetsGrow(sizes, a, b - 1);
    }
  }

  /** Each block's declared bytes lie at the sum of the sizes before it, and nothing else is in the payload. */
  lemma {:induction false} PayloadAt(blocks: seq<BlockState>, sizes: seq<nat>, b: nat)
    requires Complete(blocks, sizes) && b < |blocks|
    ensures |Payload(blocks, sizes)| == Offset(sizes, |sizes|)
    ensures Offset(sizes, b) + sizes[b] <= Offset(sizes, |sizes|)
    ensures Payload(blocks, sizes)[Offset(sizes, b)..Offset(sizes, b) + sizes[b]] == blocks[b].data[..sizes[b]]
    decreases |blocks|
  {
    PayloadLength(blocks, sizes);
    OffsetsGrow(sizes, b + 1, |sizes|);
    var k := |blocks| - 1;
    var (front, last) := (Payload(blocks[..k], sizes[..k]), blocks[k].data[..sizes[k]]);
    PayloadLength(blocks[..k], sizes[..k]);
    OffsetPrefix(sizes, k, k);
    assert Payload(blocks, sizes) == front + last;
    if b < k {
      PayloadAt(blocks[..k], sizes[..k], b);
      OffsetPrefix(sizes, k, b);
      hide Payload;
      FrontSlice(front, last, Offset(sizes, b), Offset(sizes, b) + sizes[b]);
    }
  }

  lemma FrontSlice(front: seq<byte>, last: seq<byte>, i: nat, j: nat)
    requires i <= j <= |front|
    ensures (front + last)[i..j] == front[i..j]
  {}

  lemma {:induction false} PayloadLength(blocks: seq<BlockState>, sizes: seq<nat>)
    requires Complete(blocks, sizes)
    ensures |Payload(blocks, sizes)| == Offset(sizes, |sizes|)
    decreases |blocks|
  {
    if |blocks| > 0 {
      var k := |blocks| - 1;
      PayloadLength(blocks[..k], sizes[..k]);
      OffsetPrefix(sizes, k, k);
    }
  }

  /** The codec gives every block of the payload back from the packets taken for it. */
  ghost predicate Delivered(c: Codec, p: Params, frames: seq<seq<byte>>, payload: seq<byte>) {
    && |payload| == Offset(p.blockSizes, |p.blockSizes|)
    && forall b: nat :: b < |p.blockSizes| && p.blockSizes[b] > 0 ==> BlockDelivered(c, p, frames, payload, b)
  }

  ghost predicate BlockDelivered(c: Codec, p: Params, frames: seq<seq<byte>>, payload: seq<byte>, b: nat)
    requires b < |p.blockSizes|
  {
    var (packets, at, size) := (Packets(c, p, frames, b), Offset(p.blockSizes, b), p.blockSizes[b]);
    at + size <= |payload| && exists k: nat :: DecodesFirst(c, b, packets, k) && payload[at..at + size] <= c.fec(b, packets[..k]).value
  }

  /** Once every block decodes to the sender's bytes, finishing yields the sender's payload. */
  lemma StreamDelivers(c: Codec, p: Params, frames: seq<seq<byte>>, payload: seq<byte>)
    requires Delivered(c, p, frames, payload)
    ensures var blocks := DecodeAll(c, p, frames).blocks; Complete(blocks, p.blockSizes) && Payload(blocks, p.blockSizes) == payload
  {
    hide DecodeAll, Packets, DecodesFirst, Payload, Offset;
    var (blocks, sizes) := (DecodeAll(c, p, frames).blocks, p.blockSizes);
    forall b: nat | b < |sizes|
      ensures blocks[b].Done? && Offset(sizes, b) + sizes[b] <= |payload|
      ensures sizes[b] <= |blocks[b].data| && payload[Offset(sizes, b)..Offset(sizes, b) + sizes[b]] == blocks[b].data[..sizes[b]]
    {
      DeliveredBlock(c, p, frames, payload, b);
    }
    PayloadLength(blocks, sizes);
    SamePayload(blocks, sizes, payload);
  }

  lemma DeliveredBlock(c: Codec, p: Params, frames: seq<seq<byte>>, payload: seq<byte>, b: nat)
    requires Delivered(c, p, frames, payload) && b < |p.blockSizes|
    ensures var (block, at, size) := (DecodeAll(c, p, frames).blocks[b], Offset(p.blockSizes, b), p.blockSizes[b]);
      && block.Done? && at + size <= |payload| && size <= |block.data| && payload[at..at + size] == block.data[..size]
  {
    hide DecodeAll, Packets, DecodesFirst;
    BlocksMean(c, p, frames, b);
    OffsetsGrow(p.blockSizes, b + 1, |p.blockSizes|);
    if p.blockSizes[b] > 0 {
      assert BlockDelivered(c, p, frames, payload, b);
    }
  }

  lemma {:induction false} BlockHolding(sizes: seq<nat>, at: nat, n: nat) returns (b: nat)
    requires n <= |sizes| && at < Offset(sizes, n)
    ensures b < n && Offset(sizes, b) <= at < Offset(sizes, b) + sizes[b]
  {
    if at >= Offset(sizes, n - 1) {
      b := n - 1;
    } else {
      b := BlockHolding(sizes, at, n - 1);
    }
  }

  lemma SamePayload(blocks: seq<BlockState>, sizes: seq<nat>, payload: seq<byte>)
    requires Complete(blocks, sizes) && |payload| == |Payload(blocks, sizes)| == Offset(sizes, |sizes|)
    requires forall b: nat | b < |sizes| ::
      Offset(sizes, b) + sizes[b] <= |payload| && payload[Offset(sizes, b)..Offset(sizes, b) + sizes[b]] == blocks[b].data[..sizes[b]]
    ensures Payload(blocks, sizes) == payload
  {
    hide Payload, Offset;
    var q := Payload(blocks, sizes);
    forall at: nat | at < |payload| ensures q[at] == payload[at] {
      var b := BlockHolding(sizes, at, |sizes|);
      PayloadAt(blocks, sizes, b);
      var (from, to) := (Offset(sizes, b), Offset(sizes, b) + sizes[b]);
      assert q[from..to][at - from] == payload[from..to][at - from];
    }
  }
}
