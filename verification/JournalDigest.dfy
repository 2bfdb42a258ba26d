/**
 * What the decoder's rolling digest can tell apart. PipelineDecoder::journal_digest promises a different value for any
 * other stream of frames. The digest absorbs frames without their lengths and the parser ignores what follows a frame's
 * declared payload, so the promise holds among streams of frames that end where they say, and fails beyond them.
 */
module JournalDigest {
  import opened Bits
  import BitStrings
  import opened LittleEndian
  import opened Concatenation
  import opened Wrappers
  import opened ResumeFormat
  import opened Bitmaps
  import opened PipelineDecoder
  import Frames
  import Crc32c

  /** The digest's input is the accepted frames' bytes, end to end. */
  lemma {:induction false} DigestInput(c: Codec, p: Params, frames: seq<seq<byte>>)
    ensures DecodeAll(c, p, frames).journal == Concat(AcceptedFrames(c, p, frames))
    decreases |frames|
  {
    hide Accept, Acceptable, Concat;
    if |frames| == 0 {
      assert Concat([]) == [] by { NothingJoined(); }
    } else {
      var k := |frames| - 1;
      DigestInput(c, p, frames[..k]);
      AcceptValid(c, p, DecodeAll(c, p, frames[..k]), frames[k]);
      var prior := AcceptedFrames(c, p, frames[..k]);
      if Acceptable(c, p, frames[k]) {
        ConcatSnoc(prior, frames[k]);
      } else {
        assert prior + [] == prior;
      }
    }
  }

  lemma NothingJoined()
    ensures Concat([]) == []
  {}

  // ----- lists of accepted frames

  predicate AllAcceptable(c: Codec, p: Params, frames: seq<seq<byte>>) {
    forall i :: 0 <= i < |frames| ==> Acceptable(c, p, frames[i])
  }

  lemma {:induction false} AcceptedAll(c: Codec, p: Params, frames: seq<seq<byte>>)
    requires AllAcceptable(c, p, frames)
    ensures AcceptedFrames(c, p, frames) == frames
    decreases |frames|
  {
    hide Acceptable;
    if |frames| > 0 {
      var k := |frames| - 1;
      AcceptedAll(c, p, frames[..k]);
      assert frames == frames[..k] + [frames[k]];
    }
  }

  /** A stream of acceptable frames is accepted whole, and the digest's input is their bytes. */
  lemma AcceptedWhole(c: Codec, p: Params, frames: seq<seq<byte>>)
    requires AllAcceptable(c, p, frames)
    ensures AcceptedFrames(c, p, frames) == frames && DecodeAll(c, p, frames).journal == Concat(frames)
  {
    AcceptedAll(c, p, frames);
    DigestInput(c, p, frames);
  }

  lemma AcceptableLength(c: Codec, p: Params, frame: seq<byte>)
    requires Acceptable(c, p, frame)
    ensures |frame| >= Frames.FRAME_HEADER_SIZE && |frame| >= Frames.FRAME_HEADER_SIZE + U16(frame[40..42])
  {}

  lemma TailAccepted(c: Codec, p: Params, frame: seq<byte>, tail: seq<byte>)
    requires Acceptable(c, p, frame)
    ensures Acceptable(c, p, frame + tail)
  {
    hide Frames.ParseFrame;
    Frames.TailIgnored(c.mac, frame, tail);
  }

  // ----- when frames end where they say

  /** The frame has no bytes after its declared payload: what Frame::from_bytes could check and does not. */
  predicate Whole(frame: seq<byte>) {
    |frame| >= Frames.FRAME_HEADER_SIZE && |frame| == Frames.FRAME_HEADER_SIZE + U16(frame[40..42])
  }

  /** Whole frames can be told apart end to end: each one's header says where the next begins. */
  lemma {:induction false} WholeFramesApart(x: seq<seq<byte>>, y: seq<seq<byte>>)
    requires forall f :: f in x || f in y ==> Whole(f)
    requires Concat(x) == Concat(y)
    ensures x == y
    decreases |x|
  {
    hide Concat, U16;
    if |x| > 0 {
      ConcatFront(x);
      assert Whole(x[0]);
    }
    if |y| > 0 {
      ConcatFront(y);
      assert Whole(y[0]);
    }
    NothingJoined();
    if |x| > 0 && |y| > 0 {
      FirstFrameApart(x[0], Concat(x[1..]), y[0], Concat(y[1..]));
      WholeFramesApart(x[1..], y[1..]);
      assert x == [x[0]] + x[1..] && y == [y[0]] + y[1..];
    }
  }

  lemma FirstFrameApart(f: seq<byte>, u: seq<byte>, g: seq<byte>, v: seq<byte>)
    requires Whole(f) && Whole(g) && f + u == g + v
    ensures f == g && u == v
  {
    hide U16;
    var w := f + u;
    assert f[40..42] == w[40..42] && g[40..42] == (g + v)[40..42];
    assert f == w[..|f|] && g == (g + v)[..|g|] && u == w[|f|..] && v == (g + v)[|g|..];
  }

  /** The promise kept: among streams of whole frames, barring a collision, equal digests mean equal accepted frames. */
  lemma DigestTellsApart(c: Codec, p: Params, x: seq<seq<byte>>, y: seq<seq<byte>>)
    requires forall f :: f in AcceptedFrames(c, p, x) || f in AcceptedFrames(c, p, y) ==> Whole(f)
    requires var (a, b) := (DecodeAll(c, p, x).journal, DecodeAll(c, p, y).journal); c.digest(a) == c.digest(b) ==> a == b
    ensures c.digest(DecodeAll(c, p, x).journal) == c.digest(DecodeAll(c, p, y).journal)
      <==> AcceptedFrames(c, p, x) == AcceptedFrames(c, p, y)
  {
    hide Whole, Concat;
    DigestInput(c, p, x);
    DigestInput(c, p, y);
    if DecodeAll(c, p, x).journal == DecodeAll(c, p, y).journal {
      WholeFramesApart(AcceptedFrames(c, p, x), AcceptedFrames(c, p, y));
    }
  }

  // ----- when they need not

  /** The list with its i-th and next frame glued into one. */
  function Glued(frames: seq<seq<byte>>, i: nat): seq<seq<byte>>
    requires i + 1 < |frames|
  {
    frames[..i] + [frames[i] + frames[i + 1]] + frames[i + 2..]
  }

  lemma GluedBytes(frames: seq<seq<byte>>, i: nat)
    requires i + 1 < |frames|
    ensures Concat(Glued(frames, i)) == Concat(frames)
  {
    hide Concat;
    var (front, a, b, back) := (frames[..i], frames[i], frames[i + 1], frames[i + 2..]);
    ConcatAppend(front + [a + b], back);
    ConcatSnoc(front, a + b);
    assert frames == front + [a] + [b] + back;
    ConcatAppend(front + [a] + [b], back);
    ConcatSnoc(front + [a], b);
    ConcatSnoc(front, a);
  }

  /** The promise broken, everywhere: glue any two neighbours of any stream, and the result is another stream, accepted
      whole, with the same digest. */
  lemma GluedFrames(c: Codec, p: Params, x: seq<seq<byte>>, i: nat)
    requires i + 1 < |AcceptedFrames(c, p, x)|
    ensures var y := Glued(AcceptedFrames(c, p, x), i);
      && AcceptedFrames(c, p, y) == y && y != AcceptedFrames(c, p, x)
      && DecodeAll(c, p, y).journal == DecodeAll(c, p, x).journal
  {
    hide Acceptable, Accept, DecodeAll, Concat, AcceptedFrames;
    var frames := AcceptedFrames(c, p, x);
    var y := Glued(frames, i);
    ReplayReproduces(c, p, x);
    TailAccepted(c, p, frames[i], frames[i + 1]);
    assert |y| == |frames| - 1;
    AcceptedWhole(c, p, y);
    GluedBytes(frames, i);
    DigestInput(c, p, x);
  }

  /** No other list of acceptable frames has these bytes: there is no frame, or a single one that cannot be cut in two
      acceptable frames. */
  predicate Unmistakable(c: Codec, p: Params, frames: seq<seq<byte>>) {
    || |frames| == 0
    || (|frames| == 1 && forall k {:trigger frames[0][..k]} :: 0 < k < |frames[0]| ==> !(Acceptable(c, p, frames[0][..k]) && Acceptable(c, p, frames[0][k..])))
  }

  /** A single whole frame cannot be cut. */
  lemma WholeUncut(c: Codec, p: Params, frame: seq<byte>)
    requires Whole(frame)
    ensures Unmistakable(c, p, [frame])
  {
    hide Acceptable, U16;
    forall k | 0 < k < |frame| ensures !Acceptable(c, p, frame[..k]) {
      if k >= Frames.FRAME_HEADER_SIZE {
        assert frame[..k][40..42] == frame[40..42];
      }
      if Acceptable(c, p, frame[..k]) {
        AcceptableLength(c, p, frame[..k]);
      }
    }
  }

  /** Several acceptable frames can be cut after the first: what follows parses too. */
  lemma SeveralCut(c: Codec, p: Params, frames: seq<seq<byte>>)
    requires AllAcceptable(c, p, frames) && |frames| > 1
    ensures var (f, k) := (Concat(frames), |frames[0]|);
      0 < k < |f| && f[..k] == frames[0] && Acceptable(c, p, f[..k]) && Acceptable(c, p, f[k..])
  {
    hide Acceptable, Concat, U16;
    ConcatFront(frames);
    ConcatFront(frames[1..]);
    AcceptableLength(c, p, frames[0]);
    AcceptableLength(c, p, frames[1]);
    TailAccepted(c, p, frames[1], Concat(frames[1..][1..]));
    assert Concat(frames)[|frames[0]|..] == Concat(frames[1..]);
  }

  lemma OnlyList(c: Codec, p: Params, frames: seq<seq<byte>>, other: seq<seq<byte>>)
    requires AllAcceptable(c, p, frames) && AllAcceptable(c, p, other)
    requires Unmistakable(c, p, frames) && Concat(frames) == Concat(other)
    ensures other == frames
  {
    hide Acceptable, Concat, U16;
    NothingJoined();
    if |other| > 0 {
      ConcatFront(other);
      AcceptableLength(c, p, other[0]);
      assert |Concat(other)| >= |other[0]| > 0;
    }
    if |frames| == 1 {
      assert frames == [frames[0]];
      ConcatOne(frames[0]);
      AcceptableLength(c, p, frames[0]);
      if |other| > 1 {
        SeveralCut(c, p, other);
      } else if |other| == 1 {
        assert other == [other[0]];
        ConcatOne(other[0]);
      }
    }
  }

  /** When the promise holds for a stream against every other one: exactly when it is unmistakable. */
  lemma OnlyStream(c: Codec, p: Params, x: seq<seq<byte>>)
    ensures (forall y :: DecodeAll(c, p, y).journal == DecodeAll(c, p, x).journal ==> AcceptedFrames(c, p, y) == AcceptedFrames(c, p, x))
      <==> Unmistakable(c, p, AcceptedFrames(c, p, x))
  {
    hide Acceptable, Accept, DecodeAll, Concat, AcceptedFrames;
    var frames := AcceptedFrames(c, p, x);
    ReplayReproduces(c, p, x);
    DigestInput(c, p, x);
    if Unmistakable(c, p, frames) {
      forall y | DecodeAll(c, p, y).journal == DecodeAll(c, p, x).journal ensures AcceptedFrames(c, p, y) == frames {
        ReplayReproduces(c, p, y);
        DigestInput(c, p, y);
        OnlyList(c, p, frames, AcceptedFrames(c, p, y));
      }
    } else if |frames| > 1 {
      GluedFrames(c, p, x, 0);
    } else {
      var f := frames[0];
      assert frames == [f];
      var k :| 0 < k < |f| && Acceptable(c, p, f[..k]) && Acceptable(c, p, f[k..]);
      var y := [f[..k], f[k..]];
      AcceptedWhole(c, p, y);
      CutBytes(f, k);
    }
  }

  lemma CutBytes(f: seq<byte>, k: nat)
    requires k <= |f|
    ensures Concat([f[..k], f[k..]]) == Concat([f])
  {
    ConcatOne(f);
    ConcatOne(f[..k]);
    ConcatSnoc([f[..k]], f[k..]);
    assert [f[..k]] + [f[k..]] == [f[..k], f[k..]];
  }

  // ----- a concrete instance

  function SamplePayload(): seq<byte> {
    [1, 2, 3, 4, 5]
  }

  /** A repair frame of block 0 for the all-zero session, under a MAC that is always zero. */
  function SampleFrame(symbol: byte): (frame: seq<byte>)
    ensures |frame| == 51
  {
    Frames.MAGIC + [Frames.VERSION, Frames.TYPE_REPAIR, 0, 0] + Zeros(16) + Zeros(8) + Zeros(4) + [symbol, 0, 0, 0] + [5, 0]
      + LeBytes(Crc32c.Digest(SamplePayload()), 4) + SamplePayload()
  }

  function SampleCodec(): Codec {
    Codec(_ => Zeros(8), _ => Zeros(32), (_, _) => None)
  }

  function SampleParams(): Params {
    Params(Zeros(16), [1], 8, Zeros(32))
  }

  lemma SampleParses(symbol: byte)
    ensures Frames.ParseFrame(SampleCodec().mac, SampleFrame(symbol)) ==
      Frames.Ok(Frames.Frame(Frames.TYPE_REPAIR, Zeros(16), 0, symbol, SamplePayload()))
    ensures Acceptable(SampleCodec(), SampleParams(), SampleFrame(symbol))
  {
    hide Crc32c.Digest, LeBytes, U32, U16;
    var f := SampleFrame(symbol);
    var crc := Crc32c.Digest(SamplePayload());
    Crc32c.DigestIsWord(SamplePayload());
    U32RoundTrip(crc);
    assert f[0..4] == Frames.MAGIC && f[4] == 1 && f[5] == 1;
    assert f[6..8] == [0, 0] && f[8..24] == Zeros(16) && f[24..32] == Zeros(8);
    assert f[32..36] == [0, 0, 0, 0] && f[36..40] == [symbol, 0, 0, 0] && f[40..42] == [5, 0];
    assert f[42..46] == LeBytes(crc, 4) && f[46..51] == SamplePayload();
    SmallWords(0);
    SmallWords(5);
    SmallWords(symbol);
  }

  lemma SmallWords(v: byte)
    ensures U16([v, 0]) == v && U32([v, 0, 0, 0]) == v
  {
    assert [v, 0][1..] == [0] && [v, 0, 0, 0][1..] == [0, 0, 0];
    assert [0, 0, 0][1..] == [0, 0] && [0, 0][1..] == [0] && [0][1..] == [];
    var none: seq<byte> := [0];
    assert Le(none) == 0;
    assert Le([0, 0]) == 0;
    assert Le([0, 0, 0]) == 0;
  }

  /** The promise fails: two streams of accepted frames leave different decoders with the same digest. */
  lemma DigestRepeats() returns (c: Codec, p: Params, x: seq<seq<byte>>, y: seq<seq<byte>>)
    ensures c.Valid() && p.Valid() && AcceptedFrames(c, p, x) == x && AcceptedFrames(c, p, y) == y
    ensures x != y && DecodeAll(c, p, x).held != DecodeAll(c, p, y).held
    ensures DecodeAll(c, p, x).journal == DecodeAll(c, p, y).journal
  {
    hide *;
    c, p := SampleCodec(), SampleParams();
    x, y := [SampleFrame(0), SampleFrame(1)], [SampleFrame(0) + SampleFrame(1)];
    SampleParses(0);
    SampleParses(1);
    GluedPair(c, p, SampleFrame(0), SampleFrame(1));
    SampleHeld();
    SampleValid();
  }

  lemma GluedPair(c: Codec, p: Params, a: seq<byte>, b: seq<byte>)
    requires Acceptable(c, p, a) && Acceptable(c, p, b)
    ensures AcceptedFrames(c, p, [a, b]) == [a, b] && AcceptedFrames(c, p, [a + b]) == [a + b]
    ensures DecodeAll(c, p, [a, b]).journal == DecodeAll(c, p, [a + b]).journal
  {
    hide Acceptable, AcceptedFrames, DecodeAll, Concat;
    AcceptedWhole(c, p, [a, b]);
    GluedFrames(c, p, [a, b], 0);
    assert Glued([a, b], 0) == [a + b];
  }

  lemma SampleValid()
    ensures SampleCodec().Valid() && SampleParams().Valid()
    ensures SampleFrame(0) != [] && SampleFrame(1) != []
  {}

  lemma NothingHeld(c: Codec, p: Params)
    ensures DecodeAll(c, p, []) == Fresh(p)
  {}

  lemma HeldAfter(c: Codec, p: Params, s: State, frame: seq<byte>)
    requires s.Valid(p) && Acceptable(c, p, frame)
    ensures var f := Frames.ParseFrame(c.mac, frame).frame;
      f.blockIndex < |s.held| && Accept(c, p, s, frame).0.held == MarkHeld(p, s, f.blockIndex, f.symbolIndex).held
  {
    hide Frames.ParseFrame, MarkHeld;
  }

  /** After the two sample frames symbol 1 is held; after the two glued together it is not. */
  lemma SampleHeld()
    ensures var (c, p, a, b) := (SampleCodec(), SampleParams(), SampleFrame(0), SampleFrame(1));
      DecodeAll(c, p, [a, b]).held != DecodeAll(c, p, [a + b]).held
  {
    hide SampleFrame, SampleCodec, Frames.ParseFrame, Accept, DecodeAll, Shaped, PopCount, SetSymbol, Acceptable, Holds;
    var (c, p, a, b) := (SampleCodec(), SampleParams(), SampleFrame(0), SampleFrame(1));
    SampleParses(0);
    SampleParses(1);
    Frames.TailIgnored(c.mac, a, b);
    TailAccepted(c, p, a, b);
    DecodeSnoc(c, p, [], a);
    DecodeSnoc(c, p, [], a + b);
    DecodeSnoc(c, p, [a], b);
    assert [] + [a] == [a] && [] + [a + b] == [a + b] && [a] + [b] == [a, b];
    NothingHeld(c, p);
    HeldAfter(c, p, DecodeAll(c, p, []), a);
    HeldAfter(c, p, DecodeAll(c, p, []), a + b);
    HeldAfter(c, p, DecodeAll(c, p, [a]), b);
    var none := Fresh(p).held[0];
    assert none == Zeros(1);
    assert !Holds(none, 0) && !Holds(none, 1) by { NoneHeld(); }
    SetSymbolHolds(none, 0, 1);
    var one := SetSymbol(none, 0);
    assert DecodeAll(c, p, [a + b]).held[0] == one && DecodeAll(c, p, [a]).held[0] == one;
    SetSymbolHolds(one, 1, 1);
    assert DecodeAll(c, p, [a, b]).held[0] == SetSymbol(one, 1);
  }

  lemma NoneHeld()
    ensures !Holds(Zeros(1), 0) && !Holds(Zeros(1), 1)
  {
    assert BitStrings.ShiftRight(0, 0) == 0 && BitStrings.ShiftRight(0, 1) == 0;
  }
}
