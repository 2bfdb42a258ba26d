/**
 * The order in which runRecv of cli/internal/cli/cli.go calls the receiver's procedures: restore, then one frame after
 * another until the input ends or something fails, then the last save only if nothing failed. Its executions are runs of the
 * crash-safety model.
 */
module Reception {
  import opened Wrappers
  import opened Bits
  import opened LittleEndian
  import opened Concatenation
  import opened ResumeFormat
  import opened PipelineDecoder
  import opened JournalStore
  import opened CrashSafety
  import opened Receiver

  /** What the input yields next: the operator's interrupt, a file that cannot be read, or a frame. reached and outcome are
      how far the writes it causes get. */
  datatype Arrival = Interrupted | Unreadable | Arrived(frame: seq<byte>, reached: nat, outcome: SaveOutcome)

  datatype Ending = NotStarted | Aborted | Saved(stopped: bool)

  predicate Plausible(arrivals: seq<Arrival>) {
    forall i :: 0 <= i < |arrivals| && arrivals[i].Arrived? ==> arrivals[i].reached <= |Record(arrivals[i].frame)|
  }

  function FramesOf(arrivals: seq<Arrival>): seq<seq<byte>> {
    if |arrivals| == 0 then []
    else FramesOf(arrivals[..|arrivals| - 1]) + (if arrivals[|arrivals| - 1].Arrived? then [arrivals[|arrivals| - 1].frame] else [])
  }

  /** The journal bytes the arrivals could add. */
  function Volume(arrivals: seq<Arrival>): nat {
    if |arrivals| == 0 then 0
    else (if arrivals[0].Arrived? then |Record(arrivals[0].frame)| else 0) + Volume(arrivals[1..])
  }

  lemma VolumeFrom(arrivals: seq<Arrival>, i: nat)
    requires i < |arrivals| && Plausible(arrivals)
    ensures arrivals[i].Arrived? ==>
      arrivals[i].reached <= |Record(arrivals[i].frame)| && arrivals[i].reached + Volume(arrivals[i + 1..]) <= Volume(arrivals[i..])
  {
    hide Record;
    assert arrivals[i..][1..] == arrivals[i + 1..];
  }

  function Exited(w: World): World {
    w.(alive := false, phase := Stopped)
  }

  lemma ExitIsStep(c: Codec, p: Params, w: World)
    requires w.alive
    ensures Steps(c, p, [w, Exited(w)])
  {
    hide Restart, TakeFrame;
  }

  lemma RestartIsStep(c: Codec, p: Params, d: Disk, w: World, w': World)
    requires Restart(c, p, World(d, false, Stopped, Fresh(p), 0, []), w') && w'.alive
    requires w.disk == d && !w.alive
    ensures Restart(c, p, w, w') && Steps(c, p, [w, w'])
    ensures w'.written <= |d.journal|
  {
    RestoredWithin(c, p, d);
    hide Restore, TakeFrame;
  }

  lemma RefusalIsStep(c: Codec, p: Params, w: World)
    requires !w.alive && Restore(c, p, w.disk).Refused?
    ensures Steps(c, p, [w, w])
  {
    hide Restore, TakeFrame;
  }

  lemma RestoredWithin(c: Codec, p: Params, d: Disk)
    ensures Restore(c, p, d).Restored? ==> Restore(c, p, d).covered <= |d.journal|
  {
    hide Parse, SplitRecords, DecodeAll, VerifyResume, Acceptable;
  }

  lemma OneMoreArrival(c: Codec, p: Params, arrivals: seq<Arrival>, i: nat)
    requires i < |arrivals| && arrivals[i].Arrived?
    ensures FramesOf(arrivals[..i + 1]) == FramesOf(arrivals[..i]) + [arrivals[i].frame]
    ensures var frame := arrivals[i].frame;
      AcceptedFrames(c, p, FramesOf(arrivals[..i + 1])) ==
        AcceptedFrames(c, p, FramesOf(arrivals[..i])) + if Acceptable(c, p, frame) then [frame] else []
  {
    hide Acceptable;
    assert arrivals[..i + 1][..i] == arrivals[..i];
    var frames := FramesOf(arrivals[..i]);
    assert (frames + [arrivals[i].frame])[..|frames|] == frames;
  }

  // ----- where the input ends

  /** How many frames this process has accepted before arrival k, if it had accepted base before the first. */
  function AcceptedBefore(c: Codec, p: Params, base: nat, arrivals: seq<Arrival>, k: nat): nat
    requires k <= |arrivals|
  {
    base + |AcceptedFrames(c, p, FramesOf(arrivals[..k]))|
  }

  /** Arrival a, met after count accepted frames, is an error: a file that cannot be read, or an acceptable frame that is not
      recorded. A frame the decoder refuses is neither an error nor an end. */
  predicate Breaks(c: Codec, p: Params, saveEvery: nat, count: nat, a: Arrival)
    requires saveEvery > 0
  {
    match a
    case Interrupted => false
    case Unreadable => true
    case Arrived(frame, reached, outcome) =>
      Acceptable(c, p, frame) && !Recorded(frame, reached, outcome, count + 1, saveEvery)
  }

  /** Arrival a is an ordinary end: the operator's interrupt, or the recorded frame that reaches the limit. */
  predicate Stops(c: Codec, p: Params, saveEvery: nat, stopAfter: nat, count: nat, a: Arrival)
    requires saveEvery > 0
  {
    match a
    case Interrupted => true
    case Unreadable => false
    case Arrived(frame, reached, outcome) =>
      && Acceptable(c, p, frame) && Recorded(frame, reached, outcome, count + 1, saveEvery)
      && stopAfter > 0 && count + 1 >= stopAfter
  }

  predicate BreaksAt(c: Codec, p: Params, saveEvery: nat, base: nat, arrivals: seq<Arrival>, k: nat)
    requires saveEvery > 0 && k < |arrivals|
  {
    Breaks(c, p, saveEvery, AcceptedBefore(c, p, base, arrivals, k), arrivals[k])
  }

  predicate StopsAt(c: Codec, p: Params, saveEvery: nat, stopAfter: nat, base: nat, arrivals: seq<Arrival>, k: nat)
    requires saveEvery > 0 && k < |arrivals|
  {
    Stops(c, p, saveEvery, stopAfter, AcceptedBefore(c, p, base, arrivals, k), arrivals[k])
  }

  /** Nothing before arrival k ends the input. */
  predicate Passes(c: Codec, p: Params, saveEvery: nat, stopAfter: nat, base: nat, arrivals: seq<Arrival>, k: nat)
    requires saveEvery > 0 && k <= |arrivals|
  {
    forall j :: 0 <= j < k ==>
      !BreaksAt(c, p, saveEvery, base, arrivals, j) && !StopsAt(c, p, saveEvery, stopAfter, base, arrivals, j)
  }

  /** The input fails: there is none, or an error is met before any ordinary end. */
  ghost predicate InputFails(c: Codec, p: Params, saveEvery: nat, stopAfter: nat, base: nat, arrivals: seq<Arrival>)
    requires saveEvery > 0
  {
    || |arrivals| == 0
    || exists k :: 0 <= k < |arrivals| && Passes(c, p, saveEvery, stopAfter, base, arrivals, k) && BreaksAt(c, p, saveEvery, base, arrivals, k)
  }

  /** The input is stopped: an ordinary end is met before any error. */
  ghost predicate InputStops(c: Codec, p: Params, saveEvery: nat, stopAfter: nat, base: nat, arrivals: seq<Arrival>)
    requires saveEvery > 0
  {
    exists k :: 0 <= k < |arrivals| && Passes(c, p, saveEvery, stopAfter, base, arrivals, k) && StopsAt(c, p, saveEvery, stopAfter, base, arrivals, k)
  }

  lemma NeverBoth(c: Codec, p: Params, saveEvery: nat, stopAfter: nat, count: nat, a: Arrival)
    requires saveEvery > 0
    ensures !(Breaks(c, p, saveEvery, count, a) && Stops(c, p, saveEvery, stopAfter, count, a))
  {
    hide Acceptable, Recorded;
  }

  /** The first arrival that ends the input decides how it ends. */
  lemma EndFound(c: Codec, p: Params, saveEvery: nat, stopAfter: nat, base: nat, arrivals: seq<Arrival>, k: nat)
    requires saveEvery > 0 && k <= |arrivals| && Passes(c, p, saveEvery, stopAfter, base, arrivals, k)
    ensures k == |arrivals| > 0 ==>
      !InputFails(c, p, saveEvery, stopAfter, base, arrivals) && !InputStops(c, p, saveEvery, stopAfter, base, arrivals)
    ensures k < |arrivals| && BreaksAt(c, p, saveEvery, base, arrivals, k) ==>
      InputFails(c, p, saveEvery, stopAfter, base, arrivals) && !InputStops(c, p, saveEvery, stopAfter, base, arrivals)
    ensures k < |arrivals| && StopsAt(c, p, saveEvery, stopAfter, base, arrivals, k) ==>
      !InputFails(c, p, saveEvery, stopAfter, base, arrivals) && InputStops(c, p, saveEvery, stopAfter, base, arrivals)
  {
    hide Breaks, Stops, AcceptedBefore;
    if k < |arrivals| {
      NeverBoth(c, p, saveEvery, stopAfter, AcceptedBefore(c, p, base, arrivals, k), arrivals[k]);
    }
  }

  lemma ArrivalHandled(c: Codec, p: Params, saveEvery: nat, stopAfter: nat, base: nat, arrivals: seq<Arrival>, k: nat)
    requires saveEvery > 0 && k < |arrivals| && Passes(c, p, saveEvery, stopAfter, base, arrivals, k)
    ensures var a, n := arrivals[k], AcceptedBefore(c, p, base, arrivals, k);
      if Breaks(c, p, saveEvery, n, a) then
        InputFails(c, p, saveEvery, stopAfter, base, arrivals) && !InputStops(c, p, saveEvery, stopAfter, base, arrivals)
      else if Stops(c, p, saveEvery, stopAfter, n, a) then
        !InputFails(c, p, saveEvery, stopAfter, base, arrivals) && InputStops(c, p, saveEvery, stopAfter, base, arrivals)
      else Passes(c, p, saveEvery, stopAfter, base, arrivals, k + 1)
    ensures arrivals[k].Arrived? ==>
      var f := arrivals[k].frame;
      && AcceptedBefore(c, p, base, arrivals, k + 1) == AcceptedBefore(c, p, base, arrivals, k) + (if Acceptable(c, p, f) then 1 else 0)
      && |FramesOf(arrivals[..k + 1])| == |FramesOf(arrivals[..k])| + 1
  {
    hide Breaks, Stops, Acceptable, FramesOf, AcceptedFrames, InputFails, InputStops;
    EndFound(c, p, saveEvery, stopAfter, base, arrivals, k);
    if arrivals[k].Arrived? {
      OneMoreArrival(c, p, arrivals, k);
    }
  }

  /** receiveFromFrames: hands the input over frame by frame. An interrupt or the frame limit is an ordinary end; an empty
      input, a file that cannot be read, or a frame whose recording fails is not. Refused frames are counted and passed
      over. */
  method ReceiveFromFrames(sink: FrameSink, arrivals: seq<Arrival>) returns (stopped: bool, failed: bool, ghost seen: nat, ghost ws: seq<World>)
    requires sink.Valid() && sink.running
    requires Plausible(arrivals) && IsU64(sink.store.written + Volume(arrivals))
    modifies sink`accepted, sink`rejected, sink`log, sink`running, sink.store, sink.store.files, sink.dec
    ensures sink.Valid() && failed == !sink.running
    ensures Steps(sink.dec.c, sink.dec.p, ws) && ws[0] == old(sink.Now()) && ws[|ws| - 1] == sink.Now()
    ensures failed <==> InputFails(sink.dec.c, sink.dec.p, sink.saveEvery, sink.stopAfter, old(sink.accepted), arrivals)
    ensures stopped <==> InputStops(sink.dec.c, sink.dec.p, sink.saveEvery, sink.stopAfter, old(sink.accepted), arrivals)
    ensures seen <= |arrivals| && (!stopped && !failed ==> seen == |arrivals|)
    ensures !failed ==> sink.log == old(sink.log) + AcceptedFrames(sink.dec.c, sink.dec.p, FramesOf(arrivals[..seen]))
    ensures !failed ==> sink.accepted == AcceptedBefore(sink.dec.c, sink.dec.p, old(sink.accepted), arrivals, seen)
    ensures !failed ==> sink.accepted + sink.rejected == old(sink.accepted + sink.rejected) + |FramesOf(arrivals[..seen])|
    ensures stopped ==>
      || (seen < |arrivals| && arrivals[seen].Interrupted?)
      || (seen > 0 && arrivals[seen - 1].Arrived? && sink.stopAfter > 0 && sink.accepted >= sink.stopAfter)
  {
    hide Restore, Restart, Accept, DecodeAll, Acceptable, ResumeState, Record, Recorded, Next, TakeFrame, AcceptedFrames, FramesOf, SplitRecords,
      Passes, InputFails, InputStops, BreaksAt, StopsAt, AcceptedBefore, Volume, Plausible;
    var c, p := sink.dec.c, sink.dec.p;
    ghost var every, limit, base := sink.saveEvery, sink.stopAfter, sink.accepted;
    stopped, failed, seen := false, false, 0;
    ws := [sink.Now()];
    NothingSeen(c, p, every, limit, base, arrivals);
    if |arrivals| == 0 {
      FailIsStep(c, p, sink.Now());
      ws := [sink.Now(), sink.Now().(phase := Stopped)];
      sink.running := false;
      return false, true, 0, ws;
    }
    for i := 0 to |arrivals|
      invariant seen == i && sink.Valid() && sink.running
      invariant Steps(c, p, ws) && ws[0] == old(sink.Now()) && ws[|ws| - 1] == sink.Now()
      invariant sink.log == old(sink.log) + AcceptedFrames(c, p, FramesOf(arrivals[..i]))
      invariant IsU64(sink.store.written + Volume(arrivals[i..]))
      invariant Passes(c, p, every, limit, base, arrivals, i)
      invariant sink.accepted == AcceptedBefore(c, p, base, arrivals, i)
      invariant sink.accepted + sink.rejected == old(sink.accepted + sink.rejected) + |FramesOf(arrivals[..i])|
    {
      ArrivalHandled(c, p, every, limit, base, arrivals, i);
      match arrivals[i]
      case Interrupted =>
        return true, false, seen, ws;
      case Unreadable =>
        FailIsStep(c, p, sink.Now());
        StepsJoin(c, p, ws, [sink.Now(), sink.Now().(phase := Stopped)]);
        ws := ws + [sink.Now().(phase := Stopped)];
        sink.running := false;
        return false, true, seen, ws;
      case Arrived(frame, reached, outcome) =>
        VolumeFrom(arrivals, i);
        var result, more := sink.Apply(frame, reached, outcome);
        StepsJoin(c, p, ws, more);
        ws := ws + more[1..];
        if result == Failed {
          return false, true, seen, ws;
        }
        OneMoreArrival(c, p, arrivals, i);
        seen := i + 1;
        if result == FrameLimit {
          return true, false, seen, ws;
        }
    }
    EndFound(c, p, every, limit, base, arrivals, |arrivals|);
    assert arrivals[..|arrivals|] == arrivals;
  }

  /** One receiving process, from its restart to its exit. The last save is attempted unless the input fails. */
  method Receive(files: Files, c: Codec, p: Params, saveEvery: nat, stopAfter: nat, arrivals: seq<Arrival>, last: SaveOutcome, ghost w: World)
    returns (ending: Ending, ghost seen: nat, ghost ws: seq<World>)
    requires c.Valid() && p.Valid() && saveEvery > 0 && files.View().Valid()
    requires w.disk == files.View() && !w.alive && w.phase == Stopped
    requires Plausible(arrivals) && IsU64(|files.journal| + Volume(arrivals))
    modifies files
    ensures Steps(c, p, ws) && ws[0] == w
    ensures !ws[|ws| - 1].alive && ws[|ws| - 1].phase == Stopped && ws[|ws| - 1].disk == files.View()
    ensures ending == NotStarted <==> Restore(c, p, w.disk).Refused?
    ensures ending == NotStarted ==> files.View() == w.disk
    ensures ending != NotStarted ==> |ws| > 1 && ws[1].alive && Restart(c, p, w, ws[1])
    ensures ending.Saved? <==>
      Restore(c, p, w.disk).Restored? && !InputFails(c, p, saveEvery, stopAfter, 0, arrivals) && last == Completes
    ensures ending.Saved? ==> ending.stopped == InputStops(c, p, saveEvery, stopAfter, 0, arrivals)
    ensures seen <= |arrivals| && (ending == Saved(false) ==> seen == |arrivals|)
    ensures ending.Saved? ==> LeavesSaved(ws, ws[1].log + AcceptedFrames(c, p, FramesOf(arrivals[..seen])))
  {
    hide Restore, Restart, Accept, DecodeAll, Acceptable, ResumeState, Record, Next, TakeFrame, AcceptedFrames, FramesOf, SplitRecords, Volume,
      InputFails, InputStops;
    var store, dec, replayed, ok, log := RestoreProgress(files, c, p);
    if !ok {
      RefusalIsStep(c, p, w);
      return NotStarted, 0, [w, w];
    }
    ghost var w1 := World(files.View(), true, Receiving, dec.View(), store.written, log);
    RestartIsStep(c, p, w.disk, w, w1);
    var sink := new FrameSink(store, dec, saveEvery, stopAfter, log);
    var stopped, failed, n, taken := ReceiveFromFrames(sink, arrivals);
    seen := n;
    StepsJoin(c, p, [w, w1], taken);
    ws := [w, w1] + taken[1..];
    if !failed {
      var saved, more := sink.SaveProgress(last);
      StepsJoin(c, p, ws, more);
      ws := ws + more[1..];
      failed := !saved;
    }
    ExitIsStep(c, p, sink.Now());
    StepsJoin(c, p, ws, [sink.Now(), Exited(sink.Now())]);
    ws := ws + [Exited(sink.Now())];
    return if failed then Aborted else Saved(stopped), seen, ws;
  }

  /** The process ended with a completed save of the given frames. */
  predicate LeavesSaved(ws: seq<World>, frames: seq<seq<byte>>) {
    && |ws| > 3 && ReplaceIndex(ws[|ws| - 3], ws[|ws| - 2]) && ws[|ws| - 1] == Exited(ws[|ws| - 2])
    && ws[|ws| - 2].log == frames
  }

  lemma NothingSeen(c: Codec, p: Params, saveEvery: nat, stopAfter: nat, base: nat, arrivals: seq<Arrival>)
    requires saveEvery > 0
    ensures FramesOf(arrivals[..0]) == [] && AcceptedFrames(c, p, []) == [] && arrivals[0..] == arrivals
    ensures AcceptedBefore(c, p, base, arrivals, 0) == base
    ensures Passes(c, p, saveEvery, stopAfter, base, arrivals, 0)
    ensures |arrivals| == 0 ==>
      InputFails(c, p, saveEvery, stopAfter, base, arrivals) && !InputStops(c, p, saveEvery, stopAfter, base, arrivals)
  {
    hide BreaksAt, StopsAt;
  }

  // ----- what a process leaves for the next one

  lemma RunExtends(c: Codec, p: Params, run: seq<World>, ws: seq<World>)
    requires IsRun(c, p, run) && Steps(c, p, ws) && run[|run| - 1] == ws[0]
    ensures IsRun(c, p, run + ws[1..])
  {
    hide Next;
    StepsJoin(c, p, run, ws);
  }

  /** A process that starts from any reachable world and ends with a completed save: every world it passed through is
      reachable, and the next process restores all frames saved before, followed by all frames this one accepted. */
  lemma NextProcessContinues(c: Codec, p: Params, run: seq<World>, ws: seq<World>, frames: seq<seq<byte>>)
    requires c.Valid() && p.Valid() && IsRun(c, p, run) && Steps(c, p, ws) && run[|run| - 1] == ws[0]
    requires |ws| > 1 && ws[1].alive && Restart(c, p, ws[0], ws[1])
    requires LeavesSaved(ws, ws[1].log + frames)
    ensures IsRun(c, p, run + ws[1..])
    ensures var all := ws[0].disk.index.frames + frames;
      Restore(c, p, ws[|ws| - 1].disk) == Restored(DecodeAll(c, p, all), |Records(all)|, all)
  {
    hide Next, Restore, DecodeAll, Records, Taken, SavedIndex, IndexInv;
    RunExtends(c, p, run, ws);
    var whole := run + ws[1..];
    RestartRecovers(c, p, run, |run| - 1);
    var i := |run| + |ws| - 4;
    assert whole[i] == ws[|ws| - 3] && whole[i + 1] == ws[|ws| - 2];
    SaveCaptures(c, p, whole, i);
    Reachable(c, p, whole, i);
    assert ws[|ws| - 2].log == ws[|ws| - 3].log;
  }

  // ----- why the order matters

  lemma {:induction false} CutRecordBreaks(frames: seq<seq<byte>>, frame: seq<byte>, reached: nat)
    requires LegalSize(frame) && forall i :: 0 <= i < |frames| ==> LegalSize(frames[i])
    requires 0 < reached < |Record(frame)|
    ensures SplitRecords(Records(frames) + Record(frame)[..reached]).Broken?
    decreases |frames|
  {
    hide Record, SplitRecords, LegalSize;
    var tail := Record(frame)[..reached];
    if |frames| == 0 {
      SerializedNone(Record);
      assert Records(frames) + tail == tail;
      CutRecord(frame, reached);
    } else {
      SerializedFront(frames, Record);
      CutRecordBreaks(frames[1..], frame, reached);
      var rest := Records(frames[1..]) + tail;
      assert Records(frames) + tail == Record(frames[0]) + rest;
      OneRecord(frames[0], rest);
    }
  }

  lemma CutRecord(frame: seq<byte>, reached: nat)
    requires LegalSize(frame) && 0 < reached < |Record(frame)|
    ensures SplitRecords(Record(frame)[..reached]).Broken?
  {
    hide U32, LeBytes;
    var b := Record(frame)[..reached];
    U32RoundTrip(|frame|);
    if reached >= RECORD_PREFIX {
      assert b[..RECORD_PREFIX] == LeBytes(|frame|, RECORD_PREFIX);
    }
    SplitStep(b);
  }

  /** The disk after a save that followed an append of reached bytes. */
  function SavedAfter(c: Codec, p: Params, w: World, frame: seq<byte>, reached: nat, frames: seq<seq<byte>>): Disk
    requires w.decoder.Valid(p) && reached <= |Record(frame)| && AfterTake(c, p, w, frame, reached).decoder.Valid(p)
  {
    var t := AfterTake(c, p, w, frame, reached);
    AfterRename(AfterSync(t.disk), Version(Some(ResumeState(c, p, t.decoder, t.written).ToVec()), frames))
  }

  /** A save after an append that stopped short would leave an index that no restart accepts: it covers a cut record, or
      describes a frame the journal lacks. */
  lemma SaveAfterShortAppend(c: Codec, p: Params, w: World, frame: seq<byte>, reached: nat, frames: seq<seq<byte>>)
    requires c.Valid() && p.Valid() && Inv(c, p, w) && w.alive && w.phase == Receiving
    requires Acceptable(c, p, frame) && LegalSize(frame) && reached < |Record(frame)| && IsU64(w.written + reached)
    requires var j := w.decoder.journal; c.digest(j + frame) == c.digest(j) ==> j + frame == j
    ensures AfterTake(c, p, w, frame, reached).decoder.Valid(p)
    ensures Restore(c, p, SavedAfter(c, p, w, frame, reached, frames)) == Refused
  {
    hide Parse, VerifyResume, Acceptable, ResumeState, Accept, DecodeAll, Records, Record, SplitRecords, IndexInv, SavedIndex;
    AcceptValid(c, p, w.decoder, frame);
    var t := AfterTake(c, p, w, frame, reached);
    var file := ResumeState(c, p, t.decoder, t.written);
    ResumeStateAccepted(c, p, t.decoder, t.written);
    HeaderOf(c, p, t.decoder, t.written);
    SavedNonempty(c, file);
    var tail := Record(frame)[..reached];
    assert t.disk.journal == Records(w.log) + tail && t.written == |t.disk.journal|;
    assert t.disk.journal[..t.written] == t.disk.journal;
    if reached > 0 {
      CutRecordBreaks(w.log, frame, reached);
    } else {
      assert Records(w.log) + tail == Records(w.log);
      RecordsSplit(w.log);
      ExtraFrameMismatches(c, p, w.decoder, t.decoder, frame, t.written);
    }
  }

  lemma ExtraFrameMismatches(c: Codec, p: Params, s: State, t: State, frame: seq<byte>, n: nat)
    requires c.Valid() && p.Valid() && s.Valid(p) && t.Valid(p) && IsU64(n)
    requires t.journal == s.journal + frame && frame != []
    requires c.digest(s.journal + frame) == c.digest(s.journal) ==> s.journal + frame == s.journal
    ensures ResumeState(c, p, t, n).Valid(c.digest)
    ensures VerifyResume(c, p, s, ResumeState(c, p, t, n)) != Matches
  {
    ResumeStateValid(c, p, t, n);
    MatchIsExact(c, p, s, ResumeState(c, p, t, n));
    hide VerifyResume;
    assert ResumeState(c, p, t, n).header.journalDigest == c.digest(t.journal);
    assert |s.journal + frame| > |s.journal|;
  }
}
