/** Receiver progress over every run of appends, saves, crashes and restarts: frameSink.apply, saveProgress and
    restoreProgress of cli/internal/cli/cli.go on top of the store and the decoder. */
module CrashSafety {
  import opened Wrappers
  import opened Bits
  import opened Concatenation
  import opened LittleEndian
  import opened ResumeFormat
  import opened PipelineDecoder
  import opened JournalStore

  // ----- restoring

  datatype Restored = Restored(decoder: State, covered: nat, frames: seq<seq<byte>>) | Refused

  /** What restoreProgress makes of a state directory. */
  function Restore(c: Codec, p: Params, d: Disk): Restored {
    if d.index.bytes.None? || |d.index.bytes.value| == 0 then Restored(Fresh(p), 0, [])
    else match Parse(c.digest, d.index.bytes.value)
      case Err(_) => Refused
      case Ok(file) =>
        ParsedRewrites(c.digest, d.index.bytes.value);
        var limit := file.header.journalBytes;
        if file.header.sessionId != p.sessionId || limit > |d.journal| then Refused
        else match SplitRecords(d.journal[..limit])
          case Broken(_, _) => Refused
          case Frames(frames) =>
            if forall i :: 0 <= i < |frames| ==> Acceptable(c, p, frames[i]) then
              var s := DecodeAll(c, p, frames);
              if VerifyResume(c, p, s, file) == Matches then Restored(s, limit, frames) else Refused
            else Refused
  }

  /** The index written when the given frames had been taken and journalled. */
  function SavedIndex(c: Codec, p: Params, frames: seq<seq<byte>>): seq<byte> {
    ResumeState(c, p, DecodeAll(c, p, frames), |Records(frames)|).ToVec()
  }

  predicate Taken(c: Codec, p: Params, frames: seq<seq<byte>>) {
    forall i :: 0 <= i < |frames| ==> LegalSize(frames[i]) && Acceptable(c, p, frames[i])
  }

  /** An index that describes a durable prefix of the journal made of whole records. */
  predicate Describes(c: Codec, p: Params, d: Disk, v: Version) {
    && Taken(c, p, v.frames)
    && |Records(v.frames)| <= d.synced <= |d.journal| && IsU64(|Records(v.frames)|)
    && d.journal[..|Records(v.frames)|] == Records(v.frames)
    && (v.bytes.None? ==> v.frames == [])
    && (v.bytes.Some? ==> v.bytes.value == SavedIndex(c, p, v.frames))
  }

  /** A described index restores the decoder that was saved. */
  lemma DescribedRestores(c: Codec, p: Params, d: Disk)
    requires c.Valid() && p.Valid() && Describes(c, p, d, d.index)
    ensures Restore(c, p, d) == Restored(DecodeAll(c, p, d.index.frames), |Records(d.index.frames)|, d.index.frames)
  {
    hide Restore, Taken, SavedIndex, DecodeAll;
    if d.index.bytes.Some? {
      IndexRestores(c, p, d, d.index.frames);
    } else {
      RestoresExactly(c, p, d, Fresh(p), 0, []);
      NothingDecoded(c, p);
      SerializedNone(Record);
    }
  }

  lemma HeaderOf(c: Codec, p: Params, s: State, n: nat)
    requires s.Valid(p)
    ensures ResumeState(c, p, s, n).header.sessionId == p.sessionId && ResumeState(c, p, s, n).header.journalBytes == n
  {}

  lemma SavedNonempty(c: Codec, file: ResumeFile)
    requires file.Valid(c.digest)
    ensures |file.ToVec()| > 0
  {
    hide EntriesToVec;
    HeaderParses(c.digest, file.header, []);
  }

  // ----- what can be restored

  predicate NoIndex(d: Disk) {
    d.index.bytes.None? || |d.index.bytes.value| == 0
  }

  /** The journal starts with the records of the given frames, all of them acceptable, and the index is the one that a decoder
      of exactly these frames writes. */
  predicate IndexOf(c: Codec, p: Params, d: Disk, frames: seq<seq<byte>>) {
    && Taken(c, p, frames)
    && IsU64(|Records(frames)|) && |Records(frames)| <= |d.journal| && d.journal[..|Records(frames)|] == Records(frames)
    && d.index.bytes == Some(SavedIndex(c, p, frames))
  }

  lemma IndexRestores(c: Codec, p: Params, d: Disk, frames: seq<seq<byte>>)
    requires c.Valid() && p.Valid() && IndexOf(c, p, d, frames)
    ensures !NoIndex(d) && Restore(c, p, d) == Restored(DecodeAll(c, p, frames), |Records(frames)|, frames)
  {
    hide Parse, VerifyResume, Acceptable, ResumeState, Accept, DecodeAll;
    var s := DecodeAll(c, p, frames);
    var n := |Records(frames)|;
    ResumeStateAccepted(c, p, s, n);
    HeaderOf(c, p, s, n);
    SavedNonempty(c, ResumeState(c, p, s, n));
    RecordsSplit(frames);
  }

  lemma RestoredIndex(c: Codec, p: Params, d: Disk)
    requires c.Valid() && p.Valid() && !NoIndex(d) && Restore(c, p, d).Restored?
    ensures IndexOf(c, p, d, Restore(c, p, d).frames)
  {
    hide Parse, VerifyResume, Acceptable, ResumeState, Accept, DecodeAll, SplitRecords;
    var bytes := d.index.bytes.value;
    ParsedRewrites(c.digest, bytes);
    var file := Parse(c.digest, bytes).value;
    var covered := d.journal[..file.header.journalBytes];
    SplitExact(covered);
    var frames := SplitRecords(covered).frames;
    MatchIsOwn(c, p, DecodeAll(c, p, frames), file);
  }

  /** Restoring yields a given decoder, journal length and frame list exactly when there is no index and they are those of a
      fresh start, or the index and the journal are those of these frames. */
  lemma RestoresExactly(c: Codec, p: Params, d: Disk, s: State, n: nat, frames: seq<seq<byte>>)
    requires c.Valid() && p.Valid()
    ensures Restore(c, p, d) == Restored(s, n, frames) <==>
      if NoIndex(d) then s == Fresh(p) && n == 0 && frames == []
      else IndexOf(c, p, d, frames) && s == DecodeAll(c, p, frames) && n == |Records(frames)|
  {
    hide IndexOf, DecodeAll, Records;
    if !NoIndex(d) && Restore(c, p, d).Restored? {
      hide Restore;
      RestoredIndex(c, p, d);
      IndexRestores(c, p, d, Restore(c, p, d).frames);
    }
    if IndexOf(c, p, d, frames) {
      IndexRestores(c, p, d, frames);
    }
  }

  /** A restart is refused exactly when there is an index, and it is not the one that a decoder of the journal's leading frames
      writes; an index that does not parse is one such. */
  lemma RefusedExactly(c: Codec, p: Params, d: Disk)
    requires c.Valid() && p.Valid()
    ensures Restore(c, p, d).Refused? <==> !NoIndex(d) && forall frames :: !IndexOf(c, p, d, frames)
    ensures !NoIndex(d) && Parse(c.digest, d.index.bytes.value).Err? ==> Restore(c, p, d).Refused?
  {
    hide IndexOf, Parse, SplitRecords, DecodeAll, VerifyResume, Acceptable;
    if !NoIndex(d) && Restore(c, p, d).Restored? {
      RestoredIndex(c, p, d);
    }
    forall frames | IndexOf(c, p, d, frames)
      ensures Restore(c, p, d).Restored?
    {
      IndexRestores(c, p, d, frames);
    }
  }

  // ----- runs

  datatype Phase = Receiving | Saving(state: seq<byte>) | Stopped

  /** log is history: the frames taken since the journal was empty, in this process and those it resumed. */
  datatype World = World(disk: Disk, alive: bool, phase: Phase, decoder: State, written: nat, log: seq<seq<byte>>)

  predicate Init(p: Params, w: World) {
    w == World(Disk([], 0, Version(None, []), {}), false, Stopped, Fresh(p), 0, [])
  }

  /** A frame the decoder refuses leaves no trace. */
  predicate RejectFrame(c: Codec, p: Params, w: World, w': World, frame: seq<byte>) {
    w.alive && w.phase == Receiving && !Acceptable(c, p, frame) && w' == w
  }

  function AfterTake(c: Codec, p: Params, w: World, frame: seq<byte>, reached: nat): World
    requires w.decoder.Valid(p) && reached <= |Record(frame)|
  {
    var decoder := Accept(c, p, w.decoder, frame).0;
    if !LegalSize(frame) then w.(decoder := decoder, phase := Stopped)
    else
      var whole := reached == |Record(frame)|;
      w.(decoder := decoder, disk := AfterWrite(w.disk, Record(frame)[..reached]), written := w.written + reached,
         phase := if whole then Receiving else Stopped, log := if whole then w.log + [frame] else w.log)
  }

  /** A frame the decoder takes is appended to the journal; a write that stops short ends the run without a save. */
  predicate TakeFrame(c: Codec, p: Params, w: World, w': World, frame: seq<byte>, reached: nat) {
    && w.alive && w.phase == Receiving && w.decoder.Valid(p) && Acceptable(c, p, frame)
    && reached <= |Record(frame)| && (LegalSize(frame) ==> IsU64(w.written + reached))
    && w' == AfterTake(c, p, w, frame, reached)
  }

  /** saveProgress, first half: the state is built for the journal's length and the journal is flushed. */
  predicate FlushJournal(c: Codec, p: Params, w: World, w': World) {
    && w.alive && w.phase == Receiving && w.decoder.Valid(p)
    && w' == w.(disk := AfterSync(w.disk), phase := Saving(ResumeState(c, p, w.decoder, w.written).ToVec()))
  }

  /** saveProgress, second half: the rename. */
  predicate ReplaceIndex(w: World, w': World) {
    && w.alive && w.phase.Saving?
    && w' == w.(disk := AfterRename(w.disk, Version(Some(w.phase.state), w.log)), phase := Receiving)
  }

  /** Any operation on the files may fail, which ends the run. */
  predicate Fail(w: World, w': World) {
    w.alive && w' == w.(phase := Stopped)
  }

  predicate Exit(w: World, w': World) {
    w.alive && w' == w.(alive := false, phase := Stopped)
  }

  /** The operating system may write out more of the journal at any time. */
  predicate WriteBack(w: World, w': World, n: nat) {
    w.disk.synced <= n <= |w.disk.journal| && w' == w.(disk := w.disk.(synced := n))
  }

  /** A power loss keeps the synced bytes, followed by anything, and one of the index's recent versions. */
  predicate Crash(w: World, w': World, journal: seq<byte>, v: Version) {
    && w.disk.synced <= |w.disk.journal| && w.disk.synced <= |journal|
    && journal[..w.disk.synced] == w.disk.journal[..w.disk.synced]
    && (v == w.disk.index || v in w.disk.older)
    && w' == w.(disk := Disk(journal, |journal|, v, {}), alive := false, phase := Stopped)
  }

  /** restoreProgress; a state directory it refuses leaves no process running. */
  predicate Restart(c: Codec, p: Params, w: World, w': World) {
    && !w.alive
    && match Restore(c, p, w.disk)
       case Refused => w' == w
       case Restored(decoder, covered, frames) =>
         w' == World(AfterBegin(w.disk, covered), true, Receiving, decoder, covered, frames)
  }

  ghost predicate Next(c: Codec, p: Params, w: World, w': World) {
    || (exists frame: seq<byte> :: RejectFrame(c, p, w, w', frame))
    || (exists frame: seq<byte>, reached: nat :: TakeFrame(c, p, w, w', frame, reached))
    || FlushJournal(c, p, w, w') || ReplaceIndex(w, w') || Fail(w, w') || Exit(w, w')
    || (exists n: nat :: WriteBack(w, w', n))
    || (exists journal: seq<byte>, v: Version :: Crash(w, w', journal, v))
    || Restart(c, p, w, w')
  }

  // ----- the invariant

  /** Every version of the index that may be found describes a durable prefix of the journal, and the current one the
      longest. */
  predicate IndexInv(c: Codec, p: Params, d: Disk) {
    && Describes(c, p, d, d.index)
    && forall v :: v in d.older ==> Describes(c, p, d, v) && |Records(v.frames)| <= |Records(d.index.frames)|
  }

  /** A running receiver's journal is exactly the records of the frames its decoder has taken. */
  predicate RunInv(c: Codec, p: Params, w: World) {
    && (!w.alive ==> w.phase == Stopped)
    && (w.phase != Stopped ==>
      && Taken(c, p, w.log)
      && w.disk.journal == Records(w.log) && w.written == |w.disk.journal| && IsU64(w.written)
      && w.decoder == DecodeAll(c, p, w.log)
      && |Records(w.disk.index.frames)| <= w.written)
    && (w.phase.Saving? ==> w.phase.state == SavedIndex(c, p, w.log) && w.disk.synced == |w.disk.journal|)
  }

  predicate Inv(c: Codec, p: Params, w: World) {
    IndexInv(c, p, w.disk) && RunInv(c, p, w)
  }

  lemma InitInv(c: Codec, p: Params, w: World)
    requires Init(p, w)
    ensures Inv(c, p, w)
  {}

  lemma TakeFrameInv(c: Codec, p: Params, w: World, w': World, frame: seq<byte>, reached: nat)
    requires Inv(c, p, w) && TakeFrame(c, p, w, w', frame, reached)
    ensures Inv(c, p, w')
  {
    hide Acceptable, Accept, DecodeAll, SavedIndex, Record;
    if LegalSize(frame) {
      Appended(c, p, w.disk, Record(frame)[..reached]);
      if reached == |Record(frame)| {
        assert Record(frame)[..reached] == Record(frame);
        SerializedSnoc(w.log, frame, Record);
        DecodeSnoc(c, p, w.log, frame);
      }
    }
  }

  lemma Appended(c: Codec, p: Params, d: Disk, b: seq<byte>)
    requires IndexInv(c, p, d)
    ensures IndexInv(c, p, AfterWrite(d, b))
  {
    hide Taken, SavedIndex, Records;
    forall v: Version | Describes(c, p, d, v)
      ensures Describes(c, p, AfterWrite(d, b), v)
    {
      var n := |Records(v.frames)|;
      assert (d.journal + b)[..n] == d.journal[..n];
    }
  }

  lemma SyncedMore(c: Codec, p: Params, d: Disk, n: nat)
    requires IndexInv(c, p, d) && d.synced <= n <= |d.journal|
    ensures IndexInv(c, p, d.(synced := n))
  {
    hide Taken, SavedIndex, Records;
    forall v: Version | Describes(c, p, d, v)
      ensures Describes(c, p, d.(synced := n), v)
    {}
  }

  lemma FlushJournalInv(c: Codec, p: Params, w: World, w': World)
    requires Inv(c, p, w) && FlushJournal(c, p, w, w')
    ensures Inv(c, p, w')
  {
    hide Acceptable, Accept, DecodeAll, Records, ResumeState;
    SyncedMore(c, p, w.disk, |w.disk.journal|);
  }

  lemma ReplaceIndexInv(c: Codec, p: Params, w: World, w': World)
    requires Inv(c, p, w) && ReplaceIndex(w, w')
    ensures Inv(c, p, w')
  {
    hide Acceptable, Accept, DecodeAll, Records, SavedIndex, Taken;
    var d, d' := w.disk, w'.disk;
    forall v: Version | Describes(c, p, d, v)
      ensures Describes(c, p, d', v)
    {}
    assert d.journal[..|Records(w.log)|] == Records(w.log);
  }

  lemma CrashInv(c: Codec, p: Params, w: World, w': World, journal: seq<byte>, v: Version)
    requires Inv(c, p, w) && Crash(w, w', journal, v)
    ensures Inv(c, p, w')
  {
    hide Acceptable, Accept, DecodeAll, Records, SavedIndex, Taken;
    var n := |Records(v.frames)|;
    assert Describes(c, p, w.disk, v);
    assert journal[..n] == journal[..w.disk.synced][..n];
    assert w.disk.journal[..n] == w.disk.journal[..w.disk.synced][..n];
  }

  lemma RestartInv(c: Codec, p: Params, w: World, w': World)
    requires c.Valid() && p.Valid() && Inv(c, p, w) && Restart(c, p, w, w')
    ensures Inv(c, p, w')
  {
    hide Acceptable, Accept, DecodeAll, Records, SavedIndex, Restore, Taken;
    DescribedRestores(c, p, w.disk);
    var d, d' := w.disk, w'.disk;
    var covered := |Records(d.index.frames)|;
    forall v: Version | Describes(c, p, d, v) && |Records(v.frames)| <= covered
      ensures Describes(c, p, d', v)
    {
      var n := |Records(v.frames)|;
      assert d.journal[..covered][..n] == d.journal[..n];
    }
  }

  lemma NextInv(c: Codec, p: Params, w: World, w': World)
    requires c.Valid() && p.Valid() && Inv(c, p, w) && Next(c, p, w, w')
    ensures Inv(c, p, w')
  {
    hide IndexInv, RunInv, TakeFrame, FlushJournal, Crash, Restart;
    if frame: seq<byte> :| RejectFrame(c, p, w, w', frame) {
    } else if frame: seq<byte>, reached: nat :| TakeFrame(c, p, w, w', frame, reached) {
      TakeFrameInv(c, p, w, w', frame, reached);
    } else if FlushJournal(c, p, w, w') {
      FlushJournalInv(c, p, w, w');
    } else if ReplaceIndex(w, w') {
      ReplaceIndexInv(c, p, w, w');
    } else if Fail(w, w') || Exit(w, w') {
      StopInv(c, p, w, w');
    } else if n: nat :| WriteBack(w, w', n) {
      WriteBackInv(c, p, w, w', n);
    } else if journal: seq<byte>, v: Version :| Crash(w, w', journal, v) {
      CrashInv(c, p, w, w', journal, v);
    } else {
      RestartInv(c, p, w, w');
    }
  }

  lemma StopInv(c: Codec, p: Params, w: World, w': World)
    requires Inv(c, p, w) && (Fail(w, w') || Exit(w, w'))
    ensures Inv(c, p, w')
  {
    hide IndexInv, DecodeAll, Records, Taken;
  }

  lemma WriteBackInv(c: Codec, p: Params, w: World, w': World, n: nat)
    requires Inv(c, p, w) && WriteBack(w, w', n)
    ensures Inv(c, p, w')
  {
    hide IndexInv, DecodeAll, Records, Taken, SavedIndex;
    SyncedMore(c, p, w.disk, n);
  }

  // ----- the promises, over every run

  ghost predicate IsRun(c: Codec, p: Params, run: seq<World>) {
    |run| > 0 && Init(p, run[0]) && forall i :: 0 <= i < |run| - 1 ==> Next(c, p, run[i], run[i + 1])
  }

  lemma {:induction false} Reachable(c: Codec, p: Params, run: seq<World>, i: nat)
    requires c.Valid() && p.Valid() && IsRun(c, p, run) && i < |run|
    ensures Inv(c, p, run[i])
  {
    hide Inv, Next;
    if i == 0 {
      InitInv(c, p, run[0]);
    } else {
      Reachable(c, p, run, i - 1);
      NextInv(c, p, run[i - 1], run[i]);
    }
  }

  /** At every moment of every run, restarting succeeds: the index covers whole durable records, namely those of the
      frames taken when it was saved, and the restored decoder is the one that was saved. */
  lemma RestartRecovers(c: Codec, p: Params, run: seq<World>, i: nat)
    requires c.Valid() && p.Valid() && IsRun(c, p, run) && i < |run|
    ensures var d := run[i].disk;
      && |Records(d.index.frames)| <= d.synced <= |d.journal|
      && d.journal[..|Records(d.index.frames)|] == Records(d.index.frames)
      && Restore(c, p, d) == Restored(DecodeAll(c, p, d.index.frames), |Records(d.index.frames)|, d.index.frames)
  {
    hide Restore, Records, DecodeAll, SavedIndex, Taken, Next;
    Reachable(c, p, run, i);
    DescribedRestores(c, p, run[i].disk);
  }

  /** The same holds after a power loss at that moment, whatever unsynced bytes and whichever version of the index
      survive. */
  lemma CrashRecovers(c: Codec, p: Params, run: seq<World>, i: nat, w: World, journal: seq<byte>, v: Version)
    requires c.Valid() && p.Valid() && IsRun(c, p, run) && i < |run|
    requires Crash(run[i], w, journal, v)
    ensures Restore(c, p, w.disk) == Restored(DecodeAll(c, p, v.frames), |Records(v.frames)|, v.frames)
  {
    hide Restore, Records, DecodeAll, SavedIndex, Taken, Next;
    Reachable(c, p, run, i);
    CrashInv(c, p, run[i], w, journal, v);
    DescribedRestores(c, p, w.disk);
  }

  /** A save that completes records exactly the running decoder. */
  lemma SaveCaptures(c: Codec, p: Params, run: seq<World>, i: nat)
    requires c.Valid() && p.Valid() && IsRun(c, p, run) && i + 1 < |run|
    requires ReplaceIndex(run[i], run[i + 1])
    ensures Restore(c, p, run[i + 1].disk) == Restored(run[i].decoder, run[i].written, run[i].log)
  {
    hide Restore, Records, DecodeAll, SavedIndex, Taken, Next;
    Reachable(c, p, run, i);
    RestartRecovers(c, p, run, i + 1);
  }
}
