/** The receiver's own procedures from cli/internal/cli/cli.go, shown to take only the steps of the crash-safety model. */
module Receiver {
  import opened Wrappers
  import opened Bits
  import opened LittleEndian
  import opened ResumeFormat
  import opened Bitmaps
  import opened PipelineDecoder
  import opened JournalStore
  import opened CrashSafety

  /** Consecutive worlds are steps of the model. */
  ghost predicate Steps(c: Codec, p: Params, ws: seq<World>) {
    |ws| > 0 && forall i :: 0 <= i < |ws| - 1 ==> Next(c, p, ws[i], ws[i + 1])
  }

  lemma StepsJoin(c: Codec, p: Params, a: seq<World>, b: seq<World>)
    requires Steps(c, p, a) && Steps(c, p, b) && a[|a| - 1] == b[0]
    ensures Steps(c, p, a + b[1..])
  {
    hide Next;
    var s := a + b[1..];
    forall i | 0 <= i < |s| - 1 ensures Next(c, p, s[i], s[i + 1]) {
      if i >= |a| - 1 {
        assert s[i] == b[i - (|a| - 1)] && s[i + 1] == b[i + 1 - (|a| - 1)];
      }
    }
  }

  /** The world between the two halves of a save. */
  function Flushed(c: Codec, p: Params, w: World): World
    requires w.decoder.Valid(p)
  {
    w.(disk := AfterSync(w.disk), phase := Saving(ResumeState(c, p, w.decoder, w.written).ToVec()))
  }

  lemma SaveSteps(c: Codec, p: Params, w: World)
    requires w.alive && w.phase == Receiving && w.decoder.Valid(p)
    ensures var f := Flushed(c, p, w);
      && Next(c, p, w, f)
      && (var r := f.(disk := AfterRename(f.disk, Version(Some(f.phase.state), f.log)), phase := Receiving); Next(c, p, f, r) && ReplaceIndex(f, r))
      && Next(c, p, w, w.(phase := Stopped))
      && Next(c, p, f, f.(phase := Stopped))
  {
    hide Restore, Accept, Acceptable, ResumeState;
  }

  lemma FailIsStep(c: Codec, p: Params, w: World)
    requires w.alive
    ensures Steps(c, p, [w, w.(phase := Stopped)])
  {
    hide Restart, TakeFrame;
  }

  lemma RejectIsStep(c: Codec, p: Params, w: World, frame: seq<byte>)
    requires RejectFrame(c, p, w, w, frame)
    ensures Steps(c, p, [w, w])
  {
    hide TakeFrame, Restart;
  }

  lemma TakeIsStep(c: Codec, p: Params, w: World, frame: seq<byte>, reached: nat)
    requires w.alive && w.phase == Receiving && w.decoder.Valid(p) && Acceptable(c, p, frame)
    requires reached <= |Record(frame)| && IsU64(w.written + reached)
    ensures TakeFrame(c, p, w, AfterTake(c, p, w, frame, reached), frame, reached)
    ensures Steps(c, p, [w, AfterTake(c, p, w, frame, reached)])
  {
    hide Acceptable, AfterTake, Restart;
  }

  /** The serialized resume state for a journal of the given length. */
  method BuildState(dec: Decoder, journalBytes: nat) returns (state: seq<byte>)
    requires dec.Valid() && dec.c.Valid() && dec.p.Valid() && IsU64(journalBytes)
    ensures state == ResumeState(dec.c, dec.p, dec.View(), journalBytes).ToVec() && |state| > 0
  {
    hide Shaped, PopCount, EntriesToVec;
    var file := ResumeState(dec.c, dec.p, dec.View(), journalBytes);
    ResumeStateValid(dec.c, dec.p, dec.View(), journalBytes);
    SavedNonempty(dec.c, file);
    state := ToVec(file);
  }

  datatype ApplyResult = Continue(taken: bool) | FrameLimit | Failed

  /** The record of a frame that made count frames accepted is written whole, and so is the index if it is due. */
  predicate Recorded(frame: seq<byte>, reached: nat, outcome: SaveOutcome, count: nat, saveEvery: nat)
    requires saveEvery > 0
  {
    LegalSize(frame) && reached == |Record(frame)| && (count % saveEvery == 0 ==> outcome == Completes)
  }

  class FrameSink {
    const store: Store
    const dec: Decoder
    const saveEvery: nat
    const stopAfter: nat
    var accepted: nat
    var rejected: nat
    ghost var log: seq<seq<byte>>
    ghost var running: bool

    ghost predicate Valid()
      reads this, store, store.files, dec
    {
      && store.Valid() && dec.Valid() && store.journalOpen && saveEvery > 0
      && dec.c.Valid() && dec.p.Valid() && IsU64(store.written)
    }

    /** The model's view of this process and its files. Once an operation has failed the receiver is no longer running,
        and its caller returns. */
    ghost function Now(): World
      reads this, store, store.files, dec
    {
      World(store.files.View(), true, if running then Receiving else Stopped, dec.View(), store.written, log)
    }

    constructor (store: Store, dec: Decoder, saveEvery: nat, stopAfter: nat, ghost log: seq<seq<byte>>)
      requires store.Valid() && dec.Valid() && store.journalOpen && saveEvery > 0
      requires dec.c.Valid() && dec.p.Valid() && IsU64(store.written)
      ensures Valid() && this.store == store && this.dec == dec && this.saveEvery == saveEvery && this.stopAfter == stopAfter
      ensures running && this.log == log
      ensures accepted == 0 && rejected == 0
    {
      this.store, this.dec, this.saveEvery, this.stopAfter := store, dec, saveEvery, stopAfter;
      accepted, rejected := 0, 0;
      this.log := log;
      running := true;
    }

    /** Writes the decoder's progress alongside the journal it covers. */
    method SaveProgress(outcome: SaveOutcome) returns (ok: bool, ghost ws: seq<World>)
      requires Valid() && running
      modifies this`running, store, store.files
      ensures Valid() && running == ok && dec.View() == old(dec.View()) && log == old(log)
      ensures ok <==> outcome == Completes
      ensures Steps(dec.c, dec.p, ws) && ws[0] == old(Now()) && ws[|ws| - 1] == Now()
      ensures ok ==> |ws| == 3 && ReplaceIndex(ws[1], ws[2])
      ensures ok ==> store.files.index == Some(ResumeState(dec.c, dec.p, dec.View(), store.written).ToVec())
      ensures store.journalOpen && store.written == old(store.written)
    {
      hide Accept, DecodeAll, ResumeState, Restore, VerifyResume, Acceptable, Next;
      var c, p := dec.c, dec.p;
      ghost var w0 := Now();
      var state := BuildState(dec, store.written);
      SaveSteps(c, p, w0);
      ok := store.Save(state, outcome, log);
      running := ok;
      ghost var w1 := Flushed(c, p, w0);
      if ok {
        assert Now() == w1.(disk := AfterRename(w1.disk, Version(Some(w1.phase.state), w1.log)), phase := Receiving);
        ws := [w0, w1, Now()];
      } else if outcome == SyncFails {
        assert Now() == w0.(phase := Stopped);
        ws := [w0, Now()];
      } else {
        assert Now() == w1.(phase := Stopped);
        ws := [w0, w1, Now()];
      }
    }

    /** Hands one frame to the decoder and records what became of it: journal first, then, every saveEvery accepted
        frames, the index. reached and outcome are how far the two writes get. */
    method Apply(frame: seq<byte>, reached: nat, outcome: SaveOutcome) returns (result: ApplyResult, ghost ws: seq<World>)
      requires Valid() && running
      requires reached <= |Record(frame)| && IsU64(store.written + reached)
      modifies this`accepted, this`rejected, this`log, this`running, store, store.files, dec
      ensures Valid() && (running <==> result != Failed)
      ensures result == Continue(false) <==> !Acceptable(dec.c, dec.p, frame)
      ensures result == Continue(false) ==> Now() == old(Now()) && rejected == old(rejected) + 1 && accepted == old(accepted)
      ensures result != Continue(false) ==> accepted == old(accepted) + 1 && rejected == old(rejected)
      ensures Steps(dec.c, dec.p, ws) && ws[0] == old(Now()) && ws[|ws| - 1] == Now()
      ensures result != Continue(false) ==> |ws| > 1 && TakeFrame(dec.c, dec.p, ws[0], ws[1], frame, reached)
      ensures result == Continue(true) || result == FrameLimit ==> log == old(log) + [frame]
      ensures store.written <= old(store.written) + reached
      ensures result == Continue(true) || result == FrameLimit ==>
        store.files.index == if accepted % saveEvery == 0 then Some(ResumeState(dec.c, dec.p, dec.View(), store.written).ToVec())
                             else old(store.files.index)
      ensures result == Failed <==> Acceptable(dec.c, dec.p, frame) && !Recorded(frame, reached, outcome, accepted, saveEvery)
      ensures result == FrameLimit <==>
        && Acceptable(dec.c, dec.p, frame) && Recorded(frame, reached, outcome, accepted, saveEvery)
        && stopAfter > 0 && accepted >= stopAfter
    {
      hide Accept, DecodeAll, Acceptable, Restore, ResumeState, Record, VerifyResume, TakeFrame, Next;
      var c, p := dec.c, dec.p;
      ghost var w0 := Now();
      AcceptValid(c, p, dec.View(), frame);
      var accepts := dec.AcceptFrame(frame);
      if accepts == Rejected {
        rejected := rejected + 1;
        RejectIsStep(c, p, w0, frame);
        ws := [w0, w0];
        return Continue(false), ws;
      }
      TakeIsStep(c, p, w0, frame, reached);
      accepted := accepted + 1;
      var appended := store.Append(frame, reached);
      if !appended {
        running := false;
        ws := [w0, Now()];
        return Failed, ws;
      }
      assert Record(frame)[..reached] == Record(frame);
      log := log + [frame];
      ws := [w0, Now()];
      if accepted % saveEvery == 0 {
        var saved, more := SaveProgress(outcome);
        StepsJoin(c, p, ws, more);
        ws := ws + more[1..];
        if !saved {
          return Failed, ws;
        }
      }
      if stopAfter > 0 && accepted >= stopAfter {
        return FrameLimit, ws;
      }
      return Continue(true), ws;
    }
  }

  /** Opens the state directory and replays whatever it holds into a fresh decoder. */
  method RestoreProgress(files: Files, c: Codec, p: Params)
    returns (store: Store, dec: Decoder, replayed: nat, ok: bool, ghost log: seq<seq<byte>>)
    requires files.View().Valid()
    modifies files
    ensures fresh(store) && fresh(dec) && store.files == files && dec.c == c && dec.p == p && dec.Valid() && store.Valid()
    ensures ok <==> Restore(c, p, old(files.View())).Restored?
    ensures !ok ==> files.View() == old(files.View())
    ensures ok ==> store.journalOpen && replayed == |log|
    ensures ok ==> Restart(c, p, World(old(files.View()), false, Stopped, Fresh(p), 0, []),
                           World(files.View(), true, Receiving, dec.View(), store.written, log))
  {
    hide Accept, DecodeAll, Acceptable, Parse, VerifyResume;
    store := new Store.Open(files);
    dec := new Decoder(c, p);
    ghost var d := files.View();
    replayed, log := 0, [];
    NoFrames(c, p);
    var saved := store.State();
    if saved.None? {
      store.Begin(0);
      ok := true;
      return;
    }
    var parsed := FromBytes(c.digest, saved.value);
    if parsed.Err? {
      return store, dec, 0, false, [];
    }
    var file := parsed.value;
    ParsedRewrites(c.digest, saved.value);
    if file.header.sessionId != p.sessionId {
      return store, dec, 0, false, [];
    }
    var replayOk: bool;
    replayed, replayOk := store.Replay(file.header.journalBytes, dec);
    if !replayOk {
      return store, dec, replayed, false, [];
    }
    if VerifyResume(c, p, dec.View(), file) != Matches {
      return store, dec, replayed, false, [];
    }
    log := SplitRecords(d.journal[..file.header.journalBytes]).frames;
    store.Begin(file.header.journalBytes);
    ok := true;
  }

  lemma NoFrames(c: Codec, p: Params)
    ensures DecodeAll(c, p, []) == Fresh(p)
  {}
}
