/** Accounting of captured images: cli/internal/capture/reader.go, run directly and with a one-slot buffer between a
    producer and a consumer that interleave freely. */
module CaptureReader {
  import opened Wrappers
  import opened IncreasingLists

  datatype Verdict = Accepted | Refused | Failed

  /** What detection, the pre-filter and the handler make of one image. */
  datatype Reading = Unreadable | Damaged | Foreign | At(key: nat, verdict: Verdict)

  datatype Stats = Stats(images: nat, dropped: nat, unreadable: nat, foreign: nat, damaged: nat, repeats: nat, frames: nat, skipped: nat)
  {
    predicate Accounted() {
      images == dropped + Bucketed()
    }

    function Bucketed(): nat {
      unreadable + foreign + damaged + repeats + frames + skipped
    }
  }

  const ZERO: Stats := Stats(0, 0, 0, 0, 0, 0, 0, 0)

  /** The consumer's counters, the positions it remembers, and whether the handler has failed. */
  datatype Consumer = Consumer(stats: Stats, held: set<nat>, failed: bool)

  const FRESH: Consumer := Consumer(ZERO, {}, false)

  function Take(c: Consumer, r: Reading): Consumer {
    var s := c.stats;
    if c.failed then c.(stats := s.(skipped := s.skipped + 1))
    else match r
      case Unreadable => c.(stats := s.(unreadable := s.unreadable + 1))
      case Damaged => c.(stats := s.(damaged := s.damaged + 1))
      case Foreign => c.(stats := s.(foreign := s.foreign + 1))
      case At(key, verdict) =>
        if key in c.held then c.(stats := s.(repeats := s.repeats + 1))
        else match verdict
          case Failed => c.(failed := true)
          case Refused => c.(stats := s.(foreign := s.foreign + 1))
          case Accepted => c.(stats := s.(frames := s.frames + 1), held := c.held + {key})
  }

  function TakeAll(c: Consumer, rs: seq<Reading>): Consumer {
    if |rs| == 0 then c else Take(TakeAll(c, rs[..|rs| - 1]), rs[|rs| - 1])
  }

  /** What the counters say after n images were taken: every one is in exactly one bucket, except the one the handler
      failed on, and a frame was counted for each position remembered. */
  predicate Tallies(c: Consumer, n: nat) {
    && n == c.stats.Bucketed() + (if c.failed then 1 else 0)
    && |c.held| == c.stats.frames
    && c.stats.images == 0 && c.stats.dropped == 0
    && (!c.failed ==> c.stats.skipped == 0)
  }

  lemma TakeTallies(c: Consumer, r: Reading, n: nat)
    requires Tallies(c, n)
    ensures Tallies(Take(c, r), n + 1)
  {
    match r
    case Unreadable =>
    case Damaged =>
    case Foreign =>
    case At(key, verdict) =>
      if key !in c.held {
        assert |c.held + {key}| == |c.held| + 1;
      }
  }

  lemma {:induction false} TakeAllTallies(rs: seq<Reading>)
    ensures Tallies(TakeAll(FRESH, rs), |rs|)
  {
    hide Tallies, Take;
    if |rs| == 0 {
      assert Tallies(FRESH, 0) by { FreshTallies(); }
    } else {
      TakeAllTallies(rs[..|rs| - 1]);
      TakeTallies(TakeAll(FRESH, rs[..|rs| - 1]), rs[|rs| - 1], |rs| - 1);
    }
  }

  lemma FreshTallies()
    ensures Tallies(FRESH, 0)
  {}

  // ----- one image at a time

  /** No bucket of t holds less than it does in s. */
  predicate NoneLower(s: Stats, t: Stats) {
    && s.unreadable <= t.unreadable && s.foreign <= t.foreign && s.damaged <= t.damaged
    && s.repeats <= t.repeats && s.frames <= t.frames && s.skipped <= t.skipped
  }

  class Reader {
    var stats: Stats
    var held: set<nat>

    constructor ()
      ensures stats == ZERO && held == {}
    {
      stats := ZERO;
      held := {};
    }

    /** Runs one image through detection, pre-filter and handler. The image lands in exactly one bucket, unless the
        handler fails on it: then nothing changes. Only an accepted position is remembered, and counted as a frame. */
    method Consume(r: Reading) returns (err: bool)
      modifies this
      ensures err <==> r.At? && r.key !in old(held) && r.verdict == Failed
      ensures err ==> stats == old(stats) && held == old(held)
      ensures !err ==> stats.Bucketed() == old(stats).Bucketed() + 1 && NoneLower(old(stats), stats)
      ensures stats.images == old(stats).images && stats.dropped == old(stats).dropped && stats.skipped == old(stats).skipped
      ensures stats.unreadable == old(stats).unreadable + if r.Unreadable? then 1 else 0
      ensures stats.damaged == old(stats).damaged + if r.Damaged? then 1 else 0
      ensures stats.foreign == old(stats).foreign + if r.Foreign? || (r.At? && r.key !in old(held) && r.verdict == Refused) then 1 else 0
      ensures stats.repeats == old(stats).repeats + if r.At? && r.key in old(held) then 1 else 0
      ensures stats.frames > old(stats).frames <==> r.At? && r.key !in old(held) && r.verdict == Accepted
      ensures held == if stats.frames > old(stats).frames then old(held) + {r.key} else old(held)
      ensures old(|held| == stats.frames) ==> |held| == stats.frames
      ensures Consumer(stats, held, err) == Take(Consumer(old(stats), old(held), false), r)
    {
      match r
      case Unreadable =>
        stats := stats.(unreadable := stats.unreadable + 1);
        return false;
      case Damaged =>
        stats := stats.(damaged := stats.damaged + 1);
        return false;
      case Foreign =>
        stats := stats.(foreign := stats.foreign + 1);
        return false;
      case At(key, verdict) =>
        if key in held {
          stats := stats.(repeats := stats.repeats + 1);
          return false;
        }
        if verdict == Failed {
          return true;
        }
        if verdict == Refused {
          stats := stats.(foreign := stats.foreign + 1);
          return false;
        }
        held := held + {key};
        stats := stats.(frames := stats.frames + 1);
        return false;
    }

    /** Reads the source's images until it ends or the handler fails. */
    method RunDirect(source: seq<Reading>) returns (err: bool)
      requires stats == ZERO && held == {}
      modifies this
      ensures stats.images <= |source| && (!err ==> stats.images == |source|)
      ensures var c := TakeAll(FRESH, source[..stats.images]);
        stats == c.stats.(images := stats.images) && held == c.held && err == c.failed
      ensures err ==> stats.images > 0 && !TakeAll(FRESH, source[..stats.images - 1]).failed
      ensures !err ==> stats.Accounted()
      ensures err ==> stats.images == stats.dropped + stats.Bucketed() + 1
      ensures |held| == stats.frames
    {
      hide Take, TakeAll, Tallies;
      err := false;
      NoneTaken(source);
      for i := 0 to |source|
        invariant stats.images == i && !TakeAll(FRESH, source[..i]).failed
        invariant stats == WithImages(TakeAll(FRESH, source[..i]), i).stats && held == TakeAll(FRESH, source[..i]).held
      {
        OneMoreTaken(source, i);
        TakeIgnoresImages(TakeAll(FRESH, source[..i]), source[i], i + 1);
        stats := stats.(images := stats.images + 1);
        err := Consume(source[i]);
        if err {
          TakenAccounts(source[..i + 1]);
          return;
        }
      }
      TakenAccounts(source[..|source|]);
    }
  }

  function WithImages(c: Consumer, n: nat): Consumer {
    c.(stats := c.stats.(images := n))
  }

  lemma TakeIgnoresImages(c: Consumer, r: Reading, n: nat)
    ensures Take(WithImages(c, n), r) == WithImages(Take(c, r), n)
  {}

  lemma NoneTaken(source: seq<Reading>)
    ensures TakeAll(FRESH, source[..0]) == FRESH
  {}

  lemma OneMoreTaken(source: seq<Reading>, i: nat)
    requires i < |source|
    ensures TakeAll(FRESH, source[..i + 1]) == Take(TakeAll(FRESH, source[..i]), source[i])
  {
    hide Take;
    assert source[..i + 1][..i] == source[..i];
  }

  lemma TakenAccounts(rs: seq<Reading>)
    ensures var c := WithImages(TakeAll(FRESH, rs), |rs|);
      && c.stats.images == c.stats.dropped + c.stats.Bucketed() + (if c.failed then 1 else 0)
      && |c.held| == c.stats.frames
  {
    hide Take, TakeAll;
    TakeAllTallies(rs);
  }

  // ----- producer and consumer

  datatype ProducerPc = Capturing | Offering | Evicting | Retrying | Ended

  datatype ConsumerPc = Receiving | Examining(image: nat) | Finished

  /** Images are numbered in the order they were produced. The ghost fields record what became of each. */
  datatype State = State(
    produced: nat, dropped: nat, producer: ProducerPc,
    slot: Option<nat>, closed: bool,
    consumer: ConsumerPc, tally: Consumer,
    received: seq<nat>, evicted: set<nat>)

  predicate Init(s: State) {
    s == State(0, 0, Capturing, None, false, Receiving, FRESH, [], {})
  }

  /** The source yields an image. */
  predicate Capture(s: State, t: State) {
    s.producer == Capturing && t == s.(produced := s.produced + 1, producer := Offering)
  }

  /** The source is exhausted, cancelled or fails: the channel is closed. */
  predicate End(s: State, t: State) {
    s.producer == Capturing && t == s.(producer := Ended, closed := true)
  }

  /** First attempt to hand the newest image over. */
  predicate Offer(s: State, t: State) {
    && s.producer == Offering && s.produced > 0
    && t == if s.slot.None? then s.(slot := Some(s.produced - 1), producer := Capturing) else s.(producer := Evicting)
  }

  /** The pending image is taken back and dropped, unless the consumer has just taken it. */
  predicate Evict(s: State, t: State) {
    && s.producer == Evicting
    && t == if s.slot.Some? then s.(slot := None, dropped := s.dropped + 1, evicted := s.evicted + {s.slot.value}, producer := Retrying)
            else s.(producer := Retrying)
  }

  /** Second attempt; an image that still cannot be handed over is dropped. */
  predicate Retry(s: State, t: State) {
    && s.producer == Retrying && s.produced > 0
    && t == if s.slot.None? then s.(slot := Some(s.produced - 1), producer := Capturing)
            else s.(dropped := s.dropped + 1, evicted := s.evicted + {s.produced - 1}, producer := Capturing)
  }

  predicate Receive(s: State, t: State) {
    && s.consumer == Receiving && s.slot.Some?
    && t == s.(slot := None, consumer := Examining(s.slot.value), received := s.received + [s.slot.value])
  }

  predicate Examine(s: State, t: State, view: nat -> Reading) {
    && s.consumer.Examining?
    && t == s.(consumer := Receiving, tally := Take(s.tally, view(s.consumer.image)))
  }

  /** The channel is closed and empty. */
  predicate Finish(s: State, t: State) {
    s.consumer == Receiving && s.slot.None? && s.closed && t == s.(consumer := Finished)
  }

  /** One step of either side; which side moves is arbitrary. */
  predicate Next(s: State, t: State, view: nat -> Reading) {
    || Capture(s, t) || End(s, t) || Offer(s, t) || Evict(s, t) || Retry(s, t)
    || Receive(s, t) || Examine(s, t, view) || Finish(s, t)
  }

  predicate IsRun(run: seq<State>, view: nat -> Reading) {
    |run| > 0 && Init(run[0]) && forall i :: 0 <= i < |run| - 1 ==> Next(run[i], run[i + 1], view)
  }

  function Views(ids: seq<nat>, view: nat -> Reading): seq<Reading> {
    seq(|ids|, i requires 0 <= i < |ids| => view(ids[i]))
  }

  /** Whether the newest image is still with the producer. */
  predicate InHand(s: State) {
    s.producer in {Offering, Evicting, Retrying}
  }

  /** The newest image that was handed over. */
  function Sent(s: State): int {
    if InHand(s) then s.produced - 2 else s.produced - 1
  }

  /** Control and the slot: the slot holds the newest image handed over, or the consumer has it, or it was evicted to
      make room. */
  predicate SlotInv(s: State) {
    && (InHand(s) ==> s.produced > 0)
    && (s.producer == Retrying ==> s.slot.None?)
    && (s.closed <==> s.producer == Ended)
    && (s.consumer == Finished ==> s.closed && s.slot.None?)
    && (s.slot.Some? ==> s.slot.value == Sent(s))
    && (s.slot.None? && Sent(s) >= 0 && s.producer != Retrying ==> |s.received| > 0 && s.received[|s.received| - 1] == Sent(s))
  }

  predicate OrderInv(s: State) {
    && Increasing(s.received)
    && (forall i :: 0 <= i < |s.received| ==> s.received[i] <= Sent(s))
    && (s.slot.Some? ==> forall i :: 0 <= i < |s.received| ==> s.received[i] < s.slot.value)
  }

  /** Every image handed over is received, evicted or in the slot, and only one of these. */
  ghost predicate FateInv(s: State) {
    && (forall k: nat :: k <= Sent(s) <==> k in s.received || k in s.evicted || s.slot == Some(k))
    && (forall k: nat :: k in s.evicted ==> k !in s.received && s.slot != Some(k))
    && |s.evicted| == s.dropped
  }

  /** The tally is what a direct run over the received images gives. */
  ghost predicate TallyInv(s: State, view: nat -> Reading) {
    && (s.consumer.Examining? ==> |s.received| > 0 && s.received[|s.received| - 1] == s.consumer.image)
    && s.tally == TakeAll(FRESH, Views(Examined(s), view))
  }

  ghost predicate Inv(s: State, view: nat -> Reading) {
    SlotInv(s) && OrderInv(s) && FateInv(s) && TallyInv(s, view)
  }

  /** The images received and already examined. */
  function Examined(s: State): seq<nat> {
    if s.consumer.Examining? && |s.received| > 0 then s.received[..|s.received| - 1] else s.received
  }

  lemma SlotStep(s: State, t: State, view: nat -> Reading)
    requires SlotInv(s) && Next(s, t, view)
    ensures SlotInv(t)
  {
    hide Take, TakeAll;
  }

  lemma OrderStep(s: State, t: State, view: nat -> Reading)
    requires SlotInv(s) && OrderInv(s) && Next(s, t, view)
    ensures OrderInv(t)
  {
    hide Take, TakeAll;
    if Receive(s, t) {
      ReceiveKeepsOrder(s, t);
    }
  }

  lemma ReceiveKeepsOrder(s: State, t: State)
    requires SlotInv(s) && OrderInv(s) && Receive(s, t)
    ensures OrderInv(t)
  {}

  lemma ReceiveFate(s: State, t: State)
    requires SlotInv(s) && OrderInv(s) && FateInv(s) && Receive(s, t)
    ensures FateInv(t)
  {}

  lemma EvictFate(s: State, t: State)
    requires SlotInv(s) && OrderInv(s) && FateInv(s) && Evict(s, t)
    ensures FateInv(t)
  {
    if s.slot.Some? {
      assert s.slot.value !in s.evicted;
    }
  }

  lemma FateStep(s: State, t: State, view: nat -> Reading)
    requires SlotInv(s) && OrderInv(s) && FateInv(s) && Next(s, t, view)
    ensures FateInv(t)
  {
    hide Take, TakeAll;
    if Receive(s, t) {
      ReceiveFate(s, t);
    } else if Evict(s, t) {
      EvictFate(s, t);
    }
  }

  lemma TallyStep(s: State, t: State, view: nat -> Reading)
    requires TallyInv(s, view) && Next(s, t, view)
    ensures TallyInv(t, view)
  {
    hide Take, TakeAll;
    if Examine(s, t, view) {
      ExamineTally(s, t, view);
    } else if Receive(s, t) {
      assert t.received[..|t.received| - 1] == s.received;
    }
  }

  lemma ExamineTally(s: State, t: State, view: nat -> Reading)
    requires TallyInv(s, view) && Examine(s, t, view)
    ensures TallyInv(t, view)
  {
    hide Take;
    var rs := Views(t.received, view);
    assert rs[..|rs| - 1] == Views(Examined(s), view);
  }

  lemma {:induction false} Reachable(run: seq<State>, view: nat -> Reading, i: nat)
    requires IsRun(run, view) && i < |run|
    ensures Inv(run[i], view)
  {
    hide Take, Next;
    if i == 0 {
      assert Views([], view) == [];
    } else {
      Reachable(run, view, i - 1);
      SlotStep(run[i - 1], run[i], view);
      OrderStep(run[i - 1], run[i], view);
      FateStep(run[i - 1], run[i], view);
      TallyStep(run[i - 1], run[i], view);
    }
  }

  // ----- the promises, over every interleaving

  /** The images consumed are an increasing subsequence of those produced. */
  lemma ConsumedInOrder(run: seq<State>, view: nat -> Reading, i: nat)
    requires IsRun(run, view) && i < |run|
    ensures Increasing(run[i].received)
    ensures forall k :: 0 <= k < |run[i].received| ==> run[i].received[k] < run[i].produced
  {
    hide Next;
    Reachable(run, view, i);
  }

  /** An image is never dropped while it is the newest: the second attempt to hand it over cannot fail. What was handed over
      last is waiting in the slot or received, except while the producer is about to replace it. */
  lemma NewestNeverDropped(run: seq<State>, view: nat -> Reading, i: nat)
    requires IsRun(run, view) && i < |run| && run[i].produced > 0
    ensures run[i].produced - 1 !in run[i].evicted
    ensures var s := run[i]; Sent(s) >= 0 && s.producer != Retrying ==> s.slot == Some(Sent(s)) || Sent(s) in s.received
    ensures run[i].producer == Retrying ==> run[i].slot.None?
    ensures var s := run[i]; Sent(s) >= 0 && s.producer == Retrying ==> Sent(s) in s.received || Sent(s) in s.evicted
    ensures run[i].consumer == Finished ==> |run[i].received| > 0 && run[i].received[|run[i].received| - 1] == run[i].produced - 1
  {
    hide Next, TakeAll;
    Reachable(run, view, i);
    var s := run[i];
    if s.slot.None? && !InHand(s) {
      assert s.received[|s.received| - 1] in s.received;
    }
  }

  function Below(n: nat): (r: set<nat>)
    ensures |r| == n
    ensures forall k: nat :: k in r <==> k < n
  {
    if n == 0 then {} else Below(n - 1) + {n - 1}
  }

  /** The final statistics: the consumer's, with the producer's counts filled in. */
  function FinalStats(s: State): Stats {
    s.tally.stats.(images := s.produced, dropped := s.dropped)
  }

  /** When both sides are done, every image is in exactly one bucket; a run ended by a handler error is short by exactly
      the image it failed on. The other counters are those of a direct run over the images received. */
  lemma BufferedAccounts(run: seq<State>, view: nat -> Reading, i: nat)
    requires IsRun(run, view) && i < |run| && run[i].consumer == Finished
    ensures !run[i].tally.failed ==> FinalStats(run[i]).Accounted()
    ensures run[i].tally.failed ==> FinalStats(run[i]).images == FinalStats(run[i]).dropped + FinalStats(run[i]).Bucketed() + 1
    ensures run[i].tally == TakeAll(FRESH, Views(run[i].received, view))
    ensures FinalStats(run[i]).frames == |run[i].tally.held|
  {
    hide Next, TakeAll;
    Reachable(run, view, i);
    var s := run[i];
    TakeAllTallies(Views(s.received, view));
    EveryImageHasAFate(s);
  }

  /** Once the consumer has finished, the images produced are those received and those evicted. */
  lemma EveryImageHasAFate(s: State)
    requires SlotInv(s) && OrderInv(s) && FateInv(s) && s.consumer == Finished
    ensures s.produced == |s.received| + s.dropped
  {
    IncreasingSize(s.received);
    assert Below(s.produced) == Elements(s.received) + s.evicted;
    assert Elements(s.received) !! s.evicted;
  }

  /** At every moment the frames counted are the positions held. */
  lemma FramesAreHeld(run: seq<State>, view: nat -> Reading, i: nat)
    requires IsRun(run, view) && i < |run|
    ensures run[i].tally.stats.frames == |run[i].tally.held|
  {
    hide Next, TakeAll;
    Reachable(run, view, i);
    TakeAllTallies(Views(Examined(run[i]), view));
  }
}
