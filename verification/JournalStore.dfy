/** The state directory: cli/internal/resume/resume.go. Files are bytes on a disk that distinguishes what has been synced
    and which versions of the index a power loss may leave behind. */
module JournalStore {
  import opened Wrappers
  import opened Bits
  import opened Concatenation
  import opened LittleEndian
  import opened PipelineDecoder

  const MAX_RECORD: nat := 0x10_0000
  const RECORD_PREFIX: nat := 4

  /** A version of the index file. frames is history, read by no operation: the frames taken when it was written. */
  datatype Version = Version(bytes: Option<seq<byte>>, frames: seq<seq<byte>>)

  /** The journal's bytes, how many of them are synced, the index as it reads now, and the versions that a power loss could
      still bring back because the directory entry was not synced. */
  datatype Disk = Disk(journal: seq<byte>, synced: nat, index: Version, older: set<Version>) {
    predicate Valid() {
      synced <= |journal|
    }
  }

  function Record(frame: seq<byte>): seq<byte> {
    LeBytes(|frame|, RECORD_PREFIX) + frame
  }

  function Records(frames: seq<seq<byte>>): seq<byte> {
    Serialized(frames, Record)
  }

  predicate LegalSize(frame: seq<byte>) {
    0 < |frame| <= MAX_RECORD
  }

  // ----- reading the journal back

  datatype ReplayError = TooShort | CutShort | BadLength(length: nat) | PastCovered

  datatype Split = Frames(frames: seq<seq<byte>>) | Broken(frames: seq<seq<byte>>, error: ReplayError)

  function Prepend(frame: seq<byte>, s: Split): Split {
    match s
    case Frames(rest) => Frames([frame] + rest)
    case Broken(rest, e) => Broken([frame] + rest, e)
  }

  /** The records a byte string consists of, or those before the first malformed one. */
  function SplitRecords(b: seq<byte>): Split {
    if |b| == 0 then Frames([])
    else if |b| < RECORD_PREFIX then Broken([], CutShort)
    else
      var length := U32(b[..RECORD_PREFIX]);
      if length == 0 || length > MAX_RECORD then Broken([], BadLength(length))
      else if |b| - RECORD_PREFIX < length then Broken([], PastCovered)
      else Prepend(b[RECORD_PREFIX..][..length], SplitRecords(b[RECORD_PREFIX..][length..]))
  }

  lemma OneRecord(frame: seq<byte>, rest: seq<byte>)
    requires LegalSize(frame)
    ensures SplitRecords(Record(frame) + rest) == Prepend(frame, SplitRecords(rest))
  {
    hide LeBytes, U32;
    var b := Record(frame) + rest;
    U32RoundTrip(|frame|);
    assert b[..RECORD_PREFIX] == LeBytes(|frame|, RECORD_PREFIX);
    assert b[RECORD_PREFIX..] == frame + rest;
    assert (frame + rest)[..|frame|] == frame && (frame + rest)[|frame|..] == rest;
  }

  /** A journal of whole records splits into exactly the frames recorded. */
  lemma {:induction false} RecordsSplit(frames: seq<seq<byte>>)
    requires forall i :: 0 <= i < |frames| ==> LegalSize(frames[i])
    ensures SplitRecords(Records(frames)) == Frames(frames)
  {
    hide Record;
    if |frames| > 0 {
      SerializedFront(frames, Record);
      OneRecord(frames[0], Records(frames[1..]));
      RecordsSplit(frames[1..]);
      assert [frames[0]] + frames[1..] == frames;
    }
  }

  /** Only the records of legal frames split. */
  lemma {:induction false} SplitExact(b: seq<byte>)
    requires SplitRecords(b).Frames?
    ensures b == Records(SplitRecords(b).frames)
    ensures forall i :: 0 <= i < |SplitRecords(b).frames| ==> LegalSize(SplitRecords(b).frames[i])
    decreases |b|
  {
    hide U32, Records;
    var frames := SplitRecords(b).frames;
    if |b| > 0 {
      var rest := b[RECORD_PREFIX..];
      var length := U32(b[..RECORD_PREFIX]);
      SplitExact(rest[length..]);
      assert frames == [rest[..length]] + SplitRecords(rest[length..]).frames;
      assert frames[1..] == SplitRecords(rest[length..]).frames;
      hide SplitRecords;
      RecordRead(b, length);
      RecordsFront(frames);
    } else {
      RecordsFront([]);
    }
  }

  lemma RecordsFront(frames: seq<seq<byte>>)
    ensures Records(frames) == if |frames| == 0 then [] else Record(frames[0]) + Records(frames[1..])
  {
    hide Record;
    if |frames| > 0 {
      SerializedFront(frames, Record);
    }
  }

  lemma RecordRead(b: seq<byte>, length: nat)
    requires |b| >= RECORD_PREFIX && length == U32(b[..RECORD_PREFIX]) && length <= |b| - RECORD_PREFIX
    ensures b == Record(b[RECORD_PREFIX..][..length]) + b[RECORD_PREFIX..][length..]
  {
    hide LeBytes;
    BytesOfLe(b[..RECORD_PREFIX]);
    var rest := b[RECORD_PREFIX..];
    assert LeBytes(length, RECORD_PREFIX) == b[..RECORD_PREFIX];
    assert b == b[..RECORD_PREFIX] + (rest[..length] + rest[length..]);
  }

  // ----- what the operations do to the disk

  function Resized(b: seq<byte>, n: nat): (r: seq<byte>)
    ensures |r| == n
  {
    if n <= |b| then b[..n] else b + seq(n - |b|, _ => 0)
  }

  /** Truncation discards the tail; how much of the rest was synced does not grow. */
  function AfterBegin(d: Disk, covered: nat): Disk {
    d.(journal := Resized(d.journal, covered), synced := if d.synced <= covered then d.synced else covered)
  }

  function AfterWrite(d: Disk, b: seq<byte>): Disk {
    d.(journal := d.journal + b)
  }

  function AfterSync(d: Disk): Disk {
    d.(synced := |d.journal|)
  }

  /** A rename replaces the index at once, but until the directory is synced the old version may come back. */
  function AfterRename(d: Disk, v: Version): Disk {
    d.(index := v, older := d.older + {d.index})
  }

  /** How far a save gets; the first three leave the old index in place. */
  datatype SaveOutcome = SyncFails | TempFails | RenameFails | Completes

  /** The files of a state directory. How much is synced, and what a power loss could bring back, is not visible to the
      program. */
  class Files {
    var journal: seq<byte>
    var index: Option<seq<byte>>
    ghost var synced: nat
    ghost var frames: seq<seq<byte>>
    ghost var older: set<Version>

    ghost function View(): Disk
      reads this
    {
      Disk(journal, synced, Version(index, frames), older)
    }

    constructor (journal: seq<byte>, index: Option<seq<byte>>, ghost d: Disk)
      requires d.journal == journal && d.index.bytes == index
      ensures View() == d
    {
      this.journal, this.index := journal, index;
      synced, frames, older := d.synced, d.index.frames, d.older;
    }

    ghost method Become(d: Disk)
      requires d.journal == journal && d.index.bytes == index
      modifies this`synced, this`frames, this`older
      ensures View() == d
    {
      synced, frames, older := d.synced, d.index.frames, d.older;
    }
  }

  function PrependAll(done: seq<seq<byte>>, s: Split): Split {
    match s
    case Frames(rest) => Frames(done + rest)
    case Broken(rest, e) => Broken(done + rest, e)
  }

  lemma PrependOneMore(done: seq<seq<byte>>, frame: seq<byte>, s: Split)
    ensures PrependAll(done, Prepend(frame, s)) == PrependAll(done + [frame], s)
    ensures PrependAll([], s) == s
  {
    var rest := s.frames;
    assert done + ([frame] + rest) == done + [frame] + rest;
  }

  class Store {
    const files: Files
    var state: seq<byte>
    var journalOpen: bool
    var written: nat

    ghost predicate Valid()
      reads this, files
    {
      files.View().Valid() && (journalOpen ==> written == |files.journal|)
    }

    constructor Open(files: Files)
      requires files.View().Valid()
      ensures Valid() && this.files == files && !journalOpen && written == 0
      ensures state == (if files.index.Some? then files.index.value else [])
    {
      this.files := files;
      state := match files.index case Some(b) => b case None => [];
      journalOpen := false;
      written := 0;
    }

    /** The saved state, or none. */
    method State() returns (saved: Option<seq<byte>>)
      ensures saved == if |state| == 0 then None else Some(state)
    {
      if |state| == 0 {
        return None;
      }
      return Some(state);
    }

    /** Feeds the frames in the journal's first limit bytes to a fresh decoder, in order. */
    method Replay(limit: nat, dec: Decoder) returns (count: nat, ok: bool)
      requires Valid() && dec.Valid() && dec.View() == Fresh(dec.p)
      modifies dec
      ensures dec.Valid()
      ensures ok <==>
        && limit <= |files.journal|
        && SplitRecords(files.journal[..limit]).Frames?
        && forall i :: 0 <= i < |SplitRecords(files.journal[..limit]).frames| ==>
             Acceptable(dec.c, dec.p, SplitRecords(files.journal[..limit]).frames[i])
      ensures ok ==> count == |SplitRecords(files.journal[..limit]).frames|
      ensures ok ==> dec.View() == DecodeAll(dec.c, dec.p, SplitRecords(files.journal[..limit]).frames)
    {
      hide Accept, Acceptable, U32, SplitRecords, DecodeAll;
      count := 0;
      NothingDecoded(dec.c, dec.p);
      if |files.journal| < limit {
        return 0, false;
      }
      var covered := files.journal[..limit];
      var offset: nat := 0;
      ghost var done: seq<seq<byte>> := [];
      assert covered[0..] == covered;
      PrependOneMore([], [], SplitRecords(covered));
      while offset < limit
        invariant offset <= limit && count == |done| && dec.Valid()
        invariant dec.View() == DecodeAll(dec.c, dec.p, done)
        invariant forall i :: 0 <= i < |done| ==> Acceptable(dec.c, dec.p, done[i])
        invariant SplitRecords(covered) == PrependAll(done, SplitRecords(covered[offset..]))
      {
        ghost var here := covered[offset..];
        SplitStep(here);
        if limit - offset < RECORD_PREFIX {
          return count, false;
        }
        var length := U32(covered[offset..offset + RECORD_PREFIX]);
        assert here[..RECORD_PREFIX] == covered[offset..offset + RECORD_PREFIX];
        if length == 0 || length > MAX_RECORD {
          return count, false;
        }
        if limit - offset - RECORD_PREFIX < length {
          return count, false;
        }
        var start := offset + RECORD_PREFIX;
        var frame := covered[start..start + length];
        assert here[RECORD_PREFIX..][..length] == frame;
        assert here[RECORD_PREFIX..][length..] == covered[start + length..];
        PrependOneMore(done, frame, SplitRecords(covered[start + length..]));
        AcceptValid(dec.c, dec.p, dec.View(), frame);
        DecodeSnoc(dec.c, dec.p, done, frame);
        var outcome := dec.AcceptFrame(frame);
        if outcome == Rejected {
          RefusedIsListed(done, frame, SplitRecords(covered[start + length..]));
          return count, false;
        }
        done := done + [frame];
        offset := start + length;
        count := count + 1;
      }
      assert covered[offset..] == [];
      SplitStep([]);
      assert done + [] == done;
      ok := true;
    }

    method Begin(covered: nat)
      requires Valid()
      modifies this, files
      ensures Valid() && journalOpen && written == covered && state == old(state)
      ensures files.View() == AfterBegin(old(files.View()), covered)
    {
      ghost var d := AfterBegin(files.View(), covered);
      files.journal := Resized(files.journal, covered);
      files.Become(d);
      journalOpen := true;
      written := covered;
    }

    /** Appends one record; reached is how many of its bytes the operating system takes before it stops or fails. */
    method Append(frame: seq<byte>, reached: nat) returns (ok: bool)
      requires Valid()
      requires reached <= |Record(frame)|
      modifies this`written, files
      ensures Valid() && journalOpen == old(journalOpen)
      ensures ok <==> journalOpen && LegalSize(frame) && reached == |Record(frame)|
      ensures journalOpen && LegalSize(frame) ==>
        files.View() == AfterWrite(old(files.View()), Record(frame)[..reached]) && written == old(written) + reached
      ensures !(journalOpen && LegalSize(frame)) ==> files.View() == old(files.View()) && written == old(written)
    {
      if !journalOpen {
        return false;
      }
      if |frame| == 0 || |frame| > MAX_RECORD {
        return false;
      }
      var record := LeBytes(|frame|, RECORD_PREFIX) + frame;
      files.journal := files.journal + record[..reached];
      written := written + reached;
      return reached == |record|;
    }

    /** Writes the resume state: journal first, then a temporary file, then the rename. */
    method Save(saved: seq<byte>, outcome: SaveOutcome, ghost frames: seq<seq<byte>>) returns (ok: bool)
      requires Valid()
      modifies this`state, files
      ensures Valid()
      ensures ok <==> |saved| > 0 && (outcome == Completes || (outcome == SyncFails && !journalOpen))
      ensures ok ==> state == saved
      ensures ok ==> var flushed := if journalOpen then AfterSync(old(files.View())) else old(files.View());
        files.View() == AfterRename(flushed, Version(Some(saved), frames))
      ensures !ok ==> state == old(state)
      ensures !ok ==>
        files.View() == if |saved| > 0 && journalOpen && outcome != SyncFails then AfterSync(old(files.View())) else old(files.View())
    {
      if |saved| == 0 {
        return false;
      }
      if journalOpen {
        if outcome == SyncFails {
          return false;
        }
        files.Become(AfterSync(files.View()));
      }
      if outcome == TempFails || outcome == RenameFails {
        return false;
      }
      ghost var d := AfterRename(files.View(), Version(Some(saved), frames));
      files.index := Some(saved);
      files.Become(d);
      state := saved;
      return true;
    }
  }

  lemma NothingDecoded(c: Codec, p: Params)
    ensures DecodeAll(c, p, []) == Fresh(p)
  {}

  lemma SplitStep(b: seq<byte>)
    ensures |b| == 0 ==> SplitRecords(b) == Frames([])
    ensures 0 < |b| < RECORD_PREFIX ==> SplitRecords(b).Broken?
    ensures |b| >= RECORD_PREFIX ==>
      var length := U32(b[..RECORD_PREFIX]);
      if length == 0 || length > MAX_RECORD || |b| - RECORD_PREFIX < length then SplitRecords(b).Broken?
      else SplitRecords(b) == Prepend(b[RECORD_PREFIX..][..length], SplitRecords(b[RECORD_PREFIX..][length..]))
  {}

  lemma RefusedIsListed(done: seq<seq<byte>>, frame: seq<byte>, s: Split)
    ensures PrependAll(done + [frame], s).frames[|done|] == frame || PrependAll(done + [frame], s).Broken?
  {}
}
