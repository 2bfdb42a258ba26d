/** The BLAKE3 tree of scripts/blake3_ref.py, over an arbitrary compression function. */
module Blake3Tree {
  import opened Bits
  import opened LittleEndian

  const OUT_LEN: nat := 32
  const BLOCK_LEN: nat := 64
  const CHUNK_LEN: nat := 1024

  const CHUNK_START: bv8 := 1
  const CHUNK_END: bv8 := 2
  const PARENT: bv8 := 4
  const ROOT: bv8 := 8

  const IV: seq<nat> := [0x6A09E667, 0xBB67AE85, 0x3C6EF372, 0xA54FF53A, 0x510E527F, 0x9B05688C, 0x1F83D9AB, 0x5BE0CD19]

  type Words = seq<nat>

  /** Chaining value, block words, counter, block length, flags. */
  type Compress = (Words, Words, nat, nat, bv8) -> Words

  function First8(w: Words): Words {
    if |w| <= 8 then w else w[..8]
  }

  /** The data cut into pieces of n bytes; no data is one empty piece. */
  function Pieces(data: seq<byte>, n: nat): (r: seq<seq<byte>>)
    requires n > 0
    ensures |r| >= 1
    decreases |data|
  {
    if |data| <= n then [data] else [data[..n]] + Pieces(data[n..], n)
  }

  function WordsFromBlock(block: seq<byte>): Words
    requires |block| <= BLOCK_LEN
  {
    var padded := block + seq(BLOCK_LEN - |block|, _ => 0);
    seq(16, i requires 0 <= i < 16 => U32(padded[4 * i..4 * i + 4]))
  }

  // ----- one chunk

  function BlockFlags(i: nat, n: nat, flags: bv8, last: bv8): bv8 {
    flags | (if i == 0 then CHUNK_START else 0) | (if i + 1 == n then last else 0)
  }

  predicate AreBlocks(blocks: seq<seq<byte>>) {
    |blocks| >= 1 && forall i :: 0 <= i < |blocks| ==> |blocks[i]| <= BLOCK_LEN
  }

  /** The full output after k + 1 blocks of a chunk; last is added to the flags of the final block. */
  function ChunkOutput(f: Compress, blocks: seq<seq<byte>>, counter: nat, flags: bv8, last: bv8, k: nat): Words
    requires AreBlocks(blocks) && k < |blocks|
  {
    var cv := if k == 0 then IV else First8(ChunkOutput(f, blocks, counter, flags, last, k - 1));
    f(cv, WordsFromBlock(blocks[k]), counter, |blocks[k]|, BlockFlags(k, |blocks|, flags, last))
  }

  lemma {:induction false} PiecesBound(data: seq<byte>, n: nat)
    requires n > 0
    ensures forall i :: 0 <= i < |Pieces(data, n)| ==> |Pieces(data, n)[i]| <= n
    decreases |data|
  {
    if |data| > n {
      PiecesBound(data[n..], n);
    }
  }

  function Blocks(chunk: seq<byte>): (b: seq<seq<byte>>)
    ensures AreBlocks(b)
  {
    PiecesBound(chunk, BLOCK_LEN);
    Pieces(chunk, BLOCK_LEN)
  }

  function ChunkCv(f: Compress, chunk: seq<byte>, counter: nat): Words {
    First8(ChunkOutput(f, Blocks(chunk), counter, 0, CHUNK_END, |Blocks(chunk)| - 1))
  }

  function ParentOutput(f: Compress, left: Words, right: Words, flags: bv8): Words {
    f(IV, left + right, 0, BLOCK_LEN, PARENT | flags)
  }

  // ----- the recursive tree

  /** The largest power of two, from p up, that is less than n. */
  function LeftFrom(p: nat, n: nat): (r: nat)
    requires 0 < p < n
    ensures p <= r < n
    decreases n - p
  {
    if 2 * p >= n then p else LeftFrom(2 * p, n)
  }

  /** How many of n chunks the left subtree holds. */
  function LeftSize(n: nat): (r: nat)
    requires n >= 2
    ensures 0 < r < n
  {
    LeftFrom(1, n)
  }

  /** The chaining value of the subtree over n chunks from start on, which is not the root. */
  function Subtree(f: Compress, chunks: seq<seq<byte>>, start: nat, n: nat): Words
    requires n >= 1 && start + n <= |chunks|
    decreases n
  {
    if n == 1 then ChunkCv(f, chunks[start], start)
    else
      var k := LeftSize(n);
      First8(ParentOutput(f, Subtree(f, chunks, start, k), Subtree(f, chunks, start + k, n - k), 0))
  }

  /** The root's output: the only node compressed with ROOT. */
  function TreeRoot(f: Compress, chunks: seq<seq<byte>>): Words
    requires |chunks| >= 1
  {
    var n := |chunks|;
    if n == 1 then ChunkOutput(f, Blocks(chunks[0]), 0, 0, CHUNK_END | ROOT, |Blocks(chunks[0])| - 1)
    else
      var k := LeftSize(n);
      ParentOutput(f, Subtree(f, chunks, 0, k), Subtree(f, chunks, k, n - k), ROOT)
  }

  function WordBytes(w: nat): seq<byte> {
    [w % 256, w / 256 % 256, w / 65536 % 256, w / 16777216 % 256]
  }

  function OutputBytes(words: Words): seq<byte> {
    if |words| == 0 then [] else WordBytes(words[0]) + OutputBytes(words[1..])
  }

  /** The hash of the data, by the recursive definition. */
  function Hash(f: Compress, data: seq<byte>): seq<byte> {
    OutputBytes(First8(TreeRoot(f, Pieces(data, CHUNK_LEN))))
  }

  // ----- powers of two

  ghost predicate IsPow2(p: nat) {
    exists k: nat :: p == Pow2(k)
  }

  lemma LeftIsUnit(p: nat, n: nat)
    requires IsPow2(p) && p < n <= 2 * p
    ensures LeftSize(n) == p
  {
    var k: nat :| p == Pow2(k);
    LeftClimb(0, k, n);
  }

  lemma {:induction false} LeftClimb(i: nat, k: nat, n: nat)
    requires i <= k && Pow2(k) < n <= 2 * Pow2(k)
    requires Pow2(i) < n
    ensures LeftFrom(Pow2(i), n) == Pow2(k)
    decreases k - i
  {
    if i < k {
      Pow2Monotone(i + 1, k);
      LeftClimb(i + 1, k, n);
    }
  }

  lemma NextPow2(p: nat)
    requires IsPow2(p)
    ensures IsPow2(2 * p)
  {
    var k: nat :| p == Pow2(k);
    assert 2 * p == Pow2(k + 1);
  }

  /** A subtree over more than p and at most 2p chunks splits after p of them. */
  lemma SplitAtUnit(f: Compress, chunks: seq<seq<byte>>, start: nat, p: nat, r: nat)
    requires IsPow2(p) && 1 <= r <= p && start + p + r <= |chunks|
    ensures Subtree(f, chunks, start, p + r)
         == First8(ParentOutput(f, Subtree(f, chunks, start, p), Subtree(f, chunks, start + p, r), 0))
  {
    hide Subtree, ParentOutput, First8, LeftSize;
    LeftIsUnit(p, p + r);
    SubtreeUnfold(f, chunks, start, p + r);
  }

  lemma SubtreeUnfold(f: Compress, chunks: seq<seq<byte>>, start: nat, n: nat)
    requires n >= 2 && start + n <= |chunks|
    ensures var k := LeftSize(n);
      Subtree(f, chunks, start, n) == First8(ParentOutput(f, Subtree(f, chunks, start, k), Subtree(f, chunks, start + k, n - k), 0))
  {
    hide ParentOutput, First8, LeftSize, ChunkCv;
  }

  // ----- the stack

  /** What the stack holds after t * p chunks: one subtree for each set bit of t, the bit of weight w standing for w * p
      chunks, the largest at the bottom. */
  function Stack(f: Compress, chunks: seq<seq<byte>>, t: nat, p: nat): seq<Words>
    requires p >= 1 && t * p <= |chunks|
    decreases t
  {
    if t == 0 then []
    else
      Halve(t, p);
      if t % 2 == 1 then Stack(f, chunks, t / 2, 2 * p) + [Subtree(f, chunks, (t - 1) * p, p)]
      else Stack(f, chunks, t / 2, 2 * p)
  }

  lemma Halve(t: nat, p: nat)
    requires t > 0
    ensures t / 2 * (2 * p) == (if t % 2 == 1 then t - 1 else t) * p
    ensures t % 2 == 1 ==> (t - 1) * p + p == t * p
  {
    if t % 2 == 1 {
      assert t / 2 * 2 == t - 1;
    } else {
      assert t / 2 * 2 == t;
    }
    assert t / 2 * (2 * p) == (t / 2 * 2) * p;
  }

  function SetBits(t: nat): nat {
    if t == 0 then 0 else SetBits(t / 2) + t % 2
  }

  lemma {:induction false} StackSize(f: Compress, chunks: seq<seq<byte>>, t: nat, p: nat)
    requires p >= 1 && t * p <= |chunks|
    ensures |Stack(f, chunks, t, p)| == SetBits(t)
    decreases t
  {
    if t > 0 {
      Halve(t, p);
      StackSize(f, chunks, t / 2, 2 * p);
    }
  }

  lemma {:induction false} SomeBitSet(t: nat)
    requires t > 0
    ensures SetBits(t) > 0
  {
    if t % 2 == 0 {
      SomeBitSet(t / 2);
    }
  }

  // ----- the incremental algorithm

  method ChunkChainingValue(f: Compress, chunk: seq<byte>, counter: nat, flags: bv8, last: bv8) returns (state: Words)
    ensures state == ChunkOutput(f, Blocks(chunk), counter, flags, last, |Blocks(chunk)| - 1)
  {
    var blocks := Blocks(chunk);
    var cv := IV;
    state := [];
    for index := 0 to |blocks|
      invariant index > 0 ==> state == ChunkOutput(f, blocks, counter, flags, last, index - 1)
      invariant cv == if index == 0 then IV else First8(state)
    {
      var blockFlags := flags;
      if index == 0 {
        blockFlags := blockFlags | CHUNK_START;
      }
      if index == |blocks| - 1 {
        blockFlags := blockFlags | last;
      }
      FlagsAgree(index, |blocks|, flags, last);
      state := f(cv, WordsFromBlock(blocks[index]), counter, |blocks[index]|, blockFlags);
      cv := First8(state);
    }
  }

  lemma FlagsAgree(i: nat, n: nat, flags: bv8, last: bv8)
    ensures i == 0 && i + 1 == n ==> BlockFlags(i, n, flags, last) == flags | CHUNK_START | last
    ensures i == 0 && i + 1 != n ==> BlockFlags(i, n, flags, last) == flags | CHUNK_START
    ensures i != 0 && i + 1 == n ==> BlockFlags(i, n, flags, last) == flags | last
    ensures i != 0 && i + 1 != n ==> BlockFlags(i, n, flags, last) == flags
  {}

  lemma UnitIsPow2()
    ensures IsPow2(1)
  {
    assert 1 == Pow2(0);
  }

  /** Adds the chaining value of chunk m, merging while the count of completed chunks makes a subtree whole. */
  method PushChunk(f: Compress, stack: seq<Words>, chunk: seq<byte>, m: nat, ghost chunks: seq<seq<byte>>) returns (result: seq<Words>)
    requires m < |chunks| && chunk == chunks[m]
    requires stack == Stack(f, chunks, m, 1)
    ensures result == Stack(f, chunks, m + 1, 1)
  {
    hide Subtree, ParentOutput, First8, ChunkOutput, Stack, IsPow2;
    result := stack;
    var state := ChunkChainingValue(f, chunk, m, 0, CHUNK_END);
    var cv := First8(state);
    SubtreeOfOne(f, chunks, m);
    var total := m + 1;
    ghost var p := 1;
    UnitIsPow2();
    while total % 2 == 0
      invariant total >= 1 && p >= 1 && total * p == m + 1 && IsPow2(p)
      invariant (total - 1) * p == m + 1 - p
      invariant result == Stack(f, chunks, total - 1, p)
      invariant cv == Subtree(f, chunks, m + 1 - p, p)
      invariant Stack(f, chunks, total, p) == Stack(f, chunks, m + 1, 1)
      decreases total
    {
      PopOdd(f, chunks, total, p);
      var top := result[|result| - 1];
      result := result[..|result| - 1];
      SplitAtUnit(f, chunks, m + 1 - 2 * p, p, p);
      cv := First8(ParentOutput(f, top, cv, 0));
      total := total / 2;
      NextPow2(p);
      p := 2 * p;
    }
    PushOdd(f, chunks, total, p);
    result := result + [cv];
  }

  lemma SubtreeOfOne(f: Compress, chunks: seq<seq<byte>>, m: nat)
    requires m < |chunks|
    ensures Subtree(f, chunks, m, 1) == ChunkCv(f, chunks[m], m)
  {}

  /** An even count leaves an odd one before it: the top of the stack is the left sibling. */
  lemma PopOdd(f: Compress, chunks: seq<seq<byte>>, total: nat, p: nat)
    requires p >= 1 && total >= 1 && total % 2 == 0 && total * p <= |chunks|
    ensures total / 2 * (2 * p) == total * p && (total - 1) * p == total * p - p
    ensures (total / 2 - 1) * (2 * p) == total * p - 2 * p && total * p >= 2 * p
    ensures Stack(f, chunks, total - 1, p) == Stack(f, chunks, total / 2 - 1, 2 * p) + [Subtree(f, chunks, total * p - 2 * p, p)]
    ensures Stack(f, chunks, total, p) == Stack(f, chunks, total / 2, 2 * p)
  {
    hide Subtree;
    var h := total / 2;
    assert total == 2 * h;
    assert total * p == h * (2 * p);
    assert (total - 1) * p == total * p - p;
    assert (h - 1) * (2 * p) == h * (2 * p) - 2 * p;
    assert (total - 1) / 2 == h - 1;
    assert (total - 2) * p == total * p - 2 * p;
    assert (total - 1 - 1) * p == total * p - 2 * p;
  }

  lemma PushOdd(f: Compress, chunks: seq<seq<byte>>, total: nat, p: nat)
    requires p >= 1 && total % 2 == 1 && total * p <= |chunks|
    ensures (total - 1) * p <= |chunks|
    ensures Stack(f, chunks, total, p) == Stack(f, chunks, total - 1, p) + [Subtree(f, chunks, (total - 1) * p, p)]
  {
    hide Subtree;
    Halve(total, p);
    if total > 1 {
      assert (total - 1) / 2 == total / 2;
      Halve(total - 1, p);
    }
  }

  /** total chunks are t units of p chunks each. */
  ghost predicate Units(t: nat, p: nat, total: nat) {
    p >= 1 && IsPow2(p) && t * p == total
  }

  /** The same stack, counted in larger units until its top is explicit. */
  lemma {:induction false} TopUnit(f: Compress, chunks: seq<seq<byte>>, t: nat, p: nat, total: nat) returns (t': nat, p': nat, base: nat)
    requires t > 0 && Units(t, p, total) && total <= |chunks|
    ensures p' >= p && IsPow2(p') && base + p' == total
    ensures Units(t', 2 * p', base) && (t' == 0 ==> base == 0)
    ensures Stack(f, chunks, t, p) == Stack(f, chunks, t', 2 * p') + [Subtree(f, chunks, base, p')]
    decreases t
  {
    hide Subtree, IsPow2;
    Halve(t, p);
    NextPow2(p);
    if t % 2 == 1 {
      t', p', base := t / 2, p, (t - 1) * p;
    } else {
      t', p', base := TopUnit(f, chunks, t / 2, 2 * p, total);
    }
  }

  /** Merges the last chunk down the stack, the last merge carrying ROOT. */
  method MergeDown(f: Compress, stack: seq<Words>, last: Words, ghost chunks: seq<seq<byte>>) returns (state: Words)
    requires |chunks| >= 2
    requires stack == Stack(f, chunks, |chunks| - 1, 1)
    requires last == Subtree(f, chunks, |chunks| - 1, 1)
    ensures state == TreeRoot(f, chunks)
  {
    hide Subtree, ParentOutput, First8, TreeRoot, Stack, IsPow2, LeftSize, Units;
    ghost var n := |chunks|;
    var right := last;
    var rest := stack;
    ghost var t: nat, p: nat, r: nat, total: nat := n - 1, 1, 1, n - 1;
    SingleChunks(n - 1);
    NonemptyStack(f, chunks, t, p, total);
    while |rest| > 1
      invariant Units(t, p, total) && 1 <= r <= p && total + r == n
      invariant p >= 1 && t * p <= n && rest == Stack(f, chunks, t, p) && |rest| > 0 && t > 0
      invariant right == Subtree(f, chunks, total, r)
      decreases |rest|
    {
      ghost var t', p', base := TopUnit(f, chunks, t, p, total);
      NonemptyStack(f, chunks, t', 2 * p', base);
      SplitAtUnit(f, chunks, base, p', r);
      right := First8(ParentOutput(f, rest[|rest| - 1], right, 0));
      rest := rest[..|rest| - 1];
      t, p, r, total := t', 2 * p', p' + r, base;
    }
    ghost var t', p', base := TopUnit(f, chunks, t, p, total);
    NonemptyStack(f, chunks, t', 2 * p', base);
    LeftIsUnit(p', n);
    RootUnfold(f, chunks);
    state := ParentOutput(f, rest[|rest| - 1], right, ROOT);
  }

  lemma SingleChunks(n: nat)
    ensures Units(n, 1, n)
  {
    UnitIsPow2();
  }

  lemma NonemptyStack(f: Compress, chunks: seq<seq<byte>>, t: nat, p: nat, total: nat)
    requires Units(t, p, total) && total <= |chunks|
    ensures p >= 1 && t * p <= |chunks|
    ensures |Stack(f, chunks, t, p)| > 0 <==> t > 0
  {
    hide Stack, IsPow2;
    StackSize(f, chunks, t, p);
    if t > 0 {
      SomeBitSet(t);
    }
  }

  lemma RootUnfold(f: Compress, chunks: seq<seq<byte>>)
    requires |chunks| >= 2
    ensures var k := LeftSize(|chunks|);
      TreeRoot(f, chunks) == ParentOutput(f, Subtree(f, chunks, 0, k), Subtree(f, chunks, k, |chunks| - k), ROOT)
  {
    hide Subtree, ParentOutput, LeftSize, ChunkOutput;
  }

  datatype Result = Hashed(bytes: seq<byte>) | TooLong

  /** The incremental hash equals the recursive one for every input. */
  method Blake3(f: Compress, data: seq<byte>, outLen: nat) returns (result: Result)
    ensures outLen > OUT_LEN ==> result == TooLong
    ensures outLen <= OUT_LEN ==>
      result == Hashed(if outLen <= |Hash(f, data)| then Hash(f, data)[..outLen] else Hash(f, data))
  {
    hide TreeRoot, OutputBytes, Pieces, First8, ChunkOutput, Subtree, ParentOutput, Blocks;
    if outLen > OUT_LEN {
      return TooLong;
    }
    var chunks := Pieces(data, CHUNK_LEN);
    var state: Words;
    if |chunks| == 1 {
      state := ChunkChainingValue(f, chunks[0], 0, 0, CHUNK_END | ROOT);
      RootOfOne(f, chunks);
    } else {
      var stack: seq<Words> := [];
      EmptyStack(f, chunks);
      hide Stack;
      for counter := 0 to |chunks| - 1
        invariant stack == Stack(f, chunks, counter, 1)
      {
        stack := PushChunk(f, stack, chunks[counter], counter, chunks);
      }
      var last := ChunkChainingValue(f, chunks[|chunks| - 1], |chunks| - 1, 0, CHUNK_END);
      SubtreeOfOne(f, chunks, |chunks| - 1);
      state := MergeDown(f, stack, First8(last), chunks);
    }
    var bytes := OutputBytes(First8(state));
    result := Hashed(if outLen <= |bytes| then bytes[..outLen] else bytes);
  }

  lemma EmptyStack(f: Compress, chunks: seq<seq<byte>>)
    ensures Stack(f, chunks, 0, 1) == []
  {}

  lemma RootOfOne(f: Compress, chunks: seq<seq<byte>>)
    requires |chunks| == 1
    ensures TreeRoot(f, chunks) == ChunkOutput(f, Blocks(chunks[0]), 0, 0, CHUNK_END | ROOT, |Blocks(chunks[0])| - 1)
  {}

  // ----- ROOT is confined to the top

  /** The two compression functions agree wherever ROOT is not among the flags. */
  ghost predicate AgreeBelowRoot(f: Compress, g: Compress) {
    forall cv: Words, block: Words, counter: nat, len: nat, flags: bv8 {:trigger f(cv, block, counter, len, flags)} ::
      flags & ROOT == 0 ==> f(cv, block, counter, len, flags) == g(cv, block, counter, len, flags)
  }

  lemma NoRootFlag(i: nat, n: nat)
    ensures BlockFlags(i, n, 0, CHUNK_END) & ROOT == 0 && (PARENT | 0) & ROOT == 0
  {}

  lemma {:induction false} ChunkIgnoresRoot(f: Compress, g: Compress, blocks: seq<seq<byte>>, counter: nat, k: nat)
    requires AgreeBelowRoot(f, g) && AreBlocks(blocks) && k < |blocks|
    ensures ChunkOutput(f, blocks, counter, 0, CHUNK_END, k) == ChunkOutput(g, blocks, counter, 0, CHUNK_END, k)
  {
    hide WordsFromBlock, First8, BlockFlags;
    if k > 0 {
      ChunkIgnoresRoot(f, g, blocks, counter, k - 1);
    }
    NoRootFlag(k, |blocks|);
  }

  /** No node below the root is ever compressed with ROOT. */
  lemma {:induction false} SubtreeIgnoresRoot(f: Compress, g: Compress, chunks: seq<seq<byte>>, start: nat, n: nat)
    requires AgreeBelowRoot(f, g) && n >= 1 && start + n <= |chunks|
    ensures Subtree(f, chunks, start, n) == Subtree(g, chunks, start, n)
    decreases n
  {
    hide First8, ChunkOutput, LeftSize, BlockFlags;
    if n == 1 {
      ChunkIgnoresRoot(f, g, Blocks(chunks[start]), start, |Blocks(chunks[start])| - 1);
    } else {
      SubtreeIgnoresRoot(f, g, chunks, start, LeftSize(n));
      SubtreeIgnoresRoot(f, g, chunks, start + LeftSize(n), n - LeftSize(n));
      NoRootFlag(0, 1);
    }
  }

  // ----- small inputs, written out

  /** Input of one block: one compression, with START, END and ROOT. */
  lemma OneBlockHash(f: Compress, data: seq<byte>)
    requires |data| <= 64
    ensures Hash(f, data) == OutputBytes(First8(
      f([0x6A09E667, 0xBB67AE85, 0x3C6EF372, 0xA54FF53A, 0x510E527F, 0x9B05688C, 0x1F83D9AB, 0x5BE0CD19],
        WordsFromBlock(data), 0, |data|, 11)))
  {
    hide WordsFromBlock, OutputBytes, First8;
    assert Pieces(data, CHUNK_LEN) == [data] && Blocks(data) == [data];
  }

  /** A chunk of two blocks: START on the first, END on the second, the same counter on both. */
  lemma TwoBlockChunk(f: Compress, chunk: seq<byte>, counter: nat)
    requires 64 < |chunk| <= 128
    ensures ChunkCv(f, chunk, counter) == First8(f(First8(
      f([0x6A09E667, 0xBB67AE85, 0x3C6EF372, 0xA54FF53A, 0x510E527F, 0x9B05688C, 0x1F83D9AB, 0x5BE0CD19],
        WordsFromBlock(chunk[..64]), counter, 64, 1)), WordsFromBlock(chunk[64..]), counter, |chunk| - 64, 2))
  {
    hide WordsFromBlock, First8;
    var blocks := Blocks(chunk);
    assert Pieces(chunk[64..], BLOCK_LEN) == [chunk[64..]];
    assert blocks == [chunk[..64], chunk[64..]];
    var flags: bv8 := 0;
    assert BlockFlags(0, 2, flags, CHUNK_END) == 1 && BlockFlags(1, 2, flags, CHUNK_END) == 2;
    assert ChunkOutput(f, blocks, counter, 0, CHUNK_END, 0) == f(IV, WordsFromBlock(chunk[..64]), counter, 64, 1);
  }

  /** Input of two chunks: the first chunk's value to the left of the second's, under PARENT and ROOT. */
  lemma TwoChunkHash(f: Compress, data: seq<byte>)
    requires 1024 < |data| <= 2048
    ensures Hash(f, data) == OutputBytes(First8(
      f([0x6A09E667, 0xBB67AE85, 0x3C6EF372, 0xA54FF53A, 0x510E527F, 0x9B05688C, 0x1F83D9AB, 0x5BE0CD19],
        ChunkCv(f, data[..1024], 0) + ChunkCv(f, data[1024..], 1), 0, 64, 12)))
  {
    hide ChunkCv, OutputBytes, First8;
    assert Pieces(data[1024..], CHUNK_LEN) == [data[1024..]];
    var chunks := Pieces(data, CHUNK_LEN);
    assert chunks == [data[..1024], data[1024..]];
    assert LeftSize(2) == 1;
    assert Subtree(f, chunks, 0, 1) == ChunkCv(f, data[..1024], 0) && Subtree(f, chunks, 1, 1) == ChunkCv(f, data[1024..], 1);
    assert PARENT | ROOT == 12;
  }

  /** A block's words are little-endian, and the bytes past its end are zero. */
  lemma BlockWords(block: seq<byte>, i: nat)
    requires |block| <= 64 && i < 16
    ensures WordsFromBlock(block)[i] ==
      (ByteAt(block, 4 * i) as int) + 256 * (ByteAt(block, 4 * i + 1) as int) + 65536 * (ByteAt(block, 4 * i + 2) as int)
        + 16777216 * (ByteAt(block, 4 * i + 3) as int)
  {
    var padded := block + seq(BLOCK_LEN - |block|, _ => 0);
    var w := padded[4 * i..4 * i + 4];
    assert w[0] == ByteAt(block, 4 * i) && w[1] == ByteAt(block, 4 * i + 1) && w[2] == ByteAt(block, 4 * i + 2) && w[3] == ByteAt(block, 4 * i + 3);
    FourBytes(w);
  }

  function ByteAt(block: seq<byte>, k: nat): byte {
    if k < |block| then block[k] else 0
  }

  /** The output's words are written little-endian. */
  lemma {:induction false} OutputAt(words: Words, i: nat)
    requires i < |words|
    ensures |OutputBytes(words)| == 4 * |words|
    ensures OutputBytes(words)[4 * i..4 * i + 4] == [words[i] % 256, words[i] / 256 % 256, words[i] / 65536 % 256, words[i] / 16777216 % 256]
    decreases |words|
  {
    OutputLength(words);
    if i > 0 {
      OutputAt(words[1..], i - 1);
      OutputLength(words[1..]);
      assert OutputBytes(words)[4 * i..4 * i + 4] == OutputBytes(words[1..])[4 * (i - 1)..4 * (i - 1) + 4];
    }
  }

  lemma {:induction false} OutputLength(words: Words)
    ensures |OutputBytes(words)| == 4 * |words|
  {
    if |words| > 0 {
      OutputLength(words[1..]);
    }
  }

  // ----- left is left

  /** Under PARENT the compression looks at the first eight block words only. */
  ghost predicate IgnoresRight(f: Compress) {
    && (forall cv: Words, block: Words, counter: nat, len: nat, flags: bv8 {:trigger f(cv, block, counter, len, flags)} ::
          |f(cv, block, counter, len, flags)| >= 8)
    && forall cv: Words, block: Words, other: Words, counter: nat, len: nat, flags: bv8
         {:trigger f(cv, block, counter, len, flags), f(cv, other, counter, len, flags)} ::
         flags & PARENT != 0 && |block| >= 8 && |other| >= 8 && block[..8] == other[..8] ==>
           f(cv, block, counter, len, flags) == f(cv, other, counter, len, flags)
  }

  lemma SameParent(f: Compress, left: Words, right: Words, other: Words, flags: bv8)
    requires IgnoresRight(f) && |left| == 8
    ensures ParentOutput(f, left, right, flags) == ParentOutput(f, left, other, flags)
  {
    assert (left + right)[..8] == left && (left + other)[..8] == left;
    assert (PARENT | flags) & PARENT != 0;
  }

  lemma SubtreeWidth(f: Compress, chunks: seq<seq<byte>>, start: nat, n: nat)
    requires IgnoresRight(f) && n >= 1 && start + n <= |chunks|
    ensures |Subtree(f, chunks, start, n)| == 8
  {
    hide LeftSize;
  }

  lemma {:induction false} LeftmostSubtree(f: Compress, a: seq<seq<byte>>, b: seq<seq<byte>>, n: nat)
    requires IgnoresRight(f) && 1 <= n <= |a| && n <= |b| && a[0] == b[0]
    ensures Subtree(f, a, 0, n) == Subtree(f, b, 0, n)
    decreases n
  {
    hide IgnoresRight, ParentOutput, ChunkCv, LeftSize;
    if n > 1 {
      var k := LeftSize(n);
      LeftmostSubtree(f, a, b, k);
      SubtreeWidth(f, a, 0, k);
      SameParent(f, Subtree(f, a, 0, k), Subtree(f, a, k, n - k), Subtree(f, b, k, n - k), 0);
    }
  }

  /** Left subtrees come first all the way down: if parents ignore their right child, only the first chunk and the number of
      chunks matter. */
  lemma LeftmostDecides(f: Compress, a: seq<byte>, b: seq<byte>)
    requires IgnoresRight(f)
    requires |Pieces(a, CHUNK_LEN)| == |Pieces(b, CHUNK_LEN)| && Pieces(a, CHUNK_LEN)[0] == Pieces(b, CHUNK_LEN)[0]
    ensures Hash(f, a) == Hash(f, b)
  {
    hide IgnoresRight, ParentOutput, ChunkOutput, LeftSize, Subtree, Pieces, OutputBytes, First8;
    var (x, y) := (Pieces(a, CHUNK_LEN), Pieces(b, CHUNK_LEN));
    var n := |x|;
    if n > 1 {
      var k := LeftSize(n);
      LeftmostSubtree(f, x, y, k);
      SubtreeWidth(f, x, 0, k);
      SameParent(f, Subtree(f, x, 0, k), Subtree(f, x, k, n - k), Subtree(f, y, k, n - k), ROOT);
    }
  }
}
