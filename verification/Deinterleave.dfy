/** deinterleaveAndCorrect of cli/internal/qr/decode.go: collecting the blocks, repairing each, joining their data. */
module Deinterleave {
  import opened Wrappers
  import opened Arithmetic
  import opened Bits
  import opened GaloisTables
  import opened CodeTheory
  import opened BlockLayout
  import opened ReedSolomon

  /** The codeword a correctable block is repaired to. */
  ghost function Repaired(r: Word, eccLen: nat): (c: Word)
    requires Correctable(r, eccLen)
    ensures CloseCodeword(r, c, eccLen)
  {
    var c :| CloseCodeword(r, c, eccLen);
    c
  }

  lemma RepairedIsUnique(r: Word, c: Word, eccLen: nat)
    requires 0 < eccLen < |r| <= 255 && CloseCodeword(r, c, eccLen)
    ensures Correctable(r, eccLen) && Repaired(r, eccLen) == c
  {
    UniqueDecoding(r, c, Repaired(r, eccLen), eccLen);
  }

  ghost predicate AllCorrectable(lay: Layout, codewords: seq<byte>)
    requires lay.Valid() && |codewords| >= lay.totalCodewords
  {
    forall j: nat :: j < lay.numBlocks ==> Correctable(lay.Gather(codewords, j), lay.eccLen)
  }

  /** The data bytes of the first n blocks, each as repaired. */
  ghost function RepairedData(lay: Layout, codewords: seq<byte>, n: nat): seq<byte>
    requires lay.Valid() && n <= lay.numBlocks && |codewords| >= lay.totalCodewords
    requires forall j: nat :: j < n ==> Correctable(lay.Gather(codewords, j), lay.eccLen)
  {
    if n == 0 then []
    else RepairedData(lay, codewords, n - 1) + Repaired(lay.Gather(codewords, n - 1), lay.eccLen)[..lay.DataLen(n - 1)]
  }

  /** Every byte of every block is where the interleaving put it. */
  ghost predicate Filled(blocks: array2<byte>, lay: Layout, codewords: seq<byte>)
    requires lay.Valid() && |codewords| >= lay.totalCodewords
    reads blocks
  {
    && blocks.Length0 == lay.numBlocks && blocks.Length1 == lay.shortBlockLen + 1
    && forall i: nat, j: nat {:trigger blocks[j, i]} :: i <= lay.shortBlockLen && j < lay.numBlocks && lay.Present(i, j) ==>
      blocks[j, i] == codewords[lay.Index(i, j)]
  }

  /** Collects the interleaved bytes into one row per block, leaving the short blocks' hole. */
  method FillBlocks(codewords: seq<byte>, lay: Layout) returns (blocks: array2<byte>)
    requires lay.Valid() && |codewords| >= lay.totalCodewords
    ensures fresh(blocks) && Filled(blocks, lay, codewords)
  {
    Total(lay);
    blocks := new byte[lay.numBlocks, lay.shortBlockLen + 1]((_, _) => 0);
    var k := 0;
    for i := 0 to lay.shortBlockLen + 1
      invariant k == lay.Start(i)
      invariant forall r: nat, j: nat {:trigger blocks[j, r]} :: r < i && j < lay.numBlocks && lay.Present(r, j) ==>
        blocks[j, r] == codewords[lay.Index(r, j)]
    {
      NextStart(lay, i);
      for j := 0 to lay.numBlocks
        invariant k == lay.Start(i) + if i == lay.shortBlockDataLen then (if j < lay.numShortBlocks then 0 else j - lay.numShortBlocks) else j
        invariant forall r: nat, b: nat {:trigger blocks[b, r]} :: r < i && b < lay.numBlocks && lay.Present(r, b) ==>
          blocks[b, r] == codewords[lay.Index(r, b)]
        invariant forall b: nat {:trigger blocks[b, i]} :: b < j && lay.Present(i, b) ==> blocks[b, i] == codewords[lay.Index(i, b)]
      {
        if !(i == lay.shortBlockDataLen && j < lay.numShortBlocks) {
          assert k == lay.Index(i, j);
          blocks[j, i] := codewords[k];
          k := k + 1;
        }
      }
    }
  }

  /** The bytes of block j with the hole closed. */
  method TakeBlock(blocks: array2<byte>, lay: Layout, ghost codewords: seq<byte>, j: nat) returns (codeword: array<byte>)
    requires lay.Valid() && j < lay.numBlocks && |codewords| >= lay.totalCodewords && Filled(blocks, lay, codewords)
    ensures fresh(codeword) && codeword[..] == lay.Gather(codewords, j)
  {
    Total(lay);
    codeword := new byte[lay.BlockLen(j)](_ => 0);
    for p := 0 to lay.BlockLen(j)
      invariant forall q: nat :: q < p ==> codeword[q] == codewords[lay.Where(j, q)]
    {
      codeword[p] := blocks[j, lay.Row(j, p)];
    }
  }

  /** Succeeds exactly when every block is within reach of a codeword, and then returns the repaired data. */
  method DeinterleaveAndCorrect(f: Field, codewords: seq<byte>, lay: Layout) returns (result: Option<seq<byte>>)
    requires f.Valid() && lay.Valid()
    ensures result.Some? <==> |codewords| >= lay.totalCodewords && AllCorrectable(lay, codewords)
    ensures result.Some? ==> result.value == RepairedData(lay, codewords, lay.numBlocks)
  {
    hide Correctable, CloseCodeword, Filled;
    if |codewords| < lay.totalCodewords {
      return None;
    }
    var blocks := FillBlocks(codewords, lay);
    var data: seq<byte> := [];
    for j := 0 to lay.numBlocks
      invariant forall b: nat :: b < j ==> Correctable(lay.Gather(codewords, b), lay.eccLen)
      invariant Filled(blocks, lay, codewords)
      invariant data == RepairedData(lay, codewords, j)
    {
      var codeword := TakeBlock(blocks, lay, codewords, j);
      var ok := Correct(f, codeword, lay.eccLen);
      if !ok {
        return None;
      }
      BlockFits(lay, codewords, j);
      RepairedIsUnique(lay.Gather(codewords, j), codeword[..], lay.eccLen);
      data := data + codeword[..lay.DataLen(j)];
    }
    return Some(data);
  }

  lemma BlockFits(lay: Layout, codewords: seq<byte>, j: nat)
    requires lay.Valid() && j < lay.numBlocks && |codewords| >= lay.totalCodewords
    ensures lay.eccLen < |lay.Gather(codewords, j)| <= 255
  {}

  // ----- what reception achieves

  /** The data bytes of the first n blocks, as sent. */
  function SentData(lay: Layout, cw: seq<Word>, n: nat): seq<byte>
    requires Blocks(lay, cw) && n <= lay.numBlocks
  {
    if n == 0 then [] else SentData(lay, cw, n - 1) + cw[n - 1][..lay.DataLen(n - 1)]
  }

  lemma {:induction false} DataRecovered(lay: Layout, cw: seq<Word>, received: seq<byte>, n: nat)
    requires lay.Valid() && Blocks(lay, cw) && |received| >= lay.totalCodewords && n <= lay.numBlocks
    requires forall j: nat :: j < lay.numBlocks ==> CloseCodeword(lay.Gather(received, j), cw[j], lay.eccLen)
    ensures AllCorrectable(lay, received)
    ensures RepairedData(lay, received, n) == SentData(lay, cw, n)
  {
    hide CloseCodeword, Correctable;
    forall j: nat | j < lay.numBlocks
      ensures Correctable(lay.Gather(received, j), lay.eccLen) && Repaired(lay.Gather(received, j), lay.eccLen) == cw[j]
    {
      BlockFits(lay, received, j);
      RepairedIsUnique(lay.Gather(received, j), cw[j], lay.eccLen);
    }
    if n > 0 {
      DataRecovered(lay, cw, received, n - 1);
    }
  }

  /** Damage of at most half the redundancy in each block leaves the transmitted data recoverable. */
  lemma ScatteredDamageRepaired(lay: Layout, cw: seq<Word>, received: seq<byte>)
    requires lay.Valid() && Blocks(lay, cw) && |received| >= lay.totalCodewords
    requires forall j: nat :: j < lay.numBlocks ==> IsCodeword(cw[j], lay.eccLen)
    requires forall j: nat :: j < lay.numBlocks ==> Distance(lay.Gather(received, j), cw[j]) <= lay.eccLen / 2
    ensures AllCorrectable(lay, received)
    ensures RepairedData(lay, received, lay.numBlocks) == SentData(lay, cw, lay.numBlocks)
  {
    hide Distance, IsCodeword;
    forall j: nat | j < lay.numBlocks
      ensures CloseCodeword(lay.Gather(received, j), cw[j], lay.eccLen)
    {}
    DataRecovered(lay, cw, received, lay.numBlocks);
  }

  /** Any smear of up to numBlocks * (eccLen / 2 - 1) consecutive codewords is repaired. */
  lemma SmearRepaired(lay: Layout, cw: seq<Word>, received: seq<byte>, start: nat, run: nat)
    requires lay.Valid() && Blocks(lay, cw) && |received| == lay.totalCodewords
    requires forall j: nat :: j < lay.numBlocks ==> IsCodeword(cw[j], lay.eccLen)
    requires forall k: nat :: k < |received| && received[k] != Interleave(lay, cw)[k] ==> start <= k < start + run
    requires run <= lay.numBlocks * (lay.eccLen / 2 - 1)
    ensures AllCorrectable(lay, received)
    ensures RepairedData(lay, received, lay.numBlocks) == SentData(lay, cw, lay.numBlocks)
  {
    hide Distance, IsCodeword, Interleave;
    forall j: nat | j < lay.numBlocks
      ensures Distance(lay.Gather(received, j), cw[j]) <= lay.eccLen / 2
    {
      RunDamage(lay, Interleave(lay, cw), received, start, run, j);
      GatherInterleaved(lay, cw, j);
      RunFits(run, lay.numBlocks, lay.eccLen / 2 - 1);
    }
    ScatteredDamageRepaired(lay, cw, received);
  }

  lemma RunFits(run: nat, n: nat, t: int)
    requires n > 0 && run <= n * t
    ensures (run + n - 1) / n <= t
  {
    ModuloBound(run + n - 1, n);
    if (run + n - 1) / n >= t + 1 {
      MulMonotone(t + 1, (run + n - 1) / n, n);
    }
  }

  lemma {:induction false} SentLength(lay: Layout, cw: seq<Word>, n: nat)
    requires lay.Valid() && Blocks(lay, cw) && n <= lay.numBlocks
    ensures |SentData(lay, cw, n)| == n * lay.shortBlockDataLen + if n > lay.numShortBlocks then n - lay.numShortBlocks else 0
  {
    if n > 0 {
      SentLength(lay, cw, n - 1);
      assert n * lay.shortBlockDataLen == (n - 1) * lay.shortBlockDataLen + lay.shortBlockDataLen;
    }
  }

  lemma SentDataLength(lay: Layout, cw: seq<Word>)
    requires lay.Valid() && Blocks(lay, cw)
    ensures |SentData(lay, cw, lay.numBlocks)| == lay.dataCodewords
  {
    SentLength(lay, cw, lay.numBlocks);
    Total(lay);
    var n := lay.numBlocks;
    assert (lay.shortBlockLen + 1) * n == n * lay.shortBlockDataLen + lay.eccLen * n + n;
  }

  /** Whatever correctable codewords come in, the recovered data has the length the layout announces. */
  lemma RecoveredLength(lay: Layout, codewords: seq<byte>)
    requires lay.Valid() && |codewords| >= lay.totalCodewords && AllCorrectable(lay, codewords)
    ensures |RepairedData(lay, codewords, lay.numBlocks)| == lay.dataCodewords
  {
    hide Correctable, SentData, RepairedData;
    var cw := seq(lay.numBlocks, j requires 0 <= j < lay.numBlocks => Repaired(lay.Gather(codewords, j), lay.eccLen));
    DataRecovered(lay, cw, codewords, lay.numBlocks);
    SentDataLength(lay, cw);
  }
}
