/** How a symbol's codewords are split into blocks and interleaved: cli/internal/qr/tables.go and decode.go, after
    section 7.6 of ISO/IEC 18004:2015. */
module BlockLayout {
  import opened Arithmetic
  import opened Bits
  import opened CodeTheory

  datatype Layout = Layout(numBlocks: nat, eccLen: nat, shortBlockLen: nat, shortBlockDataLen: nat, numShortBlocks: nat,
                           totalCodewords: nat, dataCodewords: nat)
  {
    /** A layout computed by blockLayout whose blocks hold data and fit the field. */
    ghost predicate Valid() {
      && 0 < numBlocks
      && 0 < eccLen < shortBlockLen < 255
      && eccLen <= totalCodewords / numBlocks
      && this == Derive(numBlocks, eccLen, totalCodewords)
    }

    function DataLen(j: nat): nat {
      if j < numShortBlocks then shortBlockDataLen else shortBlockDataLen + 1
    }

    function BlockLen(j: nat): nat {
      DataLen(j) + eccLen
    }

    /** Whether block j has a byte in interleaving row i; short blocks have a hole. */
    predicate Present(i: nat, j: nat) {
      i != shortBlockDataLen || j >= numShortBlocks
    }

    /** The interleaving row of byte p of block j. */
    function Row(j: nat, p: nat): nat {
      if j < numShortBlocks && p >= shortBlockDataLen then p + 1 else p
    }

    /** Where row i starts in the transmitted sequence. */
    function Start(i: nat): int {
      if i <= shortBlockDataLen then i * numBlocks else i * numBlocks - numShortBlocks
    }

    /** Where block j's byte of row i is transmitted. */
    function Index(i: nat, j: nat): (k: int)
      requires Valid() && i <= shortBlockLen && j < numBlocks && Present(i, j)
      ensures 0 <= k < totalCodewords
    {
      Total(this);
      IndexBounds(this, i, j);
      Start(i) + if i == shortBlockDataLen then j - numShortBlocks else j
    }

    function Where(j: nat, p: nat): (k: int)
      requires Valid() && j < numBlocks && p < BlockLen(j)
      ensures 0 <= k < totalCodewords
    {
      Index(Row(j, p), j)
    }

    /** The bytes of block j, as they lie in the received sequence. */
    function Gather(codewords: seq<byte>, j: nat): (w: Word)
      requires Valid() && j < numBlocks && |codewords| >= totalCodewords
      ensures |w| == BlockLen(j)
    {
      seq(BlockLen(j), p requires 0 <= p < BlockLen(j) => codewords[Where(j, p)])
    }
  }

  /** The arithmetic of blockLayout; the two tables it reads are parameters here. */
  function Derive(numBlocks: nat, eccLen: nat, total: nat): Layout
    requires numBlocks > 0 && eccLen <= total / numBlocks
  {
    ModuloBound(total, numBlocks);
    EccFits(numBlocks, eccLen, total);
    var shortLen := total / numBlocks;
    Layout(numBlocks, eccLen, shortLen, shortLen - eccLen, numBlocks - total % numBlocks, total, total - eccLen * numBlocks)
  }

  lemma ModuloBound(a: nat, b: nat)
    requires b > 0
    ensures a % b < b && a == a / b * b + a % b
  {}

  lemma EccFits(numBlocks: nat, eccLen: nat, total: nat)
    requires numBlocks > 0 && eccLen <= total / numBlocks
    ensures eccLen * numBlocks <= total
  {
    ModuloBound(total, numBlocks);
    MulMonotone(eccLen, total / numBlocks, numBlocks);
  }

  /** The rows account for every codeword. */
  lemma Total(lay: Layout)
    requires lay.Valid()
    ensures lay.Start(lay.shortBlockLen + 1) == lay.totalCodewords
    ensures lay.shortBlockDataLen < lay.shortBlockLen
    ensures 0 < lay.numShortBlocks <= lay.numBlocks
  {
    var n := lay.numBlocks;
    ModuloBound(lay.totalCodewords, n);
    assert (lay.shortBlockLen + 1) * n == lay.shortBlockLen * n + n;
  }

  lemma NextStart(lay: Layout, i: nat)
    ensures lay.Start(i + 1) == lay.Start(i) + lay.numBlocks - if i == lay.shortBlockDataLen then lay.numShortBlocks else 0
  {
    assert (i + 1) * lay.numBlocks == i * lay.numBlocks + lay.numBlocks;
  }

  lemma StartMonotone(lay: Layout, i: nat, k: nat)
    requires i < k && lay.numShortBlocks <= lay.numBlocks
    ensures lay.Start(i + 1) <= lay.Start(k)
  {
    MulMonotone(i + 1, k, lay.numBlocks);
    if i + 1 <= lay.shortBlockDataLen < k {
      MulMonotone(i + 2, k, lay.numBlocks);
      assert (i + 2) * lay.numBlocks == (i + 1) * lay.numBlocks + lay.numBlocks;
    }
  }

  lemma IndexBounds(lay: Layout, i: nat, j: nat)
    requires lay.Valid() && i <= lay.shortBlockLen && j < lay.numBlocks && lay.Present(i, j)
    ensures 0 <= lay.Start(i) <= lay.Start(i) + (if i == lay.shortBlockDataLen then j - lay.numShortBlocks else j) < lay.Start(i + 1)
    ensures lay.Start(i + 1) <= lay.totalCodewords
  {
    Total(lay);
    NextStart(lay, i);
    StartMonotone(lay, i, lay.shortBlockLen + 1);
    if i > 0 {
      StartMonotone(lay, 0, i);
      NextStart(lay, 0);
    }
  }

  // ----- the encoder's order, from the standard

  /** One word of the right length for each block. */
  predicate Blocks(lay: Layout, cw: seq<Word>) {
    |cw| == lay.numBlocks && forall b: nat :: b < |cw| ==> |cw[b]| == lay.BlockLen(b)
  }

  /** Column i of the data part: the blocks' i-th data bytes, in block order. */
  function DataColumn(lay: Layout, cw: seq<Word>, i: nat, j: nat): seq<byte>
    requires Blocks(lay, cw)
    decreases lay.numBlocks - j
  {
    if j >= lay.numBlocks then []
    else (if i < lay.DataLen(j) then [cw[j][i]] else []) + DataColumn(lay, cw, i, j + 1)
  }

  /** Column i of the error-correction part. */
  function EccColumn(lay: Layout, cw: seq<Word>, i: nat): seq<byte>
    requires Blocks(lay, cw)
    requires i < lay.eccLen
  {
    seq(lay.numBlocks, j requires 0 <= j < lay.numBlocks => cw[j][lay.DataLen(j) + i])
  }

  function DataPart(lay: Layout, cw: seq<Word>, columns: nat): seq<byte>
    requires Blocks(lay, cw)
  {
    if columns == 0 then [] else DataPart(lay, cw, columns - 1) + DataColumn(lay, cw, columns - 1, 0)
  }

  function EccPart(lay: Layout, cw: seq<Word>, columns: nat): seq<byte>
    requires Blocks(lay, cw)
    requires columns <= lay.eccLen
  {
    if columns == 0 then [] else EccPart(lay, cw, columns - 1) + EccColumn(lay, cw, columns - 1)
  }

  /** Data codewords column by column, then error-correction codewords column by column. */
  function Interleave(lay: Layout, cw: seq<Word>): (r: seq<byte>)
    requires lay.Valid() && Blocks(lay, cw)
    ensures |r| == lay.totalCodewords
  {
    InterleavedLength(lay, cw);
    DataPart(lay, cw, lay.shortBlockDataLen + 1) + EccPart(lay, cw, lay.eccLen)
  }

  lemma {:induction false} ColumnCell(lay: Layout, cw: seq<Word>, i: nat, from: nat)
    requires Blocks(lay, cw) && lay.numShortBlocks <= lay.numBlocks && from <= lay.numBlocks
    requires i <= lay.shortBlockDataLen
    ensures var first := if i == lay.shortBlockDataLen && from < lay.numShortBlocks then lay.numShortBlocks else from;
      && |DataColumn(lay, cw, i, from)| == lay.numBlocks - first
      && forall j: nat :: first <= j < lay.numBlocks ==> DataColumn(lay, cw, i, from)[j - first] == cw[j][i]
    decreases lay.numBlocks - from
  {
    if from < lay.numBlocks {
      ColumnCell(lay, cw, i, from + 1);
    }
  }

  lemma {:induction false} DataCell(lay: Layout, cw: seq<Word>, columns: nat)
    requires lay.Valid() && Blocks(lay, cw) && columns <= lay.shortBlockDataLen + 1
    ensures |DataPart(lay, cw, columns)| == lay.Start(columns)
    ensures forall i: nat, j: nat {:trigger lay.Index(i, j)} :: i < columns && i <= lay.shortBlockLen && j < lay.numBlocks && lay.Present(i, j) ==>
      lay.Index(i, j) < lay.Start(columns) && DataPart(lay, cw, columns)[lay.Index(i, j)] == cw[j][i]
  {
    Total(lay);
    if columns > 0 {
      var c := columns - 1;
      DataCell(lay, cw, c);
      ColumnCell(lay, cw, c, 0);
      NextStart(lay, c);
    }
  }

  lemma {:induction false} EccLength(lay: Layout, cw: seq<Word>, columns: nat)
    requires Blocks(lay, cw) && columns <= lay.eccLen
    ensures |EccPart(lay, cw, columns)| == columns * lay.numBlocks
  {
    if columns > 0 {
      EccLength(lay, cw, columns - 1);
      assert columns * lay.numBlocks == (columns - 1) * lay.numBlocks + lay.numBlocks;
    }
  }

  lemma {:induction false} EccCell(lay: Layout, cw: seq<Word>, columns: nat, i: nat, j: nat)
    requires Blocks(lay, cw) && i < columns <= lay.eccLen && j < lay.numBlocks
    ensures 0 <= i * lay.numBlocks + j < |EccPart(lay, cw, columns)|
    ensures EccPart(lay, cw, columns)[i * lay.numBlocks + j] == cw[j][lay.DataLen(j) + i]
    decreases columns
  {
    EccLength(lay, cw, columns);
    EccLength(lay, cw, columns - 1);
    if i < columns - 1 {
      EccCell(lay, cw, columns - 1, i, j);
    } else {
      assert columns * lay.numBlocks == i * lay.numBlocks + lay.numBlocks;
    }
  }

  lemma EccRow(lay: Layout, i: nat, j: nat)
    requires lay.Valid() && lay.shortBlockDataLen < i <= lay.shortBlockLen && j < lay.numBlocks
    ensures lay.Index(i, j) == lay.Start(lay.shortBlockDataLen + 1) + ((i - lay.shortBlockDataLen - 1) * lay.numBlocks + j)
  {
    var n, sd := lay.numBlocks, lay.shortBlockDataLen;
    assert i * n == (sd + 1) * n + (i - sd - 1) * n;
  }

  lemma ProductSplit(x: int, y: int, n: int)
    ensures (x + y) * n == x * n + y * n
  {}

  lemma InterleavedLength(lay: Layout, cw: seq<Word>)
    requires lay.Valid() && Blocks(lay, cw)
    ensures |DataPart(lay, cw, lay.shortBlockDataLen + 1)| == lay.Start(lay.shortBlockDataLen + 1)
    ensures |DataPart(lay, cw, lay.shortBlockDataLen + 1) + EccPart(lay, cw, lay.eccLen)| == lay.totalCodewords
  {
    Total(lay);
    DataCell(lay, cw, lay.shortBlockDataLen + 1);
    EccLength(lay, cw, lay.eccLen);
    var n, sd := lay.numBlocks, lay.shortBlockDataLen;
    hide EccPart, DataPart;
    assert lay.shortBlockLen + 1 == (sd + 1) + lay.eccLen;
    ProductSplit(sd + 1, lay.eccLen, n);
  }

  /** The row index computed by the receiver is where the standard's order puts the byte. */
  lemma InterleavedAt(lay: Layout, cw: seq<Word>, j: nat, p: nat)
    requires lay.Valid() && Blocks(lay, cw) && j < lay.numBlocks && p < lay.BlockLen(j)
    ensures Interleave(lay, cw)[lay.Where(j, p)] == cw[j][p]
  {
    hide DataPart, EccPart;
    Total(lay);
    InterleavedLength(lay, cw);
    var i, sd := lay.Row(j, p), lay.shortBlockDataLen;
    var split := |DataPart(lay, cw, sd + 1)|;
    if i > sd {
      EccCell(lay, cw, lay.eccLen, i - sd - 1, j);
      EccRow(lay, i, j);
    } else {
      DataCell(lay, cw, sd + 1);
      assert lay.Index(i, j) < split;
    }
  }

  lemma GatherInterleaved(lay: Layout, cw: seq<Word>, j: nat)
    requires lay.Valid() && Blocks(lay, cw) && j < lay.numBlocks
    ensures lay.Gather(Interleave(lay, cw), j) == cw[j]
  {
    hide Interleave;
    InterleavedAt(lay, cw, j, 0);
    forall p: nat | p < lay.BlockLen(j)
      ensures lay.Gather(Interleave(lay, cw), j)[p] == cw[j][p]
    {
      InterleavedAt(lay, cw, j, p);
    }
  }

  // ----- how far apart a block's bytes lie

  lemma BlockSpread(lay: Layout, j: nat, p: nat, q: nat)
    requires lay.Valid() && j < lay.numBlocks && p < q < lay.BlockLen(j)
    ensures lay.Where(j, q) - lay.Where(j, p) >= (q - p - 1) * lay.numBlocks
  {
    Total(lay);
    var n := lay.numBlocks;
    Closed(lay, j, p);
    Closed(lay, j, q);
    assert q * n - p * n == (q - p - 1) * n + n;
  }

  lemma Closed(lay: Layout, j: nat, p: nat)
    requires lay.Valid() && j < lay.numBlocks && p < lay.BlockLen(j)
    ensures lay.Where(j, p) == p * lay.numBlocks + j +
      if p < lay.shortBlockDataLen then 0 else if j < lay.numShortBlocks then lay.numBlocks - lay.numShortBlocks else 0 - (lay.numShortBlocks as int)
  {
    assert (p + 1) * lay.numBlocks == p * lay.numBlocks + lay.numBlocks;
  }

  /** Words that agree outside m consecutive bytes are at distance at most m. */
  lemma DistanceInRange(u: Word, v: Word, a: nat, m: nat)
    requires |u| == |v|
    requires forall p: nat :: p < |u| && u[p] != v[p] ==> a <= p < a + m
    ensures Distance(u, v) <= m
  {
    hide Support, Diff;
    DiffSupport(u, v);
    var top := |u| - 1 - a;
    forall d | d in Support(Diff(u, v)) ensures top - m < d <= top {
      assert At(u, d) == u[|u| - 1 - d];
      assert At(v, d) == v[|u| - 1 - d];
    }
    IntervalSize(Support(Diff(u, v)), top, m);
  }

  lemma {:induction false} IntervalSize(s: set<nat>, top: int, m: nat)
    requires forall d :: d in s ==> top - m < d <= top
    ensures |s| <= m
    decreases m
  {
    if m == 0 {
      assert forall d :: d !in s;
    } else {
      var rest := set d | d in s && d != top;
      IntervalSize(rest, top - 1, m - 1);
      if top in s {
        assert s == rest + {top as nat};
      } else {
        assert s == rest;
      }
    }
  }

  /** A run of damaged codewords damages every block in at most ceil(run / numBlocks) + 1 places. */
  lemma RunDamage(lay: Layout, sent: seq<byte>, received: seq<byte>, start: nat, run: nat, j: nat)
    requires lay.Valid() && j < lay.numBlocks && |sent| >= lay.totalCodewords && |received| >= lay.totalCodewords
    requires forall k: nat :: k < lay.totalCodewords && received[k] != sent[k] ==> start <= k < start + run
    ensures Distance(lay.Gather(received, j), lay.Gather(sent, j)) <= (run + lay.numBlocks - 1) / lay.numBlocks + 1
  {
    hide Distance, Layout.Where;
    var u, v := lay.Gather(received, j), lay.Gather(sent, j);
    var n := lay.numBlocks;
    if u == v {
      DistanceInRange(u, v, 0, 0);
    } else {
      var a := FirstDifference(u, v);
      var m := (run + n - 1) / n + 1;
      forall p: nat | p < |u| && u[p] != v[p]
        ensures a <= p < a + m
      {
        if p > a {
          assert received[lay.Where(j, a)] != sent[lay.Where(j, a)] && received[lay.Where(j, p)] != sent[lay.Where(j, p)];
          RunSpan(lay, j, a, p, start, run);
        }
      }
      DistanceInRange(u, v, a, m);
    }
  }

  /** Two bytes of one block in a run are fewer than ceil(run / numBlocks) + 1 apart. */
  lemma RunSpan(lay: Layout, j: nat, a: nat, p: nat, start: nat, run: nat)
    requires lay.Valid() && j < lay.numBlocks && a < p < lay.BlockLen(j)
    requires start <= lay.Where(j, a) < start + run && start <= lay.Where(j, p) < start + run
    ensures p - a < (run + lay.numBlocks - 1) / lay.numBlocks + 1
  {
    hide Layout.Where;
    BlockSpread(lay, j, a, p);
    WindowCount(p - a, lay.numBlocks, run);
  }

  lemma WindowCount(k: nat, n: nat, run: nat)
    requires n > 0 && k > 0 && (k - 1) * n < run
    ensures k < (run + n - 1) / n + 1
  {
    ModuloBound(run + n - 1, n);
    if k - 1 >= (run + n - 1) / n {
      MulMonotone((run + n - 1) / n, k - 1, n);
    }
  }

  lemma {:induction false} FirstDifference(u: Word, v: Word) returns (a: nat)
    requires |u| == |v| && u != v
    ensures a < |u| && u[a] != v[a] && forall p: nat :: p < a ==> u[p] == v[p]
  {
    if u[0] != v[0] {
      a := 0;
    } else {
      assert u == [u[0]] + u[1..] && v == [v[0]] + v[1..];
      var b := FirstDifference(u[1..], v[1..]);
      a := b + 1;
      forall p: nat | p < a ensures u[p] == v[p] {
        if p > 0 {
          assert u[1..][p - 1] == v[1..][p - 1];
        }
      }
    }
  }
}
