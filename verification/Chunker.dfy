/** Payload chunking of core/dhow-codec/src/chunker.rs: blocks, padded symbols and their reassembly. */
module Chunker {
  import opened Wrappers
  import opened Arithmetic
  import opened Concatenation
  import opened Bits

  const MAX_PAYLOAD_SIZE: nat := 0x1_0000_0000
  const MAX_SYMBOL_SIZE: nat := 65535
  const MAX_BLOCK_COUNT: nat := 1024
  const U32_LIMIT: nat := 0x1_0000_0000

  datatype ChunkError =
    | PayloadTooLarge(size: nat)
    | InvalidBlockCount(count: nat)
    | InvalidSymbolSize(size: nat)
    | BlockIndexOutOfRange(index: nat, count: nat)
    | SymbolIndexOutOfRange(index: nat, count: nat)
    | Truncated(expected: nat, actual: nat)

  datatype ChunkParams = ChunkParams(payloadSize: nat, blockCount: nat, symbolSize: nat) {
    ghost predicate Valid() {
      payloadSize <= MAX_PAYLOAD_SIZE && 1 <= blockCount <= MAX_BLOCK_COUNT && 1 <= symbolSize <= MAX_SYMBOL_SIZE
    }
  }

  datatype BlockInfo = BlockInfo(index: nat, start: nat, size: nat, symbolCount: nat)

  datatype SymbolInfo = SymbolInfo(index: nat, start: nat, size: nat, padded: bool)

  function NewParams(payloadSize: nat, blockCount: nat, symbolSize: nat): (r: Result<ChunkParams, ChunkError>)
    ensures r.Ok? <==> ChunkParams(payloadSize, blockCount, symbolSize).Valid()
    ensures r.Ok? ==> r.value == ChunkParams(payloadSize, blockCount, symbolSize)
  {
    if payloadSize > MAX_PAYLOAD_SIZE then Err(PayloadTooLarge(payloadSize))
    else if !(1 <= blockCount <= MAX_BLOCK_COUNT) then Err(InvalidBlockCount(blockCount))
    else if !(1 <= symbolSize <= MAX_SYMBOL_SIZE) then Err(InvalidSymbolSize(symbolSize))
    else Ok(ChunkParams(payloadSize, blockCount, symbolSize))
  }

  function DivCeil(x: nat, n: nat): (q: nat)
    requires n > 0
  {
    if x % n == 0 then x / n else x / n + 1
  }

  // ----- the layout: blocks tile the payload

  predicate Joined(blocks: seq<BlockInfo>, size: nat) {
    && (blocks == [] ==> size == 0)
    && (blocks != [] ==> blocks[0].start == 0 && blocks[|blocks| - 1].start + blocks[|blocks| - 1].size == size)
    && forall i: nat, k: nat | k == i + 1 && k < |blocks| :: blocks[k].start == blocks[i].start + blocks[i].size
  }

  /** Block sizes never grow and differ by at most one byte. */
  predicate Even(blocks: seq<BlockInfo>) {
    forall i: nat, k: nat | i < k < |blocks| :: blocks[k].size <= blocks[i].size <= blocks[k].size + 1
  }

  predicate Covers(symbolSize: nat, size: nat, symbolCount: nat) {
    size <= symbolCount * symbolSize < size + symbolSize
  }

  /** Each block is numbered and holds the fewest symbols that cover it. */
  predicate Counted(p: ChunkParams, blocks: seq<BlockInfo>) {
    forall i: nat | i < |blocks| :: blocks[i].index == i && Covers(p.symbolSize, blocks[i].size, blocks[i].symbolCount)
  }

  predicate Layout(p: ChunkParams, blocks: seq<BlockInfo>) {
    |blocks| == p.blockCount && Joined(blocks, p.payloadSize) && Even(blocks) && Counted(p, blocks)
  }

  lemma DivCeilCovers(x: nat, n: nat)
    requires n > 0
    ensures x <= DivCeil(x, n) * n < x + n
    ensures x / n <= DivCeil(x, n) <= x / n + 1
  {
    assert x == x / n * n + x % n;
    if x % n != 0 {
      assert (x / n + 1) * n == x / n * n + n;
    }
  }

  /** The payload bytes before block i. */
  function Before(p: ChunkParams, i: nat): nat
    requires p.blockCount > 0
  {
    i * (p.payloadSize / p.blockCount) + if i < p.payloadSize % p.blockCount then i else p.payloadSize % p.blockCount
  }

  function BlockSize(p: ChunkParams, i: nat): nat
    requires p.blockCount > 0
  {
    if i < p.payloadSize % p.blockCount then DivCeil(p.payloadSize, p.blockCount) else p.payloadSize / p.blockCount
  }

  lemma BeforeSteps(p: ChunkParams, i: nat)
    requires p.blockCount > 0
    ensures Before(p, 0) == 0 && Before(p, p.blockCount) == p.payloadSize
    ensures Before(p, i + 1) == Before(p, i) + BlockSize(p, i)
  {
    var (q, m) := (p.payloadSize / p.blockCount, p.payloadSize % p.blockCount);
    assert p.payloadSize == p.blockCount * q + m;
    assert (i + 1) * q == i * q + q;
  }

  predicate Refused(p: ChunkParams) {
    p.payloadSize == MAX_PAYLOAD_SIZE && p.blockCount == 1 && p.symbolSize == 1
  }

  lemma Quotient(s: nat, b: nat, limit: nat)
    requires b > 0 && s <= limit && limit >= 2
    ensures DivCeil(s, b) <= limit
    ensures DivCeil(s, b) == limit ==> s == limit && b == 1
    ensures b == 1 ==> DivCeil(s, b) == s == s / b
  {
    DivCeilCovers(s, b);
    if b >= 2 {
      HalfAtMost(s, b, DivCeil(s, b));
    }
  }

  lemma HalfAtMost(s: nat, b: nat, q: nat)
    requires b >= 2 && q * b < s + b
    ensures q <= (s + 1) / 2
  {
    if q >= 1 {
      assert (q - 1) * b < s;
      assert (q - 1) * 2 <= (q - 1) * b;
    }
  }

  /** A block's symbol count fits 32 bits unless the whole payload is refused. */
  lemma CountFits(p: ChunkParams, i: nat)
    requires p.Valid() && i < p.blockCount
    ensures DivCeil(BlockSize(p, i), p.symbolSize) >= U32_LIMIT <==> Refused(p)
  {
    hide DivCeil;
    Quotient(p.payloadSize, p.blockCount, U32_LIMIT);
    DivCeilCovers(p.payloadSize, p.blockCount);
    Quotient(BlockSize(p, i), p.symbolSize, U32_LIMIT);
  }

  lemma CountCovers(p: ChunkParams, size: nat)
    requires p.Valid()
    ensures Covers(p.symbolSize, size, if size == 0 then 0 else DivCeil(size, p.symbolSize))
  {
    DivCeilCovers(size, p.symbolSize);
  }

  lemma SizesAreEven(p: ChunkParams, i: nat, k: nat)
    requires p.blockCount > 0 && i < k
    ensures BlockSize(p, k) <= BlockSize(p, i) <= BlockSize(p, k) + 1
  {
    DivCeilCovers(p.payloadSize, p.blockCount);
  }

  lemma SizeAt(p: ChunkParams, i: nat)
    requires p.blockCount > 0
    ensures BlockSize(p, i) == if i < p.payloadSize % p.blockCount then DivCeil(p.payloadSize, p.blockCount) else p.payloadSize / p.blockCount
  {}

  /** The one refused combination is a full-size payload in one block of one-byte symbols. */
  method ComputeBlocks(p: ChunkParams) returns (r: Result<seq<BlockInfo>, ChunkError>)
    requires p.Valid()
    ensures r.Ok? <==> !Refused(p)
    ensures r.Err? ==> r.error == InvalidSymbolSize(1)
    ensures r.Ok? ==> Layout(p, r.value) && forall i: nat | i < |r.value| :: r.value[i].symbolCount < U32_LIMIT
  {
    hide Before, DivCeil, BlockSize, Covers;
    var s, b, n := p.payloadSize, p.blockCount, p.symbolSize;
    var remainder := s % b;
    var largeSize := DivCeil(s, b);
    var smallSize := s / b;
    var blocks: seq<BlockInfo> := [];
    var offset := 0;
    BeforeSteps(p, 0);
    for i := 0 to b
      invariant |blocks| == i && Joined(blocks, offset) && offset == Before(p, i)
      invariant forall k: nat | k < i :: blocks[k].size == BlockSize(p, k) && blocks[k].symbolCount < U32_LIMIT
      invariant Counted(p, blocks)
      invariant i > 0 ==> !Refused(p)
    {
      var size := if i < remainder then largeSize else smallSize;
      SizeAt(p, i);
      BeforeSteps(p, i);
      CountFits(p, i);
      CountCovers(p, size);
      var symbolCount := 0;
      if size != 0 {
        var sc := DivCeil(size, n);
        if sc >= U32_LIMIT {
          return Err(InvalidSymbolSize(n));
        }
        symbolCount := sc;
      }
      blocks := blocks + [BlockInfo(i, offset, size, symbolCount)];
      offset := offset + size;
    }
    forall i: nat, k: nat | i < k < b ensures blocks[k].size <= blocks[i].size <= blocks[k].size + 1 {
      SizesAreEven(p, i, k);
    }
    r := Ok(blocks);
  }

  // ----- the layout is determined by the parameters alone

  function Total(blocks: seq<BlockInfo>): nat {
    if blocks == [] then 0 else blocks[0].size + Total(blocks[1..])
  }

  lemma {:induction false} JoinedTotal(blocks: seq<BlockInfo>, end: nat)
    requires forall i: nat, k: nat | k == i + 1 && k < |blocks| :: blocks[k].start == blocks[i].start + blocks[i].size
    requires blocks != [] ==> blocks[|blocks| - 1].start + blocks[|blocks| - 1].size == end
    ensures blocks != [] ==> blocks[0].start + Total(blocks) == end
  {
    if |blocks| > 1 {
      JoinedTotal(blocks[1..], end);
    }
  }

  lemma {:induction false} SmallerTotal(x: seq<BlockInfo>, y: seq<BlockInfo>)
    requires |x| == |y| && forall i: nat | i < |x| :: x[i].size <= y[i].size
    ensures Total(x) <= Total(y)
  {
    if x != [] {
      SmallerTotal(x[1..], y[1..]);
    }
  }

  lemma FirstNotSmaller(x: seq<BlockInfo>, y: seq<BlockInfo>)
    requires |x| == |y| && x != [] && Even(x) && Even(y) && Total(x) == Total(y)
    ensures x[0].size >= y[0].size
  {
    if x[0].size < y[0].size {
      SmallerTotal(x[1..], y[1..]);
    }
  }

  lemma {:induction false} EvenUnique(x: seq<BlockInfo>, y: seq<BlockInfo>, i: nat)
    requires |x| == |y| && i < |x| && Even(x) && Even(y) && Total(x) == Total(y)
    ensures x[i].size == y[i].size
  {
    FirstNotSmaller(x, y);
    FirstNotSmaller(y, x);
    if i > 0 {
      EvenUnique(x[1..], y[1..], i - 1);
    }
  }

  lemma CoversUnique(n: nat, size: nat, c: nat, d: nat)
    requires Covers(n, size, c) && Covers(n, size, d)
    ensures c == d
  {
    if c != d {
      var (low, high) := if c < d then (c, d) else (d, c);
      MulMonotone(low + 1, high, n);
    }
  }

  /** Sender and receiver derive the same map: the stated layout leaves no choice. */
  lemma LayoutUnique(p: ChunkParams, x: seq<BlockInfo>, y: seq<BlockInfo>)
    requires Layout(p, x) && Layout(p, y)
    ensures x == y
  {
    JoinedTotal(x, p.payloadSize);
    JoinedTotal(y, p.payloadSize);
    assert Total(x) == Total(y);
    forall i: nat | i < |x| ensures x[i] == y[i] {
      StartsAgree(p, x, y, i);
      EvenUnique(x, y, i);
      CoversUnique(p.symbolSize, x[i].size, x[i].symbolCount, y[i].symbolCount);
    }
  }

  lemma {:induction false} StartsAgree(p: ChunkParams, x: seq<BlockInfo>, y: seq<BlockInfo>, i: nat)
    requires Layout(p, x) && Layout(p, y) && Total(x) == Total(y) && i < |x|
    ensures x[i].start == y[i].start
  {
    if i > 0 {
      var j: nat := i - 1;
      StartsAgree(p, x, y, j);
      EvenUnique(x, y, j);
      assert x[i].start == x[j].start + x[j].size && y[i].start == y[j].start + y[j].size;
    }
  }

  // ----- the symbol total

  function TotalSymbols(blocks: seq<BlockInfo>): nat {
    if blocks == [] then 0 else blocks[0].symbolCount + TotalSymbols(blocks[1..])
  }

  lemma {:induction false} TotalsOfUnitSymbols(blocks: seq<BlockInfo>)
    requires forall b | b in blocks :: Covers(1, b.size, b.symbolCount)
    ensures TotalSymbols(blocks) == Total(blocks)
  {
    if blocks != [] {
      TotalsOfUnitSymbols(blocks[1..]);
    }
  }

  lemma {:induction false} TotalsOfLargerSymbols(n: nat, blocks: seq<BlockInfo>)
    requires n >= 2 && forall b | b in blocks :: Covers(n, b.size, b.symbolCount)
    ensures 2 * TotalSymbols(blocks) <= Total(blocks) + |blocks|
  {
    if blocks != [] {
      HalfAtMost(blocks[0].size, n, blocks[0].symbolCount);
      TotalsOfLargerSymbols(n, blocks[1..]);
    }
  }

  /** The 32-bit symbol total is exact for every layout but that of a full-size payload cut into one-byte symbols. */
  lemma SymbolTotalFits(p: ChunkParams, blocks: seq<BlockInfo>)
    requires p.Valid() && Layout(p, blocks)
    ensures TotalSymbols(blocks) < U32_LIMIT <==> !(p.payloadSize == MAX_PAYLOAD_SIZE && p.symbolSize == 1)
  {
    JoinedTotal(blocks, p.payloadSize);
    forall b | b in blocks ensures Covers(p.symbolSize, b.size, b.symbolCount) {
      var i: nat :| i < |blocks| && blocks[i] == b;
    }
    if p.symbolSize == 1 {
      TotalsOfUnitSymbols(blocks);
    } else {
      TotalsOfLargerSymbols(p.symbolSize, blocks);
    }
  }

  /** A full-size payload in two blocks of one-byte symbols: the layout is accepted, and the total is one too many. */
  lemma SymbolTotalOverflows(blocks: seq<BlockInfo>)
    requires Layout(ChunkParams(MAX_PAYLOAD_SIZE, 2, 1), blocks)
    ensures ChunkParams(MAX_PAYLOAD_SIZE, 2, 1).Valid() && !Refused(ChunkParams(MAX_PAYLOAD_SIZE, 2, 1))
    ensures TotalSymbols(blocks) == U32_LIMIT
  {
    JoinedTotal(blocks, MAX_PAYLOAD_SIZE);
    TotalsOfUnitSymbols(blocks);
  }

  // ----- cutting and joining

  function SymbolStart(n: nat, j: nat): nat {
    j * n
  }

  datatype ChunkMap = ChunkMap(params: ChunkParams, blocks: seq<BlockInfo>) {
    ghost predicate Valid() {
      params.Valid() && Layout(params, blocks)
    }

    function BlockAt(index: nat): (r: Result<BlockInfo, ChunkError>) {
      if index >= |blocks| then Err(BlockIndexOutOfRange(index, |blocks|)) else Ok(blocks[index])
    }

    function SymbolAt(blockIndex: nat, symbolIndex: nat): (r: Result<SymbolInfo, ChunkError>)
      requires params.symbolSize > 0
    {
      var found := BlockAt(blockIndex);
      if found.Err? then Err(found.error)
      else
        var block := found.value;
        var n := params.symbolSize;
        if symbolIndex >= block.symbolCount then Err(SymbolIndexOutOfRange(symbolIndex, block.symbolCount))
        else
          var size := if block.size % n != 0 && symbolIndex == block.symbolCount - 1 then block.size % n else n;
          Ok(SymbolInfo(symbolIndex, SymbolStart(n, symbolIndex), size, size < n))
    }

    function ExtractBlock(payload: seq<byte>, index: nat): (r: Result<seq<byte>, ChunkError>) {
      var found := BlockAt(index);
      if found.Err? then Err(found.error)
      else
        var (start, end) := (found.value.start, found.value.start + found.value.size);
        if end > |payload| then Err(Truncated(end, |payload|)) else Ok(payload[start..end])
    }

    /** A symbol is cut whenever its index exists and the given bytes reach its end. */
    method ExtractSymbol(blockPayload: seq<byte>, blockIndex: nat, symbolIndex: nat) returns (r: Result<seq<byte>, ChunkError>)
      requires Valid()
      ensures r.Ok? <==>
        && blockIndex < |blocks| && symbolIndex < blocks[blockIndex].symbolCount
        && Min(blocks[blockIndex].size, SymbolStart(params.symbolSize, symbolIndex + 1)) <= |blockPayload|
      ensures r.Err? ==>
        r.error == if SymbolAt(blockIndex, symbolIndex).Err? then SymbolAt(blockIndex, symbolIndex).error
          else Truncated(Min(blocks[blockIndex].size, SymbolStart(params.symbolSize, symbolIndex + 1)), |blockPayload|)
      ensures r.Ok? ==> Symbol(blockPayload[..Min(|blockPayload|, blocks[blockIndex].size)], params.symbolSize, SymbolStart(params.symbolSize, symbolIndex), r.value)
    {
      hide Covers, Joined, Even;
      var found := SymbolAt(blockIndex, symbolIndex);
      if found.Err? {
        return Err(found.error);
      }
      SymbolSizes(this, blockIndex, symbolIndex);
      var info := found.value;
      var end := info.start + info.size;
      if end > |blockPayload| {
        return Err(Truncated(end, |blockPayload|));
      }
      var symbol := new byte[params.symbolSize](_ => 0);
      forall k | 0 <= k < info.size { symbol[k] := blockPayload[info.start + k]; }
      r := Ok(symbol[..]);
    }

    /** Each block's declared bytes end up at its offset; longer block payloads lose their tail. */
    method Reassemble(payloads: seq<seq<byte>>) returns (r: Result<seq<byte>, ChunkError>)
      requires Valid()
      ensures r.Ok? <==> |payloads| == |blocks| && forall i: nat | i < |blocks| :: |payloads[i]| >= blocks[i].size
      ensures |payloads| != |blocks| ==> r == Err(BlockIndexOutOfRange(|payloads|, |blocks|))
      ensures |payloads| == |blocks| && r.Err? ==>
        exists i: nat | i < |blocks| ::
          && r.error == Truncated(blocks[i].size, |payloads[i]|) && |payloads[i]| < blocks[i].size
          && forall k: nat | k < i :: |payloads[k]| >= blocks[k].size
      ensures r.Ok? ==> |r.value| == params.payloadSize
      ensures r.Ok? ==> forall i: nat | i < |blocks| ::
        ExtractBlock(r.value, i) == Ok(payloads[i][..blocks[i].size])
      ensures forall payload: seq<byte> :: CutFrom(payload, payloads) ==> r == Ok(payload)
    {
      hide Covers, Even, Counted;
      if |payloads| != |blocks| {
        return Err(BlockIndexOutOfRange(|payloads|, |blocks|));
      }
      var payload: seq<byte> := [];
      for i := 0 to |payloads|
        invariant forall k: nat | k < i :: |payloads[k]| >= blocks[k].size
        invariant |payload| == if i < |blocks| then blocks[i].start else params.payloadSize
        invariant forall k: nat | k < i ::
          blocks[k].start + blocks[k].size <= |payload| && payload[blocks[k].start..blocks[k].start + blocks[k].size] == payloads[k][..blocks[k].size]
      {
        var size := blocks[i].size;
        if |payloads[i]| < size {
          return Err(Truncated(size, |payloads[i]|));
        }
        payload := payload + payloads[i][..size];
      }
      r := Ok(payload);
      forall whole: seq<byte> | CutFrom(whole, payloads) ensures whole == payload {
        SameCuts(this, whole, payload, payloads);
      }
    }

    /** The given blocks begin with the payload's own blocks; whatever follows them is spare. */
    ghost predicate CutFrom(payload: seq<byte>, payloads: seq<seq<byte>>) {
      && |payload| == params.payloadSize && |payloads| == |blocks|
      && forall i: nat | i < |blocks| :: |payloads[i]| >= blocks[i].size && ExtractBlock(payload, i) == Ok(payloads[i][..blocks[i].size])
    }
  }

  lemma {:induction false} BlockEnds(m: ChunkMap, i: nat)
    requires m.Valid() && i < |m.blocks|
    ensures m.blocks[i].start + m.blocks[i].size <= m.params.payloadSize
    decreases |m.blocks| - i
  {
    var k := i + 1;
    if k < |m.blocks| {
      BlockEnds(m, k);
    }
  }

  lemma {:induction false} BlockHolding(m: ChunkMap, at: nat, i: nat) returns (k: nat)
    requires m.Valid() && i < |m.blocks| && m.blocks[i].start <= at < m.params.payloadSize
    ensures k < |m.blocks| && m.blocks[k].start <= at < m.blocks[k].start + m.blocks[k].size
    decreases |m.blocks| - i
  {
    k := i;
    if at >= m.blocks[i].start + m.blocks[i].size {
      var next := i + 1;
      k := BlockHolding(m, at, next);
    }
  }

  /** No gap: two payloads that agree on every block are the same payload. */
  lemma BlocksDetermine(m: ChunkMap, x: seq<byte>, y: seq<byte>)
    requires m.Valid() && |x| == |y| == m.params.payloadSize
    requires forall i: nat | i < |m.blocks| :: m.ExtractBlock(x, i) == m.ExtractBlock(y, i)
    ensures x == y
  {
    forall at: nat | at < |x| ensures x[at] == y[at] {
      var i := BlockHolding(m, at, 0);
      BlockEnds(m, i);
      var b := m.blocks[i];
      assert m.ExtractBlock(x, i) == m.ExtractBlock(y, i);
      assert x[b.start..b.start + b.size][at - b.start] == y[b.start..b.start + b.size][at - b.start];
    }
  }

  lemma SameCuts(m: ChunkMap, x: seq<byte>, y: seq<byte>, payloads: seq<seq<byte>>)
    requires m.Valid() && m.CutFrom(x, payloads) && m.CutFrom(y, payloads)
    ensures x == y
  {
    hide ChunkMap.ExtractBlock, ChunkMap.Valid;
    forall i: nat | i < |m.blocks| ensures m.ExtractBlock(x, i) == m.ExtractBlock(y, i) {}
    BlocksDetermine(m, x, y);
  }

  // ----- a block's symbols

  /** Symbol v of a block: the n bytes at its offset, with zeros past the end of the block. */
  predicate Symbol(bytes: seq<byte>, n: nat, start: nat, v: seq<byte>) {
    |v| == n && forall k: nat | k < n :: v[k] == if start + k < |bytes| then bytes[start + k] else 0
  }

  lemma SmallMultiple(d: int, n: nat)
    requires 0 - n < d * n < n
    ensures d == 0
  {}

  lemma Remainder(size: nat, n: nat, k: nat)
    requires n > 0 && k * n <= size < k * n + n
    ensures size % n == size - k * n
  {
    assert size == size / n * n + size % n;
    assert (size / n - k) * n == size - size % n - k * n;
    SmallMultiple(size / n - k, n);
  }

  lemma LastSymbol(n: nat, size: nat, count: nat)
    requires Covers(n, size, count) && n > 0 && count > 0
    ensures size % n == 0 ==> count * n == size
    ensures size % n != 0 ==> (count - 1) * n + size % n == size
  {
    assert (count - 1) * n == count * n - n;
    Remainder(size, n, if size == count * n then count else count - 1);
  }

  lemma SymbolEnds(n: nat, size: nat, count: nat, j: nat)
    requires Covers(n, size, count) && n > 0 && j < count
    ensures var part := if size % n != 0 && j == count - 1 then size % n else n;
      0 < part <= n && SymbolStart(n, j) + part == Min(size, SymbolStart(n, j + 1))
  {
    LastSymbol(n, size, count);
    assert (count - 1) * n == count * n - n;
    assert (j + 1) * n == j * n + n;
    if j < count - 1 {
      MulMonotone(j + 1, count - 1, n);
    }
  }

  /** The size given for a symbol is exactly how much of the block lies in it. */
  lemma SymbolSizes(m: ChunkMap, i: nat, j: nat)
    requires m.Valid() && i < |m.blocks|
    ensures m.SymbolAt(i, j).Ok? <==> j < m.blocks[i].symbolCount
    ensures j < m.blocks[i].symbolCount ==>
      var (info, n, size) := (m.SymbolAt(i, j).value, m.params.symbolSize, m.blocks[i].size);
      && info.index == j && info.start == SymbolStart(n, j) && 0 < info.size <= n
      && info.start + info.size == Min(size, SymbolStart(n, j + 1))
      && (info.padded <==> info.size < n)
  {
    hide SymbolStart, Covers, Joined, Even, Min;
    var b := m.blocks[i];
    if j < b.symbolCount {
      SymbolEnds(m.params.symbolSize, b.size, b.symbolCount, j);
    }
  }

  /** The bytes of a block, then zeros. */
  predicate Padded(bytes: seq<byte>, w: seq<byte>) {
    forall k: nat | k < |w| :: w[k] == if k < |bytes| then bytes[k] else 0
  }

  lemma {:induction false} SymbolsJoin(bytes: seq<byte>, n: nat, symbols: seq<seq<byte>>)
    requires forall j: nat | j < |symbols| :: Symbol(bytes, n, SymbolStart(n, j), symbols[j])
    ensures |Concat(symbols)| == SymbolStart(n, |symbols|) && Padded(bytes, Concat(symbols))
  {
    hide SymbolStart, Symbol, Padded;
    NextStart(n, |symbols|);
    if symbols == [] {
      assert Padded(bytes, []) by { NothingPadded(bytes); }
    } else {
      var last := |symbols| - 1;
      SymbolsJoin(bytes, n, symbols[..last]);
      NextStart(n, last);
      SymbolJoins(bytes, n, Concat(symbols[..last]), symbols[last]);
    }
  }

  lemma NextStart(n: nat, j: nat)
    ensures SymbolStart(n, 0) == 0 && SymbolStart(n, j + 1) == SymbolStart(n, j) + n
  {
    assert (j + 1) * n == j * n + n;
  }

  lemma NothingPadded(bytes: seq<byte>)
    ensures Padded(bytes, [])
  {}

  lemma SymbolJoins(bytes: seq<byte>, n: nat, before: seq<byte>, v: seq<byte>)
    requires Padded(bytes, before) && Symbol(bytes, n, |before|, v)
    ensures |v| == n && Padded(bytes, before + v)
  {
    forall k: nat | k < |before + v| ensures (before + v)[k] == if k < |bytes| then bytes[k] else 0 {
      if k >= |before| {
        var offset: nat := k - |before|;
        assert v[offset] == if |before| + offset < |bytes| then bytes[|before| + offset] else 0;
      }
    }
  }

  /** A block's padded symbols, joined and cut to the block's size, are the block; everything cut off is zero. */
  lemma SymbolsRebuildBlock(m: ChunkMap, i: nat, bytes: seq<byte>, symbols: seq<seq<byte>>)
    requires m.Valid() && i < |m.blocks| && |bytes| == m.blocks[i].size && |symbols| == m.blocks[i].symbolCount
    requires forall j: nat | j < |symbols| :: Symbol(bytes, m.params.symbolSize, SymbolStart(m.params.symbolSize, j), symbols[j])
    ensures |Concat(symbols)| >= |bytes| && Concat(symbols)[..|bytes|] == bytes
    ensures Concat(symbols)[|bytes|..] == Zeros(|Concat(symbols)| - |bytes|)
  {
    SymbolsJoin(bytes, m.params.symbolSize, symbols);
  }
}
