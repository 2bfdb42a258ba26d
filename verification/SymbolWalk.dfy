/** Reading codewords off the module grid: maskBit and readCodewords of cli/internal/qr/decode.go, after section 7.7
    of ISO/IEC 18004:2015. */
module SymbolWalk {
  import opened Bits
  import opened BitStrings

  datatype Module = Module(x: int, y: int)

  /** One bit per module, row-major, true for dark. */
  datatype Grid = Grid(size: nat, dark: seq<bool>) {
    predicate Valid() {
      |dark| == size * size
    }

    predicate Inside(m: Module) {
      0 <= m.x < size && 0 <= m.y < size
    }

    /** Modules outside the grid read as light. */
    function At(m: Module): bool
      requires Valid()
    {
      if Inside(m) then
        CellInside(this, m);
        dark[m.y * size + m.x]
      else false
    }

    function Set(m: Module, value: bool): (g: Grid)
      requires Valid()
      ensures g.Valid() && g.size == size
    {
      if Inside(m) then
        CellInside(this, m);
        this.(dark := dark[m.y * size + m.x := value])
      else this
    }
  }

  lemma CellInside(g: Grid, m: Module)
    requires g.Inside(m)
    ensures 0 <= m.y * g.size + m.x < g.size * g.size
  {
    RowStart(m.y, g.size - 1, g.size);
    assert (g.size - 1) * g.size == g.size * g.size - g.size;
  }

  lemma RowStart(y: nat, z: nat, size: nat)
    requires y <= z
    ensures 0 <= y * size <= z * size
  {
    assert (z - y) * size == z * size - y * size;
  }

  lemma CellsDiffer(size: nat, m: Module, n: Module)
    requires 0 <= m.x < size && 0 <= n.x < size && m != n
    ensures m.y * size + m.x != n.y * size + n.x
  {
    if m.y < n.y {
      LaterRow(size, m, n);
    } else if n.y < m.y {
      LaterRow(size, n, m);
    }
  }

  lemma LaterRow(size: nat, m: Module, n: Module)
    requires 0 <= m.x < size && 0 <= n.x && m.y < n.y
    ensures m.y * size + m.x < n.y * size + n.x
  {
    var gap := n.y - m.y - 1;
    assert n.y * size == m.y * size + gap * size + size;
    assert gap * size >= 0;
  }

  lemma SetAt(g: Grid, m: Module, value: bool, n: Module)
    requires g.Valid() && g.Inside(m)
    ensures g.Set(m, value).At(n) == if n == m then value else g.At(n)
  {
    CellInside(g, m);
    if g.Inside(n) {
      CellInside(g, n);
      if n != m {
        CellsDiffer(g.size, m, n);
      }
    }
  }

  function MaskBit(mask: int, m: Module): bool {
    var x, y := m.x, m.y;
    if mask == 0 then (x + y) % 2 == 0
    else if mask == 1 then y % 2 == 0
    else if mask == 2 then x % 3 == 0
    else if mask == 3 then (x + y) % 3 == 0
    else if mask == 4 then (x / 3 + y / 2) % 2 == 0
    else if mask == 5 then x * y % 2 + x * y % 3 == 0
    else if mask == 6 then (x * y % 2 + x * y % 3) % 2 == 0
    else if mask == 7 then ((x + y) % 2 + x * y % 3) % 2 == 0
    else false
  }

  /** Which modules each mask inverts, without the products and quotients: the parities and thirds of the coordinates. Every mask
      inverts the corner module. */
  lemma MasksMean(x: nat, y: nat)
    ensures MaskBit(0, Module(x, y)) <==> (x % 2 == y % 2)
    ensures MaskBit(1, Module(x, y)) <==> y % 2 == 0
    ensures MaskBit(2, Module(x, y)) <==> x % 3 == 0
    ensures MaskBit(3, Module(x, y)) <==> (x % 3, y % 3) in {(0, 0), (1, 2), (2, 1)}
    ensures MaskBit(4, Module(x, y)) <==> (x % 6 < 3 <==> y % 4 < 2)
    ensures MaskBit(5, Module(x, y)) <==> (x % 2 == 0 || y % 2 == 0) && (x % 3 == 0 || y % 3 == 0)
    ensures MaskBit(6, Module(x, y)) <==> ((x % 2 == 1 && y % 2 == 1) <==> x % 3 == y % 3 != 0)
    ensures MaskBit(7, Module(x, y)) <==> (x % 2 != y % 2 <==> x % 3 == y % 3 != 0)
    ensures forall mask :: 0 <= mask < 8 ==> MaskBit(mask, Module(0, 0))
  {
    SumMasks(x, y);
    ProductMasks(x, y);
    hide MaskBit;
    CornerMasks();
  }

  lemma CornerMasks()
    ensures forall mask :: 0 <= mask < 8 ==> MaskBit(mask, Module(0, 0))
  {}

  lemma SumMasks(x: nat, y: nat)
    ensures MaskBit(0, Module(x, y)) <==> (x % 2 == y % 2)
    ensures MaskBit(1, Module(x, y)) <==> y % 2 == 0
    ensures MaskBit(2, Module(x, y)) <==> x % 3 == 0
    ensures MaskBit(3, Module(x, y)) <==> (x % 3, y % 3) in {(0, 0), (1, 2), (2, 1)}
    ensures MaskBit(4, Module(x, y)) <==> (x % 6 < 3 <==> y % 4 < 2)
  {
    SumParity(x, y);
    SumParity(x / 3, y / 2);
    SumThirds(x, y);
    ThirdParity(x);
    HalfParity(y);
  }

  lemma SumThirds(x: nat, y: nat)
    ensures (x + y) % 3 == 0 <==> (x % 3, y % 3) in {(0, 0), (1, 2), (2, 1)}
  {
    var n, r := x / 3 + y / 3, x % 3 + y % 3;
    assert x + y == 3 * n + r;
  }

  lemma ThirdParity(x: nat)
    ensures x / 3 % 2 == 0 <==> x % 6 < 3
  {
    var q, r := x / 6, x % 6;
    assert x / 3 == 2 * q + (if r < 3 then 0 else 1);
  }

  lemma HalfParity(y: nat)
    ensures y / 2 % 2 == 0 <==> y % 4 < 2
  {
    var q, r := y / 4, y % 4;
    assert y / 2 == 2 * q + (if r < 2 then 0 else 1);
  }

  lemma ProductMasks(x: nat, y: nat)
    ensures MaskBit(5, Module(x, y)) <==> (x % 2 == 0 || y % 2 == 0) && (x % 3 == 0 || y % 3 == 0)
    ensures MaskBit(6, Module(x, y)) <==> ((x % 2 == 1 && y % 2 == 1) <==> x % 3 == y % 3 != 0)
    ensures MaskBit(7, Module(x, y)) <==> (x % 2 != y % 2 <==> x % 3 == y % 3 != 0)
  {
    ProductParity(x, y);
    ProductThirds(x, y);
    SumParity(x, y);
    ParityOfSums(x * y % 2, (x + y) % 2, x * y % 3);
  }

  lemma SumParity(x: nat, y: nat)
    ensures (x + y) % 2 == if x % 2 == y % 2 then 0 else 1
  {}

  lemma ParityOfSums(p: nat, s: nat, t: nat)
    requires p < 2 && s < 2 && t < 3
    ensures p + t == 0 <==> p == 0 && t == 0
    ensures (p + t) % 2 == 0 <==> (p == 1 <==> t == 1)
    ensures (s + t) % 2 == 0 <==> (s == 1 <==> t == 1)
  {}

  lemma ProductParity(x: nat, y: nat)
    ensures x * y % 2 == 1 <==> x % 2 == 1 && y % 2 == 1
  {
    var a, b, r, t := x / 2, y / 2, x % 2, y % 2;
    assert x * y == 2 * (2 * (a * b) + a * t + b * r) + r * t;
  }

  lemma ProductThirds(x: nat, y: nat)
    ensures x * y % 3 == if x % 3 == 0 || y % 3 == 0 then 0 else if x % 3 == y % 3 then 1 else 2
  {
    var a, b, r, t := x / 3, y / 3, x % 3, y % 3;
    assert x * y == 3 * (3 * (a * b) + a * t + b * r) + r * t;
  }

  // ----- the order of the walk

  /** Bit 1 of right + 1 says whether this pair of columns is walked upwards. */
  predicate Upward(right: int) {
    (right + 1) / 2 % 2 == 0
  }

  function RowAt(size: nat, right: int, vert: nat): int {
    if Upward(right) then size - 1 - vert else vert
  }

  /** The first n rows of the pair of columns right, right - 1. */
  function PairRows(size: nat, right: int, n: nat): seq<Module> {
    if n == 0 then []
    else
      var y := RowAt(size, right, n - 1);
      PairRows(size, right, n - 1) + [Module(right, y), Module(right - 1, y)]
  }

  /** The pair of columns the walk takes when its counter is at right: column six is stepped over. */
  function Adjusted(right: int): int {
    if right == 6 then 5 else right
  }

  function Walk(size: nat, right: int): seq<Module>
    decreases right + 1
  {
    if right < 1 then []
    else PairRows(size, Adjusted(right), size) + Walk(size, Adjusted(right) - 2)
  }

  predicate Distinct(s: seq<Module>) {
    forall i, j :: 0 <= i < j < |s| ==> s[i] != s[j]
  }

  lemma {:induction false} PairMembers(size: nat, right: int, n: nat, m: Module)
    requires n <= size
    ensures m in PairRows(size, right, n) <==>
      (m.x == right || m.x == right - 1) && 0 <= m.y < size && (if Upward(right) then m.y >= size - n else m.y < n)
  {
    if n > 0 {
      PairMembers(size, right, n - 1, m);
    }
  }

  lemma {:induction false} PairDistinct(size: nat, right: int, n: nat)
    requires n <= size
    ensures Distinct(PairRows(size, right, n))
  {
    if n > 0 {
      PairDistinct(size, right, n - 1);
      var y := RowAt(size, right, n - 1);
      PairMembers(size, right, n - 1, Module(right, y));
      PairMembers(size, right, n - 1, Module(right - 1, y));
    }
  }

  /** Where the walk's counter can stand: even from the right edge down to 6, odd from 5 down. */
  predicate OnTrack(right: int) {
    (right >= 6 && right % 2 == 0) || (-1 <= right <= 5 && right % 2 == 1)
  }

  lemma {:induction false} WalkMembers(size: nat, right: int, m: Module)
    requires OnTrack(right)
    ensures m in Walk(size, right) <==> 0 <= m.x <= right && m.x != 6 && 0 <= m.y < size
    decreases right + 1
  {
    if right >= 1 {
      WalkMembers(size, Adjusted(right) - 2, m);
      PairMembers(size, Adjusted(right), size, m);
    }
  }

  lemma {:induction false} WalkDistinct(size: nat, right: int)
    requires OnTrack(right)
    ensures Distinct(Walk(size, right))
    decreases right + 1
  {
    if right >= 1 {
      var r := Adjusted(right);
      WalkDistinct(size, r - 2);
      PairDistinct(size, r, size);
      var a, b := PairRows(size, r, size), Walk(size, r - 2);
      assert Walk(size, right) == a + b;
      hide Walk, PairRows, Distinct;
      forall i, j | 0 <= i < |a| && 0 <= j < |b|
        ensures a[i] != b[j]
      {
        PairMembers(size, r, size, a[i]);
        WalkMembers(size, r - 2, a[i]);
        assert b[j] in b;
      }
      DistinctConcat(a, b);
    }
  }

  lemma DistinctConcat(a: seq<Module>, b: seq<Module>)
    requires Distinct(a) && Distinct(b)
    requires forall i, j :: 0 <= i < |a| && 0 <= j < |b| ==> a[i] != b[j]
    ensures Distinct(a + b)
  {}

  function SizeForVersion(version: nat): nat {
    version * 4 + 17
  }

  /** The walk visits every module outside column six exactly once. */
  lemma WalkIsExact(version: nat)
    ensures var size := SizeForVersion(version);
      && Distinct(Walk(size, size - 1))
      && forall m: Module :: m in Walk(size, size - 1) <==> 0 <= m.x < size && m.x != 6 && 0 <= m.y < size
  {
    hide Walk, Distinct;
    var size := SizeForVersion(version);
    WalkDistinct(size, size - 1);
    forall m: Module
      ensures m in Walk(size, size - 1) <==> 0 <= m.x < size && m.x != 6 && 0 <= m.y < size
    {
      WalkMembers(size, size - 1, m);
    }
  }

  // ----- the order, in closed form

  lemma {:induction false} PairAt(size: nat, right: int, n: nat, t: nat, j: nat)
    requires t < n && j < 2
    ensures |PairRows(size, right, n)| == 2 * n
    ensures PairRows(size, right, n)[2 * t + j] == Module(right - j, RowAt(size, right, t))
  {
    PairLength(size, right, n);
    PairLength(size, right, n - 1);
    if t < n - 1 {
      PairAt(size, right, n - 1, t, j);
    }
  }

  lemma {:induction false} PairLength(size: nat, right: int, n: nat)
    ensures |PairRows(size, right, n)| == 2 * n
  {
    if n > 0 {
      PairLength(size, right, n - 1);
    }
  }

  /** The right-hand column of pair q, counting from the right edge of a symbol and leaving out column six. */
  function RightColumn(size: nat, q: nat): int {
    if (size as int) - 1 - 2 * q > 6 then (size as int) - 1 - 2 * q else (size as int) - 2 - 2 * q
  }

  /** The walk is its first q pairs, then the walk from there. */
  function Pairs(size: nat, q: nat): seq<Module> {
    if q == 0 then [] else Pairs(size, q - 1) + PairRows(size, RightColumn(size, q - 1), size)
  }

  /** The walk's counter before pair q. */
  function Counter(size: nat, q: nat): int {
    if (size as int) - 1 - 2 * q >= 6 then (size as int) - 1 - 2 * q else (size as int) - 2 - 2 * q
  }

  lemma CounterStep(version: nat, q: nat)
    requires 0 < q <= 2 * version + 8
    ensures var size := SizeForVersion(version);
      && Counter(size, q - 1) >= 1
      && Adjusted(Counter(size, q - 1)) == RightColumn(size, q - 1) && Adjusted(Counter(size, q - 1)) - 2 == Counter(size, q)
  {}

  lemma ColumnDirection(version: nat, q: nat)
    requires q < 2 * version + 8
    ensures Upward(RightColumn(SizeForVersion(version), q)) <==> q % 2 == 0
  {
    assert (RightColumn(SizeForVersion(version), q) + 1) / 2 == 2 * version + 8 - q;
  }

  lemma {:induction false} WalkSplits(version: nat, q: nat)
    requires q <= 2 * version + 8
    ensures var size := SizeForVersion(version); Walk(size, size - 1) == Pairs(size, q) + Walk(size, Counter(size, q))
  {
    var size := SizeForVersion(version);
    if q > 0 {
      WalkSplits(version, q - 1);
      CounterStep(version, q);
      hide Walk, PairRows, Counter, RightColumn, Adjusted, SizeForVersion;
      WalkNext(Pairs(size, q - 1), size, Counter(size, q - 1));
    } else {
      assert [] + Walk(size, size - 1) == Walk(size, size - 1);
    }
  }

  lemma {:induction false} PairsLength(size: nat, q: nat)
    ensures |Pairs(size, q)| == 2 * (q * size)
  {
    hide PairRows;
    if q > 0 {
      PairsLength(size, q - 1);
      PairLength(size, RightColumn(size, q - 1), size);
      assert q * size == (q - 1) * size + size;
    }
  }

  /** Module 2 (q size + t) + j of the walk is in pair q, row t of that pair: pairs run from the right edge leftwards, the
      first one upwards and then in alternate directions, and each row is read from right to left. */
  lemma WalkAt(version: nat, q: nat, t: nat, j: nat)
    requires q < 2 * version + 8 && t < SizeForVersion(version) && j < 2
    ensures var size := SizeForVersion(version);
      var k := 2 * (q * size + t) + j;
      && k < |Walk(size, size - 1)|
      && Walk(size, size - 1)[k] == Module(
           (if size - 1 - 2 * q > 6 then size - 1 - 2 * q else size - 2 - 2 * q) - j,
           if q % 2 == 0 then size - 1 - t else t)
  {
    var size := SizeForVersion(version);
    assert RightColumn(size, q) == if size - 1 - 2 * q > 6 then size - 1 - 2 * q else size - 2 - 2 * q;
    ColumnDirection(version, q);
    hide Walk, Upward, RightColumn, SizeForVersion;
    InPair(version, q, t, j, q * size);
  }

  lemma InPair(version: nat, q: nat, t: nat, j: nat, before: nat)
    requires q < 2 * version + 8 && t < SizeForVersion(version) && j < 2 && before == q * SizeForVersion(version)
    ensures var (size, k) := (SizeForVersion(version), 2 * before + (2 * t + j));
      && size > 0 && k < |Walk(size, size - 1)|
      && Walk(size, size - 1)[k] == Module(RightColumn(size, q) - j, RowAt(size, RightColumn(size, q), t))
  {
    hide Walk, PairRows, RightColumn, RowAt, Counter;
    var size := SizeForVersion(version);
    var right := RightColumn(size, q);
    WalkSplits(version, q + 1);
    PairsLength(size, q);
    hide SizeForVersion;
    PairAt(size, right, size, t, j);
    assert Pairs(size, q + 1) == Pairs(size, q) + PairRows(size, right, size);
    hide Pairs;
    Between(Pairs(size, q), PairRows(size, right, size), Walk(size, Counter(size, q + 1)), 2 * t + j);
  }

  lemma Between(before: seq<Module>, pair: seq<Module>, rest: seq<Module>, i: nat)
    requires i < |pair|
    ensures (before + pair + rest)[|before| + i] == pair[i]
  {}

  /** The walk starts in the bottom right corner, and from the right-hand module of a row it goes to the left-hand one. */
  lemma WalkRows(version: nat, q: nat, t: nat, k: nat)
    requires q < 2 * version + 8 && t < SizeForVersion(version) && k == 2 * (q * SizeForVersion(version) + t)
    ensures var (size, w) := (SizeForVersion(version), Walk(SizeForVersion(version), SizeForVersion(version) - 1));
      k + 1 < |w| && w[0] == Module(size - 1, size - 1) && w[k + 1] == Module(w[k].x - 1, w[k].y)
  {
    hide Walk;
    WalkAt(version, 0, 0, 0);
    WalkAt(version, q, t, 0);
    WalkAt(version, q, t, 1);
  }

  /** From the left-hand module the walk goes on in the adjacent row of the same two columns. */
  lemma WalkTurns(version: nat, q: nat, t: nat, k: nat)
    requires q < 2 * version + 8 && t + 1 < SizeForVersion(version) && k == 2 * (q * SizeForVersion(version) + t)
    ensures var w := Walk(SizeForVersion(version), SizeForVersion(version) - 1);
      k + 2 < |w| && w[k + 2].x == w[k].x && (w[k + 2].y == w[k].y + 1 || w[k + 2].y == w[k].y - 1)
  {
    hide Walk;
    WalkAt(version, q, t, 0);
    WalkAt(version, q, t + 1, 0);
  }

  /** At the top or bottom edge it goes to the next column leftwards in the same row, stepping over column six. */
  lemma WalkCrosses(version: nat, q: nat, k: nat)
    requires q + 1 < 2 * version + 8 && k == 2 * (q * SizeForVersion(version) + SizeForVersion(version) - 1)
    ensures var (size, w) := (SizeForVersion(version), Walk(SizeForVersion(version), SizeForVersion(version) - 1));
      && k + 2 < |w| && (w[k].y == 0 || w[k].y == size - 1)
      && w[k + 2] == Module(if w[k].x - 2 == 6 then 5 else w[k].x - 2, w[k].y)
  {
    ColumnNext(version, q);
    hide Walk, SizeForVersion;
    var size := SizeForVersion(version);
    WalkAt(version, q, size - 1, 0);
    WalkAt(version, q + 1, 0, 0);
    assert (q + 1) * size == q * size + size;
  }

  lemma ColumnNext(version: nat, q: nat)
    ensures var (x, size) := (RightColumn(SizeForVersion(version), q), SizeForVersion(version));
      size > 0 && RightColumn(size, q + 1) == if x <= 6 || x - 2 > 6 then x - 2 else 5
  {}

  // ----- reading

  /** The modules of the walk that carry data. */
  function DataModules(fn: Grid, ms: seq<Module>): seq<Module>
    requires fn.Valid()
  {
    if |ms| == 0 then []
    else DataModules(fn, ms[..|ms| - 1]) + if fn.At(ms[|ms| - 1]) then [] else [ms[|ms| - 1]]
  }

  /** The data bits in the order of the walk, with the mask undone. */
  function ReadBits(g: Grid, mask: int, ms: seq<Module>): (r: seq<bool>)
    requires g.Valid()
    ensures |r| == |ms|
  {
    seq(|ms|, k requires 0 <= k < |ms| => g.At(ms[k]) != MaskBit(mask, ms[k]))
  }

  /** The first total bytes, or as many as there are and zeros for the rest. */
  function Take(bytes: seq<byte>, total: nat): (r: seq<byte>)
    ensures |r| == total
  {
    if |bytes| >= total then bytes[..total] else bytes + seq(total - |bytes|, _ => 0)
  }

  function CodewordsOf(g: Grid, fn: Grid, mask: int, total: nat): (r: seq<byte>)
    requires g.Valid() && fn.Valid()
    ensures |r| == total
  {
    Take(Pack(ReadBits(g, mask, DataModules(fn, Walk(fn.size, fn.size - 1)))), total)
  }

  /** What the byte assembler holds after the bits b. */
  ghost predicate Assembled(out: seq<byte>, current: nat, bits: nat, total: nat, b: seq<bool>) {
    if |b| / 8 < total
    then out == Pack(b) && bits == |b| % 8 && current == Value(b[|b| - bits..]) && current < 128
    else |out| == total && out == Pack(b)[..total]
  }

  lemma AssembleStep(out: seq<byte>, current: nat, bits: nat, total: nat, b: seq<bool>, bit: bool)
    requires Assembled(out, current, bits, total, b) && |b| / 8 < total
    ensures var c := 2 * current + if bit then 1 else 0;
      && bits < 8 && c < 256
      && (bits == 7 ==> Assembled(out + [c], 0, 0, total, b + [bit]))
      && (bits < 7 ==> Assembled(out, c, bits + 1, total, b + [bit]))
  {
    hide Value, Pow2, Pack;
    var c := 2 * current + if bit then 1 else 0;
    var tail := b[|b| - bits..];
    ValueSnoc(tail, bit);
    PackSnoc(b, bit);
    ValueBound(tail + [bit]);
    Pow2Monotone(|tail| + 1, 8);
    SmallPowers();
    if bits < 7 {
      Pow2Monotone(|tail| + 1, 7);
      assert (b + [bit])[|b| - bits..] == tail + [bit];
    } else {
      assert (b + [bit])[|b| + 1..] == [];
    }
  }

  lemma SmallPowers()
    ensures Pow2(7) == 128 && Pow2(8) == 256 && Value([]) == 0
  {}

  lemma AssembleSkip(out: seq<byte>, current: nat, bits: nat, total: nat, b: seq<bool>, bit: bool)
    requires Assembled(out, current, bits, total, b) && |b| / 8 >= total
    ensures Assembled(out, current, bits, total, b + [bit])
  {
    PackSnoc(b, bit);
  }

  lemma ReadSnoc(g: Grid, fn: Grid, mask: int, seen: seq<Module>, m: Module)
    requires g.Valid() && fn.Valid()
    ensures var b := ReadBits(g, mask, DataModules(fn, seen));
      ReadBits(g, mask, DataModules(fn, seen + [m])) == if fn.At(m) then b else b + [g.At(m) != MaskBit(mask, m)]
  {
    hide *;
    DataSnoc(fn, seen, m);
    if !fn.At(m) {
      BitsSnoc(g, mask, DataModules(fn, seen), m);
    }
  }

  lemma BitsSnoc(g: Grid, mask: int, ms: seq<Module>, m: Module)
    requires g.Valid()
    ensures ReadBits(g, mask, ms + [m]) == ReadBits(g, mask, ms) + [g.At(m) != MaskBit(mask, m)]
  {
    hide MaskBit, Grid.At, Grid.Valid;
  }

  lemma DataSnoc(fn: Grid, seen: seq<Module>, m: Module)
    requires fn.Valid()
    ensures DataModules(fn, seen + [m]) == if fn.At(m) then DataModules(fn, seen) else DataModules(fn, seen) + [m]
  {
    assert (seen + [m])[..|seen|] == seen;
  }

  /** One module of the walk: skipped if it is a function module or enough bytes are read. */
  method ReadModule(g: Grid, fn: Grid, mask: int, total: nat, m: Module, out: seq<byte>, current: nat, bits: nat, ghost seen: seq<Module>)
    returns (out': seq<byte>, current': nat, bits': nat)
    requires g.Valid() && fn.Valid()
    requires Assembled(out, current, bits, total, ReadBits(g, mask, DataModules(fn, seen)))
    ensures Assembled(out', current', bits', total, ReadBits(g, mask, DataModules(fn, seen + [m])))
  {
    hide MaskBit, ReadBits, DataModules, Assembled, Grid.At, Grid.Valid;
    out', current', bits' := out, current, bits;
    ghost var b := ReadBits(g, mask, DataModules(fn, seen));
    ReadSnoc(g, fn, mask, seen, m);
    if fn.At(m) {
      return;
    }
    ghost var bit := g.At(m) != MaskBit(mask, m);
    if |out| >= total {
      AssembledFull(out, current, bits, total, b);
      AssembleSkip(out, current, bits, total, b, bit);
      return;
    }
    AssembledFull(out, current, bits, total, b);
    AssembleStep(out, current, bits, total, b, bit);
    var dark := g.At(m);
    if MaskBit(mask, m) {
      dark := !dark;
    }
    current' := 2 * current;
    if dark {
      current' := current' + 1;
    }
    bits' := bits + 1;
    if bits' == 8 {
      out' := out + [current'];
      current', bits' := 0, 0;
    }
  }

  lemma AssembledFull(out: seq<byte>, current: nat, bits: nat, total: nat, b: seq<bool>)
    requires Assembled(out, current, bits, total, b)
    ensures |out| >= total <==> |b| / 8 >= total
    ensures |b| / 8 < total ==> bits < 8
  {}

  /** The column-pair walk; fn marks the version's function modules. */
  method ReadCodewords(g: Grid, fn: Grid, mask: int, total: nat) returns (out: seq<byte>)
    requires g.Valid() && fn.Valid()
    ensures out == CodewordsOf(g, fn, mask, total)
  {
    hide Assembled, ReadBits, DataModules, PairRows;
    var size := fn.size;
    out := [];
    var current, bits := 0, 0;
    ghost var seen: seq<Module> := [];
    ghost var walk := Walk(fn.size, fn.size - 1);
    AssembledStart(g, fn, mask, total);
    var right: int := (size as int) - 1;
    while right >= 1
      invariant seen + Walk(size, right) == walk
      invariant Assembled(out, current, bits, total, ReadBits(g, mask, DataModules(fn, seen)))
      decreases right + 1
    {
      WalkNext(seen, size, right);
      if right == 6 {
        right := 5;
      }
      out, current, bits := ReadPair(g, fn, mask, total, right, out, current, bits, seen);
      seen := seen + PairRows(size, right, size);
      right := right - 2;
    }
    assert Walk(size, right) == [] && seen == walk;
    AssembledEnd(out, current, bits, total, ReadBits(g, mask, DataModules(fn, seen)));
    while |out| < total
      invariant Take(out, total) == CodewordsOf(g, fn, mask, total) && |out| <= total
    {
      out := out + [0];
    }
  }

  lemma WalkNext(seen: seq<Module>, size: nat, right: int)
    requires right >= 1
    ensures seen + Walk(size, right) == (seen + PairRows(size, Adjusted(right), size)) + Walk(size, Adjusted(right) - 2)
  {}

  /** Two columns, upwards or downwards. */
  method ReadPair(g: Grid, fn: Grid, mask: int, total: nat, right: int, out: seq<byte>, current: nat, bits: nat, ghost seen: seq<Module>)
    returns (out': seq<byte>, current': nat, bits': nat)
    requires g.Valid() && fn.Valid()
    requires Assembled(out, current, bits, total, ReadBits(g, mask, DataModules(fn, seen)))
    ensures Assembled(out', current', bits', total, ReadBits(g, mask, DataModules(fn, seen + PairRows(fn.size, right, fn.size))))
  {
    hide Assembled, ReadBits, DataModules;
    var size := fn.size;
    out', current', bits' := out, current, bits;
    assert seen + PairRows(size, right, 0) == seen;
    for vert := 0 to size
      invariant Assembled(out', current', bits', total, ReadBits(g, mask, DataModules(fn, seen + PairRows(size, right, vert))))
    {
      var upward := (right + 1) / 2 % 2 == 0;
      var y := if upward then size - 1 - vert else vert;
      ghost var now := seen + PairRows(size, right, vert);
      out', current', bits' := ReadModule(g, fn, mask, total, Module(right, y), out', current', bits', now);
      out', current', bits' := ReadModule(g, fn, mask, total, Module(right - 1, y), out', current', bits', now + [Module(right, y)]);
      assert seen + PairRows(size, right, vert + 1) == now + [Module(right, y)] + [Module(right - 1, y)];
    }
  }

  lemma AssembledStart(g: Grid, fn: Grid, mask: int, total: nat)
    requires g.Valid() && fn.Valid()
    ensures Assembled([], 0, 0, total, ReadBits(g, mask, DataModules(fn, [])))
  {}

  lemma AssembledEnd(out: seq<byte>, current: nat, bits: nat, total: nat, b: seq<bool>)
    requires Assembled(out, current, bits, total, b)
    ensures |out| <= total && Take(out, total) == Take(Pack(b), total)
  {}

  /** Data modules keep the order of the walk: the one at place i comes after those before it. */
  lemma {:induction false} DataModuleAt(fn: Grid, ms: seq<Module>, i: nat)
    requires fn.Valid() && i < |ms| && !fn.At(ms[i])
    ensures var rank := |DataModules(fn, ms[..i])|; rank < |DataModules(fn, ms)| && DataModules(fn, ms)[rank] == ms[i]
    decreases |ms|
  {
    var k := |ms| - 1;
    if i < k {
      DataModuleAt(fn, ms[..k], i);
      assert ms[..k][..i] == ms[..i];
    }
  }

  /** The module's bit with the mask undone. */
  function Unmasked(g: Grid, mask: int, m: Module): nat
    requires g.Valid()
  {
    if g.At(m) then (if MaskBit(mask, m) then 0 else 1) else (if MaskBit(mask, m) then 1 else 0)
  }

  /** Codeword i is made of data modules 8 i to 8 i + 7, the first of them its highest bit; codewords the symbol has no room for
      are zero. */
  lemma CodewordAt(g: Grid, fn: Grid, mask: int, total: nat, i: nat)
    requires g.Valid() && fn.Valid() && i < total
    ensures var ms := DataModules(fn, Walk(fn.size, fn.size - 1));
      CodewordsOf(g, fn, mask, total)[i] ==
        if 8 * i + 8 <= |ms| then
          128 * Unmasked(g, mask, ms[8 * i]) + 64 * Unmasked(g, mask, ms[8 * i + 1]) + 32 * Unmasked(g, mask, ms[8 * i + 2])
          + 16 * Unmasked(g, mask, ms[8 * i + 3]) + 8 * Unmasked(g, mask, ms[8 * i + 4]) + 4 * Unmasked(g, mask, ms[8 * i + 5])
          + 2 * Unmasked(g, mask, ms[8 * i + 6]) + Unmasked(g, mask, ms[8 * i + 7])
        else 0
  {
    hide Unmasked, DataModules, Walk, Value, ReadBits;
    var ms := DataModules(fn, Walk(fn.size, fn.size - 1));
    if 8 * i + 8 <= |ms| {
      var eight := ReadBits(g, mask, ms)[8 * i..8 * i + 8];
      EightDigits(eight);
      DigitsRead(g, mask, ms, i, eight);
    }
  }

  lemma DigitsRead(g: Grid, mask: int, ms: seq<Module>, i: nat, eight: seq<bool>)
    requires g.Valid() && 8 * i + 8 <= |ms| && eight == ReadBits(g, mask, ms)[8 * i..8 * i + 8]
    ensures forall j :: 0 <= j < 8 ==> Digit(eight[j]) == Unmasked(g, mask, ms[8 * i + j])
  {
    hide MaskBit, Grid.At;
  }

  // ----- what is written in the order of the walk is read back

  /** Sets the first n of the listed modules to the given bits under the mask, in order. */
  function Place(g: Grid, mask: int, ms: seq<Module>, bits: seq<bool>, n: nat): (r: Grid)
    requires g.Valid() && n <= |ms| && n <= |bits|
    ensures r.Valid() && r.size == g.size
  {
    if n == 0 then g
    else Place(g, mask, ms, bits, n - 1).Set(ms[n - 1], bits[n - 1] != MaskBit(mask, ms[n - 1]))
  }

  lemma {:induction false} PlacedAt(g: Grid, mask: int, ms: seq<Module>, bits: seq<bool>, n: nat, k: nat)
    requires g.Valid() && k < n <= |ms| && n <= |bits|
    requires Distinct(ms) && forall m :: m in ms ==> g.Inside(m)
    ensures Place(g, mask, ms, bits, n).At(ms[k]) == (bits[k] != MaskBit(mask, ms[k]))
    decreases n
  {
    hide MaskBit;
    var prior := Place(g, mask, ms, bits, n - 1);
    assert ms[n - 1] in ms;
    SetAt(prior, ms[n - 1], bits[n - 1] != MaskBit(mask, ms[n - 1]), ms[k]);
    if k < n - 1 {
      PlacedAt(g, mask, ms, bits, n - 1, k);
    }
  }

  lemma {:induction false} DataModulesMembers(fn: Grid, ms: seq<Module>)
    requires fn.Valid() && Distinct(ms)
    ensures Distinct(DataModules(fn, ms))
    ensures forall m :: m in DataModules(fn, ms) <==> m in ms && !fn.At(m)
  {
    if |ms| > 0 {
      var k := |ms| - 1;
      DataModulesMembers(fn, ms[..k]);
      assert ms == ms[..k] + [ms[k]];
      assert ms[k] !in ms[..k];
    }
  }

  /** For every size, mask and placement of function modules, a codeword sequence that fits is read back as written. */
  lemma ReadsBack(version: nat, g: Grid, fn: Grid, mask: int, cw: seq<byte>)
    requires g.Valid() && fn.Valid() && g.size == fn.size == SizeForVersion(version)
    requires 8 * |cw| <= |DataModules(fn, Walk(fn.size, fn.size - 1))|
    ensures CodewordsOf(Place(g, mask, DataModules(fn, Walk(fn.size, fn.size - 1)), Unpack(cw), 8 * |cw|), fn, mask, |cw|) == cw
  {
    hide MaskBit, Place, DataModules, Walk, Unpack, Pack;
    var walk := Walk(fn.size, fn.size - 1);
    var ms := DataModules(fn, walk);
    WalkIsExact(version);
    DataModulesMembers(fn, walk);
    var bits := Unpack(cw);
    var w := Place(g, mask, ms, bits, 8 * |cw|);
    var read := ReadBits(w, mask, ms);
    forall k: nat | k < 8 * |cw|
      ensures read[k] == bits[k]
    {
      PlacedAt(g, mask, ms, bits, 8 * |cw|, k);
    }
    assert read == bits + read[8 * |cw|..];
    PackUnpack(cw, read[8 * |cw|..]);
  }
}
