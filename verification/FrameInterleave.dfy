/** The round-robin interleaving of per-block frame lists in core/dhow-codec/src/pipeline.rs. */
module FrameInterleave {
  import opened Arithmetic

  /** Frame number `round` of block `block`. */
  datatype Slot = Slot(round: nat, block: nat)

  function Lengths<F>(perBlock: seq<seq<F>>): (lens: seq<nat>)
    ensures |lens| == |perBlock| && forall b: nat | b < |lens| :: lens[b] == |perBlock[b]|
  {
    if perBlock == [] then [] else [|perBlock[0]|] + Lengths(perBlock[1..])
  }

  predicate Exists(lens: seq<nat>, s: Slot) {
    s.block < |lens| && s.round < lens[s.block]
  }

  predicate AllExist(lens: seq<nat>, order: seq<Slot>) {
    forall i: nat | i < |order| :: Exists(lens, order[i])
  }

  /** The frames sent before block b's turn in round r. */
  function Sent(lens: seq<nat>, r: nat, b: nat): (order: seq<Slot>)
    requires b <= |lens|
    ensures AllExist(lens, order)
    decreases r, b
  {
    if b > 0 then
      var before := Sent(lens, r, b - 1);
      if r < lens[b - 1] then before + [Slot(r, b - 1)] else before
    else if r > 0 then Sent(lens, r - 1, |lens|)
    else []
  }

  function Longest(lens: seq<nat>): (longest: nat)
    ensures forall b: nat | b < |lens| :: lens[b] <= longest
    ensures longest == 0 || longest in lens
  {
    if lens == [] then 0
    else
      var rest := Longest(lens[1..]);
      if lens[0] > rest then lens[0] else rest
  }

  /** The order of the whole stream. */
  function Order(lens: seq<nat>): seq<Slot> {
    Sent(lens, Longest(lens), 0)
  }

  function Frames<F>(perBlock: seq<seq<F>>, order: seq<Slot>): (out: seq<F>)
    requires AllExist(Lengths(perBlock), order)
    ensures |out| == |order|
  {
    if order == [] then [] else Frames(perBlock, order[..|order| - 1]) + [perBlock[order[|order| - 1].block][order[|order| - 1].round]]
  }

  /** Slot s comes before block b's turn in round r. */
  predicate Before(s: Slot, r: nat, b: nat) {
    s.round < r || (s.round == r && s.block < b)
  }

  // ----- every frame exactly once, in round order

  /** The slots sent so far are exactly the existing ones whose turn has passed. */
  lemma {:induction false} SentExactly(lens: seq<nat>, r: nat, b: nat, s: Slot)
    requires b <= |lens|
    ensures s in Sent(lens, r, b) <==> Exists(lens, s) && Before(s, r, b)
    decreases r, b
  {
    if b > 0 {
      SentExactly(lens, r, b - 1, s);
    } else if r > 0 {
      SentExactly(lens, r - 1, |lens|, s);
    }
  }

  /** No slot is sent twice: each is strictly later than the one before it. */
  lemma {:induction false} SentInOrder(lens: seq<nat>, r: nat, b: nat, i: nat, k: nat)
    requires b <= |lens| && i < k < |Sent(lens, r, b)|
    ensures Before(Sent(lens, r, b)[i], Sent(lens, r, b)[k].round, Sent(lens, r, b)[k].block)
    decreases r, b
  {
    if b > 0 {
      var before := Sent(lens, r, b - 1);
      if k < |before| {
        SentInOrder(lens, r, b - 1, i, k);
      } else {
        SentExactly(lens, r, b - 1, before[i]);
      }
    } else if r > 0 {
      SentInOrder(lens, r - 1, |lens|, i, k);
    }
  }

  /** The part of a stream that belongs to one block. */
  function OfBlock<F>(order: seq<Slot>, out: seq<F>, a: nat): seq<F>
    requires |out| == |order|
  {
    if order == [] then []
    else
      var n := |order| - 1;
      OfBlock(order[..n], out[..n], a) + (if order[n].block == a then [out[n]] else [])
  }

  function Count(order: seq<Slot>, a: nat): nat {
    if order == [] then 0
    else Count(order[..|order| - 1], a) + (if order[|order| - 1].block == a then 1 else 0)
  }

  /** How many of block a's frames precede block b's turn in round r. */
  function Turns(lens: seq<nat>, r: nat, b: nat, a: nat): nat
    requires a < |lens|
  {
    Min(lens[a], r + (if a < b then 1 else 0))
  }

  /** Block b's turn in round r takes one frame of that block if it still has one, and none of the others. */
  lemma TurnsStep(lens: seq<nat>, r: nat, b: nat)
    requires b < |lens|
    ensures Turns(lens, r, b, b) == Min(r, lens[b])
    ensures forall a: nat | a < |lens| :: Turns(lens, r, b + 1, a) == if a == b && r < lens[b] then r + 1 else Turns(lens, r, b, a)
  {}

  lemma TurnsRound(lens: seq<nat>, r: nat)
    ensures forall a: nat | a < |lens| :: Turns(lens, 0, 0, a) == 0 && Turns(lens, r + 1, 0, a) == Turns(lens, r, |lens|, a)
  {}

  lemma NoneOfBlock<F>(a: nat)
    ensures OfBlock<F>([], [], a) == []
  {}

  lemma CountNone(a: nat)
    ensures Count([], a) == 0
  {}

  lemma OfBlockSnoc<F>(order: seq<Slot>, out: seq<F>, s: Slot, f: F, a: nat)
    requires |out| == |order|
    ensures OfBlock(order + [s], out + [f], a) == OfBlock(order, out, a) + if s.block == a then [f] else []
  {
    assert (order + [s])[..|order|] == order && (out + [f])[..|out|] == out;
  }

  lemma FramesSnoc<F>(perBlock: seq<seq<F>>, order: seq<Slot>, s: Slot)
    requires AllExist(Lengths(perBlock), order) && Exists(Lengths(perBlock), s)
    ensures AllExist(Lengths(perBlock), order + [s])
    ensures Frames(perBlock, order + [s]) == Frames(perBlock, order) + [perBlock[s.block][s.round]]
  {
    assert (order + [s])[..|order|] == order;
  }

  lemma CountSnoc(order: seq<Slot>, s: Slot, a: nat)
    ensures Count(order + [s], a) == Count(order, a) + if s.block == a then 1 else 0
  {
    assert (order + [s])[..|order|] == order;
  }

  lemma NextSent(lens: seq<nat>, s: Slot)
    requires s.block < |lens|
    ensures var before := Sent(lens, s.round, s.block);
      Sent(lens, s.round, s.block + 1) == if Exists(lens, s) then before + [s] else before
  {}

  lemma NextRound(lens: seq<nat>, r: nat)
    ensures Sent(lens, 0, 0) == []
    ensures Sent(lens, r + 1, 0) == Sent(lens, r, |lens|)
  {}

  lemma OneMoreTurn<F>(perBlock: seq<seq<F>>, r: nat, b: nat, a: nat)
    requires b < |perBlock| && a < |perBlock|
    requires var lens := Lengths(perBlock);
      OfBlock(Sent(lens, r, b), Frames(perBlock, Sent(lens, r, b)), a) == perBlock[a][..Turns(lens, r, b, a)]
    ensures var lens := Lengths(perBlock);
      OfBlock(Sent(lens, r, b + 1), Frames(perBlock, Sent(lens, r, b + 1)), a) == perBlock[a][..Turns(lens, r, b + 1, a)]
  {
    hide OfBlock, Frames, Sent, Lengths, Turns, AllExist;
    var lens := Lengths(perBlock);
    var (before, s) := (Sent(lens, r, b), Slot(r, b));
    NextSent(lens, s);
    TurnsStep(lens, r, b);
    if Exists(lens, s) {
      FramesSnoc(perBlock, before, s);
      OfBlockSnoc(before, Frames(perBlock, before), s, perBlock[b][r], a);
      if a == b {
        assert perBlock[a][..r + 1] == perBlock[a][..r] + [perBlock[a][r]];
      }
    }
  }

  /** A block's frames leave in their own order, none skipped and none repeated. */
  lemma {:induction false} BlockOrderKept<F>(perBlock: seq<seq<F>>, r: nat, b: nat, a: nat)
    requires b <= |perBlock| && a < |perBlock|
    ensures var lens := Lengths(perBlock);
      OfBlock(Sent(lens, r, b), Frames(perBlock, Sent(lens, r, b)), a) == perBlock[a][..Turns(lens, r, b, a)]
    decreases r, b
  {
    hide OfBlock, Frames, Sent, Lengths, Turns, AllExist;
    var lens := Lengths(perBlock);
    if b > 0 {
      BlockOrderKept(perBlock, r, b - 1, a);
      OneMoreTurn(perBlock, r, b - 1, a);
    } else if r > 0 {
      BlockOrderKept(perBlock, r - 1, |lens|, a);
      NextRound(lens, r - 1);
      TurnsRound(lens, r - 1);
    } else {
      NextRound(lens, 0);
      TurnsRound(lens, 0);
      assert OfBlock([], Frames(perBlock, []), a) == [] by { NoneOfBlock<F>(a); }
    }
  }

  lemma {:induction false} CountSent(lens: seq<nat>, r: nat, b: nat, a: nat)
    requires b <= |lens| && a < |lens|
    ensures Count(Sent(lens, r, b), a) == Turns(lens, r, b, a)
    decreases r, b
  {
    hide Count;
    if b > 0 {
      CountSent(lens, r, b - 1, a);
      if r < lens[b - 1] {
        CountSnoc(Sent(lens, r, b - 1), Slot(r, b - 1), a);
      }
    } else if r > 0 {
      CountSent(lens, r - 1, |lens|, a);
    } else {
      CountNone(a);
    }
  }

  // ----- fairness of every window

  /** What precedes the i-th frame sent is everything before that frame's own turn. */
  lemma {:induction false} PrefixSent(lens: seq<nat>, r: nat, b: nat, i: nat)
    requires b <= |lens| && i < |Sent(lens, r, b)|
    ensures var s := Sent(lens, r, b)[i]; Exists(lens, s) && Sent(lens, r, b)[..i] == Sent(lens, s.round, s.block)
    decreases r, b
  {
    if b > 0 {
      var before := Sent(lens, r, b - 1);
      if i < |before| {
        PrefixSent(lens, r, b - 1, i);
        assert Sent(lens, r, b)[..i] == before[..i];
      } else {
        assert Sent(lens, r, b)[..i] == before;
      }
    } else if r > 0 {
      PrefixSent(lens, r - 1, |lens|, i);
    }
  }

  lemma {:induction false} CountConcat(x: seq<Slot>, y: seq<Slot>, a: nat)
    ensures Count(x + y, a) == Count(x, a) + Count(y, a)
  {
    if y == [] {
      assert x + y == x;
    } else {
      var n := |y| - 1;
      assert (x + y)[..|x + y| - 1] == x + y[..n];
      CountConcat(x, y[..n], a);
    }
  }

  /** Every frame of the window is sent in a round in which blocks a and b both still have frames. */
  predicate BothPresent(lens: seq<nat>, window: seq<Slot>, a: nat, b: nat)
    requires a < |lens| && b < |lens|
  {
    forall s | s in window :: s.round < lens[a] && s.round < lens[b]
  }

  /** While two blocks both have frames left, no stretch of the stream holds two more of one than of the other. */
  lemma WindowIsFair(lens: seq<nat>, i: nat, k: nat, a: nat, b: nat)
    requires a < |lens| && b < |lens| && i <= k <= |Order(lens)|
    requires BothPresent(lens, Order(lens)[i..k], a, b)
    ensures -1 <= Count(Order(lens)[i..k], a) - Count(Order(lens)[i..k], b) <= 1
  {
    hide Count, Sent;
    var order := Order(lens);
    if i == k {
      CountNone(a);
      CountNone(b);
    } else {
      var (first, last) := (order[i], order[k - 1]);
      assert order[i..k][0] == first && order[i..k][k - 1 - i] == last;
      WindowCount(lens, i, k, a);
      WindowCount(lens, i, k, b);
    }
  }

  lemma WindowCount(lens: seq<nat>, i: nat, k: nat, a: nat)
    requires a < |lens| && i < k <= |Order(lens)|
    ensures var (first, last) := (Order(lens)[i], Order(lens)[k - 1]);
      && Exists(lens, first) && Exists(lens, last)
      && Count(Order(lens)[i..k], a) == Turns(lens, last.round, last.block + 1, a) - Turns(lens, first.round, first.block, a)
  {
    hide Count, Sent, Turns;
    var order := Order(lens);
    var (first, last) := (order[i], order[k - 1]);
    PrefixSent(lens, Longest(lens), 0, i);
    PrefixSent(lens, Longest(lens), 0, k - 1);
    CountSent(lens, first.round, first.block, a);
    CountSent(lens, last.round, last.block + 1, a);
    NextSent(lens, last);
    Cuts(order, i, k);
    CountConcat(order[..i], order[i..k], a);
  }

  lemma Cuts(order: seq<Slot>, i: nat, k: nat)
    requires i < k <= |order|
    ensures order[..k] == order[..k - 1] + [order[k - 1]]
    ensures order[..k] == order[..i] + order[i..k]
  {}

  // ----- what an outage costs a block

  function Total(order: seq<Slot>, blocks: nat): nat {
    if blocks == 0 then 0 else Total(order, blocks - 1) + Count(order, blocks - 1)
  }

  lemma {:induction false} TotalEmpty(blocks: nat)
    ensures Total([], blocks) == 0
  {
    if blocks > 0 { TotalEmpty(blocks - 1); }
  }

  lemma {:induction false} TotalSnoc(order: seq<Slot>, s: Slot, blocks: nat)
    ensures Total(order + [s], blocks) == Total(order, blocks) + if s.block < blocks then 1 else 0
  {
    if blocks > 0 {
      TotalSnoc(order, s, blocks - 1);
      assert (order + [s])[..|order|] == order;
    }
  }

  lemma {:induction false} TotalIsLength(order: seq<Slot>, blocks: nat)
    requires forall s | s in order :: s.block < blocks
    ensures Total(order, blocks) == |order|
  {
    if order == [] {
      TotalEmpty(blocks);
    } else {
      var n := |order| - 1;
      TotalIsLength(order[..n], blocks);
      TotalSnoc(order[..n], order[n], blocks);
      assert order == order[..n] + [order[n]];
    }
  }

  lemma {:induction false} TotalAtLeast(order: seq<Slot>, blocks: nat, a: nat, least: nat)
    requires forall b: nat | b < blocks :: Count(order, b) >= least
    requires a < blocks ==> Count(order, a) >= least + 1
    ensures Total(order, blocks) >= blocks * least + if a < blocks then 1 else 0
  {
    hide Count;
    if blocks > 0 {
      TotalAtLeast(order, blocks - 1, a, least);
      assert blocks * least == (blocks - 1) * least + least;
    }
  }

  /** An outage of w frames, while every block still has frames, takes at most ceil(w / blocks) from each. */
  lemma OutageIsSpread(lens: seq<nat>, i: nat, k: nat, a: nat)
    requires a < |lens| && i <= k <= |Order(lens)|
    requires forall s, b: nat | s in Order(lens)[i..k] && b < |lens| :: s.round < lens[b]
    ensures Count(Order(lens)[i..k], a) <= (k - i + |lens| - 1) / |lens|
  {
    var window := Order(lens)[i..k];
    var c := Count(window, a);
    if c > 0 {
      forall b: nat | b < |lens| ensures Count(window, b) >= c - 1 {
        WindowIsFair(lens, i, k, a, b);
      }
      forall s | s in window ensures s.block < |lens| {
        var n: nat :| n < |window| && window[n] == s;
        assert window[n] == Order(lens)[i + n];
      }
      TotalIsLength(window, |lens|);
      TotalAtLeast(window, |lens|, a, c - 1);
      CeilingBound(|lens|, c, k - i);
    }
  }

  lemma QuotientAtLeast(x: nat, n: nat, c: nat)
    requires n > 0 && x >= n * c
    ensures x / n >= c
  {
    if x / n < c {
      MulMonotone(x / n + 1, c, n);
    }
  }

  lemma CeilingBound(n: nat, c: nat, w: nat)
    requires n > 0 && c > 0 && w >= n * (c - 1) + 1
    ensures c <= (w + n - 1) / n
  {
    assert w + n - 1 >= n * c;
    QuotientAtLeast(w + n - 1, n, c);
  }

  // ----- the loop

  function Interleaved<F>(perBlock: seq<seq<F>>): (out: seq<F>) {
    Frames(perBlock, Order(Lengths(perBlock)))
  }

  /** Every frame of every block is in the stream exactly once, and nothing else is. */
  lemma EveryFrameOnce(lens: seq<nat>, s: Slot)
    ensures s in Order(lens) <==> Exists(lens, s)
    ensures forall i: nat, k: nat | i < k < |Order(lens)| :: Order(lens)[i] != Order(lens)[k]
  {
    SentExactly(lens, Longest(lens), 0, s);
    forall i: nat, k: nat | i < k < |Order(lens)| ensures Order(lens)[i] != Order(lens)[k] {
      SentInOrder(lens, Longest(lens), 0, i, k);
    }
  }

  /** Picking one block's frames out of the stream gives that block's list back. */
  lemma BlockRecovered<F>(perBlock: seq<seq<F>>, a: nat)
    requires a < |perBlock|
    ensures OfBlock(Order(Lengths(perBlock)), Interleaved(perBlock), a) == perBlock[a]
  {
    hide OfBlock, Frames, Sent, Lengths, AllExist;
    BlockOrderKept(perBlock, Longest(Lengths(perBlock)), 0, a);
  }

  method Interleave<F>(perBlock: seq<seq<F>>) returns (out: seq<F>)
    ensures out == Interleaved(perBlock)
  {
    hide Frames, Sent, Lengths, Turns;
    ghost var lens := Lengths(perBlock);
    var n := |perBlock|;
    var longest: nat := 0;
    for b := 0 to n
      invariant forall i: nat | i < b :: lens[i] <= longest
      invariant longest == 0 || longest in lens
    {
      if |perBlock[b]| > longest { longest := |perBlock[b]|; }
    }
    var cursors := new nat[n](_ => 0);
    out := [];
    NextRound(lens, 0);
    TurnsRound(lens, 0);
    assert out == Frames(perBlock, []);
    for r := 0 to longest
      invariant forall i: nat | i < n :: cursors[i] == Turns(lens, r, 0, i)
      invariant out == Frames(perBlock, Sent(lens, r, 0))
    {
      for b := 0 to n
        invariant forall i: nat | i < n :: cursors[i] == Turns(lens, r, b, i)
        invariant out == Frames(perBlock, Sent(lens, r, b))
      {
        NextSent(lens, Slot(r, b));
        TurnsStep(lens, r, b);
        if cursors[b] < |perBlock[b]| {
          FramesSnoc(perBlock, Sent(lens, r, b), Slot(r, b));
          out := out + [perBlock[b][cursors[b]]];
          cursors[b] := cursors[b] + 1;
        }
      }
      NextRound(lens, r);
      TurnsRound(lens, r);
    }
  }
}
