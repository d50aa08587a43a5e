/** FileRcvStream::CheckUB: the same list of blocks for file streams, kept in a vector
    and with its own verdicts. */
module FileReceive {
  import opened SeqNum
  import opened UnsequencedBlocks

  /** 16384 nodes of 4096 bytes past the head node. */
  const MAX_AHEAD: nat := 0x400_0000

  datatype Ubm = Full | Malicious | Overlap | Extended | Added | OnSeq | Merging

  /** What CheckUB does, on positions; `head` is the position of headSeq and `last` that
      of lastSeq.  A block that reaches into the next one is not noticed when it
      continues the one before. */
  function Classify(bs: seq<Block>, head: int, last: int, s: nat, e: nat): (Ubm, seq<Block>) {
    if s == last then
      (if bs == [] || bs[0].lo > e then Ubm.OnSeq else if bs[0].lo == e then Ubm.Merging else Ubm.Malicious, bs)
    else
      var i := Slot(bs, s);
      if i == |bs| then
        if |bs| < MAX_BLOCKS && e - head < MAX_AHEAD then (Ubm.Added, bs + [Block(s, e)]) else (Ubm.Full, bs)
      else if bs[i].lo > s then
        if bs[i].lo > e then
          if |bs| < MAX_BLOCKS then (Ubm.Added, InsertAt(bs, i, Block(s, e))) else (Ubm.Full, bs)
        else if bs[i].lo == e then (Ubm.Extended, bs[i := Block(s, bs[i].hi)])
        else (Ubm.Malicious, bs)
      else if bs[i].hi > s then
        (if bs[i].hi >= e then Ubm.Overlap else Ubm.Malicious, bs)
      else if i == |bs| - 1 || bs[i + 1].lo != e then
        if e - head >= MAX_AHEAD then (Ubm.Full, bs) else (Ubm.Extended, bs[i := Block(bs[i].lo, e)])
      else
        (Ubm.Extended, Merged(bs, i))
  }

  predicate Changes(v: Ubm) {
    v == Ubm.Extended || v == Ubm.Added
  }

  /** The one input family the code gets wrong: the arrival continues a tracked block
      and runs into the one after it. */
  predicate RunsIntoNext(bs: seq<Block>, s: nat, e: nat) {
    var i := Slot(bs, s);
    i + 1 < |bs| && bs[i].hi == s && bs[i + 1].lo < e
  }

  ghost predicate Tracked(bs: seq<Block>, head: int, last: int) {
    && Separated(bs) && |bs| <= MAX_BLOCKS && head <= last
    && Within(bs, last + 1, head + MAX_AHEAD)
  }

  /** Outside that family an accepted arrival has the effect of `Insert`. */
  lemma ClassifyIsInsert(bs: seq<Block>, head: int, last: int, s: nat, e: nat)
    requires Tracked(bs, head, last) && last <= s <= e && !RunsIntoNext(bs, s, e)
    requires Changes(Classify(bs, head, last, s, e).0)
    ensures Accepted(Insert(bs, s, e).0) && Classify(bs, head, last, s, e).1 == Insert(bs, s, e).1
    ensures last < s && e < head + MAX_AHEAD
  {
    var i := Slot(bs, s);
    if i == |bs| {
      assert InsertAt(bs, i, Block(s, e)) == bs + [Block(s, e)];
    }
  }

  /** The list keeps its shape exactly when the arrival is not of that family (or is
      refused for being too far ahead, or is the next one in sequence). */
  lemma KeepsShapeExactly(bs: seq<Block>, head: int, last: int, s: nat, e: nat)
    requires Tracked(bs, head, last) && last <= s <= e
    ensures Tracked(Classify(bs, head, last, s, e).1, head, last)
       <==> !RunsIntoNext(bs, s, e) || s == last || e - head >= MAX_AHEAD
  {
    var (v, r) := Classify(bs, head, last, s, e);
    if !Changes(v) {
      assert r == bs;
    } else if RunsIntoNext(bs, s, e) {
      var i := Slot(bs, s);
      assert r[i].hi == e && r[i + 1] == bs[i + 1];
    } else {
      ClassifyIsInsert(bs, head, last, s, e);
      InsertExact(bs, s, e, s);
      InsertWithin(bs, s, e, last + 1, head + MAX_AHEAD);
    }
  }

  /** What the verdicts mean: the covered positions grow by exactly the arrival when the
      list changes, and an overlap is already covered. */
  lemma VerdictsMean(bs: seq<Block>, head: int, last: int, s: nat, e: nat, p: int)
    requires Tracked(bs, head, last) && last <= s <= e
    ensures var (v, r) := Classify(bs, head, last, s, e);
      && (Changes(v) ==> (Covers(r, p) <==> Covers(bs, p) || s <= p < e))
      && (!Changes(v) ==> r == bs)
      && (v == Ubm.Overlap ==> s <= p < e ==> Covers(bs, p))
      && (v == Ubm.OnSeq || v == Ubm.Merging ==> s == last && (s <= p < e ==> !Covers(bs, p)))
      && (v == Ubm.Merging ==> bs != [] && bs[0].lo == e)
  {
    var (v, r) := Classify(bs, head, last, s, e);
    if RunsIntoNext(bs, s, e) {
      var i := Slot(bs, s);
      ReplacedCovers(bs, i, Block(bs[i].lo, e), p);
      BlockCovers(bs, i, p);
    } else if Changes(v) {
      ClassifyIsInsert(bs, head, last, s, e);
      InsertExact(bs, s, e, p);
    }
    if v == Ubm.Overlap && s <= p < e {
      assert Holds(bs[Slot(bs, s)], p);
    }
  }

  /** The arrival starts in a tracked block and does not leave it. */
  predicate Inside(bs: seq<Block>, s: nat, e: nat) {
    exists i :: 0 <= i < |bs| && Holds(bs[i], s) && e <= bs[i].hi
  }

  /** When each verdict is given, without reference to the scan.  `Noticed` is the
      conflict the code sees: every one but those of the bad family. */
  lemma VerdictsExact(bs: seq<Block>, head: int, last: int, s: nat, e: nat)
    requires Tracked(bs, head, last) && last <= s <= e
    ensures var v := Classify(bs, head, last, s, e).0; s > last ==>
      && (v == Ubm.Overlap <==> Inside(bs, s, e))
      && (v == Ubm.Malicious <==> Noticed(bs, s, e) && !Inside(bs, s, e))
      && (v == Ubm.Extended <==> !Noticed(bs, s, e) && Touches(bs, s, e) && e - head < 16384 * 4096)
      && (v == Ubm.Added <==>
           !Noticed(bs, s, e) && !Touches(bs, s, e) && |bs| < 8 && e - head < 16384 * 4096)
      && (v == Ubm.Full <==>
           !Noticed(bs, s, e) && (e - head >= 16384 * 4096 || (!Touches(bs, s, e) && |bs| == 8)))
    ensures var v := Classify(bs, head, last, s, e).0; s == last ==>
      && (v == Ubm.OnSeq <==> forall i :: 0 <= i < |bs| ==> e < bs[i].lo)
      && (v == Ubm.Merging <==> |bs| > 0 && bs[0].lo == e)
      && (v == Ubm.Malicious <==> Conflicts(bs, s, e))
  {
    hide Conflicts, Touches, Inside, Slot;
    ConflictAtSlot(bs, s, e);
    if RunsIntoNext(bs, s, e) { SlotTouches(bs, s, e); }
    if !Conflicts(bs, s, e) { TouchAtSlot(bs, s, e); }
    InsideAtSlot(bs, s, e);
    if s == last { SlotUnique(bs, s, 0); }
  }

  predicate Noticed(bs: seq<Block>, s: nat, e: nat) {
    Conflicts(bs, s, e) && !RunsIntoNext(bs, s, e)
  }

  lemma SlotTouches(bs: seq<Block>, s: nat, e: nat)
    requires RunsIntoNext(bs, s, e)
    ensures Touches(bs, s, e)
  {
  }

  lemma InsideAtSlot(bs: seq<Block>, s: nat, e: nat)
    requires Separated(bs) && s <= e
    ensures var i := Slot(bs, s);
      Inside(bs, s, e) <==> i < |bs| && bs[i].lo <= s < bs[i].hi && e <= bs[i].hi
  {
    var i := Slot(bs, s);
    if k :| 0 <= k < |bs| && Holds(bs[k], s) && e <= bs[k].hi {
      assert i <= k;
    }
    if i < |bs| && bs[i].lo <= s < bs[i].hi { assert Holds(bs[i], s); }
  }

  /** An input of the family: blocks [10, 20) and [30, 40), then 15 bytes at 20. */
  lemma RunsIntoNextExample()
    ensures var bs := [Block(10, 20), Block(30, 40)];
      && Tracked(bs, 0, 5) && RunsIntoNext(bs, 20, 35)
      && Classify(bs, 0, 5, 20, 35) == (Ubm.Extended, [Block(10, 35), Block(30, 40)])
      && !Separated([Block(10, 35), Block(30, 40)])
  {
    var bs := [Block(10, 20), Block(30, 40)];
    SlotUnique(bs, 20, 0);
    var r := [Block(10, 35), Block(30, 40)];
    assert bs[0 := Block(10, 35)] == r && r[0].hi > r[1].lo;
  }

  // ----- runs -----

  datatype Arrival = Arrival(pos: nat, length: nat)

  /** The list after a run of arrivals that are all unsequenced, and what they covered. */
  function RunList(bs: seq<Block>, head: int, last: int, arrivals: seq<Arrival>): seq<Block> {
    if arrivals == [] then bs
    else
      var a := arrivals[|arrivals| - 1];
      Classify(RunList(bs, head, last, arrivals[..|arrivals| - 1]), head, last, a.pos, a.pos + a.length).1
  }

  /** No arrival of the run is of the bad family at its turn. */
  predicate RunClean(bs: seq<Block>, head: int, last: int, arrivals: seq<Arrival>) {
    forall i :: 0 <= i < |arrivals| ==>
      last <= arrivals[i].pos &&
      !RunsIntoNext(RunList(bs, head, last, arrivals[..i]), arrivals[i].pos, arrivals[i].pos + arrivals[i].length)
  }

  lemma CleanSplit(bs: seq<Block>, head: int, last: int, arrivals: seq<Arrival>)
    requires RunClean(bs, head, last, arrivals) && arrivals != []
    ensures var n := |arrivals| - 1; var a := arrivals[n];
      && RunClean(bs, head, last, arrivals[..n]) && last <= a.pos
      && !RunsIntoNext(RunList(bs, head, last, arrivals[..n]), a.pos, a.pos + a.length)
  {
    hide Classify, RunsIntoNext, RunList;
    var n := |arrivals| - 1;
    forall i | 0 <= i < n
      ensures arrivals[..n][..i] == arrivals[..i]
    {
    }
  }

  /** Arrival `i` was added or extended a block at its turn, and contains position `p`. */
  predicate Adds(bs: seq<Block>, head: int, last: int, arrivals: seq<Arrival>, i: nat, p: int)
    requires i < |arrivals|
  {
    var a := arrivals[i];
    && Changes(Classify(RunList(bs, head, last, arrivals[..i]), head, last, a.pos, a.pos + a.length).0)
    && a.pos <= p < a.pos + a.length
  }

  predicate Gained(bs: seq<Block>, head: int, last: int, arrivals: seq<Arrival>, p: int) {
    exists i :: 0 <= i < |arrivals| && Adds(bs, head, last, arrivals, i, p)
  }

  lemma GainedLast(bs: seq<Block>, head: int, last: int, arrivals: seq<Arrival>, p: int)
    requires arrivals != []
    ensures var n := |arrivals| - 1;
      Gained(bs, head, last, arrivals, p) <==>
        Gained(bs, head, last, arrivals[..n], p) || Adds(bs, head, last, arrivals, n, p)
  {
    hide Adds;
    var n := |arrivals| - 1;
    forall i | 0 <= i < n
      ensures Adds(bs, head, last, arrivals[..n], i, p) <==> Adds(bs, head, last, arrivals, i, p)
    {
      AddsEarlier(bs, head, last, arrivals, i, p);
    }
  }

  lemma AddsEarlier(bs: seq<Block>, head: int, last: int, arrivals: seq<Arrival>, i: nat, p: int)
    requires i + 1 < |arrivals|
    ensures Adds(bs, head, last, arrivals[..|arrivals| - 1], i, p) <==> Adds(bs, head, last, arrivals, i, p)
  {
    hide Classify, RunList;
    assert arrivals[..|arrivals| - 1][..i] == arrivals[..i];
  }

  /** Over every clean run the list stays sorted, separated, at most eight long, beyond
      `last` and within reach of the head; it covers exactly the old positions and those
      of the arrivals that were added or extended a block. */
  lemma {:induction false} RunKeepsShape(bs: seq<Block>, head: int, last: int, arrivals: seq<Arrival>, p: int)
    requires Tracked(bs, head, last) && RunClean(bs, head, last, arrivals)
    ensures var r := RunList(bs, head, last, arrivals);
      Tracked(r, head, last) && (Covers(r, p) <==> Covers(bs, p) || Gained(bs, head, last, arrivals, p))
  {
    hide Classify, Tracked, Covers, RunsIntoNext, RunClean;
    if arrivals != [] {
      hide Gained;
      var n := |arrivals| - 1;
      var before, a := arrivals[..n], arrivals[n];
      CleanSplit(bs, head, last, arrivals);
      RunKeepsShape(bs, head, last, before, p);
      GainedLast(bs, head, last, arrivals, p);
      var m := RunList(bs, head, last, before);
      KeepsShapeExactly(m, head, last, a.pos, a.pos + a.length);
      VerdictsMean(m, head, last, a.pos, a.pos + a.length, p);
    }
  }

  function Times(k: nat, g: nat): nat {
    k * g
  }

  ghost predicate Multiple(x: nat, g: nat) {
    exists k: nat :: x == Times(k, g)
  }

  /** All blocks start at multiples of `g`. */
  ghost predicate OnGrid(bs: seq<Block>, g: nat) {
    forall i :: 0 <= i < |bs| ==> Multiple(bs[i].lo, g)
  }

  lemma {:induction false} TimesMore(j: nat, k: nat, g: nat)
    requires j < k
    ensures Times(j, g) + g <= Times(k, g)
  {
    assert Times(k, g) == Times(k - 1, g) + g;
    if j < k - 1 { TimesMore(j, k - 1, g); }
  }

  lemma NextMultiple(a: nat, b: nat, g: nat)
    requires Multiple(a, g) && Multiple(b, g) && a < b
    ensures a + g <= b
  {
    hide Times;
    var j: nat :| a == Times(j, g);
    var k: nat :| b == Times(k, g);
    if j < k {
      TimesMore(j, k, g);
    } else if k < j {
      TimesMore(k, j, g);
    }
  }

  /** A segment of a grid never runs into the next block of that grid. */
  lemma GridStep(bs: seq<Block>, head: int, last: int, a: Arrival, g: nat)
    requires Tracked(bs, head, last) && last <= a.pos
    requires OnGrid(bs, g) && Multiple(a.pos, g) && a.length <= g
    ensures !RunsIntoNext(bs, a.pos, a.pos + a.length)
    ensures Tracked(Classify(bs, head, last, a.pos, a.pos + a.length).1, head, last)
    ensures OnGrid(Classify(bs, head, last, a.pos, a.pos + a.length).1, g)
  {
    hide Multiple, Classify;
    var (s, e) := (a.pos, a.pos + a.length);
    var i := Slot(bs, s);
    if RunsIntoNext(bs, s, e) {
      NextMultiple(s, bs[i + 1].lo, g);
    }
    KeepsShapeExactly(bs, head, last, s, e);
    GridKept(bs, head, last, s, e, g);
  }

  lemma GridKept(bs: seq<Block>, head: int, last: int, s: nat, e: nat, g: nat)
    requires OnGrid(bs, g) && Multiple(s, g)
    ensures OnGrid(Classify(bs, head, last, s, e).1, g)
  {
    hide Multiple;
    var r := Classify(bs, head, last, s, e).1;
    var i := Slot(bs, s);
    forall k | 0 <= k < |r|
      ensures Multiple(r[k].lo, g)
    {
      if |r| > |bs| && i < |bs| { InsertedAt(bs, i, Block(s, e), k); }
      if |r| < |bs| { MergedAt(bs, i, k); }
    }
  }

  lemma CleanJoin(bs: seq<Block>, head: int, last: int, arrivals: seq<Arrival>)
    requires arrivals != []
    requires var n := |arrivals| - 1; var a := arrivals[n];
      && RunClean(bs, head, last, arrivals[..n]) && last <= a.pos
      && !RunsIntoNext(RunList(bs, head, last, arrivals[..n]), a.pos, a.pos + a.length)
    ensures RunClean(bs, head, last, arrivals)
  {
    hide Classify, RunsIntoNext, RunList;
    var n := |arrivals| - 1;
    forall i | 0 <= i < n
      ensures arrivals[..n][..i] == arrivals[..i] && arrivals[..n][i] == arrivals[i]
    {
    }
  }

  /** Fixed segmentation keeps every run clean: if all arrivals start at multiples of
      `g` and are at most `g` long, none is of the bad family at its turn. */
  lemma {:induction false} GridRunClean(bs: seq<Block>, head: int, last: int, arrivals: seq<Arrival>, g: nat)
    requires Tracked(bs, head, last) && OnGrid(bs, g)
    requires forall i :: 0 <= i < |arrivals| ==>
      last <= arrivals[i].pos && Multiple(arrivals[i].pos, g) && arrivals[i].length <= g
    ensures RunClean(bs, head, last, arrivals)
    ensures Tracked(RunList(bs, head, last, arrivals), head, last)
    ensures OnGrid(RunList(bs, head, last, arrivals), g)
  {
    hide Classify, Tracked, RunsIntoNext, OnGrid, Multiple;
    if arrivals != [] {
      var n := |arrivals| - 1;
      GridRunClean(bs, head, last, arrivals[..n], g);
      GridStep(RunList(bs, head, last, arrivals[..n]), head, last, arrivals[n], g);
      CleanJoin(bs, head, last, arrivals);
    }
  }

  /** What a sender with fixed segments may rely on: no condition on the run's own lists. */
  lemma GridRunKeepsShape(head: int, last: int, arrivals: seq<Arrival>, g: nat, p: int)
    requires head <= last
    requires forall i :: 0 <= i < |arrivals| ==>
      last <= arrivals[i].pos && Multiple(arrivals[i].pos, g) && arrivals[i].length <= g
    ensures var r := RunList([], head, last, arrivals);
      Tracked(r, head, last) && (Covers(r, p) <==> Gained([], head, last, arrivals, p))
  {
    hide RunList, Multiple;
    GridRunClean([], head, last, arrivals, g);
    RunKeepsShape([], head, last, arrivals, p);
  }

  // ----- the vector as the source keeps it -----

  lemma FarAhead(head: nat, e: nat)
    requires head <= e < head + TWO32
    ensures Wrap(Wrap(e) - Wrap(head)) == e - head
  {
    WrapSum(e, head);
    WrapUnique(e - head, 0, e - head);
  }

  lemma Unequal(a: u32, b: u32)
    ensures Wrap(a - b) > 0 <==> a != b
  {
    var d: int := a - b;
    if d < 0 { WrapUnique(d, -1, d + TWO32); } else { WrapUnique(d, 0, d); }
  }

  /** `(int)(a - b) >= 0`. */
  lemma AtOrAfter(a: int, b: int)
    requires -TWO31 < a - b < TWO31
    ensures AsInt32(Wrap(Wrap(a) - Wrap(b))) >= 0 <==> a >= b
  {
    WrapSum(a, b);
    if a >= b { WrapUnique(a - b, 0, a - b); } else { WrapUnique(a - b, -1, a - b + TWO32); }
  }

  class FileRcvStream {
    var lastSeq: u32
    var headSeq: u32
    var ubList: seq<(u32, u32)>
    ghost var blocks: seq<Block>
    ghost var last: nat
    ghost var head: nat

    /** The vector holds the wrapped ends of `blocks`; all lie within reach of headSeq. */
    ghost predicate Valid()
      reads this
    {
      && lastSeq == Wrap(last) && headSeq == Wrap(head) && head <= last < head + TWO31
      && |ubList| == |blocks| <= MAX_BLOCKS
      && (forall i :: 0 <= i < |blocks| ==> ubList[i] == (Wrap(blocks[i].lo), Wrap(blocks[i].hi)))
      && (forall i :: 0 <= i < |blocks| ==> blocks[i].lo <= blocks[i].hi)
      && Within(blocks, head, head + MAX_AHEAD)
    }

    constructor ()
      ensures Valid() && blocks == [] && last == 0 && head == 0
    {
      lastSeq, headSeq, ubList := 0, 0, [];
      blocks, last, head := [], 0, 0;
    }

    /** vector::insert before slot `i`. */
    method InsertPair(i: nat, seq_: u32, end: u32, ghost s: nat, ghost e: nat)
      requires Valid() && i < |ubList| < MAX_BLOCKS && seq_ == Wrap(s) && end == Wrap(e)
      requires head <= s <= e < head + MAX_AHEAD
      modifies this`ubList, this`blocks
      ensures Valid() && blocks == InsertAt(old(blocks), i, Block(s, e))
    {
      ubList := ubList[..i] + [(seq_, end)] + ubList[i..];
      blocks := InsertAt(blocks, i, Block(s, e));
      forall k | 0 <= k < |blocks|
        ensures ubList[k] == (Wrap(blocks[k].lo), Wrap(blocks[k].hi))
        ensures head <= blocks[k].lo <= blocks[k].hi < head + MAX_AHEAD
      {
        InsertedAt(old(blocks), i, Block(s, e), k);
      }
    }

    /** vector::erase of the block after `i`, which block `i` has just reached. */
    method ErasePair(i: nat)
      requires Valid() && i + 1 < |ubList| && blocks[i].hi <= blocks[i + 1].lo
      modifies this`ubList, this`blocks
      ensures Valid() && blocks == Merged(old(blocks), i)
    {
      ubList := ubList[..i] + [(ubList[i].0, ubList[i + 1].1)] + ubList[i + 2..];
      blocks := Merged(blocks, i);
      forall k | 0 <= k < |blocks|
        ensures ubList[k] == (Wrap(blocks[k].lo), Wrap(blocks[k].hi))
        ensures head <= blocks[k].lo <= blocks[k].hi < head + MAX_AHEAD
      {
        MergedAt(old(blocks), i, k);
      }
    }

    /** The branch for an arrival that starts where block `i` ends.  The cast closes
        after the comparison, so the test is "different from", not "before". */
    method Continue(i: nat, end: u32, ghost s: nat, ghost e: nat) returns (v: Ubm)
      requires Valid() && i < |ubList| && end == Wrap(e) && s != last && s <= e < head + TWO31
      requires Slot(blocks, s) == i && blocks[i].hi == s
      modifies this`ubList, this`blocks
      ensures Valid() && (v, blocks) == Classify(old(blocks), head, last, s, e)
    {
      hide Wrap;
      FarAhead(head, e);
      if i + 1 < |ubList| {
        AfterIsOrder(blocks[i + 1].lo, e);
        Unequal(ubList[i + 1].0, end);
      }
      if i + 1 == |ubList| || Wrap(ubList[i + 1].0 - end) > 0 {
        if Wrap(end - headSeq) >= MAX_AHEAD {
          return Ubm.Full;
        }
        ubList := ubList[i := (ubList[i].0, end)];
        blocks := blocks[i := Block(blocks[i].lo, e)];
        return Ubm.Extended;
      }
      if ubList[i + 1].0 == end {
        ErasePair(i);
        return Ubm.Extended;
      }
      return Ubm.Malicious;
    }

    /** The branch for an arrival that starts before block `i`. */
    method Precede(i: nat, seq_: u32, end: u32, ghost s: nat, ghost e: nat) returns (v: Ubm)
      requires Valid() && i < |ubList| && seq_ == Wrap(s) && end == Wrap(e)
      requires head <= s && s != last && s <= e < head + TWO31
      requires Slot(blocks, s) == i && s < blocks[i].lo
      modifies this`ubList, this`blocks
      ensures Valid() && (v, blocks) == Classify(old(blocks), head, last, s, e)
    {
      hide Wrap;
      var (hs, ts) := ubList[i];
      AfterIsOrder(blocks[i].lo, e);
      if After(hs, end) {
        if MAX_BLOCKS > |ubList| {
          InsertPair(i, seq_, end, s, e);
          return Ubm.Added;
        }
        return Ubm.Full;
      } else if end == hs {
        ubList := ubList[i := (seq_, ts)];
        blocks := blocks[i := Block(s, blocks[i].hi)];
        return Ubm.Extended;
      }
      return Ubm.Malicious;
    }

    /** CheckUB.  `s` is the position `seq_` stands for; the vector has room for eight. */
    method CheckUB(seq_: u32, length: u32, ghost s: nat) returns (v: Ubm)
      requires Valid() && seq_ == Wrap(s) && last <= s && s + length < head + TWO31
      modifies this`ubList, this`blocks
      ensures Valid()
      ensures (v, blocks) == Classify(old(blocks), head, last, s, s + length)
    {
      hide Wrap;
      var end := Wrap(seq_ + length);
      ghost var e := s + length;
      WrapSum(s, length);
      AfterIsOrder(s, last);
      if seq_ == lastSeq {
        if |ubList| == 0 {
          return OnSeq;
        }
        AfterIsOrder(blocks[0].lo, e);
        if After(ubList[0].0, end) {
          return OnSeq;
        }
        if ubList[0].0 == end {
          return Merging;
        }
        return Ubm.Malicious;
      }
      FarAhead(head, e);
      var i := 0;
      while i < |ubList|
        invariant i <= |ubList| && unchanged(this)
        invariant forall j :: 0 <= j < i ==> blocks[j].hi < s
      {
        Compare(blocks[i], s);
        if blocks[i].hi >= s { SlotUnique(blocks, s, i); }
        var (hs, ts) := ubList[i];
        if After(hs, seq_) {
          v := Precede(i, seq_, end, s, e);
          return;
        }
        if After(ts, seq_) {
          AtOrAfter(blocks[i].hi, e);
          if AsInt32(Wrap(ts - end)) >= 0 {
            return Overlap;
          }
          return Ubm.Malicious;
        }
        if seq_ == ts {
          v := Continue(i, end, s, e);
          return;
        }
        i := i + 1;
      }
      SlotUnique(blocks, s, i);
      if MAX_BLOCKS > |ubList| {
        if Wrap(end - headSeq) >= MAX_AHEAD {
          return Ubm.Full;
        }
        ubList := ubList + [(seq_, end)];
        blocks := blocks + [Block(s, e)];
        return Ubm.Added;
      }
      return Ubm.Full;
    }
  }
}
