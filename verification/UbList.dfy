/** The list of received blocks that lie beyond the contiguous prefix
    (`ALTUS_UB_List`).  `Insert` states the classification on unbounded stream
    positions; `UbList.Check` is the array code on wrapped 32-bit numbers. */
module UnsequencedBlocks {
  import opened SeqNum

  const MAX_BLOCKS: nat := 8

  /** Positions lo, lo + 1, ..., hi - 1. */
  datatype Block = Block(lo: nat, hi: nat)

  datatype Verdict = Full | Malicious | Extended | Added

  predicate Holds(b: Block, p: int) {
    b.lo <= p < b.hi
  }

  predicate Covers(bs: seq<Block>, p: int) {
    exists i :: 0 <= i < |bs| && Holds(bs[i], p)
  }

  /** Ascending, with at least one missing position between neighbours. */
  predicate Separated(bs: seq<Block>) {
    && (forall i :: 0 <= i < |bs| ==> bs[i].lo <= bs[i].hi)
    && (forall i, j :: 0 <= i < j < |bs| ==> bs[i].hi < bs[j].lo)
  }

  predicate Within(bs: seq<Block>, from: int, to: int) {
    forall i :: 0 <= i < |bs| ==> from <= bs[i].lo && bs[i].hi < to
  }

  /** An arrival [s, e) is refused when it starts inside a tracked block or
      reaches past the start of one. */
  predicate Conflicts(bs: seq<Block>, s: nat, e: nat) {
    exists i :: 0 <= i < |bs| && (Holds(bs[i], s) || s < bs[i].lo < e)
  }

  /** The arrival continues a tracked block on one side or the other. */
  predicate Touches(bs: seq<Block>, s: nat, e: nat) {
    exists i :: 0 <= i < |bs| && (bs[i].hi == s || (s < bs[i].lo && bs[i].lo == e))
  }

  /** Where the scan stops: the first block not entirely before `s`. */
  function Slot(bs: seq<Block>, s: nat): (i: nat)
    ensures i <= |bs|
    ensures forall j :: 0 <= j < i ==> bs[j].hi < s
    ensures i < |bs| ==> bs[i].hi >= s
  {
    if bs == [] then 0
    else if bs[|bs| - 1].hi < s && Slot(bs[..|bs| - 1], s) == |bs| - 1 then |bs|
    else Slot(bs[..|bs| - 1], s)
  }

  lemma SlotUnique(bs: seq<Block>, s: nat, i: nat)
    requires i <= |bs|
    requires forall j :: 0 <= j < i ==> bs[j].hi < s
    requires i < |bs| ==> bs[i].hi >= s
    ensures Slot(bs, s) == i
  {
  }

  function InsertAt(bs: seq<Block>, i: nat, b: Block): seq<Block>
    requires i <= |bs|
  {
    bs[..i] + [b] + bs[i..]
  }

  function InsertBefore(bs: seq<Block>, i: nat, s: nat, e: nat): (Verdict, seq<Block>)
    requires i <= |bs|
  {
    if |bs| < MAX_BLOCKS then (Added, InsertAt(bs, i, Block(s, e))) else (Full, bs)
  }

  function Merged(bs: seq<Block>, i: nat): seq<Block>
    requires i + 1 < |bs|
  {
    bs[..i] + [Block(bs[i].lo, bs[i + 1].hi)] + bs[i + 2..]
  }

  function ExtendUp(bs: seq<Block>, i: nat, e: nat): (Verdict, seq<Block>)
    requires i < |bs|
  {
    if i == |bs| - 1 || bs[i + 1].lo > e then
      (Extended, bs[i := Block(bs[i].lo, e)])
    else if bs[i + 1].lo == e then
      (Extended, Merged(bs, i))
    else
      (Malicious, bs)
  }

  function Insert(bs: seq<Block>, s: nat, e: nat): (Verdict, seq<Block>) {
    var i := Slot(bs, s);
    if i == |bs| || bs[i].lo > e then
      InsertBefore(bs, i, s, e)
    else if bs[i].lo > s then
      if bs[i].lo == e then (Extended, bs[i := Block(s, bs[i].hi)]) else (Malicious, bs)
    else if bs[i].hi > s then
      (Malicious, bs)
    else
      ExtendUp(bs, i, e)
  }

  predicate Accepted(v: Verdict) {
    v == Extended || v == Added
  }

  // ----- what the classification means -----

  lemma InsertedCovers(bs: seq<Block>, i: nat, b: Block, p: int)
    requires i <= |bs|
    ensures Covers(InsertAt(bs, i, b), p) <==> Covers(bs, p) || Holds(b, p)
  {
    var r := InsertAt(bs, i, b);
    if Covers(r, p) {
      var k :| 0 <= k < |r| && Holds(r[k], p);
      assert k < i ==> r[k] == bs[k];
      assert k > i ==> r[k] == bs[k - 1];
    }
    if Covers(bs, p) {
      var k :| 0 <= k < |bs| && Holds(bs[k], p);
      assert k < i ==> r[k] == bs[k];
      assert k >= i ==> r[k + 1] == bs[k];
    }
    assert r[i] == b;
  }

  lemma ReplacedCovers(bs: seq<Block>, i: nat, b: Block, p: int)
    requires i < |bs|
    requires forall q :: Holds(bs[i], q) ==> Holds(b, q)
    ensures Covers(bs[i := b], p) <==> Covers(bs, p) || Holds(b, p)
  {
    var r := bs[i := b];
    if Covers(bs, p) {
      var k :| 0 <= k < |bs| && Holds(bs[k], p);
      assert Holds(r[k], p);
    }
    if Covers(r, p) {
      var k :| 0 <= k < |r| && Holds(r[k], p);
      assert k != i ==> Holds(bs[k], p);
    }
    assert r[i] == b;
  }

  lemma InsertedAt(bs: seq<Block>, i: nat, b: Block, k: nat)
    requires i <= |bs| && k <= |bs|
    ensures |InsertAt(bs, i, b)| == |bs| + 1
    ensures InsertAt(bs, i, b)[k] == if k < i then bs[k] else if k == i then b else bs[k - 1]
  {
  }

  lemma MergedAt(bs: seq<Block>, i: nat, k: nat)
    requires i + 1 < |bs| && k < |bs| - 1
    ensures |Merged(bs, i)| == |bs| - 1
    ensures k < i ==> Merged(bs, i)[k] == bs[k]
    ensures k == i ==> Merged(bs, i)[k] == Block(bs[i].lo, bs[i + 1].hi)
    ensures k > i ==> Merged(bs, i)[k] == bs[k + 1]
  {
  }

  lemma MergedSeparated(bs: seq<Block>, i: nat)
    requires i + 1 < |bs| && Separated(bs)
    ensures Separated(Merged(bs, i))
  {
  }

  lemma MergedCovers(bs: seq<Block>, i: nat, p: int)
    requires i + 1 < |bs| && Separated(bs)
    ensures Covers(Merged(bs, i), p) <==> Covers(bs, p) || bs[i].hi <= p < bs[i + 1].lo
  {
    hide Merged;
    var r := Merged(bs, i);
    MergedAt(bs, i, i);
    if Covers(r, p) {
      var k :| 0 <= k < |r| && Holds(r[k], p);
      MergedAt(bs, i, k);
      assert Holds(r[k], p);
    }
    if k :| 0 <= k < |bs| && Holds(bs[k], p) {
      if k < i { MergedAt(bs, i, k); assert Holds(r[k], p); }
      else if k > i + 1 { MergedAt(bs, i, k - 1); assert Holds(r[k - 1], p); }
      else { assert Holds(r[i], p); }
    }
    if bs[i].hi <= p < bs[i + 1].lo { assert Holds(r[i], p); }
  }

  lemma InsertedSeparated(bs: seq<Block>, i: nat, b: Block)
    requires i <= |bs| && Separated(bs) && b.lo <= b.hi
    requires forall j :: 0 <= j < i ==> bs[j].hi < b.lo
    requires forall j :: i <= j < |bs| ==> b.hi < bs[j].lo
    ensures Separated(InsertAt(bs, i, b))
  {
    var r := InsertAt(bs, i, b);
    forall j, k | 0 <= j < k < |r|
      ensures r[j].hi < r[k].lo
    {
      InsertedAt(bs, i, b, j);
      InsertedAt(bs, i, b, k);
    }
    forall j | 0 <= j < |r|
      ensures r[j].lo <= r[j].hi
    {
      InsertedAt(bs, i, b, j);
    }
  }

  lemma InsertSeparated(bs: seq<Block>, s: nat, e: nat)
    requires Separated(bs) && s <= e && |bs| <= MAX_BLOCKS
    requires Accepted(Insert(bs, s, e).0)
    ensures var r := Insert(bs, s, e).1; Separated(r) && 0 < |r| <= MAX_BLOCKS
  {
    hide Separated, Slot;
    var i := Slot(bs, s);
    SeparatedAt(bs, i);
    if i == |bs| || bs[i].lo > e {
      InsertedSeparated(bs, i, Block(s, e));
    } else if bs[i].lo > s {
      ReplacedSeparated(bs, i, Block(s, bs[i].hi));
    } else if i == |bs| - 1 || bs[i + 1].lo > e {
      ReplacedSeparated(bs, i, Block(bs[i].lo, e));
    } else {
      MergedSeparated(bs, i);
    }
  }

  lemma SeparatedAt(bs: seq<Block>, i: nat)
    requires Separated(bs) && i <= |bs|
    ensures i < |bs| ==> bs[i].lo <= bs[i].hi
    ensures forall j, k :: 0 <= j < k < |bs| ==> bs[j].hi < bs[k].lo
    ensures forall j :: i < j < |bs| ==> bs[i].hi < bs[j].lo
    ensures forall j :: 0 <= j < |bs| ==> bs[j].lo <= bs[j].hi
  {
  }

  lemma ReplacedSeparated(bs: seq<Block>, i: nat, b: Block)
    requires i < |bs| && Separated(bs) && b.lo <= b.hi
    requires forall j :: 0 <= j < i ==> bs[j].hi < b.lo
    requires forall j :: i < j < |bs| ==> b.hi < bs[j].lo
    ensures Separated(bs[i := b])
  {
  }

  /** An accepted arrival leaves a separated list of at most eight blocks that
      covers exactly the old positions and the new ones. */
  lemma InsertExact(bs: seq<Block>, s: nat, e: nat, p: int)
    requires Separated(bs) && s <= e && |bs| <= MAX_BLOCKS
    requires Accepted(Insert(bs, s, e).0)
    ensures var r := Insert(bs, s, e).1;
      && Separated(r) && |r| <= MAX_BLOCKS && |r| > 0
      && (Covers(r, p) <==> Covers(bs, p) || s <= p < e)
  {
    hide Separated, Slot, Covers;
    InsertSeparated(bs, s, e);
    var i := Slot(bs, s);
    SeparatedAt(bs, i);
    if i == |bs| || bs[i].lo > e {
      InsertedCovers(bs, i, Block(s, e), p);
    } else if bs[i].lo > s {
      ReplacedCovers(bs, i, Block(s, bs[i].hi), p);
      BlockCovers(bs, i, p);
    } else if i == |bs| - 1 || bs[i + 1].lo > e {
      ReplacedCovers(bs, i, Block(bs[i].lo, e), p);
      BlockCovers(bs, i, p);
    } else {
      MergedCovers(bs, i, p);
    }
  }

  lemma BlockCovers(bs: seq<Block>, i: nat, p: int)
    requires i < |bs|
    ensures Holds(bs[i], p) ==> Covers(bs, p)
  {
  }

  /** `InsertExact` for all positions at once. */
  lemma InsertGrows(bs: seq<Block>, s: nat, e: nat)
    requires Separated(bs) && s <= e && |bs| <= MAX_BLOCKS
    requires Accepted(Insert(bs, s, e).0)
    ensures Separated(Insert(bs, s, e).1) && 0 < |Insert(bs, s, e).1| <= MAX_BLOCKS
    ensures forall p :: Covers(Insert(bs, s, e).1, p) <==> Covers(bs, p) || s <= p < e
  {
    var r := Insert(bs, s, e).1;
    forall p
      ensures Covers(r, p) <==> Covers(bs, p) || s <= p < e
    {
      InsertExact(bs, s, e, p);
    }
    InsertExact(bs, s, e, s);
  }

  /** The verdicts, without reference to the scan: refused exactly on a conflict;
      full exactly when all eight slots are taken and no block can be extended. */
  lemma InsertVerdict(bs: seq<Block>, s: nat, e: nat)
    requires Separated(bs) && s <= e && |bs| <= MAX_BLOCKS
    ensures Insert(bs, s, e).0 == Malicious <==> Conflicts(bs, s, e)
    ensures Insert(bs, s, e).0 == Full
       <==> !Conflicts(bs, s, e) && !Touches(bs, s, e) && |bs| == 8
    ensures Insert(bs, s, e).0 == Extended <==> !Conflicts(bs, s, e) && Touches(bs, s, e)
    ensures !Accepted(Insert(bs, s, e).0) ==> Insert(bs, s, e).1 == bs
  {
    ConflictAtSlot(bs, s, e);
    if !Conflicts(bs, s, e) { TouchAtSlot(bs, s, e); }
  }

  /** Only the block at the slot, or the one after a block that ends at `s`, can conflict. */
  lemma ConflictAtSlot(bs: seq<Block>, s: nat, e: nat)
    requires Separated(bs) && s <= e
    ensures var i := Slot(bs, s);
      Conflicts(bs, s, e) <==>
        && i < |bs|
        && if bs[i].lo > s then bs[i].lo < e
           else bs[i].hi > s || (i + 1 < |bs| && bs[i + 1].lo < e)
  {
    hide Slot;
    var i := Slot(bs, s);
    if k :| 0 <= k < |bs| && (Holds(bs[k], s) || s < bs[k].lo < e) {
      assert i <= k;
    }
    if i < |bs| {
      assert bs[i].lo <= s < bs[i].hi ==> Holds(bs[i], s);
    }
  }

  lemma TouchAtSlot(bs: seq<Block>, s: nat, e: nat)
    requires Separated(bs) && s <= e && !Conflicts(bs, s, e)
    ensures var i := Slot(bs, s);
      Touches(bs, s, e) <==> i < |bs| && (bs[i].hi == s || (s < bs[i].lo && bs[i].lo == e))
  {
    hide Slot;
    var i := Slot(bs, s);
    if k :| 0 <= k < |bs| && (bs[k].hi == s || (s < bs[k].lo && bs[k].lo == e)) {
      assert i <= k;
      assert i < k ==> bs[i].hi < bs[k].lo;
    }
  }

  /** Bounds survive an accepted arrival. */
  lemma InsertWithin(bs: seq<Block>, s: nat, e: nat, from: int, to: int)
    requires Separated(bs) && Within(bs, from, to) && from <= s <= e < to
    ensures Within(Insert(bs, s, e).1, from, to)
  {
    var (v, r) := Insert(bs, s, e);
    var i := Slot(bs, s);
    forall k | 0 <= k < |r|
      ensures from <= r[k].lo && r[k].hi < to
    {
      if v == Added {
        InsertedAt(bs, i, Block(s, e), k);
      } else if |r| < |bs| {
        MergedAt(bs, i, k);
      }
    }
  }

  /** A non-empty block of the result ends where the arrival or a non-empty old block did. */
  predicate EndsKnown(bs: seq<Block>, s: nat, e: nat, b: Block) {
    b.lo < b.hi ==>
      || (b.hi == e && s < e)
      || (exists j :: 0 <= j < |bs| && bs[j].hi == b.hi && bs[j].lo < bs[j].hi)
  }

  lemma InsertEnds(bs: seq<Block>, s: nat, e: nat, k: nat)
    requires Separated(bs) && s <= e
    requires k < |Insert(bs, s, e).1|
    ensures EndsKnown(bs, s, e, Insert(bs, s, e).1[k])
  {
    var (v, r) := Insert(bs, s, e);
    var i := Slot(bs, s);
    if v == Added {
      InsertedAt(bs, i, Block(s, e), k);
      assert k != i ==> r[k] == bs[if k < i then k else k - 1];
    } else if |r| < |bs| {
      MergedAt(bs, i, k);
      assert r[k].hi == bs[if k < i then k else k + 1].hi;
    } else {
      assert k != i ==> r[k] == bs[k];
    }
  }

  /** The three tests of the scan, decided on the positions. */
  lemma Compare(b: Block, s: nat)
    requires -TWO31 < b.lo - s < TWO31 && -TWO31 < b.hi - s < TWO31
    ensures After(Wrap(b.lo), Wrap(s)) <==> b.lo > s
    ensures After(Wrap(b.hi), Wrap(s)) <==> b.hi > s
    ensures After(Wrap(s), Wrap(b.hi)) <==> s > b.hi
    ensures Wrap(s) == Wrap(b.hi) <==> s == b.hi
  {
    AfterIsOrder(b.lo, s);
    AfterIsOrder(b.hi, s);
    AfterIsOrder(s, b.hi);
  }

  // ----- the list as the source keeps it -----

  /** Two parallel arrays of eight slots and a count.  `blocks` holds the unbounded
      positions that the wrapped entries stand for. */
  class UbList {
    const headSeq: array<u32>
    const tailSeq: array<u32>
    var count: nat
    ghost var blocks: seq<Block>

    ghost predicate Valid()
      reads this, headSeq, tailSeq
    {
      && headSeq != tailSeq && headSeq.Length == MAX_BLOCKS && tailSeq.Length == MAX_BLOCKS
      && count == |blocks| && count <= MAX_BLOCKS
      && Separated(blocks)
      && Mirrors(blocks)
    }

    ghost predicate Mirrors(bs: seq<Block>)
      reads this, headSeq, tailSeq
      requires |bs| <= headSeq.Length && |bs| <= tailSeq.Length
    {
      forall i :: 0 <= i < |bs| ==> headSeq[i] == Wrap(bs[i].lo) && tailSeq[i] == Wrap(bs[i].hi)
    }

    constructor ()
      ensures Valid() && blocks == []
      ensures fresh(headSeq) && fresh(tailSeq)
    {
      headSeq := new u32[MAX_BLOCKS];
      tailSeq := new u32[MAX_BLOCKS];
      count := 0;
      blocks := [];
    }

    /** The `pushBack` macro: move the entries from slot `i` on up by one. */
    method PushBack(i: nat)
      requires headSeq != tailSeq && headSeq.Length == MAX_BLOCKS && tailSeq.Length == MAX_BLOCKS
      requires i < MAX_BLOCKS
      modifies headSeq, tailSeq
      ensures forall k :: 0 <= k <= i ==> headSeq[k] == old(headSeq[k]) && tailSeq[k] == old(tailSeq[k])
      ensures forall k :: i < k < MAX_BLOCKS ==>
        headSeq[k] == old(headSeq[k - 1]) && tailSeq[k] == old(tailSeq[k - 1])
    {
      var j := MAX_BLOCKS - 1;
      while j > i
        invariant i <= j < MAX_BLOCKS
        invariant forall k :: 0 <= k <= j ==> headSeq[k] == old(headSeq[k]) && tailSeq[k] == old(tailSeq[k])
        invariant forall k :: j < k < MAX_BLOCKS ==>
          headSeq[k] == old(headSeq[k - 1]) && tailSeq[k] == old(tailSeq[k - 1])
      {
        headSeq[j] := headSeq[j - 1];
        tailSeq[j] := tailSeq[j - 1];
        j := j - 1;
      }
    }

    /** The erase loop of a merge: move the entries after slot `i` down by one. */
    method PullForward(i: nat)
      requires headSeq != tailSeq && headSeq.Length == MAX_BLOCKS && tailSeq.Length == MAX_BLOCKS
      requires i < MAX_BLOCKS
      modifies headSeq, tailSeq
      ensures forall k :: 0 <= k < i ==> headSeq[k] == old(headSeq[k]) && tailSeq[k] == old(tailSeq[k])
      ensures forall k :: i <= k < MAX_BLOCKS - 1 ==>
        headSeq[k] == old(headSeq[k + 1]) && tailSeq[k] == old(tailSeq[k + 1])
    {
      var j := i;
      while j < MAX_BLOCKS - 1
        invariant i <= j <= MAX_BLOCKS - 1
        invariant forall k :: 0 <= k < i ==> headSeq[k] == old(headSeq[k]) && tailSeq[k] == old(tailSeq[k])
        invariant forall k :: j <= k < MAX_BLOCKS ==> headSeq[k] == old(headSeq[k]) && tailSeq[k] == old(tailSeq[k])
        invariant forall k :: i <= k < j ==>
          headSeq[k] == old(headSeq[k + 1]) && tailSeq[k] == old(tailSeq[k + 1])
      {
        headSeq[j] := headSeq[j + 1];
        tailSeq[j] := tailSeq[j + 1];
        j := j + 1;
      }
    }

    /** Store [s, e) in slot `i`, which every earlier block precedes. */
    method AddAt(i: nat, seq_: u32, end: u32, ghost s: nat, ghost e: nat)
      requires Valid() && i <= count < MAX_BLOCKS
      requires seq_ == Wrap(s) && end == Wrap(e)
      requires Separated(InsertAt(blocks, i, Block(s, e)))
      modifies this, headSeq, tailSeq
      ensures Valid() && blocks == InsertAt(old(blocks), i, Block(s, e))
    {
      PushBack(i);
      headSeq[i] := seq_;
      tailSeq[i] := end;
      count := count + 1;
      blocks := InsertAt(blocks, i, Block(s, e));
      forall k | 0 <= k < |blocks|
        ensures headSeq[k] == Wrap(blocks[k].lo) && tailSeq[k] == Wrap(blocks[k].hi)
      {
        InsertedAt(old(blocks), i, Block(s, e), k);
      }
    }

    /** Block `i` grows up to the start of the next one and swallows it. */
    method Merge(i: nat)
      requires Valid() && i + 1 < count
      modifies this, headSeq, tailSeq
      ensures Valid() && blocks == Merged(old(blocks), i)
    {
      MergedSeparated(blocks, i);
      tailSeq[i] := tailSeq[i + 1];
      PullForward(i + 1);
      count := count - 1;
      blocks := Merged(blocks, i);
      forall k | 0 <= k < |blocks|
        ensures headSeq[k] == Wrap(blocks[k].lo) && tailSeq[k] == Wrap(blocks[k].hi)
      {
        MergedAt(old(blocks), i, k);
      }
    }

    method SetHead(i: nat, seq_: u32, ghost s: nat)
      requires Valid() && i < count && seq_ == Wrap(s)
      requires Separated(blocks[i := Block(s, blocks[i].hi)])
      modifies this`blocks, headSeq
      ensures Valid() && blocks == old(blocks)[i := Block(s, old(blocks)[i].hi)]
    {
      headSeq[i] := seq_;
      blocks := blocks[i := Block(s, blocks[i].hi)];
    }

    method SetTail(i: nat, end: u32, ghost e: nat)
      requires Valid() && i < count && end == Wrap(e)
      requires Separated(blocks[i := Block(blocks[i].lo, e)])
      modifies this`blocks, tailSeq
      ensures Valid() && blocks == old(blocks)[i := Block(old(blocks)[i].lo, e)]
    {
      tailSeq[i] := end;
      blocks := blocks[i := Block(blocks[i].lo, e)];
    }

    /** The branch for an arrival that starts before block `i`. */
    method CheckBefore(i: nat, seq_: u32, end: u32, ghost s: nat, ghost e: nat) returns (v: Verdict)
      requires Valid() && i < count && seq_ == Wrap(s) && end == Wrap(e)
      requires s <= e && -TWO31 < blocks[i].lo - e < TWO31
      requires Slot(blocks, s) == i && s < blocks[i].lo
      modifies this, headSeq, tailSeq
      ensures Valid() && (v, blocks) == Insert(old(blocks), s, e)
      ensures !Accepted(v) ==> unchanged(this) && unchanged(headSeq) && unchanged(tailSeq)
    {
      if Accepted(Insert(blocks, s, e).0) { InsertExact(blocks, s, e, s); }
      AfterIsOrder(blocks[i].lo, e);
      if After(headSeq[i], end) {
        if count < MAX_BLOCKS {
          AddAt(i, seq_, end, s, e);
          return Added;
        }
        return Full;
      } else if end == headSeq[i] {
        SetHead(i, seq_, s);
        return Extended;
      }
      return Malicious;
    }

    /** The branch for an arrival that starts exactly where block `i` ends. */
    method CheckAdjacent(i: nat, end: u32, ghost s: nat, ghost e: nat) returns (v: Verdict)
      requires Valid() && i < count && end == Wrap(e)
      requires s <= e && (i + 1 < count ==> -TWO31 < blocks[i + 1].lo - e < TWO31)
      requires Slot(blocks, s) == i && s == blocks[i].hi
      modifies this, headSeq, tailSeq
      ensures Valid() && (v, blocks) == Insert(old(blocks), s, e)
      ensures !Accepted(v) ==> unchanged(this) && unchanged(headSeq) && unchanged(tailSeq)
    {
      assert Insert(blocks, s, e) == ExtendUp(blocks, i, e);
      if Accepted(Insert(blocks, s, e).0) { InsertExact(blocks, s, e, s); }
      if i == count - 1 {
        SetTail(i, end, e);
        return Extended;
      }
      AfterIsOrder(blocks[i + 1].lo, e);
      if After(headSeq[i + 1], end) {
        SetTail(i, end, e);
        return Extended;
      } else if end == headSeq[i + 1] {
        Merge(i);
        return Extended;
      }
      return Malicious;
    }

    /** The branch for an arrival beyond every tracked block. */
    method CheckPast(seq_: u32, end: u32, ghost s: nat, ghost e: nat) returns (v: Verdict)
      requires Valid() && seq_ == Wrap(s) && end == Wrap(e) && s <= e
      requires forall j :: 0 <= j < count ==> blocks[j].hi < s
      modifies this, headSeq, tailSeq
      ensures Valid() && (v, blocks) == Insert(old(blocks), s, e)
      ensures !Accepted(v) ==> unchanged(this) && unchanged(headSeq) && unchanged(tailSeq)
    {
      SlotUnique(blocks, s, count);
      if count < MAX_BLOCKS {
        InsertExact(blocks, s, e, s);
        AddAt(count, seq_, end, s, e);
        return Added;
      }
      return Full;
    }

    /** altusUBCheck.  While every number in play stands for a position in one
        half-range [from, from + 2^31), the wrapped scan decides as `Insert` does. */
    method Check(seq_: u32, length: u32, ghost s: nat, ghost from: int) returns (v: Verdict)
      requires Valid() && seq_ == Wrap(s)
      requires from <= s && s + length < from + TWO31 && Within(blocks, from, from + TWO31)
      modifies this, headSeq, tailSeq
      ensures Valid()
      ensures (v, blocks) == Insert(old(blocks), s, s + length)
      ensures !Accepted(v) ==> unchanged(this) && unchanged(headSeq) && unchanged(tailSeq)
    {
      hide Wrap, After;
      var end := Wrap(seq_ + length);
      ghost var e := s + length;
      WrapSum(s, length);
      var i := 0;
      while i < count
        invariant i <= count
        invariant unchanged(this) && unchanged(headSeq) && unchanged(tailSeq)
        invariant forall j :: 0 <= j < i ==> blocks[j].hi < s
        invariant i == count ==> count == 0
      {
        Compare(blocks[i], s);
        if blocks[i].hi >= s { SlotUnique(blocks, s, i); }
        if After(headSeq[i], seq_) {
          v := CheckBefore(i, seq_, end, s, e);
          return;
        } else if After(tailSeq[i], seq_) {
          return Malicious;
        } else if seq_ == tailSeq[i] {
          v := CheckAdjacent(i, end, s, e);
          return;
        } else if After(seq_, tailSeq[i]) && i == count - 1 {
          v := CheckPast(seq_, end, s, e);
          return;
        }
        i := i + 1;
      }
      if count == 0 {
        v := CheckPast(seq_, end, s, e);
        return;
      }
      return Malicious;
    }

    /** altusUBPop: drop the first block. */
    method Pop()
      requires Valid() && count > 0
      modifies this, headSeq, tailSeq
      ensures Valid() && blocks == old(blocks)[1..]
    {
      PullForward(0);
      count := count - 1;
      blocks := blocks[1..];
    }
  }
}
