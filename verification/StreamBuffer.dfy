/** What a reassembly window means, on unbounded stream positions and without
    nodes: the bytes known, how far they are contiguous, and how far they are read. */
module StreamBuffer {
  import opened SeqNum
  import opened UnsequencedBlocks

  const NODE_SIZE: nat := 4096
  const WINDOW_SIZE: nat := 0x20000
  const WINDOW_BYTES: nat := 0x2000_0000

  type byte = x: int | 0 <= x < 256

  datatype PutCode = Stored | Duplicate | WindowFull | TooManyBlocks | Invalid

  /** `base`: position of the head node's first byte; `off`: bytes of that node
      already read; `last`: first position not yet contiguous; `blocks`: what
      arrived beyond `last`; `known`: the bytes held, by position. */
  datatype Buffer = Buffer(base: nat, off: nat, last: nat, blocks: seq<Block>, known: map<nat, byte>)

  /** A new window whose first byte will be position `origin`. */
  function Start(origin: nat): Buffer {
    Buffer(origin, 0, origin, [], map[])
  }

  /** Nothing received, nothing read, next position 0. */
  predicate Blank(b: Buffer) {
    b.base == 0 && b.off == 0 && b.last == 0 && |b.blocks| == 0 && |b.known| == 0
  }

  function ReadPos(b: Buffer): nat {
    b.base + b.off
  }

  function SafeLen(b: Buffer): int {
    (b.last - b.base) / NODE_SIZE + 1
  }

  /** Position of the first byte of the node that holds `last`. */
  function SafeBase(b: Buffer): int {
    b.base + NODE_SIZE * (SafeLen(b) - 1)
  }

  ghost predicate Wf(b: Buffer) {
    && b.off < NODE_SIZE && ReadPos(b) <= b.last < b.base + WINDOW_BYTES
    && |b.blocks| <= MAX_BLOCKS && Separated(b.blocks)
    && Within(b.blocks, b.last + 1, b.base + WINDOW_BYTES)
    && (forall p: nat :: p in b.known <==> ReadPos(b) <= p < b.last || Covers(b.blocks, p))
  }

  /** The bytes ready to be read, in order. */
  function Contents(b: Buffer): (c: seq<byte>)
    requires Wf(b)
    ensures |c| == b.last - ReadPos(b)
  {
    seq(b.last - ReadPos(b), i requires 0 <= i < b.last - ReadPos(b) => b.known[ReadPos(b) + i])
  }

  lemma ContentsAt(b: Buffer, i: nat)
    requires Wf(b) && i < b.last - ReadPos(b)
    ensures ReadPos(b) + i in b.known && Contents(b)[i] == b.known[ReadPos(b) + i]
  {
  }

  /** The position an arriving 32-bit number stands for: ahead of `last` by at
      most 2^31, or else behind it. */
  function Locate(last: nat, seq_: u32): int {
    var ahead := Wrap(seq_ - Wrap(last));
    if ahead <= TWO31 then last + ahead else last + ahead - TWO32
  }

  predicate InSpan(p: nat, s: nat, length: nat) {
    s <= p < s + length
  }

  /** `known` with the bytes of `data` at positions s, s + 1, ... */
  function Placed(known: map<nat, byte>, s: nat, data: seq<byte>): (r: map<nat, byte>)
    ensures forall p: nat :: p in r <==> p in known || s <= p < s + |data|
    ensures forall p: nat :: p in r ==> r[p] == if s <= p < s + |data| then data[p - s] else known[p]
  {
    known + map p: nat | s <= p < s + |data| && InSpan(p, s, |data|) :: data[p - s]
  }

  function Commit(b: Buffer): Buffer {
    if |b.blocks| > 0 && b.blocks[0].lo == b.last then
      b.(last := b.blocks[0].hi, blocks := b.blocks[1..])
    else b
  }

  predicate Fits(b: Buffer, s: nat, length: nat)
    requires b.last <= s
  {
    SafeLen(b) + (s + length - b.last) / NODE_SIZE + 1 <= WINDOW_SIZE
  }

  function Put(b: Buffer, s: int, data: seq<byte>): (PutCode, Buffer) {
    if s < b.last then (Duplicate, b)
    else if !Fits(b, s, |data|) then (WindowFull, b)
    else
      var (v, blocks) := Insert(b.blocks, s, s + |data|);
      match v
      case Full => (TooManyBlocks, b)
      case Malicious => (Invalid, b)
      case _ => (Stored, Commit(b.(blocks := blocks, known := Placed(b.known, s, data))))
  }

  /** The copy loop finds its node only up to the first byte of the one after
      safeTail, so an arrival that would be stored must start no later. */
  predicate Reaches(b: Buffer, s: int, data: seq<byte>) {
    Put(b, s, data).0 == Stored && data != [] ==> s <= SafeBase(b) + NODE_SIZE
  }

  function Pop(b: Buffer, n: nat): Buffer {
    var off := b.off + n;
    b.(base := b.base + NODE_SIZE * (off / NODE_SIZE), off := off % NODE_SIZE,
       known := map p: nat | p in b.known && ReadPos(b) + n <= p :: b.known[p])
  }

  lemma BlankWf(b: Buffer)
    requires Blank(b)
    ensures Wf(b)
  {
  }

  // ----- arrivals -----

  /** A number that stands for a position less than 2^31 before `last` or at most
      2^31 after it is located exactly. */
  lemma LocateExact(last: nat, p: nat)
    requires last - TWO31 < p <= last + TWO31
    ensures Locate(last, Wrap(p)) == p
  {
    WrapSum(p, last);
    if p >= last { WrapUnique(p - last, 0, p - last); }
    else { WrapUnique(p - last, -1, p - last + TWO32); }
  }

  /** And only such a number: what is further away is taken for another position. */
  lemma LocateOnly(last: nat, p: nat)
    ensures Locate(last, Wrap(p)) == p <==> last - TWO31 < p <= last + TWO31
  {
    if last - TWO31 < p <= last + TWO31 { LocateExact(last, p); }
  }

  /** The guards of altusWQPut, computed on 32-bit numbers, decide on positions. */
  lemma LocateGuards(last: nat, seq_: u32, length: nat)
    requires length < TWO31
    ensures After(Wrap(last), seq_) <==> Locate(last, seq_) < last
    ensures Locate(last, seq_) >= 0 ==> Wrap(Locate(last, seq_)) == seq_
    ensures Locate(last, seq_) >= last ==>
      Wrap(seq_ + length - Wrap(last)) == Locate(last, seq_) + length - last
  {
    var ahead := Wrap(seq_ - Wrap(last));
    var q := (seq_ - Wrap(last)) / TWO32;
    if ahead == 0 {
      WrapUnique(Wrap(last) - seq_, -q, 0);
    } else {
      WrapUnique(Wrap(last) - seq_, -q - 1, TWO32 - ahead);
    }
    WrapUnique(last + ahead, last / TWO32 - q, seq_);
    WrapUnique(last + ahead - TWO32, last / TWO32 - q - 1, seq_);
    if ahead <= TWO31 {
      WrapUnique(seq_ + length - Wrap(last), q, ahead + length);
    }
  }

  /** Reordering by more than a node is out of reach: if the tenth packet of 488 bytes
      is the first to arrive, the window accepts it but cannot place it. */
  lemma TenthPacketFirst(b: Buffer, data: seq<byte>)
    requires Blank(b) && |data| == 488
    ensures Put(b, 9 * 488, data).0 == Stored && !Reaches(b, 9 * 488, data)
  {
    SlotUnique(b.blocks, 9 * 488, 0);
  }

  /** What fits ends inside the window, counted from the head node. */
  lemma FitsBound(b: Buffer, s: nat, length: nat)
    requires b.base <= b.last <= s && Fits(b, s, length)
    ensures s + length < b.base + WINDOW_BYTES
  {
  }

  /** The window bound: the nodes up to safeTail, and those a tracked block will add
      when it is committed, never exceed the window size. */
  lemma WindowBound(b: Buffer)
    requires Wf(b)
    ensures SafeLen(b) <= WINDOW_SIZE
    ensures forall i :: 0 <= i < |b.blocks| ==>
      SafeLen(b) + (b.blocks[i].hi - SafeBase(b)) / NODE_SIZE <= WINDOW_SIZE
  {
    forall i | 0 <= i < |b.blocks|
      ensures SafeLen(b) + (b.blocks[i].hi - SafeBase(b)) / NODE_SIZE <= WINDOW_SIZE
    {
      var (m, x) := (SafeLen(b) - 1, b.blocks[i].hi - SafeBase(b));
      assert b.blocks[i].hi - b.base == NODE_SIZE * m + x;
      assert (NODE_SIZE * m + x) / NODE_SIZE == m + x / NODE_SIZE;
    }
  }

  lemma CommitWf(b: Buffer)
    requires b.off < NODE_SIZE && ReadPos(b) <= b.last < b.base + WINDOW_BYTES
    requires |b.blocks| <= MAX_BLOCKS && Separated(b.blocks)
    requires Within(b.blocks, b.last, b.base + WINDOW_BYTES)
    requires forall p: nat :: p in b.known <==> ReadPos(b) <= p < b.last || Covers(b.blocks, p)
    ensures Wf(Commit(b))
    ensures b.last <= Commit(b).last && Commit(b).known == b.known
  {
    var c := Commit(b);
    if c != b {
      assert b.blocks[0].lo == b.last;
      forall p: nat
        ensures p in c.known <==> ReadPos(c) <= p < c.last || Covers(c.blocks, p)
      {
        if k :| 0 <= k < |b.blocks| && Holds(b.blocks[k], p) {
          if k > 0 { assert c.blocks[k - 1] == b.blocks[k]; }
        }
        if k :| 0 <= k < |c.blocks| && Holds(c.blocks[k], p) {
          assert c.blocks[k] == b.blocks[k + 1];
        }
        if b.last <= p < c.last { assert Holds(b.blocks[0], p); }
      }
    }
  }

  /** Every arrival, accepted or not, leaves a well-formed buffer. */
  lemma PutKeepsWf(b: Buffer, s: int, data: seq<byte>)
    requires Wf(b)
    ensures Wf(Put(b, s, data).1)
  {
    var (code, b') := Put(b, s, data);
    if code == Stored {
      PutBeforeCommit(b, s, data);
      CommitWf(b.(blocks := Insert(b.blocks, s, s + |data|).1, known := Placed(b.known, s, data)));
    }
  }

  lemma PutBeforeCommit(b: Buffer, s: nat, data: seq<byte>)
    requires Wf(b) && b.last <= s && Fits(b, s, |data|)
    requires Accepted(Insert(b.blocks, s, s + |data|).0)
    ensures var blocks := Insert(b.blocks, s, s + |data|).1;
      var known := Placed(b.known, s, data);
      && 0 < |blocks| <= MAX_BLOCKS && Separated(blocks)
      && Within(blocks, b.last, b.base + WINDOW_BYTES)
      && (forall p: nat :: p in known <==> ReadPos(b) <= p < b.last || Covers(blocks, p))
  {
    FitsBound(b, s, |data|);
    InsertWithin(b.blocks, s, s + |data|, b.last, b.base + WINDOW_BYTES);
    InsertGrows(b.blocks, s, s + |data|);
    PlacedKnown(b, s, data, Insert(b.blocks, s, s + |data|).1);
  }

  lemma PlacedKnown(b: Buffer, s: nat, data: seq<byte>, blocks: seq<Block>)
    requires Wf(b)
    requires forall p :: Covers(blocks, p) <==> Covers(b.blocks, p) || s <= p < s + |data|
    ensures forall p: nat :: p in Placed(b.known, s, data) <==> ReadPos(b) <= p < b.last || Covers(blocks, p)
  {
  }

  /** A refused arrival changes nothing; an accepted one adds exactly its bytes at
      positions that were missing, and takes nothing back. */
  lemma PutStores(b: Buffer, s: int, data: seq<byte>)
    requires Wf(b)
    ensures var (code, b') := Put(b, s, data);
      && (code != Stored ==> b' == b)
      && (code == Stored ==>
           && s >= b.last && b.last <= b'.last && b'.base == b.base && b'.off == b.off
           && b'.known == Placed(b.known, s, data)
           && (forall p: nat :: s <= p < s + |data| ==> p !in b.known))
  {
    var (code, b') := Put(b, s, data);
    if code == Stored {
      PutBeforeCommit(b, s, data);
      CommitWf(b.(blocks := Insert(b.blocks, s, s + |data|).1, known := Placed(b.known, s, data)));
      InsertVerdict(b.blocks, s, s + |data|);
      NewPositions(b, s, |data|);
    }
  }

  lemma NewPositions(b: Buffer, s: nat, length: nat)
    requires Wf(b) && b.last <= s && !Conflicts(b.blocks, s, s + length)
    ensures forall p: nat :: s <= p < s + length ==> p !in b.known
  {
    forall p: nat | s <= p < s + length
      ensures p !in b.known
    {
      CoveredConflicts(b.blocks, s, s + length, p);
    }
  }

  lemma CoveredConflicts(bs: seq<Block>, s: nat, e: nat, p: nat)
    requires Separated(bs) && s <= p < e
    ensures Covers(bs, p) ==> Conflicts(bs, s, e)
  {
    if k :| 0 <= k < |bs| && Holds(bs[k], p) {
      assert Holds(bs[k], s) || s < bs[k].lo < e;
    }
  }

  /** `last` is the first missing position: nothing is held there, everything held
      before it is contiguous. */
  lemma LastIsFirstGap(b: Buffer)
    requires Wf(b)
    ensures b.last !in b.known
    ensures forall p: nat :: ReadPos(b) <= p < b.last ==> p in b.known
  {
    assert forall k :: 0 <= k < |b.blocks| ==> !Holds(b.blocks[k], b.last);
  }

  /** When each answer is given, without reference to the scan.  A duplicate is old; the
      window is full when the nodes up to `last` and those for the bytes from there to the
      end of the arrival are more than 131072; otherwise the arrival is invalid if it
      meets a tracked block, and one too many if it neither finds a free slot nor a block
      to extend. */
  lemma PutVerdict(b: Buffer, s: int, data: seq<byte>)
    requires Wf(b)
    ensures Put(b, s, data).0 == Duplicate <==> s < b.last
    ensures b.last <= s ==>
      var (code, e) := (Put(b, s, data).0, s + |data|);
      var room := ((b.last - b.base) / 4096 + 1) + ((e - b.last) / 4096 + 1) <= 131072;
      && (code == WindowFull <==> !room)
      && (code == Invalid <==> room && Conflicts(b.blocks, s, e))
      && (code == TooManyBlocks <==>
           room && !Conflicts(b.blocks, s, e) && !Touches(b.blocks, s, e) && |b.blocks| == 8)
      && (code == Stored <==>
           room && !Conflicts(b.blocks, s, e) && (|b.blocks| < 8 || Touches(b.blocks, s, e)))
  {
    hide Insert, Conflicts, Touches;
    if b.last <= s { InsertVerdict(b.blocks, s, s + |data|); }
  }

  /** The arrival everyone waits for.  It moves `last` past itself and past the block it
      then meets.  But it is refused while eight blocks are tracked and it does not close
      the whole gap before the first of them. */
  lemma NextInSequence(b: Buffer, data: seq<byte>)
    requires Wf(b)
    ensures var e := b.last + |data|; var (code, b') := Put(b, b.last, data);
      && (code == Stored <==>
           && Fits(b, b.last, |data|)
           && (|b.blocks| > 0 ==> e <= b.blocks[0].lo)
           && (|b.blocks| < MAX_BLOCKS || b.blocks[0].lo == e))
      && (code == Stored ==>
           b'.last == if |b.blocks| > 0 && b.blocks[0].lo == e then b.blocks[0].hi else e)
  {
    hide Fits, Placed;
    SlotUnique(b.blocks, b.last, 0);
  }

  /** Nothing received but `n` empty blocks, at positions 4392, 4880, ... */
  ghost predicate EmptyTracked(b: Buffer, n: nat) {
    && Wf(b) && b.base == 0 && b.off == 0 && b.last == 0 && |b.blocks| == n
    && forall i :: 0 <= i < n ==> b.blocks[i] == Block(488 * (9 + i), 488 * (9 + i))
  }

  lemma TrackEmpty(b: Buffer, n: nat)
    requires EmptyTracked(b, n) && n < MAX_BLOCKS
    ensures Put(b, 488 * (9 + n), []).0 == Stored && EmptyTracked(Put(b, 488 * (9 + n), []).1, n + 1)
  {
    hide Placed, Wf;
    var s := 488 * (9 + n);
    PutKeepsWf(b, s, []);
    SlotUnique(b.blocks, s, n);
    assert InsertAt(b.blocks, n, Block(s, s)) == b.blocks + [Block(s, s)];
    assert Put(b, s, []).1 == b.(blocks := b.blocks + [Block(s, s)], known := Placed(b.known, s, []));
  }

  /** A window that refuses the packet everyone waits for: packets number 9 to 16, all
      empty, have arrived, and packet 0 does not get in any more. */
  lemma FirstPacketRefused(b: Buffer, data: seq<byte>)
    requires EmptyTracked(b, MAX_BLOCKS) && |data| <= 488
    ensures Put(b, 0, data).0 == TooManyBlocks
  {
    hide Wf, Placed;
    SlotUnique(b.blocks, 0, 0);
  }

  /** An arrival can only lengthen what is ready to be read. */
  lemma PutExtendsContents(b: Buffer, s: int, data: seq<byte>)
    requires Wf(b)
    ensures Wf(Put(b, s, data).1)
    ensures Contents(b) <= Contents(Put(b, s, data).1)
  {
    hide Contents, Wf, Put, Placed;
    PutKeepsWf(b, s, data);
    PutStores(b, s, data);
    var b' := Put(b, s, data).1;
    forall i | 0 <= i < |Contents(b)|
      ensures Contents(b')[i] == Contents(b)[i]
    {
      ContentsAt(b, i);
      ContentsAt(b', i);
    }
  }

  /** In order and with nothing tracked, the window is a plain byte queue: `Put`
      appends exactly its data, or reports that the window is full. */
  lemma PutAppends(b: Buffer, data: seq<byte>)
    requires Wf(b) && b.blocks == []
    ensures Put(b, b.last, data).0 == if Fits(b, b.last, |data|) then Stored else WindowFull
    ensures Wf(Put(b, b.last, data).1) && Put(b, b.last, data).1.blocks == []
    ensures Put(b, b.last, data).0 == Stored ==>
      && Put(b, b.last, data).1.last == b.last + |data|
      && Contents(Put(b, b.last, data).1) == Contents(b) + data
  {
    hide Contents, Wf, Placed;
    PutKeepsWf(b, b.last, data);
    PutStores(b, b.last, data);
    var (code, b') := Put(b, b.last, data);
    SlotUnique(b.blocks, b.last, 0);
    assert InsertAt(b.blocks, 0, Block(b.last, b.last + |data|)) == [Block(b.last, b.last + |data|)];
    if code == Stored {
      ContentsAppended(b, b', data);
    }
  }

  lemma ContentsAppended(b: Buffer, b': Buffer, data: seq<byte>)
    requires Wf(b) && Wf(b') && ReadPos(b') == ReadPos(b) && b'.last == b.last + |data|
    requires b'.known == Placed(b.known, b.last, data)
    ensures Contents(b') == Contents(b) + data
  {
    hide Contents, Wf, Placed;
    forall i | 0 <= i < |Contents(b')|
      ensures Contents(b')[i] == (Contents(b) + data)[i]
    {
      ContentsAt(b', i);
      if i < |Contents(b)| { ContentsAt(b, i); }
    }
  }

  // ----- numbers of a window that has been read -----

  /** The position altusWQPeek goes to for a number: it counts from the head node, as if
      that started at `headSeq`. */
  function PeekPos(b: Buffer, headSeq: u32, seq_: u32): int {
    b.base + Wrap(seq_ - headSeq)
  }

  /** The position from the head node on that the number stands for. */
  function Meant(b: Buffer, seq_: u32): int {
    b.base + Wrap(seq_ - Wrap(b.base))
  }

  lemma MeantExact(b: Buffer, q: nat)
    requires b.base <= q < b.base + TWO32
    ensures Meant(b, Wrap(q)) == q
  {
    WrapSum(q, b.base);
    WrapUnique(q - b.base, 0, q - b.base);
  }

  /** Peek goes to the position that is meant, and the number is that of the position it
      goes to, exactly when the head node does start at `headSeq`. */
  lemma PeekPosExact(b: Buffer, headSeq: u32, seq_: u32)
    ensures PeekPos(b, headSeq, seq_) == Meant(b, seq_) <==> headSeq == Wrap(b.base)
    ensures Wrap(PeekPos(b, headSeq, seq_)) == seq_ <==> headSeq == Wrap(b.base)
  {
    hide Wrap;
    var s: int, base: int := seq_, Wrap(b.base);
    SameDifference(seq_, headSeq, Wrap(b.base));
    SameSum(b.base, s - headSeq, s - base);
    WrapSum(b.base, s - base);
    assert base + (s - base) == s;
    WrapUnique(s, 0, seq_);
  }

  /** Subtraction modulo 2^32 can be cancelled. */
  lemma SameDifference(s: u32, h: u32, k: u32)
    ensures Wrap(s - h) == Wrap(s - k) <==> h == k
  {
    var x: int, y: int := s - h, s - k;
    if Wrap(x) == Wrap(y) {
      assert x - y == TWO32 * (x / TWO32 - y / TWO32);
    }
  }

  lemma SameSum(a: int, x: int, y: int)
    ensures Wrap(a + Wrap(x)) == Wrap(a + x) && Wrap(a + Wrap(y)) == Wrap(a + y)
    ensures Wrap(a + Wrap(x)) == Wrap(a + Wrap(y)) <==> Wrap(x) == Wrap(y)
  {
    WrapSum(x, a);
    WrapSum(y, a);
    if Wrap(a + x) == Wrap(a + y) {
      assert x - y == TWO32 * ((a + x) / TWO32 - (a + y) / TWO32);
      WrapUnique(x, y / TWO32 + ((a + x) / TWO32 - (a + y) / TWO32), Wrap(y));
    }
  }

  /** Reading leaves `headSeq` alone, so it shifts every number by the nodes it retires. */
  lemma PopShifts(b: Buffer, headSeq: u32, n: nat, q: nat)
    requires headSeq == Wrap(b.base) && Pop(b, n).base <= q < b.base + TWO32
    ensures PeekPos(Pop(b, n), headSeq, Wrap(q)) == q + NODE_SIZE * ((b.off + n) / NODE_SIZE)
    ensures PeekPos(Pop(b, n), headSeq, Wrap(q)) == q <==> b.off + n < NODE_SIZE
  {
    WrapSum(q, b.base);
    WrapUnique(q - b.base, 0, q - b.base);
  }

  /** An input: once the first node of a window is read, number 4096 leads to 8192. */
  lemma SecondNodeSkipped(b: Buffer)
    requires b.base == 0 && b.off == 0
    ensures Pop(b, 4096).base == 4096 && PeekPos(Pop(b, 4096), 0, 4096) == 8192
  {
    WrapUnique(0, 0, 0);
    WrapUnique(4096, 0, 4096);
    PopShifts(b, 0, 4096, 4096);
  }

  // ----- reading -----

  lemma PopPositions(b: Buffer, n: nat)
    ensures ReadPos(Pop(b, n)) == ReadPos(b) + n
    ensures Pop(b, n).off < NODE_SIZE && b.base <= Pop(b, n).base
    ensures forall p: nat :: p in Pop(b, n).known <==> p in b.known && ReadPos(b) + n <= p
    ensures forall p: nat :: p in Pop(b, n).known ==> Pop(b, n).known[p] == b.known[p]
  {
  }

  /** Reading hands out the front bytes and leaves the rest. */
  lemma PopDrops(b: Buffer, n: nat)
    requires Wf(b) && n <= |Contents(b)|
    ensures Wf(Pop(b, n)) && Contents(Pop(b, n)) == Contents(b)[n..]
    ensures ReadPos(Pop(b, n)) == ReadPos(b) + n && Pop(b, n).last == b.last
    ensures Pop(b, n).blocks == b.blocks
  {
    var b' := Pop(b, n);
    PopPositions(b, n);
    forall p: nat
      ensures p in b'.known <==> ReadPos(b') <= p < b'.last || Covers(b'.blocks, p)
    {
      if k :| 0 <= k < |b.blocks| && Holds(b.blocks[k], p) {
        assert ReadPos(b') <= b.last < b.blocks[k].lo;
      }
    }
    ContentsTail(b, b', n);
  }

  lemma ContentsTail(b: Buffer, b': Buffer, n: nat)
    requires Wf(b) && Wf(b') && n <= |Contents(b)|
    requires ReadPos(b') == ReadPos(b) + n && b'.last == b.last
    requires forall p: nat :: p in b'.known ==> p in b.known && b'.known[p] == b.known[p]
    ensures Contents(b') == Contents(b)[n..]
  {
    hide Contents, Wf;
    forall i | 0 <= i < |Contents(b')|
      ensures Contents(b')[i] == Contents(b)[n + i]
    {
      ContentsAt(b', i);
      ContentsAt(b, n + i);
    }
  }

  lemma PopNothing(b: Buffer)
    requires Wf(b)
    ensures Pop(b, 0) == b && Contents(b)[0..] == Contents(b)
  {
    forall p: nat | p in b.known
      ensures ReadPos(b) <= p
    {
      if k :| 0 <= k < |b.blocks| && Holds(b.blocks[k], p) {
        assert b.last < b.blocks[k].lo;
      }
    }
    assert Pop(b, 0).known == b.known;
  }

  /** Reading in two steps is reading at once. */
  lemma PopTwice(b: Buffer, m: nat, n: nat)
    requires Wf(b) && m + n <= |Contents(b)|
    ensures Pop(Pop(b, m), n) == Pop(b, m + n)
  {
    hide Contents, Wf;
    TwoSteps(b.off + m, n);
    PopTwiceKnown(b, m, n);
  }

  lemma PopTwiceKnown(b: Buffer, m: nat, n: nat)
    ensures Pop(Pop(b, m), n).known == Pop(b, m + n).known
  {
    hide Pop;
    PopPositions(b, m);
    PopPositions(Pop(b, m), n);
    PopPositions(b, m + n);
  }

  lemma TwoSteps(k: nat, n: nat)
    ensures k / NODE_SIZE + (k % NODE_SIZE + n) / NODE_SIZE == (k + n) / NODE_SIZE
    ensures (k % NODE_SIZE + n) % NODE_SIZE == (k + n) % NODE_SIZE
    ensures NODE_SIZE * (k / NODE_SIZE) + k % NODE_SIZE == k
  {
    assert k + n == NODE_SIZE * (k / NODE_SIZE) + (k % NODE_SIZE + n);
  }
}
