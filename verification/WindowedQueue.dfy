/** The window of windowedqueue.c: a doubly linked chain of 4096-byte nodes,
    recycled through a pool, proved against `StreamBuffer`. */
module WindowedQueue {
  import opened SeqNum
  import opened UnsequencedBlocks
  import opened StreamBuffer
  import opened NodeChains
  import opened WindowSteps

  /** Objects of different classes are different objects. */
  lemma Kinds(c: seq<Node>, d: seq<Node>, w: Window, pool: Pool)
    ensures forall a :: a in Arrays(c) ==> (a as object) !in {w as object, pool as object}
    ensures forall a, n :: a in Arrays(c) && n in Nodes(d) ==> (a as object) != (n as object)
    ensures forall n :: n in Nodes(d) ==> (n as object) !in {w as object, pool as object, w.ub as object,
                                                             w.ub.headSeq as object, w.ub.tailSeq as object}
    ensures (pool as object) !in {w.ub as object, w.ub.headSeq as object, w.ub.tailSeq as object, w as object}
    ensures (w as object) !in {w.ub as object, w.ub.headSeq as object, w.ub.tailSeq as object}
  {
  }

  class Window {
    var head: Node
    var safeTail: Node
    var unsafeTail: Node
    var safeLen: nat
    var unsafeLen: nat
    var headDataOffset: nat
    var headSeq: u32
    const ub: UbList
    var lastSeq: u32
    ghost var chain: seq<Node>
    ghost var buf: Buffer

    /** Pointers and counters agree with the chain. */
    ghost predicate Shape()
      reads this, Nodes(chain)
    {
      && |chain| > 0 && Linked(chain) && Distinct(chain)
      && head == chain[0] && unsafeTail == chain[|chain| - 1]
      && 1 <= safeLen <= |chain| && safeTail == chain[safeLen - 1]
      && unsafeLen == |chain| - safeLen
    }

    /** No node after safeTail. */
    ghost predicate Tight()
      reads this`safeLen, this`chain
    {
      safeLen == |chain|
    }

    /** Every node before safeTail is full, safeTail is not, and the counts add up
        to the contiguous end `last`. */
    ghost predicate Counts(last: int)
      reads this, Nodes(chain)
      requires Shape()
    {
      && (forall i :: 0 <= i < safeLen - 1 ==> chain[i].validBlockCount == NODE_SIZE)
      && safeTail.validBlockCount < NODE_SIZE
      && last == buf.base + NODE_SIZE * (safeLen - 1) + safeTail.validBlockCount
      && lastSeq == Wrap(last)
    }

    /** Every known byte sits at its place in the chain. */
    ghost predicate Stores(b: Buffer)
      reads this`chain, Arrays(chain)
      requires Distinct(chain)
    {
      StoredIn(chain, b)
    }

    /** The node that will be safeTail once a block is committed already exists. */
    ghost predicate Reserved(blocks: seq<Block>)
      reads this`chain, this`buf
    {
      forall i :: 0 <= i < |blocks| && blocks[i].lo < blocks[i].hi ==>
        blocks[i].hi < buf.base + NODE_SIZE * |chain|
    }

    ghost predicate Valid()
      reads this, Nodes(chain), Arrays(chain), ub, ub.headSeq, ub.tailSeq
    {
      && Shape() && Counts(buf.last) && Stores(buf) && Reserved(buf.blocks)
      && headDataOffset == buf.off && Wf(buf)
      && ub.Valid() && ub.blocks == buf.blocks
    }

    /** altusNewWindow followed by the two assignments of LinkRDTWindow: the first
        byte is numbered 0 on the wire. */
    constructor (ghost origin: nat)
      requires Wrap(origin) == 0
      ensures Valid() && buf == Start(origin) && headSeq == 0
      ensures |chain| == 1 && fresh(chain[0]) && fresh(chain[0].data)
      ensures fresh(ub) && fresh(ub.headSeq) && fresh(ub.tailSeq)
    {
      var n := new Node();
      n.validBlockCount := 0;
      head, safeTail, unsafeTail := n, n, n;
      safeLen, unsafeLen, headDataOffset := 1, 0, 0;
      ub := new UbList();
      lastSeq, headSeq := 0, 0;
      chain := [n];
      buf := Start(origin);
    }

    /** The window half of altusWQNewNode: link `n` after unsafeTail. */
    method Append(n: Node)
      requires Shape() && Distinct(chain + [n])
      modifies this`unsafeTail, this`unsafeLen, this`chain, n`toHead, n`toTail, unsafeTail`toTail
      ensures Shape() && chain == old(chain) + [n]
    {
      assert (chain + [n])[|chain|] == n && (chain + [n])[|chain| - 1] == unsafeTail;
      n.toTail := null;
      n.toHead := unsafeTail;
      unsafeTail.toTail := n;
      unsafeTail := n;
      unsafeLen := unsafeLen + 1;
      chain := chain + [n];
    }

    /** altusWQNewNode: take a node from the pool, or allocate one, and append it. */
    method NewNode(pool: Pool)
      requires Shape() && pool.Valid() && Apart(chain, pool.chain)
      modifies this`unsafeTail, this`unsafeLen, this`chain, pool
      modifies unsafeTail`toTail, Nodes(pool.chain)`toHead, Nodes(pool.chain)`toTail
      ensures Shape() && pool.Valid() && Apart(chain, pool.chain)
      ensures chain == old(chain) + [unsafeTail]
      ensures old(|pool.chain|) == 1 ==>
        fresh(unsafeTail) && fresh(unsafeTail.data) && pool.chain == old(pool.chain)
      ensures old(|pool.chain|) > 1 ==>
        unsafeTail == old(pool.chain)[0] && pool.chain == old(pool.chain)[1..]
    {
      hide Linked, Distinct;
      ApartFront(chain, pool.chain);
      ApartNodes(chain, pool.chain);
      var n := pool.Take();
      ApartPush(chain, n, pool.chain);
      ApartNodes(chain + [n], pool.chain);
      Append(n);
    }

    /** The window half of altusWQPopNode: unlink the head node. */
    method DropHead() returns (n: Node)
      requires Shape() && safeLen > 1
      modifies this`head, this`safeLen, this`chain, Nodes(chain)`toHead
      ensures Shape() && n == old(chain)[0] && chain == old(chain)[1..]
      ensures safeLen == old(safeLen) - 1 && Apart([n], chain) && n.data.Length == NODE_SIZE
    {
      n := head;
      head := head.toTail;
      head.toHead := null;
      safeLen := safeLen - 1;
      chain := chain[1..];
    }

    /** altusWQPopNode: move the head node to the pool, unless it is safeTail. */
    method PopNode(pool: Pool) returns (popped: bool)
      requires Shape() && pool.Valid() && Apart(chain, pool.chain)
      modifies this`head, this`safeLen, this`chain, pool
      modifies Nodes(chain)`toHead, Nodes(chain)`toTail, Nodes(pool.chain)`toTail
      ensures Shape() && pool.Valid() && Apart(chain, pool.chain)
      ensures popped <==> old(safeLen) > 1
      ensures !popped ==>
        unchanged(this) && unchanged(pool) && unchanged(Nodes(chain)) && unchanged(Nodes(pool.chain))
      ensures popped ==>
        && chain == old(chain)[1..] && pool.chain == old(pool.chain) + [old(chain)[0]]
        && safeLen == old(safeLen) - 1
    {
      hide Linked, Distinct, Apart;
      SafeAlone();
      if head == safeTail {
        safeLen := 1;
        return false;
      }
      ApartFront(chain, pool.chain);
      ApartNodes(chain, pool.chain);
      var n := DropHead();
      ApartMove(chain, n, pool.chain);
      ApartNodes(chain, pool.chain + [n]);
      ApartNodes([n], pool.chain);
      pool.Recycle(n);
      return true;
    }

    /** The nodes of the chain past those that were there and those the pool gave are
        newly allocated. */
    twostate predicate FreshBeyond(pool: Pool)
      reads this`chain, pool`chain
    {
      forall i :: 0 <= i < |chain| && |old(chain)| + |old(pool.chain)| <= i + |pool.chain| ==>
        fresh(chain[i]) && fresh(chain[i].data)
    }

    /** The bytes known to `b` all lie in nodes of the chain. */
    ghost predicate Housed(b: Buffer)
      reads this`chain
    {
      forall p: nat :: p in b.known ==> b.base <= p < b.base + NODE_SIZE * |chain|
    }

    /** Window and pool are sound chains without a common node, and the window
        stores the bytes of `b`. */
    ghost predicate Ready(pool: Pool, b: Buffer)
      reads this, Nodes(chain), Arrays(chain), pool, Nodes(pool.chain)
    {
      && Shape() && pool.Valid() && Apart(chain, pool.chain)
      && Stores(b) && Housed(b)
    }

    /** A new node at the end disturbs no stored byte. */
    method Extend(pool: Pool, ghost b: Buffer)
      requires Ready(pool, b)
      modifies this`unsafeTail, this`unsafeLen, this`chain, pool
      modifies unsafeTail`toTail, Nodes(pool.chain)`toHead, Nodes(pool.chain)`toTail
      ensures Ready(pool, b) && |chain| == old(|chain|) + 1
      ensures Moved(old(chain), old(pool.chain), chain, pool.chain)
      ensures FreshBeyond(pool)
    {
      NewNode(pool);
    }

    /** One memcpy of altusWQPut, into node number `c`. */
    method WriteChunk(n: Node, off: nat, chunk: seq<byte>, ghost c: nat, ghost b: Buffer, ghost b': Buffer)
      requires Distinct(chain) && c < |chain| && n == chain[c] && off + |chunk| <= NODE_SIZE
      requires Stores(b) && b'.base == b.base
      requires Overlaid(b.known, b.base + NODE_SIZE * c + off, chunk, b'.known)
      modifies n.data
      ensures Stores(b')
    {
      CopyIn(n.data, off, chunk);
    }

    /** The buffer once the first `n` bytes of `data` are written from position `s`. */
    ghost function Partial(s: nat, data: seq<byte>, n: nat): Buffer
      reads this
      requires n <= |data|
    {
      buf.(known := Placed(buf.known, s, data[..n]))
    }

    lemma PartialMore(s: nat, data: seq<byte>, m: nat, n: nat)
      requires m + n <= |data|
      ensures Overlaid(Partial(s, data, m).known, s + m, data[m..m + n], Partial(s, data, m + n).known)
      ensures Housed(Partial(s, data, m)) && buf.base <= s && s + m + n <= buf.base + NODE_SIZE * |chain|
         ==> Housed(Partial(s, data, m + n))
    {
      PlacedMore(buf.known, s, data, m, n);
    }

    /** Where the copy loop stands: the next byte is position `q`, and the current
        node, number `c` of the chain, starts at position `at`. */
    ghost predicate Cursor(node: Node, nodeSeq: u32, leftSeq: u32, c: int, at: int, q: int)
      reads this
    {
      && 0 <= c < |chain| && node == chain[c] && at == buf.base + NODE_SIZE * c
      && nodeSeq == Wrap(at) && leftSeq == Wrap(q) && at <= q <= at + NODE_SIZE
    }

    /** Go on to the next node, after appending one if `grow` says so. */
    method NextNode(pool: Pool, grow: bool, node: Node, nodeSeq: u32, leftSeq: u32,
                    ghost c: int, ghost at: int, ghost q: int, ghost b: Buffer)
      returns (node': Node, nodeSeq': u32)
      requires Ready(pool, b) && Cursor(node, nodeSeq, leftSeq, c, at, q)
      requires (c + 1 < |chain| || grow) && q == at + NODE_SIZE
      modifies this`unsafeTail, this`unsafeLen, this`chain, pool
      modifies unsafeTail`toTail, Nodes(pool.chain)`toHead, Nodes(pool.chain)`toTail
      ensures Ready(pool, b)
      ensures |chain| == old(|chain|) + if grow then 1 else 0
      ensures Cursor(node', nodeSeq', leftSeq, c + 1, at + NODE_SIZE, q)
      ensures Moved(old(chain), old(pool.chain), chain, pool.chain)
      ensures FreshBeyond(pool)
    {
      if grow {
        Extend(pool, b);
      }
      node' := node.toTail;
      nodeSeq' := Wrap(nodeSeq + NODE_SIZE);
      WrapSum(at, NODE_SIZE);
    }

    /** The memcpy of one round, at the offset the code computes. */
    method WriteStep(pool: Pool, node: Node, nodeSeq: u32, leftSeq: u32, chunk: seq<byte>,
                     ghost c: int, ghost at: int, ghost q: int, ghost b: Buffer, ghost b': Buffer)
      returns (leftSeq': u32)
      requires Ready(pool, b) && Cursor(node, nodeSeq, leftSeq, c, at, q) && Housed(b')
      requires b.base == b'.base == buf.base && q + |chunk| <= at + NODE_SIZE
      requires Overlaid(b.known, q, chunk, b'.known)
      modifies node.data
      ensures Ready(pool, b') && Cursor(node, nodeSeq, leftSeq', c, at, q + |chunk|)
    {
      NodeRoom(at, q);
      var writeoffset := Wrap(leftSeq - nodeSeq) % 0x1_0000;
      WriteChunk(node, writeoffset, chunk, c, b, b');
      WrapSum(q, |chunk|);
      leftSeq' := Wrap(leftSeq + |chunk|);
    }

    /** A round of the copy loop that writes. */
    method WriteRound(pool: Pool, data: seq<byte>, node: Node, nodeSeq: u32, leftSeq: u32, done: nat, writelen: nat,
                      ghost s: nat, ghost c: int, ghost at: int)
      returns (node': Node, nodeSeq': u32, leftSeq': u32, ghost c': int, ghost at': int)
      requires 0 < writelen && done + writelen <= |data| && buf.base <= s && Ready(pool, Partial(s, data, done))
      requires Cursor(node, nodeSeq, leftSeq, c, at, s + done) && s + done + writelen <= at + NODE_SIZE
      requires done + writelen < |data| ==> s + done + writelen == at + NODE_SIZE
      modifies this`unsafeTail, this`unsafeLen, this`chain, pool, node.data
      modifies unsafeTail`toTail, Nodes(pool.chain)`toHead, Nodes(pool.chain)`toTail
      ensures Ready(pool, Partial(s, data, done + writelen))
      ensures Cursor(node', nodeSeq', leftSeq', c', at', s + done + writelen)
      ensures |chain| - c' == old(|chain|) - c
      ensures done + writelen == |data| ==> s + |data| < at' + NODE_SIZE
      ensures Moved(old(chain), old(pool.chain), chain, pool.chain)
      ensures FreshBeyond(pool)
    {
      hide Linked, Distinct, Apart, Stores, Housed, Overlaid, Placed, Moved;
      MovedNone(chain, pool.chain);
      ghost var b, b' := Partial(s, data, done), Partial(s, data, done + writelen);
      PartialMore(s, data, done, writelen);
      leftSeq' := WriteStep(pool, node, nodeSeq, leftSeq, data[done..done + writelen], c, at, s + done, b, b');
      node', nodeSeq', c', at' := node, nodeSeq, c, at;
      NodeRoom(at, s + done + writelen);
      if done + writelen != |data| || leftSeq' == Wrap(nodeSeq + NODE_SIZE) {
        node', nodeSeq' := NextNode(pool, true, node, nodeSeq, leftSeq', c, at, s + done + writelen, b');
        c', at' := c + 1, at + NODE_SIZE;
      }
    }

    /** One round of the copy loop: skip a node that is full up to the write
        position, or write into the current one. */
    method Round(pool: Pool, data: seq<byte>, node: Node, nodeSeq: u32, leftSeq: u32, leftLen: nat,
                 ghost s: nat, ghost c: int, ghost at: int)
      returns (node': Node, nodeSeq': u32, leftSeq': u32, leftLen': nat, ghost c': int, ghost at': int)
      requires 0 < leftLen <= |data| && buf.base <= s && Ready(pool, Partial(s, data, |data| - leftLen))
      requires Cursor(node, nodeSeq, leftSeq, c, at, s + (|data| - leftLen))
      modifies this`unsafeTail, this`unsafeLen, this`chain, pool, node.data
      modifies unsafeTail`toTail, Nodes(pool.chain)`toHead, Nodes(pool.chain)`toTail
      ensures leftLen' <= leftLen && Ready(pool, Partial(s, data, |data| - leftLen'))
      ensures Cursor(node', nodeSeq', leftSeq', c', at', s + (|data| - leftLen'))
      ensures c == old(|chain|) - 1 ==> c' == |chain| - 1
      ensures leftLen' == 0 ==> s + |data| < at' + NODE_SIZE
      ensures leftLen' == leftLen ==> s + (|data| - leftLen) == at + NODE_SIZE == at'
      ensures Moved(old(chain), old(pool.chain), chain, pool.chain)
      ensures FreshBeyond(pool)
    {
      hide Linked, Distinct, Apart, Stores, Housed, Placed, Moved, Nodes, Arrays, Wrap;
      var done := |data| - leftLen;
      NodeRoom(at, s + done);
      var writelen := Wrap(nodeSeq + NODE_SIZE - leftSeq);
      if writelen == 0 {
        LastNode(c);
        node', nodeSeq' := NextNode(pool, node == unsafeTail, node, nodeSeq, leftSeq, c, at, s + done,
                                    Partial(s, data, done));
        leftSeq', leftLen', c', at' := leftSeq, leftLen, c + 1, at + NODE_SIZE;
      } else {
        if leftLen < writelen {
          writelen := leftLen;
        }
        node', nodeSeq', leftSeq', c', at' :=
          WriteRound(pool, data, node, nodeSeq, leftSeq, done, writelen, s, c, at);
        leftLen' := leftLen - writelen;
      }
    }

    lemma PoolHasNode(pool: Pool)
      requires pool.Valid()
      ensures |pool.chain| > 0
    {
    }

    lemma PoolUsed(pool: Pool, b: Buffer)
      requires Ready(pool, b)
      ensures |pool.chain| > 0 && |chain| > 0 && unsafeTail == chain[|chain| - 1] && Shape()
    {
    }

    lemma StartCursor(seq_: u32, s: nat)
      requires Shape() && Counts(buf.last) && seq_ == Wrap(s)
      requires buf.last <= s <= buf.base + NODE_SIZE * safeLen
      ensures Cursor(safeTail, Wrap(lastSeq - safeTail.validBlockCount), seq_, safeLen - 1,
                     buf.last - safeTail.validBlockCount, s)
    {
      var v: int := safeTail.validBlockCount;
      WrapSum(buf.last, -v);
    }

    lemma Basics()
      requires Valid()
      ensures Wf(buf) && lastSeq == Wrap(buf.last)
    {
    }

    lemma SafeAlone()
      requires Shape()
      ensures head == safeTail <==> safeLen == 1
    {
    }

    lemma LastNode(c: nat)
      requires Shape() && c < |chain|
      ensures chain[c] == unsafeTail <==> c == |chain| - 1
    {
    }

    /** The copy loop of altusWQPut.  `s` is the position `seq_` stands for; it may
        lie in safeTail or be the first byte of the node after it. */
    method CopyLoop(pool: Pool, seq_: u32, data: seq<byte>, ghost s: nat)
      requires Ready(pool, buf) && Counts(buf.last) && seq_ == Wrap(s) && |data| > 0
      requires buf.last <= s <= buf.base + NODE_SIZE * safeLen
      modifies this`unsafeTail, this`unsafeLen, this`chain, pool
      modifies Nodes(chain)`toTail, Nodes(pool.chain)`toHead, Nodes(pool.chain)`toTail
      modifies Arrays(chain), Arrays(pool.chain)
      ensures Ready(pool, Partial(s, data, |data|))
      ensures old(Tight()) ==> buf.base + NODE_SIZE * (|chain| - 1) <= s + |data|
      ensures s + |data| < buf.base + NODE_SIZE * |chain|
      ensures Moved(old(chain), old(pool.chain), chain, pool.chain)
      ensures FreshBeyond(pool)
    {
      hide Ready, Shape, Placed, Moved, Nodes, Arrays, Counts, Wrap;
      PoolUsed(pool, buf);
      MovedNone(chain, pool.chain);
      PlacedNone(buf.known, s, data);
      StartCursor(seq_, s);
      var node: Node := safeTail;
      var nodeSeq: u32 := Wrap(lastSeq - node.validBlockCount);
      var leftSeq: u32 := seq_;
      var leftLen: nat := |data|;
      ghost var c, at := safeLen - 1, buf.last - safeTail.validBlockCount;
      while leftLen != 0
        invariant leftLen <= |data| && Ready(pool, Partial(s, data, |data| - leftLen))
        invariant Cursor(node, nodeSeq, leftSeq, c, at, s + (|data| - leftLen))
        invariant old(Tight()) ==> c == |chain| - 1
        invariant leftLen == 0 ==> s + |data| < at + NODE_SIZE
        invariant Moved(old(chain), old(pool.chain), chain, pool.chain)
        invariant FreshBeyond(pool)
        decreases leftLen, at + NODE_SIZE == s + (|data| - leftLen)
      {
        ghost var c1, d1 := chain, pool.chain;
        PoolUsed(pool, Partial(s, data, |data| - leftLen));
        MovedOrigin(old(chain), old(pool.chain), c1, d1, c);
        MovedOrigin(old(chain), old(pool.chain), c1, d1, |c1| - 1);
        node, nodeSeq, leftSeq, leftLen, c, at := Round(pool, data, node, nodeSeq, leftSeq, leftLen, s, c, at);
        MovedTwice(old(chain), old(pool.chain), c1, d1, chain, pool.chain);
        forall i | 0 <= i < |chain| && |old(chain)| + |old(pool.chain)| <= i + |pool.chain|
          ensures fresh(chain[i]) && fresh(chain[i].data)
        {
          MovedBetween(old(chain), old(pool.chain), c1, d1, chain, pool.chain, i);
        }
      }
    }

    /** The copy loop, seen from outside; with nothing to copy it does not run. */
    method Place(pool: Pool, seq_: u32, data: seq<byte>, ghost s: nat, ghost b: Buffer)
      requires Ready(pool, buf) && Counts(buf.last) && seq_ == Wrap(s) && buf.last <= s
      requires data == [] || s <= buf.base + NODE_SIZE * safeLen
      requires b.base == buf.base && b.known == Placed(buf.known, s, data)
      modifies this`unsafeTail, this`unsafeLen, this`chain, pool
      modifies Nodes(chain)`toTail, Nodes(pool.chain)`toHead, Nodes(pool.chain)`toTail
      modifies Arrays(chain), Arrays(pool.chain)
      ensures Ready(pool, b) && Counts(buf.last)
      ensures |data| > 0 ==> s + |data| < buf.base + NODE_SIZE * |chain|
      ensures old(Tight()) ==> buf.base + NODE_SIZE * (|chain| - 1) <= s + |data|
      ensures |old(chain)| <= |chain|
      ensures forall n :: n in Nodes(chain) ==> n in old(Nodes(chain)) + old(Nodes(pool.chain)) || fresh(n)
      ensures Moved(old(chain), old(pool.chain), chain, pool.chain)
      ensures FreshBeyond(pool)
    {
      hide Linked, Distinct, Apart, Stores, Housed, Placed, Moved, Nodes, Arrays, Wrap;
      assert data[..|data|] == data;
      if |data| == 0 {
        PlacedNone(buf.known, s, data);
        MovedNone(chain, pool.chain);
      } else {
        CopyLoop(pool, seq_, data, s);
        MovedPrefix(old(chain), old(pool.chain), chain, pool.chain);
      }
      StoresSame(Partial(s, data, |data|), b);
      MovedNodes(old(chain), old(pool.chain), chain, pool.chain);
    }

    /** One step of the commit loop past a node that fills up. */
    method PassNode(ghost last: int)
      requires Shape() && Counts(last) && safeLen < |chain|
      modifies this`safeTail, this`safeLen, this`unsafeLen, Nodes(chain)`validBlockCount
      ensures Shape() && safeLen == old(safeLen) + 1 && safeTail.validBlockCount == 0
      ensures forall i :: 0 <= i < safeLen - 1 ==> chain[i].validBlockCount == NODE_SIZE
    {
      safeTail.validBlockCount := NODE_SIZE;
      safeLen := safeLen + 1;
      unsafeLen := unsafeLen - 1;
      safeTail := safeTail.toTail;
      safeTail.validBlockCount := 0;
    }

    /** The last step: safeTail is not full. */
    method Settle(count: u32, ghost last: int)
      requires Shape() && Counts(last)
      modifies Nodes(chain)`validBlockCount
      ensures Shape() && safeTail.validBlockCount == count
      ensures forall i :: 0 <= i < safeLen - 1 ==> chain[i].validBlockCount == NODE_SIZE
    {
      safeTail.validBlockCount := count;
    }

    /** The commit loop of altusWQPut: every byte before position `t` has arrived, so
        safeTail moves over the nodes that are now full. */
    method CommitUpTo(newSeq: u32, ghost t: nat)
      requires Shape() && Counts(buf.last) && newSeq == Wrap(t)
      requires buf.last <= t < buf.base + NODE_SIZE * |chain| && t < buf.base + WINDOW_BYTES
      modifies this`safeTail, this`safeLen, this`unsafeLen, this`lastSeq, Nodes(chain)`validBlockCount
      ensures Shape() && Counts(t)
      ensures safeLen == (t - buf.base) / NODE_SIZE + 1
    {
      hide Linked, Distinct, Nodes, Wrap;
      ghost var last := buf.last;
      while true
        invariant Shape() && Counts(last) && last <= t
        decreases |chain| - safeLen
      {
        ghost var at := last - safeTail.validBlockCount;
        var safeNodeSeq := Wrap(lastSeq - safeTail.validBlockCount);
        SafeDiff(last, safeTail.validBlockCount, t);
        var seqDiff := AsInt32(Wrap(newSeq - safeNodeSeq));
        if seqDiff > NODE_SIZE {
          PassNode(last);
          lastSeq := Wrap(safeNodeSeq + NODE_SIZE);
          WrapSum(at, NODE_SIZE);
          last := at + NODE_SIZE;
        } else if seqDiff == NODE_SIZE {
          PassNode(last);
          break;
        } else {
          Settle(seqDiff, last);
          lastSeq := newSeq;
          break;
        }
      }
      lastSeq := newSeq;
    }

    lemma HousedByWf()
      requires Shape() && Counts(buf.last) && Reserved(buf.blocks) && Wf(buf)
      ensures Housed(buf) && Separated(buf.blocks)
    {
      forall p: nat | p in buf.known
        ensures buf.base <= p < buf.base + NODE_SIZE * |chain|
      {
        if k :| 0 <= k < |buf.blocks| && Holds(buf.blocks[k], p) {
          assert buf.blocks[k].hi < buf.base + NODE_SIZE * |chain|;
        }
      }
    }

    /** Room for the ends of the old blocks and of the new one is room for the ends of
        the list that results. */
    lemma ReservedAfter(blocks: seq<Block>, s: nat, e: nat)
      requires Separated(blocks) && s <= e && Reserved(blocks)
      requires s < e ==> e < buf.base + NODE_SIZE * |chain|
      ensures Reserved(Insert(blocks, s, e).1)
    {
      var r := Insert(blocks, s, e).1;
      forall k | 0 <= k < |r| && r[k].lo < r[k].hi
        ensures r[k].hi < buf.base + NODE_SIZE * |chain|
      {
        InsertEnds(blocks, s, e, k);
      }
    }

    /** The commit step: if the first tracked block starts at the contiguous end, that
        end moves to where the block ends. */
    method CommitFirst(ghost b: Buffer)
      requires Shape() && Counts(b.last) && b.base == buf.base && buf.last == b.last
      requires ub.Valid() && ub.blocks == b.blocks && |b.blocks| > 0 && Reserved(b.blocks)
      requires Within(b.blocks, b.last, b.base + WINDOW_BYTES)
      modifies this`safeTail, this`safeLen, this`unsafeLen, this`lastSeq, Nodes(chain)`validBlockCount
      modifies ub, ub.headSeq, ub.tailSeq
      ensures Shape() && Counts(Commit(b).last)
      ensures ub.Valid() && ub.blocks == Commit(b).blocks && Reserved(Commit(b).blocks)
    {
      ghost var first := b.blocks[0];
      AfterIsOrder(first.lo, b.last);
      if ub.headSeq[0] == lastSeq {
        CommitUpTo(ub.tailSeq[0], first.hi);
        ub.Pop();
      }
    }

    /** Commit and record the result. */
    method Finish(pool: Pool, ghost b: Buffer)
      requires Ready(pool, b) && Counts(b.last) && b.base == buf.base && buf.last == b.last
      requires headDataOffset == b.off && Wf(Commit(b))
      requires ub.Valid() && ub.blocks == b.blocks && |b.blocks| > 0 && Reserved(b.blocks)
      requires Within(b.blocks, b.last, b.base + WINDOW_BYTES)
      modifies this`safeTail, this`safeLen, this`unsafeLen, this`lastSeq, this`buf
      modifies Nodes(chain)`validBlockCount, ub, ub.headSeq, ub.tailSeq
      ensures Valid() && pool.Valid() && buf == Commit(b) && buf.base == b.base
    {
      hide Linked, Distinct, Apart, Wrap, Wf, Stores, Within, UbList.Valid;
      ApartNodes(chain, pool.chain);
      ListApart(pool.chain);
      CommitFirst(b);
      buf := Commit(b);
      StoresSame(b, Commit(b));
    }

    /** The block list shares no memory with nodes and their buffers. */
    lemma ListApart(d: seq<Node>)
      ensures forall a :: a in Arrays(chain) ==> (a as object) !in {ub.headSeq as object, ub.tailSeq as object}
      ensures forall n :: n in Nodes(d) ==>
        (n as object) !in {ub as object, ub.headSeq as object, ub.tailSeq as object, this as object}
    {
    }

    lemma StoresSame(b: Buffer, b': Buffer)
      requires Distinct(chain) && Stores(b) && b'.base == b.base && b'.known == b.known
      ensures Stores(b') && (Housed(b) ==> Housed(b'))
    {
    }

    /** Write the block and reserve the node its end lies in. */
    method Stage(pool: Pool, seq_: u32, data: seq<byte>, ghost s: nat, ghost b: Buffer)
      requires Shape() && Counts(buf.last) && Stores(buf) && Reserved(buf.blocks) && Wf(buf)
      requires pool.Valid() && Apart(chain, pool.chain) && seq_ == Wrap(s) && buf.last <= s
      requires data == [] || s <= buf.base + NODE_SIZE * safeLen
      requires b == buf.(blocks := Insert(buf.blocks, s, s + |data|).1, known := Placed(buf.known, s, data))
      modifies this`unsafeTail, this`unsafeLen, this`chain, pool
      modifies Nodes(chain)`toTail, Nodes(pool.chain)`toHead, Nodes(pool.chain)`toTail
      modifies Arrays(chain), Arrays(pool.chain)
      ensures Ready(pool, b) && Counts(buf.last) && Reserved(b.blocks) && |old(chain)| <= |chain|
      ensures old(Tight()) ==> buf.base + NODE_SIZE * (|chain| - 1) <= s + |data|
      ensures forall n :: n in Nodes(chain) ==> n in old(Nodes(chain)) + old(Nodes(pool.chain)) || fresh(n)
      ensures Moved(old(chain), old(pool.chain), chain, pool.chain)
      ensures FreshBeyond(pool)
    {
      hide Shape, Pool.Valid, Apart, Counts, Insert, Placed, Wrap, Stores, Housed, Wf, Separated, Moved;
      HousedByWf();
      Place(pool, seq_, data, s, b);
      ReservedAfter(buf.blocks, s, s + |data|);
    }

    /** The second half of altusWQPut, once the list has accepted the block. */
    method Store(pool: Pool, seq_: u32, data: seq<byte>, ghost s: nat)
      requires Shape() && Counts(buf.last) && Stores(buf) && Reserved(buf.blocks)
      requires headDataOffset == buf.off && Wf(buf) && pool.Valid() && Apart(chain, pool.chain)
      requires seq_ == Wrap(s) && StreamBuffer.Put(buf, s, data).0 == Stored
      requires ub.Valid() && ub.blocks == Insert(buf.blocks, s, s + |data|).1
      requires data == [] || s <= buf.base + NODE_SIZE * safeLen
      modifies this, ub, ub.headSeq, ub.tailSeq, pool, Nodes(chain), Nodes(pool.chain)
      modifies Arrays(chain), Arrays(pool.chain)
      ensures Valid() && pool.Valid() && Apart(chain, pool.chain) && headSeq == old(headSeq)
      ensures buf == StreamBuffer.Put(old(buf), s, data).1
      ensures old(Tight()) && buf.last >= s + |data| ==> Tight()
      ensures Moved(old(chain), old(pool.chain), chain, pool.chain)
      ensures FreshBeyond(pool)
    {
      hide Shape, Pool.Valid, Apart, Counts, Reserved, UbList.Valid, Insert, Placed, Stores, Wf, Within;
      hide Separated, Moved, StreamBuffer.Put, Commit;
      ghost var b := buf.(blocks := ub.blocks, known := Placed(buf.known, s, data));
      StoredIs(buf, s, data);
      Stage(pool, seq_, data, s, b);
      Finish(pool, b);
      TightAt(s + |data|);
    }

    /** altusWQPut.  `s` is the stream position that the 32-bit number `seq_` stands for. */
    method Put(pool: Pool, seq_: u32, data: seq<byte>) returns (code: PutCode)
      requires Valid() && pool.Valid() && Apart(chain, pool.chain) && |data| < TWO31
      requires Reaches(buf, Locate(buf.last, seq_), data)
      modifies this, ub, ub.headSeq, ub.tailSeq, pool, Nodes(chain), Nodes(pool.chain)
      modifies Arrays(chain), Arrays(pool.chain)
      ensures Valid() && pool.Valid() && Apart(chain, pool.chain) && headSeq == old(headSeq)
      ensures (code, buf) == StreamBuffer.Put(old(buf), Locate(old(buf.last), seq_), data)
      ensures old(Tight()) && buf.last >= Locate(old(buf.last), seq_) + |data| ==> Tight()
      ensures code != Stored ==>
        && unchanged(this) && unchanged(ub) && unchanged(ub.headSeq) && unchanged(ub.tailSeq) && unchanged(pool)
        && unchanged(Nodes(chain)) && unchanged(Nodes(pool.chain))
        && unchanged(Arrays(chain)) && unchanged(Arrays(pool.chain))
      ensures Moved(old(chain), old(pool.chain), chain, pool.chain)
      ensures FreshBeyond(pool)
    {
      hide Shape, Pool.Valid, Apart, Reserved, Insert, Stores, Wf, Within, Moved, Wrap;
      ghost var s := Locate(buf.last, seq_);
      LocateGuards(buf.last, seq_, |data|);
      PoolHasNode(pool);
      MovedNone(chain, pool.chain);
      SafeLenIs();
      if After(lastSeq, seq_) {
        return Duplicate;
      }
      var requiredNewNodeCount := Wrap(seq_ + |data| - lastSeq) / NODE_SIZE + 1;
      if safeLen + requiredNewNodeCount > WINDOW_SIZE {
        return WindowFull;
      }
      CheckRange(buf, s, |data|);
      var v := ub.Check(seq_, |data|, s, buf.last);
      match v {
        case Full => return TooManyBlocks;
        case Malicious => return Invalid;
        case Extended =>
        case Added =>
      }
      Store(pool, seq_, data, s);
      return Stored;
    }

    /** If the chain ends with the node of position `e` and everything before `e` is
        contiguous, safeTail is the last node. */
    lemma TightAt(e: nat)
      requires Shape() && Counts(buf.last)
      ensures buf.base + NODE_SIZE * (|chain| - 1) <= e <= buf.last ==> Tight()
    {
    }

    lemma SafeLenIs()
      requires Shape() && Counts(buf.last)
      ensures safeLen == SafeLen(buf)
    {
    }

    // ----- reading -----

    lemma HeadCount()
      requires Valid()
      ensures 0 <= head.validBlockCount - headDataOffset <= |Contents(buf)|
      ensures head.validBlockCount == headDataOffset <==> |Contents(buf)| == 0
      ensures Wf(buf)
    {
    }

    /** What the head node offers: some bytes exactly when the buffer has any, and
        they are the next ones. */
    lemma HeadOffers()
      requires Valid()
      ensures 0 <= head.validBlockCount - headDataOffset <= |Contents(buf)|
      ensures head.validBlockCount == headDataOffset <==> |Contents(buf)| == 0
      ensures head.validBlockCount < NODE_SIZE ==> head.validBlockCount - headDataOffset == |Contents(buf)|
      ensures head.data.Length == NODE_SIZE && head.validBlockCount <= NODE_SIZE
      ensures head.validBlockCount == NODE_SIZE <==> safeLen > 1
      ensures forall j :: 0 <= j < head.validBlockCount - headDataOffset ==>
        head.data[headDataOffset + j] == Contents(buf)[j]
    {
      forall j | 0 <= j < head.validBlockCount - headDataOffset
        ensures head.data[headDataOffset + j] == Contents(buf)[j]
      {
        assert buf.base + NODE_SIZE * 0 + (headDataOffset + j) in buf.known;
        assert chain[0].data[headDataOffset + j] == buf.known[buf.base + NODE_SIZE * 0 + (headDataOffset + j)];
      }
    }

    /** What is left once the head node has been read to its end. */
    lemma Retired(w: nat)
      requires Valid() && safeLen > 1 && buf.off + w == NODE_SIZE && w <= |Contents(buf)|
      ensures var b := StreamBuffer.Pop(buf, w);
        && Wf(b) && b.base == buf.base + NODE_SIZE && b.off == 0 && b.last == buf.last && b.blocks == buf.blocks
        && Distinct(chain[1..]) && StoredIn(chain[1..], b)
    {
      hide Linked, Distinct, Wf, UbList.Valid, StoredIn, Wrap, Contents;
      PopDrops(buf, w);
      PopPositions(buf, w);
      StoredLess(chain, buf, StreamBuffer.Pop(buf, w));
    }

    /** The head node is read to its end and leaves the window. */
    method RetireHead(pool: Pool, ghost w: nat)
      requires Valid() && pool.Valid() && Apart(chain, pool.chain)
      requires safeLen > 1 && buf.off + w == NODE_SIZE && w <= |Contents(buf)|
      modifies this`head, this`safeLen, this`chain, this`headDataOffset, this`buf, pool
      modifies Nodes(chain)`toHead, Nodes(chain)`toTail, Nodes(pool.chain)`toTail
      ensures Valid() && pool.Valid() && Apart(chain, pool.chain)
      ensures buf == StreamBuffer.Pop(old(buf), w)
      ensures pool.chain == old(pool.chain) + [old(chain)[0]] && chain == old(chain)[1..]
    {
      hide Linked, Distinct, Apart, Wf, UbList.Valid, Pool.Valid, StoredIn, Wrap, Contents, StreamBuffer.Pop;
      Retired(w);
      Kinds(chain[1..], chain, this, pool);
      Kinds(chain[1..], pool.chain, this, pool);
      var popped := PopNode(pool);
      Kinds(chain, chain, this, pool);
      Kinds(chain, pool.chain, this, pool);
      headDataOffset := 0;
      buf := StreamBuffer.Pop(buf, w);
    }

    /** Part of the head node is read. */
    method ReadOn(w: nat)
      requires Valid() && buf.off + w < NODE_SIZE && w <= |Contents(buf)|
      modifies this`headDataOffset, this`buf
      ensures Valid() && buf == StreamBuffer.Pop(old(buf), w) && headDataOffset == old(headDataOffset) + w
    {
      hide Linked, Distinct, Apart, Wf, UbList.Valid, StoredIn, Wrap, Contents;
      PopDrops(buf, w);
      PopPositions(buf, w);
      StoredLess(chain, buf, StreamBuffer.Pop(buf, w));
      ListApart(chain);
      headDataOffset := headDataOffset + w;
      buf := StreamBuffer.Pop(buf, w);
    }

    /** altusWQPopNode on the last node: nothing happens. */
    method KeepLast(pool: Pool)
      requires Valid() && pool.Valid() && Apart(chain, pool.chain) && safeLen == 1
      modifies this`head, this`safeLen, this`chain, pool
      modifies Nodes(chain)`toHead, Nodes(chain)`toTail, Nodes(pool.chain)`toTail
      ensures Valid() && pool.Valid() && Apart(chain, pool.chain)
      ensures unchanged(this) && pool.chain == old(pool.chain)
    {
      hide Linked, Distinct, Apart, Wf, UbList.Valid, StoredIn, Wrap, Contents;
      Kinds(chain, chain, this, pool);
      Kinds(chain, pool.chain, this, pool);
      var popped := PopNode(pool);
    }

    /** Advance the read position by `w` bytes of the head node; a node read to its
        end goes to the pool. */
    method Consume(pool: Pool, w: nat)
      requires Valid() && pool.Valid() && Apart(chain, pool.chain)
      requires 0 < w <= head.validBlockCount - headDataOffset
      modifies this`head, this`safeLen, this`chain, this`headDataOffset, this`buf, pool
      modifies Nodes(chain)`toHead, Nodes(chain)`toTail, Nodes(pool.chain)`toTail
      ensures Valid() && pool.Valid() && Apart(chain, pool.chain)
      ensures buf == StreamBuffer.Pop(old(buf), w)
      ensures Recycled(old(chain), old(pool.chain), chain, pool.chain)
      ensures Nodes(chain) <= old(Nodes(chain)) && Arrays(chain) <= old(Arrays(chain))
      ensures Nodes(pool.chain) <= old(Nodes(pool.chain)) + old(Nodes(chain))
    {
      hide Linked, Distinct, Apart, Wf, Stores, Reserved, UbList.Valid, Pool.Valid, StreamBuffer.Pop, Wrap, Contents;
      HeadOffers();
      if headDataOffset + w == NODE_SIZE {
        RetireHead(pool, w);
      } else {
        ListApart(pool.chain);
        ReadOn(w);
        if headDataOffset == head.validBlockCount {
          HeadOffers();
          KeepLast(pool);
        }
      }
    }

    lemma ArrayApart(a: array<byte>, d: seq<Node>)
      ensures forall n :: n in Nodes(d) ==> (n as object) != (a as object)
      ensures (a as object) !in {this as object, ub as object, ub.headSeq as object, ub.tailSeq as object}
    {
    }

    /** The memcpy of altusWQPop: `w` bytes of the head node to `dest`, if there is one. */
    method CopyOut(pool: Pool, dest: array?<byte>, at: nat, w: nat)
      requires Valid() && pool.Valid() && w <= head.validBlockCount - headDataOffset && w <= |Contents(buf)|
      requires dest != null ==> dest !in Arrays(chain) && at + w <= dest.Length
      modifies if dest == null then {} else {dest}
      ensures Valid() && pool.Valid()
      ensures dest != null ==> forall k :: 0 <= k < dest.Length ==>
        dest[k] == if at <= k < at + w then Contents(buf)[k - at] else old(dest[k])
    {
      hide Linked, Distinct, StoredIn, Wf, UbList.Valid, Wrap, Contents;
      HeadOffers();
      if dest != null {
        ArrayApart(dest, chain);
        ArrayApart(dest, pool.chain);
        CopyIn(dest, at, head.data[headDataOffset..headDataOffset + w]);
      }
    }

    /** One round of altusWQPop: copy `w` bytes out and advance past them. */
    method PopRound(pool: Pool, dest: array?<byte>, at: nat, w: nat, ghost c: seq<byte>, ghost was: seq<byte>)
      requires Valid() && pool.Valid() && Apart(chain, pool.chain)
      requires 0 < w <= head.validBlockCount - headDataOffset && w <= |Contents(buf)|
      requires dest != null ==> dest !in Arrays(chain) && at + w <= dest.Length
      requires at <= |c| && Contents(buf) == c[at..]
      requires dest != null ==> |was| == dest.Length && Filled(dest[..], was, c, at)
      modifies this`head, this`safeLen, this`chain, this`headDataOffset, this`buf, pool
      modifies Nodes(chain)`toHead, Nodes(chain)`toTail, Nodes(pool.chain)`toTail
      modifies if dest == null then {} else {dest}
      ensures Valid() && pool.Valid() && Apart(chain, pool.chain) && Wf(buf)
      ensures buf == StreamBuffer.Pop(old(buf), w) && at + w <= |c| && Contents(buf) == c[at + w..]
      ensures dest != null ==> Filled(dest[..], was, c, at + w)
      ensures Recycled(old(chain), old(pool.chain), chain, pool.chain)
      ensures Nodes(chain) <= old(Nodes(chain)) && Arrays(chain) <= old(Arrays(chain))
      ensures Nodes(pool.chain) <= old(Nodes(pool.chain)) + old(Nodes(chain))
    {
      hide Shape, Counts, Stores, Reserved, Wf, Pool.Valid, UbList.Valid, Apart, StreamBuffer.Pop, Contents;
      PopDrops(buf, w);
      if dest != null {
        ArrayApart(dest, chain);
        ArrayApart(dest, pool.chain);
        FillOn(dest[..], was, c, at, w);
      }
      CopyOut(pool, dest, at, w);
      assert dest != null ==> dest[..] == old(dest[..at]) + c[at..][..w] + old(dest[at + w..]);
      Consume(pool, w);
    }

    /** `done` bytes of `b` have been handed out; the chains were `c` and `d` before. */
    ghost predicate Popping(pool: Pool, b: Buffer, c: seq<Node>, d: seq<Node>, done: nat)
      reads this, Nodes(chain), Arrays(chain), ub, ub.headSeq, ub.tailSeq, pool, Nodes(pool.chain)
    {
      && Valid() && pool.Valid() && Apart(chain, pool.chain)
      && Wf(b) && done <= |Contents(b)| && buf == StreamBuffer.Pop(b, done)
      && Recycled(c, d, chain, pool.chain)
      && Nodes(chain) <= Nodes(c) && Arrays(chain) <= Arrays(c) && Nodes(pool.chain) <= Nodes(d) + Nodes(c)
    }

    /** The body of the loop of altusWQPop.  It stops when the window is drained. */
    method PopStep(pool: Pool, length: nat, done: nat, dest: array?<byte>,
                   ghost b: Buffer, ghost c: seq<Node>, ghost d: seq<Node>, ghost was: seq<byte>)
      returns (done': nat, stop: bool)
      requires Popping(pool, b, c, d, done) && done < length
      requires dest != null ==> length <= dest.Length && dest !in Arrays(c)
      requires dest != null ==> |was| == dest.Length && Filled(dest[..], was, Contents(b), done)
      modifies this`head, this`safeLen, this`chain, this`headDataOffset, this`buf, pool
      modifies Nodes(chain)`toHead, Nodes(chain)`toTail, Nodes(pool.chain)`toTail
      modifies if dest == null then {} else {dest}
      ensures Popping(pool, b, c, d, done') && done <= done' <= length
      ensures if stop then done' == |Contents(b)| else done' > done
      ensures dest != null ==> Filled(dest[..], was, Contents(b), done')
    {
      hide Valid, Wf, Pool.Valid, Apart, StreamBuffer.Pop, Nodes, Arrays, Contents, Filled, Recycled;
      HeadCount();
      PopDrops(b, done);
      var writelen := head.validBlockCount - headDataOffset;
      if length - done < writelen {
        writelen := length - done;
      }
      if writelen == 0 {
        return done, true;
      }
      PopTwice(b, done, writelen);
      ghost var c1, d1 := chain, pool.chain;
      PopRound(pool, dest, done, writelen, Contents(b), was);
      RecycledTwice(c, d, c1, d1, chain, pool.chain);
      HeadCount();
      PopDrops(b, done + writelen);
      return done + writelen, headDataOffset == head.validBlockCount;
    }

    /** altusWQPop: hand out the front bytes, as many as asked for and available. */
    method Pop(pool: Pool, length: nat, dest: array?<byte>) returns (n: nat)
      requires Valid() && pool.Valid() && Apart(chain, pool.chain)
      requires dest != null ==> length <= dest.Length && dest !in Arrays(chain)
      modifies this`head, this`safeLen, this`chain, this`headDataOffset, this`buf, pool
      modifies Nodes(chain)`toHead, Nodes(chain)`toTail, Nodes(pool.chain)`toTail
      modifies if dest == null then {} else {dest}
      ensures Valid() && pool.Valid() && Apart(chain, pool.chain)
      ensures n == if length <= |old(Contents(buf))| then length else |old(Contents(buf))|
      ensures buf == StreamBuffer.Pop(old(buf), n)
      ensures dest != null ==> Filled(dest[..], old(dest[..]), old(Contents(buf)), n)
      ensures Recycled(old(chain), old(pool.chain), chain, pool.chain)
    {
      hide Valid, Wf, Pool.Valid, Apart, StreamBuffer.Pop, Nodes, Arrays, Contents, Filled, Recycled;
      HeadCount();
      PopNothing(buf);
      RecycledNone(chain, pool.chain);
      ghost var was := if dest == null then [] else dest[..];
      FillNone(was, Contents(buf));
      var stop := false;
      n := 0;
      while n < length && !stop
        invariant n <= length && Popping(pool, old(buf), old(chain), old(pool.chain), n)
        invariant stop ==> n == |Contents(old(buf))|
        invariant dest != null ==> Filled(dest[..], was, Contents(old(buf)), n)
        decreases !stop, length - n
      {
        n, stop := PopStep(pool, length, n, dest, old(buf), old(chain), old(pool.chain), was);
      }
    }

    /** A position of the readable range, as node and offset. */
    lemma NodeAt(p: nat, c: nat, off: nat)
      requires Valid() && ReadPos(buf) <= p < buf.last && p == buf.base + NODE_SIZE * c + off && off < NODE_SIZE
      ensures c < safeLen && chain[c].data.Length == NODE_SIZE
      ensures off < chain[c].validBlockCount <= NODE_SIZE
      ensures p + (chain[c].validBlockCount - off) <= buf.last
      ensures chain[c].validBlockCount < NODE_SIZE ==> p + (chain[c].validBlockCount - off) == buf.last
      ensures chain[c].data[off..chain[c].validBlockCount]
        == Contents(buf)[p - ReadPos(buf)..p - ReadPos(buf) + (chain[c].validBlockCount - off)]
    {
      forall k | off <= k < chain[c].validBlockCount
        ensures chain[c].data[k] == Contents(buf)[p - ReadPos(buf) + (k - off)]
      {
        assert buf.base + NODE_SIZE * c + k in buf.known;
      }
    }

    /** altusWQPeek: where the byte numbered `seq_` sits and how many follow it in its
        node.  `p` is the position meant exactly if the head node starts at headSeq.  Past the
        contiguous end, the unsigned subtraction gives a negative length.  The last
        clause is the answer for every number, whatever the count of the node says. */
    method Peek(seq_: u32) returns (len: int, node: Node?, off: nat)
      requires Valid()
      ensures Valid()
      ensures node != null ==> off == Wrap(seq_ - headSeq) % NODE_SIZE
      ensures PeekPos(buf, headSeq, seq_) == Meant(buf, seq_) <==> headSeq == Wrap(buf.base)
      ensures var p := PeekPos(buf, headSeq, seq_);
        && (p == buf.last ==> len == 0 && node == null)
        && (ReadPos(buf) <= p < buf.last ==>
             && node != null && node.data.Length == NODE_SIZE && 0 < len && off + len <= NODE_SIZE
             && p + len <= buf.last && (p + len == buf.last || off + len == NODE_SIZE)
             && node.data[off..off + len] == Contents(buf)[p - ReadPos(buf)..p - ReadPos(buf) + len])
        && (p > buf.last && safeLen == |chain| ==>
             if p < buf.base + NODE_SIZE * |chain| then node == safeTail && len == buf.last - p
             else node == null && len == 0)
      ensures var (c, o) := (Wrap(seq_ - headSeq) / NODE_SIZE, Wrap(seq_ - headSeq) % NODE_SIZE);
        if c >= |chain| || chain[c].validBlockCount == o then len == 0 && node == null
        else node == chain[c] && off == o && len == AsInt32(Wrap(chain[c].validBlockCount - o))
    {
      hide Shape, Counts, StoredIn, Reserved, Wf, Contents, UbList.Valid, Wrap;
      ghost var p := PeekPos(buf, headSeq, seq_);
      PeekPosExact(buf, headSeq, seq_);
      var target, deltaSeq, c := Walk(Wrap(seq_ - headSeq));
      if target == null {
        PastChain(p);
        return 0, null, 0;
      }
      if ReadPos(buf) <= p < buf.last { NodeAt(p, c, deltaSeq); }
      PastEnd(p, c, deltaSeq);
      CountDiff(target.validBlockCount, deltaSeq);
      if Wrap(target.validBlockCount - deltaSeq) == 0 {
        return 0, null, 0;
      }
      return AsInt32(Wrap(target.validBlockCount - deltaSeq)), target, deltaSeq;
    }

    /** Without a node after safeTail, the window ends where the node of `last` ends. */
    lemma TightEnd()
      requires Valid() && Tight()
      ensures buf.base + NODE_SIZE * |chain| == SafeBase(buf) + NODE_SIZE
      ensures safeTail.data.Length == NODE_SIZE
    {
      SafeLenIs();
    }

    /** The loop of altusWQPeek. */
    method Walk(delta: u32) returns (target: Node?, deltaSeq: u32, ghost c: nat)
      requires Valid()
      ensures Valid()
      ensures target == null ==> delta >= NODE_SIZE * |chain|
      ensures target != null ==>
        c < |chain| && target == chain[c] && delta == NODE_SIZE * c + deltaSeq && deltaSeq < NODE_SIZE
    {
      hide Linked, Distinct, Counts, StoredIn, Reserved, Wf, UbList.Valid;
      target, deltaSeq, c := head, delta, 0;
      while deltaSeq >= NODE_SIZE
        invariant Valid() && c < |chain| && target == chain[c] && delta == NODE_SIZE * c + deltaSeq
      {
        LastNull(c);
        target := target.toTail;
        if target == null {
          return;
        }
        c := c + 1;
        deltaSeq := deltaSeq - NODE_SIZE;
      }
    }

    lemma PastChain(p: nat)
      requires Valid() && p >= buf.base + NODE_SIZE * |chain|
      ensures p > buf.last
    {
    }

    /** A position from the contiguous end on, in a window that has no node after safeTail. */
    lemma PastEnd(p: nat, c: nat, off: nat)
      requires Valid() && c < |chain| && p == buf.base + NODE_SIZE * c + off && off < NODE_SIZE
      ensures p < buf.base + NODE_SIZE * |chain|
      ensures p == buf.last ==> chain[c].validBlockCount == off
      ensures p > buf.last && safeLen == |chain| ==>
        chain[c] == safeTail && chain[c].validBlockCount - off == buf.last - p
    {
    }

    lemma LastNull(c: nat)
      requires Shape() && c < |chain|
      ensures chain[c].toTail == null <==> c == |chain| - 1
      ensures c < |chain| - 1 ==> chain[c].toTail == chain[c + 1]
    {
    }
  }

  /** What follows from `headSeq` staying behind: read the first node of a window that is
      numbered from 0, then peek at number 4096, the next byte; the answer is byte 8192. */
  method ReadThenPeek(w: Window, pool: Pool) returns (len: int, node: Node?, off: nat)
    requires w.Valid() && pool.Valid() && Apart(w.chain, pool.chain)
    requires w.headSeq == 0 && w.buf.base == 0 && w.buf.off == 0 && w.buf.last > 8192
    modifies w, pool, Nodes(w.chain), Nodes(pool.chain)
    ensures w.Valid() && ReadPos(w.buf) == 4096
    ensures node != null && 0 < len && 0 <= off && off + len <= node.data.Length
    ensures 8192 + len <= |old(Contents(w.buf))|
    ensures node.data[off..off + len] == old(Contents(w.buf))[8192..8192 + len]
  {
    hide Window.Valid, Pool.Valid, Apart, Wf, Contents, StreamBuffer.Pop, Recycled, PeekPos;
    w.Basics();
    ghost var b := w.buf;
    PopDrops(b, 4096);
    SecondNodeSkipped(b);
    var n := w.Pop(pool, 4096, null);
    w.Basics();
    len, node, off := w.Peek(4096);
    assert Contents(b)[4096..][4096..4096 + len] == Contents(b)[8192..8192 + len];
  }
}
