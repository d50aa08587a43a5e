/** Nodes, the chains they form, and the pool that recycles them. */
module NodeChains {
  import opened SeqNum
  import opened StreamBuffer

  class Node {
    var toHead: Node?
    var toTail: Node?
    const data: array<byte>
    var validBlockCount: u32

    /** `malloc`: contents and count are arbitrary. */
    constructor ()
      ensures data.Length == NODE_SIZE && fresh(data)
      ensures toHead == null && toTail == null
    {
      toHead, toTail := null, null;
      data := new byte[NODE_SIZE];
      validBlockCount := *;
    }
  }

  ghost function Nodes(c: seq<Node>): set<Node> {
    set n | n in c
  }

  ghost function Arrays(c: seq<Node>): set<array<byte>> {
    set n | n in c :: n.data
  }

  /** The nodes of `c`, linked both ways and ended by null pointers. */
  ghost predicate Linked(c: seq<Node>)
    reads Nodes(c)
  {
    && |c| > 0 && c[0].toHead == null && c[|c| - 1].toTail == null
    && (forall i {:trigger c[i].toTail} :: 0 <= i < |c| - 1 ==> c[i].toTail == c[i + 1])
    && (forall i {:trigger c[i].toHead} :: 0 < i < |c| ==> c[i].toHead == c[i - 1])
  }

  /** No node and no buffer occurs twice. */
  ghost predicate Distinct(c: seq<Node>) {
    && (forall i :: 0 <= i < |c| ==> c[i].data.Length == NODE_SIZE)
    && (forall i, j :: 0 <= i < j < |c| ==> c[i] != c[j] && c[i].data != c[j].data)
  }

  ghost predicate Apart(c: seq<Node>, d: seq<Node>) {
    forall i, j :: 0 <= i < |c| && 0 <= j < |d| ==> c[i] != d[j] && c[i].data != d[j].data
  }

  lemma ApartPush(c: seq<Node>, n: Node, d: seq<Node>)
    requires Distinct(c) && n.data.Length == NODE_SIZE && Apart(c, [n]) && Apart(c, d) && Apart([n], d)
    ensures Distinct(c + [n]) && Apart(c + [n], d)
  {
  }

  lemma ApartFront(c: seq<Node>, d: seq<Node>)
    requires Apart(c, d)
    ensures |d| > 0 ==> Apart(c, [d[0]]) && Apart(c, d[1..])
    ensures |c| > 0 ==> Apart([c[0]], d) && Apart(c[1..], d)
  {
  }

  lemma ApartNodes(c: seq<Node>, d: seq<Node>)
    requires Apart(c, d)
    ensures Nodes(c) !! Nodes(d)
  {
  }

  lemma ApartMove(c: seq<Node>, n: Node, d: seq<Node>)
    requires Apart(c, d) && Apart([n], c)
    ensures Apart(c, d + [n])
  {
  }

  /** Growing a window chain from `c` to `c'` took nodes only from the front of the
      pool chain, in order, and others only once one node was left there. */
  ghost predicate Moved(c: seq<Node>, d: seq<Node>, c': seq<Node>, d': seq<Node>) {
    var k := |d| - |d'|;
    && c <= c' && 0 < |d'| <= |d| && |c| + k <= |c'| && d' == d[k..]
    && (forall i :: 0 <= i < k ==> c'[|c| + i] == d[i])
    && (|c| + k < |c'| ==> |d'| == 1)
  }

  lemma MovedPrefix(c: seq<Node>, d: seq<Node>, c': seq<Node>, d': seq<Node>)
    requires Moved(c, d, c', d')
    ensures c <= c' && 0 < |d'| <= |d| && |c| + |d| <= |c'| + |d'|
    ensures |c| + |d| < |c'| + |d'| ==> |d'| == 1
  {
  }

  lemma MovedNone(c: seq<Node>, d: seq<Node>)
    requires |d| > 0
    ensures Moved(c, d, c, d)
  {
  }

  /** Where the node at `i` came from, unless it is new. */
  lemma MovedOrigin(c: seq<Node>, d: seq<Node>, c': seq<Node>, d': seq<Node>, i: nat)
    requires Moved(c, d, c', d') && i < |c'|
    ensures i < |c| + |d| - |d'| ==> c'[i] in Nodes(c) + Nodes(d) && c'[i].data in Arrays(c) + Arrays(d)
    ensures Nodes(d') <= Nodes(d)
  {
    assert i < |c| + |d| - |d'| ==> c'[i] == if i < |c| then c[i] else d[i - |c|];
  }

  lemma MovedFewer(c: seq<Node>, d: seq<Node>, c': seq<Node>, d': seq<Node>)
    requires Moved(c, d, c', d')
    ensures Nodes(c) <= Nodes(c') && Nodes(d') <= Nodes(d)
  {
    forall n | n in Nodes(c)
      ensures n in Nodes(c')
    {
      var i :| 0 <= i < |c| && c[i] == n;
      assert c'[i] == n;
    }
  }

  lemma MovedNodes(c: seq<Node>, d: seq<Node>, c': seq<Node>, d': seq<Node>)
    requires Moved(c, d, c', d')
    ensures forall n :: n in Nodes(c') && n !in Nodes(c) + Nodes(d) ==>
      exists i :: 0 <= i < |c'| && |c| + |d| <= i + |d'| && c'[i] == n
  {
    forall n | n in Nodes(c') && n !in Nodes(c) + Nodes(d)
      ensures exists i :: 0 <= i < |c'| && |c| + |d| <= i + |d'| && c'[i] == n
    {
      var i :| 0 <= i < |c'| && c'[i] == n;
      MovedOrigin(c, d, c', d', i);
    }
  }

  lemma MovedTwice(c: seq<Node>, d: seq<Node>, c': seq<Node>, d': seq<Node>, c'': seq<Node>, d'': seq<Node>)
    requires Moved(c, d, c', d') && Moved(c', d', c'', d'')
    ensures Moved(c, d, c'', d'')
  {
    var k, k' := |d| - |d'|, |d'| - |d''|;
    assert d'' == d[k + k'..];
    if k' > 0 { assert |c| + k == |c'|; }
    forall i | 0 <= i < k + k'
      ensures c''[|c| + i] == d[i]
    {
      if i < k {
        assert c''[|c| + i] == c'[|c| + i];
      } else {
        assert c''[|c'| + (i - k)] == d'[i - k];
      }
    }
  }

  /** A node that the second growth did not add was added by the first one. */
  lemma MovedBetween(c: seq<Node>, d: seq<Node>, c': seq<Node>, d': seq<Node>, c'': seq<Node>, d'': seq<Node>, i: nat)
    requires Moved(c, d, c', d') && Moved(c', d', c'', d'') && i < |c''|
    ensures |c| + |d| <= i + |d''| < |c'| + |d'| ==> |c| + |d| <= i + |d'| && i < |c'| && c''[i] == c'[i]
  {
    hide Moved;
    MovedPrefix(c, d, c', d');
    MovedPrefix(c', d', c'', d'');
  }

  /** Storing loses no node: all nodes of the two chains are still there, and the
      chains grew by exactly the new ones. */
  lemma MovedKeeps(c: seq<Node>, d: seq<Node>, c': seq<Node>, d': seq<Node>)
    requires Moved(c, d, c', d')
    ensures Nodes(c) + Nodes(d) <= Nodes(c') + Nodes(d')
    ensures forall n :: n in Nodes(c') + Nodes(d') && n !in Nodes(c) + Nodes(d) ==>
      exists i :: |c| + |d| - |d'| <= i < |c'| && c'[i] == n
  {
    var k := |d| - |d'|;
    forall n | n in Nodes(d)
      ensures n in Nodes(c') + Nodes(d')
    {
      var i :| 0 <= i < |d| && d[i] == n;
      if i < k { assert c'[|c| + i] == n; } else { assert d'[i - k] == n; }
    }
    MovedNodes(c, d, c', d');
    MovedFewer(c, d, c', d');
  }

  /** Reading loses no node and allocates none. */
  lemma RecycledKeeps(c: seq<Node>, d: seq<Node>, c': seq<Node>, d': seq<Node>)
    requires Recycled(c, d, c', d')
    ensures Nodes(c') + Nodes(d') == Nodes(c) + Nodes(d) && |c'| + |d'| == |c| + |d|
  {
    assert Nodes(d' + c') == Nodes(d') + Nodes(c');
    assert Nodes(d + c) == Nodes(d) + Nodes(c);
  }

  /** Reading moves nodes from the front of the window chain to the end of the pool
      chain and does nothing else to the two chains. */
  ghost predicate Recycled(c: seq<Node>, d: seq<Node>, c': seq<Node>, d': seq<Node>) {
    d' + c' == d + c
  }

  lemma RecycledNone(c: seq<Node>, d: seq<Node>)
    ensures Recycled(c, d, c, d)
  {
  }

  lemma RecycledTwice(c: seq<Node>, d: seq<Node>, c': seq<Node>, d': seq<Node>, c'': seq<Node>, d'': seq<Node>)
    requires Recycled(c, d, c', d') && Recycled(c', d', c'', d'')
    ensures Recycled(c, d, c'', d'')
  {
  }

  /** Every byte known to `b` sits at its place in the nodes of `c`. */
  ghost predicate StoredIn(c: seq<Node>, b: Buffer)
    reads Arrays(c)
    requires Distinct(c)
  {
    forall i, k :: 0 <= i < |c| && 0 <= k < NODE_SIZE && b.base + NODE_SIZE * i + k in b.known ==>
      c[i].data[k] == b.known[b.base + NODE_SIZE * i + k]
  }

  /** Forgetting bytes, or the first node together with its bytes, keeps the rest. */
  lemma StoredLess(c: seq<Node>, b: Buffer, b': Buffer)
    requires Distinct(c) && StoredIn(c, b) && |c| > 0
    requires forall p: nat :: p in b'.known ==> p in b.known && b'.known[p] == b.known[p]
    ensures b'.base == b.base ==> StoredIn(c, b')
    ensures Distinct(c[1..]) && (b'.base == b.base + NODE_SIZE ==> StoredIn(c[1..], b'))
  {
    if b'.base == b.base + NODE_SIZE {
      forall i, k | 0 <= i < |c| - 1 && 0 <= k < NODE_SIZE && b'.base + NODE_SIZE * i + k in b'.known
        ensures c[1..][i].data[k] == b'.known[b'.base + NODE_SIZE * i + k]
      {
        assert b.base + NODE_SIZE * (i + 1) + k == b'.base + NODE_SIZE * i + k;
        assert c[i + 1].data[k] == b.known[b.base + NODE_SIZE * (i + 1) + k];
      }
    }
  }

  /** memcpy into a node buffer. */
  method CopyIn(dst: array<byte>, off: nat, src: seq<byte>)
    requires off + |src| <= dst.Length
    modifies dst
    ensures forall k :: 0 <= k < dst.Length ==>
      dst[k] == if off <= k < off + |src| then src[k - off] else old(dst[k])
  {
    for j := 0 to |src|
      invariant forall k :: 0 <= k < dst.Length ==>
        dst[k] == if off <= k < off + j then src[k - off] else old(dst[k])
    {
      dst[off + j] := src[j];
    }
  }

  class Pool {
    var recycledHead: Node
    var recycledTail: Node
    var len: nat
    ghost var chain: seq<Node>

    ghost predicate Valid()
      reads this, Nodes(chain)
    {
      && |chain| > 0 && Linked(chain) && Distinct(chain)
      && recycledHead == chain[0] && recycledTail == chain[|chain| - 1]
      && len == |chain|
    }

    /** altusWQNewNodePool */
    constructor ()
      ensures Valid() && fresh(chain[0]) && fresh(chain[0].data) && len == 1
    {
      var n := new Node();
      n.validBlockCount := 0;
      recycledHead, recycledTail, len := n, n, 1;
      chain := [n];
    }

    /** The node altusWQNewNode takes: the oldest recycled one, unless that is the
        only one left; then a newly allocated one. */
    method Take() returns (n: Node)
      requires Valid()
      modifies this, Nodes(chain)`toHead
      ensures Valid() && n.data.Length == NODE_SIZE && Apart([n], chain)
      ensures old(|chain|) == 1 ==> fresh(n) && fresh(n.data) && chain == old(chain)
      ensures old(|chain|) > 1 ==> n == old(chain)[0] && chain == old(chain)[1..]
    {
      if recycledHead == recycledTail {
        n := new Node();
      } else {
        n := recycledHead;
        recycledHead := recycledHead.toTail;
        recycledHead.toHead := null;
        len := len - 1;
        chain := chain[1..];
      }
    }

    /** The pool half of altusWQPopNode. */
    method Recycle(n: Node)
      requires Valid() && n.data.Length == NODE_SIZE && Apart([n], chain)
      modifies this, n`toHead, n`toTail, Nodes(chain)`toTail
      ensures Valid() && chain == old(chain) + [n]
    {
      assert [n][0] == n;
      assert forall j :: 0 <= j < |chain| ==> n != chain[j] && n.data != chain[j].data;
      n.toTail := null;
      n.toHead := recycledTail;
      recycledTail.toTail := n;
      recycledTail := n;
      len := len + 1;
      chain := chain + [n];
    }
  }
}
