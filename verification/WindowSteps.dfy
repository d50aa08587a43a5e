/** The arithmetic of the window code: how its 32-bit differences relate to stream
    positions, and what its writes do to the known bytes. */
module WindowSteps {
  import opened SeqNum
  import opened UnsequencedBlocks
  import opened StreamBuffer

  /** A wrapped difference of numbers less than 2^32 apart is the difference. */
  lemma WrapMinus(x: int, y: int, z: int)
    requires Wrap(x) == Wrap(y) && 0 <= y - z < TWO32
    ensures Wrap(x - Wrap(z)) == y - z
  {
    WrapUnique(x - Wrap(z), x / TWO32 - y / TWO32 + z / TWO32, y - z);
  }

  /** The unsigned subtractions of the copy loop, for a write position `q` no
      further than the end of the node that starts at `base`. */
  lemma NodeRoom(base: nat, q: nat)
    requires base <= q <= base + NODE_SIZE
    ensures Wrap(Wrap(base) + NODE_SIZE - Wrap(q)) == base + NODE_SIZE - q
    ensures Wrap(Wrap(q) - Wrap(base)) % 0x1_0000 == q - base
    ensures Wrap(Wrap(base) + NODE_SIZE) == Wrap(base + NODE_SIZE)
    ensures Wrap(q) == Wrap(base + NODE_SIZE) <==> q == base + NODE_SIZE
  {
    WrapSum(base, NODE_SIZE);
    WrapMinus(Wrap(base) + NODE_SIZE, base + NODE_SIZE, q);
    WrapMinus(Wrap(q), q, base);
    AfterIsOrder(q, base + NODE_SIZE);
  }

  /** The commit loop measures the distance from the start of safeTail exactly. */
  lemma SafeDiff(last: nat, valid: u32, t: nat)
    requires valid <= last <= t < last - valid + TWO31
    ensures Wrap(Wrap(last) - valid) == Wrap(last - valid)
    ensures AsInt32(Wrap(Wrap(t) - Wrap(last - valid))) == t - (last - valid)
  {
    var v: int := valid;
    WrapSum(last, -v);
    WrapMinus(Wrap(t), t, last - valid);
  }

  lemma CountDiff(valid: u32, off: u32)
    requires off < NODE_SIZE
    ensures Wrap(valid - off) == 0 <==> valid == off
    ensures valid <= NODE_SIZE ==> AsInt32(Wrap(valid - off)) == valid - off
  {
    var d: int := valid - off;
    if d < 0 { WrapUnique(d, -1, d + TWO32); } else { WrapUnique(d, 0, d); }
  }

  /** The first memcpy of the copy loop, for a block at `s` and a safeTail that starts
      at `at`: how many bytes, and at which offset of the node's buffer. */
  function FirstWrite(at: nat, s: nat, length: nat): (nat, nat) {
    var room := Wrap(Wrap(at) + NODE_SIZE - Wrap(s));
    (if length < room then length else room, Wrap(Wrap(s) - Wrap(at)) % 0x1_0000)
  }

  /** It stays inside the node and hits the right place exactly when the block starts
      no later than the first byte of the next node. */
  lemma FirstWriteExact(at: nat, s: nat, length: nat)
    requires at <= s < at + TWO31 && length > 0
    ensures var (n, off) := FirstWrite(at, s, length);
      s <= at + NODE_SIZE <==> n == 0 || (off == s - at && off + n <= NODE_SIZE)
  {
    WrapMinus(Wrap(s), s, at);
    if s <= at + NODE_SIZE {
      NodeRoom(at, s);
    } else {
      WrapSum(at, NODE_SIZE);
      WrapUnique(at + NODE_SIZE + TWO32, (at + NODE_SIZE) / TWO32 + 1, Wrap(at + NODE_SIZE));
      WrapMinus(Wrap(at) + NODE_SIZE, at + NODE_SIZE + TWO32, s);
    }
  }

  /** Further ahead, the 16-bit offset can fall back into the node: a block 65536 + x
      after the start of safeTail is written over the bytes at offset x. */
  lemma FirstWriteOverwrites(at: nat, x: nat, length: nat)
    requires 0 < length && x + length <= NODE_SIZE
    ensures FirstWrite(at, at + 0x1_0000 + x, length) == (length, x)
  {
    var s := at + 0x1_0000 + x;
    WrapMinus(Wrap(s), s, at);
    WrapSum(at, NODE_SIZE);
    WrapUnique(at + NODE_SIZE + TWO32, (at + NODE_SIZE) / TWO32 + 1, Wrap(at + NODE_SIZE));
    WrapMinus(Wrap(at) + NODE_SIZE, at + NODE_SIZE + TWO32, s);
  }

  /** What an accepted arrival leaves to commit. */
  lemma StoredIs(b: Buffer, s: nat, data: seq<byte>)
    requires Wf(b) && Put(b, s, data).0 == Stored
    ensures var b' := b.(blocks := Insert(b.blocks, s, s + |data|).1, known := Placed(b.known, s, data));
      && b.last <= s && Put(b, s, data).1 == Commit(b') && Wf(Commit(b'))
      && |b'.blocks| > 0 && Within(b'.blocks, b.last, b.base + WINDOW_BYTES)
    ensures Separated(b.blocks)
  {
    PutBeforeCommit(b, s, data);
    PutKeepsWf(b, s, data);
  }

  /** Everything the block list compares lies in one half-range. */
  lemma CheckRange(b: Buffer, s: nat, length: nat)
    requires Wf(b) && b.last <= s && Fits(b, s, length)
    ensures s + length < b.last + TWO31 && Within(b.blocks, b.last, b.last + TWO31)
  {
    FitsBound(b, s, length);
  }

  lemma PlacedNone(known: map<nat, byte>, s: nat, data: seq<byte>)
    ensures Placed(known, s, data[..0]) == known
  {
  }

  /** `known'` holds nothing but `chunk` at positions q, q + 1, ... and bytes of `known`. */
  ghost predicate Overlaid(known: map<nat, byte>, q: int, chunk: seq<byte>, known': map<nat, byte>) {
    forall p: nat :: p in known' ==>
      if q <= p < q + |chunk| then known'[p] == chunk[p - q] else p in known && known'[p] == known[p]
  }

  lemma PlacedMore(known: map<nat, byte>, s: nat, data: seq<byte>, m: nat, n: nat)
    requires m + n <= |data|
    ensures Overlaid(Placed(known, s, data[..m]), s + m, data[m..m + n], Placed(known, s, data[..m + n]))
  {
  }

  /** `d` is `was` with its first `m` bytes replaced by those of `c`. */
  ghost predicate Filled(d: seq<byte>, was: seq<byte>, c: seq<byte>, m: nat) {
    m <= |c| && m <= |was| && d == c[..m] + was[m..]
  }

  /** Writing the next `w` bytes of `c` after the first `m`. */
  lemma FillOn(d: seq<byte>, was: seq<byte>, c: seq<byte>, m: nat, w: nat)
    requires m + w <= |c| && m + w <= |was| && Filled(d, was, c, m)
    ensures Filled(d[..m] + c[m..][..w] + d[m + w..], was, c, m + w)
  {
  }

  lemma FillNone(d: seq<byte>, c: seq<byte>)
    ensures Filled(d, d, c, 0)
  {
  }
}
