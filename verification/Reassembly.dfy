/** Whole runs of a receiving window: arrivals in any order, any number of times,
    interleaved with reads of any size.  An arrival is known by its 32-bit number only. */
module Reassembly {
  import opened SeqNum
  import opened UnsequencedBlocks
  import opened StreamBuffer
  import opened NodeChains
  import opened WindowSteps
  import opened WindowedQueue

  /** `pos`: the stream position of the first byte; the wire carries it modulo 2^32. */
  datatype Event = Arrive(pos: nat, data: seq<byte>) | Take(n: nat)

  /** The buffer, the positions of all accepted arrivals, and all bytes read so far. */
  datatype Trace = Trace(buf: Buffer, got: set<nat>, out: seq<byte>)

  function Span(s: nat, length: nat): set<nat> {
    set p: nat | s <= p < s + length && InSpan(p, s, length)
  }

  /** What altusWQPut can deal with: a number less than half the range away from `last`,
      and a block within reach of the copy loop. */
  ghost predicate Allowed(t: Trace, e: Event) {
    e.Arrive? ==>
      && |e.data| < TWO31 && t.buf.last - TWO31 < e.pos <= t.buf.last + TWO31
      && Reaches(t.buf, Locate(t.buf.last, Wrap(e.pos)), e.data)
  }

  /** One call of altusWQPut or altusWQPop. */
  ghost function Next(t: Trace, e: Event): (r: Trace)
    requires Wf(t.buf)
    ensures Wf(r.buf)
  {
    match e
    case Arrive(pos, data) =>
      var s := Locate(t.buf.last, Wrap(pos));
      PutKeepsWf(t.buf, s, data);
      var (code, b) := Put(t.buf, s, data);
      Trace(b, if code == Stored then t.got + Span(pos, |data|) else t.got, t.out)
    case Take(n) =>
      var c := Contents(t.buf);
      var m := if n <= |c| then n else |c|;
      PopDrops(t.buf, m);
      Trace(Pop(t.buf, m), t.got, t.out + c[..m])
  }

  /** `ts` is a run of `es`. */
  ghost predicate IsRun(ts: seq<Trace>, es: seq<Event>) {
    && |ts| == |es| + 1
    && (forall i :: 0 <= i < |es| ==> Wf(ts[i].buf) && Allowed(ts[i], es[i]) && ts[i + 1] == Next(ts[i], es[i]))
  }

  /** The events are calls of the window's methods: what these do to its nodes is `Next`. */
  method Perform(w: Window, pool: Pool, e: Event, ghost t: Trace) returns (bytes: seq<byte>)
    requires w.Valid() && pool.Valid() && Apart(w.chain, pool.chain)
    requires w.buf == t.buf && Wf(t.buf)
    requires e.Arrive? ==>
      && |e.data| < TWO31 && t.buf.last - TWO31 < e.pos <= t.buf.last + TWO31
      && Reaches(t.buf, Locate(t.buf.last, Wrap(e.pos)), e.data)
    modifies w, w.ub, w.ub.headSeq, w.ub.tailSeq, pool, Nodes(w.chain), Nodes(pool.chain)
    modifies Arrays(w.chain), Arrays(pool.chain)
    ensures w.Valid() && pool.Valid() && Apart(w.chain, pool.chain) && w.headSeq == old(w.headSeq)
    ensures Allowed(t, e) && w.buf == Next(t, e).buf && t.out + bytes == Next(t, e).out
  {
    hide Window.Valid, Pool.Valid, Apart, Wf, Contents, StreamBuffer.Put, StreamBuffer.Pop, Reaches, Locate;
    match e {
      case Arrive(pos, data) =>
        var code := w.Put(pool, Wrap(pos), data);
        bytes := [];
      case Take(n) =>
        var dest := new byte[n];
        var m := w.Pop(pool, n, dest);
        bytes := dest[..m];
    }
  }

  /** Every arrival is a piece of one stream. */
  predicate Genuine(e: Event, stream: seq<byte>) {
    e.Arrive? ==> e.pos + |e.data| <= |stream| && e.data == stream[e.pos..e.pos + |e.data|]
  }

  ghost predicate Faithful(t: Trace, stream: seq<byte>) {
    && Wf(t.buf) && t.buf.last <= |stream|
    && |t.out| == ReadPos(t.buf) && t.out == stream[..|t.out|]
    && (forall p: nat :: p in t.buf.known ==> p < |stream| && t.buf.known[p] == stream[p])
    && (forall p: nat :: p in t.got <==> p < t.buf.last || Covers(t.buf.blocks, p))
  }

  predicate Begins(t: Trace) {
    Blank(t.buf) && |t.got| == 0 && |t.out| == 0
  }

  lemma ArriveFaithful(t: Trace, e: Event, stream: seq<byte>)
    requires Faithful(t, stream) && e.Arrive? && Genuine(e, stream) && Allowed(t, e)
    ensures Faithful(Next(t, e), stream)
  {
    hide Put, Locate, Reaches, Contents;
    LocateExact(t.buf.last, e.pos);
    var t' := Next(t, e);
    PutStores(t.buf, e.pos, e.data);
    if Put(t.buf, e.pos, e.data).0 == Stored {
      HeldUpTo(t'.buf, |stream|);
      forall p: nat
        ensures p in t'.got <==> p < t'.buf.last || Covers(t'.buf.blocks, p)
      {
        assert p in t'.buf.known <==> p in t.buf.known || e.pos <= p < e.pos + |e.data|;
      }
    }
  }

  /** The contiguous end does not pass what is known to exist. */
  lemma HeldUpTo(b: Buffer, limit: nat)
    requires Wf(b) && ReadPos(b) <= limit
    requires forall p: nat :: p in b.known ==> p < limit
    ensures b.last <= limit
  {
    if b.last > ReadPos(b) {
      assert b.last - 1 in b.known;
    }
  }

  lemma ContentsFrom(b: Buffer, stream: seq<byte>)
    requires Wf(b) && b.last <= |stream|
    requires forall p: nat :: p in b.known ==> p < |stream| && b.known[p] == stream[p]
    ensures Contents(b) == stream[ReadPos(b)..b.last]
  {
    hide Contents, Wf;
    forall i | 0 <= i < |Contents(b)|
      ensures Contents(b)[i] == stream[ReadPos(b) + i]
    {
      ContentsAt(b, i);
    }
  }

  lemma TakeFaithful(t: Trace, n: nat, stream: seq<byte>)
    requires Faithful(t, stream)
    ensures Faithful(Next(t, Take(n)), stream)
  {
    hide Contents, Covers, Pop;
    var c := Contents(t.buf);
    var m := if n <= |c| then n else |c|;
    PopDrops(t.buf, m);
    PopPositions(t.buf, m);
    ContentsFrom(t.buf, stream);
    PrefixGrows(stream, |t.out|, t.buf.last, m);
  }

  lemma PrefixGrows(stream: seq<byte>, from: nat, to: nat, m: nat)
    requires from + m <= to <= |stream|
    ensures stream[..from] + stream[from..to][..m] == stream[..from + m]
  {
  }

  /** All arrivals of the run are pieces of the stream. */
  predicate Pieces(es: seq<Event>, stream: seq<byte>) {
    forall i :: 0 <= i < |es| ==> Genuine(es[i], stream)
  }

  lemma {:induction false} RunFaithful(ts: seq<Trace>, es: seq<Event>, stream: seq<byte>, i: nat)
    requires IsRun(ts, es) && Begins(ts[0]) && Pieces(es, stream) && i < |ts|
    ensures Faithful(ts[i], stream)
  {
    hide Next, Allowed, Genuine, Faithful;
    if i == 0 {
      BeginsFaithful(ts[0], stream);
    } else {
      RunFaithful(ts, es, stream, i - 1);
      match es[i - 1]
      case Arrive(_, _) => ArriveFaithful(ts[i - 1], es[i - 1], stream);
      case Take(n) => TakeFaithful(ts[i - 1], n, stream);
    }
  }

  lemma BeginsFaithful(t: Trace, stream: seq<byte>)
    requires Begins(t)
    ensures Faithful(t, stream)
  {
    BlankWf(t.buf);
  }

  /** Whatever the order and repetition of the arrivals: at every moment of every run of
      altusWQPut and altusWQPop, what was read, followed by what can be read, is the
      stream up to `last`; and `last` is the first position no accepted arrival
      contained.  The stream may be longer than 2^32 bytes. */
  lemma Reassembled(ts: seq<Trace>, es: seq<Event>, stream: seq<byte>, i: nat)
    requires IsRun(ts, es) && Begins(ts[0]) && Pieces(es, stream) && i < |ts|
    ensures var r := ts[i];
      && Wf(r.buf) && r.buf.last <= |stream| && r.out + Contents(r.buf) == stream[..r.buf.last]
      && r.buf.last !in r.got && (forall p: nat :: p < r.buf.last ==> p in r.got)
  {
    hide IsRun, Contents, Covers;
    RunFaithful(ts, es, stream, i);
    FaithfulMeans(ts[i], stream);
  }

  lemma FaithfulMeans(t: Trace, stream: seq<byte>)
    requires Faithful(t, stream)
    ensures t.out + Contents(t.buf) == stream[..t.buf.last]
    ensures t.buf.last !in t.got && (forall p: nat :: p < t.buf.last ==> p in t.got)
  {
    LastIsFirstGap(t.buf);
    ContentsFrom(t.buf, stream);
  }

  /** Two receivers that accepted the same positions agree on everything readable,
      however differently their arrivals and reads were ordered. */
  lemma OrderDoesNotMatter(ts: seq<Trace>, es: seq<Event>, ts': seq<Trace>, es': seq<Event>, stream: seq<byte>)
    requires IsRun(ts, es) && Begins(ts[0]) && Pieces(es, stream)
    requires IsRun(ts', es') && Begins(ts'[0]) && Pieces(es', stream)
    requires ts[|es|].got == ts'[|es'|].got
    ensures var (r, r') := (ts[|es|], ts'[|es'|]);
      && Wf(r.buf) && Wf(r'.buf)
      && r.buf.last == r'.buf.last && r.out + Contents(r.buf) == r'.out + Contents(r'.buf)
  {
    hide Contents, Wf, Next, Allowed;
    Reassembled(ts, es, stream, |es|);
    Reassembled(ts', es', stream, |es'|);
  }

  // ----- numbers in a window that is read -----

  /** The head node starts at a multiple of the node size; what was read ends in it. */
  ghost predicate Paced(t: Trace) {
    Wf(t.buf) && |t.out| == ReadPos(t.buf) && t.buf.base % NODE_SIZE == 0
  }

  lemma NextPaced(t: Trace, e: Event)
    requires Paced(t)
    ensures Paced(Next(t, e))
  {
    hide Wf, Contents, Put, Locate;
    match e
    case Arrive(pos, data) => PutStores(t.buf, Locate(t.buf.last, Wrap(pos)), data);
    case Take(n) =>
      var c := Contents(t.buf);
      PopPositions(t.buf, if n <= |c| then n else |c|);
  }

  lemma {:induction false} RunPaced(ts: seq<Trace>, es: seq<Event>, i: nat)
    requires IsRun(ts, es) && Begins(ts[0]) && i < |ts|
    ensures Paced(ts[i])
  {
    if i == 0 {
      BlankWf(ts[0].buf);
    } else {
      hide Next, Allowed, Paced;
      RunPaced(ts, es, i - 1);
      NextPaced(ts[i - 1], es[i - 1]);
    }
  }

  /** After every run of a window numbered from 0, altusWQPeek finds a number at its own
      position if and only if the bytes read in all are fewer than 4096 (modulo 2^32):
      from the first node that was read to its end, every number leads elsewhere. */
  lemma PeekAfterRun(ts: seq<Trace>, es: seq<Event>, i: nat, q: nat)
    requires IsRun(ts, es) && Begins(ts[0]) && i < |ts|
    requires ts[i].buf.base <= q < ts[i].buf.base + TWO32
    ensures PeekPos(ts[i].buf, 0, Wrap(q)) == q <==> Wrap(|ts[i].out|) < NODE_SIZE
  {
    hide IsRun, PeekPos, Meant;
    RunPaced(ts, es, i);
    var b := ts[i].buf;
    MeantExact(b, q);
    PeekPosExact(b, 0, Wrap(q));
    AlignedStart(b.base, b.off);
  }

  lemma AlignedStart(base: nat, off: nat)
    requires base % NODE_SIZE == 0 && off < NODE_SIZE
    ensures Wrap(base + off) < NODE_SIZE <==> Wrap(base) == 0
  {
    hide Wrap;
    var node := base / NODE_SIZE;
    var (q, t) := (node / 0x10_0000, node % 0x10_0000);
    assert base == TWO32 * q + NODE_SIZE * t;
    WrapUnique(base, q, NODE_SIZE * t);
    WrapUnique(base + off, q, NODE_SIZE * t + off);
  }

  // ----- in order, the window is a queue -----

  datatype QueueOp = Append(data: seq<byte>) | Fetch(n: nat)

  /** The window and all bytes it handed out. */
  datatype Queue = Queue(buf: Buffer, out: seq<byte>)

  ghost predicate InOrder(q: Queue) {
    Wf(q.buf) && q.buf.blocks == []
  }

  ghost function QueueStep(q: Queue, op: QueueOp): (r: Queue)
    requires InOrder(q)
    ensures InOrder(r)
  {
    match op
    case Append(data) =>
      PutAppends(q.buf, data);
      q.(buf := Put(q.buf, q.buf.last, data).1)
    case Fetch(n) =>
      var c := Contents(q.buf);
      var m := if n <= |c| then n else |c|;
      PopDrops(q.buf, m);
      Queue(Pop(q.buf, m), q.out + c[..m])
  }

  ghost function QueueRun(q: Queue, ops: seq<QueueOp>): (r: Queue)
    requires InOrder(q)
    ensures InOrder(r)
  {
    if ops == [] then q else QueueStep(QueueRun(q, ops[..|ops| - 1]), ops[|ops| - 1])
  }

  /** The bytes an operation brings in: its data, if it fits. */
  ghost function Fed(q: Queue, op: QueueOp): seq<byte>
    requires InOrder(q)
  {
    if op.Append? && Fits(q.buf, q.buf.last, |op.data|) then op.data else []
  }

  /** The bytes a run brings in, in order. */
  ghost function AllFed(q: Queue, ops: seq<QueueOp>): seq<byte>
    requires InOrder(q)
  {
    if ops == [] then [] else AllFed(q, ops[..|ops| - 1]) + Fed(QueueRun(q, ops[..|ops| - 1]), ops[|ops| - 1])
  }

  /** One operation: an append that fits adds its data at the end, any other changes
      nothing; a read hands out the front bytes, as many as asked for and available. */
  lemma QueueStepExact(q: Queue, op: QueueOp)
    requires InOrder(q)
    ensures var r := QueueStep(q, op);
      && r.out + Contents(r.buf) == q.out + Contents(q.buf) + Fed(q, op)
      && q.out <= r.out
      && (op.Append? ==> r.out == q.out && Contents(r.buf) == Contents(q.buf) + Fed(q, op))
      && (op.Fetch? ==>
           |r.out| - |q.out| == if op.n <= |Contents(q.buf)| then op.n else |Contents(q.buf)|)
  {
    hide Contents, Put, Pop, Wf, Fits;
    match op
    case Append(data) =>
      PutAppends(q.buf, data);
      if !Fits(q.buf, q.buf.last, |data|) { PutStores(q.buf, q.buf.last, data); }
    case Fetch(n) =>
      var c := Contents(q.buf);
      var m := if n <= |c| then n else |c|;
      PopDrops(q.buf, m);
      assert c == c[..m] + c[m..];
  }

  /** Over every run of appends and reads, the bytes handed out followed by those still
      held are those of the beginning followed by exactly the data that fitted, in order. */
  lemma {:induction false} FirstInFirstOut(q: Queue, ops: seq<QueueOp>)
    requires InOrder(q)
    ensures var r := QueueRun(q, ops); r.out + Contents(r.buf) == q.out + Contents(q.buf) + AllFed(q, ops)
  {
    hide QueueStep, InOrder, Contents, Fed;
    if ops != [] {
      var before := ops[..|ops| - 1];
      FirstInFirstOut(q, before);
      QueueStepExact(QueueRun(q, before), ops[|ops| - 1]);
    }
  }
}
