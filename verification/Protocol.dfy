/** Sender, wire and receiver as one state machine.  The wire may lose, repeat and
    reorder packets; the sender emits what its code emits, including the packets it
    cuts after its cursor has run past the end of the stream or around 2^32. */
module Protocol {
  import opened SeqNum
  import opened UnsequencedBlocks
  import opened StreamBuffer
  import opened NodeChains
  import opened WindowSteps
  import opened WindowedQueue
  import opened Framing
  import Channel

  /** The packets of one lap: number LAP is the first that gets a number already used. */
  const LAP: nat := 8801163

  /** `pos`: the 32-bit number of the packet. */
  datatype Packet = Packet(pos: u32, payload: seq<byte>)

  /** `marked`: the sender's channel has something to send.  `sent`: every packet
      emitted so far, in order; any of them may still arrive, any number of times.
      `out`: the bytes the receiving application has read. */
  datatype System = System(snd: Buffer, marked: bool, sent: seq<Packet>, rcv: Buffer, out: seq<byte>)

  datatype Event = Upstream(data: seq<byte>) | Emit(payload: seq<byte>) | Deliver(k: nat) | Read(n: nat)

  /** All bytes the sender has accepted. */
  ghost function Stream(sys: System): seq<byte>
    requires Wf(sys.snd)
  {
    Contents(sys.snd)
  }

  /** The sender's cursor, which is also the position in its window, since the head
      node of that window starts at 0. */
  function Cursor(sys: System): u32 {
    Wrap(DATA_SIZE * |sys.sent|)
  }

  ghost predicate Sound(sys: System) {
    Wf(sys.snd) && Wf(sys.rcv) && sys.snd.blocks == [] && ReadPos(sys.snd) == 0
  }

  ghost predicate Enabled(sys: System, e: Event)
    requires Sound(sys)
  {
    match e
    case Upstream(data) => |data| < TWO31
    case Emit(payload) => sys.marked && Channel.Cut(sys.snd, Cursor(sys), payload)
    case Deliver(k) => k < |sys.sent| && Reaches(sys.rcv, Arrival(sys, k), sys.sent[k].payload)
    case Read(n) => n <= |Contents(sys.rcv)|
  }

  /** Where the receiver places packet `k`, from its 32-bit number. */
  function Arrival(sys: System, k: nat): int
    requires k < |sys.sent|
  {
    Locate(sys.rcv.last, sys.sent[k].pos)
  }

  ghost function Apply(sys: System, e: Event): (r: System)
    requires Sound(sys) && Enabled(sys, e)
    ensures Sound(r)
  {
    match e
    case Upstream(data) =>
      PutAppends(sys.snd, data);
      PutStores(sys.snd, sys.snd.last, data);
      sys.(snd := Put(sys.snd, sys.snd.last, data).1, marked := true)
    case Emit(payload) =>
      sys.(sent := sys.sent + [Packet(Cursor(sys), payload)], marked := Channel.StaysMarked(sys.snd, Cursor(sys)))
    case Deliver(k) =>
      PutKeepsWf(sys.rcv, Arrival(sys, k), sys.sent[k].payload);
      sys.(rcv := Put(sys.rcv, Arrival(sys, k), sys.sent[k].payload).1)
    case Read(n) =>
      PopDrops(sys.rcv, n);
      sys.(rcv := Pop(sys.rcv, n), out := sys.out + Contents(sys.rcv)[..n])
  }

  // ----- what one step does -----

  /** The bytes a step adds to the stream: what CreateUpstream is given, if it fits. */
  ghost function Given(sys: System, e: Event): seq<byte> {
    if e.Upstream? && Fits(sys.snd, sys.snd.last, |e.data|) then e.data else []
  }

  /** CreateUpstream appends exactly its data to the stream, or nothing when the window is
      full, and marks the channel; nothing else changes. */
  lemma UpstreamExact(sys: System, data: seq<byte>)
    requires Sound(sys) && Enabled(sys, Upstream(data))
    ensures var r := Apply(sys, Upstream(data));
      && Stream(r) == Stream(sys) + (if Put(sys.snd, sys.snd.last, data).0 == Stored then data else [])
      && (Put(sys.snd, sys.snd.last, data).0 == Stored <==> Fits(sys.snd, sys.snd.last, |data|))
      && r == sys.(snd := r.snd, marked := true)
  {
    hide Contents, Put, Fits, Wf;
    PutAppends(sys.snd, data);
    if Put(sys.snd, sys.snd.last, data).0 != Stored { PutStores(sys.snd, sys.snd.last, data); }
  }

  /** An emission adds one packet: its number is the cursor, its payload what was cut. */
  lemma EmitExact(sys: System, payload: seq<byte>)
    requires Sound(sys) && Enabled(sys, Emit(payload))
    ensures var r := Apply(sys, Emit(payload));
      && |r.sent| == |sys.sent| + 1 && r.sent[..|sys.sent|] == sys.sent
      && r.sent[|sys.sent|] == Packet(Wrap(488 * |sys.sent|), payload)
      && r == sys.(sent := r.sent, marked := r.marked)
  {
  }

  /** A read hands out the front bytes the receiver holds, exactly as many as asked for. */
  lemma ReadExact(sys: System, n: nat)
    requires Sound(sys) && Enabled(sys, Read(n))
    ensures var r := Apply(sys, Read(n));
      && |r.out| == |sys.out| + n && r.out + Contents(r.rcv) == sys.out + Contents(sys.rcv)
      && sys.out <= r.out && r.rcv.last == sys.rcv.last
      && r == sys.(rcv := r.rcv, out := r.out)
  {
    hide Contents, Pop, Wf;
    PopDrops(sys.rcv, n);
    var c := Contents(sys.rcv);
    assert c == c[..n] + c[n..];
  }

  /** Only CreateUpstream changes the stream. */
  lemma StepGives(sys: System, e: Event)
    requires Sound(sys) && Enabled(sys, e)
    ensures Stream(Apply(sys, e)) == Stream(sys) + Given(sys, e)
  {
    hide Contents, Put, Fits, Pop, Wf;
    if e.Upstream? { UpstreamExact(sys, e.data); }
  }

  // ----- the steps as calls -----

  /** The sender's channel holds the sender's part of the system. */
  ghost predicate Sends(c: Channel.Channel, sys: System)
    reads c, c.buffer, Nodes(c.buffer.chain), Arrays(c.buffer.chain)
    reads c.buffer.ub, c.buffer.ub.headSeq, c.buffer.ub.tailSeq
  {
    && c.buffer.Valid() && c.buffer.Tight() && c.buffer.headSeq == 0 && c.buffer.buf == sys.snd
    && c.nextSendSeq == Cursor(sys) && c.isUpdated == sys.marked
  }

  /** A call of CreateUpstream is the step `Upstream`. */
  method PerformUpstream(c: Channel.Channel, pool: Pool, data: seq<byte>, ghost sys: System) returns (code: PutCode)
    requires Sends(c, sys) && pool.Valid() && Apart(c.buffer.chain, pool.chain)
    requires Sound(sys) && |data| < TWO31
    modifies c, c.buffer, c.buffer.ub, c.buffer.ub.headSeq, c.buffer.ub.tailSeq, pool
    modifies Nodes(c.buffer.chain), Nodes(pool.chain), Arrays(c.buffer.chain), Arrays(pool.chain)
    ensures Enabled(sys, Upstream(data)) && Sends(c, Apply(sys, Upstream(data)))
    ensures pool.Valid() && Apart(c.buffer.chain, pool.chain)
    ensures Stream(Apply(sys, Upstream(data))) == Stream(sys) + if code == Stored then data else []
  {
    hide Window.Valid, Pool.Valid, Apart, Wf, Contents, Put, Fits, Wrap;
    UpstreamExact(sys, data);
    code := c.CreateUpstream(pool, data);
  }

  /** The cut of one packet is the step `Emit`. */
  method PerformEmit(c: Channel.Channel, cuid: u16, beyond: seq<byte>, ghost sys: System)
    returns (frame: seq<byte>, ghost payload: seq<byte>)
    requires Sends(c, sys) && Sound(sys) && sys.marked && |beyond| == DATA_SIZE
    modifies c
    ensures Enabled(sys, Emit(payload)) && Sends(c, Apply(sys, Emit(payload)))
    ensures Frames(frame, cuid, Cursor(sys), payload)
  {
    hide Window.Valid, Wf, Contents, Wrap, Frames, Channel.Cut, Channel.StaysMarked;
    StartsAtZero(sys);
    frame, payload := c.EmitPacket(cuid, beyond);
    EmittedAsCut(sys, payload);
    c.AloneHere();
  }

  lemma StartsAtZero(sys: System)
    requires Sound(sys)
    ensures PeekPos(sys.snd, 0, Cursor(sys)) == Cursor(sys) && ReadPos(sys.snd) == 0
  {
    var c: int := Cursor(sys);
    WrapUnique(c - 0, 0, Cursor(sys));
  }

  /** A packet handed to the receiver's channel is the step `Deliver`. */
  method PerformDeliver(c: Channel.Channel, pool: Pool, cuid: u16, frame: seq<byte>, ghost sys: System, ghost k: nat)
    requires c.buffer.Valid() && c.buffer.buf == sys.rcv && pool.Valid() && Apart(c.buffer.chain, pool.chain)
    requires Sound(sys) && k < |sys.sent| && |frame| < TWO31
    requires Frames(frame, cuid, sys.sent[k].pos, sys.sent[k].payload)
    requires Reaches(sys.rcv, Locate(sys.rcv.last, sys.sent[k].pos), sys.sent[k].payload)
    modifies c.buffer, c.buffer.ub, c.buffer.ub.headSeq, c.buffer.ub.tailSeq, pool
    modifies Nodes(c.buffer.chain), Nodes(pool.chain), Arrays(c.buffer.chain), Arrays(pool.chain)
    ensures c.buffer.Valid() && pool.Valid() && Apart(c.buffer.chain, pool.chain)
    ensures Enabled(sys, Deliver(k)) && c.buffer.buf == Apply(sys, Deliver(k)).rcv
  {
    hide Window.Valid, Pool.Valid, Apart, Wf, Contents, Put, Locate, Reaches, Frames, Unframe;
    DeliveredAsFramed(sys, k, cuid, frame);
    var wantsAck := c.Receive(pool, frame);
  }

  /** A call of altusWQPop is the step `Read`. */
  method PerformRead(w: Window, pool: Pool, n: nat, dest: array<byte>, ghost sys: System)
    requires w.Valid() && w.buf == sys.rcv && pool.Valid() && Apart(w.chain, pool.chain)
    requires Sound(sys) && n <= |Contents(sys.rcv)| && n <= dest.Length && dest !in Arrays(w.chain)
    modifies w, pool, Nodes(w.chain), Nodes(pool.chain), dest
    ensures w.Valid() && pool.Valid() && Apart(w.chain, pool.chain)
    ensures Enabled(sys, Read(n)) && w.buf == Apply(sys, Read(n)).rcv && Apply(sys, Read(n)).out == sys.out + dest[..n]
  {
    hide Window.Valid, Pool.Valid, Apart, Wf, Contents, StreamBuffer.Pop;
    var m := w.Pop(pool, n, dest);
  }

  predicate Initially(sys: System) {
    Blank(sys.snd) && Blank(sys.rcv) && |sys.sent| == 0 && |sys.out| == 0 && !sys.marked
  }

  // ----- packets -----

  predicate Genuine(pkt: Packet, stream: seq<byte>) {
    pkt.pos + |pkt.payload| <= |stream| && pkt.payload == stream[pkt.pos..pkt.pos + |pkt.payload|]
  }

  predicate Short(pkt: Packet) {
    |pkt.payload| < DATA_SIZE
  }

  predicate FullBefore(sent: seq<Packet>, k: nat)
    requires k <= |sent|
  {
    forall j :: 0 <= j < k ==> !Short(sent[j])
  }

  predicate Carries(pkt: Packet, p: int) {
    pkt.pos <= p < pkt.pos + |pkt.payload|
  }

  /** Some emitted packet holds byte `b` at position `p`. */
  predicate Carried(sent: seq<Packet>, p: int, b: byte) {
    exists k :: 0 <= k < |sent| && Carries(sent[k], p) && sent[k].payload[p - sent[k].pos] == b
  }

  /** In the first lap packets sit at multiples of the data size; those up to and
      including the first short one are genuine. */
  ghost predicate SentInv(sent: seq<Packet>, stream: seq<byte>) {
    && |sent| <= LAP
    && (forall k :: 0 <= k < |sent| ==> sent[k].pos == DATA_SIZE * k && |sent[k].payload| <= DATA_SIZE)
    && (forall k :: 0 <= k < |sent| && FullBefore(sent, k) ==> Genuine(sent[k], stream))
  }

  ghost predicate Inv(sys: System) {
    && Sound(sys) && SentInv(sys.sent, Stream(sys))
    && |sys.out| == ReadPos(sys.rcv)
    && (forall p: nat :: p in sys.rcv.known ==> Carried(sys.sent, p, sys.rcv.known[p]))
    && (forall p: nat :: p < |sys.out| ==> Carried(sys.sent, p, sys.out[p]))
  }

  /** Read and readable bytes of the receiver. */
  ghost function History(sys: System): (h: seq<byte>)
    requires Wf(sys.rcv) && |sys.out| == ReadPos(sys.rcv)
    ensures |h| == sys.rcv.last
  {
    sys.out + Contents(sys.rcv)
  }

  lemma HistoryCarried(sys: System, p: nat)
    requires Inv(sys) && p < sys.rcv.last
    ensures Carried(sys.sent, p, History(sys)[p])
  {
    if p >= |sys.out| {
      assert p in sys.rcv.known;
    }
  }

  /** Only packet number p / 488 can hold position p. */
  lemma CarrierUnique(sent: seq<Packet>, stream: seq<byte>, k: nat, p: nat)
    requires SentInv(sent, stream) && k < |sent| && Carries(sent[k], p)
    ensures k == p / DATA_SIZE
  {
  }

  /** After a short packet its missing bytes are in no packet of the lap. */
  lemma GapNotCarried(sent: seq<Packet>, stream: seq<byte>, j: nat, k: nat)
    requires SentInv(sent, stream) && j < |sent| && k < |sent| && Short(sent[j])
    ensures !Carries(sent[k], sent[j].pos + |sent[j].payload|)
  {
    var q := sent[j].pos + |sent[j].payload|;
    assert q / DATA_SIZE == j;
    if Carries(sent[k], q) {
      CarrierUnique(sent, stream, k, q);
    }
  }

  /** Within the lap the receiver does not get past the end of a short packet. */
  lemma StuckAtShort(sys: System, j: nat)
    requires Inv(sys) && j < |sys.sent| && Short(sys.sent[j])
    ensures sys.rcv.last <= sys.sent[j].pos + |sys.sent[j].payload|
  {
    var q := sys.sent[j].pos + |sys.sent[j].payload|;
    if q < sys.rcv.last {
      HistoryCarried(sys, q);
      var k :| 0 <= k < |sys.sent| && Carries(sys.sent[k], q);
      GapNotCarried(sys.sent, Stream(sys), j, k);
    }
  }

  lemma PrefixAt(sys: System, p: nat)
    requires Inv(sys) && p < sys.rcv.last
    ensures p < |Stream(sys)| && History(sys)[p] == Stream(sys)[p]
  {
    hide Stream, History, Wf, Contents, SentInv;
    HistoryCarried(sys, p);
    var k :| 0 <= k < |sys.sent| && Carries(sys.sent[k], p)
             && sys.sent[k].payload[p - sys.sent[k].pos] == History(sys)[p];
    SentPositions(sys.sent, Stream(sys));
    forall j | 0 <= j < k
      ensures !Short(sys.sent[j])
    {
      if Short(sys.sent[j]) { StuckAtShort(sys, j); }
    }
    SentGenuine(sys.sent, Stream(sys), k);
  }

  lemma SentPositions(sent: seq<Packet>, stream: seq<byte>)
    requires SentInv(sent, stream)
    ensures forall k :: 0 <= k < |sent| ==> sent[k].pos == DATA_SIZE * k && |sent[k].payload| <= DATA_SIZE
  {
  }

  lemma SentGenuine(sent: seq<Packet>, stream: seq<byte>, k: nat)
    requires SentInv(sent, stream) && k < |sent| && FullBefore(sent, k)
    ensures Genuine(sent[k], stream)
  {
  }

  /** What the receiver has read, followed by what it can read, is a prefix of the
      sender's stream. */
  lemma PrefixSafe(sys: System)
    requires Inv(sys)
    ensures sys.rcv.last <= |Stream(sys)| && History(sys) == Stream(sys)[..sys.rcv.last]
  {
    hide Stream, History;
    forall p: nat | p < sys.rcv.last
      ensures p < |Stream(sys)| && History(sys)[p] == Stream(sys)[p]
    {
      PrefixAt(sys, p);
    }
    if sys.rcv.last > 0 { PrefixAt(sys, sys.rcv.last - 1); }
  }

  // ----- every step keeps the invariant -----

  lemma InitInv(sys: System)
    requires Initially(sys)
    ensures Inv(sys) && Stream(sys) == []
  {
    BlankWf(sys.snd);
    BlankWf(sys.rcv);
  }

  lemma CarriedMore(sent: seq<Packet>, pkt: Packet, p: int, b: byte)
    requires Carried(sent, p, b)
    ensures Carried(sent + [pkt], p, b)
  {
    var k :| 0 <= k < |sent| && Carries(sent[k], p) && sent[k].payload[p - sent[k].pos] == b;
    assert (sent + [pkt])[k] == sent[k];
  }

  lemma UpstreamInv(sys: System, data: seq<byte>)
    requires Inv(sys) && Enabled(sys, Upstream(data))
    ensures Inv(Apply(sys, Upstream(data)))
    ensures Stream(sys) <= Stream(Apply(sys, Upstream(data)))
  {
    PutAppends(sys.snd, data);
    PutStores(sys.snd, sys.snd.last, data);
    SentGrowingStream(sys.sent, Stream(sys), Stream(Apply(sys, Upstream(data))));
  }

  lemma SentGrowingStream(sent: seq<Packet>, stream: seq<byte>, stream': seq<byte>)
    requires SentInv(sent, stream) && stream <= stream'
    ensures SentInv(sent, stream')
  {
    forall k | 0 <= k < |sent| && FullBefore(sent, k)
      ensures Genuine(sent[k], stream')
    {
      assert Genuine(sent[k], stream);
    }
  }

  /** As long as every packet so far was full, the cursor has not passed the stream. */
  lemma CursorInside(sent: seq<Packet>, stream: seq<byte>)
    requires SentInv(sent, stream) && FullBefore(sent, |sent|)
    ensures DATA_SIZE * |sent| <= |stream|
  {
    if |sent| > 0 {
      assert FullBefore(sent, |sent| - 1);
      assert Genuine(sent[|sent| - 1], stream);
    }
  }

  lemma SentMore(sent: seq<Packet>, stream: seq<byte>, pkt: Packet)
    requires SentInv(sent, stream)
    requires |sent| < LAP && pkt.pos == DATA_SIZE * |sent| && |pkt.payload| <= DATA_SIZE
    requires FullBefore(sent, |sent|) ==> Genuine(pkt, stream)
    ensures SentInv(sent + [pkt], stream)
  {
    var sent' := sent + [pkt];
    forall k | 0 <= k < |sent'| && FullBefore(sent', k)
      ensures Genuine(sent'[k], stream)
    {
      assert forall j :: 0 <= j < k ==> sent'[j] == sent[j];
      assert FullBefore(sent, k);
    }
  }

  lemma EmitInv(sys: System, payload: seq<byte>)
    requires Inv(sys) && Enabled(sys, Emit(payload)) && |sys.sent| < LAP
    ensures Inv(Apply(sys, Emit(payload)))
  {
    CursorInLap(sys);
    var pkt := Packet(Cursor(sys), payload);
    if FullBefore(sys.sent, |sys.sent|) {
      CursorInside(sys.sent, Stream(sys));
      SegmentGenuine(sys.snd, Cursor(sys));
    }
    if Cursor(sys) <= sys.snd.last { Channel.SegmentSize(sys.snd, Cursor(sys)); }
    SentMore(sys.sent, Stream(sys), pkt);
    forall p: nat, b: byte | Carried(sys.sent, p, b)
      ensures Carried(sys.sent + [pkt], p, b)
    {
      CarriedMore(sys.sent, pkt, p, b);
    }
  }

  /** The cursor takes each multiple of the data size once before it wraps. */
  lemma CursorInLap(sys: System)
    ensures |sys.sent| < LAP ==> Cursor(sys) == DATA_SIZE * |sys.sent|
    ensures |sys.sent| == LAP ==> Cursor(sys) == 248
  {
    if |sys.sent| < LAP {
      WrapUnique(DATA_SIZE * |sys.sent|, 0, DATA_SIZE * |sys.sent|);
    } else if |sys.sent| == LAP {
      WrapUnique(DATA_SIZE * LAP, 1, 248);
    }
  }

  lemma SegmentGenuine(b: Buffer, p: u32)
    requires Wf(b) && ReadPos(b) == 0 && p <= b.last
    ensures Genuine(Packet(p, Channel.Segment(b, p)), Contents(b))
  {
  }

  lemma LocateNumber(last: nat, p: u32)
    requires last < TWO31
    ensures Locate(last, p) == p || Locate(last, p) < last
  {
    WrapUnique(p, 0, p);
    if p <= last + TWO31 {
      LocateExact(last, p);
    } else {
      WrapSum(p, last);
      WrapUnique(p - last, 0, p - last);
    }
  }

  /** A packet is placed at its own position, or taken for an old one and dropped. */
  lemma ArrivalExact(sys: System, k: nat)
    requires Inv(sys) && k < |sys.sent|
    ensures Arrival(sys, k) == sys.sent[k].pos || Arrival(sys, k) < sys.rcv.last
  {
    PrefixSafe(sys);
    LocateNumber(sys.rcv.last, sys.sent[k].pos);
  }

  lemma DeliverInv(sys: System, k: nat)
    requires Inv(sys) && Enabled(sys, Deliver(k))
    ensures Inv(Apply(sys, Deliver(k)))
  {
    hide Contents, Put, Pop, Locate, SentInv;
    ArrivalExact(sys, k);
    var pkt := sys.sent[k];
    var sys' := Apply(sys, Deliver(k));
    PutStores(sys.rcv, Arrival(sys, k), pkt.payload);
    if Put(sys.rcv, Arrival(sys, k), pkt.payload).0 == Stored {
      assert sys'.rcv.known == Placed(sys.rcv.known, pkt.pos, pkt.payload);
    }
    forall p: nat | p in sys'.rcv.known
      ensures Carried(sys.sent, p, sys'.rcv.known[p])
    {
      if p !in sys.rcv.known || sys'.rcv.known[p] != sys.rcv.known[p] {
        assert Carries(sys.sent[k], p) && pkt.payload[p - pkt.pos] == sys'.rcv.known[p];
      }
    }
  }

  lemma ReadInv(sys: System, n: nat)
    requires Inv(sys) && Enabled(sys, Read(n))
    ensures Inv(Apply(sys, Read(n)))
  {
    var sys' := Apply(sys, Read(n));
    PopDrops(sys.rcv, n);
    PopPositions(sys.rcv, n);
    forall p: nat | p < |sys'.out|
      ensures Carried(sys.sent, p, sys'.out[p])
    {
      HistoryCarried(sys, p);
    }
  }

  lemma StepInv(sys: System, e: Event)
    requires Inv(sys) && Enabled(sys, e) && |Apply(sys, e).sent| <= LAP
    ensures Inv(Apply(sys, e))
    ensures sys.sent <= Apply(sys, e).sent && Stream(Apply(sys, e)) == Stream(sys) + Given(sys, e)
  {
    StepGives(sys, e);
    match e
    case Upstream(data) => UpstreamInv(sys, data);
    case Emit(payload) => EmitInv(sys, payload);
    case Deliver(k) => DeliverInv(sys, k);
    case Read(n) => ReadInv(sys, n);
  }

  // ----- whole runs -----

  /** `states` is a run of `events`. */
  ghost predicate IsRun(states: seq<System>, events: seq<Event>) {
    && |states| == |events| + 1
    && (forall i :: 0 <= i < |events| ==>
         Sound(states[i]) && Enabled(states[i], events[i]) && states[i + 1] == Apply(states[i], events[i]))
  }

  lemma SentGrowsByOne(sys: System, e: Event)
    requires Sound(sys) && Enabled(sys, e)
    ensures sys.sent <= Apply(sys, e).sent
  {
  }

  lemma {:induction false} SentGrows(states: seq<System>, events: seq<Event>, i: nat, j: nat)
    requires IsRun(states, events) && i <= j < |states|
    ensures states[i].sent <= states[j].sent
  {
    if i < j {
      hide Apply, Enabled, Sound;
      SentGrows(states, events, i, j - 1);
      SentGrowsByOne(states[j - 1], events[j - 1]);
    }
  }

  lemma {:induction false} RunInv(states: seq<System>, events: seq<Event>, i: nat)
    requires IsRun(states, events) && i < |states| && Initially(states[0])
    requires |states[i].sent| <= LAP
    ensures Inv(states[i])
  {
    if i == 0 {
      InitInv(states[0]);
    } else {
      hide Apply, Enabled, Inv;
      SentGrows(states, events, i - 1, i);
      RunInv(states, events, i - 1);
      StepInv(states[i - 1], events[i - 1]);
    }
  }

  /** All data given to CreateUpstream in the first `i` steps that fitted, in order. */
  ghost function AllGiven(states: seq<System>, events: seq<Event>, i: nat): seq<byte>
    requires i <= |events| && i <= |states|
  {
    if i == 0 then [] else AllGiven(states, events, i - 1) + Given(states[i - 1], events[i - 1])
  }

  /** Over every run, of any length, the stream is what the sending application gave. */
  lemma {:induction false} StreamIsGiven(states: seq<System>, events: seq<Event>, i: nat)
    requires IsRun(states, events) && i < |states| && Initially(states[0])
    ensures Sound(states[i]) && Stream(states[i]) == AllGiven(states, events, i)
  {
    hide Apply, Enabled, Sound, Stream, Given;
    if i == 0 {
      InitSound(states[0]);
    } else {
      StreamIsGiven(states, events, i - 1);
      StepGives(states[i - 1], events[i - 1]);
      StepSound(states[i - 1], events[i - 1]);
    }
  }

  lemma InitSound(sys: System)
    requires Initially(sys)
    ensures Sound(sys) && Stream(sys) == []
  {
    InitInv(sys);
  }

  lemma StepSound(sys: System, e: Event)
    requires Sound(sys) && Enabled(sys, e)
    ensures Sound(Apply(sys, e))
  {
  }

  /** End-to-end safety over every run, as long as at most LAP packets were emitted: at
      every moment, whatever was lost, repeated or reordered, and whatever the sender
      emitted after its cursor passed the end of the stream, the bytes read followed by
      those that can be read are the first ones the sending application gave. */
  lemma EndToEnd(states: seq<System>, events: seq<Event>, i: nat)
    requires IsRun(states, events) && i < |states| && Initially(states[0])
    requires |states[i].sent| <= LAP
    ensures var sys := states[i];
      && Inv(sys) && sys.rcv.last <= |Stream(sys)|
      && sys.out + Contents(sys.rcv) == Stream(sys)[..sys.rcv.last]
      && Stream(sys) == AllGiven(states, events, i)
  {
    hide IsRun;
    RunInv(states, events, i);
    StreamIsGiven(states, events, i);
    PrefixSafe(states[i]);
  }

  /** Receiving the bytes of a packet on the wire is the step `Deliver`. */
  lemma DeliveredAsFramed(sys: System, k: nat, cuid: u16, frame: seq<byte>)
    requires Sound(sys) && Enabled(sys, Deliver(k))
    requires Frames(frame, cuid, sys.sent[k].pos, sys.sent[k].payload)
    ensures HEADER_SIZE <= |frame| && HEADER_SIZE + frame[2] <= |frame|
    ensures var r := Unframe(frame);
      && Reaches(sys.rcv, Locate(sys.rcv.last, r.seq_), r.payload)
      && Apply(sys, Deliver(k)) == sys.(rcv := Put(sys.rcv, Locate(sys.rcv.last, r.seq_), r.payload).1)
  {
    hide Put, Locate, Reaches, Frames, Unframe;
    FrameRoundTrip(frame, cuid, sys.sent[k].pos, sys.sent[k].payload);
  }

  /** Cutting a packet is the step `Emit`: a channel whose head node starts at 0 and
      whose 32-bit cursor agrees with the system's cuts at the system's position, and
      its cursor agrees again afterwards. */
  lemma EmittedAsCut(sys: System, payload: seq<byte>)
    requires Sound(sys) && Enabled(sys, Emit(payload))
    ensures Channel.CursorPos(sys.snd, 0, Cursor(sys), 0) == Cursor(sys)
    ensures Cursor(Apply(sys, Emit(payload))) == Wrap(Cursor(sys) + DATA_SIZE)
    ensures Apply(sys, Emit(payload)).marked == (sys.marked && Channel.StaysMarked(sys.snd, Cursor(sys)))
  {
    var c := Cursor(sys);
    WrapUnique(c + DATA_SIZE * 0 - 0, 0, c);
    WrapSum(DATA_SIZE * |sys.sent|, DATA_SIZE);
  }

  /** The price of moving the cursor by a full data size: once a short packet has been
      emitted, no later event of the lap gets the receiver past the end of that packet,
      however much is written to the stream afterwards. */
  lemma ShortPacketIsFinal(states: seq<System>, events: seq<Event>, i: nat, j: nat, k: nat)
    requires IsRun(states, events) && i <= j < |states| && Initially(states[0])
    requires |states[j].sent| <= LAP
    requires k < |states[i].sent| && Short(states[i].sent[k])
    ensures states[j].rcv.last <= DATA_SIZE * k + |states[i].sent[k].payload|
  {
    SentGrows(states, events, i, j);
    RunInv(states, events, j);
    StuckAtShort(states[j], k);
  }

  // ----- what can be received at all -----

  ghost function FirstShort(sent: seq<Packet>): (r: nat)
    ensures r <= |sent| && FullBefore(sent, r) && (r < |sent| ==> Short(sent[r]))
  {
    if |sent| == 0 then 0
    else
      var r := FirstShort(sent[..|sent| - 1]);
      if r < |sent| - 1 || Short(sent[|sent| - 1]) then r else |sent|
  }

  /** The end of the first short packet, or of all packets if none is short. */
  ghost function Limit(sent: seq<Packet>): nat {
    var r := FirstShort(sent);
    DATA_SIZE * r + if r < |sent| then |sent[r].payload| else 0
  }

  /** The limit is exact: every stream byte before it is in some packet, the position at
      it is in none, and the receiver is never beyond it. */
  lemma LimitExact(sys: System)
    requires Inv(sys)
    ensures Limit(sys.sent) <= |Stream(sys)|
    ensures forall p: nat :: p < Limit(sys.sent) ==> Carried(sys.sent, p, Stream(sys)[p])
    ensures forall b: byte :: !Carried(sys.sent, Limit(sys.sent), b)
    ensures sys.rcv.last <= Limit(sys.sent)
  {
    var (sent, stream) := (sys.sent, Stream(sys));
    var r := FirstShort(sent);
    LimitInside(sent, stream);
    forall p: nat | p < Limit(sent)
      ensures Carried(sent, p, stream[p])
    {
      CarriedBelow(sent, stream, p);
    }
    forall k | 0 <= k < |sent|
      ensures !Carries(sent[k], Limit(sent))
    {
      if r < |sent| { GapNotCarried(sent, stream, r, k); }
    }
    if Limit(sent) < sys.rcv.last { HistoryCarried(sys, Limit(sent)); }
  }

  lemma LimitInside(sent: seq<Packet>, stream: seq<byte>)
    requires SentInv(sent, stream)
    ensures Limit(sent) <= |stream|
  {
    var r := FirstShort(sent);
    if r < |sent| {
      assert Genuine(sent[r], stream);
    } else {
      CursorInside(sent, stream);
    }
  }

  lemma CarriedBelow(sent: seq<Packet>, stream: seq<byte>, p: nat)
    requires SentInv(sent, stream) && p < Limit(sent) && p < |stream|
    ensures Carried(sent, p, stream[p])
  {
    var k := p / DATA_SIZE;
    assert p == DATA_SIZE * k + p % DATA_SIZE;
    var r := FirstShort(sent);
    assert k <= r && FullBefore(sent, k);
    assert Genuine(sent[k], stream);
    assert Carries(sent[k], p);
  }

  // ----- delivery in any order -----

  /** The receiver would accept packet `k` now. */
  ghost predicate Takes(sys: System, k: nat)
    requires k < |sys.sent|
  {
    Put(sys.rcv, Arrival(sys, k), sys.sent[k].payload).0 == Stored
  }

  /** Packet `k` has been accepted in the first `i` steps. */
  ghost predicate Took(states: seq<System>, events: seq<Event>, i: nat, k: nat) {
    exists j :: 0 <= j < i && TakesAt(states, events, j, k)
  }

  ghost predicate TakesAt(states: seq<System>, events: seq<Event>, j: nat, k: nat) {
    j < |states| && j < |events| && events[j] == Deliver(k) && k < |states[j].sent| && Takes(states[j], k)
  }

  /** Step `i` accepts a packet that carries position `p`. */
  ghost predicate TakesCarrier(states: seq<System>, events: seq<Event>, i: nat, p: nat)
    requires i < |states| && i < |events|
  {
    var e := events[i];
    e.Deliver? && TakesAt(states, events, i, e.k) && Carries(states[i].sent[e.k], p)
  }

  /** A packet that carries position `p` has been accepted in the first `i` steps. */
  ghost predicate TookCarrier(states: seq<System>, events: seq<Event>, i: nat, p: nat)
    requires i < |states|
  {
    exists k :: 0 <= k < |states[i].sent| && Carries(states[i].sent[k], p) && Took(states, events, i, k)
  }

  /** The byte at `p` is read or in the buffer. */
  ghost predicate Held(b: Buffer, p: nat) {
    p < ReadPos(b) || p in b.known
  }

  lemma HeldBelowLast(b: Buffer, p: nat)
    requires Wf(b)
    ensures p < b.last ==> Held(b, p)
    ensures p == b.last ==> !Held(b, p)
  {
    LastIsFirstGap(b);
  }

  lemma HeldStep(sys: System, e: Event, p: nat)
    requires Inv(sys) && Enabled(sys, e)
    ensures Held(Apply(sys, e).rcv, p) <==>
      Held(sys.rcv, p) || (e.Deliver? && Takes(sys, e.k) && Carries(sys.sent[e.k], p))
  {
    match e
    case Upstream(_) =>
    case Emit(_) =>
    case Deliver(k) => HeldDelivered(sys, k, p);
    case Read(n) => HeldRead(sys, n, p);
  }

  lemma HeldDelivered(sys: System, k: nat, p: nat)
    requires Inv(sys) && Enabled(sys, Deliver(k))
    ensures Held(Apply(sys, Deliver(k)).rcv, p) <==> Held(sys.rcv, p) || (Takes(sys, k) && Carries(sys.sent[k], p))
  {
    hide Contents, Put, Locate, SentInv, Reaches, Wf;
    ArrivalExact(sys, k);
    PutStores(sys.rcv, Arrival(sys, k), sys.sent[k].payload);
  }

  lemma HeldRead(sys: System, n: nat, p: nat)
    requires Inv(sys) && Enabled(sys, Read(n))
    ensures Held(Apply(sys, Read(n)).rcv, p) <==> Held(sys.rcv, p)
  {
    hide Contents, Wf, SentInv, Pop;
    PopPositions(sys.rcv, n);
    HeldBelowLast(sys.rcv, p);
  }

  lemma TookStep(states: seq<System>, events: seq<Event>, i: nat, k: nat)
    ensures Took(states, events, i + 1, k) <==> Took(states, events, i, k) || TakesAt(states, events, i, k)
  {
  }

  /** Only packets that exist are accepted. */
  lemma TookExists(states: seq<System>, events: seq<Event>, i: nat, k: nat)
    requires IsRun(states, events) && i < |states|
    ensures Took(states, events, i, k) ==> k < |states[i].sent|
  {
    hide Apply, Enabled, Takes, Sound, IsRun;
    if j :| 0 <= j < i && TakesAt(states, events, j, k) {
      SentGrows(states, events, j, i);
    }
  }

  lemma CarrierStep(states: seq<System>, events: seq<Event>, i: nat, p: nat)
    requires IsRun(states, events) && i < |events|
    ensures TookCarrier(states, events, i + 1, p) <==>
      TookCarrier(states, events, i, p) || TakesCarrier(states, events, i, p)
  {
    hide Apply, Enabled, Sound, Takes, Took, Carries;
    SentGrows(states, events, i, i + 1);
    var (sent, sent') := (states[i].sent, states[i + 1].sent);
    if k :| 0 <= k < |sent| && Carries(sent[k], p) && Took(states, events, i, k) {
      TookStep(states, events, i, k);
      assert sent'[k] == sent[k];
    }
    if TakesCarrier(states, events, i, p) {
      var k := events[i].k;
      TookStep(states, events, i, k);
      assert sent'[k] == sent[k];
    }
    if k :| 0 <= k < |sent'| && Carries(sent'[k], p) && Took(states, events, i + 1, k) {
      TookStep(states, events, i, k);
      TookExists(states, events, i, k);
      assert k < |sent| && sent'[k] == sent[k];
    }
  }

  /** A position is held exactly when a packet that carries it has been accepted. */
  lemma {:induction false} HeldExactly(states: seq<System>, events: seq<Event>, i: nat, p: nat)
    requires IsRun(states, events) && i < |states| && Initially(states[0])
    requires |states[i].sent| <= LAP
    ensures Held(states[i].rcv, p) <==> TookCarrier(states, events, i, p)
  {
    hide Apply, Enabled, Inv, Held, Takes, TookCarrier, Carries;
    if i == 0 {
      NothingHeld(states, events, p);
    } else {
      SentGrows(states, events, i - 1, i);
      HeldExactly(states, events, i - 1, p);
      RunInv(states, events, i - 1);
      CarrierStep(states, events, i - 1, p);
      HeldStep(states[i - 1], events[i - 1], p);
      if events[i - 1].Deliver? { DeliverPossible(states[i - 1], events[i - 1]); }
    }
  }

  lemma NothingHeld(states: seq<System>, events: seq<Event>, p: nat)
    requires |states| > 0 && Initially(states[0])
    ensures !Held(states[0].rcv, p) && !TookCarrier(states, events, 0, p)
  {
  }

  lemma DeliverPossible(sys: System, e: Event)
    requires Sound(sys) && e.Deliver? && Enabled(sys, e)
    ensures e.k < |sys.sent|
  {
  }

  /** The packet that carries a position below the limit. */
  lemma CarrierBelow(sent: seq<Packet>, stream: seq<byte>, p: nat)
    requires SentInv(sent, stream) && p < Limit(sent)
    ensures var k := p / DATA_SIZE; k <= FirstShort(sent) && k < |sent| && Carries(sent[k], p)
  {
    hide FirstShort, Genuine;
    var (k, r) := (p / DATA_SIZE, FirstShort(sent));
    assert p == DATA_SIZE * k + p % DATA_SIZE;
    if k < r { assert !Short(sent[k]); } else { assert k == r; }
  }

  /** When everything that can be received has been: in the first lap, at every moment and
      after deliveries in any order, the receiver is at the limit if and only if every
      packet up to the first short one, unless it is empty, has been accepted at least
      once. */
  lemma ReceivedExactly(states: seq<System>, events: seq<Event>, i: nat)
    requires IsRun(states, events) && i < |states| && Initially(states[0])
    requires |states[i].sent| <= LAP
    ensures var (sys, sent) := (states[i], states[i].sent);
      sys.rcv.last == Limit(sent) <==>
        forall k :: 0 <= k < |sent| && k <= FirstShort(sent) && sent[k].payload != [] ==> Took(states, events, i, k)
  {
    hide IsRun, Held, Initially, Wf, Took, Limit, FirstShort, SentInv, Contents;
    RunInv(states, events, i);
    var (sys, sent) := (states[i], states[i].sent);
    LimitExact(sys);
    if sys.rcv.last == Limit(sent) {
      forall k | 0 <= k < |sent| && k <= FirstShort(sent) && sent[k].payload != []
        ensures Took(states, events, i, k)
      {
        LastMeansTook(states, events, i, k);
      }
    } else {
      var p := sys.rcv.last;
      CarrierBelow(sent, Stream(sys), p);
      HeldExactly(states, events, i, p);
      HeldBelowLast(sys.rcv, p);
      assert !Took(states, events, i, p / DATA_SIZE);
    }
  }

  lemma BelowLimit(sent: seq<Packet>, stream: seq<byte>, k: nat)
    requires SentInv(sent, stream) && k < |sent| && k <= FirstShort(sent) && sent[k].payload != []
    ensures DATA_SIZE * k < Limit(sent)
  {
    hide FirstShort, Genuine, SentInv;
  }

  lemma LastMeansTook(states: seq<System>, events: seq<Event>, i: nat, k: nat)
    requires IsRun(states, events) && i < |states| && Initially(states[0])
    requires |states[i].sent| <= LAP
    requires k < |states[i].sent| && k <= FirstShort(states[i].sent) && states[i].sent[k].payload != []
    requires states[i].rcv.last == Limit(states[i].sent)
    ensures Took(states, events, i, k)
  {
    hide IsRun, Held, Initially, Wf, Took, Limit, FirstShort, SentInv, Contents;
    RunInv(states, events, i);
    var (sys, sent) := (states[i], states[i].sent);
    var p := DATA_SIZE * k;
    BelowLimit(sent, Stream(sys), k);
    HeldBelowLast(sys.rcv, p);
    HeldExactly(states, events, i, p);
    var j :| 0 <= j < |sent| && Carries(sent[j], p) && Took(states, events, i, j);
    CarrierUnique(sent, Stream(sys), j, p);
  }

  // ----- delivery in order -----

  /** A run of deliveries leads from one state to the other. */
  ghost predicate Delivers(sys: System, sys': System) {
    exists states: seq<System>, events: seq<Event> ::
      && IsRun(states, events) && states[0] == sys && states[|events|] == sys'
      && forall i :: 0 <= i < |events| ==> events[i].Deliver?
  }

  lemma RunMore(states: seq<System>, events: seq<Event>, e: Event)
    requires IsRun(states, events) && Sound(states[|events|]) && Enabled(states[|events|], e)
    ensures IsRun(states + [Apply(states[|events|], e)], events + [e])
  {
    hide Apply, Enabled, Sound;
    var (states', events') := (states + [Apply(states[|events|], e)], events + [e]);
    forall i | 0 <= i < |events'|
      ensures Sound(states'[i]) && Enabled(states'[i], events'[i]) && states'[i + 1] == Apply(states'[i], events'[i])
    {
      if i < |events| {
        assert states'[i] == states[i] && states'[i + 1] == states[i + 1] && events'[i] == events[i];
      }
    }
  }

  lemma DeliversMore(sys: System, sys': System, k: nat)
    requires Delivers(sys, sys') && Sound(sys') && Enabled(sys', Deliver(k))
    ensures Delivers(sys, Apply(sys', Deliver(k)))
  {
    hide Apply, Enabled, Sound;
    var states: seq<System>, events: seq<Event> :|
      && IsRun(states, events) && states[0] == sys && states[|events|] == sys'
      && forall i :: 0 <= i < |events| ==> events[i].Deliver?;
    RunMore(states, events, Deliver(k));
    var (states', events') := (states + [Apply(sys', Deliver(k))], events + [Deliver(k)]);
    assert states'[0] == sys && states'[|events'|] == Apply(sys', Deliver(k));
  }

  lemma DeliversNone(sys: System)
    ensures Delivers(sys, sys)
  {
    assert IsRun([sys], []);
  }

  /** The packet everyone waits for is accepted by a receiver with nothing tracked. */
  lemma DeliverNext(sys: System, k: nat)
    requires Sound(sys) && sys.rcv.blocks == [] && k < |sys.sent|
    requires sys.sent[k].pos == sys.rcv.last && Fits(sys.rcv, sys.rcv.last, |sys.sent[k].payload|)
    ensures Enabled(sys, Deliver(k))
    ensures var r := Apply(sys, Deliver(k));
      && r == sys.(rcv := r.rcv) && r.rcv.blocks == [] && ReadPos(r.rcv) == ReadPos(sys.rcv)
      && r.rcv.base == sys.rcv.base && r.rcv.last == sys.rcv.last + |sys.sent[k].payload|
  {
    hide Put, Reaches, Locate, Fits, Contents;
    var (b, data) := (sys.rcv, sys.sent[k].payload);
    WrapUnique(b.last, 0, b.last);
    LocateExact(b.last, b.last);
    PutAppends(b, data);
    PutStores(b, b.last, data);
    Channel.AppendReaches(b, data);
  }

  /** The full packets, from number `k` on, delivered in order up to number `n`. */
  lemma {:induction false} CatchUpTo(sys: System, k: nat, n: nat) returns (end: System)
    requires Inv(sys) && k <= n <= FirstShort(sys.sent)
    requires sys.rcv.blocks == [] && sys.rcv.last == DATA_SIZE * k
    requires (DATA_SIZE * n - sys.rcv.base) / NODE_SIZE + 2 <= WINDOW_SIZE
    ensures Delivers(sys, end) && Sound(end) && end == sys.(rcv := end.rcv)
    ensures end.rcv.blocks == [] && end.rcv.last == DATA_SIZE * n && end.rcv.base == sys.rcv.base
  {
    hide Delivers, Apply, Enabled, Contents, Wf;
    if n == k {
      DeliversNone(sys);
      end := sys;
    } else {
      var mid := CatchUpTo(sys, k, n - 1);
      assert mid.sent == sys.sent && !Short(sys.sent[n - 1]);
      DeliverNext(mid, n - 1);
      DeliversMore(sys, mid, n - 1);
      end := Apply(mid, Deliver(n - 1));
    }
  }

  /** The limit is reached: from any moment of the lap at which the receiver has exactly
      the first `k` packets, delivering the others in order brings it all the bytes up to
      the limit, if these fit in its window. */
  lemma CatchUp(sys: System, k: nat) returns (end: System)
    requires Inv(sys) && k <= FirstShort(sys.sent)
    requires sys.rcv.blocks == [] && sys.rcv.last == DATA_SIZE * k
    requires (Limit(sys.sent) - sys.rcv.base) / NODE_SIZE + 2 <= WINDOW_SIZE
    ensures Delivers(sys, end) && Sound(end) && end == sys.(rcv := end.rcv)
    ensures end.rcv.last == Limit(sys.sent)
  {
    hide Delivers, Apply, Enabled, Contents, Wf;
    var r := FirstShort(sys.sent);
    end := CatchUpTo(sys, k, r);
    if r < |sys.sent| {
      var mid := end;
      DeliverNext(mid, r);
      DeliversMore(sys, mid, r);
      end := Apply(mid, Deliver(r));
    }
  }

  // ----- the second lap -----

  ghost predicate Reachable(sys: System) {
    exists states, events :: IsRun(states, events) && Initially(states[0]) && states[|events|] == sys
  }

  /** Read and readable bytes of the receiver are a prefix of the stream. */
  ghost predicate Safe(sys: System) {
    && Sound(sys) && |sys.out| == ReadPos(sys.rcv)
    && sys.rcv.last <= |Stream(sys)| && History(sys) == Stream(sys)[..sys.rcv.last]
  }

  lemma ReachMore(sys: System, e: Event)
    requires Reachable(sys) && Sound(sys) && Enabled(sys, e)
    ensures Reachable(Apply(sys, e))
  {
    hide Apply, Enabled, Sound, Initially;
    var states, events :| IsRun(states, events) && Initially(states[0]) && states[|events|] == sys;
    RunMore(states, events, e);
    var (states', events') := (states + [Apply(sys, e)], events + [e]);
    assert states'[0] == states[0] && states'[|events'|] == Apply(sys, e);
  }

  /** A short first packet, then full ones cut from stale memory, then empty ones; the
      stream has not grown. */
  ghost predicate Lapped(sys: System, k: nat) {
    && Sound(sys) && sys.snd.last == 248 && |sys.sent| == k
    && (k > 0 ==> sys.sent[0].pos == 0 && |sys.sent[0].payload| == 248)
    && (k > 1 ==> sys.sent[1].pos == DATA_SIZE && |sys.sent[1].payload| == DATA_SIZE)
    && (forall j :: 9 <= j < k ==> sys.sent[j].pos == DATA_SIZE * j && sys.sent[j].payload == [])
  }

  /** The same, and nothing has been delivered. */
  ghost predicate Lapping(sys: System, k: nat) {
    Lapped(sys, k) && Blank(sys.rcv)
  }

  /** CreateUpstream with `data` grows the stream, or, with no data, only marks the channel. */
  lemma UpstreamGrows(sys: System, data: seq<byte>)
    requires Sound(sys) && sys.snd.last + |data| <= NODE_SIZE
    ensures Enabled(sys, Upstream(data))
    ensures var r := Apply(sys, Upstream(data));
      r == sys.(snd := r.snd, marked := true) && r.snd.last == sys.snd.last + |data|
  {
    hide Put, Contents;
    PutAppends(sys.snd, data);
    PutStores(sys.snd, sys.snd.last, data);
  }

  /** One more packet of the first lap: mark the channel and cut at the cursor. */
  lemma LapStep(sys: System, k: nat) returns (sys': System)
    requires Reachable(sys) && Lapping(sys, k) && k < LAP
    ensures Reachable(sys') && Lapping(sys', k + 1)
  {
    hide Reachable, Put, Contents, Wf, Fits;
    UpstreamGrows(sys, []);
    ReachMore(sys, Upstream([]));
    var s := Apply(sys, Upstream([]));
    CursorInLap(s);
    var size := if k == 0 then 248 else if DATA_SIZE * k < NODE_SIZE then DATA_SIZE else 0;
    var payload := if k == 0 then Channel.Segment(s.snd, 0) else seq(size, i => 0);
    ReachMore(s, Emit(payload));
    sys' := Apply(s, Emit(payload));
  }

  lemma {:induction false} FirstLap(k: nat) returns (sys: System)
    requires k <= LAP
    ensures Reachable(sys) && Lapping(sys, k)
  {
    hide Reachable, Lapping;
    if k == 0 {
      sys := Beginning();
    } else {
      var before := FirstLap(k - 1);
      sys := LapStep(before, k - 1);
    }
  }

  lemma SomeBeginning() returns (init: System)
    ensures Initially(init)
  {
    init := System(Start(0), false, [], Start(0), []);
  }

  /** A stream of 248 bytes before the first packet. */
  lemma Beginning() returns (sys: System)
    ensures Reachable(sys) && Lapping(sys, 0)
  {
    hide Put, Wf, Contents;
    var init := SomeBeginning();
    BlankWf(init.snd);
    BlankWf(init.rcv);
    assert IsRun([init], []);
    var data := seq(248, i => 0);
    UpstreamGrows(init, data);
    ReachMore(init, Upstream(data));
    sys := Apply(init, Upstream(data));
  }

  /** One packet too many.  The stream grows to 488 bytes; packet number LAP, with the
      number 248, brings those that were missing after the first packet; the packet cut
      from stale memory at 488 then joins them, and the receiver reads past the stream. */
  lemma OnePacketTooMany() returns (sys: System)
    ensures Reachable(sys) && |sys.sent| == LAP + 1 && !Safe(sys)
    ensures Short(sys.sent[0]) && sys.rcv.last > sys.sent[0].pos + |sys.sent[0].payload|
    ensures Sound(sys) && |Stream(sys)| == 488 && sys.rcv.last == 976
  {
    hide Reachable, Put, Wf, Reaches, Locate;
    var a := FirstLap(LAP);
    UpstreamGrows(a, seq(240, i => 0));
    ReachMore(a, Upstream(seq(240, i => 0)));
    var b := Apply(a, Upstream(seq(240, i => 0)));
    CursorInLap(b);
    ReachMore(b, Emit(Channel.Segment(b.snd, 248)));
    var c := Apply(b, Emit(Channel.Segment(b.snd, 248)));
    DeliverNext(c, 0);
    ReachMore(c, Deliver(0));
    var d := Apply(c, Deliver(0));
    DeliverNext(d, LAP);
    ReachMore(d, Deliver(LAP));
    var e := Apply(d, Deliver(LAP));
    DeliverNext(e, 1);
    ReachMore(e, Deliver(1));
    sys := Apply(e, Deliver(1));
  }

  /** Empty packets, number 9 and following, arrive at a receiver that has nothing. */
  lemma {:induction false} EmptyArrivals(n: nat) returns (sys: System)
    requires n <= MAX_BLOCKS
    ensures Reachable(sys) && Lapped(sys, 17) && EmptyTracked(sys.rcv, n)
  {
    hide Reachable, Put, Wf, Locate;
    if n == 0 {
      sys := FirstLap(17);
      BlankWf(sys.rcv);
      assert EmptyTracked(sys.rcv, 0);
    } else {
      var s := EmptyArrivals(n - 1);
      var k := 8 + n;
      WrapUnique(DATA_SIZE * k, 0, DATA_SIZE * k);
      LocateExact(s.rcv.last, DATA_SIZE * k);
      TrackEmpty(s.rcv, n - 1);
      ReachMore(s, Deliver(k));
      sys := Apply(s, Deliver(k));
    }
  }

  /** The packet everyone waits for can be refused in a run: packets 9 to 16, empty ones,
      are delivered first; packet 0 is then turned away, although nothing was received. */
  lemma WaitedForRefused() returns (sys: System)
    ensures Reachable(sys) && |sys.sent| == 17 && Sound(sys) && sys.rcv.last == 0
    ensures sys.sent[0].pos == 0 && |sys.sent[0].payload| == 248
    ensures Put(sys.rcv, Arrival(sys, 0), sys.sent[0].payload).0 == TooManyBlocks
  {
    hide Reachable, Put, Wf, Locate;
    sys := EmptyArrivals(MAX_BLOCKS);
    WrapUnique(0, 0, 0);
    LocateExact(0, 0);
    FirstPacketRefused(sys.rcv, sys.sent[0].payload);
  }

  lemma ReachableSafe(sys: System)
    requires Reachable(sys) && |sys.sent| <= LAP
    ensures Safe(sys)
  {
    var states, events :| IsRun(states, events) && Initially(states[0]) && states[|events|] == sys;
    RunInv(states, events, |events|);
    PrefixSafe(sys);
  }

  /** The bound is exact: all states reachable with at most `n` packets are safe if and
      only if `n` is at most LAP. */
  lemma LapIsExact(n: nat)
    ensures (forall sys :: Reachable(sys) && |sys.sent| <= n ==> Safe(sys)) <==> n <= LAP
  {
    hide Reachable, Safe;
    if n <= LAP {
      forall sys | Reachable(sys) && |sys.sent| <= n
        ensures Safe(sys)
      {
        ReachableSafe(sys);
      }
    } else {
      var sys := OnePacketTooMany();
      assert Reachable(sys) && |sys.sent| <= n && !Safe(sys);
    }
  }
}
