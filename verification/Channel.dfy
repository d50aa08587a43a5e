/** One rdt_stream channel: CreateUpstream, one packet of Send, and receive. */
module Channel {
  import opened SeqNum
  import opened UnsequencedBlocks
  import opened StreamBuffer
  import opened NodeChains
  import opened WindowSteps
  import opened WindowedQueue
  import opened Framing

  /** The bytes the packet at position `p` should carry. */
  function Segment(b: Buffer, p: int): (s: seq<byte>)
    requires Wf(b) && ReadPos(b) <= p <= b.last
    ensures |s| == if b.last - p < DATA_SIZE then b.last - p else DATA_SIZE
  {
    var n := if b.last - p < DATA_SIZE then b.last - p else DATA_SIZE;
    Contents(b)[p - ReadPos(b)..p - ReadPos(b) + n]
  }

  /** The position of the k-th packet from now in a window whose head node starts at
      `head`, if the cursor is at `next`; both are 32-bit numbers. */
  function CursorPos(b: Buffer, head: u32, next: u32, k: nat): int {
    b.base + Wrap(next + DATA_SIZE * k - head)
  }

  /** What a packet cut at position `q` carries.  Up to the contiguous end: its segment.
      Past it, the unsigned length of altusWQPeek makes Send copy a full packet of stale
      memory, or, past the last node, send an empty one. */
  ghost predicate Cut(b: Buffer, q: int, payload: seq<byte>)
    requires Wf(b) && ReadPos(b) <= q
  {
    if q <= b.last then payload == Segment(b, q)
    else |payload| == if q < SafeBase(b) + NODE_SIZE then DATA_SIZE else 0
  }

  /** Whether the packet cut at `q` leaves the channel marked as updated: unless its
      second Peek finds nothing. */
  predicate StaysMarked(b: Buffer, q: int) {
    if q <= b.last then
      q + DATA_SIZE <= b.last || (q - b.base) % NODE_SIZE + (b.last - q) > NODE_SIZE
    else q < SafeBase(b) + NODE_SIZE
  }

  /** The segment at `p` is the first piece, as far as a packet takes it, or begins with
      it and goes on with the second; that one is empty exactly when the segment ends
      within the node. */
  ghost predicate Supplies(b: Buffer, p: int, first: seq<byte>, second: seq<byte>)
    requires Wf(b) && ReadPos(b) <= p <= b.last
  {
    var want := Segment(b, p);
    && (|first| >= DATA_SIZE ==> want == first[..DATA_SIZE])
    && (|first| < DATA_SIZE ==>
         && |want| <= |first| + |second| && want == (first + second)[..|want|] && |first| <= |want|
         && (|want| < DATA_SIZE ==> |first| + |second| == |want|)
         && (second == [] <==> (p - b.base) % NODE_SIZE + |want| <= NODE_SIZE))
  }

  /** `n` packets were cut because every one but the last left the channel marked. */
  ghost predicate MarkedThrough(b: Buffer, head: u32, next: u32, n: nat, marked: bool) {
    && (forall k: nat :: k + 1 < n ==> StaysMarked(b, CursorPos(b, head, next, k)))
    && (n > 0 ==> (marked <==> StaysMarked(b, CursorPos(b, head, next, n - 1))))
  }

  class Channel {
    const buffer: Window
    var nextSendSeq: u32
    var isUpdated: bool

    /** The position the next packet is cut at. */
    ghost function SendPos(): int
      reads this, buffer
    {
      PeekPos(buffer.buf, buffer.headSeq, nextSendSeq)
    }

    /** LinkRDTWindow on a new channel. */
    constructor (ghost origin: nat)
      requires Wrap(origin) == 0
      ensures buffer.Valid() && buffer.buf == Start(origin) && buffer.headSeq == 0 && buffer.Tight()
      ensures nextSendSeq == 0 && !isUpdated && fresh(buffer)
    {
      buffer := new Window(origin);
      nextSendSeq, isUpdated := 0, false;
    }

    /** CreateUpstream: append at the contiguous end. */
    method CreateUpstream(pool: Pool, data: seq<byte>) returns (code: PutCode)
      requires buffer.Valid() && pool.Valid() && Apart(buffer.chain, pool.chain)
      requires buffer.buf.blocks == [] && buffer.Tight() && |data| < TWO31
      modifies this, buffer, buffer.ub, buffer.ub.headSeq, buffer.ub.tailSeq, pool
      modifies Nodes(buffer.chain), Nodes(pool.chain), Arrays(buffer.chain), Arrays(pool.chain)
      ensures buffer.Valid() && pool.Valid() && Apart(buffer.chain, pool.chain)
      ensures buffer.buf.blocks == [] && buffer.Tight() && buffer.headSeq == old(buffer.headSeq)
      ensures isUpdated && nextSendSeq == old(nextSendSeq)
      ensures code == if Fits(old(buffer.buf), old(buffer.buf.last), |data|) then Stored else WindowFull
      ensures Contents(buffer.buf) == old(Contents(buffer.buf)) + if code == Stored then data else []
      ensures ReadPos(buffer.buf) == old(ReadPos(buffer.buf)) && buffer.buf.base == old(buffer.buf.base)
      ensures (code, buffer.buf) == StreamBuffer.Put(old(buffer.buf), old(buffer.buf.last), data)
    {
      hide Window.Valid, Pool.Valid, Apart, Wf, Contents, StreamBuffer.Put, Reaches, Fits, Locate, Moved;
      ghost var b := buffer.buf;
      buffer.Basics();
      LocateExact(b.last, b.last);
      PutAppends(b, data);
      PutStores(b, b.last, data);
      AppendReaches(b, data);
      code := buffer.Put(pool, buffer.lastSeq, data);
      buffer.Basics();
      Alone(pool, buffer.chain);
      Alone(pool, pool.chain);
      isUpdated := true;
    }

    /** The two Peeks of Send.  Up to the contiguous end they offer at least what the
        packet at the send position should carry, in one or two pieces. */
    method Gather(beyond: seq<byte>) returns (first: seq<byte>, second: seq<byte>)
      requires buffer.Valid() && ReadPos(buffer.buf) <= SendPos() && |beyond| == DATA_SIZE
      requires SendPos() <= buffer.buf.last || buffer.Tight()
      ensures buffer.Valid()
      ensures SendPos() <= buffer.buf.last ==> Supplies(buffer.buf, SendPos(), first, second)
      ensures SendPos() > buffer.buf.last ==>
        && |first| == (if SendPos() < SafeBase(buffer.buf) + NODE_SIZE then DATA_SIZE else 0)
        && second == []
    {
      hide Window.Valid, Wf, Contents, Wrap, Supplies, SafeBase, Offers;
      buffer.Basics();
      ghost var p, b := SendPos(), buffer.buf;
      first := PeekBytes(nextSendSeq, beyond, p);
      second := [];
      if |first| < DATA_SIZE {
        if p <= b.last { assert p + |first| <= b.last by { OffersInside(b, p, |first|); } }
        PeekAgain(nextSendSeq, buffer.headSeq, |first|);
        second := PeekBytes(Wrap(nextSendSeq + |first|), beyond, p + |first|);
      }
      if p <= b.last { Gathered(b, p, first, second); }
    }

    /** The bytes one Peek points at: the rest of the node, or of the stream.  A length
        that leads out of the node, being negative before the cast, gets `beyond`, the
        memory after the node's buffer, as far as a packet takes it. */
    method PeekBytes(seq_: u32, beyond: seq<byte>, ghost q: int) returns (bytes: seq<byte>)
      requires buffer.Valid() && q == buffer.buf.base + Wrap(seq_ - buffer.headSeq)
      requires ReadPos(buffer.buf) <= q && |beyond| == DATA_SIZE
      requires q <= buffer.buf.last || buffer.Tight()
      ensures buffer.Valid() && Wf(buffer.buf)
      ensures var b := buffer.buf; var at := q - ReadPos(b); q <= b.last ==>
        Offers(b, q, |bytes|) && bytes == Contents(b)[at..at + |bytes|]
      ensures q > buffer.buf.last ==>
        |bytes| == if q < SafeBase(buffer.buf) + NODE_SIZE then DATA_SIZE else 0
    {
      hide Window.Valid, Wf, Contents, Wrap;
      buffer.Basics();
      if q > buffer.buf.last { buffer.TightEnd(); }
      var len, node, off := buffer.Peek(seq_);
      buffer.Basics();
      bytes := [];
      if node != null {
        assert node.data.Length == NODE_SIZE;
        Unsigned(len);
        if Wrap(len) <= NODE_SIZE - off {
          bytes := node.data[off..off + Wrap(len)];
        } else {
          bytes := (node.data[off..] + beyond)[..DATA_SIZE];
        }
      }
    }

    /** One rdt_stream packet of Send.  The cursor moves by a full data size whether
        or not the packet was full.  The packet carries the number of the position it was
        cut at exactly if the head node starts at headSeq. */
    method EmitPacket(cuid: u16, beyond: seq<byte>) returns (frame: seq<byte>, ghost payload: seq<byte>)
      requires buffer.Valid() && ReadPos(buffer.buf) <= SendPos() && |beyond| == DATA_SIZE
      requires SendPos() <= buffer.buf.last || buffer.Tight()
      modifies this
      ensures buffer.Valid()
      ensures Cut(buffer.buf, old(SendPos()), payload)
      ensures Frames(frame, cuid, old(nextSendSeq), payload)
      ensures nextSendSeq == Wrap(old(nextSendSeq) + DATA_SIZE)
      ensures isUpdated == (old(isUpdated) && StaysMarked(buffer.buf, old(SendPos())))
      ensures Wrap(old(SendPos())) == old(nextSendSeq) <==> buffer.headSeq == Wrap(buffer.buf.base)
    {
      hide Window.Valid, Wf, Wrap, Frames, Cut, StaysMarked, Supplies, SafeBase, PeekPos;
      buffer.Basics();
      ghost var p := SendPos();
      PeekPosExact(buffer.buf, buffer.headSeq, nextSendSeq);
      var first, second := Gather(beyond);
      buffer.Basics();
      CutFrom(buffer.buf, p, first, second);
      payload := Payload(first, second);
      AloneHere();
      if |first| >= DATA_SIZE {
        frame := Assemble(cuid, nextSendSeq, first[..DATA_SIZE], []);
        assert first[..DATA_SIZE] + [] == payload;
      } else {
        var sendingLen := |first| + |second|;
        if sendingLen > DATA_SIZE {
          sendingLen := DATA_SIZE;
        }
        frame := Assemble(cuid, nextSendSeq, first, second[..sendingLen - |first|]);
        assert first + second[..sendingLen - |first|] == payload;
        if second == [] {
          isUpdated := false;
        }
      }
      nextSendSeq := Wrap(nextSendSeq + DATA_SIZE);
    }

    /** The receiving rdt_stream case of channel::receive.  The result asks for an
        acknowledgement whatever the flags say, and whatever became of the packet. */
    method Receive(pool: Pool, frame: seq<byte>) returns (wantsAck: bool)
      requires buffer.Valid() && pool.Valid() && Apart(buffer.chain, pool.chain)
      requires HEADER_SIZE <= |frame| < TWO31 && HEADER_SIZE + frame[2] <= |frame|
      requires var r := Unframe(frame); Reaches(buffer.buf, Locate(buffer.buf.last, r.seq_), r.payload)
      modifies buffer, buffer.ub, buffer.ub.headSeq, buffer.ub.tailSeq, pool
      modifies Nodes(buffer.chain), Nodes(pool.chain), Arrays(buffer.chain), Arrays(pool.chain)
      ensures buffer.Valid() && pool.Valid() && Apart(buffer.chain, pool.chain) && wantsAck
      ensures var r := Unframe(frame);
        buffer.buf == StreamBuffer.Put(old(buffer.buf), Locate(old(buffer.buf.last), r.seq_), r.payload).1
    {
      hide Window.Valid, Pool.Valid, Apart, StreamBuffer.Put, Reaches, Locate;
      var paddingLen := frame[2];
      var currentSeq := U32At(frame, 4);
      var code := buffer.Put(pool, currentSeq, frame[HEADER_SIZE..|frame| - paddingLen]);
      return true;
    }

    /** The loop of Send over this channel: at most sixteen packets, until one leaves the
        channel unmarked.  Required: the cursor does not come back to bytes already read. */
    method Send(cuid: u16, beyond: seq<byte>) returns (frames: seq<seq<byte>>, ghost payloads: seq<seq<byte>>)
      requires buffer.Valid() && buffer.Tight() && |beyond| == DATA_SIZE
      requires forall k: nat :: k < 16 ==> ReadPos(buffer.buf) <= CursorPos(buffer.buf, buffer.headSeq, nextSendSeq, k)
      modifies this
      ensures buffer.Valid()
      ensures |payloads| == |frames| <= 16 && (frames != [] <==> old(isUpdated))
      ensures forall k :: 0 <= k < |frames| ==>
        && Cut(buffer.buf, CursorPos(buffer.buf, buffer.headSeq, old(nextSendSeq), k), payloads[k])
        && Frames(frames[k], cuid, Wrap(old(nextSendSeq) + DATA_SIZE * k), payloads[k])
      ensures forall k :: 0 <= k < |frames| ==> |frames[k]| >= 8 && ChannelId(frames[k]) == cuid
      ensures nextSendSeq == Wrap(old(nextSendSeq) + DATA_SIZE * |frames|)
      ensures MarkedThrough(buffer.buf, buffer.headSeq, old(nextSendSeq), |frames|, isUpdated)
      ensures |frames| < 16 ==> !isUpdated
      ensures var (b, p) := (buffer.buf, old(SendPos()));
        old(isUpdated) && p <= b.last && (FullPackets(b, p) < 16 ==> !Straddles(b, p)) ==>
          |frames| == if FullPackets(b, p) < 16 then FullPackets(b, p) + 1 else 16
    {
      hide Window.Valid, Wf, Segment, Cut, StaysMarked, Frames, Wrap, CursorPos, ChannelId;
      buffer.Basics();
      frames, payloads := [], [];
      WrapNone(nextSendSeq);
      CursorHere(buffer.buf, buffer.headSeq, nextSendSeq, 0);
      while |frames| < 16 && isUpdated
        invariant buffer.Valid() && Wf(buffer.buf) && |payloads| == |frames| <= 16
        invariant nextSendSeq == Wrap(old(nextSendSeq) + DATA_SIZE * |frames|)
        invariant if frames == [] then isUpdated == old(isUpdated) else
          old(isUpdated) && MarkedThrough(buffer.buf, buffer.headSeq, old(nextSendSeq), |frames|, isUpdated)
        invariant forall k :: 0 <= k < |frames| ==>
          && Cut(buffer.buf, CursorPos(buffer.buf, buffer.headSeq, old(nextSendSeq), k), payloads[k])
          && Frames(frames[k], cuid, Wrap(old(nextSendSeq) + DATA_SIZE * k), payloads[k])
        decreases 16 - |frames|
      {
        CursorHere(buffer.buf, buffer.headSeq, old(nextSendSeq), |frames|);
        WrapSum(old(nextSendSeq) + DATA_SIZE * |frames|, DATA_SIZE);
        var frame, payload := EmitPacket(cuid, beyond);
        frames, payloads := frames + [frame], payloads + [payload];
      }
      forall k | 0 <= k < |frames|
        ensures |frames[k]| >= 8 && ChannelId(frames[k]) == cuid
      {
        HeaderOnTheWire(frames[k], cuid, Wrap(old(nextSendSeq) + DATA_SIZE * k), payloads[k]);
      }
      if old(isUpdated) && old(SendPos()) <= buffer.buf.last {
        UntilDrained(buffer.buf, buffer.headSeq, old(nextSendSeq), |frames|, isUpdated);
      }
    }

    lemma AloneHere()
      ensures (this as object) !in {buffer as object, buffer.ub as object,
                                    buffer.ub.headSeq as object, buffer.ub.tailSeq as object}
      ensures forall n :: n in Nodes(buffer.chain) ==> (n as object) != (this as object)
      ensures forall a :: a in Arrays(buffer.chain) ==> (a as object) != (this as object)
    {
    }

    /** A channel is none of the objects its window and pool are made of. */
    lemma Alone(pool: Pool, c: seq<Node>)
      ensures (this as object) !in {pool as object, buffer as object, buffer.ub as object,
                                    buffer.ub.headSeq as object, buffer.ub.tailSeq as object}
      ensures forall n :: n in Nodes(c) ==> (n as object) != (this as object)
      ensures forall a :: a in Arrays(c) ==> (a as object) != (this as object)
    {
    }
  }

  /** What Send makes of its two pieces. */
  function Payload(first: seq<byte>, second: seq<byte>): seq<byte> {
    var all := first + second;
    if |all| >= DATA_SIZE then all[..DATA_SIZE] else all
  }

  lemma CutFrom(b: Buffer, p: int, first: seq<byte>, second: seq<byte>)
    requires Wf(b) && ReadPos(b) <= p
    requires p <= b.last ==> Supplies(b, p, first, second)
    requires p > b.last ==> second == [] && |first| == if p < SafeBase(b) + NODE_SIZE then DATA_SIZE else 0
    ensures Cut(b, p, Payload(first, second))
    ensures StaysMarked(b, p) <==> |first| >= DATA_SIZE || second != []
  {
    hide Wf, Segment, SafeBase;
    if p <= b.last { SegmentSize(b, p); }
    assert |first| >= DATA_SIZE ==> (first + second)[..DATA_SIZE] == first[..DATA_SIZE];
  }

  lemma AppendReaches(b: Buffer, data: seq<byte>)
    requires Wf(b)
    ensures Reaches(b, b.last, data)
  {
  }

  /** The number of full packets from `p` on. */
  function FullPackets(b: Buffer, p: int): int {
    (b.last - p) / DATA_SIZE
  }

  /** The packet that drains the buffer, counting from a packet at `p`, is short and
      its bytes lie in two nodes. */
  predicate Straddles(b: Buffer, p: int)
    requires p <= b.last
  {
    var rest := (b.last - p) % DATA_SIZE;
    (b.last - rest - b.base) % NODE_SIZE + rest > NODE_SIZE
  }

  /** Such a packet: 4100 bytes in a new window.  The ninth packet carries the last 196 of
      them, 192 from one node and 4 from the next, and the channel stays marked. */
  lemma NinthStraddles(b: Buffer)
    requires Wf(b) && b.base == 0 && b.off == 0 && b.last == 4100
    ensures Straddles(b, 0) && |Segment(b, 8 * 488)| == 196 && StaysMarked(b, 8 * 488)
  {
    SegmentSize(b, 8 * 488);
  }

  /** The k-th packet after `p` is either full or the draining one. */
  lemma LastSegment(b: Buffer, p: int, k: nat)
    requires p + DATA_SIZE * k <= b.last
    ensures var q := p + DATA_SIZE * k; var n := if b.last - q < DATA_SIZE then b.last - q else DATA_SIZE;
      && k <= (b.last - p) / DATA_SIZE
      && (n == DATA_SIZE ==> q + DATA_SIZE <= b.last)
      && (n < DATA_SIZE ==> k == (b.last - p) / DATA_SIZE && n == (b.last - p) % DATA_SIZE)
      && (n < DATA_SIZE && !Straddles(b, p) ==> (q - b.base) % NODE_SIZE + n <= NODE_SIZE)
  {
    var q := p + DATA_SIZE * k;
    assert b.last - p == DATA_SIZE * k + (b.last - q);
    if b.last - q < DATA_SIZE {
      assert (b.last - p) / DATA_SIZE == k && (b.last - p) % DATA_SIZE == b.last - q;
    }
  }

  /** From a cursor inside the stream Send goes on exactly until the packet that drains
      the buffer, unless that packet straddles two nodes. */
  lemma UntilDrained(b: Buffer, head: u32, next: u32, n: nat, marked: bool)
    requires Wf(b) && CursorPos(b, head, next, 0) <= b.last && 0 < n <= 16
    requires MarkedThrough(b, head, next, n, marked) && (n < 16 ==> !marked)
    ensures var p := CursorPos(b, head, next, 0);
      (FullPackets(b, p) < 16 ==> !Straddles(b, p)) ==>
        n == if FullPackets(b, p) < 16 then FullPackets(b, p) + 1 else 16
  {
    hide Wf, CursorPos, Straddles;
    var p := CursorPos(b, head, next, 0);
    var full := FullPackets(b, p);
    if n <= full {
      CursorStraight(b, head, next, n - 1);
    } else if full < 16 {
      CursorStraight(b, head, next, full);
      LastSegment(b, p, full);
    }
  }

  /** Within the stream the cursor has not wrapped. */
  lemma CursorStraight(b: Buffer, head: u32, next: u32, k: nat)
    requires Wf(b) && CursorPos(b, head, next, 0) + DATA_SIZE * k <= b.last
    ensures CursorPos(b, head, next, k) == CursorPos(b, head, next, 0) + DATA_SIZE * k
  {
    var d: int := next + DATA_SIZE * k - head;
    WrapUnique(d, (next - head) / TWO32, Wrap(next - head) + DATA_SIZE * k);
  }

  lemma CursorHere(b: Buffer, head: u32, next: u32, k: nat)
    ensures b.base + Wrap(Wrap(next + DATA_SIZE * k) - head) == CursorPos(b, head, next, k)
  {
    var h: int := head;
    WrapSum(next + DATA_SIZE * k, -h);
  }

  /** The cast of a length to `unsigned int`. */
  lemma Unsigned(len: int)
    requires -TWO31 <= len < TWO31
    ensures Wrap(len) == if len < 0 then len + TWO32 else len
  {
    if len < 0 { WrapUnique(len, -1, len + TWO32); } else { WrapUnique(len, 0, len); }
  }

  lemma WrapNone(x: u32)
    ensures Wrap(x + DATA_SIZE * 0) == x
  {
  }

  lemma SegmentSize(b: Buffer, p: int)
    requires Wf(b) && ReadPos(b) <= p <= b.last
    ensures |Segment(b, p)| == if b.last - p < DATA_SIZE then b.last - p else DATA_SIZE
  {
  }

  /** Fill the packet buffer: header, then the payload in two pieces. */
  method Assemble(cuid: u16, seq_: u32, first: seq<byte>, second: seq<byte>) returns (frame: seq<byte>)
    requires |first| + |second| <= DATA_SIZE
    ensures Frames(frame, cuid, seq_, first + second)
  {
    hide Bytes2, Bytes4;
    var buf := new byte[PACKET_SIZE];
    var n := |first| + |second|;
    var paddingLen := (PACKET_SIZE - n - HEADER_SIZE) % 16;
    Fill(buf, 0, Bytes2(cuid), []);
    buf[2] := paddingLen;
    buf[3] := FLAG_ACK;
    assert buf[..4] == Bytes2(cuid) + [paddingLen, FLAG_ACK] by { assert buf[..2] == Bytes2(cuid); }
    Fill(buf, 4, Bytes4(seq_), Bytes2(cuid) + [paddingLen, FLAG_ACK]);
    Fill(buf, HEADER_SIZE, first, Header(cuid, n, seq_));
    Fill(buf, HEADER_SIZE + |first|, second, Header(cuid, n, seq_) + first);
    frame := buf[..HEADER_SIZE + n + paddingLen];
    FramedBy(frame, cuid, seq_, first, second);
  }

  /** Write the next piece of a packet after what is already there. */
  method Fill(buf: array<byte>, at: nat, piece: seq<byte>, ghost before: seq<byte>)
    requires at == |before| && at + |piece| <= buf.Length && buf[..at] == before
    modifies buf
    ensures buf[..at + |piece|] == before + piece
  {
    CopyIn(buf, at, piece);
    assert forall k :: 0 <= k < at ==> buf[k] == before[k];
  }

  lemma FramedBy(frame: seq<byte>, cuid: u16, seq_: u32, first: seq<byte>, second: seq<byte>)
    requires var n := |first| + |second|;
      && n <= DATA_SIZE && |frame| == HEADER_SIZE + n + PadLen(n)
      && frame[..HEADER_SIZE + n] == Header(cuid, n, seq_) + first + second
    ensures Frames(frame, cuid, seq_, first + second)
  {
    hide PadLen, Bytes2, Bytes4;
    var n := |first| + |second|;
    var body := frame[..HEADER_SIZE + n];
    assert frame[..HEADER_SIZE] == body[..HEADER_SIZE] && frame[HEADER_SIZE..HEADER_SIZE + n] == body[HEADER_SIZE..];
  }

  lemma PeekAgain(next: u32, head: u32, n: nat)
    requires Wrap(next - head) + n < TWO32
    ensures Wrap(Wrap(next + n) - head) == Wrap(next - head) + n
  {
    var x: int := next + n;
    var h: int := head;
    WrapSum(x, -h);
    WrapUnique(x - head, (next - head) / TWO32, Wrap(next - head) + n);
  }

  /** A Peek at position `q` offers `n` bytes: all up to the end of its node or of the data. */
  predicate Offers(b: Buffer, q: int, n: nat) {
    && q + n <= b.last && (n == 0 <==> q == b.last)
    && (q + n == b.last || (q - b.base) % NODE_SIZE + n == NODE_SIZE)
    && (n > 0 ==> (q - b.base) % NODE_SIZE + n <= NODE_SIZE)
  }

  lemma OffersInside(b: Buffer, q: int, n: nat)
    requires Offers(b, q, n)
    ensures q + n <= b.last
  {
  }

  /** Two Peeks in a row suffice for a packet. */
  lemma Lengths(b: Buffer, p: int, m: nat, n: nat)
    requires Offers(b, p, m) && Offers(b, p + m, n) && m < DATA_SIZE
    ensures var want := if b.last - p < DATA_SIZE then b.last - p else DATA_SIZE;
      && m <= want <= m + n && (want < DATA_SIZE ==> m + n == want)
      && (n == 0 <==> (p - b.base) % NODE_SIZE + want <= NODE_SIZE)
  {
    var r := (p - b.base) % NODE_SIZE;
    if r + m == NODE_SIZE {
      assert (p + m - b.base) % NODE_SIZE == 0;
    }
  }

  lemma Gathered(b: Buffer, p: int, first: seq<byte>, second: seq<byte>)
    requires Wf(b) && ReadPos(b) <= p <= b.last && Offers(b, p, |first|)
    requires first == Contents(b)[p - ReadPos(b)..p - ReadPos(b) + |first|]
    requires if |first| >= DATA_SIZE then second == [] else
      && Offers(b, p + |first|, |second|)
      && second == Contents(b)[p - ReadPos(b) + |first|..p - ReadPos(b) + |first| + |second|]
    ensures Supplies(b, p, first, second)
  {
    hide Contents, Wf, Segment;
    Pieces(b, p, first, second);
    SegmentSize(b, p);
    if |first| < DATA_SIZE { Lengths(b, p, |first|, |second|); }
  }

  /** Consecutive pieces of the contents make up the segment. */
  lemma Pieces(b: Buffer, p: int, first: seq<byte>, second: seq<byte>)
    requires Wf(b) && ReadPos(b) <= p && p + |first| + |second| <= b.last
    requires first == Contents(b)[p - ReadPos(b)..p - ReadPos(b) + |first|]
    requires second == Contents(b)[p - ReadPos(b) + |first|..p - ReadPos(b) + |first| + |second|]
    ensures |first| >= DATA_SIZE ==> Segment(b, p) == first[..DATA_SIZE]
    ensures |first| < DATA_SIZE && |Segment(b, p)| <= |first| + |second| ==>
      Segment(b, p) == (first + second)[..|Segment(b, p)|]
  {
    hide Contents, Wf;
    var (c, at) := (Contents(b), p - ReadPos(b));
    Slices(c, at, |first|, |second|, |Segment(b, p)|);
    Slices(c, at, |first|, 0, |Segment(b, p)|);
  }

  lemma Slices(c: seq<byte>, at: nat, m: nat, n: nat, k: nat)
    requires at + m + n <= |c|
    ensures c[at..at + m] + c[at + m..at + m + n] == c[at..at + m + n]
    ensures k <= m + n ==> c[at..at + m + n][..k] == c[at..at + k]
  {
  }
}
