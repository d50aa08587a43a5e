/** The rdt_stream packet: channel id, padding length, flags and sequence number in
    an 8-byte header in network byte order, then payload, then padding. */
module Framing {
  import opened SeqNum
  import opened StreamBuffer

  const PACKET_SIZE: nat := 496
  const HEADER_SIZE: nat := 8
  const DATA_SIZE: nat := 488
  const FLAG_ACK: byte := 1

  type u16 = x: int | 0 <= x < 0x1_0000

  function Bytes2(x: u16): (s: seq<byte>)
    ensures |s| == 2
  {
    [x / 0x100, x % 0x100]
  }

  function Bytes4(x: u32): (s: seq<byte>)
    ensures |s| == 4
  {
    [x / 0x100_0000, x / 0x1_0000 % 0x100, x / 0x100 % 0x100, x % 0x100]
  }

  /** ntohl of the four bytes at `i`. */
  function U32At(frame: seq<byte>, i: nat): u32
    requires i + 4 <= |frame|
  {
    var (a, b, c, d) := (frame[i] as int, frame[i + 1] as int, frame[i + 2] as int, frame[i + 3] as int);
    0x100_0000 * a + 0x1_0000 * b + 0x100 * c + d
  }

  /** Padding makes the packet length a multiple of 16, as the packet size is. */
  function PadLen(length: nat): nat
    requires length <= DATA_SIZE
  {
    (PACKET_SIZE - length - HEADER_SIZE) % 16
  }

  function Header(cuid: u16, length: nat, seq_: u32): seq<byte>
    requires length <= DATA_SIZE
  {
    Bytes2(cuid) + [PadLen(length), FLAG_ACK] + Bytes4(seq_)
  }

  /** `frame` is a packet that carries `payload`; the bytes of its padding are arbitrary. */
  predicate Frames(frame: seq<byte>, cuid: u16, seq_: u32, payload: seq<byte>) {
    && |payload| <= DATA_SIZE
    && |frame| == HEADER_SIZE + |payload| + PadLen(|payload|)
    && frame[..HEADER_SIZE] == Header(cuid, |payload|, seq_)
    && frame[HEADER_SIZE..HEADER_SIZE + |payload|] == payload
  }

  /** What channel::receive takes out of a buffer of `|frame|` bytes. */
  datatype Received = Received(seq_: u32, payload: seq<byte>)

  function Unframe(frame: seq<byte>): Received
    requires HEADER_SIZE <= |frame| && HEADER_SIZE + frame[2] <= |frame|
  {
    Received(U32At(frame, 4), frame[HEADER_SIZE..|frame| - frame[2]])
  }

  /** The channel id processPacket looks up: ntohs of the first two bytes. */
  function ChannelId(frame: seq<byte>): u16
    requires |frame| >= 2
  {
    var (hi, lo) := (frame[0] as int, frame[1] as int);
    0x100 * hi + lo
  }

  /** The header, byte by byte, as the other side of the wire has to read it: channel id
      and number with the high byte first, the acknowledgement flag in byte 3. */
  lemma HeaderOnTheWire(frame: seq<byte>, cuid: u16, seq_: u32, payload: seq<byte>)
    requires Frames(frame, cuid, seq_, payload)
    ensures |frame| >= 8 && ChannelId(frame) == cuid && 0x100 * frame[0] as int + frame[1] as int == cuid
    ensures frame[3] == 1
    ensures 0x100_0000 * frame[4] as int + 0x1_0000 * frame[5] as int + 0x100 * frame[6] as int + frame[7] as int
      == seq_
  {
    var h := frame[..HEADER_SIZE];
    assert forall i :: 0 <= i < HEADER_SIZE ==> frame[i] == h[i];
    assert h[..2] == Bytes2(cuid) && h[4..8] == Bytes4(seq_);
    assert h[0] == h[..2][0] && h[1] == h[..2][1];
    assert frame[4..8] == Bytes4(seq_);
    Bytes4RoundTrip(seq_, frame, 4);
  }

  lemma Bytes4RoundTrip(x: u32, frame: seq<byte>, i: nat)
    requires i + 4 <= |frame| && frame[i..i + 4] == Bytes4(x)
    ensures U32At(frame, i) == x
  {
    var b := Bytes4(x);
    assert frame[i] == frame[i..i + 4][0] == b[0];
    assert frame[i + 1] == frame[i..i + 4][1] == b[1];
    assert frame[i + 2] == frame[i..i + 4][2] == b[2];
    assert frame[i + 3] == frame[i..i + 4][3] == b[3];
    assert x / 0x100 == 0x100 * (x / 0x1_0000) + x / 0x100 % 0x100;
    assert x / 0x1_0000 == 0x100 * (x / 0x100_0000) + x / 0x1_0000 % 0x100;
  }

  /** Receiving recovers exactly what was framed, for every payload length; packets
      are multiples of 16 bytes, padded by fewer than 16, and never too long. */
  lemma FrameRoundTrip(frame: seq<byte>, cuid: u16, seq_: u32, payload: seq<byte>)
    requires Frames(frame, cuid, seq_, payload)
    ensures HEADER_SIZE <= |frame| && HEADER_SIZE + frame[2] <= |frame|
    ensures Unframe(frame) == Received(seq_, payload)
    ensures frame[2] < 16 && |frame| <= PACKET_SIZE && |frame| % 16 == PACKET_SIZE % 16
  {
    var h := frame[..HEADER_SIZE];
    assert h[2] == PadLen(|payload|) == frame[2];
    assert h[4..8] == Bytes4(seq_);
    assert frame[4..8] == h[4..8];
    Bytes4RoundTrip(seq_, frame, 4);
    assert |frame| % 16 == 0;
  }
}
