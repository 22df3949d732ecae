/** Netlink frames between the library and the kernel module, and the handshake packet.
    The header is the `nlmsghdr` of section 2.3.2 of RFC 3549: length, type, flags, sequence
    number and port id, 16 bytes. */
module Netlink {
  import opened Bytes
  import opened Codec

  const NLMSG_HDRLEN := 16
  const NLMSG_DONE: byte := 3
  const INCOME_HANDSHAKE: byte := 0
  const INCOME_RESULT: byte := 1
  const MAX_PAYLOAD := 512

  /** `NLMSG_ALIGN`. */
  function Align(n: nat): (a: nat)
    ensures n <= a < n + 4 && a % 4 == 0
  {
    (n + 3) / 4 * 4
  }

  /** What `netlink_sendto_kern` can send without leaving the range of its `int` length. */
  predicate Sendable(packet: seq<byte>) {
    |packet| < 0x7fff_ff00
  }

  /** A frame from the library: the one-byte type header, the packet, and padding that the
      length field counts. */
  function KernelFrame(portid: u32, kind: byte, packet: seq<byte>): seq<byte>
    requires Sendable(packet)
  {
    var length := Align(NLMSG_HDRLEN + 1 + |packet|);
    U32(length) + Zeros(8) + U32(portid) + [kind] + packet + Zeros(length - NLMSG_HDRLEN - 1 - |packet|)
  }

  /** A frame from the kernel: no type header, and padding that the length field does not count. */
  function UserFrame(packet: seq<byte>): seq<byte>
    requires Sendable(packet)
  {
    var length := NLMSG_HDRLEN + |packet|;
    U32(length) + [NLMSG_DONE, 0, 0, 0] + Zeros(8) + packet + Zeros(Align(length) - length)
  }

  /** A frame's length is the least multiple of 4 that holds header, type and packet, and counts all of it. */
  lemma KernelFrameFields(portid: u32, kind: byte, packet: seq<byte>)
    requires Sendable(packet)
    ensures var f := KernelFrame(portid, kind, packet);
            && 17 + |packet| <= |f| < 21 + |packet| && |f| % 4 == 0
            && U32At(f, 0) == |f| && f[4..12] == Zeros(8) && U32At(f, 12) == portid
            && f[16] == kind && Holds(f, 17, packet) && f[17 + |packet|..] == Zeros(|f| - 17 - |packet|)
  {
    hide U32, U32At;
    var f := KernelFrame(portid, kind, packet);
    var length := Align(NLMSG_HDRLEN + 1 + |packet|);
    assert f[0..4] == U32(length);
    assert f[12..16] == U32(portid);
    U32AtExact(f, 0, length);
    U32AtExact(f, 12, portid);
    assert f[17..17 + |packet|] == packet;
  }

  /** A frame from the kernel is padded likewise, but its length does not count the padding. */
  lemma UserFrameFields(packet: seq<byte>)
    requires Sendable(packet)
    ensures var f := UserFrame(packet);
            && 16 + |packet| <= |f| < 20 + |packet| && |f| % 4 == 0
            && U32At(f, 0) == 16 + |packet| && f[4..8] == [NLMSG_DONE, 0, 0, 0] && f[8..16] == Zeros(8)
            && Holds(f, 16, packet) && f[16 + |packet|..] == Zeros(|f| - 16 - |packet|)
  {
    hide U32, U32At;
    var f := UserFrame(packet);
    assert f[0..4] == U32(16 + |packet|);
    U32AtExact(f, 0, 16 + |packet|);
    assert f[16..16 + |packet|] == packet;
  }

  /** `netlink_sendto_kern` up to `sendmsg`: the frame is built field by field. */
  method BuildKernelFrame(portid: u32, kind: byte, packet: seq<byte>) returns (nlh: array<byte>)
    requires Sendable(packet)
    ensures fresh(nlh) && nlh[..] == KernelFrame(portid, kind, packet)
  {
    hide U32;
    var length := Align(NLMSG_HDRLEN + 1 + |packet|);
    nlh := new byte[length](_ => 0);
    forall i | 0 <= i < 4 { nlh[i] := U32(length)[i]; }
    forall i | 0 <= i < 4 { nlh[12 + i] := U32(portid)[i]; }
    nlh[NLMSG_HDRLEN] := kind;
    forall i | 0 <= i < |packet| { nlh[NLMSG_HDRLEN + 1 + i] := packet[i]; }
    var f := KernelFrame(portid, kind, packet);
    forall i | 0 <= i < length ensures nlh[i] == f[i] {}
  }

  /** The payload length the library computes, in 32-bit arithmetic. */
  function PayloadLength(frame: seq<byte>): u32
    requires |frame| >= 4
  {
    Wrap(U32At(frame, 0) + U32_LIMIT - NLMSG_HDRLEN)
  }

  /** The frame has the payload its header announces, if that is short enough to be looked at. */
  predicate HasPayload(frame: seq<byte>) {
    |frame| >= 4 && (PayloadLength(frame) <= MAX_PAYLOAD ==> 16 + PayloadLength(frame) <= |frame|)
  }

  /** What the library's receive buffer holds after `netlink_recvfrom_kern`: it is zeroed before,
      and left so when the payload is larger than it (the -1 returned is then taken for a huge
      unsigned length). */
  function ReceivedPacket(frame: seq<byte>): (r: seq<byte>)
    requires HasPayload(frame)
    ensures |r| == MAX_PAYLOAD
  {
    var length := PayloadLength(frame);
    if length > MAX_PAYLOAD then Zeros(MAX_PAYLOAD)
    else frame[16..16 + length] + Zeros(MAX_PAYLOAD - length)
  }

  /** Receiving a kernel frame yields the packet, zero-padded, exactly when it fits. */
  lemma ReceivedFromKernel(packet: seq<byte>)
    requires Sendable(packet)
    ensures var f := UserFrame(packet);
            && HasPayload(f) && PayloadLength(f) == |packet|
            && ReceivedPacket(f)
               == if |packet| <= MAX_PAYLOAD then packet + Zeros(MAX_PAYLOAD - |packet|) else Zeros(MAX_PAYLOAD)
  {
    UserFrameFields(packet);
    assert (|packet| + U32_LIMIT) % 0x1_0000_0000 == |packet|;
  }

  /** The room `recvmsg` is given. */
  const RECEIVE_ROOM := 8192

  /** What the packet buffer holds after a receive that returned `ret` and left `memory` in the
      receive buffer: zeros, as it was, if the receive failed. */
  function Received(ret: int, memory: seq<byte>): (r: seq<byte>)
    requires |memory| == RECEIVE_ROOM
    ensures |r| == MAX_PAYLOAD
  {
    if ret <= 0 then Zeros(MAX_PAYLOAD) else ReceivedPacket(memory)
  }

  /** `memory` is a receive buffer with as much of the frame at its start as it has room for. */
  ghost predicate StartsWith(memory: seq<byte>, frame: seq<byte>) {
    && |memory| == RECEIVE_ROOM
    && if |frame| <= RECEIVE_ROOM then Holds(memory, 0, frame) else memory == frame[..RECEIVE_ROOM]
  }

  /** A packet is received from the buffer as from its frame, whatever else the buffer holds. */
  lemma ReceivedFromBuffer(memory: seq<byte>, packet: seq<byte>)
    requires Sendable(packet) && StartsWith(memory, UserFrame(packet))
    ensures var f := UserFrame(packet);
            && HasPayload(f)
            && PayloadLength(memory) == PayloadLength(f) && ReceivedPacket(memory) == ReceivedPacket(f)
  {
    hide UserFrame, U32At;
    var f := UserFrame(packet);
    UserFrameFields(packet);
    ReceivedFromKernel(packet);
    assert memory[0..4] == f[0..4] by {
      if |f| <= RECEIVE_ROOM { PrefixSlice(memory, f, 0, 4); }
    }
    U32AtExact(memory, 0, U32At(f, 0));
    U32AtExact(f, 0, U32At(f, 0));
    assert PayloadLength(memory) == PayloadLength(f);
    if |packet| <= MAX_PAYLOAD {
      assert |f| <= RECEIVE_ROOM by { FrameIsShort(packet); }
      assert memory[0..0 + |f|] == f;
      PrefixSlice(memory, f, 16, 16 + |packet|);
    }
  }

  lemma PrefixSlice(m: seq<byte>, f: seq<byte>, lo: nat, hi: nat)
    requires |f| <= |m| && m[0..|f|] == f && lo <= hi <= |f|
    ensures m[lo..hi] == f[lo..hi]
  {
    assert forall i | lo <= i < hi :: m[i] == m[0..|f|][i];
  }

  lemma FrameIsShort(packet: seq<byte>)
    requires Sendable(packet)
    ensures |UserFrame(packet)| < 20 + |packet|
  {
  }

  /** `netlink_recvfrom_kern` behind its `recvmsg`, which returned `ret` and filled `buf`. */
  method ReceiveUserFrame(ret: int, buf: array<byte>, packet: array<byte>) returns (size: int)
    requires buf.Length == RECEIVE_ROOM && packet.Length == MAX_PAYLOAD && buf != packet
    requires packet[..] == Zeros(MAX_PAYLOAD)
    modifies packet
    ensures packet[..] == Received(ret, buf[..])
    ensures size == if ret > 0 && PayloadLength(buf[..]) <= MAX_PAYLOAD then PayloadLength(buf[..]) else -1
  {
    if ret <= 0 {
      return -1;
    }
    var length := PayloadLength(buf[..]);
    if length > packet.Length {
      return -1;
    }
    forall i | 0 <= i < length { packet[i] := buf[16 + i]; }
    assert packet[..] == buf[..][16..16 + length] + Zeros(MAX_PAYLOAD - length);
    return length;
  }

  // ---- the handshake packet `count || id*` ----

  function EncodeIds(ids: seq<u32>): seq<byte>
    requires |ids| < U32_LIMIT
  {
    U32(|ids|) + EncodeAll(U32, ids)
  }

  function DecodeU32(m: seq<byte>, p: nat): Parsed<u32> {
    if p + 4 > |m| then OutOfBounds else Parsed(U32At(m, p), p + 4)
  }

  lemma U32CodecIsExact()
    ensures Exact(U32, DecodeU32)
  {
    forall m: seq<byte>, p: nat, n: u32 | Holds(m, p, U32(n))
      ensures DecodeU32(m, p) == Parsed(n, p + |U32(n)|)
    {
      U32AtExact(m, p, n);
    }
    forall m: seq<byte>, p: nat | DecodeU32(m, p).Parsed?
      ensures var r := DecodeU32(m, p); Holds(m, p, U32(r.value)) && r.next == p + |U32(r.value)|
    {
      U32AtExact(m, p, U32At(m, p));
    }
  }

  lemma {:induction false} IdsLength(ids: seq<u32>)
    ensures |EncodeAll(U32, ids)| == 4 * |ids|
  {
    if ids != [] { IdsLength(ids[..|ids| - 1]); }
  }

  lemma IdsPacketLength(ids: seq<u32>)
    requires |ids| < U32_LIMIT
    ensures |EncodeIds(ids)| == 4 * (|ids| + 1)
  {
    IdsLength(ids);
  }

  /** A list of ids can be read exactly as far as memory goes. */
  lemma {:induction false} IdsReadableExactly(m: seq<byte>, p: nat, n: nat)
    requires p <= |m|
    ensures DecodeAll(DecodeU32, m, p, n).Parsed? <==> p + 4 * n <= |m|
    decreases n
  {
    hide U32At;
    if n > 0 && p + 4 <= |m| { IdsReadableExactly(m, p + 4, n - 1); }
  }

  lemma IdsDecode(m: seq<byte>, ids: seq<u32>)
    requires |ids| < U32_LIMIT && Holds(m, 0, EncodeIds(ids))
    ensures U32At(m, 0) == |ids| && DecodeAll(DecodeU32, m, 4, |ids|) == Parsed(ids, 4 + 4 * |ids|)
  {
    U32CodecIsExact();
    HoldsConcat(m, 0, U32(|ids|), EncodeAll(U32, ids));
    U32AtExact(m, 0, |ids|);
    IdsLength(ids);
    DecodeAllOfEncodeAll(U32, DecodeU32, m, 4, ids);
  }

  lemma OneMoreId(s: seq<u32>, i: nat)
    requires i < |s| < U32_LIMIT
    ensures U32(|s|) + EncodeAll(U32, s[..i]) + U32(s[i]) == U32(|s|) + EncodeAll(U32, s[..i + 1])
  {
    hide U32, EncodeAll;
    EncodeAllLast(U32, s[..i], s[i]);
    assert s[..i + 1] == s[..i] + [s[i]];
  }

  lemma NoIds(s: seq<u32>)
    ensures EncodeAll(U32, s[..0]) == []
  {
  }

  /** The handshake packet of `activate_and_listen`, each id copied to its offset. */
  method HandshakePacket(ids: array<u32>) returns (packet: array<byte>)
    requires ids.Length < U32_LIMIT
    ensures fresh(packet) && packet[..] == EncodeIds(ids[..])
  {
    hide U32, EncodeAll;
    ghost var s := ids[..];
    NoIds(s);
    packet := new byte[4 * (ids.Length + 1)];
    forall i | 0 <= i < 4 { packet[i] := U32(ids.Length)[i]; }
    assert packet[..4] == U32(|s|) + EncodeAll(U32, s[..0]);
    for i := 0 to ids.Length
      invariant fresh(packet) && packet.Length == 4 * (|s| + 1) && ids[..] == s
      invariant packet[..4 * (i + 1)] == U32(|s|) + EncodeAll(U32, s[..i])
    {
      ghost var done := packet[..4 * (i + 1)];
      var word := U32(ids[i]);
      forall j | 0 <= j < 4 { packet[4 * (i + 1) + j] := word[j]; }
      assert packet[..4 * (i + 1)] == done;
      assert packet[..4 * (i + 2)] == done + word;
      OneMoreId(s, i);
    }
    assert s[..|s|] == s;
    assert packet[..4 * (|s| + 1)] == packet[..];
  }
}
