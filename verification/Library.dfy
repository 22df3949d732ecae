/** What a serving process does with one frame from the kernel. */
module Library {
  import opened Bytes
  import opened Buffer
  import opened Codec
  import opened Netlink
  import opened RpcPacket

  /** The process's own interface structure. */
  datatype Managed = Managed(id: u32, argc: u32, retc: u32)

  /** What a callback makes of the slots it is given: a negative return, success with some slot
      left unset (length -1, address NULL), or every slot set. */
  datatype Returned = Fails | LeavesUnset | Values(retv: seq<Blob>)

  type Callback = (u32, seq<Blob>) -> Returned

  datatype Handled = Faulty | Ignored | Result(packet: seq<byte>)

  function FindManaged(managed: seq<Managed>, id: u32): (i: nat)
    ensures i <= |managed| && (i < |managed| ==> managed[i].id == id)
    ensures forall j | 0 <= j < i :: managed[j].id != id
  {
    if managed == [] || managed[0].id == id then 0 else 1 + FindManaged(managed[1..], id)
  }

  /** One turn of `handle_rpc` from its receive buffer on: an unmanaged id, a wrong argument count
      and a failing callback are all silently ignored. A callback is given exactly `retc` slots, so
      a result of another length does not occur and is put with the failures. */
  function HandleRpc(managed: seq<Managed>, buffer: seq<byte>, cb: Callback): Handled {
    if |buffer| < 4 then Faulty
    else
      var i := FindManaged(managed, U32At(buffer, 0));
      if i == |managed| then Ignored
      else
        match DecodeRpc(buffer, 0)
        case OutOfBounds => Faulty
        case Parsed(call, _) => Answer(managed[i], call, cb)
  }

  /** Arity check, callback and reply packet. */
  function Answer(interface: Managed, call: Rpc, cb: Callback): Handled {
    if |call.values| != interface.argc then Ignored
    else
      match cb(call.id, call.values)
      case Fails => Ignored
      case LeavesUnset => Faulty
      case Values(retv) =>
        if |retv| != interface.retc then Ignored
        else
          match RpcBuf(call.id, retv)
          case Overrun => Faulty
          case Buf(bytes, _) => Result(bytes)
  }

  /** The whole turn. An empty packet is skipped; the -1 of a failed receive is not, since it is
      compared as an unsigned number. */
  function Turn(managed: seq<Managed>, frame: seq<byte>, cb: Callback): Handled
    requires HasPayload(frame)
  {
    if PayloadLength(frame) == 0 then Ignored else HandleRpc(managed, ReceivedPacket(frame), cb)
  }

  /** The turn as the process takes it, from what its receive returned and left in the buffer. After
      a failed receive it goes on with a zeroed packet. */
  function TurnFrom(managed: seq<Managed>, ret: int, memory: seq<byte>, cb: Callback): Handled
    requires |memory| == RECEIVE_ROOM
  {
    if ret <= 0 then HandleRpc(managed, Zeros(MAX_PAYLOAD), cb) else Turn(managed, memory, cb)
  }

  /** For a frame of the kernel that is the turn on the frame, whatever else is in the buffer. */
  lemma TurnFromFrame(managed: seq<Managed>, ret: int, memory: seq<byte>, packet: seq<byte>, cb: Callback)
    requires ret > 0 && Sendable(packet) && StartsWith(memory, UserFrame(packet))
    ensures HasPayload(UserFrame(packet)) && TurnFrom(managed, ret, memory, cb) == Turn(managed, UserFrame(packet), cb)
  {
    hide HandleRpc, UserFrame, StartsWith;
    ReceivedFromKernel(packet);
    ReceivedFromBuffer(memory, packet);
  }

  /** An empty packet is skipped. */
  lemma EmptyPacketIsIgnored(managed: seq<Managed>, cb: Callback)
    ensures HasPayload(UserFrame([])) && Turn(managed, UserFrame([]), cb).Ignored?
  {
    hide UserFrame, HandleRpc;
    ReceivedFromKernel([]);
  }

  /** A failed receive is ignored by every process that does not manage the reserved id 0. */
  lemma FailedReceiveIsIgnored(managed: seq<Managed>, ret: int, memory: seq<byte>, cb: Callback)
    requires |memory| == RECEIVE_ROOM && ret <= 0 && forall m | m in managed :: m.id != 0
    ensures TurnFrom(managed, ret, memory, cb).Ignored?
  {
    hide DecodeRpc;
    assert U32At(Zeros(MAX_PAYLOAD), 0) == 0;
  }

  /** The call of `handle_rpc` behind the lookup: callback and reply packet. */
  method CallBack(interface: Managed, buffer: array<byte>, cb: Callback) returns (h: Handled)
    requires buffer.Length >= 4
    ensures h == match DecodeRpc(buffer[..], 0)
                 case OutOfBounds => Faulty
                 case Parsed(call, _) => Answer(interface, call, cb)
  {
    hide DecodeRpc, RpcBuf, EncodeRpc;
    var call := UnserializeRpcLibrary(buffer);
    if call.OutOfBounds? {
      return Faulty;
    }
    var id, argv := call.value.id, call.value.values;
    if |argv| != interface.argc {
      return Ignored;
    }
    var returned := cb(id, argv);
    match returned
    case Fails => return Ignored;
    case LeavesUnset => return Faulty;
    case Values(retv) =>
      if |retv| != interface.retc {
        return Ignored;
      }
      var slots := new Blob[|retv|](j requires 0 <= j < |retv| => retv[j]);
      assert slots[..] == retv;
      RpcBufIsEncode(id, retv);
      var ok, packet := SerializeRpc(id, slots);
      return if ok then Result(packet.data[..packet.length]) else Faulty;
  }

  /** One turn of the loop, from the receive to the frame sent back (null for none). */
  method ServeFrame(managed: array<Managed>, ret: int, buf: array<byte>, portid: u32, cb: Callback)
    returns (reply: array?<byte>, defined: bool)
    requires buf.Length == RECEIVE_ROOM
    ensures var h := TurnFrom(managed[..], ret, buf[..], cb);
            && (defined <==> !h.Faulty?)
            && (reply != null <==> h.Result? && Sendable(h.packet))
            && (reply != null ==> reply[..] == KernelFrame(portid, INCOME_RESULT, h.packet))
  {
    hide DecodeRpc, Answer, KernelFrame;
    var buffer := new byte[MAX_PAYLOAD](_ => 0);
    assert buffer[..] == Zeros(MAX_PAYLOAD);
    var size := ReceiveUserFrame(ret, buf, buffer);
    if size == 0 {
      return null, true;
    }
    var id := U32At(buffer[..], 0);
    var i := 0;
    while i < managed.Length && managed[i].id != id
      invariant i <= managed.Length && forall j | 0 <= j < i :: managed[j].id != id
    {
      i := i + 1;
    }
    FindManagedIs(managed[..], id, i);
    if i == managed.Length {
      return null, true;
    }
    var h := CallBack(managed[i], buffer, cb);
    if !h.Result? || !Sendable(h.packet) {
      return null, !h.Faulty?;
    }
    reply := BuildKernelFrame(portid, INCOME_RESULT, h.packet);
    return reply, true;
  }

  function IdsOf(managed: seq<Managed>): (ids: seq<u32>)
    ensures |ids| == |managed| && forall i | 0 <= i < |ids| :: ids[i] == managed[i].id
  {
    seq(|managed|, i requires 0 <= i < |managed| => managed[i].id)
  }

  /** `activate_and_listen` up to its loop: the frame that announces all managed interfaces. */
  method SendHandshake(managed: array<Managed>, portid: u32) returns (frame: array<byte>)
    requires managed.Length < 0x1000_0000
    ensures fresh(frame)
    ensures var ids := IdsOf(managed[..]);
            Sendable(EncodeIds(ids)) && frame[..] == KernelFrame(portid, INCOME_HANDSHAKE, EncodeIds(ids))
  {
    hide KernelFrame, EncodeIds;
    var ids := new u32[managed.Length](i requires 0 <= i < managed.Length reads managed => managed[i].id);
    assert ids[..] == IdsOf(managed[..]);
    var packet := HandshakePacket(ids);
    IdsPacketLength(ids[..]);
    frame := BuildKernelFrame(portid, INCOME_HANDSHAKE, packet[..]);
  }

  lemma {:induction false} FindManagedIs(managed: seq<Managed>, id: u32, i: nat)
    requires i <= |managed| && (i < |managed| ==> managed[i].id == id)
    requires forall j | 0 <= j < i :: managed[j].id != id
    ensures FindManaged(managed, id) == i
  {
    var k := FindManaged(managed, id);
    assert k < |managed| ==> managed[k].id == id;
  }
}
