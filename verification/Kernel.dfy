/** What the kernel module does with one TCP request and with one netlink frame. */
module Kernel {
  import opened Bytes
  import opened Buffer
  import opened Codec
  import opened InfoPacket
  import opened Netlink
  import opened RpcPacket
  import R = Registry
  import opened RegistryTable

  // ---- a request on a connection ----

  /** `Refused`: nothing is sent anywhere. `Describe`: an information packet goes straight back.
      `Forward`: the packet goes to a netlink port, and the connection into the interface's slot. */
  datatype Service = Faulty | Refused | Describe(packet: seq<byte>) | Forward(id: u32, portid: u32, packet: seq<byte>)

  /** `handle_connection`: a length, which must be positive as an `int`, then that many bytes. */
  function Serve(r: R.Registry, stream: seq<byte>, conn: nat): Service {
    if |stream| < 4 then Refused
    else
      var size := U32At(stream, 0);
      if size == 0 || size >= 0x8000_0000 || |stream| != 4 + size then Refused
      else
        match R.Execute(r, stream[4..], conn)
        case UndefinedBehaviour => Faulty
        case NoReply => Refused
        case Unknown => Refused
        case InfoReply(packet) => Describe(packet)
        case Forward(_, portid) => Forward(U32At(stream, 4), portid, stream[4..])
  }

  /** The registry after that. */
  function AfterServe(r: R.Registry, stream: seq<byte>, conn: nat): R.Registry {
    var x := Serve(r, stream, conn);
    if x.Forward? && x.id in r.recs then R.Bind(r, x.id, conn) else r
  }

  /** Nothing is served but a packet of positive length behind that length. */
  lemma ServesWholeRequestsOnly(r: R.Registry, stream: seq<byte>, conn: nat)
    requires !Serve(r, stream, conn).Refused?
    ensures |stream| > 4 && |stream| - 4 < 0x8000_0000 && Holds(stream, 0, U32(|stream| - 4))
  {
    hide R.Execute, U32, U32At;
    U32AtExact(stream, 0, U32At(stream, 0));
  }

  /** A whole request is served by what it asks. */
  lemma ServesPacket(r: R.Registry, packet: seq<byte>, conn: nat)
    requires 4 <= |packet| < 0x8000_0000
    ensures Serve(r, U32(|packet|) + packet, conn)
         == match R.Execute(r, packet, conn)
            case UndefinedBehaviour => Faulty
            case NoReply => Refused
            case Unknown => Refused
            case InfoReply(reply) => Describe(reply)
            case Forward(_, portid) => Forward(U32At(packet, 0), portid, packet)
  {
    hide R.Execute, U32, U32At;
    var stream := U32(|packet|) + packet;
    assert stream[..4] == U32(|packet|) && stream[4..] == packet;
    assert stream[0..4] == U32(|packet|) && stream[4..8] == packet[0..4];
    U32AtExact(stream, 0, |packet|);
    U32AtExact(packet, 0, U32At(packet, 0));
    U32AtExact(stream, 4, U32At(packet, 0));
  }

  /** A request too short for an id is read past its end. */
  lemma ShortRequestStrays(r: R.Registry, packet: seq<byte>, conn: nat)
    requires 0 < |packet| < 4
    ensures Serve(r, U32(|packet|) + packet, conn) == Faulty && AfterServe(r, U32(|packet|) + packet, conn) == r
  {
    hide U32, U32At;
    var stream := U32(|packet|) + packet;
    assert stream[4..] == packet && stream[0..4] == U32(|packet|);
    U32AtExact(stream, 0, |packet|);
  }

  /** A length-prefixed information query comes out of its connection as the description that the
      interface was registered with, exactly when the descriptions the serializer drops were empty. */
  lemma QueryIsDescribed(
    r: R.Registry, id: u32, info: Info<CStr>, query: seq<byte>, argv: seq<Blob>, conn: nat, room: nat)
    requires R.Valid(r) && id in r.recs && r.recs[id].info == Complete(info)
    requires |info.args| < U32_LIMIT && |info.rets| < U32_LIMIT && 2 * |info.rets| <= room
    requires SerializedInfo(id, r.recs[id].info).Written?
    requires |argv| < U32_LIMIT && query == EncodeRpc(0, argv) && |query| < 0x8000_0000
    requires argv != [] && Holds(argv[0], 0, U32(id))
    ensures var x := Serve(r, U32(|query|) + query, conn);
            && x.Describe? && AfterServe(r, U32(|query|) + query, conn) == r
            && DecodeInfo(x.packet + Zeros(room)).Parsed?
            && (DecodeInfo(x.packet + Zeros(room)).value == info <==>
                  forall d | d in info.rets[|info.args|..] :: d == NO_TEXT)
  {
    hide R.Valid, R.Execute, Serve, DecodeInfo, SerializedInfo, Complete, EncodeRpc, U32;
    RpcLength(0, argv);
    assert query[0..0 + |query|] == query;
    ServesPacket(r, query, conn);
    R.InfoQueryRoundTrip(r, id, info, query, argv, conn, room);
  }

  /** One about an id that is not registered is refused. */
  lemma UnknownQueryIsRefused(r: R.Registry, id: u32, query: seq<byte>, argv: seq<Blob>, conn: nat)
    requires id !in r.recs
    requires |argv| < U32_LIMIT && query == EncodeRpc(0, argv) && |query| < 0x8000_0000
    requires argv != [] && Holds(argv[0], 0, U32(id))
    ensures Serve(r, U32(|query|) + query, conn) == Refused && AfterServe(r, U32(|query|) + query, conn) == r
  {
    hide R.Execute, Serve, EncodeRpc, U32, U32At;
    RpcLength(0, argv);
    assert query[0..0 + |query|] == query;
    ServesPacket(r, query, conn);
    U32AtExact(argv[0], 0, id);
    R.QueryAsks(r, query, argv, conn);
  }

  /** `fetch_interface_info`. */
  method FetchInfo(table: InterfaceTable, packet: array<byte>) returns (x: R.Execution)
    requires table.Valid()
    ensures x == R.QueryInfo(table.state, packet[..])
  {
    hide DecodeRpc, Items, PutItems, SerializedInfo, Points;
    var query := UnserializeRpcKernel(packet);
    if query.OutOfBounds? || query.value == [] || |query.value[0]| < 4 {
      return R.UndefinedBehaviour;
    }
    var id := U32At(query.value[0], 0);
    var o := table.Find(id);
    if o == null {
      return R.NoReply;
    }
    var st, reply := SerializeInfo(id, o.info);
    match st
    case Failure => return R.NoReply;
    case Stray => return R.UndefinedBehaviour;
    case Done => return R.InfoReply(reply.data[..reply.length]);
  }

  /** `handle_connection` and `execute_interface`. */
  method HandleConnection(table: InterfaceTable, stream: array<byte>, conn: nat) returns (x: Service)
    requires table.Valid()
    modifies table, table.objects
    ensures x == Serve(old(table.state), old(stream[..]), conn)
    ensures table.Valid() && table.state == AfterServe(old(table.state), old(stream[..]), conn)
    ensures table.objects == old(table.objects)
  {
    hide R.QueryInfo, Points, Faithful;
    if stream.Length < 4 {
      return Refused;
    }
    var size := U32At(stream[..], 0);
    if size == 0 || size >= 0x8000_0000 || stream.Length != 4 + size {
      return Refused;
    }
    var packet := new byte[size](i requires 0 <= i < size reads stream => stream[4 + i]);
    assert packet[..] == stream[..][4..];
    if size < 4 {
      return Faulty;
    }
    var id := U32At(packet[..], 0);
    if id == 0 {
      var info := FetchInfo(table, packet);
      match info
      case InfoReply(reply) => return Describe(reply);
      case NoReply => return Refused;
      case _ => return Faulty;
    }
    var portid := table.Forward(id, conn);
    match portid
    case None => return Refused;
    case Some(p) => return Forward(id, p, packet[..]);
  }

  // ---- a netlink frame ----

  /** `Activated`: a handshake was taken. `ToSocket`: a result goes back on a connection. */
  datatype Income = BadFrame | Dropped | Activated(ids: seq<u32>, portid: u32) | ToSocket(conn: nat, stream: seq<byte>)

  /** `handle_activate_interface` on the memory `body`, believed to hold `length` bytes. */
  function TakeHandshake(r: R.Registry, body: seq<byte>, length: u32, portid: u32): Income {
    if length < 4 then Dropped
    else if |body| < 4 then BadFrame
    else if length < 4 * Wrap(U32At(body, 0) + 1) then Dropped
    else
      match DecodeAll(DecodeU32, body, 4, U32At(body, 0))
      case OutOfBounds => BadFrame
      case Parsed(ids, _) => Activated(ids, portid)
  }

  /** `handle_interface_result`: `length` bytes of `body` are passed on to the connection in the
      interface's slot, behind their length. */
  function TakeResult(r: R.Registry, body: seq<byte>, length: u32): Income {
    if |body| < 4 then BadFrame
    else
      var id := U32At(body, 0);
      if id !in r.recs || r.recs[id].socket.None? then Dropped
      else if length > |body| then BadFrame
      else ToSocket(r.recs[id].socket.value, U32(length) + body[..length])
  }

  /** `handle_netlink_income` on a frame followed in memory by `beyond`: the body length subtracts
      the one-byte header from the whole frame's length, so it counts 16 bytes too many. */
  function Receive(r: R.Registry, frame: seq<byte>, beyond: seq<byte>): Income {
    if |frame| < 17 then BadFrame
    else
      var length := Wrap(U32At(frame, 0) + U32_LIMIT - 1);
      var body := frame[17..] + beyond;
      if frame[16] == INCOME_HANDSHAKE then TakeHandshake(r, body, length, U32At(frame, 12))
      else if frame[16] == INCOME_RESULT then TakeResult(r, body, length)
      else Dropped
  }

  /** The registry after that. */
  function AfterIncome(r: R.Registry, x: Income): R.Registry {
    if x.Activated? then R.Activate(r, x.ids, x.portid) else r
  }

  /** What becomes of a handshake: it is dropped exactly when its count claims more ids than the
      frame's length seems to hold, 16 bytes more than it does; and otherwise its ids are taken if
      memory holds them. */
  lemma HandshakeTakenExactly(r: R.Registry, portid: u32, packet: seq<byte>, beyond: seq<byte>)
    requires Sendable(packet) && |packet| >= 4
    ensures var f, count := KernelFrame(portid, INCOME_HANDSHAKE, packet), U32At(packet, 0);
            var x := Receive(r, f, beyond);
            && (x.Dropped? <==> |f| - 1 < 4 * Wrap(count + 1))
            && (x.Activated? <==> |f| - 1 >= 4 * Wrap(count + 1) && 4 + 4 * count <= |f| - 17 + |beyond|)
            && (x.Activated? ==> x.portid == portid && |x.ids| == count)
  {
    hide KernelFrame, U32At, DecodeAll;
    var f := KernelFrame(portid, INCOME_HANDSHAKE, packet);
    KernelFrameFields(portid, INCOME_HANDSHAKE, packet);
    var body := f[17..] + beyond;
    assert Wrap(|f| + U32_LIMIT - 1) == |f| - 1;
    assert body[0..4] == f[17..17 + |packet|][0..4] == packet[0..4];
    U32AtExact(packet, 0, U32At(packet, 0));
    U32AtExact(body, 0, U32At(packet, 0));
    IdsReadableExactly(body, 4, U32At(packet, 0));
  }

  /** A frame of any other type is dropped. */
  lemma OtherTypesAreDropped(r: R.Registry, portid: u32, kind: byte, packet: seq<byte>, beyond: seq<byte>)
    requires Sendable(packet) && kind != INCOME_HANDSHAKE && kind != INCOME_RESULT
    ensures Receive(r, KernelFrame(portid, kind, packet), beyond).Dropped?
  {
    hide KernelFrame;
    KernelFrameFields(portid, kind, packet);
  }

  /** `handle_netlink_income`; `memory` is the frame, `frameLength` bytes, and what follows it. */
  method HandleIncome(table: InterfaceTable, memory: array<byte>, frameLength: nat) returns (x: Income)
    requires table.Valid() && frameLength <= memory.Length
    modifies table, table.objects
    ensures x == Receive(old(table.state), old(memory[..frameLength]), old(memory[frameLength..]))
    ensures table.Valid() && table.state == AfterIncome(old(table.state), x)
    ensures table.objects == old(table.objects)
  {
    hide DecodeAll, Points, Faithful, R.Activate, U32At;
    if frameLength < 17 {
      return BadFrame;
    }
    ghost var frame, beyond := memory[..frameLength], memory[frameLength..];
    var body := memory[17..];
    assert body == frame[17..] + beyond;
    SameWord(memory[..], frame, 0);
    SameWord(memory[..], frame, 12);
    var length := Wrap(U32At(memory[..], 0) + U32_LIMIT - 1);
    if memory[16] == INCOME_HANDSHAKE {
      x := Handshake(table, body, length, U32At(memory[..], 12));
    } else if memory[16] == INCOME_RESULT {
      x := Result(table, body, length);
    } else {
      return Dropped;
    }
  }

  lemma SameWord(m: seq<byte>, prefix: seq<byte>, p: nat)
    requires p + 4 <= |prefix| <= |m| && prefix == m[..|prefix|]
    ensures U32At(prefix, p) == U32At(m, p)
  {
  }

  method Handshake(table: InterfaceTable, body: seq<byte>, length: u32, portid: u32) returns (x: Income)
    requires table.Valid()
    modifies table, table.objects
    ensures x == TakeHandshake(old(table.state), body, length, portid)
    ensures table.Valid() && table.state == AfterIncome(old(table.state), x)
    ensures table.objects == old(table.objects)
  {
    hide DecodeAll, Points, Faithful, R.Activate;
    if length < 4 {
      return Dropped;
    }
    if |body| < 4 {
      return BadFrame;
    }
    var count: int := U32At(body, 0);
    if length < 4 * Wrap(count + 1) {
      return Dropped;
    }
    var ids := ReadIds(body, count);
    if ids.OutOfBounds? {
      return BadFrame;
    }
    table.Activate(ids.value, portid);
    return Activated(ids.value, portid);
  }

  /** The array of ids behind the count. */
  method ReadIds(body: seq<byte>, count: u32) returns (r: Parsed<seq<u32>>)
    ensures r == DecodeAll(DecodeU32, body, 4, count)
  {
    hide DecodeAll;
    ghost var all := DecodeAll(DecodeU32, body, 4, count);
    var ids: seq<u32>, cursor := [], 4;
    PrependNothing(all);
    for i := 0 to count
      invariant |ids| == i && cursor == 4 + 4 * i
      invariant all == Prepend(ids, DecodeAll(DecodeU32, body, cursor, count - i))
    {
      DecodeStep(DecodeU32, body, ids, cursor, count - i);
      if cursor + 4 > |body| {
        return OutOfBounds;
      }
      ids := ids + [U32At(body, cursor)];
      cursor := cursor + 4;
    }
    DecodeNone(DecodeU32, body, cursor);
    assert ids + [] == ids;
    return Parsed(ids, cursor);
  }

  method Result(table: InterfaceTable, body: seq<byte>, length: u32) returns (x: Income)
    requires table.Valid()
    ensures x == TakeResult(table.state, body, length)
  {
    hide Points;
    if |body| < 4 {
      return BadFrame;
    }
    var o := table.Find(U32At(body, 0));
    if o == null || o.socket.None? {
      return Dropped;
    }
    if length > |body| {
      return BadFrame;
    }
    return ToSocket(o.socket.value, U32(length) + body[..length]);
  }

  // ---- the calling side ----

  /** The bytes `execute_remote_interface` writes to its connection; None if the serializer
      overruns its buffer. */
  function CallStream(id: u32, argv: seq<Blob>): Option<seq<byte>>
    requires |argv| < U32_LIMIT
  {
    match RpcBuf(id, argv)
    case Overrun => None
    case Buf(bytes, _) => if |bytes| < U32_LIMIT then Some(U32(|bytes|) + bytes) else None
  }

  lemma CallStreamIsPacket(id: u32, argv: seq<Blob>)
    requires |argv| < U32_LIMIT && CallStream(id, argv).Some?
    ensures var packet := EncodeRpc(id, argv);
            |packet| < 0x1_0000_0000 && CallStream(id, argv).value == U32(|packet|) + packet
  {
    RpcBufIsEncode(id, argv);
  }

  /** Exactly which calls can be sent: those whose every source fits in turn. */
  lemma SendsExactly(id: u32, argv: seq<Blob>)
    requires |argv| < U32_LIMIT
    ensures CallStream(id, argv).Some? <==> FitInTurn([U32(id), U32(|argv|)] + ValueChunks(argv))
  {
    hide RpcBuf, FitInTurn, ValueChunks, U32;
    RpcFitsExactly(id, argv);
    RpcBufIsEncode(id, argv);
  }

  method SendCall(id: u32, argv: array<Blob>) returns (stream: Option<seq<byte>>)
    requires argv.Length < U32_LIMIT
    ensures stream == CallStream(id, argv[..])
  {
    RpcBufIsEncode(id, argv[..]);
    hide RpcBuf, EncodeRpc;
    var ok, packet := SerializeRpc(id, argv);
    if !ok {
      return None;
    }
    return Some(U32(packet.length) + packet.data[..packet.length]);
  }

  /** What comes back: nothing usable, a packet that runs past its buffer, or return values. */
  datatype Outcome = Strays | NoResult | Returns(values: seq<Blob>)

  /** The rest of `execute_remote_interface`, which looks at the values of whatever packet comes
      and not at the id in it. */
  function Collect(stream: seq<byte>): Outcome {
    if |stream| < 4 then NoResult
    else
      var size := U32At(stream, 0);
      if size == 0 || size >= 0x8000_0000 || |stream| != 4 + size then NoResult
      else
        match DecodeRpc(stream[4..], 0)
        case OutOfBounds => Strays
        case Parsed(reply, _) => Returns(reply.values)
  }

  /** A reply is looked at exactly when it is whole, of positive length; then it yields values, or is
      read past its end if its counts claim more than it holds. */
  lemma RepliesLookedAtExactly(stream: seq<byte>)
    ensures var whole := 4 < |stream| < 4 + 0x8000_0000 && Holds(stream, 0, U32(|stream| - 4));
            && (Collect(stream).NoResult? <==> !whole)
            && (Collect(stream).Strays? <==> whole && DecodeRpc(stream[4..], 0).OutOfBounds?)
  {
    hide DecodeRpc, U32, U32At;
    if |stream| >= 4 {
      U32AtExact(stream, 0, U32At(stream, 0));
      if 4 < |stream| < 4 + 0x8000_0000 { U32AtExact(stream, 0, |stream| - 4); }
    }
  }

  method CollectReply(stream: array<byte>) returns (x: Outcome)
    ensures x == Collect(stream[..])
  {
    hide DecodeRpc;
    if stream.Length < 4 {
      return NoResult;
    }
    var size := U32At(stream[..], 0);
    if size == 0 || size >= 0x8000_0000 || stream.Length != 4 + size {
      return NoResult;
    }
    var buffer := new byte[size](i requires 0 <= i < size reads stream => stream[4 + i]);
    assert buffer[..] == stream[..][4..];
    var reply := UnserializeRpcKernel(buffer);
    return if reply.OutOfBounds? then Strays else Returns(reply.value);
  }

  /** What the caller's slots hold when `peer_ioctl` returns; None if it leaves them or dereferences
      NULL. Without a result it still copies `cachedRetc` values, from a NULL array. */
  function CopyBack(x: Outcome, cachedRetc: nat, slots: seq<Blob>): Option<seq<Blob>> {
    match x
    case Strays => None
    case NoResult => if cachedRetc == 0 then Some(slots) else None
    case Returns(values) => if |values| <= |slots| then Some(values + slots[|values|..]) else None
  }

  /** Exactly when copying back is defined, and that it then fills the first slots with the values
      in order and touches no other. */
  lemma CopiesBackExactly(x: Outcome, cachedRetc: nat, slots: seq<Blob>)
    ensures var r := CopyBack(x, cachedRetc, slots);
            && (r.Some? <==> (x.NoResult? && cachedRetc == 0) || (x.Returns? && |x.values| <= |slots|))
            && (r.Some? ==>
                  && |r.value| == |slots|
                  && forall i | 0 <= i < |slots| ::
                       r.value[i] == if x.Returns? && i < |x.values| then x.values[i] else slots[i])
  {
  }

  /** The copying loop of `peer_ioctl`. */
  method CopyReturnValues(x: Outcome, cachedRetc: nat, slots: array<Blob>) returns (defined: bool)
    modifies slots
    ensures var r := CopyBack(x, cachedRetc, old(slots[..]));
            (defined <==> r.Some?) && (defined ==> slots[..] == r.value)
  {
    if !x.Returns? {
      return x.NoResult? && cachedRetc == 0;
    }
    for i := 0 to |x.values|
      invariant i <= slots.Length
      invariant slots[..] == x.values[..i] + old(slots[..])[i..]
    {
      if i >= slots.Length {
        return false;
      }
      slots[i] := x.values[i];
    }
    assert x.values[..|x.values|] == x.values;
    return true;
  }
}
