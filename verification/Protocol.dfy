/** The remote call protocol of one serving node as a transition system over the bytes in flight:
    callers' connections, netlink frames in both directions, replies. Messages may be delivered in
    any order and may be lost; processes register, remove and serve interfaces at any time. */
module Protocol {
  import opened Bytes
  import opened Buffer
  import opened Codec
  import opened InfoPacket
  import opened Netlink
  import opened RpcPacket
  import R = Registry
  import Kernel
  import opened Library

  datatype Call = Call(id: u32, argv: seq<Blob>)

  /** Where a frame to the kernel comes from (history). */
  datatype Origin = FromHandshake(portid: u32, ids: seq<u32>) | FromCall(call: nat, portid: u32)

  /** A message in flight. `call` is history: the connection whose request it stems from. */
  datatype Msg =
    | Request(call: nat, stream: seq<byte>)
    | ToUser(portid: u32, frame: seq<byte>, call: nat)
    | ToKernel(frame: seq<byte>, origin: Origin)
    | Reply(conn: nat, stream: seq<byte>, call: nat)

  /** The values a caller got, and (history) the call whose callback produced them. */
  datatype Answer = Answer(values: seq<Blob>, call: nat)

  /** `clients` gives the ids each listening port's process manages; `calls` every call ever made,
      by its connection; `answers` what has come back. */
  datatype State = State(
    reg: R.Registry, clients: map<u32, seq<u32>>, calls: map<nat, Call>, answers: map<nat, Answer>, net: seq<Msg>)

  const START := State(R.NO_INTERFACES, map[], map[], map[], [])

  /** `Deliver` hands message `k` to its receiver; for a frame to the kernel `beyond` is the memory
      behind it. */
  datatype Action =
    | Register(info: InfoRecord, pid: int)
    | Remove(id: u32)
    | Listen(portid: u32, ids: seq<u32>)
    | MakeCall(conn: nat, id: u32, argv: seq<Blob>)
    | Deliver(k: nat, beyond: seq<byte>)
    | Lose(k: nat)

  // ---- steps ----

  /** The structures of a process that manages `ids`, each as it was registered. */
  function ManagedBy(ids: seq<u32>, born: map<u32, InfoRecord>): (m: seq<Managed>)
    ensures |m| == |ids|
  {
    seq(|ids|, i requires 0 <= i < |ids| =>
      if ids[i] in born then Managed(ids[i], |born[ids[i]].args|, |born[ids[i]].rets|) else Managed(ids[i], 0, 0))
  }

  /** What a delivery changes, besides taking its message. */
  datatype Effect = Effect(reg: R.Registry, answers: map<nat, Answer>, out: seq<Msg>)

  function NoEffect(s: State): Effect {
    Effect(s.reg, s.answers, [])
  }

  function Handle(s: State, cb: Callback, m: Msg, beyond: seq<byte>): Option<Effect> {
    match m
    case Request(conn, stream) =>
      (match Kernel.Serve(s.reg, stream, conn)
       case Faulty => None
       case Refused => Some(NoEffect(s))
       case Describe(_) => Some(NoEffect(s))
       case Forward(_, portid, packet) =>
         Some(Effect(Kernel.AfterServe(s.reg, stream, conn), s.answers,
                     if Sendable(packet) then [ToUser(portid, UserFrame(packet), conn)] else [])))
    case ToUser(portid, frame, call) =>
      if portid !in s.clients || !HasPayload(frame) then Some(NoEffect(s))
      else
        (match Turn(ManagedBy(s.clients[portid], s.reg.born), frame, cb)
         case Faulty => None
         case Ignored => Some(NoEffect(s))
         case Result(packet) =>
           Some(Effect(s.reg, s.answers,
                       if Sendable(packet)
                       then [ToKernel(KernelFrame(portid, INCOME_RESULT, packet), FromCall(call, portid))]
                       else [])))
    case ToKernel(frame, origin) =>
      var x := Kernel.Receive(s.reg, frame, beyond);
      (match x
       case BadFrame => None
       case Dropped => Some(NoEffect(s))
       case Activated(_, _) => Some(Effect(Kernel.AfterIncome(s.reg, x), s.answers, []))
       case ToSocket(conn, stream) =>
         Some(Effect(s.reg, s.answers, [Reply(conn, stream, if origin.FromCall? then origin.call else 0)])))
    case Reply(conn, stream, call) =>
      if conn in s.answers then Some(NoEffect(s))
      else
        match Kernel.Collect(stream)
        case Strays => None
        case NoResult => Some(NoEffect(s))
        case Returns(values) => Some(Effect(s.reg, s.answers[conn := Answer(values, call)], []))
  }

  function Without(net: seq<Msg>, k: nat): seq<Msg>
    requires k < |net|
  {
    net[..k] + net[k + 1..]
  }

  /** One step; None when it is undefined. Actions that cannot occur change nothing: calls on a
      connection in use, delivery of no message, listening for ids nobody registered. */
  function Step(s: State, cb: Callback, a: Action): Option<State> {
    match a
    case Register(info, pid) => Some(s.(reg := R.Register(s.reg, info, pid)))
    case Remove(id) =>
      (match R.Remove(s.reg, id)
       case NotFound => Some(s)
       case ReadsOutsideList => None
       case Removed(r) => Some(s.(reg := r)))
    case Listen(portid, ids) =>
      if |ids| >= 0x1000_0000 || exists id :: id in ids && id !in s.reg.born then Some(s)
      else
        IdsLength(ids);
        Some(s.(clients := s.clients[portid := ids],
                net := s.net + [ToKernel(KernelFrame(portid, INCOME_HANDSHAKE, EncodeIds(ids)),
                    FromHandshake(portid, ids))]))
    case MakeCall(conn, id, argv) =>
      if conn in s.calls || |argv| >= U32_LIMIT then Some(s)
      else
        (match Kernel.CallStream(id, argv)
         case None => None
         case Some(stream) => Some(s.(calls := s.calls[conn := Call(id, argv)], net := s.net
             + [Request(conn, stream)])))
    case Deliver(k, beyond) =>
      if k >= |s.net| then Some(s)
      else
        (match Handle(s, cb, s.net[k], beyond)
         case None => None
         case Some(e) => Some(s.(reg := e.reg, answers := e.answers, net := Without(s.net, k) + e.out)))
    case Lose(k) =>
      if k >= |s.net| then Some(s) else Some(s.(net := Without(s.net, k)))
  }

  function Exec(s: State, cb: Callback, actions: seq<Action>): Option<State> {
    if actions == [] then Some(s)
    else
      match Exec(s, cb, actions[..|actions| - 1])
      case None => None
      case Some(t) => Step(t, cb, actions[|actions| - 1])
  }

  function Registrations(actions: seq<Action>): nat {
    if actions == [] then 0
    else Registrations(actions[..|actions| - 1]) + if actions[|actions| - 1].Register? then 1 else 0
  }

  // ---- what each delivery does to the messages that occur ----

  function Packet(c: Call): seq<byte> {
    if |c.argv| < U32_LIMIT then EncodeRpc(c.id, c.argv) else []
  }

  /** The callback's values for a call, as many as its interface was registered with. */
  ghost predicate Succeeds(cb: Callback, born: map<u32, InfoRecord>, c: Call) {
    c.id in born && cb(c.id, c.argv).Values? && |cb(c.id, c.argv).retv| == |born[c.id].rets|
  }

  function ResultPacket(cb: Callback, c: Call): seq<byte>
    requires cb(c.id, c.argv).Values?
  {
    if |cb(c.id, c.argv).retv| < U32_LIMIT then EncodeRpc(c.id, cb(c.id, c.argv).retv) else []
  }

  /** A reply stream carries `packet` at its start, whatever padding and stray bytes follow. */
  ghost predicate Carries(stream: seq<byte>, packet: seq<byte>) {
    |stream| >= 4 && U32At(stream, 0) == |stream| - 4 && Holds(stream, 4, packet)
  }

  /** An information query that leaves the packet, or makes the serializer leave its arrays. */
  predicate QueryStrays(r: R.Registry, argv: seq<Blob>) {
    || argv == [] || |argv[0]| < 4
    || (U32At(argv[0], 0) in r.recs && SerializedInfo(U32At(argv[0], 0), r.recs[U32At(argv[0], 0)].info).Undefined?)
  }

  lemma RequestEffect(s: State, cb: Callback, conn: nat, c: Call, beyond: seq<byte>)
    requires |c.argv| < U32_LIMIT && |Packet(c)| < U32_LIMIT
    ensures var p := Packet(c);
            var e := Handle(s, cb, Request(conn, U32(|p|) + p), beyond);
            if c.id == 0 then e == if |p| < 0x8000_0000 && QueryStrays(s.reg, c.argv) then None else Some(NoEffect(s))
            else if |p| < 0x8000_0000 && c.id in s.reg.recs then
              e == Some(Effect(R.Bind(s.reg, c.id, conn), s.answers,
                               if Sendable(p) then [ToUser(s.reg.recs[c.id].portid, UserFrame(p), conn)] else []))
            else e == Some(NoEffect(s))
  {
    hide EncodeAll, DecodeAll, UserFrame, R.Execute, R.Bind, U32, U32At, SerializedInfo;
    var p := Packet(c);
    assert p[0..0 + |p|] == p;
    assert |p| >= 8;
    if |p| < 0x8000_0000 {
      Kernel.ServesPacket(s.reg, p, conn);
      if c.id == 0 {
        R.QueryAsks(s.reg, p, c.argv, conn);
      } else {
        R.ExecuteRpc(s.reg, p, c.id, c.argv, conn);
        RpcIdAt(p, c.id, c.argv);
      }
    } else {
      var stream := U32(|p|) + p;
      assert stream[0..4] == U32(|p|);
      U32AtExact(stream, 0, |p|);
    }
  }

  /** The process on a port takes the call: it fits its buffer, names an interface it manages and
      has that interface's number of arguments. */
  ghost predicate Takes(s: State, portid: u32, c: Call) {
    && portid in s.clients && |Packet(c)| <= MAX_PAYLOAD
    && c.id in s.clients[portid] && c.id in s.reg.born && |c.argv| == |s.reg.born[c.id].args|
  }

  lemma ManagedFinds(ids: seq<u32>, born: map<u32, InfoRecord>, id: u32)
    ensures var m := ManagedBy(ids, born);
            var i := FindManaged(m, id);
            && (i < |m| <==> id in ids)
            && (i < |m| && id in born ==> m[i] == Managed(id, |born[id].args|, |born[id].rets|))
  {
    var m := ManagedBy(ids, born);
    if id in ids {
      var j :| 0 <= j < |ids| && ids[j] == id;
      assert m[j].id == id;
    }
  }

  lemma BufferHoldsCall(c: Call)
    requires |c.argv| < U32_LIMIT && |Packet(c)| <= MAX_PAYLOAD
    ensures var p := Packet(c);
            var b := p + Zeros(MAX_PAYLOAD - |p|);
            U32At(b, 0) == c.id && DecodeRpc(b, 0) == Parsed(Rpc(c.id, c.argv), |p|)
  {
    hide EncodeAll;
    var p := Packet(c);
    var b := p + Zeros(MAX_PAYLOAD - |p|);
    assert b[0..0 + |p|] == p;
    DecodeOfEncode(b, 0, c.id, c.argv);
  }

  /** What a serving process answers: the callback's values for exactly the call's id and arguments. */
  lemma UserEffect(s: State, cb: Callback, portid: u32, c: Call, call: nat, beyond: seq<byte>)
    requires |c.argv| < U32_LIMIT && Sendable(Packet(c))
    requires portid in s.clients ==> forall id | id in s.clients[portid] :: id in s.reg.born && id != 0
    ensures var e := Handle(s, cb, ToUser(portid, UserFrame(Packet(c)), call), beyond);
            if Takes(s, portid, c) && Succeeds(cb, s.reg.born, c) then
              var p := ResultPacket(cb, c);
              if RpcBuf(c.id, cb(c.id, c.argv).retv).Overrun? then e.None?
              else
                e == Some(Effect(s.reg, s.answers,
                  if Sendable(p)
                  then [ToKernel(KernelFrame(portid, INCOME_RESULT, p), FromCall(call, portid))] else []))
            else if Takes(s, portid, c) && cb(c.id, c.argv).LeavesUnset? then e.None?
            else e == Some(NoEffect(s))
  {
    hide DecodeRpc, EncodeRpc, UserFrame, KernelFrame, RpcBuf, ManagedBy, U32At;
    var p := Packet(c);
    ReceivedFromKernel(p);
    assert |p| >= 8 by { RpcLength(c.id, c.argv); }
    if portid in s.clients {
      var ids := s.clients[portid];
      ManagedFinds(ids, s.reg.born, c.id);
      if |p| <= MAX_PAYLOAD {
        BufferHoldsCall(c);
      } else {
        ManagedFinds(ids, s.reg.born, 0);
        ZerosAreZero();
      }
      if cb(c.id, c.argv).Values? && |cb(c.id, c.argv).retv| < U32_LIMIT {
        RpcBufIsEncode(c.id, cb(c.id, c.argv).retv);
      }
    }
  }

  lemma ZerosAreZero()
    ensures U32At(Zeros(MAX_PAYLOAD), 0) == 0
  {
  }

  /** A result goes to whatever connection is in the slot of the interface it is for, behind a
      length that counts the padding and 16 bytes from beyond the frame; if the interface is gone or
      its slot empty it goes nowhere. */
  lemma ResultEffect(s: State, cb: Callback, portid: u32, call: nat, id: u32, retv: seq<Blob>, beyond: seq<byte>)
    requires |retv| < U32_LIMIT && Sendable(EncodeRpc(id, retv))
    ensures var p := EncodeRpc(id, retv);
            var e := Handle(s, cb, ToKernel(KernelFrame(portid, INCOME_RESULT, p), FromCall(call, portid)), beyond);
            if id !in s.reg.recs || s.reg.recs[id].socket.None? then e == Some(NoEffect(s))
            else if |beyond| < 16 then e.None?
            else
              && e.Some? && |e.value.out| == 1 && e.value.out[0].Reply?
              && var stream := e.value.out[0].stream;
              && e == Some(Effect(s.reg, s.answers, [Reply(s.reg.recs[id].socket.value, stream, call)]))
              && Carries(stream, p) && |stream| < 0x8000_0000
  {
    hide EncodeAll, KernelFrame, U32At, R.Activate, DecodeAll;
    var p := EncodeRpc(id, retv);
    var f := KernelFrame(portid, INCOME_RESULT, p);
    KernelFrameFields(portid, INCOME_RESULT, p);
    var length := |f| - 1;
    assert Wrap(|f| + U32_LIMIT - 1) == length;
    var body := f[17..] + beyond;
    assert body[..|p|] == p;
    assert Holds(body, 0, p);
    RpcIdAt(body, id, retv);
    assert Kernel.Receive(s.reg, f, beyond) == Kernel.TakeResult(s.reg, body, length);
    if |beyond| >= 16 {
      var stream := U32(length) + body[..length];
      assert stream[0..4] == U32(length);
      U32AtExact(stream, 0, length);
      assert stream[4..4 + |p|] == p;
    }
  }

  /** The id is the first word of an RPC packet. */
  lemma RpcIdAt(m: seq<byte>, id: u32, values: seq<Blob>)
    requires |values| < U32_LIMIT && Holds(m, 0, EncodeRpc(id, values))
    ensures |m| >= 4 && U32At(m, 0) == id
  {
    hide EncodeAll, U32At;
    HoldsConcat(m, 0, U32(id) + U32(|values|), EncodeAll(EncodeBlock, values));
    HoldsConcat(m, 0, U32(id), U32(|values|));
    U32AtExact(m, 0, id);
  }

  lemma HandshakeEffect(s: State, cb: Callback, portid: u32, ids: seq<u32>, origin: Origin, beyond: seq<byte>)
    requires |ids| < 0x1000_0000 && Sendable(EncodeIds(ids))
    ensures Handle(s, cb, ToKernel(KernelFrame(portid, INCOME_HANDSHAKE, EncodeIds(ids)), origin), beyond)
         == Some(Effect(R.Activate(s.reg, ids, portid), s.answers, []))
  {
    hide EncodeIds, KernelFrame, U32At, R.Activate, DecodeAll;
    var p := EncodeIds(ids);
    var f := KernelFrame(portid, INCOME_HANDSHAKE, p);
    KernelFrameFields(portid, INCOME_HANDSHAKE, p);
    var length := |f| - 1;
    assert Wrap(|f| + U32_LIMIT - 1) == length;
    var body := f[17..] + beyond;
    assert body[..|p|] == p;
    assert Holds(body, 0, p);
    IdsDecode(body, ids);
    IdsPacketLength(ids);
    assert Kernel.Receive(s.reg, f, beyond) == Kernel.TakeHandshake(s.reg, body, length, portid);
  }

  /** A caller accepts exactly the streams that carry an RPC packet of the values behind a positive
      length. */
  lemma CollectsExactly(stream: seq<byte>, values: seq<Blob>)
    requires |values| < U32_LIMIT
    ensures Kernel.Collect(stream) == Kernel.Returns(values) <==>
            |stream| - 4 < 0x8000_0000 && exists id: u32 :: Carries(stream, EncodeRpc(id, values))
  {
    hide EncodeRpc, DecodeRpc, U32At;
    if Kernel.Collect(stream) == Kernel.Returns(values) {
      var packet := stream[4..];
      EncodeOfDecode(packet, 0);
      var call := DecodeRpc(packet, 0).value;
      assert EncodeRpc(call.id, values) == packet[0..0 + |EncodeRpc(call.id, values)|];
      assert stream[4..4 + |EncodeRpc(call.id, values)|] == EncodeRpc(call.id, values);
      assert Carries(stream, EncodeRpc(call.id, values));
    } else if id: u32 :| |stream| - 4 < 0x8000_0000 && Carries(stream, EncodeRpc(id, values)) {
      var p := EncodeRpc(id, values);
      assert |p| >= 8 by { RpcLength(id, values); }
      assert stream[4..][0..0 + |p|] == stream[4..4 + |p|];
      DecodeOfEncode(stream[4..], 0, id, values);
    }
  }

  /** A caller that is still waiting gets exactly the values of the packet its reply carries. */
  lemma ReplyEffect(
    s: State, cb: Callback, conn: nat, stream: seq<byte>, call: nat, id: u32, retv: seq<Blob>, beyond: seq<byte>)
    requires |retv| < U32_LIMIT && Carries(stream, EncodeRpc(id, retv))
    ensures Handle(s, cb, Reply(conn, stream, call), beyond)
         == if conn in s.answers || |stream| - 4 >= 0x8000_0000 then Some(NoEffect(s))
            else Some(Effect(s.reg, s.answers[conn := Answer(retv, call)], []))
  {
    hide EncodeRpc, DecodeRpc;
    var p := EncodeRpc(id, retv);
    assert |p| >= 8 by { RpcLength(id, retv); }
    assert stream[4..][0..0 + |p|] == stream[4..4 + |p|];
    DecodeOfEncode(stream[4..], 0, id, retv);
  }
}
