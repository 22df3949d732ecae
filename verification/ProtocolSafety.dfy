/** Safety of the call protocol over every run, with any number of calls in progress. */
module ProtocolSafety {
  import opened Bytes
  import opened Netlink
  import opened RpcPacket
  import R = Registry
  import opened InfoPacket
  import opened Library
  import opened Protocol
  import Kernel

  /** Messages are what their history says: a call's packet on its way in, or on its way back the
      packet of the callback's values for some call on the same interface. */
  ghost predicate GoodMsg(calls: map<nat, Call>, born: map<u32, InfoRecord>, cb: Callback, m: Msg) {
    match m
    case Request(call, stream) => call in calls && |Packet(calls[call])| < U32_LIMIT
                                  && stream == U32(|Packet(calls[call])|) + Packet(calls[call])
    case ToUser(_, frame, call) => call in calls && Sendable(Packet(calls[call]))
                                   && frame == UserFrame(Packet(calls[call]))
    case ToKernel(frame, FromHandshake(portid, ids)) =>
      |ids| < 0x1000_0000 && Sendable(EncodeIds(ids)) && frame == KernelFrame(portid, INCOME_HANDSHAKE, EncodeIds(ids))
    case ToKernel(frame, FromCall(call, portid)) =>
      && call in calls && Succeeds(cb, born, calls[call]) && Sendable(ResultPacket(cb, calls[call]))
      && frame == KernelFrame(portid, INCOME_RESULT, ResultPacket(cb, calls[call]))
    case Reply(conn, stream, call) =>
      && conn in calls && call in calls && calls[conn].id == calls[call].id
      && Succeeds(cb, born, calls[call]) && Carries(stream, ResultPacket(cb, calls[call]))
  }

  /** A connection in an interface's slot made its call to that interface. */
  ghost predicate GoodSlots(recs: map<u32, R.Rec>, calls: map<nat, Call>) {
    forall id | id in recs && recs[id].socket.Some? ::
      recs[id].socket.value in calls && calls[recs[id].socket.value].id == id
  }

  /** A caller's answer is the callback's values for some call on the interface it called. */
  ghost predicate GoodAnswers(
    answers: map<nat, Answer>, calls: map<nat, Call>, born: map<u32, InfoRecord>, cb: Callback)
  {
    forall conn | conn in answers ::
      && conn in calls && answers[conn].call in calls && calls[conn].id == calls[answers[conn].call].id
      && Succeeds(cb, born, calls[answers[conn].call])
      && Values(answers[conn].values) == cb(calls[conn].id, calls[answers[conn].call].argv)
  }

  ghost predicate GoodClients(clients: map<u32, seq<u32>>, born: map<u32, InfoRecord>) {
    forall portid | portid in clients :: forall id | id in clients[portid] :: id in born && id != 0
  }

  ghost predicate Inv(s: State, cb: Callback, registrations: nat) {
    && R.Valid(s.reg) && s.reg.next <= 1 + registrations
    && (forall conn | conn in s.calls :: |s.calls[conn].argv| < U32_LIMIT)
    && (forall m | m in s.net :: GoodMsg(s.calls, s.reg.born, cb, m))
    && GoodSlots(s.reg.recs, s.calls)
    && GoodAnswers(s.answers, s.calls, s.reg.born, cb)
    && GoodClients(s.clients, s.reg.born)
  }

  lemma RequestKeeps(s: State, cb: Callback, registrations: nat, m: Msg, beyond: seq<byte>)
    requires Inv(s, cb, registrations) && m in s.net && m.Request? && Handle(s, cb, m, beyond).Some?
    ensures HandleKept(s, cb, Handle(s, cb, m, beyond).value)
  {
    hide Handle, R.Valid, Packet, U32, UserFrame;
    assert GoodMsg(s.calls, s.reg.born, cb, m);
    var c := s.calls[m.call];
    RequestEffect(s, cb, m.call, c, beyond);
    if c.id in s.reg.recs { R.BindKeeps(s.reg, c.id, m.call); }
  }

  lemma ToUserKeeps(s: State, cb: Callback, registrations: nat, m: Msg, beyond: seq<byte>)
    requires Inv(s, cb, registrations) && m in s.net && m.ToUser? && Handle(s, cb, m, beyond).Some?
    ensures HandleKept(s, cb, Handle(s, cb, m, beyond).value)
  {
    hide Handle, R.Valid, Packet, ResultPacket, UserFrame, KernelFrame;
    assert GoodMsg(s.calls, s.reg.born, cb, m);
    var c := s.calls[m.call];
    UserEffect(s, cb, m.portid, c, m.call, beyond);
  }

  lemma ToKernelKeeps(s: State, cb: Callback, registrations: nat, m: Msg, beyond: seq<byte>)
    requires Inv(s, cb, registrations) && m in s.net && m.ToKernel? && Handle(s, cb, m, beyond).Some?
    ensures HandleKept(s, cb, Handle(s, cb, m, beyond).value)
  {
    hide Handle, R.Valid, Packet, KernelFrame, EncodeRpc, EncodeIds, R.Activate;
    assert GoodMsg(s.calls, s.reg.born, cb, m);
    match m.origin
    case FromHandshake(portid, ids) =>
      HandshakeEffect(s, cb, portid, ids, m.origin, beyond);
      R.ActivateKeeps(s.reg, ids, portid);
      R.ActivateIsOneUpdate(s.reg, ids, portid);
    case FromCall(call, portid) =>
      var c := s.calls[call];
      ResultEffect(s, cb, portid, call, c.id, cb(c.id, c.argv).retv, beyond);
  }

  lemma ReplyKeeps(s: State, cb: Callback, registrations: nat, m: Msg, beyond: seq<byte>)
    requires Inv(s, cb, registrations) && m in s.net && m.Reply? && Handle(s, cb, m, beyond).Some?
    ensures HandleKept(s, cb, Handle(s, cb, m, beyond).value)
  {
    hide Handle, R.Valid, Packet, EncodeRpc, Carries;
    assert GoodMsg(s.calls, s.reg.born, cb, m);
    var c := s.calls[m.call];
    ReplyEffect(s, cb, m.conn, m.stream, m.call, c.id, cb(c.id, c.argv).retv, beyond);
  }

  /** What a delivery leaves in order. */
  ghost predicate HandleKept(s: State, cb: Callback, e: Effect) {
    && R.Valid(e.reg) && e.reg.next == s.reg.next && e.reg.born == s.reg.born
    && (forall m | m in e.out :: GoodMsg(s.calls, s.reg.born, cb, m))
    && GoodSlots(e.reg.recs, s.calls)
    && GoodAnswers(e.answers, s.calls, s.reg.born, cb)
  }

  lemma HandleKeeps(s: State, cb: Callback, registrations: nat, m: Msg, beyond: seq<byte>)
    requires Inv(s, cb, registrations) && m in s.net && Handle(s, cb, m, beyond).Some?
    ensures HandleKept(s, cb, Handle(s, cb, m, beyond).value)
  {
    hide Handle, HandleKept, Inv;
    match m
    case Request(_, _) => RequestKeeps(s, cb, registrations, m, beyond);
    case ToUser(_, _, _) => ToUserKeeps(s, cb, registrations, m, beyond);
    case ToKernel(_, _) => ToKernelKeeps(s, cb, registrations, m, beyond);
    case Reply(_, _, _) => ReplyKeeps(s, cb, registrations, m, beyond);
  }

  function RegistrationsAfter(a: Action, registrations: nat): nat {
    if a.Register? then registrations + 1 else registrations
  }

  /** New ids and new calls leave what was good good. */
  lemma GoodStays(
    calls: map<nat, Call>, calls': map<nat, Call>, born: map<u32, InfoRecord>, born': map<u32, InfoRecord>,
    cb: Callback, m: Msg)
    requires GoodMsg(calls, born, cb, m)
    requires forall c | c in calls :: c in calls' && calls'[c] == calls[c]
    requires forall id | id in born :: id in born' && born'[id] == born[id]
    ensures GoodMsg(calls', born', cb, m)
  {
    hide Packet, ResultPacket, UserFrame, KernelFrame, EncodeIds, Carries, Sendable;
  }

  lemma DeliverKeeps(s: State, cb: Callback, registrations: nat, k: nat, beyond: seq<byte>)
    requires Inv(s, cb, registrations) && Step(s, cb, Deliver(k, beyond)).Some?
    ensures Inv(Step(s, cb, Deliver(k, beyond)).value, cb, registrations)
  {
    hide Handle, R.Valid, GoodMsg, GoodSlots, GoodAnswers, GoodClients;
    if k < |s.net| {
      assert s.net[k] in s.net;
      HandleKeeps(s, cb, registrations, s.net[k], beyond);
    }
  }

  /** A registry that only evolved, and put no connection in a slot, keeps everything in order. */
  lemma RegistryChangeKeeps(s: State, cb: Callback, n: nat, r: R.Registry, n': nat)
    requires Inv(s, cb, n) && R.Valid(r) && R.Evolves(s.reg, r) && r.next <= 1 + n'
    requires forall id | id in r.recs && r.recs[id].socket.Some? ::
               id in s.reg.recs && s.reg.recs[id].socket == r.recs[id].socket
    ensures Inv(s.(reg := r), cb, n')
  {
    hide R.Valid, GoodMsg;
    forall m | m in s.net ensures GoodMsg(s.calls, r.born, cb, m) {
      GoodStays(s.calls, s.calls, s.reg.born, r.born, cb, m);
    }
  }

  lemma RegistryStepKeeps(s: State, cb: Callback, registrations: nat, a: Action)
    requires Inv(s, cb, registrations) && (a.Register? || a.Remove?) && Step(s, cb, a).Some?
    requires RegistrationsAfter(a, registrations) < 0xffff_ffff
    ensures Inv(Step(s, cb, a).value, cb, RegistrationsAfter(a, registrations))
  {
    var r, r' := s.reg, Step(s, cb, a).value.reg;
    assert R.Valid(r) && r.next <= 1 + registrations;
    assert Step(s, cb, a).value == s.(reg := r');
    hide Inv, R.Valid, R.ProcFor, R.IndexOfPid, R.Shifted;
    if a.Register? {
      R.RegisterKeeps(r, a.info, a.pid);
      RegistryChangeKeeps(s, cb, registrations, r', registrations + 1);
    } else if R.Remove(r, a.id).Removed? {
      R.RemoveKeeps(r, a.id);
      RegistryChangeKeeps(s, cb, registrations, r', registrations);
    }
  }

  lemma ListenKeeps(s: State, cb: Callback, registrations: nat, portid: u32, ids: seq<u32>)
    requires Inv(s, cb, registrations)
    ensures Inv(Step(s, cb, Listen(portid, ids)).value, cb, registrations)
  {
    R.ZeroIsNeverLive(s.reg);
    hide R.Valid, EncodeIds, KernelFrame, GoodSlots, GoodAnswers, Packet, ResultPacket, Carries, UserFrame;
    if |ids| < 0x1000_0000 && forall id | id in ids :: id in s.reg.born { IdsPacketLength(ids); }
  }

  lemma NewCallKeeps(s: State, cb: Callback, n: nat, conn: nat, c: Call, m: Msg)
    requires Inv(s, cb, n) && conn !in s.calls && |c.argv| < U32_LIMIT
    requires GoodMsg(s.calls[conn := c], s.reg.born, cb, m)
    ensures Inv(s.(calls := s.calls[conn := c], net := s.net + [m]), cb, n)
  {
    hide R.Valid, GoodMsg, GoodClients;
    forall m | m in s.net ensures GoodMsg(s.calls[conn := c], s.reg.born, cb, m) {
      GoodStays(s.calls, s.calls[conn := c], s.reg.born, s.reg.born, cb, m);
    }
  }

  lemma MakeCallKeeps(s: State, cb: Callback, registrations: nat, conn: nat, id: u32, argv: seq<Blob>)
    requires Inv(s, cb, registrations) && Step(s, cb, MakeCall(conn, id, argv)).Some?
    ensures Inv(Step(s, cb, MakeCall(conn, id, argv)).value, cb, registrations)
  {
    hide Inv, GoodMsg, Kernel.CallStream, Handle;
    if conn !in s.calls && |argv| < U32_LIMIT {
      var c := Call(id, argv);
      CallPacketIsGood(conn, id, argv, s.calls[conn := c], s.reg.born, cb);
      NewCallKeeps(s, cb, registrations, conn, c, Request(conn, Kernel.CallStream(id, argv).value));
    }
  }

  lemma LoseKeeps(s: State, cb: Callback, registrations: nat, k: nat)
    requires Inv(s, cb, registrations)
    ensures Inv(Step(s, cb, Lose(k)).value, cb, registrations)
  {
    hide R.Valid, GoodMsg, GoodSlots, GoodAnswers, GoodClients;
  }

  lemma CallPacketIsGood(
    conn: nat, id: u32, argv: seq<Blob>, calls: map<nat, Call>, born: map<u32, InfoRecord>, cb: Callback)
    requires |argv| < U32_LIMIT && Kernel.CallStream(id, argv).Some?
    requires conn in calls && calls[conn] == Call(id, argv)
    ensures GoodMsg(calls, born, cb, Request(conn, Kernel.CallStream(id, argv).value))
  {
    hide Kernel.CallStream, EncodeRpc;
    Kernel.CallStreamIsPacket(id, argv);
  }

  lemma StepKeeps(s: State, cb: Callback, registrations: nat, a: Action)
    requires Inv(s, cb, registrations) && Step(s, cb, a).Some?
    requires RegistrationsAfter(a, registrations) < 0xffff_ffff
    ensures Inv(Step(s, cb, a).value, cb, RegistrationsAfter(a, registrations))
  {
    hide Inv, Step;
    match a
    case Deliver(k, beyond) => DeliverKeeps(s, cb, registrations, k, beyond);
    case Register(_, _) => RegistryStepKeeps(s, cb, registrations, a);
    case Remove(_) => RegistryStepKeeps(s, cb, registrations, a);
    case Listen(portid, ids) => ListenKeeps(s, cb, registrations, portid, ids);
    case MakeCall(conn, id, argv) => MakeCallKeeps(s, cb, registrations, conn, id, argv);
    case Lose(k) => LoseKeeps(s, cb, registrations, k);
  }

  /** Every state of every defined run is in order. */
  lemma {:induction false} ExecKeeps(cb: Callback, actions: seq<Action>)
    requires Exec(START, cb, actions).Some? && Registrations(actions) < 0xffff_ffff
    ensures Inv(Exec(START, cb, actions).value, cb, Registrations(actions))
  {
    hide Step;
    if actions != [] {
      var init := actions[..|actions| - 1];
      ExecKeeps(cb, init);
      StepKeeps(Exec(START, cb, init).value, cb, Registrations(init), actions[|actions| - 1]);
    }
  }

  /** Reply routing, in every run and with any number of calls in progress: what a caller gets is
      the callback's values for the id it called and the arguments of some call made to that id,
      in the number registered. An answer of one interface never reaches a caller of another. */
  lemma AnswersComeFromTheCalledInterface(cb: Callback, actions: seq<Action>, conn: nat)
    requires Exec(START, cb, actions).Some? && Registrations(actions) < 0xffff_ffff
    requires conn in Exec(START, cb, actions).value.answers
    ensures var s := Exec(START, cb, actions).value;
            && conn in s.calls
            && var id := s.calls[conn].id;
               && id in s.reg.born && |s.answers[conn].values| == |s.reg.born[id].rets|
               && exists other :: other in s.calls && s.calls[other].id == id
                               && cb(id, s.calls[other].argv) == Values(s.answers[conn].values)
  {
    hide Step;
    ExecKeeps(cb, actions);
    var s := Exec(START, cb, actions).value;
    var other := s.answers[conn].call;
    assert other in s.calls;
  }
}
