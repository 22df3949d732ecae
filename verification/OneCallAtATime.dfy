/** Runs in which no interface is called while another call to it is on its way in or being served:
    every answer is then the callback's result for the caller's own arguments. */
module OneCallAtATime {
  import opened Bytes
  import opened RpcPacket
  import opened Netlink
  import R = Registry
  import opened Library
  import opened Protocol
  import Kernel
  import opened ProtocolSafety

  ghost predicate Outstanding(s: State, conn: nat) {
    conn in s.calls && conn !in s.answers
  }

  /** The call a message will still take to its interface's slot, or from there to its caller. Once
      a reply is on the caller's connection, or the call was refused, failed or lost, there is none. */
  function InService(m: Msg): Option<nat> {
    match m
    case Request(call, _) => Some(call)
    case ToUser(_, _, call) => Some(call)
    case ToKernel(_, FromCall(call, _)) => Some(call)
    case _ => None
  }

  /** A message in flight that serves a call on an interface. */
  predicate Serves(calls: map<nat, Call>, m: Msg, id: u32) {
    InService(m).Some? && InService(m).value in calls && calls[InService(m).value].id == id
  }

  /** Nobody calls an interface while a call to it is in service. */
  ghost predicate Patient(s: State, a: Action) {
    a.MakeCall? ==> forall m | m in s.net :: !Serves(s.calls, m, a.id)
  }

  ghost predicate PatientRun(cb: Callback, actions: seq<Action>) {
    actions == [] ||
    var init := actions[..|actions| - 1];
    var s := Exec(START, cb, init);
    PatientRun(cb, init) && (s.Some? ==> Patient(s.value, actions[|actions| - 1]))
  }

  /** The call a message is about. */
  function CallOf(m: Msg): Option<nat> {
    match m
    case Request(call, _) => Some(call)
    case ToUser(_, _, call) => Some(call)
    case ToKernel(_, FromCall(call, _)) => Some(call)
    case ToKernel(_, FromHandshake(_, _)) => None
    case Reply(_, _, call) => Some(call)
  }

  ghost predicate Distinct(net: seq<Msg>) {
    forall i, j | 0 <= i < j < |net| && CallOf(net[i]).Some? :: CallOf(net[i]) != CallOf(net[j])
  }

  /** While a call is being served its connection is in its interface's slot, and its result is
      on its way to itself. */
  ghost predicate InPlace(s: State, m: Msg) {
    match m
    case Request(call, _) => Outstanding(s, call)
    case ToUser(_, _, call) => Outstanding(s, call) && HasSlot(s, call)
    case ToKernel(_, FromCall(call, _)) => Outstanding(s, call) && HasSlot(s, call)
    case ToKernel(_, FromHandshake(_, _)) => true
    case Reply(conn, _, call) => Outstanding(s, call) && conn == call
  }

  ghost predicate HasSlot(s: State, call: nat) {
    && call in s.calls && s.calls[call].id in s.reg.born
    && (s.calls[call].id in s.reg.recs ==> s.reg.recs[s.calls[call].id].socket == Some(call))
  }

  /** The messages that serve calls on one interface are about one call. */
  ghost predicate OneEach(net: seq<Msg>, calls: map<nat, Call>) {
    forall m, m', id | m in net && m' in net && Serves(calls, m, id) && Serves(calls, m', id) ::
      InService(m) == InService(m')
  }

  ghost predicate Single(s: State) {
    && Distinct(s.net)
    && (forall m | m in s.net :: InPlace(s, m))
    && OneEach(s.net, s.calls)
    && (forall c | c in s.answers :: s.answers[c].call == c)
  }

  lemma DistinctAfter(net: seq<Msg>, k: nat, out: seq<Msg>)
    requires Distinct(net) && k < |net|
    requires |out| <= 1 && forall m | m in out :: CallOf(m) == CallOf(net[k])
    ensures Distinct(Without(net, k) + out)
    ensures forall m | m in Without(net, k) :: m in net && (CallOf(m).Some? ==> CallOf(m) != CallOf(net[k]))
  {
    var rest := Without(net, k);
    forall i | 0 <= i < |rest| ensures rest[i] == net[if i < k then i else i + 1] {}
    forall m | m in out ensures m == out[0] {}
  }

  /** What the other messages in flight are about stays in place. */
  ghost predicate Carried(s: State, s': State, k: nat)
    requires k < |s.net|
  {
    forall m | m in s.net && (CallOf(m).Some? ==> CallOf(m) != CallOf(s.net[k])) :: InPlace(s', m)
  }

  lemma NetAfter(s: State, s': State, k: nat, out: seq<Msg>)
    requires Single(s) && k < |s.net| && s'.net == Without(s.net, k) + out && Carried(s, s', k)
    requires |out| <= 1 && forall m | m in out :: CallOf(m) == CallOf(s.net[k]) && InPlace(s', m)
    requires s'.calls == s.calls && forall m | m in out && InService(m).Some? :: InService(m) == InService(s.net[k])
    ensures Distinct(s'.net) && OneEach(s'.net, s'.calls) && forall m | m in s'.net :: InPlace(s', m)
  {
    hide Distinct, Without, InPlace, OneEach;
    DistinctAfter(s.net, k, out);
    forall m | m in s'.net ensures InPlace(s', m) {
      if m !in Without(s.net, k) { assert m in out; }
    }
    OneEachAfter(s.net, s.calls, k, out);
  }

  lemma OneEachAfter(net: seq<Msg>, calls: map<nat, Call>, k: nat, out: seq<Msg>)
    requires OneEach(net, calls) && k < |net|
    requires forall m | m in out && InService(m).Some? :: InService(m) == InService(net[k])
    ensures OneEach(Without(net, k) + out, calls)
  {
    forall m, id | m in Without(net, k) + out && Serves(calls, m, id)
      ensures exists q :: q in net && Serves(calls, q, id) && InService(q) == InService(m)
    {
      if m in out { assert net[k] in net; } else { assert m in net; }
    }
  }

  /** A forwarded request takes the slot from no call that is being served. */
  lemma BindCarries(s: State, k: nat, s': State)
    requires Single(s) && k < |s.net| && s.net[k].Request? && s.net[k].call in s.calls
    requires var id := s.calls[s.net[k].call].id;
             s'.reg == s.reg || (id in s.reg.recs && s'.reg == R.Bind(s.reg, id, s.net[k].call))
    requires s'.calls == s.calls && s'.answers == s.answers
    ensures Carried(s, s', k)
  {
    hide Distinct;
    var m := s.net[k];
    var id := s.calls[m.call].id;
    assert m in s.net && Serves(s.calls, m, id);
    forall q | q in s.net && (CallOf(q).Some? ==> CallOf(q) != Some(m.call)) ensures InPlace(s', q) {
      assert InPlace(s, q) && !Serves(s.calls, q, id);
    }
  }

  lemma RequestSingle(s: State, cb: Callback, n: nat, k: nat, beyond: seq<byte>)
    requires Inv(s, cb, n) && Single(s) && k < |s.net| && s.net[k].Request?
    requires Step(s, cb, Deliver(k, beyond)).Some?
    ensures Single(Step(s, cb, Deliver(k, beyond)).value)
  {
    hide Handle, Packet, U32, UserFrame, R.Valid, GoodSlots, GoodAnswers, GoodClients;
    hide Distinct, Without, OneEach, Carried;
    var m := s.net[k];
    assert m in s.net && GoodMsg(s.calls, s.reg.born, cb, m) && InPlace(s, m);
    BornIfLive(s, cb, n, s.calls[m.call].id);
    RequestEffect(s, cb, m.call, s.calls[m.call], beyond);
    var e, s' := Handle(s, cb, m, beyond).value, Step(s, cb, Deliver(k, beyond)).value;
    BindCarries(s, k, s');
    NetAfter(s, s', k, e.out);
  }

  lemma BornIfLive(s: State, cb: Callback, n: nat, id: u32)
    requires Inv(s, cb, n)
    ensures id in s.reg.recs ==> id in s.reg.born
  {
  }

  lemma ToUserSingle(s: State, cb: Callback, n: nat, k: nat, beyond: seq<byte>)
    requires Inv(s, cb, n) && Single(s) && k < |s.net| && s.net[k].ToUser?
    requires Step(s, cb, Deliver(k, beyond)).Some?
    ensures Single(Step(s, cb, Deliver(k, beyond)).value)
  {
    hide Handle, Packet, ResultPacket, UserFrame, KernelFrame, GoodSlots, GoodAnswers, R.Valid, Distinct, Without;
    var m := s.net[k];
    assert m in s.net && GoodMsg(s.calls, s.reg.born, cb, m) && InPlace(s, m);
    UserEffect(s, cb, m.portid, s.calls[m.call], m.call, beyond);
    var e, s' := Handle(s, cb, m, beyond).value, Step(s, cb, Deliver(k, beyond)).value;
    NetAfter(s, s', k, e.out);
  }

  lemma ResultSingle(s: State, cb: Callback, n: nat, k: nat, beyond: seq<byte>)
    requires Inv(s, cb, n) && Single(s) && k < |s.net| && s.net[k].ToKernel? && s.net[k].origin.FromCall?
    requires Step(s, cb, Deliver(k, beyond)).Some?
    ensures Single(Step(s, cb, Deliver(k, beyond)).value)
  {
    hide Handle, Packet, EncodeRpc, KernelFrame, GoodSlots, GoodAnswers, GoodClients, R.Valid, Distinct, Without;
    var m := s.net[k];
    assert m in s.net && GoodMsg(s.calls, s.reg.born, cb, m) && InPlace(s, m);
    var call := m.origin.call;
    var c := s.calls[call];
    ResultEffect(s, cb, m.origin.portid, call, c.id, cb(c.id, c.argv).retv, beyond);
    var e, s' := Handle(s, cb, m, beyond).value, Step(s, cb, Deliver(k, beyond)).value;
    NetAfter(s, s', k, e.out);
  }

  lemma HandshakeSingle(s: State, cb: Callback, n: nat, k: nat, beyond: seq<byte>)
    requires Inv(s, cb, n) && Single(s) && k < |s.net| && s.net[k].ToKernel? && s.net[k].origin.FromHandshake?
    requires Step(s, cb, Deliver(k, beyond)).Some?
    ensures Single(Step(s, cb, Deliver(k, beyond)).value)
  {
    hide Handle, Packet, EncodeIds, KernelFrame, GoodSlots, GoodAnswers, GoodClients, R.Valid, R.Activate;
    hide Distinct, Without;
    var m := s.net[k];
    assert m in s.net && GoodMsg(s.calls, s.reg.born, cb, m);
    HandshakeEffect(s, cb, m.origin.portid, m.origin.ids, m.origin, beyond);
    R.ActivateIsOneUpdate(s.reg, m.origin.ids, m.origin.portid);
    var e, s' := Handle(s, cb, m, beyond).value, Step(s, cb, Deliver(k, beyond)).value;
    assert forall id | id in s'.reg.recs :: id in s.reg.recs && s'.reg.recs[id].socket == s.reg.recs[id].socket;
    NetAfter(s, s', k, e.out);
  }

  lemma ReplySingle(s: State, cb: Callback, n: nat, k: nat, beyond: seq<byte>)
    requires Inv(s, cb, n) && Single(s) && k < |s.net| && s.net[k].Reply?
    requires Step(s, cb, Deliver(k, beyond)).Some?
    ensures Single(Step(s, cb, Deliver(k, beyond)).value)
  {
    hide Handle, Packet, EncodeRpc, Carries, GoodSlots, GoodAnswers, GoodClients, R.Valid, Distinct, Without;
    var m := s.net[k];
    assert m in s.net && GoodMsg(s.calls, s.reg.born, cb, m) && InPlace(s, m);
    var c := s.calls[m.call];
    ReplyEffect(s, cb, m.conn, m.stream, m.call, c.id, cb(c.id, c.argv).retv, beyond);
    var e, s' := Handle(s, cb, m, beyond).value, Step(s, cb, Deliver(k, beyond)).value;
    NetAfter(s, s', k, e.out);
  }

  /** A registry that lost interfaces or got one under a fresh id. */
  lemma RegistryChangeSingle(s: State, r: R.Registry)
    requires Single(s)
    requires forall id | id in s.reg.born :: id in r.born
    requires forall id | id in r.recs && id in s.reg.born :: id in s.reg.recs && r.recs[id] == s.reg.recs[id]
    ensures Single(s.(reg := r))
  {
    hide Distinct;
    var s' := s.(reg := r);
    forall m | m in s'.net ensures InPlace(s', m) {
      assert InPlace(s, m);
    }
  }

  lemma RegistrySingle(s: State, cb: Callback, n: nat, a: Action)
    requires Inv(s, cb, n) && Single(s) && (a.Register? || a.Remove?) && Step(s, cb, a).Some?
    requires RegistrationsAfter(a, n) < 0xffff_ffff
    ensures Single(Step(s, cb, a).value)
  {
    var r, s' := s.reg, Step(s, cb, a).value;
    if a.Register? { R.RegisterKeeps(r, a.info, a.pid); }
    if a.Remove? && R.Remove(r, a.id).Removed? { R.RemoveKeeps(r, a.id); }
    assert r.next !in r.born;
    hide R.Valid, Inv, Single, R.ProcFor, R.IndexOfPid, R.Shifted, R.IndexOf;
    RegistryChangeSingle(s, s'.reg);
  }

  lemma MakeCallSingle(s: State, cb: Callback, n: nat, conn: nat, c: Call, stream: seq<byte>)
    requires Inv(s, cb, n) && Single(s) && conn !in s.calls
    requires forall m | m in s.net :: !Serves(s.calls, m, c.id)
    ensures Single(s.(calls := s.calls[conn := c], net := s.net + [Request(conn, stream)]))
  {
    hide R.Valid, GoodSlots, GoodClients, GoodMsg;
    var s' := s.(calls := s.calls[conn := c], net := s.net + [Request(conn, stream)]);
    forall m | m in s.net ensures InPlace(s', m) && CallOf(m) != Some(conn) {
      assert InPlace(s, m);
    }
    forall m, id | m in s'.net && Serves(s'.calls, m, id)
      ensures if m in s.net then id != c.id && Serves(s.calls, m, id) else id == c.id && InService(m) == Some(conn)
    {
      if m in s.net { assert InService(m) == CallOf(m) && Serves(s.calls, m, id); }
    }
  }

  lemma ListenSingle(s: State, portid: u32, ids: seq<u32>, frame: seq<byte>)
    requires Single(s)
    ensures Single(s.(clients := s.clients[portid := ids],
                      net := s.net + [ToKernel(frame, FromHandshake(portid, ids))]))
  {
    var s' := s.(clients := s.clients[portid := ids], net := s.net + [ToKernel(frame, FromHandshake(portid, ids))]);
    forall m | m in s.net ensures InPlace(s', m) {
      assert InPlace(s, m);
    }
  }

  lemma LoseSingle(s: State, k: nat)
    requires Single(s) && k < |s.net|
    ensures Single(s.(net := Without(s.net, k)))
  {
    hide Distinct, Without;
    var s' := s.(net := Without(s.net, k));
    assert Without(s.net, k) + [] == s'.net;
    NetAfter(s, s', k, []);
  }

  lemma StepSingle(s: State, cb: Callback, n: nat, a: Action)
    requires Inv(s, cb, n) && Single(s) && Step(s, cb, a).Some? && Patient(s, a)
    requires RegistrationsAfter(a, n) < 0xffff_ffff
    ensures Single(Step(s, cb, a).value)
  {
    hide Inv, Single, Handle, Kernel.CallStream, EncodeIds, KernelFrame;
    match a
    case Deliver(k, beyond) =>
      if k < |s.net| {
        match s.net[k]
        case Request(_, _) => RequestSingle(s, cb, n, k, beyond);
        case ToUser(_, _, _) => ToUserSingle(s, cb, n, k, beyond);
        case ToKernel(_, FromHandshake(_, _)) => HandshakeSingle(s, cb, n, k, beyond);
        case ToKernel(_, FromCall(_, _)) => ResultSingle(s, cb, n, k, beyond);
        case Reply(_, _, _) => ReplySingle(s, cb, n, k, beyond);
      }
    case Register(_, _) => RegistrySingle(s, cb, n, a);
    case Remove(_) => RegistrySingle(s, cb, n, a);
    case Listen(portid, ids) =>
      ListenSingle(s, portid, ids, if Step(s, cb, a).value == s then [] else Step(s, cb, a).value.net[|s.net|].frame);
    case MakeCall(conn, id, argv) =>
      if conn !in s.calls && |argv| < U32_LIMIT {
        MakeCallSingle(s, cb, n, conn, Call(id, argv), Kernel.CallStream(id, argv).value);
      }
    case Lose(k) => if k < |s.net| { LoseSingle(s, k); }
  }

  lemma {:induction false} ExecSingle(cb: Callback, actions: seq<Action>)
    requires Exec(START, cb, actions).Some? && Registrations(actions) < 0xffff_ffff && PatientRun(cb, actions)
    ensures Single(Exec(START, cb, actions).value)
  {
    hide Step, Inv;
    if actions != [] {
      var init := actions[..|actions| - 1];
      ExecSingle(cb, init);
      ExecKeeps(cb, init);
      StepSingle(Exec(START, cb, init).value, cb, Registrations(init), actions[|actions| - 1]);
    }
  }

  /** End-to-end safety: through both serializers, the frames with their padding and over-counted
      lengths, the registry and its slots, whatever is lost or overtaken, an answer a caller gets
      is what the callback returns for that caller's own id and arguments, with as many values as
      the interface was registered with. */
  lemma AnswersAreOwn(cb: Callback, actions: seq<Action>, conn: nat)
    requires Exec(START, cb, actions).Some? && Registrations(actions) < 0xffff_ffff && PatientRun(cb, actions)
    requires conn in Exec(START, cb, actions).value.answers
    ensures var s := Exec(START, cb, actions).value;
            && conn in s.calls
            && var c := s.calls[conn];
               && cb(c.id, c.argv) == Values(s.answers[conn].values)
               && c.id in s.reg.born && |s.answers[conn].values| == |s.reg.born[c.id].rets|
  {
    hide Step;
    ExecKeeps(cb, actions);
    ExecSingle(cb, actions);
  }
}
