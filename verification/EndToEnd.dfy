/** From a peer's cached view to the answer: a call checked against an arbitrarily old view, made
    to a node that has gone on registering, removing and serving since. */
module EndToEnd {
  import opened Bytes
  import opened Buffer
  import opened Netlink
  import opened RpcPacket
  import R = Registry
  import Runs = RegistryRuns
  import Peers
  import D = Discovery
  import opened Library
  import opened Protocol
  import opened ProtocolSafety
  import opened Answering
  import Kernel

  // ---- the registry inside the protocol ----

  /** What a message does to the registry of the node that receives it. */
  ghost function MessageOps(r: R.Registry, m: Msg, beyond: seq<byte>): seq<Runs.Op> {
    match m
    case Request(conn, stream) =>
      var x := Kernel.Serve(r, stream, conn);
      if x.Forward? then [Runs.DoForward(x.id, conn)] else []
    case ToKernel(frame, _) =>
      var x := Kernel.Receive(r, frame, beyond);
      if x.Activated? then [Runs.DoActivate(x.ids, x.portid)] else []
    case _ => []
  }

  /** The registry operation in a step, if any. */
  ghost function StepOps(s: State, a: Action): seq<Runs.Op> {
    match a
    case Register(info, pid) => [Runs.DoRegister(info, pid)]
    case Remove(id) => [Runs.DoRemove(id)]
    case Deliver(k, beyond) => if k < |s.net| then MessageOps(s.reg, s.net[k], beyond) else []
    case _ => []
  }

  ghost function RunOps(cb: Callback, actions: seq<Action>): seq<Runs.Op> {
    if actions == [] then []
    else
      var init := actions[..|actions| - 1];
      var t := Exec(START, cb, init);
      RunOps(cb, init) + if t.Some? then StepOps(t.value, actions[|actions| - 1]) else []
  }

  lemma HandleIsOps(s: State, cb: Callback, m: Msg, beyond: seq<byte>)
    requires Handle(s, cb, m, beyond).Some?
    ensures var ops, r := MessageOps(s.reg, m, beyond), Handle(s, cb, m, beyond).value.reg;
            if ops == [] then r == s.reg else |ops| == 1 && !ops[0].DoRegister? && Runs.Apply(s.reg, ops[0]) == Some(r)
  {
    hide Turn, Kernel.Collect, Kernel.Receive, KernelFrame, UserFrame, ManagedBy;
    hide R.Activate, R.QueryInfo, R.Execute, R.Bind;
  }

  lemma StepIsOps(s: State, cb: Callback, a: Action)
    requires Step(s, cb, a).Some?
    ensures var ops, r := StepOps(s, a), Step(s, cb, a).value.reg;
            if ops == [] then !a.Register? && r == s.reg
            else |ops| == 1 && (ops[0].DoRegister? <==> a.Register?) && Runs.Apply(s.reg, ops[0]) == Some(r)
  {
    hide Handle, MessageOps, R.Register, R.Remove, EncodeIds, KernelFrame, Kernel.CallStream;
    if a.Deliver? && a.k < |s.net| { HandleIsOps(s, cb, s.net[a.k], a.beyond); }
  }

  /** The registry of a protocol run is the registry of a registry run with as many registrations:
      all that is proved about registry runs holds of it, and a discovery node can be at it. */
  lemma {:induction false} ProtocolRunsTheRegistry(cb: Callback, actions: seq<Action>)
    requires Exec(START, cb, actions).Some?
    ensures Runs.Run(RunOps(cb, actions)) == Some(Exec(START, cb, actions).value.reg)
    ensures Runs.Registrations(RunOps(cb, actions)) == Registrations(actions)
  {
    hide Step, StepOps, Runs.Apply;
    if actions != [] {
      var init, a := actions[..|actions| - 1], actions[|actions| - 1];
      ProtocolRunsTheRegistry(cb, init);
      var s := Exec(START, cb, init).value;
      StepIsOps(s, cb, a);
      var before, ops := RunOps(cb, init), StepOps(s, a);
      if ops == [] {
        assert before + ops == before;
      } else {
        assert before + ops == before + [ops[0]];
        assert (before + [ops[0]])[..|before|] == before;
      }
    }
  }

  lemma StepEvolves(s: State, cb: Callback, n: nat, a: Action)
    requires Inv(s, cb, n) && Step(s, cb, a).Some? && RegistrationsAfter(a, n) < 0xffff_ffff
    ensures R.Evolves(s.reg, Step(s, cb, a).value.reg)
  {
    RegistryIsValid(s, cb, n);
    assert R.Evolves(s.reg, s.reg);
    hide Inv, Step, StepOps, R.Valid, R.Evolves, Runs.Apply;
    StepIsOps(s, cb, a);
    var ops := StepOps(s, a);
    if ops != [] { Runs.ApplyKeeps(s.reg, ops[0]); }
  }

  lemma RegistryIsValid(s: State, cb: Callback, n: nat)
    requires Inv(s, cb, n)
    ensures R.Valid(s.reg) && s.reg.next <= 1 + n
  {
  }

  // ---- calls by old views ----

  /** Whatever the node does after a moment, what it had handed out at that moment stands. */
  lemma {:induction false} RunKeepsFaith(s: State, cb: Callback, n: nat, actions: seq<Action>)
    requires Inv(s, cb, n) && Exec(s, cb, actions).Some? && n + Registrations(actions) < 0xffff_ffff
    ensures var t := Exec(s, cb, actions).value;
            Inv(t, cb, n + Registrations(actions)) && R.Evolves(s.reg, t.reg)
  {
    hide Inv, Step;
    if actions != [] {
      var init, a := actions[..|actions| - 1], actions[|actions| - 1];
      RunKeepsFaith(s, cb, n, init);
      var mid := Exec(s, cb, init).value;
      StepKeeps(mid, cb, n + Registrations(init), a);
      StepEvolves(mid, cb, n + Registrations(init), a);
    }
  }

  /** The rest of what an answer needs, once the argument count is right: the interface still
      registered, its port's process still managing it, packets that fit, a callback that succeeds
      with as many values as the caller made room for. */
  ghost predicate Ready(s: State, cb: Callback, c: Call, retc: u32) {
    && c.id in s.reg.recs && s.reg.recs[c.id].portid in s.clients && c.id in s.clients[s.reg.recs[c.id].portid]
    && |Packet(c)| <= MAX_PAYLOAD
    && cb(c.id, c.argv).Values? && |cb(c.id, c.argv).retv| == retc
    && RpcBuf(c.id, cb(c.id, c.argv).retv).Buf? && Sendable(ResultPacket(cb, c))
  }

  lemma ReadyIsAnswerable(s: State, cb: Callback, n: nat, c: Call, retc: u32)
    requires Inv(s, cb, n) && c.id in s.reg.born
    requires |s.reg.born[c.id].args| == |c.argv| && |s.reg.born[c.id].rets| == retc
    ensures Answerable(s, cb, c) <==> Ready(s, cb, c, retc)
  {
    hide Packet, ResultPacket, RpcBuf, R.Valid, GoodMsg, GoodSlots, GoodAnswers;
  }

  /** Stale views are safe to call by, end to end. Take any run of the discovery protocol and any
      view `i` in the resulting peer table, however old, of a node with calls in progress or not.
      Let the node get from there to any protocol state `s`, and run on in any way. A call that
      passes `peer_ioctl`'s check against the view is never turned down for its number of arguments:
      it is answered exactly when the interface is still there and ready, and then with the
      callback's values for these arguments, as many as the caller expects. */
  lemma StaleCallIsAnswered(
    discovery: seq<D.Action>, i: nat, s: State, cb: Callback, n: nat, since: seq<Action>,
    conn: nat, c: Call, retc: u32, hasArgv: bool, hasRetv: bool, beyond: seq<byte>)
    requires D.Proper(discovery) && i < |D.Exec(discovery).value.table| && |c.argv| < U32_LIMIT
    requires Peers.CheckCall(D.Exec(discovery).value.table[i], c.id, |c.argv|, retc, hasArgv, hasRetv).Accepted?
    requires var w := D.Exec(discovery).value; R.Evolves(D.NodeAt(w, w.table[i].addr), s.reg)
    requires Inv(s, cb, n) && Exec(s, cb, since).Some? && n + Registrations(since) < 0xffff_ffff
    requires conn !in Exec(s, cb, since).value.calls && |beyond| >= 16
    ensures var now := Exec(s, cb, since).value;
            var t := Exec(now, cb, Trip(conn, c, |now.net|, beyond));
            && (Ready(now, cb, c, retc) ==> t.Some?)
            && (t.Some? ==> (conn in t.value.answers <==> Ready(now, cb, c, retc)))
            && (t.Some? && conn in t.value.answers ==>
                  && Values(t.value.answers[conn].values) == cb(c.id, c.argv)
                  && |t.value.answers[conn].values| == retc)
  {
    hide Inv, Exec, Trip, Answerable, Ready, D.Exec, Peers.CheckCall;
    D.StaleCallMatchesRegistration(discovery, i, c.id, |c.argv|, retc, hasArgv, hasRetv);
    RunKeepsFaith(s, cb, n, since);
    var now := Exec(s, cb, since).value;
    ReadyIsAnswerable(now, cb, n + Registrations(since), c, retc);
    CallIsAnsweredExactly(now, cb, n + Registrations(since), conn, c, beyond);
    if Ready(now, cb, c, retc) { ReadyReturns(now, cb, c, retc); }
  }

  lemma ReadyReturns(s: State, cb: Callback, c: Call, retc: u32)
    requires Ready(s, cb, c, retc)
    ensures cb(c.id, c.argv).Values? && |cb(c.id, c.argv).retv| == retc
  {
  }

  /** Copying an answer out never leaves the caller's array and fills it exactly, whatever else is
      in progress and whether or not the answer is the caller's own: a call that passed the check
      against any view `i`, however old, is answered, if at all, with the number of values the
      caller made room for. */
  lemma AnswerFillsCallersSlots(
    discovery: seq<D.Action>, i: nat, s: State, cb: Callback, n: nat, since: seq<Action>,
    conn: nat, argc: u32, slots: seq<Blob>, hasArgv: bool, hasRetv: bool)
    requires D.Proper(discovery) && i < |D.Exec(discovery).value.table| && |slots| < U32_LIMIT
    requires var w := D.Exec(discovery).value; R.Evolves(D.NodeAt(w, w.table[i].addr), s.reg)
    requires Inv(s, cb, n) && Exec(s, cb, since).Some? && n + Registrations(since) < 0xffff_ffff
    requires var now := Exec(s, cb, since).value;
             && conn in now.answers && conn in now.calls
             && Peers.CheckCall(D.Exec(discovery).value.table[i], now.calls[conn].id, argc, |slots|, hasArgv,
                 hasRetv).Accepted?
    ensures var values := Exec(s, cb, since).value.answers[conn].values;
            Kernel.CopyBack(Kernel.Returns(values), |slots|, slots) == Some(values)
  {
    hide Inv, Exec, D.Exec, Peers.CheckCall;
    var now := Exec(s, cb, since).value;
    D.StaleCallMatchesRegistration(discovery, i, now.calls[conn].id, argc, |slots|, hasArgv, hasRetv);
    RunKeepsFaith(s, cb, n, since);
    AnswerHasRegisteredLength(now, cb, n + Registrations(since), conn);
    var values := now.answers[conn].values;
    assert values + slots[|values|..] == values;
  }

  lemma AnswerHasRegisteredLength(s: State, cb: Callback, n: nat, conn: nat)
    requires Inv(s, cb, n) && conn in s.answers
    ensures conn in s.calls && s.calls[conn].id in s.reg.born
    ensures |s.answers[conn].values| == |s.reg.born[s.calls[conn].id].rets|
  {
    hide R.Valid, GoodMsg, GoodSlots, GoodClients;
  }
}
