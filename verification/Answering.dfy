/** When a call is answered, what overlapping calls do to each other, and why every run of
    deliveries ends. */
module Answering {
  import opened Bytes
  import opened Buffer
  import opened Netlink
  import opened RpcPacket
  import opened InfoPacket
  import R = Registry
  import Kernel
  import opened Library
  import opened Protocol
  import opened ProtocolSafety
  import opened OneCallAtATime

  // ---- one call on its own ----

  /** Everything that has to be in place on the serving node. */
  ghost predicate Answerable(s: State, cb: Callback, c: Call) {
    && c.id in s.reg.recs && Takes(s, s.reg.recs[c.id].portid, c)
    && Succeeds(cb, s.reg.born, c)
    && RpcBuf(c.id, cb(c.id, c.argv).retv).Buf? && Sendable(ResultPacket(cb, c))
  }

  lemma DeliverLast(s: State, cb: Callback, base: seq<Msg>, m: Msg, beyond: seq<byte>)
    requires s.net == base + [m]
    ensures Step(s, cb, Deliver(|base|, beyond))
         == match Handle(s, cb, m, beyond)
            case None => None
            case Some(e) => Some(s.(reg := e.reg, answers := e.answers, net := base + e.out))
  {
    hide Handle;
    assert Without(s.net, |base|) == base;
  }

  /** The state after the call has been made. */
  ghost function Called(s: State, conn: nat, c: Call): State {
    s.(calls := s.calls[conn := c], net := s.net + [Request(conn, U32(Wrap(|Packet(c)|)) + Packet(c))])
  }

  /** The state after its request has been forwarded. */
  ghost function Forwarded(s: State, conn: nat, c: Call): State
    requires c.id in s.reg.recs && Sendable(Packet(c))
  {
    s.(calls := s.calls[conn := c], reg := R.Bind(s.reg, c.id, conn),
       net := s.net + [ToUser(s.reg.recs[c.id].portid, UserFrame(Packet(c)), conn)])
  }

  /** The state after the serving process has answered. */
  ghost function Served(s: State, cb: Callback, conn: nat, c: Call): State
    requires Answerable(s, cb, c)
  {
    s.(calls := s.calls[conn := c], reg := R.Bind(s.reg, c.id, conn),
       net := s.net + [ToKernel(KernelFrame(s.reg.recs[c.id].portid, INCOME_RESULT, ResultPacket(cb, c)),
                                FromCall(conn, s.reg.recs[c.id].portid))])
  }

  lemma CallStep(s: State, cb: Callback, conn: nat, c: Call)
    requires conn !in s.calls && |c.argv| < U32_LIMIT
    ensures match Step(s, cb, MakeCall(conn, c.id, c.argv))
            case None => |Packet(c)| > MAX_PAYLOAD
            case Some(t) => |Packet(c)| < U32_LIMIT && t == Called(s, conn, c)
  {
    PacketIs(c);
    hide EncodeRpc, Packet, U32, Wrap, Handle, R.Register, R.Remove, EncodeIds, KernelFrame, Kernel.CallStream;
    if Kernel.CallStream(c.id, c.argv).Some? {
      Kernel.CallStreamIsPacket(c.id, c.argv);
    } else if |Packet(c)| <= MAX_PAYLOAD {
      SmallPacketFits(c);
    }
  }

  lemma PacketIs(c: Call)
    requires |c.argv| < U32_LIMIT
    ensures Packet(c) == EncodeRpc(c.id, c.argv)
  {
  }

  lemma SmallPacketFits(c: Call)
    requires |c.argv| < U32_LIMIT && |Packet(c)| <= MAX_PAYLOAD
    ensures Kernel.CallStream(c.id, c.argv).Some?
  {
    RpcLength(c.id, c.argv);
    PartsAreSmall(c.argv);
    SmallRpcFits(c.id, c.argv);
    RpcBufIsEncode(c.id, c.argv);
  }

  lemma {:induction false} PartsAreSmall(values: seq<Blob>)
    ensures forall v | v in values :: |v| <= TotalLength(values)
  {
    if values != [] { PartsAreSmall(values[..|values| - 1]); }
  }

  lemma RequestStep(s: State, cb: Callback, n: nat, conn: nat, c: Call, beyond: seq<byte>)
    requires Inv(s, cb, n) && |c.argv| < U32_LIMIT && |Packet(c)| < U32_LIMIT
    ensures var t := Step(Called(s, conn, c), cb, Deliver(|s.net|, beyond));
            if c.id in s.reg.recs && Sendable(Packet(c)) then t == Some(Forwarded(s, conn, c))
            else t.Some? ==> t.value.net == s.net && t.value.answers == s.answers
  {
    hide Packet, Handle, UserFrame, Inv, R.Bind, U32;
    assert c.id == 0 ==> c.id !in s.reg.recs by { ZeroNotLive(s, cb, n); }
    var s1, m := Called(s, conn, c), Request(conn, U32(|Packet(c)|) + Packet(c));
    RequestEffect(s1, cb, conn, c, beyond);
    DeliverLast(s1, cb, s.net, m, beyond);
    assert s.net + [] == s.net;
  }

  lemma ZeroNotLive(s: State, cb: Callback, n: nat)
    requires Inv(s, cb, n)
    ensures 0 !in s.reg.recs
  {
    R.ZeroIsNeverLive(s.reg);
  }

  lemma ServeStep(s: State, cb: Callback, n: nat, conn: nat, c: Call, beyond: seq<byte>)
    requires Inv(s, cb, n) && |c.argv| < U32_LIMIT && c.id in s.reg.recs && Sendable(Packet(c))
    ensures var t := Step(Forwarded(s, conn, c), cb, Deliver(|s.net|, beyond));
            if Answerable(s, cb, c) then t == Some(Served(s, cb, conn, c))
            else t.Some? ==> t.value.net == s.net && t.value.answers == s.answers
  {
    hide Packet, ResultPacket, Handle, UserFrame, KernelFrame, RpcBuf, R.Valid, GoodMsg, GoodSlots, GoodAnswers;
    var s2, portid := Forwarded(s, conn, c), s.reg.recs[c.id].portid;
    var m := ToUser(portid, UserFrame(Packet(c)), conn);
    UserEffect(s2, cb, portid, c, conn, beyond);
    DeliverLast(s2, cb, s.net, m, beyond);
    assert s.net + [] == s.net;
  }

  lemma ResultStep(s: State, cb: Callback, n: nat, conn: nat, c: Call, beyond: seq<byte>)
    requires Inv(s, cb, n) && |c.argv| < U32_LIMIT && Answerable(s, cb, c) && conn !in s.answers && |beyond| >= 16
    ensures var go := Deliver(|s.net|, beyond);
            var t := Exec(Served(s, cb, conn, c), cb, [go, go]);
            t.Some? && t.value.answers == s.answers[conn := Answer(cb(c.id, c.argv).retv, conn)]
  {
    hide Packet, EncodeRpc, Handle, KernelFrame, Carries, RpcBuf, Inv, Takes;
    var s3, portid := Served(s, cb, conn, c), s.reg.recs[c.id].portid;
    var retv := cb(c.id, c.argv).retv;
    var m := ToKernel(KernelFrame(portid, INCOME_RESULT, ResultPacket(cb, c)), FromCall(conn, portid));
    ResultEffect(s3, cb, portid, conn, c.id, retv, beyond);
    DeliverLast(s3, cb, s.net, m, beyond);
    var go := Deliver(|s.net|, beyond);
    var s4 := Step(s3, cb, go).value;
    var reply := s4.net[|s.net|];
    ReplyEffect(s4, cb, conn, reply.stream, conn, c.id, retv, beyond);
    DeliverLast(s4, cb, s.net, reply, beyond);
    ExecFront(s3, cb, go, [go]);
    ExecOne(s4, cb, go);
    assert [go, go] == [go] + [go];
  }

  /** A call, followed by delivery of the one message it keeps in flight, four times. */
  function Trip(conn: nat, c: Call, k: nat, beyond: seq<byte>): seq<Action> {
    [MakeCall(conn, c.id, c.argv), Deliver(k, beyond), Deliver(k, beyond), Deliver(k, beyond), Deliver(k, beyond)]
  }

  function After(s: Option<State>, cb: Callback, actions: seq<Action>): Option<State> {
    if s.None? then None else Exec(s.value, cb, actions)
  }

  lemma {:induction false} ExecConcat(s: State, cb: Callback, first: seq<Action>, rest: seq<Action>)
    ensures Exec(s, cb, first + rest) == After(Exec(s, cb, first), cb, rest)
  {
    hide Step;
    if rest == [] {
      assert first + rest == first;
    } else {
      var n := |rest| - 1;
      ExecConcat(s, cb, first, rest[..n]);
      assert (first + rest)[..|first| + n] == first + rest[..n];
    }
  }

  lemma ExecOne(s: State, cb: Callback, a: Action)
    ensures Exec(s, cb, [a]) == Step(s, cb, a)
  {
    hide Step;
    assert [a][..0] == [];
  }

  lemma ExecFront(s: State, cb: Callback, a: Action, rest: seq<Action>)
    ensures Exec(s, cb, [a] + rest) == After(Step(s, cb, a), cb, rest)
  {
    hide Step, Exec;
    ExecConcat(s, cb, [a], rest);
    ExecOne(s, cb, a);
  }

  /** Exactly when a call made in any state of any run is answered, if none of its messages is lost
      or overtaken: its interface is registered, the process that served it last still manages it
      and agrees with the number of arguments, the request fits that process's 512-byte buffer,
      the callback succeeds with the registered number of values and they can be serialized and
      sent. And the answer is then the callback's for these very arguments. */
  lemma CallIsAnsweredExactly(s: State, cb: Callback, n: nat, conn: nat, c: Call, beyond: seq<byte>)
    requires Inv(s, cb, n) && conn !in s.calls && |c.argv| < U32_LIMIT && |beyond| >= 16
    ensures var t := Exec(s, cb, Trip(conn, c, |s.net|, beyond));
            && (Answerable(s, cb, c) ==>
                  t.Some? && t.value.answers == s.answers[conn := Answer(cb(c.id, c.argv).retv, conn)])
            && (t.Some? ==> (conn in t.value.answers <==> Answerable(s, cb, c)))
  {
    hide Step, Exec, Packet, ResultPacket, RpcBuf, Called, Forwarded, Served;
    var go, k := Deliver(|s.net|, beyond), |s.net|;
    assert conn !in s.answers by { AnsweredWereCalled(s, cb, n); }
    var make := MakeCall(conn, c.id, c.argv);
    assert Trip(conn, c, k, beyond) == [make] + [go, go, go, go];
    ExecFront(s, cb, make, [go, go, go, go]);
    CallStep(s, cb, conn, c);
    if Step(s, cb, make).Some? {
      RequestStep(s, cb, n, conn, c, beyond);
      ExecFront(Called(s, conn, c), cb, go, [go, go, go]);
      assert [go, go, go, go] == [go] + [go, go, go];
      var t := Step(Called(s, conn, c), cb, go);
      if c.id in s.reg.recs && Sendable(Packet(c)) {
        ServeStep(s, cb, n, conn, c, beyond);
        ExecFront(Forwarded(s, conn, c), cb, go, [go, go]);
        assert [go, go, go] == [go] + [go, go];
        var u := Step(Forwarded(s, conn, c), cb, go);
        if Answerable(s, cb, c) {
          ResultStep(s, cb, n, conn, c, beyond);
        } else if u.Some? {
          NothingToDeliver(u.value, cb, [go, go]);
        }
      } else if t.Some? {
        NothingToDeliver(t.value, cb, [go, go, go]);
      }
    }
  }

  lemma AnsweredWereCalled(s: State, cb: Callback, n: nat)
    requires Inv(s, cb, n)
    ensures forall conn | conn in s.answers :: conn in s.calls
  {
  }

  lemma {:induction false} NothingToDeliver(s: State, cb: Callback, actions: seq<Action>)
    requires forall a | a in actions :: a.Deliver? && a.k >= |s.net|
    ensures Exec(s, cb, actions) == Some(s)
  {
    hide Handle;
    if actions != [] {
      assert actions[|actions| - 1] in actions;
      NothingToDeliver(s, cb, actions[..|actions| - 1]);
    }
  }

  // ---- calling an interface while a call to it is in service ----

  /** A message that serves a call will still bring a result to the kernel, if nothing is lost. */
  ghost predicate WillResult(s: State, cb: Callback, m: Msg) {
    && InService(m).Some? && InService(m).value in s.calls
    && var c := s.calls[InService(m).value];
       && c.id in s.reg.recs
       && match m
          case Request(_, _) => Answerable(s, cb, c)
          case ToUser(portid, _, _) => Takes(s, portid, c) && Succeeds(cb, s.reg.born, c)
                                       && RpcBuf(c.id, cb(c.id, c.argv).retv).Buf? && Sendable(ResultPacket(cb, c))
          case _ => true
  }

  /** `t` is `s` after a delivery that took `m` and left the other messages in flight. */
  ghost predicate Delivered(s: State, cb: Callback, m: Msg, a: Action, t: State) {
    && a.Deliver? && Step(s, cb, a) == Some(t)
    && t.calls == s.calls && t.clients == s.clients && forall q | q in s.net && q != m :: q in t.net
  }

  lemma DeliverOne(s: State, cb: Callback, m: Msg, beyond: seq<byte>) returns (a: Action, t: State)
    requires m in s.net && Handle(s, cb, m, beyond).Some?
    ensures Delivered(s, cb, m, a, t)
    ensures var e := Handle(s, cb, m, beyond).value;
            t.reg == e.reg && t.answers == e.answers && forall q | q in e.out :: q in t.net
  {
    hide Handle;
    var k :| 0 <= k < |s.net| && s.net[k] == m;
    a := Deliver(k, beyond);
    t := Step(s, cb, a).value;
    var e := Handle(s, cb, m, beyond).value;
    forall q | q in s.net && q != m ensures q in Without(s.net, k) {
      var j :| 0 <= j < |s.net| && s.net[j] == q;
      assert q == Without(s.net, k)[if j < k then j else j - 1];
    }
  }

  /** A request that is read takes its interface's slot. */
  lemma RequestTakesSlot(s: State, cb: Callback, n: nat, m: Msg, beyond: seq<byte>) returns (a: Action, t: State)
    requires Inv(s, cb, n) && n < 0xffff_ffff && m in s.net && m.Request?
    requires m.call in s.calls && |Packet(s.calls[m.call])| < 0x8000_0000 && s.calls[m.call].id in s.reg.recs
    ensures Inv(t, cb, n) && Delivered(s, cb, m, a, t)
    ensures t.reg == R.Bind(s.reg, s.calls[m.call].id, m.call) && t.answers == s.answers
    ensures var c := s.calls[m.call];
            Sendable(Packet(c)) ==> ToUser(s.reg.recs[c.id].portid, UserFrame(Packet(c)), m.call) in t.net
  {
    hide Handle, Packet, UserFrame, R.Valid, GoodSlots, GoodAnswers, GoodClients;
    assert GoodMsg(s.calls, s.reg.born, cb, m);
    ZeroNotLive(s, cb, n);
    RequestEffect(s, cb, m.call, s.calls[m.call], beyond);
    hide Inv, Step, R.Bind;
    a, t := DeliverOne(s, cb, m, beyond);
    StepKeeps(s, cb, n, a);
  }

  lemma ProcessResults(s: State, cb: Callback, n: nat, m: Msg, beyond: seq<byte>) returns (a: Action, t: State, r: Msg)
    requires Inv(s, cb, n) && n < 0xffff_ffff && m in s.net && m.ToUser? && WillResult(s, cb, m)
    ensures Inv(t, cb, n) && Delivered(s, cb, m, a, t) && t.reg == s.reg && t.answers == s.answers
    ensures r in t.net && r.ToKernel? && r.origin.FromCall? && r.origin.call == m.call
  {
    hide Handle, Packet, ResultPacket, UserFrame, KernelFrame, RpcBuf, R.Valid, GoodSlots, GoodAnswers;
    assert GoodMsg(s.calls, s.reg.born, cb, m);
    UserEffect(s, cb, m.portid, s.calls[m.call], m.call, beyond);
    hide Inv, Step;
    a, t := DeliverOne(s, cb, m, beyond);
    r := Handle(s, cb, m, beyond).value.out[0];
    StepKeeps(s, cb, n, a);
  }

  lemma ResultGoesToSlot(s: State, cb: Callback, n: nat, m: Msg, d: nat, beyond: seq<byte>)
    returns (a: Action, t: State, r: Msg)
    requires Inv(s, cb, n) && n < 0xffff_ffff && m in s.net && m.ToKernel? && m.origin.FromCall? && |beyond| >= 16
    requires m.origin.call in s.calls
    requires var id := s.calls[m.origin.call].id; id in s.reg.recs && s.reg.recs[id].socket == Some(d)
    ensures Inv(t, cb, n) && Delivered(s, cb, m, a, t) && t.answers == s.answers
    ensures r in t.net && r.Reply? && r.conn == d && r.call == m.origin.call && |r.stream| < 0x8000_0000
  {
    hide Handle, Packet, EncodeRpc, KernelFrame, Carries, R.Valid, GoodSlots, GoodAnswers, GoodClients;
    assert GoodMsg(s.calls, s.reg.born, cb, m);
    var c := s.calls[m.origin.call];
    ResultEffect(s, cb, m.origin.portid, m.origin.call, c.id, cb(c.id, c.argv).retv, beyond);
    hide Inv, Step;
    a, t := DeliverOne(s, cb, m, beyond);
    r := Handle(s, cb, m, beyond).value.out[0];
    StepKeeps(s, cb, n, a);
  }

  lemma ReplyIsTaken(s: State, cb: Callback, n: nat, m: Msg, beyond: seq<byte>) returns (a: Action, t: State)
    requires Inv(s, cb, n) && m in s.net && m.Reply? && m.conn !in s.answers && |m.stream| < 0x8000_0000
    ensures Delivered(s, cb, m, a, t) && m.call in s.calls
    ensures var c := s.calls[m.call];
            cb(c.id, c.argv).Values? && t.answers == s.answers[m.conn := Answer(cb(c.id, c.argv).retv, m.call)]
  {
    hide Handle, Packet, EncodeRpc, Carries, R.Valid, GoodSlots, GoodAnswers, GoodClients;
    assert GoodMsg(s.calls, s.reg.born, cb, m);
    var c := s.calls[m.call];
    ReplyEffect(s, cb, m.conn, m.stream, m.call, c.id, cb(c.id, c.argv).retv, beyond);
    a, t := DeliverOne(s, cb, m, beyond);
  }

  /** The state once the second call has taken the slot: all that is left is for the first one's
      result to be made and passed on. */
  lemma SlotHolderIsAnswered(s: State, cb: Callback, n: nat, m: Msg, d: nat, beyond: seq<byte>)
    returns (deliveries: seq<Action>, t: State)
    requires Inv(s, cb, n) && n < 0xffff_ffff && m in s.net && !m.Request? && WillResult(s, cb, m) && |beyond| >= 16
    requires s.reg.recs[s.calls[InService(m).value].id].socket == Some(d) && d !in s.answers
    ensures Exec(s, cb, deliveries) == Some(t) && forall a | a in deliveries :: a.Deliver?
    ensures var c := s.calls[InService(m).value];
            && cb(c.id, c.argv).Values?
            && t.answers == s.answers[d := Answer(cb(c.id, c.argv).retv, InService(m).value)]
  {
    hide Inv, Step, Exec, RpcBuf, ResultPacket, Takes;
    var s1, result, a, served := s, m, Lose(0), [];
    NothingToDeliver(s, cb, []);
    if m.ToUser? {
      a, s1, result := ProcessResults(s, cb, n, m, beyond);
      ExecOne(s, cb, a);
      served := [a];
    }
    var a2, s2, reply := ResultGoesToSlot(s1, cb, n, result, d, beyond);
    var a3;
    a3, t := ReplyIsTaken(s2, cb, n, reply, beyond);
    ExecFront(s1, cb, a2, [a3]);
    ExecOne(s2, cb, a3);
    deliveries := served + ([a2] + [a3]);
    ExecConcat(s, cb, served, [a2] + [a3]);
  }

  /** New calls and bound slots take nothing from a message that will result. */
  lemma WillResultStays(s: State, cb: Callback, m: Msg, t: State)
    requires WillResult(s, cb, m)
    requires t.clients == s.clients && t.reg.born == s.reg.born
    requires forall c | c in s.calls :: c in t.calls && t.calls[c] == s.calls[c]
    requires forall id | id in s.reg.recs :: id in t.reg.recs && t.reg.recs[id].portid == s.reg.recs[id].portid
    ensures WillResult(t, cb, m)
  {
    hide RpcBuf, Packet, ResultPacket, Sendable;
  }

  lemma ForwardedWillResult(s: State, cb: Callback, m: Msg)
    requires WillResult(s, cb, m) && m.Request?
    ensures var c := s.calls[m.call];
            Sendable(Packet(c)) && WillResult(s, cb, ToUser(s.reg.recs[c.id].portid, UserFrame(Packet(c)), m.call))
  {
    hide RpcBuf, Packet, ResultPacket, UserFrame;
  }

  lemma WillResultServes(s: State, cb: Callback, m: Msg)
    requires WillResult(s, cb, m)
    ensures InService(m).Some? && InService(m).value in s.calls && s.calls[InService(m).value].id in s.reg.recs
  {
  }

  lemma KeysBound(r: R.Registry, id: u32, conn: nat)
    requires id in r.recs
    ensures var r' := R.Bind(r, id, conn);
            && r'.recs.Keys == r.recs.Keys && r'.born == r.born
            && r'.recs[id].socket == Some(conn) && forall k | k in r.recs :: r'.recs[k].portid == r.recs[k].portid
  {
  }

  /** If the first call is still a request, it is forwarded. */
  lemma FirstIsForwarded(s: State, cb: Callback, n: nat, m: Msg, beyond: seq<byte>)
    returns (deliveries: seq<Action>, t: State, first: Msg)
    requires Inv(s, cb, n) && n < 0xffff_ffff && m in s.net && WillResult(s, cb, m)
    ensures Exec(s, cb, deliveries) == Some(t) && forall a | a in deliveries :: a.Deliver?
    ensures Inv(t, cb, n) && t.calls == s.calls && t.answers == s.answers && t.reg.recs.Keys == s.reg.recs.Keys
    ensures forall q | q in s.net && q != m :: q in t.net
    ensures first in t.net && !first.Request? && InService(first) == InService(m) && WillResult(t, cb, first)
  {
    hide Inv, Step, Exec, WillResult, Packet, UserFrame, R.Bind;
    WillResultServes(s, cb, m);
    if m.Request? {
      var c := s.calls[m.call];
      ForwardedWillResult(s, cb, m);
      var a;
      a, t := RequestTakesSlot(s, cb, n, m, beyond);
      first := ToUser(s.reg.recs[c.id].portid, UserFrame(Packet(c)), m.call);
      KeysBound(s.reg, c.id, m.call);
      WillResultStays(s, cb, first, t);
      ExecOne(s, cb, a);
      deliveries := [a];
    } else {
      NothingToDeliver(s, cb, []);
      deliveries, t, first := [], s, m;
    }
  }

  /** The second call's request takes the slot, and the first one's result goes to it. */
  lemma SecondTakesOver(s: State, cb: Callback, n: nat, first: Msg, request: Msg, beyond: seq<byte>)
    returns (deliveries: seq<Action>, t: State)
    requires Inv(s, cb, n) && n < 0xffff_ffff && |beyond| >= 16
    requires first in s.net && !first.Request? && WillResult(s, cb, first)
    requires request in s.net && request.Request? && request.call in s.calls && request.call !in s.answers
    requires |Packet(s.calls[request.call])| < 0x8000_0000 && Serves(s.calls, first, s.calls[request.call].id)
    ensures Exec(s, cb, deliveries) == Some(t) && forall a | a in deliveries :: a.Deliver?
    ensures var c := s.calls[InService(first).value];
            && cb(c.id, c.argv).Values?
            && t.answers == s.answers[request.call := Answer(cb(c.id, c.argv).retv, InService(first).value)]
  {
    hide Inv, Step, Exec, WillResult, Packet, UserFrame, R.Bind;
    WillResultServes(s, cb, first);
    KeysBound(s.reg, s.calls[request.call].id, request.call);
    var a, s1 := RequestTakesSlot(s, cb, n, request, beyond);
    WillResultStays(s, cb, first, s1);
    var rest;
    rest, t := SlotHolderIsAnswered(s1, cb, n, first, request.call, beyond);
    deliveries := [a] + rest;
    ExecFront(s, cb, a, rest);
  }

  /** Every call that would be answered on its own is such a call in service once it is made. */
  lemma AnswerableCallIsInService(s: State, cb: Callback, n: nat, conn: nat, c: Call)
    requires Inv(s, cb, n) && n < 0xffff_ffff && conn !in s.calls && |c.argv| < U32_LIMIT && Answerable(s, cb, c)
    ensures var t := Step(s, cb, MakeCall(conn, c.id, c.argv));
            && t.Some? && Inv(t.value, cb, n) && t.value.net != []
            && var m := t.value.net[|t.value.net| - 1];
               Serves(t.value.calls, m, c.id) && WillResult(t.value, cb, m)
  {
    hide Inv, Step, Packet, ResultPacket, RpcBuf, U32;
    CallStep(s, cb, conn, c);
    StepKeeps(s, cb, n, MakeCall(conn, c.id, c.argv));
  }

  /** The other half of AnswersAreOwn: in any state of any run, if an interface is called while a
      call to it is in service that will still bring a result, then, whatever the two calls'
      arguments, some order of delivery gives the new caller the other call's values. */
  lemma ImpatientCallCanMisroute(s: State, cb: Callback, n: nat, m: Msg, d: nat, second: Call, beyond: seq<byte>)
    returns (deliveries: seq<Action>, t: State)
    requires Inv(s, cb, n) && n < 0xffff_ffff && |beyond| >= 16
    requires m in s.net && Serves(s.calls, m, second.id) && WillResult(s, cb, m)
    requires d !in s.calls && |second.argv| < U32_LIMIT && |Packet(second)| < 0x8000_0000
    requires Step(s, cb, MakeCall(d, second.id, second.argv)).Some?
    ensures Exec(s, cb, [MakeCall(d, second.id, second.argv)] + deliveries) == Some(t)
    ensures forall a | a in deliveries :: a.Deliver?
    ensures var c := s.calls[InService(m).value];
            && cb(c.id, c.argv).Values?
            && t.answers == s.answers[d := Answer(cb(c.id, c.argv).retv, InService(m).value)]
  {
    hide Inv, Step, Exec, WillResult, Packet, R.Bind;
    AnsweredWereCalled(s, cb, n);
    WillResultServes(s, cb, m);
    var make := MakeCall(d, second.id, second.argv);
    StepKeeps(s, cb, n, make);
    CallStep(s, cb, d, second);
    var s1 := Called(s, d, second);
    var request := s1.net[|s.net|];
    WillResultStays(s, cb, m, s1);
    var before, s2, first := FirstIsForwarded(s1, cb, n, m, beyond);
    var rest;
    rest, t := SecondTakesOver(s2, cb, n, first, request, beyond);
    deliveries := before + rest;
    ExecConcat(s1, cb, before, rest);
    ExecFront(s, cb, make, deliveries);
  }

  // ---- calls that have lost their slot ----

  /** No connection in a slot, no request still to come and no reply under way is `conn`'s. */
  ghost predicate Displaced(s: State, conn: nat) {
    && conn in s.calls && conn !in s.answers
    && (forall id | id in s.reg.recs :: s.reg.recs[id].socket != Some(conn))
    && (forall m | m in s.net :: !(m.Request? && m.call == conn) && !(m.Reply? && m.conn == conn))
  }

  lemma DisplacedStep(s: State, cb: Callback, conn: nat, a: Action)
    requires Displaced(s, conn) && Step(s, cb, a).Some?
    ensures Displaced(Step(s, cb, a).value, conn)
  {
    match a
    case Register(info, pid) =>
    case Remove(id) =>
    case Listen(portid, ids) => hide EncodeIds, KernelFrame;
    case MakeCall(c, id, argv) => hide Kernel.CallStream;
    case Deliver(k, beyond) => if k < |s.net| { DisplacedDelivery(s, cb, conn, k, beyond); }
    case Lose(k) =>
  }

  lemma DisplacedDelivery(s: State, cb: Callback, conn: nat, k: nat, beyond: seq<byte>)
    requires Displaced(s, conn) && k < |s.net| && Step(s, cb, Deliver(k, beyond)).Some?
    ensures Displaced(Step(s, cb, Deliver(k, beyond)).value, conn)
  {
    hide Turn, Kernel.Serve, Kernel.Receive, Kernel.Collect, KernelFrame, UserFrame, R.Activate, ManagedBy;
    var m := s.net[k];
    assert m in s.net;
    if m.ToKernel? {
      ReceiveUsesSlots(s.reg, m.frame, beyond);
      var x := Kernel.Receive(s.reg, m.frame, beyond);
      if x.Activated? { R.ActivateIsOneUpdate(s.reg, x.ids, x.portid); }
    }
  }

  lemma ReceiveUsesSlots(r: R.Registry, frame: seq<byte>, beyond: seq<byte>)
    ensures var x := Kernel.Receive(r, frame, beyond);
            x.ToSocket? ==> exists id :: id in r.recs && r.recs[id].socket == Some(x.conn)
  {
  }

  /** Such a call is never answered, whatever happens from then on. */
  lemma {:induction false} DisplacedForever(s: State, cb: Callback, conn: nat, actions: seq<Action>)
    requires Displaced(s, conn) && Exec(s, cb, actions).Some?
    ensures conn !in Exec(s, cb, actions).value.answers
    ensures Displaced(Exec(s, cb, actions).value, conn)
  {
    hide Step;
    if actions != [] {
      var init := actions[..|actions| - 1];
      DisplacedForever(s, cb, conn, init);
      DisplacedStep(Exec(s, cb, init).value, cb, conn, actions[|actions| - 1]);
    }
  }

  /** So a forwarded call whose interface's slot another call has taken is lost: the one slot per
      interface cannot serve two calls. */
  lemma OvertakenCallIsNeverAnswered(s: State, cb: Callback, n: nat, conn: nat, actions: seq<Action>)
    requires Inv(s, cb, n) && conn in s.calls && conn !in s.answers
    requires forall m | m in s.net :: !(m.Request? && m.call == conn) && !(m.Reply? && m.conn == conn)
    requires var id := s.calls[conn].id; id in s.reg.recs ==> s.reg.recs[id].socket != Some(conn)
    requires Exec(s, cb, actions).Some?
    ensures conn !in Exec(s, cb, actions).value.answers
  {
    assert Displaced(s, conn) by {
      hide GoodMsg, R.Valid, GoodAnswers;
    }
    DisplacedForever(s, cb, conn, actions);
  }

  // ---- from registration to answer ----

  /** Listening for interfaces and delivering the handshake. */
  function Serving(portid: u32, ids: seq<u32>, k: nat, beyond: seq<byte>): seq<Action> {
    [Listen(portid, ids), Deliver(k, beyond)]
  }

  /** A process that listens for any registered interfaces, in any number, manages exactly those;
      and once its handshake is delivered each of them that is live is activated with its port, and
      nothing else has changed. */
  lemma ListenActivates(s: State, cb: Callback, n: nat, portid: u32, ids: seq<u32>, beyond: seq<byte>)
    requires Inv(s, cb, n) && n < 0xffff_ffff
    requires |ids| < 0x1000_0000 && forall id | id in ids :: id in s.reg.born
    ensures var t := Exec(s, cb, Serving(portid, ids, |s.net|, beyond));
            && t.Some? && Inv(t.value, cb, n)
            && t.value == s.(reg := s.reg.(recs := t.value.reg.recs), clients := s.clients[portid := ids])
            && t.value.reg.recs.Keys == s.reg.recs.Keys
            && forall id | id in s.reg.recs ::
                 t.value.reg.recs[id]
                 == if id in ids then s.reg.recs[id].(activated := true, portid := portid) else s.reg.recs[id]
  {
    hide Inv, R.Activate, EncodeIds, KernelFrame, Handle, Exec;
    var k := |s.net|;
    var listen, go := Listen(portid, ids), Deliver(k, beyond);
    assert Serving(portid, ids, k, beyond) == [listen] + [go];
    IdsPacketLength(ids);
    ExecFront(s, cb, listen, [go]);
    StepKeeps(s, cb, n, listen);
    var s1 := Step(s, cb, listen).value;
    HandshakeEffect(s1, cb, portid, ids, FromHandshake(portid, ids), beyond);
    DeliverLast(s1, cb, s.net, s1.net[k], beyond);
    ExecOne(s1, cb, go);
    StepKeeps(s1, cb, n, go);
    assert s.net + [] == s.net;
    R.ActivateIsOneUpdate(s.reg, ids, portid);
  }

  /** What a callback and the sizes of its packets have to be for a call to be answered. */
  ghost predicate WellServed(born: map<u32, InfoRecord>, cb: Callback, c: Call) {
    && c.id in born && |c.argv| == |born[c.id].args| && |Packet(c)| <= MAX_PAYLOAD
    && cb(c.id, c.argv).Values? && |cb(c.id, c.argv).retv| == |born[c.id].rets|
    && RpcBuf(c.id, cb(c.id, c.argv).retv).Buf? && Sendable(ResultPacket(cb, c))
  }

  lemma ServedIsAnswerable(s: State, cb: Callback, c: Call)
    requires WellServed(s.reg.born, cb, c) && c.id in s.reg.recs
    requires var portid := s.reg.recs[c.id].portid; portid in s.clients && c.id in s.clients[portid]
    ensures Answerable(s, cb, c)
  {
    hide Packet, ResultPacket, RpcBuf;
  }

  /** Progress, from any state of any run: each of the live interfaces that a process listens for
      answers the next call made to it with the callback's values, if the request fits the process's
      buffer and the values can be serialized and sent. */
  lemma ListeningInterfaceAnswers(
    s: State, cb: Callback, n: nat, portid: u32, ids: seq<u32>, conn: nat, c: Call, beyond: seq<byte>)
    requires Inv(s, cb, n) && n < 0xffff_ffff && conn !in s.calls && |beyond| >= 16
    requires |ids| < 0x1000_0000 && forall id | id in ids :: id in s.reg.born
    requires c.id in ids && c.id in s.reg.recs && |c.argv| < U32_LIMIT && WellServed(s.reg.born, cb, c)
    ensures var t := Exec(s, cb, Serving(portid, ids, |s.net|, beyond));
            && t.Some?
            && var u := Exec(t.value, cb, Trip(conn, c, |s.net|, beyond));
               u.Some? && u.value.answers == s.answers[conn := Answer(cb(c.id, c.argv).retv, conn)]
  {
    assert cb(c.id, c.argv).Values?;
    hide Inv, Exec, Step, Answerable, WellServed, Serving, Trip;
    ListenActivates(s, cb, n, portid, ids, beyond);
    var t := Exec(s, cb, Serving(portid, ids, |s.net|, beyond)).value;
    ServedIsAnswerable(t, cb, c);
    CallIsAnsweredExactly(t, cb, n, conn, c, beyond);
  }

  lemma RegisterStep(s: State, cb: Callback, info: InfoRecord, pid: int)
    ensures var r := R.Register(s.reg, info, pid);
            && Step(s, cb, Register(info, pid)) == Some(s.(reg := r))
            && r.born == s.reg.born[s.reg.next := info] && r.recs.Keys == s.reg.recs.Keys + {s.reg.next}
  {
  }

  /** The same for an interface registered only now, and for those registered before that the
      process serves along with it. */
  lemma NewInterfaceAnswers(
    s: State, cb: Callback, n: nat, info: InfoRecord, pid: int, portid: u32, ids: seq<u32>,
    conn: nat, c: Call, beyond: seq<byte>)
    requires Inv(s, cb, n) && n + 1 < 0xffff_ffff && conn !in s.calls && |beyond| >= 16
    requires |ids| < 0x1000_0000 && forall id | id in ids :: id == s.reg.next || id in s.reg.born
    requires c.id in ids && (c.id == s.reg.next || c.id in s.reg.recs) && |c.argv| < U32_LIMIT
    requires WellServed(s.reg.born[s.reg.next := info], cb, c)
    ensures var t := Exec(s, cb, [Register(info, pid)] + Serving(portid, ids, |s.net|, beyond));
            && t.Some?
            && var u := Exec(t.value, cb, Trip(conn, c, |s.net|, beyond));
               u.Some? && u.value.answers == s.answers[conn := Answer(cb(c.id, c.argv).retv, conn)]
  {
    hide Inv, Exec, Step, WellServed, Serving, Trip, R.Register;
    var a := Register(info, pid);
    RegisterStep(s, cb, info, pid);
    StepKeeps(s, cb, n, a);
    ExecFront(s, cb, a, Serving(portid, ids, |s.net|, beyond));
    var s1 := Step(s, cb, a).value;
    ListeningInterfaceAnswers(s1, cb, n + 1, portid, ids, conn, c, beyond);
  }

  // ---- two calls at once ----

  /** Two calls to one interface, the second forwarded before the first one is answered. */
  function Overlap(c: nat, d: nat, first: Call, second: Call, k: nat, beyond: seq<byte>): seq<Action> {
    [MakeCall(c, first.id, first.argv), Deliver(k, beyond)]
    + [MakeCall(d, second.id, second.argv), Deliver(k + 1, beyond)]
    + [Deliver(k, beyond)] + [Deliver(k + 1, beyond), Deliver(k + 1, beyond)]
  }

  /** Two calls that overlap: both fresh, to one interface, the first answerable on its own. */
  ghost predicate Overlapping(s: State, cb: Callback, c: nat, d: nat, first: Call, second: Call) {
    && c != d && c !in s.calls && d !in s.calls && first.id == second.id
    && |first.argv| < U32_LIMIT && Answerable(s, cb, first)
    && |second.argv| < U32_LIMIT && |Packet(second)| <= MAX_PAYLOAD
  }

  /** Making a call and delivering its request. */
  lemma CallIsForwarded(s: State, cb: Callback, n: nat, conn: nat, c: Call, beyond: seq<byte>)
    requires Inv(s, cb, n) && n < 0xffff_ffff
    requires conn !in s.calls && |c.argv| < U32_LIMIT && |Packet(c)| <= MAX_PAYLOAD && c.id in s.reg.recs
    ensures Exec(s, cb, [MakeCall(conn, c.id, c.argv), Deliver(|s.net|, beyond)]) == Some(Forwarded(s, conn, c))
    ensures Inv(Forwarded(s, conn, c), cb, n)
  {
    hide Step, Packet, Called, Forwarded, Inv;
    var make, go := MakeCall(conn, c.id, c.argv), Deliver(|s.net|, beyond);
    CallStep(s, cb, conn, c);
    RequestStep(s, cb, n, conn, c, beyond);
    StepKeeps(s, cb, n, make);
    StepKeeps(Called(s, conn, c), cb, n, go);
    ExecFront(s, cb, make, [go]);
    ExecOne(Called(s, conn, c), cb, go);
    assert [make, go] == [make] + [go];
  }

  /** Serving the first of two forwarded calls. */
  lemma FirstIsServed(s: State, cb: Callback, base: seq<Msg>, call: nat, c: Call, other: Msg, beyond: seq<byte>)
    requires Answerable(s, cb, c) && |c.argv| < U32_LIMIT && GoodClients(s.clients, s.reg.born)
    requires var portid := s.reg.recs[c.id].portid;
             s.net == base + [ToUser(portid, UserFrame(Packet(c)), call), other]
    ensures var portid := s.reg.recs[c.id].portid;
            Step(s, cb, Deliver(|base|, beyond)) == Some(s.(net := base + [other] +
              [ToKernel(KernelFrame(portid, INCOME_RESULT, ResultPacket(cb, c)), FromCall(call, portid))]))
  {
    hide Packet, ResultPacket, Handle, UserFrame, KernelFrame, RpcBuf;
    UserEffect(s, cb, s.reg.recs[c.id].portid, c, call, beyond);
    assert Without(s.net, |base|) == base + [other];
  }

  /** A result on its way reaches whatever connection is in the slot. */
  lemma ResultReachesSlot(
    s: State, cb: Callback, base: seq<Msg>, portid: u32, call: nat, c: Call, conn: nat, beyond: seq<byte>)
    requires |c.argv| < U32_LIMIT && Succeeds(cb, s.reg.born, c) && Sendable(ResultPacket(cb, c))
    requires c.id in s.reg.recs && s.reg.recs[c.id].socket == Some(conn) && conn !in s.answers && |beyond| >= 16
    requires s.net == base + [ToKernel(KernelFrame(portid, INCOME_RESULT, ResultPacket(cb, c)), FromCall(call, portid))]
    ensures Exec(s, cb, [Deliver(|base|, beyond), Deliver(|base|, beyond)])
         == Some(s.(net := base, answers := s.answers[conn := Answer(cb(c.id, c.argv).retv, call)]))
  {
    hide EncodeRpc, Handle, KernelFrame, Carries;
    var retv := cb(c.id, c.argv).retv;
    ResultEffect(s, cb, portid, call, c.id, retv, beyond);
    DeliverLast(s, cb, base, s.net[|base|], beyond);
    var s' := Step(s, cb, Deliver(|base|, beyond)).value;
    var reply := s'.net[|base|];
    ReplyEffect(s', cb, conn, reply.stream, call, c.id, retv, beyond);
    DeliverLast(s', cb, base, reply, beyond);
    assert base + [] == base;
    var go := Deliver(|base|, beyond);
    ExecFront(s, cb, go, [go]);
    ExecOne(s', cb, go);
    assert [go, go] == [go] + [go];
  }

  /** The one slot per interface is not enough for two calls at once: whatever the callback, when
      the second request is forwarded before the first result is in, the second caller gets the
      values the callback computed from the first caller's arguments, and the first caller has no
      answer and nothing left that could bring one. */
  lemma OverlapMisroutes(s: State, cb: Callback, n: nat, c: nat, d: nat, first: Call, second: Call, beyond: seq<byte>)
    requires Inv(s, cb, n) && n < 0xffff_ffff && Overlapping(s, cb, c, d, first, second) && |beyond| >= 16
    ensures var t := Exec(s, cb, Overlap(c, d, first, second, |s.net|, beyond));
            && t.Some?
            && t.value.answers == s.answers[d := Answer(cb(first.id, first.argv).retv, c)]
            && Displaced(t.value, c)
  {
    hide Step, Exec, Inv, Packet, ResultPacket, UserFrame, KernelFrame, RpcBuf, Displaced;
    var k := |s.net|;
    assert d !in s.answers by { AnsweredWereCalled(s, cb, n); }
    CallIsForwarded(s, cb, n, c, first, beyond);
    var s2 := Forwarded(s, c, first);
    CallIsForwarded(s2, cb, n, d, second, beyond);
    var s4 := Forwarded(s2, d, second);
    var other := s4.net[k + 1];
    ClientsAreGood(s4, cb, n);
    assert s4.net == s.net + [s4.net[k], other];
    FirstIsServed(s4, cb, s.net, c, first, other, beyond);
    var s5 := Step(s4, cb, Deliver(k, beyond)).value;
    ExecOne(s4, cb, Deliver(k, beyond));
    ResultReachesSlot(s5, cb, s.net + [other], s.reg.recs[first.id].portid, c, first, d, beyond);
    var call1 := [MakeCall(c, first.id, first.argv), Deliver(k, beyond)];
    var call2 := [MakeCall(d, second.id, second.argv), Deliver(k + 1, beyond)];
    var last := [Deliver(k + 1, beyond), Deliver(k + 1, beyond)];
    ExecConcat(s, cb, call1, call2);
    ExecConcat(s, cb, call1 + call2, [Deliver(k, beyond)]);
    ExecConcat(s, cb, call1 + call2 + [Deliver(k, beyond)], last);
    var t := Exec(s, cb, Overlap(c, d, first, second, k, beyond)).value;
    FirstIsDisplaced(s, cb, n, c, d, first.id, t);
  }

  lemma ClientsAreGood(s: State, cb: Callback, n: nat)
    requires Inv(s, cb, n)
    ensures GoodClients(s.clients, s.reg.born)
  {
  }

  lemma FirstIsDisplaced(s: State, cb: Callback, n: nat, c: nat, d: nat, id: u32, t: State)
    requires Inv(s, cb, n) && c != d && c !in s.calls && id in s.reg.recs
    requires t.reg == R.Bind(R.Bind(s.reg, id, c), id, d) && c in t.calls && t.answers.Keys == s.answers.Keys + {d}
    requires |t.net| == |s.net| + 1 && t.net[..|s.net|] == s.net && t.net[|s.net|].ToUser?
    ensures Displaced(t, c)
  {
    hide R.Valid, Packet, ResultPacket, UserFrame, KernelFrame, Carries, Sendable;
    forall m | m in t.net ensures !(m.Request? && m.call == c) && !(m.Reply? && m.conn == c) {
      var i :| 0 <= i < |t.net| && t.net[i] == m;
      if i < |s.net| { assert t.net[..|s.net|][i] == m; assert GoodMsg(s.calls, s.reg.born, cb, m); }
    }
  }

  // ---- every run of deliveries ends ----

  /** How many deliveries a message can still lead to. */
  function Hops(m: Msg): nat {
    match m
    case Request(_, _) => 4
    case ToUser(_, _, _) => 3
    case ToKernel(_, _) => 2
    case Reply(_, _, _) => 1
  }

  function HopsLeft(net: seq<Msg>): nat {
    if net == [] then 0 else HopsLeft(net[..|net| - 1]) + Hops(net[|net| - 1])
  }

  lemma {:induction false} HopsConcat(a: seq<Msg>, b: seq<Msg>)
    ensures HopsLeft(a + b) == HopsLeft(a) + HopsLeft(b)
  {
    if b == [] {
      assert a + b == a;
    } else {
      var n := |b| - 1;
      HopsConcat(a, b[..n]);
      assert (a + b)[..|a| + n] == a + b[..n];
    }
  }

  lemma HopsOfOne(m: Msg)
    ensures HopsLeft([m]) == Hops(m)
  {
    assert [m][..0] == [];
  }

  lemma HopsWithout(net: seq<Msg>, k: nat)
    requires k < |net|
    ensures HopsLeft(Without(net, k)) == HopsLeft(net) - Hops(net[k])
  {
    hide HopsLeft, Hops;
    var front, m, back := net[..k], net[k], net[k + 1..];
    HopsOfOne(m);
    HopsConcat(front, back);
    HopsConcat(front, [m]);
    HopsConcat(front + [m], back);
    assert front + [m] + back == net;
  }

  predicate Delivers(s: State, a: Action) {
    (a.Deliver? && a.k < |s.net|) || (a.Lose? && a.k < |s.net|)
  }

  lemma HandleShrinks(s: State, cb: Callback, m: Msg, beyond: seq<byte>)
    requires Handle(s, cb, m, beyond).Some?
    ensures HopsLeft(Handle(s, cb, m, beyond).value.out) < Hops(m)
  {
    hide Turn, Kernel.Serve, Kernel.Receive, Kernel.Collect, KernelFrame, UserFrame, ManagedBy;
    var out := Handle(s, cb, m, beyond).value.out;
    assert |out| <= 1;
    assert out != [] ==> out[..0] == [];
  }

  lemma DeliveryShrinks(s: State, cb: Callback, a: Action)
    requires Delivers(s, a) && Step(s, cb, a).Some?
    ensures HopsLeft(Step(s, cb, a).value.net) < HopsLeft(s.net)
  {
    hide Handle, HopsLeft;
    HopsWithout(s.net, a.k);
    if a.Deliver? {
      HandleShrinks(s, cb, s.net[a.k], a.beyond);
      HopsConcat(Without(s.net, a.k), Handle(s, cb, s.net[a.k], a.beyond).value.out);
    }
  }

  /** How many deliveries and losses of messages a run has. */
  ghost function Deliveries(s: State, cb: Callback, actions: seq<Action>): nat {
    if actions == [] then 0
    else
      var init := actions[..|actions| - 1];
      var t := Exec(s, cb, init);
      Deliveries(s, cb, init) + if t.Some? && Delivers(t.value, actions[|actions| - 1]) then 1 else 0
  }

  /** Once no new calls or handshakes are made, the messages in flight bound how many deliveries can
      still happen, in any order and whatever is registered and removed meanwhile: the system comes
      to rest with an empty network. */
  lemma {:induction false} DeliveriesEnd(s: State, cb: Callback, actions: seq<Action>)
    requires Exec(s, cb, actions).Some? && forall a | a in actions :: !a.MakeCall? && !a.Listen?
    ensures Deliveries(s, cb, actions) + HopsLeft(Exec(s, cb, actions).value.net) <= HopsLeft(s.net)
  {
    hide Step, HopsLeft, Delivers;
    if actions != [] {
      var init, a := actions[..|actions| - 1], actions[|actions| - 1];
      assert a in actions && forall b | b in init :: b in actions;
      DeliveriesEnd(s, cb, init);
      var t := Exec(s, cb, init).value;
      if Delivers(t, a) { DeliveryShrinks(t, cb, a); } else { NoDeliveryKeepsNet(t, cb, a); }
    }
  }

  lemma NoDeliveryKeepsNet(s: State, cb: Callback, a: Action)
    requires !Delivers(s, a) && !a.MakeCall? && !a.Listen? && Step(s, cb, a).Some?
    ensures Step(s, cb, a).value.net == s.net
  {
    hide Handle, R.Register, R.Remove;
  }

  /** An empty network is all there is to coming to rest. */
  lemma NoHopsNoMessages(net: seq<Msg>)
    ensures HopsLeft(net) == 0 <==> net == []
  {
  }
}
