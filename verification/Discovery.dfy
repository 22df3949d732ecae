/** Many nodes registering, removing and broadcasting, and one node's peer table fed by an
    unreliable datagram network: nothing sent need arrive, and anything sent may arrive at any
    later time, in any order and any number of times. */
module Discovery {
  import opened Bytes
  import opened Buffer
  import opened InfoPacket
  import opened ListPacket
  import opened Peers
  import R = Registry
  import Runs = RegistryRuns

  /** An announcement ever sent: who sent it, the bytes, and (history) the list they encode. */
  datatype Announcement = Announcement(addr: u32, bytes: seq<byte>, list: seq<Entry>)

  datatype World = World(nodes: map<u32, R.Registry>, sent: seq<Announcement>, table: seq<Peer>)

  const START := World(map[], [], [])

  /** `Arrive` puts announcement `k` in the receive buffer, of which `tail` is what follows it. */
  datatype Action = Local(addr: u32, op: Runs.Op) | Broadcast(addr: u32) | Arrive(k: nat, tail: seq<byte>)

  function NodeAt(w: World, addr: u32): R.Registry {
    if addr in w.nodes then w.nodes[addr] else R.NO_INTERFACES
  }

  /** How an interface is announced. Registration allocates the flag arrays zeroed and does not
      copy the process's flags. */
  function EntryFor(id: u32, info: InfoRecord): Entry {
    Entry(id, Zeros(|info.args|), Zeros(|info.rets|))
  }

  /** So a process's flags are announced exactly when they are all zero. */
  lemma FlagsAnnouncedExactly(id: u32, info: InfoRecord, argFlags: Blob, retFlags: Blob)
    requires |argFlags| == |info.args| && |retFlags| == |info.rets|
    ensures EntryFor(id, info) == Entry(id, argFlags, retFlags) <==> forall f | f in argFlags + retFlags :: f == 0
  {
    var args, rets := Zeros(|info.args|), Zeros(|info.rets|);
    assert forall f | f in args + rets :: f == 0;
    if forall f | f in argFlags + retFlags :: f == 0 {
      assert forall i | 0 <= i < |argFlags| :: argFlags[i] in argFlags + retFlags;
      assert forall i | 0 <= i < |retFlags| :: retFlags[i] in argFlags + retFlags;
      assert argFlags == args && retFlags == rets;
    }
  }

  function Snapshot(r: R.Registry): (list: seq<Entry>)
    ensures |list| == |r.order|
  {
    seq(|r.order|, i requires 0 <= i < |r.order| =>
      if r.order[i] in r.recs then EntryFor(r.order[i], r.recs[r.order[i]].info) else Entry(r.order[i], [], []))
  }

  /** One step; None when it is undefined. */
  function Step(w: World, a: Action): Option<World> {
    match a
    case Local(addr, op) =>
      (match Runs.Apply(NodeAt(w, addr), op)
       case None => None
       case Some(r) => Some(w.(nodes := w.nodes[addr := r])))
    case Broadcast(addr) =>
      var list := Snapshot(NodeAt(w, addr));
      if |list| >= U32_LIMIT || ListBuf(AllWhole(list)).Overrun? then None
      else Some(w.(sent := w.sent + [Announcement(addr, ListBuf(AllWhole(list)).bytes, list)]))
    case Arrive(k, tail) =>
      if k >= |w.sent| then Some(w)
      else
        var d := Datagram(w.sent[k].addr, w.sent[k].bytes + tail, |w.sent[k].bytes|);
        match Receive(w.table, d)
        case None => None
        case Some(table) => Some(w.(table := table))
  }

  function Exec(actions: seq<Action>): Option<World> {
    if actions == [] then Some(START)
    else
      match Exec(actions[..|actions| - 1])
      case None => None
      case Some(w) => Step(w, actions[|actions| - 1])
  }

  function Registrations(actions: seq<Action>): nat {
    if actions == [] then 0
    else
      var a := actions[|actions| - 1];
      Registrations(actions[..|actions| - 1]) + if a.Local? && a.op.DoRegister? then 1 else 0
  }

  /** Defined, and within the 32-bit ids. */
  ghost predicate Proper(actions: seq<Action>) {
    Exec(actions).Some? && Registrations(actions) < 0xffff_ffff
  }

  /** Every entry is about an id its node did hand out, with the arities of its registration. */
  ghost predicate Honest(list: seq<Entry>, r: R.Registry) {
    forall e | e in list :: e.id in r.born && e == EntryFor(e.id, r.born[e.id])
  }

  ghost predicate Inv(w: World, registrations: nat) {
    && (forall addr | addr in w.nodes :: R.Valid(w.nodes[addr]) && w.nodes[addr].next <= 1 + registrations)
    && (forall s | s in w.sent ::
          |s.list| < U32_LIMIT && s.bytes == EncodeList(AllWhole(s.list)) && Honest(s.list, NodeAt(w, s.addr)))
    && (forall p | p in w.table && p.interfaces.Some? :: Honest(p.interfaces.value, NodeAt(w, p.addr)))
  }

  /** A node announces the interfaces of its array, in that order, with the arities of their records
      and zero flags. */
  lemma SnapshotInOrder(r: R.Registry)
    requires R.Valid(r)
    ensures var list := Snapshot(r);
            && |list| == |r.order|
            && forall i | 0 <= i < |list| ::
                 var info := r.recs[r.order[i]].info;
                 list[i] == Entry(r.order[i], Zeros(|info.args|), Zeros(|info.rets|))
  {
    hide R.Grouped, R.Sorted, R.Recorded;
    forall i | 0 <= i < |r.order| ensures r.order[i] in r.recs { assert r.order[i] in r.order; }
  }

  lemma SnapshotIsHonest(r: R.Registry)
    requires R.Valid(r)
    ensures Honest(Snapshot(r), r)
  {
    forall e | e in Snapshot(r) ensures e.id in r.born && e == EntryFor(e.id, r.born[e.id]) {
      var i :| 0 <= i < |r.order| && Snapshot(r)[i] == e;
      assert r.order[i] in r.order;
    }
  }

  /** An arriving announcement is accepted as the very list that was sent, or rejected for its
      count; it is never misread. */
  lemma ArrivalIsFaithful(s: Announcement, tail: seq<byte>)
    requires |s.list| < U32_LIMIT && s.bytes == EncodeList(AllWhole(s.list))
    ensures DecodeList(s.bytes + tail, |s.bytes|)
         == if |s.list| <= MAX_INTERFACES then Interfaces(s.list) else InvalidCount
  {
    AnnouncementRoundTrip(s.list, tail, |s.bytes|);
  }

  lemma StepKeeps(w: World, a: Action, registrations: nat)
    requires Inv(w, registrations) && Step(w, a).Some?
    requires (if a.Local? && a.op.DoRegister? then registrations + 1 else registrations) < 0xffff_ffff
    ensures Inv(Step(w, a).value, if a.Local? && a.op.DoRegister? then registrations + 1 else registrations)
  {
    hide R.Valid, ListBuf, EncodeList, DecodeList, Runs.Apply, EntryFor;
    var w' := Step(w, a).value;
    match a
    case Local(addr, op) =>
      LocalKeeps(w, addr, op, registrations);
    case Broadcast(addr) =>
      NodeIsValid(w, addr, registrations);
      var r := NodeAt(w, addr);
      SnapshotIsHonest(r);
      ListBufIsEncode(AllWhole(Snapshot(r)));
    case Arrive(k, tail) =>
      if k < |w.sent| {
        ArrivalIsFaithful(w.sent[k], tail);
        assert w.sent[k] in w.sent;
      }
  }

  lemma NodeIsValid(w: World, addr: u32, registrations: nat)
    requires Inv(w, registrations)
    ensures R.Valid(NodeAt(w, addr)) && NodeAt(w, addr).next <= 1 + registrations
  {
  }

  lemma LocalKeeps(w: World, addr: u32, op: Runs.Op, registrations: nat)
    requires Inv(w, registrations) && Step(w, Local(addr, op)).Some?
    requires (if op.DoRegister? then registrations + 1 else registrations) < 0xffff_ffff
    ensures Inv(Step(w, Local(addr, op)).value, if op.DoRegister? then registrations + 1 else registrations)
    ensures R.Evolves(NodeAt(w, addr), NodeAt(Step(w, Local(addr, op)).value, addr))
  {
    hide R.Valid, Runs.Apply, EncodeList, EntryFor, Honest, R.Evolves, AllWhole;
    NodeIsValid(w, addr, registrations);
    var r, w' := NodeAt(w, addr), Step(w, Local(addr, op)).value;
    Runs.ApplyKeeps(r, op);
    var r' := NodeAt(w', addr);
    forall s | s in w'.sent ensures Honest(s.list, NodeAt(w', s.addr)) {
      if s.addr == addr { HonestStays(s.list, r, r'); }
    }
    forall p | p in w'.table && p.interfaces.Some? ensures Honest(p.interfaces.value, NodeAt(w', p.addr)) {
      if p.addr == addr { HonestStays(p.interfaces.value, r, r'); }
    }
  }

  lemma HonestStays(list: seq<Entry>, r: R.Registry, r': R.Registry)
    requires Honest(list, r) && R.Evolves(r, r')
    ensures Honest(list, r')
  {
  }

  lemma {:induction false} ExecKeeps(actions: seq<Action>)
    requires Proper(actions)
    ensures Inv(Exec(actions).value, Registrations(actions))
  {
    if actions != [] {
      var init := actions[..|actions| - 1];
      ExecKeeps(init);
      StepKeeps(Exec(init).value, actions[|actions| - 1], Registrations(init));
    }
  }

  // ---- what every step does ----

  /** Every arrival of anything ever sent is handled: it is ignored if it lists more than 256
      interfaces or its sender finds no place, and replaces or adds its sender's record otherwise. */
  lemma ArrivesExactly(w: World, registrations: nat, k: nat, tail: seq<byte>)
    requires Inv(w, registrations) && k < |w.sent|
    ensures var s, i := w.sent[k], IndexOfPeer(w.table, w.sent[k].addr);
            Step(w, Arrive(k, tail)) == Some(w.(table :=
              if |s.list| > MAX_INTERFACES || TurnedAway(w.table, s.addr) then w.table
              else if i < |w.table| then w.table[i := Peer(w.table[i].id, s.addr, Some(s.list), |s.list|)]
              else w.table + [Peer(|w.table|, s.addr, None, |s.list|)]))
  {
    hide R.Valid, EncodeList, DecodeList, Honest, IndexOfPeer, Receive, U32At;
    var s := w.sent[k];
    assert s in w.sent;
    ArrivalIsFaithful(s, tail);
    var d := Datagram(s.addr, s.bytes + tail, |s.bytes|);
    if |s.list| > MAX_INTERFACES {
      RejectedExactly(d.memory, d.size);
      RejectedIsIgnored(w.table, d);
    } else if TurnedAway(w.table, s.addr) {
      RejectedIsIgnored(w.table, d);
    } else {
      AcceptedIsRecorded(w.table, d, s.list);
    }
  }

  /** A broadcast sends the node's whole list, exactly when that can be serialized. */
  lemma BroadcastsExactly(w: World, addr: u32)
    ensures var list, w' := Snapshot(NodeAt(w, addr)), Step(w, Broadcast(addr));
            && (w'.Some? <==> |list| < U32_LIMIT && FitInTurn([U32(|list|)] + AllSlotChunks(AllWhole(list))))
            && (w'.Some? ==> w'.value == w.(sent := w.sent + [Announcement(addr, EncodeList(AllWhole(list)), list)]))
  {
    hide Snapshot, ListBuf, EncodeList, FitInTurn, AllSlotChunks, AllWhole, U32;
    var list := Snapshot(NodeAt(w, addr));
    if |list| < U32_LIMIT {
      ListFitsExactly(AllWhole(list));
      ListBufIsEncode(AllWhole(list));
    }
  }

  /** The operations of one node. */
  function LocalOps(actions: seq<Action>, addr: u32): seq<Runs.Op> {
    if actions == [] then []
    else
      var init, a := LocalOps(actions[..|actions| - 1], addr), actions[|actions| - 1];
      if a.Local? && a.addr == addr then init + [a.op] else init
  }

  /** Each node's registry is that of a registry run of its own operations. */
  lemma {:induction false} NodeRunsItsOps(actions: seq<Action>, addr: u32)
    requires Exec(actions).Some?
    ensures Runs.Run(LocalOps(actions, addr)) == Some(NodeAt(Exec(actions).value, addr))
  {
    hide ListBuf, EncodeList, Snapshot, Receive, Runs.Apply;
    if actions != [] {
      var init, a := actions[..|actions| - 1], actions[|actions| - 1];
      NodeRunsItsOps(init, addr);
      var before := LocalOps(init, addr);
      if a.Local? && a.addr == addr { assert (before + [a.op])[..|before|] == before; }
    }
  }

  // ---- nothing is invented ----

  /** `list` was all that the node at `addr` had registered after `k` of the actions. */
  ghost predicate SnapshotAt(actions: seq<Action>, k: nat, addr: u32, list: seq<Entry>) {
    k <= |actions| && Exec(actions[..k]).Some? && list == Snapshot(NodeAt(Exec(actions[..k]).value, addr))
  }

  ghost predicate PastSnapshot(actions: seq<Action>, addr: u32, list: seq<Entry>) {
    exists k: nat :: SnapshotAt(actions, k, addr, list)
  }

  lemma PastStaysPast(init: seq<Action>, a: Action, addr: u32, list: seq<Entry>)
    requires PastSnapshot(init, addr, list)
    ensures PastSnapshot(init + [a], addr, list)
  {
    var k: nat :| SnapshotAt(init, k, addr, list);
    assert (init + [a])[..k] == init[..k];
    assert SnapshotAt(init + [a], k, addr, list);
  }

  /** Whatever is lost, repeated or reordered: every list in the peer table is, entry for entry,
      what the node at that address had registered at one moment of the past. No cached interface
      is invented, and no two moments are mixed. */
  lemma {:induction false} CachedListsArePastSnapshots(actions: seq<Action>)
    requires Proper(actions)
    ensures var w := Exec(actions).value;
            && (forall s | s in w.sent :: PastSnapshot(actions, s.addr, s.list))
            && (forall p | p in w.table && p.interfaces.Some? :: PastSnapshot(actions, p.addr, p.interfaces.value))
  {
    hide Step, Snapshot;
    if actions != [] {
      var init, a := actions[..|actions| - 1], actions[|actions| - 1];
      assert actions == init + [a];
      CachedListsArePastSnapshots(init);
      ExecKeeps(init);
      var w, w' := Exec(init).value, Exec(actions).value;
      StepSources(w, a, Registrations(init));
      forall s | s in w'.sent ensures PastSnapshot(actions, s.addr, s.list) {
        if s in w.sent {
          PastStaysPast(init, a, s.addr, s.list);
        } else {
          assert actions[..|init|] == init;
          assert SnapshotAt(actions, |init|, s.addr, s.list);
        }
      }
      forall p | p in w'.table && p.interfaces.Some? ensures PastSnapshot(actions, p.addr, p.interfaces.value) {
        if q :| q in w.table && q.interfaces == p.interfaces && q.addr == p.addr {
          PastStaysPast(init, a, p.addr, p.interfaces.value);
        } else {
          var s :| s in w.sent && s.addr == p.addr && Some(s.list) == p.interfaces;
          PastStaysPast(init, a, p.addr, p.interfaces.value);
        }
      }
    }
  }

  /** Where the lists of the next state come from. */
  lemma StepSources(w: World, a: Action, registrations: nat)
    requires Inv(w, registrations) && Step(w, a).Some?
    ensures var w' := Step(w, a).value;
            && (forall s | s in w'.sent :: s in w.sent || s.list == Snapshot(NodeAt(w, s.addr)))
            && (forall p | p in w'.table && p.interfaces.Some? ::
                  || (exists q :: q in w.table && q.interfaces == p.interfaces && q.addr == p.addr)
                  || (exists s :: s in w.sent && s.addr == p.addr && Some(s.list) == p.interfaces))
  {
    hide R.Valid, ListBuf, EncodeList, DecodeList, Runs.Apply, Honest, Snapshot;
    if a.Arrive? && a.k < |w.sent| {
      var s := w.sent[a.k];
      assert s in w.sent;
      ArrivalIsFaithful(s, a.tail);
    }
  }

  // ---- stale views are safe to call by ----

  /** However old the cached list, a call that passes `peer_ioctl`'s check against it names an
      interface its node really registered, with exactly the argument and return counts of that
      registration; and if the id is still registered, it is that interface. */
  lemma StaleCallMatchesRegistration(
    actions: seq<Action>, i: nat, id: u32, argc: u32, retc: u32, hasArgv: bool, hasRetv: bool)
    requires Proper(actions) && i < |Exec(actions).value.table|
    requires CheckCall(Exec(actions).value.table[i], id, argc, retc, hasArgv, hasRetv).Accepted?
    ensures var w := Exec(actions).value;
            var node := NodeAt(w, w.table[i].addr);
            && id in node.born && |node.born[id].args| == argc && |node.born[id].rets| == retc
            && (id in node.recs ==> node.recs[id].info == node.born[id])
  {
    var w := Exec(actions).value;
    var p := w.table[i];
    ExecKeeps(actions);
    NodeIsValid(w, p.addr, Registrations(actions));
    assert p in w.table;
    var list := p.interfaces.value;
    var e := list[FindEntry(list, id)];
    assert e in list;
  }

  // ---- and a view that arrived can be called by ----

  /** A list that arrives twice from one address is then cached for it. */
  lemma SecondArrivalIsCached(peers: seq<Peer>, d: Datagram, list: seq<Entry>)
    requires Payload(d) == Interfaces(list) && (IndexOfPeer(peers, d.addr) < |peers| || |peers| < MAX_PEERS)
    ensures var once := Receive(peers, d);
            && once.Some?
            && var twice := Receive(once.value, d);
               && twice.Some?
               && var i := IndexOfPeer(twice.value, d.addr);
                  i < |twice.value| && twice.value[i].interfaces == Some(list)
  {
    hide Payload, IndexOfPeer;
    var once := Receive(peers, d).value;
    var i := IndexOfPeer(peers, d.addr);
    assert once[i].addr == d.addr;
    var j := IndexOfPeer(once, d.addr);
    assert j < |once|;
    var twice := Receive(once, d).value;
    assert twice[j].addr == d.addr;
    var k := IndexOfPeer(twice, d.addr);
    assert forall q | 0 <= q < |once| :: twice[q].addr == once[q].addr;
    assert k == j;
  }

  /** The check accepts every interface of a snapshot, with the counts of its registration. */
  lemma SnapshotIsAccepted(r: R.Registry, id: u32, p: Peer, hasArgv: bool, hasRetv: bool)
    requires R.Valid(r) && id in r.recs && p.interfaces == Some(Snapshot(r))
    requires (hasArgv || r.recs[id].info.args == []) && (hasRetv || r.recs[id].info.rets == [])
    ensures CheckCall(p, id, |r.recs[id].info.args|, |r.recs[id].info.rets|, hasArgv, hasRetv)
         == Accepted(EntryFor(id, r.recs[id].info))
  {
    hide R.Grouped, R.Sorted;
    var list := Snapshot(r);
    assert id in r.order;
    var j :| 0 <= j < |r.order| && r.order[j] == id;
    assert list[j].id == id;
    var i := FindEntry(list, id);
    assert r.order[i] == id;
  }

  /** Progress: once a node's announcement has arrived twice, each of its interfaces can be called
      by the view, without an array wherever there is nothing to pass, if the announcement could be
      serialized, has at most 256 interfaces and finds its address or room for it in the table. */
  lemma TwiceAnnouncedIsCallable(
    w: World, registrations: nat, addr: u32, id: u32, tail: seq<byte>, hasArgv: bool, hasRetv: bool)
    requires Inv(w, registrations) && id in NodeAt(w, addr).recs
    requires hasArgv || NodeAt(w, addr).recs[id].info.args == []
    requires hasRetv || NodeAt(w, addr).recs[id].info.rets == []
    requires |NodeAt(w, addr).order| <= MAX_INTERFACES && ListBuf(AllWhole(Snapshot(NodeAt(w, addr)))).Buf?
    requires IndexOfPeer(w.table, addr) < |w.table| || |w.table| < MAX_PEERS
    ensures var info := NodeAt(w, addr).recs[id].info;
            var sent := Step(w, Broadcast(addr));
            && sent.Some?
            && var once := Step(sent.value, Arrive(|w.sent|, tail));
            && once.Some?
            && var twice := Step(once.value, Arrive(|w.sent|, tail));
            && twice.Some?
            && var table := twice.value.table;
               var i := IndexOfPeer(table, addr);
               i < |table| && CheckCall(table[i], id, |info.args|, |info.rets|, hasArgv, hasRetv).Accepted?
  {
    hide R.Valid, ListBuf, EncodeList, DecodeList, Snapshot, Receive, IndexOfPeer, CheckCall;
    NodeIsValid(w, addr, registrations);
    var r := NodeAt(w, addr);
    var list := Snapshot(r);
    ListBufIsEncode(AllWhole(list));
    var a := Announcement(addr, ListBuf(AllWhole(list)).bytes, list);
    ArrivalIsFaithful(a, tail);
    var d := Datagram(addr, a.bytes + tail, |a.bytes|);
    SecondArrivalIsCached(w.table, d, list);
    var table := Receive(Receive(w.table, d).value, d).value;
    SnapshotIsAccepted(r, id, table[IndexOfPeer(table, addr)], hasArgv, hasRetv);
  }
}
