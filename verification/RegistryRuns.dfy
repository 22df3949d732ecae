/** Whole runs of the registry, from module load to any later moment. */
module RegistryRuns {
  import opened Bytes
  import opened InfoPacket
  import opened Registry

  datatype Op =
    | DoRegister(info: InfoRecord, pid: int)
    | DoRemove(id: u32)
    | DoActivate(ids: seq<u32>, portid: u32)
    | DoForward(id: u32, conn: nat)

  /** One request to the kernel module; undefined behaviour ends the run. */
  function Apply(r: Registry, op: Op): Option<Registry> {
    match op
    case DoRegister(info, pid) => Some(Register(r, info, pid))
    case DoRemove(id) =>
      (match Remove(r, id)
       case NotFound => Some(r)
       case ReadsOutsideList => None
       case Removed(r') => Some(r'))
    case DoActivate(ids, portid) => Some(Activate(r, ids, portid))
    case DoForward(id, conn) => Some(if id in r.recs then Bind(r, id, conn) else r)
  }

  /** A run from module load; None once it is undefined. */
  function Run(ops: seq<Op>): Option<Registry> {
    if ops == [] then Some(NO_INTERFACES)
    else
      match Run(ops[..|ops| - 1])
      case None => None
      case Some(r) => Apply(r, ops[|ops| - 1])
  }

  function Registrations(ops: seq<Op>): nat {
    if ops == [] then 0
    else Registrations(ops[..|ops| - 1]) + if ops[|ops| - 1].DoRegister? then 1 else 0
  }

  /** A run that is defined so far and has not used up the 32-bit ids. */
  ghost predicate Proper(ops: seq<Op>) {
    Run(ops).Some? && Registrations(ops) < 0xffff_ffff
  }

  lemma ApplyKeeps(r: Registry, op: Op)
    requires Valid(r) && (op.DoRegister? ==> r.next < 0xffff_ffff) && Apply(r, op).Some?
    ensures var r' := Apply(r, op).value;
            && Valid(r') && Evolves(r, r')
            && r'.next == r.next + (if op.DoRegister? then 1 else 0)
            && r'.capacity == (if |r'.order| > r.capacity then r.capacity + GRADIENT else r.capacity)
            && |r'.order| <= |r.order| + 1
  {
    hide Activate, Listed, Sorted, Recorded, Grouped, ProcFor, IndexOfPid;
    match op
    case DoRegister(info, pid) => RegisterKeeps(r, info, pid);
    case DoRemove(id) => if Remove(r, id).Removed? { RemoveKeeps(r, id); }
    case DoActivate(ids, portid) => ActivateKeeps(r, ids, portid);
    case DoForward(id, conn) => if id in r.recs { BindKeeps(r, id, conn); }
  }

  /** Ids are never zero, increase along the array (not strictly: removal duplicates entries) and
      stay below the next one; arities are those of registration; interfaces are grouped by
      process. In every reachable state. */
  lemma {:induction false} RunKeepsValid(ops: seq<Op>)
    requires Proper(ops)
    ensures var r := Run(ops).value; Valid(r) && r.next == 1 + Registrations(ops)
  {
    if ops != [] {
      RunKeepsValid(ops[..|ops| - 1]);
      ApplyKeeps(Run(ops[..|ops| - 1]).value, ops[|ops| - 1]);
    }
  }

  lemma {:induction false} RunEvolves(ops: seq<Op>, k: nat)
    requires Proper(ops) && k <= |ops|
    ensures Proper(ops[..k]) && Evolves(Run(ops[..k]).value, Run(ops).value)
  {
    if k == |ops| {
      assert ops[..k] == ops;
    } else {
      var init := ops[..|ops| - 1];
      assert init[..k] == ops[..k];
      RunEvolves(init, k);
      RunKeepsValid(init);
      ApplyKeeps(Run(init).value, ops[|ops| - 1]);
    }
  }

  /** In every reachable state the next id is not in use, as registration in place requires. */
  lemma NextIsFresh(ops: seq<Op>)
    requires Proper(ops)
    ensures Run(ops).value.next !in Run(ops).value.recs
  {
    RunKeepsValid(ops);
  }

  /** Only one operation is undefined: removing the interface at the front of several. */
  lemma ApplyDefinedExactly(r: Registry, op: Op)
    requires Valid(r)
    ensures Apply(r, op).Some? <==> !(op.DoRemove? && |r.order| > 1 && r.order[0] == op.id)
  {
    hide Sorted, Grouped, Recorded, IndexOf;
    if op.DoRemove? {
      var i := IndexOf(r.order, op.id);
      if i > 0 && r.order != [] { assert r.order[..i][0] == r.order[0]; }
    }
  }

  /** Removing an id nobody has registered now changes nothing. */
  lemma RemovingUnknownIsNotFound(r: Registry, id: u32)
    requires Valid(r) && id !in r.recs
    ensures Remove(r, id).NotFound? && Apply(r, DoRemove(id)) == Some(r)
  {
    hide Sorted, Grouped, Recorded;
    assert IndexOf(r.order, id) < |r.order| ==> id in r.order;
  }

  /** An id that was handed out and is no longer registered is never registered again. */
  lemma RemovedIdsNeverReturn(ops: seq<Op>, k: nat, id: u32)
    requires Proper(ops) && k <= |ops| && Run(ops[..k]).Some?
    requires id in Run(ops[..k]).value.born && id !in Run(ops[..k]).value.recs
    ensures id !in Run(ops).value.recs
  {
    RunEvolves(ops, k);
  }

  /** The greatest number of listed interfaces at any moment of the run. */
  function Peak(ops: seq<Op>): nat {
    if ops == [] then 0
    else
      var before := Peak(ops[..|ops| - 1]);
      if Run(ops).Some? && |Run(ops).value.order| > before then |Run(ops).value.order| else before
  }

  /** The pointer array's capacity is the peak rounded up to a multiple of ten, and every index
      used is inside it. */
  lemma {:induction false} CapacityLaw(ops: seq<Op>)
    requires Proper(ops)
    ensures var r := Run(ops).value;
            && |r.order| <= Peak(ops) <= r.capacity
            && r.capacity == (Peak(ops) + GRADIENT - 1) / GRADIENT * GRADIENT
  {
    hide Valid, Evolves, Apply;
    if ops != [] {
      var init := ops[..|ops| - 1];
      CapacityLaw(init);
      RunKeepsValid(init);
      ApplyKeeps(Run(init).value, ops[|ops| - 1]);
    }
  }

  /** The id handed out is one more than the number of registrations before, in 32 bits. */
  lemma {:induction false} NextIdCounts(ops: seq<Op>)
    requires Run(ops).Some?
    ensures Run(ops).value.next == NthId(Registrations(ops))
  {
    hide Activate, ProcFor, IndexOfPid, Shifted;
    if ops != [] {
      var init, op := ops[..|ops| - 1], ops[|ops| - 1];
      NextIdCounts(init);
      var r := Run(init).value;
      match op
      case DoRegister(info, pid) => WrapSum(1 + Registrations(init));
      case DoRemove(id) =>
      case DoActivate(ids, portid) => ActivateAllocatesNothing(r, ids, portid);
      case DoForward(_, _) =>
    }
  }

  lemma {:induction false} ActivateAllocatesNothing(r: Registry, ids: seq<u32>, portid: u32)
    ensures Activate(r, ids, portid).next == r.next
  {
    if ids != [] { ActivateAllocatesNothing(r, ids[..|ids| - 1], portid); }
  }

  lemma WrapSum(n: nat)
    ensures Wrap(Wrap(n) + 1) == Wrap(n + 1)
  {
  }

  /** The id of the registration with `n` before it. */
  function NthId(n: nat): u32 {
    Wrap(1 + n)
  }

  /** Exactly how long ids are non-zero and fresh. */
  lemma IdsFreshExactly(n: nat)
    ensures (NthId(n) != 0 && forall m: nat | m < n :: NthId(m) != NthId(n)) <==> n < 0xffff_ffff
  {
    if n > 0xffff_ffff {
      assert NthId(n - 0x1_0000_0000) == NthId(n);
    }
  }

  /** The port of the last handshake that named an interface while it was registered. */
  function LatestHandshake(ops: seq<Op>, id: u32): Option<u32> {
    if ops == [] then None
    else
      var init, op := ops[..|ops| - 1], ops[|ops| - 1];
      if op.DoActivate? && id in op.ids && Run(init).Some? && id in Run(init).value.recs then Some(op.portid)
      else LatestHandshake(init, id)
  }

  /** Requests for an interface are forwarded to the process of its latest handshake. */
  lemma {:induction false} ForwardsToLatestHandshake(ops: seq<Op>, id: u32)
    requires Proper(ops)
    ensures LatestHandshake(ops, id).Some? ==> id in Run(ops).value.born
    ensures var r := Run(ops).value;
            id in r.recs ==>
              var latest := LatestHandshake(ops, id);
              && r.recs[id].activated == latest.Some?
              && r.recs[id].portid == (if latest.Some? then latest.value else 0)
  {
    if ops != [] {
      var init, op := ops[..|ops| - 1], ops[|ops| - 1];
      ForwardsToLatestHandshake(init, id);
      RunKeepsValid(init);
      ForwardStep(Run(init).value, op, id);
    }
  }

  lemma ForwardStep(r: Registry, op: Op, id: u32)
    requires Valid(r) && (op.DoRegister? ==> r.next < 0xffff_ffff) && Apply(r, op).Some?
    ensures var r' := Apply(r, op).value;
            && (forall k | k in r.born :: k in r'.born)
            && (id in r'.recs ==>
                  if op.DoActivate? && id in op.ids then
                    id in r.recs && r'.recs[id].activated && r'.recs[id].portid == op.portid
                  else if id in r.recs then
                    r'.recs[id].activated == r.recs[id].activated && r'.recs[id].portid == r.recs[id].portid
                  else id !in r.born && !r'.recs[id].activated && r'.recs[id].portid == 0)
  {
    hide Activate, Listed, Sorted, Grouped, ProcFor, IndexOfPid, Shifted;
    ApplyKeeps(r, op);
    match op
    case DoRegister(info, pid) =>
    case DoRemove(_) =>
    case DoActivate(ids, portid) => ActivateIsOneUpdate(r, ids, portid);
    case DoForward(_, _) =>
  }

  /** The connection of the last call that was forwarded to an interface while it was registered. */
  function LatestForward(ops: seq<Op>, id: u32): Option<nat> {
    if ops == [] then None
    else
      var init, op := ops[..|ops| - 1], ops[|ops| - 1];
      if op.DoForward? && op.id == id && Run(init).Some? && id in Run(init).value.recs then Some(op.conn)
      else LatestForward(init, id)
  }

  /** An interface's reply slot holds the latest call forwarded to it, and nothing else ever. */
  lemma {:induction false} SlotIsLatestForward(ops: seq<Op>, id: u32)
    requires Proper(ops)
    ensures LatestForward(ops, id).Some? ==> id in Run(ops).value.born
    ensures id in Run(ops).value.recs ==> Run(ops).value.recs[id].socket == LatestForward(ops, id)
  {
    if ops != [] {
      var init, op := ops[..|ops| - 1], ops[|ops| - 1];
      SlotIsLatestForward(init, id);
      RunKeepsValid(init);
      SlotStep(Run(init).value, op, id);
    }
  }

  lemma SlotStep(r: Registry, op: Op, id: u32)
    requires Valid(r) && (op.DoRegister? ==> r.next < 0xffff_ffff) && Apply(r, op).Some?
    ensures var r' := Apply(r, op).value;
            && (forall k | k in r.born :: k in r'.born)
            && (id in r'.recs ==>
                  if op.DoForward? && op.id == id then id in r.recs && r'.recs[id].socket == Some(op.conn)
                  else if id in r.recs then r'.recs[id].socket == r.recs[id].socket
                  else id !in r.born && r'.recs[id].socket.None?)
  {
    hide Activate, Listed, Sorted, Grouped, ProcFor, IndexOfPid, Shifted;
    ApplyKeeps(r, op);
    match op
    case DoRegister(info, pid) =>
    case DoRemove(_) =>
    case DoActivate(ids, portid) => ActivateIsOneUpdate(r, ids, portid);
    case DoForward(_, _) =>
  }

  // ---- processes ----

  /** The process that registered an id. */
  function PidOf(ops: seq<Op>, id: u32): Option<int> {
    if ops == [] then None
    else
      var init, op := ops[..|ops| - 1], ops[|ops| - 1];
      if op.DoRegister? && NthId(Registrations(init)) == id then Some(op.pid) else PidOf(init, id)
  }

  /** Every interface is recorded under the process that registered it. */
  lemma {:induction false} RecordedUnderRegistrant(ops: seq<Op>)
    requires Proper(ops)
    ensures forall id | id in Run(ops).value.recs :: PidOf(ops, id) == Some(Run(ops).value.recs[id].pid)
  {
    hide Apply, Valid;
    if ops != [] {
      var init, op := ops[..|ops| - 1], ops[|ops| - 1];
      RecordedUnderRegistrant(init);
      RunKeepsValid(init);
      NextIdCounts(init);
      PidStep(Run(init).value, op);
    }
  }

  lemma PidStep(r: Registry, op: Op)
    requires Valid(r) && (op.DoRegister? ==> r.next < 0xffff_ffff) && Apply(r, op).Some?
    ensures var r' := Apply(r, op).value;
            forall id | id in r'.recs ::
              if op.DoRegister? && id == r.next then r'.recs[id].pid == op.pid
              else id in r.recs && r'.recs[id].pid == r.recs[id].pid
    ensures op.DoRegister? ==> r.next in Apply(r, op).value.recs
  {
    hide Activate, Listed, Sorted, Grouped, ProcFor, IndexOfPid, Shifted;
    if op.DoActivate? { ActivateIsOneUpdate(r, op.ids, op.portid); }
  }

  /** Two live interfaces share a procfs entry exactly when one process registered both. */
  lemma EntriesAreProcesses(ops: seq<Op>, a: u32, b: u32)
    requires Proper(ops) && a in Run(ops).value.recs && b in Run(ops).value.recs
    ensures Run(ops).value.recs[a].proc == Run(ops).value.recs[b].proc <==> PidOf(ops, a) == PidOf(ops, b)
  {
    hide Run, PidOf, Listed, Sorted, Recorded;
    RunKeepsValid(ops);
    RecordedUnderRegistrant(ops);
  }

  /** How many registrations came from a process without a live interface. */
  ghost function FirstOfProcess(ops: seq<Op>): nat {
    if ops == [] then 0
    else
      var init, op := ops[..|ops| - 1], ops[|ops| - 1];
      var first := op.DoRegister? && Run(init).Some? &&
                   forall id | id in Run(init).value.recs :: PidOf(init, id) != Some(op.pid);
      FirstOfProcess(init) + if first then 1 else 0
  }

  /** Exactly for those a procfs entry is created. */
  lemma {:induction false} EntriesCreatedExactly(ops: seq<Op>)
    requires Proper(ops)
    ensures Run(ops).value.entries == FirstOfProcess(ops)
  {
    hide Apply, Valid, PidOf;
    if ops != [] {
      var init, op := ops[..|ops| - 1], ops[|ops| - 1];
      EntriesCreatedExactly(init);
      RunKeepsValid(init);
      RecordedUnderRegistrant(init);
      EntryStep(Run(init).value, op);
    }
  }

  lemma EntryStep(r: Registry, op: Op)
    requires Valid(r) && Apply(r, op).Some?
    ensures var r' := Apply(r, op).value;
            var first := op.DoRegister? && forall id | id in r.recs :: r.recs[id].pid != op.pid;
            r'.entries == r.entries + if first then 1 else 0
  {
    hide Activate, Sorted, Grouped, Recorded, Shifted, Wrap;
    match op
    case DoRegister(info, pid) =>
      var i := IndexOfPid(r, pid, 0);
      if i < |r.order| { assert r.order[i] in r.recs; }
    case DoRemove(_) =>
    case DoActivate(ids, portid) => ActivateIsOneUpdate(r, ids, portid);
    case DoForward(_, _) =>
  }

  // ---- exactly when the registry is the map its callers expect ----

  /** What a caller expects to be registered: every id handed out and not removed since, with the
      description it was registered with. */
  function Live(ops: seq<Op>): map<u32, InfoRecord> {
    if ops == [] then map[]
    else
      var init, op := ops[..|ops| - 1], ops[|ops| - 1];
      match op
      case DoRegister(info, _) => Live(init)[NthId(Registrations(init)) := info]
      case DoRemove(id) => Live(init) - {id}
      case _ => Live(init)
  }

  /** Interfaces are only removed in the reverse order of their registration. */
  ghost predicate LastFirst(ops: seq<Op>) {
    ops == [] ||
    var init, op := ops[..|ops| - 1], ops[|ops| - 1];
    LastFirst(init) && (op.DoRemove? && op.id in Live(init) ==> forall id | id in Live(init) :: id <= op.id)
  }

  ghost predicate Increasing(order: seq<u32>) {
    forall i, j | 0 <= i < j < |order| :: order[i] < order[j]
  }

  /** The registry holds that map: a lookup finds exactly the live ids, with their descriptions, and
      each stands in the array once, in the order of registration. */
  ghost predicate Refines(r: Registry, live: map<u32, InfoRecord>) {
    && r.recs.Keys == live.Keys && (forall id | id in live :: r.recs[id].info == live[id])
    && (forall id :: id in r.order <==> id in live) && Increasing(r.order)
  }

  ghost predicate RefinesAt(ops: seq<Op>, k: nat)
    requires k <= |ops|
  {
    Run(ops[..k]).Some? && Refines(Run(ops[..k]).value, Live(ops[..k]))
  }

  lemma RegisterRefines(r: Registry, info: InfoRecord, pid: int, live: map<u32, InfoRecord>)
    requires Valid(r) && Refines(r, live)
    ensures Refines(Register(r, info, pid), live[r.next := info])
  {
    hide Sorted, Grouped, ProcFor, IndexOfPid, Wrap;
    var r' := Register(r, info, pid);
    forall id ensures id in r'.order <==> id in live[r.next := info] {
      assert id in r'.order <==> id in r.order || id == r.next;
    }
    forall i, j | 0 <= i < j < |r'.order| ensures r'.order[i] < r'.order[j] {
      assert r.order[i] in r.order;
    }
  }

  lemma IndexOfLast(order: seq<u32>)
    requires Increasing(order) && order != []
    ensures IndexOf(order, order[|order| - 1]) == |order| - 1
  {
    assert order[|order| - 1] in order;
    var i := IndexOf(order, order[|order| - 1]);
    assert order[..|order|] == order;
  }

  lemma RemoveLast(r: Registry, id: u32)
    requires r.order != [] && IndexOf(r.order, id) == |r.order| - 1
    ensures var order := r.order[..|r.order| - 1];
            Remove(r, id) == Removed(r.(order := order, recs := map k | k in r.recs && k in order :: r.recs[k]))
  {
    hide IndexOf;
    assert Shifted(r.order, |r.order| - 1) == r.order[..|r.order| - 1];
  }

  lemma WithoutLast(order: seq<u32>, id: u32)
    requires Increasing(order) && order != [] && order[|order| - 1] == id
    ensures Increasing(order[..|order| - 1])
    ensures forall k :: k in order[..|order| - 1] <==> k in order && k != id
  {
    assert order == order[..|order| - 1] + [id];
  }

  lemma GreatestIsLast(order: seq<u32>, id: u32)
    requires Increasing(order) && id in order && forall k | k in order :: k <= id
    ensures order[|order| - 1] == id
  {
    var j :| 0 <= j < |order| && order[j] == id;
    assert order[|order| - 1] in order;
  }

  /** Removing the last registered interface leaves the others as they were. */
  lemma LastRemovalRefines(r: Registry, id: u32, live: map<u32, InfoRecord>)
    requires Valid(r) && Refines(r, live) && id in live && forall k | k in live :: k <= id
    ensures Remove(r, id).Removed? && Refines(Remove(r, id).reg, live - {id})
  {
    hide Valid, IndexOf, Remove, Increasing;
    assert id in r.order;
    GreatestIsLast(r.order, id);
    IndexOfLast(r.order);
    RemoveLast(r, id);
    WithoutLast(r.order, id);
  }

  /** And that is the only removal of a live interface which does. */
  lemma OnlyLastRemovalRefines(r: Registry, id: u32, live: map<u32, InfoRecord>)
    requires Valid(r) && Refines(r, live) && id in live
    requires Remove(r, id).Removed? && Refines(Remove(r, id).reg, live - {id})
    ensures forall k | k in live :: k <= id
  {
    hide Grouped, Recorded, Listed, IndexOf, Shifted;
    RemoveRecordsExactly(r, id);
    var r', order := Remove(r, id).reg, r.order;
    assert r'.recs == r.recs - {id};
    forall k | k in live ensures k <= id {
      var j :| 0 <= j < |order| && order[j] == k;
    }
  }

  /** One operation, given that the registry was the expected map before it. */
  lemma ApplyRefinesExactly(r: Registry, op: Op, live: map<u32, InfoRecord>)
    requires Valid(r) && Refines(r, live)
    ensures var live' := match op
                         case DoRegister(info, _) => live[r.next := info]
                         case DoRemove(id) => live - {id}
                         case _ => live;
            (Apply(r, op).Some? && Refines(Apply(r, op).value, live'))
            <==> (op.DoRemove? && op.id in live ==> forall k | k in live :: k <= op.id)
  {
    hide Valid, Register, Remove, Activate, IndexOf, Refines;
    match op
    case DoRegister(info, pid) => RegisterRefines(r, info, pid, live);
    case DoRemove(id) =>
      if id !in live {
        UnknownIsNotFound(r, id, live);
      } else if forall k | k in live :: k <= id {
        LastRemovalRefines(r, id, live);
      } else {
        RemoveFindsListed(r, id, live);
        if Remove(r, id).Removed? && Refines(Remove(r, id).reg, live - {id}) { OnlyLastRemovalRefines(r, id, live); }
      }
    case DoActivate(ids, portid) =>
      ActivateIsOneUpdate(r, ids, portid);
      UpdateRefines(r, Activate(r, ids, portid), live);
    case DoForward(id, conn) => UpdateRefines(r, Apply(r, op).value, live);
  }

  lemma UnknownIsNotFound(r: Registry, id: u32, live: map<u32, InfoRecord>)
    requires Refines(r, live) && id !in live
    ensures Remove(r, id).NotFound? && live - {id} == live
  {
    assert IndexOf(r.order, id) < |r.order| ==> id in r.order;
  }

  lemma RemoveFindsListed(r: Registry, id: u32, live: map<u32, InfoRecord>)
    requires Refines(r, live) && id in live
    ensures !Remove(r, id).NotFound?
  {
    assert r.order[..|r.order|] == r.order;
  }

  lemma UpdateRefines(r: Registry, r': Registry, live: map<u32, InfoRecord>)
    requires Refines(r, live) && r'.order == r.order && r'.recs.Keys == r.recs.Keys
    requires forall id | id in r.recs :: r'.recs[id].info == r.recs[id].info
    ensures Refines(r', live)
  {
  }

  /** Over whole runs: the registry is at every moment a finite map with exactly the registered and
      not removed interfaces, in order, each once, if and only if interfaces were removed last
      registered first. Any other removal of a live interface loses others or is undefined. */
  lemma {:induction false} RefinesMapExactly(ops: seq<Op>)
    requires Registrations(ops) < 0xffff_ffff
    ensures LastFirst(ops) <==> forall k: nat | k <= |ops| :: RefinesAt(ops, k)
  {
    hide Refines, Apply, Run, Live;
    if ops == [] {
      NothingRefines();
      forall k: nat | k <= |ops| ensures RefinesAt(ops, k) { assert ops[..k] == []; }
    } else {
      var n := |ops| - 1;
      var init, op := ops[..n], ops[n];
      RefinesMapExactly(init);
      forall k: nat | k <= n ensures RefinesAt(ops, k) <==> RefinesAt(init, k) { assert init[..k] == ops[..k]; }
      assert ops[..n + 1] == ops && init[..n] == init;
      RunAndLive(ops);
      if RefinesAt(ops, n) {
        RunKeepsValid(init);
        ApplyRefinesExactly(Run(init).value, op, Live(init));
        assert RefinesAt(ops, n + 1) <==>
               (op.DoRemove? && op.id in Live(init) ==> forall k | k in Live(init) :: k <= op.id);
      }
      if LastFirst(ops) {
        assert RefinesAt(init, n);
        forall k: nat | k <= |ops| ensures RefinesAt(ops, k) { if k <= n { assert RefinesAt(init, k); } }
      } else if forall k: nat | k <= |ops| :: RefinesAt(ops, k) {
        forall k: nat | k <= n ensures RefinesAt(init, k) { assert RefinesAt(ops, k); }
      }
    }
  }

  lemma NothingRefines()
    ensures Run([]).Some? && Refines(Run([]).value, Live([]))
  {
  }

  lemma RunAndLive(ops: seq<Op>)
    requires ops != []
    ensures var init, op := ops[..|ops| - 1], ops[|ops| - 1];
            && Run(ops) == (if Run(init).None? then None else Apply(Run(init).value, op))
            && Live(ops) == match op
                            case DoRegister(info, _) => Live(init)[NthId(Registrations(init)) := info]
                            case DoRemove(id) => Live(init) - {id}
                            case _ => Live(init)
  {
  }
}
