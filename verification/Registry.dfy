/** The interface registry as a state and the functions that change it. The pointer array is the
    sequence of its interfaces' ids; since ids identify interfaces, an interface that stands in
    the array twice (which the removal as written causes) has one record. */
module Registry {
  import opened Bytes
  import opened Buffer
  import opened Codec
  import opened InfoPacket
  import opened RpcPacket

  const GRADIENT := 10

  /** `interface_t` with its `ctrl_t`. `argc` and `retc` are the lengths of its description
      arrays, `proc` names a procfs entry, `socket` a connection. */
  datatype Rec = Rec(info: InfoRecord, pid: int, proc: nat, activated: bool, portid: u32, socket: Option<nat>)

  /** `next` is ALLOCATED_ID, `capacity` INTERFACE_CAPACITY, |order| INTERFACE_COUNT; `entries`
      counts the procfs entries created. `born` is history: what every id was registered with. */
  datatype Registry = Registry(
    order: seq<u32>, recs: map<u32, Rec>, next: u32, capacity: nat, entries: nat, born: map<u32, InfoRecord>)

  const NO_INTERFACES := Registry([], map[], 1, 0, 0, map[])

  // ---- the operations ----

  /** The position at which the linear searches stop. */
  function IndexOf(s: seq<u32>, id: u32): (i: nat)
    ensures i <= |s| && (i < |s| ==> s[i] == id) && id !in s[..i]
  {
    if s == [] || s[0] == id then 0
    else
      var i := IndexOf(s[1..], id);
      assert s[..i + 1] == [s[0]] + s[1..][..i];
      i + 1
  }

  predicate HasPid(r: Registry, id: u32, pid: int) {
    id in r.recs && r.recs[id].pid == pid
  }

  /** The first interface of a process, as `add_interface_to_proc` finds it. */
  function IndexOfPid(r: Registry, pid: int, from: nat): (i: nat)
    requires from <= |r.order|
    ensures from <= i <= |r.order|
    ensures i < |r.order| ==> HasPid(r, r.order[i], pid)
    ensures forall j | from <= j < i :: !HasPid(r, r.order[j], pid)
    decreases |r.order| - from
  {
    if from == |r.order| || HasPid(r, r.order[from], pid) then from else IndexOfPid(r, pid, from + 1)
  }

  /** The procfs entry for a process: that of its first listed interface, or a new one. */
  function ProcFor(r: Registry, pid: int): nat {
    var i := IndexOfPid(r, pid, 0);
    if i < |r.order| then r.recs[r.order[i]].proc else r.entries
  }

  /** `register_interface`; the new interface's id is `r.next`. */
  function Register(r: Registry, info: InfoRecord, pid: int): Registry {
    Registry(
      r.order + [r.next],
      r.recs[r.next := Rec(info, pid, ProcFor(r, pid), false, 0, None)],
      Wrap(r.next + 1),
      if r.capacity < |r.order| + 1 then r.capacity + GRADIENT else r.capacity,
      if IndexOfPid(r, pid, 0) < |r.order| then r.entries else r.entries + 1,
      r.born[r.next := info])
  }

  /** `ReadsOutsideList` is the access to INTERFACE_LIST[i - 1] for an unsigned `i` of 0, far behind
      the array: undefined behaviour. */
  datatype Removal = NotFound | ReadsOutsideList | Removed(reg: Registry)

  /** The array after removing position `i` as the code does: every later slot gets the value of
      the slot BEFORE it, one after the other, so the element before `i` is spread to the end. */
  function Shifted(order: seq<u32>, i: nat): seq<u32>
    requires i < |order| && (i > 0 || |order| == 1)
  {
    order[..i] + seq(|order| - 1 - i, _ => if i > 0 then order[i - 1] else 0)
  }

  function Remove(r: Registry, id: u32): Removal {
    var i := IndexOf(r.order, id);
    if i == |r.order| then NotFound
    else if i == 0 && |r.order| > 1 then ReadsOutsideList
    else
      var order := Shifted(r.order, i);
      Removed(r.(order := order, recs := map k | k in r.recs && k in order :: r.recs[k]))
  }

  /** One id of a handshake. */
  function ActivateOne(r: Registry, id: u32, portid: u32): Registry {
    if id in r.recs then r.(recs := r.recs[id := r.recs[id].(activated := true, portid := portid)]) else r
  }

  /** The nested loops of `handle_activate_interface`. */
  function Activate(r: Registry, ids: seq<u32>, portid: u32): Registry {
    if ids == [] then r else ActivateOne(Activate(r, ids[..|ids| - 1], portid), ids[|ids| - 1], portid)
  }

  /** `ctrl->socket = sock` when a call is forwarded. */
  function Bind(r: Registry, id: u32, conn: nat): Registry
    requires id in r.recs
  {
    r.(recs := r.recs[id := r.recs[id].(socket := Some(conn))])
  }

  // ---- what every operation keeps ----

  ghost predicate Listed(r: Registry) {
    forall id :: id in r.order <==> id in r.recs
  }

  ghost predicate Sorted(order: seq<u32>) {
    forall i, j | 0 <= i < j < |order| :: order[i] <= order[j]
  }

  /** Every id ever handed out is known with what it was registered with. */
  ghost predicate Recorded(r: Registry) {
    && 1 <= r.next
    && (forall id :: id in r.born <==> 1 <= id < r.next)
    && (forall id | id in r.recs :: id in r.born && r.recs[id].info == r.born[id])
  }

  /** Two interfaces share a procfs entry exactly when they share a process. */
  ghost predicate Grouped(r: Registry) {
    && (forall a | a in r.recs :: r.recs[a].proc < r.entries)
    && (forall a, b | a in r.recs && b in r.recs ::
          r.recs[a].pid == r.recs[b].pid <==> r.recs[a].proc == r.recs[b].proc)
  }

  ghost predicate Valid(r: Registry) {
    Listed(r) && Sorted(r.order) && Recorded(r) && Grouped(r) && |r.order| <= r.capacity
  }

  /** What stays true between any two moments of a run: nothing about a registered id is
      rewritten, and an id that is gone never comes back. */
  ghost predicate Evolves(r: Registry, r': Registry) {
    && (forall id | id in r.born :: id in r'.born && r'.born[id] == r.born[id])
    && (forall id | id in r.born && id in r'.recs :: id in r.recs)
  }

  lemma RegisterGroups(r: Registry, info: InfoRecord, pid: int)
    requires Listed(r) && Grouped(r) && r.next !in r.recs
    ensures Grouped(Register(r, info, pid))
  {
    var r', i := Register(r, info, pid), IndexOfPid(r, pid, 0);
    forall a | a in r.recs ensures r.recs[a].pid == pid <==> r.recs[a].proc == ProcFor(r, pid) {
      var j :| 0 <= j < |r.order| && r.order[j] == a;
      if i < |r.order| { assert r.order[i] in r.order; }
      assert HasPid(r, r.order[j], pid) <==> r.recs[a].pid == pid;
    }
    forall a | a in r'.recs ensures r'.recs[a].proc < r'.entries {
      if i < |r.order| { assert r.order[i] in r.order; }
    }
  }

  lemma RegisterLists(r: Registry, info: InfoRecord, pid: int)
    requires Listed(r) && Sorted(r.order) && forall id | id in r.recs :: id < r.next
    ensures var r' := Register(r, info, pid); Listed(r') && Sorted(r'.order)
  {
    hide ProcFor, IndexOfPid, Wrap;
    var r' := Register(r, info, pid);
    forall id ensures id in r'.order <==> id in r'.recs {
      assert id in r'.order <==> id in r.order || id == r.next;
    }
    forall i, j | 0 <= i < j < |r'.order| ensures r'.order[i] <= r'.order[j] {
      assert r.order[i] in r.order;
    }
  }

  lemma RegisterKeeps(r: Registry, info: InfoRecord, pid: int)
    requires Valid(r) && r.next < 0xffff_ffff
    ensures var r' := Register(r, info, pid);
            Valid(r') && Evolves(r, r') && r'.next == r.next + 1
  {
    hide Listed, Sorted, Grouped, IndexOfPid, ProcFor;
    assert r.next !in r.recs;
    RegisterLists(r, info, pid);
    RegisterGroups(r, info, pid);
  }

  /** Only what stood before the removed position is left in the array. */
  lemma ShiftedElements(order: seq<u32>, i: nat)
    requires i < |order| && (i > 0 || |order| == 1)
    ensures forall k :: k in Shifted(order, i) <==> k in order[..i]
    ensures |Shifted(order, i)| == |order| - 1
  {
    var s := Shifted(order, i);
    forall k | k in s ensures k in order[..i] {
      var j :| 0 <= j < |s| && s[j] == k;
      assert k == order[..i][if j < i then j else i - 1];
    }
    forall k | k in order[..i] ensures k in s {
      var j :| 0 <= j < i && order[..i][j] == k;
      assert s[j] == k;
    }
  }

  lemma RemoveKeeps(r: Registry, id: u32)
    requires Valid(r) && Remove(r, id).Removed?
    ensures var r' := Remove(r, id).reg;
            && Valid(r') && Evolves(r, r') && r'.next == r.next
            && id !in r'.recs && id !in r'.order
            && |r'.order| == |r.order| - 1
  {
    ShiftedElements(r.order, IndexOf(r.order, id));
  }

  lemma BindKeeps(r: Registry, id: u32, conn: nat)
    requires Valid(r) && id in r.recs
    ensures Valid(Bind(r, id, conn)) && Evolves(r, Bind(r, id, conn))
  {
  }

  /** The nested loops amount to one simultaneous update of exactly the live ids listed; order
      and duplicates do not matter. */
  lemma {:induction false} ActivateIsOneUpdate(r: Registry, ids: seq<u32>, portid: u32)
    ensures Activate(r, ids, portid)
         == r.(recs := map id | id in r.recs ::
                         if id in ids then r.recs[id].(activated := true, portid := portid) else r.recs[id])
  {
    if ids == [] {
      assert r.recs == map id | id in r.recs :: r.recs[id];
    } else {
      var init, last := ids[..|ids| - 1], ids[|ids| - 1];
      assert ids == init + [last];
      ActivateIsOneUpdate(r, init, portid);
    }
  }

  lemma ActivateKeeps(r: Registry, ids: seq<u32>, portid: u32)
    requires Valid(r)
    ensures var r' := Activate(r, ids, portid);
            Valid(r') && Evolves(r, r') && r'.next == r.next && r'.order == r.order && r'.capacity == r.capacity
  {
    hide Activate;
    ActivateIsOneUpdate(r, ids, portid);
  }

  /** Ids are non-zero, so the reserved id 0 cannot shadow an interface. */
  lemma ZeroIsNeverLive(r: Registry)
    requires Valid(r)
    ensures 0 !in r.recs && 0 !in r.born
  {
  }

  // ---- exactly when removal does what its caller expects ----

  /** Which list a removal leaves: the entry deleted and the others in order exactly for the last
      position. Removing the first of several interfaces is undefined. */
  lemma RemoveOrderExactly(r: Registry, id: u32)
    requires Valid(r) && id in r.recs
    ensures var i, n := IndexOf(r.order, id), |r.order|;
            && i < n && !Remove(r, id).NotFound?
            && (Remove(r, id).ReadsOutsideList? <==> i == 0 && n > 1)
            && (Remove(r, id).Removed? ==>
                  (Remove(r, id).reg.order == r.order[..i] + r.order[i + 1..] <==> i == n - 1))
  {
    hide Grouped, Recorded;
    var i, n, order := IndexOf(r.order, id), |r.order|, r.order;
    if i == n - 1 {
      assert i > 0 || n == 1;
    } else if i > 0 {
      assert order[i - 1] in order[..i];
      assert Shifted(order, i)[i] == order[i - 1] != order[i];
      assert order[i - 1] <= order[i] <= order[i + 1];
      assert (order[..i] + order[i + 1..])[i] == order[i + 1];
    }
  }

  /** What stands before the first occurrence of an element of a sorted array is everything else
      exactly when that element is also the last one. */
  lemma BeforeFirstExactly(order: seq<u32>, id: u32)
    requires Sorted(order) && id in order
    ensures var i := IndexOf(order, id);
            order[|order| - 1] == id <==> forall k | k in order && k != id :: k in order[..i]
  {
    var i, last := IndexOf(order, id), order[|order| - 1];
    if last == id {
      forall k | k in order && k != id ensures k in order[..i] {
        var j :| 0 <= j < |order| && order[j] == k;
        if j < i { assert k == order[..i][j]; } else { SortedFrom(order, i, j); }
      }
    } else {
      assert last in order && last !in order[..i];
    }
  }

  /** Which interfaces a defined removal leaves registered: all the others exactly when the id is
      the one at the end of the array. The freed interface itself is never listed any more. */
  lemma RemoveRecordsExactly(r: Registry, id: u32)
    requires Valid(r) && Remove(r, id).Removed?
    ensures var r' := Remove(r, id).reg;
            && id !in r'.order && id !in r'.recs
            && (r'.recs == r.recs - {id} <==> r.order[|r.order| - 1] == id)
  {
    hide Grouped, Recorded, Shifted, Sorted;
    var r' := Remove(r, id).reg;
    ShiftedElements(r.order, IndexOf(r.order, id));
    BeforeFirstExactly(r.order, id);
    assert r'.recs == r.recs - {id} <==> forall k | k in r.recs && k != id :: k in r'.recs;
  }

  lemma SortedFrom(order: seq<u32>, i: nat, j: nat)
    requires Sorted(order) && i <= j < |order|
    ensures order[i] <= order[j] <= order[|order| - 1]
  {
  }

  /** Three interfaces; removing the second makes the third unreachable, and removing the first
      is undefined. */
  lemma RemovalLosesInterfaces(a: Rec, b: Rec, c: Rec, r: Registry)
    requires r.order == [1, 2, 3] && r.recs == map[1 := a, 2 := b, 3 := c]
    ensures Remove(r, 2).Removed? && Remove(r, 2).reg.order == [1, 1] && 3 !in Remove(r, 2).reg.recs
    ensures Remove(r, 1) == ReadsOutsideList
    ensures Remove(r, 3).Removed? && Remove(r, 3).reg.order == [1, 2]
  {
    assert [2, 3] == r.order[1..] && [3] == [2, 3][1..];
    assert IndexOf([3], 2) == 1 && IndexOf([2, 3], 2) == 0 && IndexOf(r.order, 2) == 1;
    assert IndexOf([3], 3) == 0 && IndexOf([2, 3], 3) == 1 && IndexOf(r.order, 3) == 2;
  }

  // ---- serving a request ----

  /** What `execute_interface` does with a packet from a connection: answer an information query
      (with the packet, or not at all), refuse an unknown id, or forward to a netlink port. */
  datatype Execution =
    | UndefinedBehaviour
    | NoReply
    | InfoReply(packet: seq<byte>)
    | Unknown
    | Forward(reg: Registry, portid: u32)

  /** `fetch_interface_info`: the id asked about is the first value's first four bytes. */
  function QueryInfo(r: Registry, packet: seq<byte>): (x: Execution)
    ensures !x.Unknown? && !x.Forward?
  {
    match DecodeRpc(packet, 0)
    case OutOfBounds => UndefinedBehaviour
    case Parsed(query, _) =>
      if query.values == [] || |query.values[0]| < 4 then UndefinedBehaviour
      else
        var id := U32At(query.values[0], 0);
        if id !in r.recs then NoReply
        else
          match SerializedInfo(id, r.recs[id].info)
          case Failed => NoReply
          case Undefined => UndefinedBehaviour
          case Written(b) => InfoReply(if b.Buf? then b.bytes else [])
  }

  function Execute(r: Registry, packet: seq<byte>, conn: nat): Execution {
    if |packet| < 4 then UndefinedBehaviour
    else
      var id := U32At(packet, 0);
      if id == 0 then QueryInfo(r, packet)
      else if id in r.recs then Forward(Bind(r, id, conn), r.recs[id].portid)
      else Unknown
  }

  /** The interface named by an RPC packet is the one that is executed, and its slot is what the
      request's connection is put in. */
  lemma ExecuteRpc(r: Registry, m: seq<byte>, id: u32, values: seq<Blob>, conn: nat)
    requires |values| < U32_LIMIT && Holds(m, 0, EncodeRpc(id, values)) && id != 0
    ensures Execute(r, m, conn) == if id in r.recs then Forward(Bind(r, id, conn), r.recs[id].portid) else Unknown
  {
    HoldsConcat(m, 0, U32(id) + U32(|values|), EncodeAll(EncodeBlock, values));
    HoldsConcat(m, 0, U32(id), U32(|values|));
    U32AtExact(m, 0, id);
  }

  /** What a query means: its first value's first four bytes are the id it asks about, whatever else
      it carries. Without them it is undefined, as its caller's memory is read past its end. */
  lemma QueryAsks(r: Registry, m: seq<byte>, argv: seq<Blob>, conn: nat)
    requires |argv| < U32_LIMIT && Holds(m, 0, EncodeRpc(0, argv))
    ensures Execute(r, m, conn)
         == if argv == [] || |argv[0]| < 4 then UndefinedBehaviour
            else
              var id := U32At(argv[0], 0);
              if id !in r.recs then NoReply
              else
                match SerializedInfo(id, r.recs[id].info)
                case Failed => NoReply
                case Undefined => UndefinedBehaviour
                case Written(b) => InfoReply(if b.Buf? then b.bytes else [])
  {
    hide DecodeRpc, U32, U32At, SerializedInfo;
    DecodeOfEncode(m, 0, 0, argv);
    HoldsConcat(m, 0, U32(0) + U32(|argv|), EncodeAll(EncodeBlock, argv));
    HoldsConcat(m, 0, U32(0), U32(|argv|));
    U32AtExact(m, 0, 0);
  }

  /** The whole information query: a packet with the reserved id 0 and the interface's id as its
      first value is answered, if the description can be serialized, with a packet that reads back
      from the asker's zero-filled buffer as the description the interface was registered with,
      exactly when the descriptions the serializer drops were empty. */
  lemma InfoQueryRoundTrip(r: Registry, id: u32, info: Info<CStr>, m: seq<byte>, argv: seq<Blob>, conn: nat, room: nat)
    requires Valid(r) && id in r.recs && r.recs[id].info == Complete(info)
    requires |info.args| < U32_LIMIT && |info.rets| < U32_LIMIT && 2 * |info.rets| <= room
    requires SerializedInfo(id, r.recs[id].info).Written?
    requires |argv| < U32_LIMIT && Holds(m, 0, EncodeRpc(0, argv))
    requires argv != [] && Holds(argv[0], 0, U32(id))
    ensures var x := Execute(r, m, conn);
            && x.InfoReply?
            && r.born[id] == Complete(info)
            && DecodeInfo(x.packet + Zeros(room)).Parsed?
            && (DecodeInfo(x.packet + Zeros(room)).value == info <==>
                  forall d | d in info.rets[|info.args|..] :: d == NO_TEXT)
  {
    hide DecodeInfo, SerializedInfo, DecodeRpc, Complete, EncodeInfo, EncodeRpc, Execute, U32, U32At;
    U32AtExact(argv[0], 0, id);
    QueryAsks(r, m, argv, conn);
    CompleteInfoPacket(id, info);
    InfoRoundTripExactly(id, info, room);
  }
}
