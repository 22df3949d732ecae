/** The registry as the kernel module keeps it: a list of pointers to interface objects that the
    operations update in place. Every method is proved against its function in Registry. */
module RegistryTable {
  import opened Bytes
  import opened InfoPacket
  import R = Registry
  import opened Registry

  class Interface {
    const id: u32
    const info: InfoRecord
    const pid: int
    const proc: nat
    var activated: bool
    var portid: u32
    var socket: Option<nat>

    constructor (id: u32, info: InfoRecord, pid: int, proc: nat)
      ensures this.id == id && Is(Rec(info, pid, proc, false, 0, None))
    {
      this.id, this.info, this.pid, this.proc := id, info, pid, proc;
      activated, portid, socket := false, 0, None;
    }

    ghost predicate Is(rec: Rec)
      reads this
    {
      && info == rec.info && pid == rec.pid && proc == rec.proc
      && activated == rec.activated && portid == rec.portid && socket == rec.socket
    }
  }

  /** The pointers are to the objects registered under the ids of `order`, and every registered
      object is pointed to. */
  ghost predicate Points(list: seq<Interface>, order: seq<u32>, objectOf: map<u32, Interface>) {
    && |order| == |list|
    && (forall i | 0 <= i < |order| :: order[i] in objectOf && list[i] == objectOf[order[i]])
    && (forall id | id in objectOf :: id in order)
  }

  /** Each object holds its id's record. */
  ghost predicate Faithful(objectOf: map<u32, Interface>, recs: map<u32, Rec>, objects: set<Interface>)
    reads objects
  {
    && objectOf.Keys == recs.Keys
    && forall id | id in objectOf :: objectOf[id] in objects && objectOf[id].id == id && objectOf[id].Is(recs[id])
  }

  lemma AddsUp(list: seq<Interface>, order: seq<u32>, objectOf: map<u32, Interface>,
               recs: map<u32, Rec>, objects: set<Interface>, o: Interface, rec: Rec)
    requires Points(list, order, objectOf) && Faithful(objectOf, recs, objects)
    requires o.id !in recs && o.Is(rec)
    ensures Points(list + [o], order + [o.id], objectOf[o.id := o])
    ensures Faithful(objectOf[o.id := o], recs[o.id := rec], objects + {o})
  {
  }

  /** The pointers after the shift loop and the decrement of the count. */
  ghost function ShiftedList(list: seq<Interface>, i: nat): (s: seq<Interface>)
    requires i < |list| && (i > 0 || |list| == 1)
  {
    seq(|list| - 1, j requires 0 <= j < |list| - 1 => list[if i <= j then i - 1 else j])
  }

  lemma ShiftsAlike(list: seq<Interface>, order: seq<u32>, objectOf: map<u32, Interface>, i: nat)
    requires Points(list, order, objectOf) && i < |order| && (i > 0 || |order| == 1)
    ensures var order' := Shifted(order, i);
            Points(ShiftedList(list, i), order', map k | k in objectOf && k in order' :: objectOf[k])
  {
    var order' := Shifted(order, i);
    forall j | 0 <= j < |order'| ensures order'[j] in order' && ShiftedList(list, i)[j] == objectOf[order'[j]] {
      assert order'[j] == order[if i <= j then i - 1 else j];
    }
  }

  lemma RestrictsAlike(objectOf: map<u32, Interface>, recs: map<u32, Rec>, objects: set<Interface>, order: seq<u32>)
    requires Faithful(objectOf, recs, objects)
    ensures Faithful(
              map k | k in objectOf && k in order :: objectOf[k], map k | k in recs && k in order :: recs[k], objects)
  {
  }

  datatype RemoveStatus = Freed | NoSuchInterface | OutsideList

  /** INTERFACE_LIST up to INTERFACE_COUNT, INTERFACE_CAPACITY, ALLOCATED_ID, and the number of
      procfs entries created. */
  class InterfaceTable {
    var list: seq<Interface>
    var capacity: nat
    var allocatedId: u32
    var entries: nat

    /** The table's contents, and the object registered under each id. The contents are a valid
        registry in every run; the methods' results on `state` are those of module Registry. */
    ghost var state: Registry
    ghost var objectOf: map<u32, Interface>
    ghost var objects: set<Interface>

    ghost predicate Valid()
      reads this, objects
    {
      && capacity == state.capacity && allocatedId == state.next && entries == state.entries
      && Points(list, state.order, objectOf)
      && Faithful(objectOf, state.recs, objects)
    }

    constructor ()
      ensures Valid() && state == NO_INTERFACES && objects == {}
    {
      list, capacity, allocatedId, entries := [], 0, 1, 0;
      state, objectOf, objects := NO_INTERFACES, map[], {};
    }

    /** `find_interface`. */
    method Find(id: u32) returns (o: Interface?)
      requires Valid()
      ensures o != null <==> id in state.recs
      ensures o != null ==> id in objectOf && o == objectOf[id] && o in objects && o.id == id
    {
      for i := 0 to |list|
        invariant id !in state.order[..i]
      {
        if list[i].id == id {
          return list[i];
        }
      }
      assert state.order[..|list|] == state.order;
      return null;
    }

    /** `add_interface_to_proc`: the process's entry, or a newly created one. */
    method ProcEntry(pid: int) returns (proc: nat, created: bool)
      requires Valid()
      ensures proc == ProcFor(state, pid)
      ensures created <==> IndexOfPid(state, pid, 0) == |state.order|
      ensures |list| == |state.order|
    {
      for i := 0 to |list|
        invariant IndexOfPid(state, pid, 0) == IndexOfPid(state, pid, i)
      {
        if list[i].pid == pid {
          return list[i].proc, false;
        }
      }
      return entries, true;
    }

    /** `register_interface`. The next id can be in use only after 2^32 - 2 registrations. */
    method Register(info: InfoRecord, pid: int) returns (id: u32)
      requires Valid() && allocatedId !in state.recs
      modifies this
      ensures Valid() && state == R.Register(old(state), info, pid)
      ensures id == old(allocatedId) && fresh(objects - old(objects))
    {
      hide ProcFor, IndexOfPid, Points, Faithful, Wrap;
      var proc, created := ProcEntry(pid);
      id := allocatedId;
      var interface := new Interface(id, info, pid, proc);
      AddsUp(list, state.order, objectOf, state.recs, objects, interface, Rec(info, pid, proc, false, 0, None));
      ghost var after := R.Register(state, info, pid);
      entries := if created then entries + 1 else entries;
      allocatedId := Wrap(allocatedId + 1);
      capacity := if capacity < |list| + 1 then capacity + GRADIENT else capacity;
      list := list + [interface];
      state, objectOf, objects := after, objectOf[id := interface], objects + {interface};
    }

    /** The search loop of `remove_interface`. */
    method Position(id: u32) returns (i: nat)
      requires Valid()
      ensures i == IndexOf(state.order, id) && |list| == |state.order|
    {
      i := 0;
      while i < |list| && list[i].id != id
        invariant i <= |list| && id !in state.order[..i]
      {
        i := i + 1;
      }
      IndexIs(state.order, id, i);
    }

    /** The shift loop: every slot is copied from the one before it, then the count drops. */
    method Shift(first: nat)
      requires first < |list| && (first > 0 || |list| == 1)
      modifies `list
      ensures list == ShiftedList(old(list), first)
    {
      var count, i := |list|, first;
      while i < count - 1
        invariant first <= i <= count - 1 && |list| == count
        invariant forall j | 0 <= j < count :: list[j] == old(list)[if first <= j < i then first - 1 else j]
      {
        list := list[i := list[i - 1]];
        i := i + 1;
      }
      list := list[..count - 1];
    }

    /** `remove_interface`. */
    method Remove(id: u32) returns (status: RemoveStatus)
      requires Valid()
      modifies this
      ensures Valid() && objects == old(objects)
      ensures match R.Remove(old(state), id)
              case NotFound => status == NoSuchInterface && state == old(state)
              case ReadsOutsideList => status == OutsideList && state == old(state)
              case Removed(r) => status == Freed && state == r
    {
      hide Points, Faithful, Shifted;
      var first := Position(id);
      if first == |list| {
        return NoSuchInterface;
      }
      if first < |list| - 1 && first == 0 {
        return OutsideList;
      }
      ghost var after := R.Remove(state, id).reg;
      ShiftsAlike(list, state.order, objectOf, first);
      RestrictsAlike(objectOf, state.recs, objects, after.order);
      Shift(first);
      state, objectOf := after, map k | k in objectOf && k in after.order :: objectOf[k];
      return Freed;
    }

    /** `handle_activate_interface` once the ids are read. */
    method Activate(ids: seq<u32>, portid: u32)
      requires Valid()
      modifies this, objects
      ensures Valid() && state == R.Activate(old(state), ids, portid)
      ensures objects == old(objects)
    {
      hide Points;
      for i := 0 to |ids|
        invariant Valid() && objects == old(objects)
        invariant state == R.Activate(old(state), ids[..i], portid)
      {
        assert ids[..i + 1][..i] == ids[..i];
        var o := Find(ids[i]);
        if o != null {
          SetPort(o, portid);
        }
      }
      assert ids[..|ids|] == ids;
    }

    /** The body of the inner loop's match. */
    method SetPort(o: Interface, portid: u32)
      requires Valid() && o.id in objectOf && o == objectOf[o.id]
      modifies this, o
      ensures Valid() && objects == old(objects) && state == ActivateOne(old(state), o.id, portid)
    {
      hide Points;
      o.activated := true;
      o.portid := portid;
      ghost var after := ActivateOne(state, o.id, portid);
      forall k | k in objectOf ensures objectOf[k].Is(after.recs[k]) {
        if k != o.id { assert objectOf[k] != o; }
      }
      state := after;
    }

    /** `execute_interface` for a call: the request's connection takes the interface's slot, and
        the packet is to go to the port returned. */
    method Forward(id: u32, conn: nat) returns (portid: Option<u32>)
      requires Valid()
      modifies this, objects
      ensures Valid() && objects == old(objects)
      ensures portid == if id in old(state).recs then Some(old(state).recs[id].portid) else None
      ensures state == if id in old(state).recs then Bind(old(state), id, conn) else old(state)
    {
      hide Points;
      var o := Find(id);
      if o == null {
        return None;
      }
      o.socket := Some(conn);
      ghost var after := Bind(state, id, conn);
      forall k | k in objectOf ensures objectOf[k].Is(after.recs[k]) {
        if k != id { assert objectOf[k] != o; }
      }
      state := after;
      return Some(o.portid);
    }
  }

  lemma IndexIs(order: seq<u32>, id: u32, i: nat)
    requires i <= |order| && id !in order[..i] && (i < |order| ==> order[i] == id)
    ensures IndexOf(order, id) == i
  {
    var k := IndexOf(order, id);
    assert forall j | 0 <= j < i :: order[..i][j] == order[j];
    assert forall j | 0 <= j < k :: order[..k][j] == order[j];
  }
}
