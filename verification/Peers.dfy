/** The peer table: one record per address, fed by the discovery server with whatever datagrams
    arrive, and consulted before a remote call. */
module Peers {
  import opened Bytes
  import opened ListPacket

  const MAX_PEERS := 256
  const EINVALIDPEERID := 10000
  const EINVALIDPACKETLENGTH := 20001
  const EINVALIDINTERFACECOUNT := 20002

  /** `interfaces` is None for a NULL list; `count` is `interface_count`. */
  datatype Peer = Peer(id: nat, addr: u32, interfaces: Option<seq<Entry>>, count: nat)

  /** A datagram in the receive buffer: `memory` starts with its bytes, `size` is its length. */
  datatype Datagram = Datagram(addr: u32, memory: seq<byte>, size: nat)

  function Payload(d: Datagram): ListResult {
    DecodeList(d.memory, d.size)
  }

  // ---- one datagram ----

  /** `get_peer`. */
  function IndexOfPeer(peers: seq<Peer>, addr: u32): (i: nat)
    ensures i <= |peers| && (i < |peers| ==> peers[i].addr == addr)
    ensures forall j | 0 <= j < i :: peers[j].addr != addr
  {
    if peers == [] || peers[0].addr == addr then 0 else 1 + IndexOfPeer(peers[1..], addr)
  }

  /** The body of the discovery loop; None when the decoder leaves the receive buffer. A new peer's
      decoded list is dropped again (`interfaces = NULL`) while its count stays. */
  function Receive(peers: seq<Peer>, d: Datagram): Option<seq<Peer>> {
    var i := IndexOfPeer(peers, d.addr);
    if i == |peers| && |peers| >= MAX_PEERS then Some(peers)
    else
      match Payload(d)
      case ReadsPastEnd => None
      case Interfaces(list) =>
        if i == |peers| then Some(peers + [Peer(|peers|, d.addr, None, |list|)])
        else Some(peers[i := peers[i].(interfaces := Some(list), count := |list|)])
      case _ => Some(peers)
  }

  /** Every datagram since the table was empty, in order of arrival. */
  function Feed(ds: seq<Datagram>): Option<seq<Peer>> {
    if ds == [] then Some([])
    else
      match Feed(ds[..|ds| - 1])
      case None => None
      case Some(peers) => Receive(peers, ds[|ds| - 1])
  }

  /** The table has no place for an address. */
  predicate TurnedAway(peers: seq<Peer>, addr: u32) {
    |peers| >= MAX_PEERS && forall p | p in peers :: p.addr != addr
  }

  lemma NewIsNotFound(peers: seq<Peer>, addr: u32)
    ensures IndexOfPeer(peers, addr) == |peers| <==> forall p | p in peers :: p.addr != addr
  {
    var i := IndexOfPeer(peers, addr);
    assert i < |peers| ==> peers[i] in peers;
  }

  /** Exactly which datagrams can be handled: those turned away, and those whose list does not run
      past the receive buffer. */
  lemma ReceiveDefinedExactly(peers: seq<Peer>, d: Datagram)
    ensures Receive(peers, d).Some? <==> TurnedAway(peers, d.addr) || !Payload(d).ReadsPastEnd?
  {
    hide IndexOfPeer, Payload;
    NewIsNotFound(peers, d.addr);
  }

  /** A rejected datagram leaves the whole table untouched: one shorter than its count field, one
      announcing more than 256 interfaces, and one from a new address when the table is full. */
  lemma RejectedIsIgnored(peers: seq<Peer>, d: Datagram)
    requires d.size < 4 || (|d.memory| >= 4 && U32At(d.memory, 0) > MAX_INTERFACES) || TurnedAway(peers, d.addr)
    ensures Receive(peers, d) == Some(peers)
  {
    hide IndexOfPeer, DecodeList, U32At;
    NewIsNotFound(peers, d.addr);
    RejectedExactly(d.memory, d.size);
  }

  /** And every other one changes its sender's record only, or adds one. */
  lemma AcceptedIsRecorded(peers: seq<Peer>, d: Datagram, list: seq<Entry>)
    requires Payload(d) == Interfaces(list) && !TurnedAway(peers, d.addr)
    ensures var i := IndexOfPeer(peers, d.addr);
            Receive(peers, d) == Some(
              if i < |peers| then peers[i := Peer(peers[i].id, d.addr, Some(list), |list|)]
              else peers + [Peer(|peers|, d.addr, None, |list|)])
  {
    hide Payload, IndexOfPeer;
    NewIsNotFound(peers, d.addr);
  }

  // ---- what the table is ----

  /** The lists announced from one address. */
  function Announced(ds: seq<Datagram>, addr: u32): seq<seq<Entry>> {
    if ds == [] then []
    else
      var init, d := ds[..|ds| - 1], ds[|ds| - 1];
      Announced(init, addr) + if d.addr == addr && Payload(d).Interfaces? then [Payload(d).list] else []
  }

  /** The addresses that announced anything, in order of their first announcement. */
  function Announcers(ds: seq<Datagram>): seq<u32> {
    if ds == [] then []
    else
      var before, d := Announcers(ds[..|ds| - 1]), ds[|ds| - 1];
      if Payload(d).Interfaces? && d.addr !in before then before + [d.addr] else before
  }

  /** What an address's announcements leave of its record: the last list, unless it is the only
      one, of which just the count is left. */
  function RecordOf(id: nat, addr: u32, announced: seq<seq<Entry>>): Peer
    requires announced != []
  {
    var last := announced[|announced| - 1];
    Peer(id, addr, if |announced| == 1 then None else Some(last), |last|)
  }

  lemma {:induction false} AnnouncersAnnounced(ds: seq<Datagram>, addr: u32)
    ensures addr in Announcers(ds) <==> Announced(ds, addr) != []
  {
    if ds != [] { AnnouncersAnnounced(ds[..|ds| - 1], addr); }
  }

  lemma {:induction false} AnnouncersDistinct(ds: seq<Datagram>)
    ensures forall i, j | 0 <= i < j < |Announcers(ds)| :: Announcers(ds)[i] != Announcers(ds)[j]
  {
    if ds != [] { AnnouncersDistinct(ds[..|ds| - 1]); }
  }

  /** The table is the function of the datagrams that it should be. */
  ghost predicate Reflects(peers: seq<Peer>, ds: seq<Datagram>) {
    var announcers := Announcers(ds);
    && |peers| == (if |announcers| <= MAX_PEERS then |announcers| else MAX_PEERS)
    && forall i | 0 <= i < |peers| ::
         Announced(ds, announcers[i]) != [] && peers[i] == RecordOf(i, announcers[i], Announced(ds, announcers[i]))
  }

  /** After any datagrams from anywhere the table holds exactly the first 256 addresses that
      announced anything, in that order and numbered so, each with what its announcements leave:
      rejected datagrams and those of other addresses have no effect on it. */
  lemma {:induction false} TableReflectsAnnouncements(ds: seq<Datagram>)
    requires Feed(ds).Some?
    ensures Reflects(Feed(ds).value, ds)
  {
    if ds != [] {
      var init, d := ds[..|ds| - 1], ds[|ds| - 1];
      TableReflectsAnnouncements(init);
      AnnouncersAnnounced(init, d.addr);
      AnnouncersDistinct(init);
      ReceiveReflects(Feed(init).value, init, d);
      assert ds == init + [d];
    }
  }

  lemma OneMore(init: seq<Datagram>, d: Datagram)
    ensures forall addr :: Announced(init + [d], addr)
              == Announced(init, addr) + (if d.addr == addr && Payload(d).Interfaces? then [Payload(d).list] else [])
    ensures Announcers(init + [d])
         == Announcers(init) + (if Payload(d).Interfaces? && d.addr !in Announcers(init) then [d.addr] else [])
  {
    assert (init + [d])[..|init|] == init;
  }

  lemma ReceiveReflects(peers: seq<Peer>, init: seq<Datagram>, d: Datagram)
    requires Reflects(peers, init) && Receive(peers, d).Some?
    requires d.addr in Announcers(init) <==> Announced(init, d.addr) != []
    requires forall i, j | 0 <= i < j < |Announcers(init)| :: Announcers(init)[i] != Announcers(init)[j]
    ensures Reflects(Receive(peers, d).value, init + [d])
  {
    OneMore(init, d);
    hide Payload, IndexOfPeer, Announced, Announcers;
    var before, after, ds := Announcers(init), Announcers(init + [d]), init + [d];
    var i, peers' := IndexOfPeer(peers, d.addr), Receive(peers, d).value;
    if d.addr in before {
      var k :| 0 <= k < |before| && before[k] == d.addr;
      assert i == if k < |peers| then k else |peers|;
    } else {
      assert i == |peers|;
    }
    forall j | 0 <= j < |peers|
      ensures Announced(ds, after[j]) != [] && peers'[j] == RecordOf(j, after[j], Announced(ds, after[j]))
    {
      assert after[j] == before[j] == peers[j].addr;
      if j == i {
      } else {
        assert Announced(ds, after[j]) == Announced(init, before[j]);
      }
    }
  }

  /** The table as a map from addresses to lists: an address among the first 256 has the list it
      announced last, if and only if it announced more than once; and the count of that list. */
  lemma LookupIsLastAnnouncement(ds: seq<Datagram>, addr: u32)
    requires Feed(ds).Some?
    ensures var peers, heard := Feed(ds).value, Announced(ds, addr);
            var i := IndexOfPeer(peers, addr);
            && |peers| <= MAX_PEERS
            && (i < |peers| ==>
                  && heard != [] && peers[i].id == i && peers[i].count == |heard[|heard| - 1]|
                  && (peers[i].interfaces == Some(heard[|heard| - 1]) <==> |heard| > 1))
            && (heard != [] && |Announcers(ds)| <= MAX_PEERS ==> i < |peers|)
  {
    hide Feed, Announced, Announcers, IndexOfPeer;
    TableReflectsAnnouncements(ds);
    AnnouncersAnnounced(ds, addr);
    var peers := Feed(ds).value;
    if addr in Announcers(ds) && |Announcers(ds)| <= MAX_PEERS {
      var j :| 0 <= j < |Announcers(ds)| && Announcers(ds)[j] == addr;
      assert peers[j].addr == addr;
    }
  }

  /** Each datagram in turn can be handled. */
  ghost predicate HandledInTurn(ds: seq<Datagram>) {
    ds == [] ||
    var init, d := ds[..|ds| - 1], ds[|ds| - 1];
    && HandledInTurn(init)
    && (Payload(d).ReadsPastEnd? ==> |Announcers(init)| >= MAX_PEERS && d.addr !in Announcers(init)[..MAX_PEERS])
  }

  /** Exactly how long the discovery loop stays defined, told from the datagrams alone. */
  lemma {:induction false} FeedDefinedExactly(ds: seq<Datagram>)
    ensures Feed(ds).Some? <==> HandledInTurn(ds)
  {
    hide Payload, Receive;
    if ds != [] {
      var init, d := ds[..|ds| - 1], ds[|ds| - 1];
      FeedDefinedExactly(init);
      if Feed(init).Some? {
        ReceiveDefinedExactly(Feed(init).value, d);
        TurnedAwayExactly(init, d.addr);
      }
    }
  }

  lemma TurnedAwayExactly(ds: seq<Datagram>, addr: u32)
    requires Feed(ds).Some?
    ensures TurnedAway(Feed(ds).value, addr) <==>
            |Announcers(ds)| >= MAX_PEERS && addr !in Announcers(ds)[..MAX_PEERS]
  {
    TableReflectsAnnouncements(ds);
    hide Feed, Announced, Announcers;
    var peers, announcers := Feed(ds).value, Announcers(ds);
    if |announcers| >= MAX_PEERS {
      assert forall i | 0 <= i < MAX_PEERS :: peers[i].addr == announcers[..MAX_PEERS][i];
      if addr in announcers[..MAX_PEERS] {
        var i :| 0 <= i < MAX_PEERS && announcers[..MAX_PEERS][i] == addr;
        assert peers[i] in peers;
      }
    }
  }

  // ---- the check before a remote call ----

  datatype Check = Faults | NotFound | Refused | Accepted(entry: Entry)

  function FindEntry(list: seq<Entry>, id: u32): (i: nat)
    ensures i <= |list| && (i < |list| ==> list[i].id == id)
    ensures forall j | 0 <= j < i :: list[j].id != id
  {
    if list == [] || list[0].id == id then 0 else 1 + FindEntry(list[1..], id)
  }

  /** `peer_ioctl` up to the call: the id must be cached for the peer and the caller's counts must
      be the cached ones, with values wherever a count is not zero. Searching a NULL list faults
      unless the count kept with it is zero. */
  function CheckCall(p: Peer, id: u32, argc: u32, retc: u32, hasArgv: bool, hasRetv: bool): Check {
    match p.interfaces
    case None => if p.count > 0 then Faults else NotFound
    case Some(list) =>
      var i := FindEntry(list, id);
      if i == |list| then NotFound
      else if |list[i].argFlags| != argc || |list[i].retFlags| != retc then Refused
      else if (argc != 0 && !hasArgv) || (retc != 0 && !hasRetv) then Refused
      else Accepted(list[i])
  }

  /** A call to a cached peer dereferences NULL exactly between its first announcement, if that
      was not empty, and its second; between an empty first one and the second it finds nothing. */
  lemma CallFaultsExactly(ds: seq<Datagram>, i: nat, id: u32, argc: u32, retc: u32, hasArgv: bool, hasRetv: bool)
    requires Feed(ds).Some? && i < |Feed(ds).value|
    ensures var p := Feed(ds).value[i];
            CheckCall(p, id, argc, retc, hasArgv, hasRetv).Faults? <==>
              var heard := Announced(ds, p.addr); |heard| == 1 && heard[0] != []
    ensures var p := Feed(ds).value[i];
            Announced(ds, p.addr) == [[]] ==> CheckCall(p, id, argc, retc, hasArgv, hasRetv).NotFound?
  {
    TableReflectsAnnouncements(ds);
  }

  /** Exactly what the check makes of a call to a peer with a list: the first entry with the id
      decides; its counts must be the caller's, and a missing array is refused only where its count
      is not zero. */
  lemma CheckExactly(p: Peer, id: u32, argc: u32, retc: u32, hasArgv: bool, hasRetv: bool)
    requires p.interfaces.Some?
    ensures var list, c := p.interfaces.value, CheckCall(p, id, argc, retc, hasArgv, hasRetv);
            && (c.NotFound? <==> forall e | e in list :: e.id != id)
            && !c.Faults?
            && forall i | 0 <= i < |list| && list[i].id == id && (forall j | 0 <= j < i :: list[j].id != id) ::
                 c == if |list[i].argFlags| == argc && |list[i].retFlags| == retc
                         && (hasArgv || argc == 0) && (hasRetv || retc == 0) then Accepted(list[i]) else Refused
  {
    hide FindEntry;
    var list := p.interfaces.value;
    var k := FindEntry(list, id);
    if k < |list| {
      assert list[k] in list;
      forall i | 0 <= i < |list| && list[i].id == id && (forall j | 0 <= j < i :: list[j].id != id) ensures i == k {}
    }
  }

  // ---- the table in memory ----

  class PeerTable {
    /** `peers`, allocated on first use, and `peer_count`. */
    var peers: array?<Peer>
    var count: nat

    ghost predicate Valid()
      reads this, peers
    {
      if peers == null then count == 0 else peers.Length == MAX_PEERS && count <= MAX_PEERS
    }

    ghost function Contents(): seq<Peer>
      reads this, peers
      requires Valid()
    {
      if peers == null then [] else peers[..count]
    }

    constructor ()
      ensures Valid() && Contents() == [] && peers == null
    {
      peers, count := null, 0;
    }

    method Init()
      requires Valid() && peers == null
      modifies this
      ensures Valid() && fresh(peers) && Contents() == []
    {
      peers := new Peer[MAX_PEERS](_ => Peer(0, 0, None, 0));
      count := 0;
    }

    /** `get_peer`; -1 when the address is new. */
    method GetPeer(addr: u32) returns (i: int)
      requires Valid()
      modifies this
      ensures Valid() && peers != null && Contents() == old(Contents())
      ensures old(peers) == null || peers == old(peers)
      ensures old(peers) == null ==> fresh(peers)
      ensures var k := IndexOfPeer(Contents(), addr); i == if k < |Contents()| then k else -1
    {
      if peers == null {
        Init();
      }
      for j := 0 to count
        invariant peers != null && Valid() && Contents() == old(Contents())
        invariant old(peers) == null || peers == old(peers)
        invariant old(peers) == null ==> fresh(peers)
        invariant forall k | 0 <= k < j :: Contents()[k].addr != addr
      {
        if peers[j].addr == addr {
          IndexOfPeerIs(Contents(), addr, j);
          return j;
        }
      }
      IndexOfPeerIs(Contents(), addr, count);
      return -1;
    }

    /** `add_peer`; the new id or a negative error. It does not look whether the address is known. */
    method AddPeer(addr: u32, buffer: array<byte>, size: nat) returns (id: int, defined: bool)
      requires Valid()
      modifies this, peers
      ensures Valid() && if old(peers) == null then fresh(peers) else peers == old(peers)
      ensures var before := old(Contents());
              if |before| >= MAX_PEERS then defined && id == -EINVALIDPEERID && Contents() == before
              else
                match DecodeList(old(buffer[..]), size)
                case ReadsPastEnd => !defined
                case InvalidLength => defined && id == -EINVALIDPACKETLENGTH && Contents() == before
                case InvalidCount => defined && id == -EINVALIDINTERFACECOUNT && Contents() == before
                case Interfaces(list) =>
                  defined && id == |before| && Contents() == before + [Peer(id, addr, None, |list|)]
    {
      if peers == null {
        Init();
      }
      ghost var before := Contents();
      if count >= MAX_PEERS {
        return -EINVALIDPEERID, true;
      }
      var r := UnserializeInterfaces(buffer, size);
      match r
      case ReadsPastEnd => return 0, false;
      case InvalidLength => return -EINVALIDPACKETLENGTH, true;
      case InvalidCount => return -EINVALIDINTERFACECOUNT, true;
      case Interfaces(list) =>
        peers[count] := Peer(count, addr, Some(list), |list|);
        peers[count] := peers[count].(interfaces := None);
        count := count + 1;
        assert Contents() == before + [Peer(|before|, addr, None, |list|)];
        return count - 1, true;
    }

    /** `update_peer_interfaces`; 0 or a negative error. */
    method Update(id: nat, buffer: array<byte>, size: nat) returns (err: int, defined: bool)
      requires Valid()
      modifies peers
      ensures Valid()
      ensures var before := old(Contents());
              if peers == null then defined && err == -1 && Contents() == before
              else if id >= |before| then defined && err == -EINVALIDPEERID && Contents() == before
              else
                match DecodeList(old(buffer[..]), size)
                case ReadsPastEnd => !defined
                case InvalidLength => defined && err == -EINVALIDPACKETLENGTH && Contents() == before
                case InvalidCount => defined && err == -EINVALIDINTERFACECOUNT && Contents() == before
                case Interfaces(list) =>
                  defined && err == 0 && Contents()
                      == before[id := before[id].(interfaces := Some(list), count := |list|)]
    {
      if peers == null {
        return -1, true;
      }
      if id >= count {
        return -EINVALIDPEERID, true;
      }
      var r := UnserializeInterfaces(buffer, size);
      match r
      case ReadsPastEnd => return 0, false;
      case InvalidLength => return -EINVALIDPACKETLENGTH, true;
      case InvalidCount => return -EINVALIDINTERFACECOUNT, true;
      case Interfaces(list) =>
        ghost var before := Contents();
        peers[id] := peers[id].(interfaces := Some(list));
        peers[id] := peers[id].(count := |list|);
        assert Contents() == before[id := before[id].(interfaces := Some(list), count := |list|)];
        return 0, true;
    }

    /** One turn of `discovery_server_loop`; `defined` is false when the decoder left the buffer. */
    method HandleDatagram(addr: u32, buffer: array<byte>, size: nat) returns (defined: bool)
      requires Valid()
      modifies this, peers
      ensures var r := Receive(old(Contents()), Datagram(addr, old(buffer[..]), size));
              && (defined <==> r.Some?)
              && (defined ==> Valid() && Contents() == r.value)
      ensures old(peers) == null || peers == old(peers)
    {
      var id := GetPeer(addr);
      if id < 0 {
        id, defined := AddPeer(addr, buffer, size);
      } else {
        var err;
        err, defined := Update(id, buffer, size);
      }
    }
  }

  lemma {:induction false} IndexOfPeerIs(peers: seq<Peer>, addr: u32, i: nat)
    requires i <= |peers| && (i < |peers| ==> peers[i].addr == addr)
    requires forall j | 0 <= j < i :: peers[j].addr != addr
    ensures IndexOfPeer(peers, addr) == i
  {
    var k := IndexOfPeer(peers, addr);
    assert k < |peers| ==> peers[k].addr == addr;
  }

  /** `peer_ioctl` up to the call, with the search loop over the cached list. */
  method CheckIoctl(p: Peer, id: u32, argc: u32, retc: u32, hasArgv: bool, hasRetv: bool) returns (c: Check)
    ensures c == CheckCall(p, id, argc, retc, hasArgv, hasRetv)
  {
    if p.interfaces.None? {
      return if p.count > 0 then Faults else NotFound;
    }
    var list, i := p.interfaces.value, 0;
    while i < |list| && list[i].id != id
      invariant i <= |list| && forall j | 0 <= j < i :: list[j].id != id
    {
      i := i + 1;
    }
    ghost var k := FindEntry(list, id);
    assert k < |list| ==> list[k].id == id;
    if i == |list| {
      return NotFound;
    }
    if |list[i].argFlags| != argc || |list[i].retFlags| != retc {
      return Refused;
    }
    if (argc != 0 && !hasArgv) || (retc != 0 && !hasRetv) {
      return Refused;
    }
    return Accepted(list[i]);
  }
}
