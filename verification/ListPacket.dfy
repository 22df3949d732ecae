/** The interface-list packet `count || (id || argc || arg_flags || retc || ret_flags)*` that
    nodes broadcast. */
module ListPacket {
  import opened Bytes
  import opened Buffer
  import opened Codec

  const MAX_INTERFACES := 256

  /** One announced interface; `argc` and `retc` are the lengths of its flag arrays. */
  datatype Entry = Entry(id: u32, argFlags: Blob, retFlags: Blob)

  /** An element of the serializer's pointer array, which tolerates missing parts. */
  datatype Slot = NullInterface | NoArgFlags(id: u32) | NoRetFlags(id: u32, argFlags: Blob) | Whole(entry: Entry)

  datatype ListResult = InvalidLength | InvalidCount | ReadsPastEnd | Interfaces(list: seq<Entry>)

  function EncodeEntry(e: Entry): seq<byte> {
    U32(e.id) + EncodeBlock(e.argFlags) + EncodeBlock(e.retFlags)
  }

  function DecodeEntry(m: seq<byte>, p: nat): Parsed<Entry> {
    if p + 4 > |m| then OutOfBounds
    else
      match DecodeBlock(m, p + 4)
      case OutOfBounds => OutOfBounds
      case Parsed(argFlags, q) =>
        match DecodeBlock(m, q)
        case OutOfBounds => OutOfBounds
        case Parsed(retFlags, next) => Parsed(Entry(U32At(m, p), argFlags, retFlags), next)
  }

  /** A damaged element is cut short where its missing part would start. */
  function EncodeSlot(s: Slot): seq<byte> {
    match s
    case NullInterface => []
    case NoArgFlags(id) => U32(id)
    case NoRetFlags(id, argFlags) => U32(id) + EncodeBlock(argFlags)
    case Whole(e) => EncodeEntry(e)
  }

  function EncodeList(slots: seq<Slot>): seq<byte>
    requires |slots| < U32_LIMIT
  {
    U32(|slots|) + EncodeAll(EncodeSlot, slots)
  }

  /** `unserialize_interfaces_packet`: `length` is looked at only for the count field. */
  function DecodeList(m: seq<byte>, length: nat): ListResult {
    if length < 4 then InvalidLength
    else if |m| < 4 then ReadsPastEnd
    else if U32At(m, 0) > MAX_INTERFACES then InvalidCount
    else
      match DecodeAll(DecodeEntry, m, 4, U32At(m, 0))
      case OutOfBounds => ReadsPastEnd
      case Parsed(list, _) => Interfaces(list)
  }

  function AllWhole(list: seq<Entry>): (slots: seq<Slot>)
    ensures |slots| == |list|
  {
    seq(|list|, i requires 0 <= i < |list| => Whole(list[i]))
  }

  lemma EntryHolds(m: seq<byte>, p: nat, e: Entry)
    ensures Holds(m, p, EncodeEntry(e)) <==>
            && Holds(m, p, U32(e.id))
            && Holds(m, p + 4, EncodeBlock(e.argFlags))
            && Holds(m, p + 4 + |EncodeBlock(e.argFlags)|, EncodeBlock(e.retFlags))
  {
    HoldsConcat(m, p, U32(e.id) + EncodeBlock(e.argFlags), EncodeBlock(e.retFlags));
    HoldsConcat(m, p, U32(e.id), EncodeBlock(e.argFlags));
  }

  lemma EntryDecodes(m: seq<byte>, p: nat, e: Entry)
    requires Holds(m, p, EncodeEntry(e))
    ensures DecodeEntry(m, p) == Parsed(e, p + |EncodeEntry(e)|)
  {
    hide EncodeBlock, DecodeBlock, U32, U32At;
    EntryHolds(m, p, e);
    U32AtExact(m, p, e.id);
    BlockDecodes(m, p + 4, e.argFlags);
    BlockDecodes(m, p + 4 + |EncodeBlock(e.argFlags)|, e.retFlags);
  }

  lemma EntryEncodes(m: seq<byte>, p: nat)
    requires DecodeEntry(m, p).Parsed?
    ensures var r := DecodeEntry(m, p); Holds(m, p, EncodeEntry(r.value)) && r.next == p + |EncodeEntry(r.value)|
  {
    hide EncodeBlock, DecodeBlock, U32, U32At;
    var e := DecodeEntry(m, p).value;
    BlockEncodes(m, p + 4);
    BlockEncodes(m, DecodeBlock(m, p + 4).next);
    U32AtExact(m, p, e.id);
    EntryHolds(m, p, e);
  }

  lemma EntryCodecIsExact()
    ensures Exact(EncodeEntry, DecodeEntry)
  {
    forall m: seq<byte>, p: nat, e: Entry | Holds(m, p, EncodeEntry(e))
      ensures DecodeEntry(m, p) == Parsed(e, p + |EncodeEntry(e)|)
    {
      EntryDecodes(m, p, e);
    }
    forall m: seq<byte>, p: nat | DecodeEntry(m, p).Parsed?
      ensures var r := DecodeEntry(m, p); Holds(m, p, EncodeEntry(r.value)) && r.next == p + |EncodeEntry(r.value)|
    {
      EntryEncodes(m, p);
    }
  }

  lemma {:induction false} WholeSlotsEncodeAsEntries(list: seq<Entry>)
    ensures EncodeAll(EncodeSlot, AllWhole(list)) == EncodeAll(EncodeEntry, list)
  {
    if list != [] {
      var n := |list| - 1;
      WholeSlotsEncodeAsEntries(list[..n]);
      assert AllWhole(list)[..n] == AllWhole(list[..n]);
    }
  }

  /** What a receiver makes of an announcement, whatever its buffer holds beyond it: the very
      list announced when it has at most 256 entries, a rejection otherwise. */
  lemma AnnouncementRoundTrip(list: seq<Entry>, tail: seq<byte>, length: nat)
    requires |list| < U32_LIMIT && length >= 4
    ensures DecodeList(EncodeList(AllWhole(list)) + tail, length)
         == if |list| <= MAX_INTERFACES then Interfaces(list) else InvalidCount
  {
    var packet := EncodeList(AllWhole(list));
    var m := packet + tail;
    assert m[0..0 + |packet|] == packet;
    WholeSlotsEncodeAsEntries(list);
    HoldsConcat(m, 0, U32(|list|), EncodeAll(EncodeEntry, list));
    U32AtExact(m, 0, |list|);
    EntryCodecIsExact();
    DecodeAllOfEncodeAll(EncodeEntry, DecodeEntry, m, 4, list);
  }

  /** Nothing is accepted but an encoded list at the start of the buffer. */
  lemma AcceptedIsEncoded(m: seq<byte>, length: nat)
    requires DecodeList(m, length).Interfaces?
    ensures var list := DecodeList(m, length).list;
            |list| <= MAX_INTERFACES && Holds(m, 0, EncodeList(AllWhole(list)))
  {
    var list := DecodeList(m, length).list;
    EntryCodecIsExact();
    EncodeAllOfDecodeAll(EncodeEntry, DecodeEntry, m, 4, U32At(m, 0));
    WholeSlotsEncodeAsEntries(list);
    U32AtExact(m, 0, |list|);
    HoldsConcat(m, 0, U32(|list|), EncodeAll(EncodeEntry, list));
  }

  /** Exactly what is accepted, as what: an encoded list of at most 256 entries at the start. */
  lemma AcceptedExactly(m: seq<byte>, length: nat, list: seq<Entry>)
    requires |list| < U32_LIMIT
    ensures DecodeList(m, length) == Interfaces(list) <==>
            length >= 4 && |list| <= MAX_INTERFACES && Holds(m, 0, EncodeList(AllWhole(list)))
  {
    hide EncodeList, DecodeAll;
    var packet := EncodeList(AllWhole(list));
    if DecodeList(m, length) == Interfaces(list) {
      AcceptedIsEncoded(m, length);
    } else if length >= 4 && Holds(m, 0, packet) {
      AnnouncementRoundTrip(list, m[|packet|..], length);
      assert m == packet + m[|packet|..];
    }
  }

  /** Exactly what is rejected, before anything is read past the count. */
  lemma RejectedExactly(m: seq<byte>, length: nat)
    ensures DecodeList(m, length).InvalidLength? <==> length < 4
    ensures DecodeList(m, length).InvalidCount? <==> length >= 4 && |m| >= 4 && U32At(m, 0) > MAX_INTERFACES
  {
  }

  /** The bytes an entry's two flag arrays take. */
  function FlagBytes(list: seq<Entry>): nat {
    if list == [] then 0
    else
      var last := list[|list| - 1];
      FlagBytes(list[..|list| - 1]) + |last.argFlags| + |last.retFlags|
  }

  lemma {:induction false} EntriesLength(list: seq<Entry>)
    ensures |EncodeAll(EncodeEntry, list)| == 12 * |list| + FlagBytes(list)
  {
    if list != [] { EntriesLength(list[..|list| - 1]); }
  }

  /** The length of an announcement: the count, then 12 bytes per interface besides its flags. */
  lemma AnnouncementLength(list: seq<Entry>)
    requires |list| < U32_LIMIT
    ensures |EncodeList(AllWhole(list))| == 4 + 12 * |list| + FlagBytes(list)
  {
    WholeSlotsEncodeAsEntries(list);
    EntriesLength(list);
  }

  /** An interface's id stands here, its argument flags behind their number and its return flags
      behind theirs. */
  ghost predicate EntryAt(m: seq<byte>, p: nat, e: Entry) {
    && Holds(m, p, U32(e.id)) && Holds(m, p + 4, U32(|e.argFlags|)) && Holds(m, p + 8, e.argFlags)
    && Holds(m, p + 8 + |e.argFlags|, U32(|e.retFlags|)) && Holds(m, p + 12 + |e.argFlags|, e.retFlags)
  }

  lemma EntryIsAt(m: seq<byte>, p: nat, e: Entry)
    ensures Holds(m, p, EncodeEntry(e)) <==> EntryAt(m, p, e)
  {
    hide U32, EncodeEntry, Holds;
    EntryHolds(m, p, e);
    HoldsConcat(m, p + 4, U32(|e.argFlags|), e.argFlags);
    HoldsConcat(m, p + 8 + |e.argFlags|, U32(|e.retFlags|), e.retFlags);
  }

  /** The layout, byte for byte: the count, and every interface. */
  lemma AnnouncementLayout(list: seq<Entry>)
    requires |list| < U32_LIMIT
    ensures var m := EncodeList(AllWhole(list));
            && Holds(m, 0, U32(|list|))
            && forall i | 0 <= i < |list| :: EntryAt(m, 4 + 12 * i + FlagBytes(list[..i]), list[i])
  {
    hide EncodeAll, U32, EntryAt, EncodeEntry, FlagBytes;
    var m, body := EncodeList(AllWhole(list)), EncodeAll(EncodeEntry, list);
    WholeSlotsEncodeAsEntries(list);
    assert m[0..0 + |m|] == m;
    HoldsConcat(m, 0, U32(|list|), body);
    forall i | 0 <= i < |list| ensures EntryAt(m, 4 + 12 * i + FlagBytes(list[..i]), list[i]) {
      EncodeAllAt(EncodeEntry, list, i);
      EntriesLength(list[..i]);
      HoldsWithin(m, 4, body, |EncodeAll(EncodeEntry, list[..i])|, EncodeEntry(list[i]));
      EntryIsAt(m, 4 + 12 * i + FlagBytes(list[..i]), list[i]);
    }
  }

  /** The elements that survive when null ones are skipped. */
  function Present(slots: seq<Slot>): seq<Entry> {
    if slots == [] then []
    else
      var last := slots[|slots| - 1];
      Present(slots[..|slots| - 1]) + if last.Whole? then [last.entry] else []
  }

  lemma {:induction false} SkippedEncodeAsNothing(slots: seq<Slot>)
    requires forall s | s in slots :: s.Whole? || s.NullInterface?
    ensures EncodeAll(EncodeSlot, slots) == EncodeAll(EncodeEntry, Present(slots))
  {
    if slots != [] {
      var n := |slots| - 1;
      SkippedEncodeAsNothing(slots[..n]);
      assert slots[n] in slots;
      if slots[n].Whole? {
        EncodeAllLast(EncodeEntry, Present(slots[..n]), slots[n].entry);
      } else {
        assert Present(slots) == Present(slots[..n]);
      }
    }
  }

  lemma {:induction false} SkippedAreMissing(slots: seq<Slot>)
    ensures |Present(slots)| <= |slots|
    ensures if forall s | s in slots :: s.Whole? then slots == AllWhole(Present(slots)) else |Present(slots)| < |slots|
  {
    if slots != [] {
      var n := |slots| - 1;
      assert slots == slots[..n] + [slots[n]];
      SkippedAreMissing(slots[..n]);
      if forall s | s in slots :: s.Whole? {
        assert slots[n] in slots;
        assert AllWhole(Present(slots)) == AllWhole(Present(slots[..n])) + [slots[n]];
      }
    }
  }

  /** The count field still counts skipped elements, so reading on to that count leaves the packet. */
  lemma SkippedMeansUnreadable(slots: seq<Slot>)
    requires |slots| <= MAX_INTERFACES && |Present(slots)| < |slots|
    requires EncodeAll(EncodeSlot, slots) == EncodeAll(EncodeEntry, Present(slots))
    ensures var m := EncodeList(slots); DecodeList(m, |m|).ReadsPastEnd?
  {
    hide EncodeAll, DecodeAll, U32, U32At;
    var m := EncodeList(slots);
    assert m[0..0 + |m|] == m;
    HoldsConcat(m, 0, U32(|slots|), EncodeAll(EncodeEntry, Present(slots)));
    U32AtExact(m, 0, |slots|);
    EntryCodecIsExact();
    DecodeAllRunsOut(EncodeEntry, DecodeEntry, m, 4, Present(slots), |slots|);
  }

  /** A damaged element is a whole one up to where its missing part would start. */
  lemma DamagedAreCutShort(id: u32, argFlags: Blob, retFlags: Blob)
    ensures EncodeSlot(NoRetFlags(id, argFlags)) + EncodeBlock(retFlags) == EncodeEntry(Entry(id, argFlags, retFlags))
    ensures EncodeSlot(NoArgFlags(id)) + EncodeBlock(argFlags) == EncodeSlot(NoRetFlags(id, argFlags))
    ensures EncodeSlot(NoArgFlags(id)) == U32(id) && EncodeSlot(NullInterface) == []
  {
    hide U32, EncodeBlock;
  }

  /** However an element was skipped, the receiver reads as many entries as the count says. */
  lemma CountIsRead(slots: seq<Slot>)
    requires |slots| <= MAX_INTERFACES
    ensures var m := EncodeList(slots); DecodeList(m, |m|).Interfaces? ==> |DecodeList(m, |m|).list| == |slots|
  {
    hide EncodeAll, U32, U32At;
    var m := EncodeList(slots);
    assert m[0..4] == U32(|slots|);
    U32AtExact(m, 0, |slots|);
  }

  /** A packet reads back within its own bytes as the interfaces that are whole exactly when nothing
      was skipped, for whatever reason; and when all that was skipped is NULL elements it cannot be
      read at all. */
  lemma ReadableIffNothingSkipped(slots: seq<Slot>)
    requires |slots| <= MAX_INTERFACES
    ensures var m := EncodeList(slots);
            && (DecodeList(m, |m|) == Interfaces(Present(slots)) <==> forall s | s in slots :: s.Whole?)
            && (NullInterface in slots && (forall s | s in slots :: s.Whole? || s.NullInterface?) ==>
                  DecodeList(m, |m|).ReadsPastEnd?)
  {
    hide DecodeList, EncodeList, Present;
    SkippedAreMissing(slots);
    CountIsRead(slots);
    if forall s | s in slots :: s.Whole? {
      EncodeListLength(slots);
      AnnouncementRoundTrip(Present(slots), [], |EncodeList(slots)|);
      assert EncodeList(slots) + [] == EncodeList(slots);
    } else if forall s | s in slots :: s.Whole? || s.NullInterface? {
      SkippedEncodeAsNothing(slots);
      SkippedMeansUnreadable(slots);
    }
  }

  lemma EncodeListLength(slots: seq<Slot>)
    requires |slots| < U32_LIMIT
    ensures |EncodeList(slots)| >= 4
  {
  }

  lemma TwoSlots(x: Slot, y: Slot)
    ensures EncodeAll(EncodeSlot, [x, y]) == EncodeSlot(x) + EncodeSlot(y)
  {
    hide EncodeSlot;
    var none: seq<Slot> := [];
    EncodeAllLast(EncodeSlot, none, x);
    EncodeAllLast(EncodeSlot, none + [x], y);
    assert none + [x] + [y] == [x, y];
    assert EncodeAll(EncodeSlot, none) + EncodeSlot(x) == EncodeSlot(x);
  }

  /** An element cut short can be worse than unreadable: one without argument flags, before one with
      eight zero return flags, is accepted as two interfaces, the second of which does not exist. */
  lemma DamagedIsMisread(id: u32)
    ensures var slots := [NoArgFlags(id), Whole(Entry(0, [], Zeros(8)))];
            DecodeList(EncodeList(slots), |EncodeList(slots)|) == Interfaces([Entry(id, [], []), Entry(8, [], [])])
  {
    hide DecodeList;
    var damaged, list := [NoArgFlags(id), Whole(Entry(0, [], Zeros(8)))], [Entry(id, [], []), Entry(8, [], [])];
    var read := AllWhole(list);
    TwoSlots(damaged[0], damaged[1]);
    TwoSlots(read[0], read[1]);
    assert read == [read[0], read[1]];
    assert U32(0) == Zeros(4) && Zeros(8) == Zeros(4) + Zeros(4);
    assert EncodeSlot(damaged[0]) + EncodeSlot(damaged[1]) == U32(id) + U32(0) + U32(0) + U32(8) + U32(0) + U32(0);
    assert EncodeSlot(read[0]) + EncodeSlot(read[1]) == U32(id) + U32(0) + U32(0) + U32(8) + U32(0) + U32(0);
    assert EncodeList(damaged) == EncodeList(read);
    AnnouncementRoundTrip(list, [], |EncodeList(read)|);
    assert EncodeList(read) + [] == EncodeList(read);
  }

  // ---- the serializer ----

  function PutFlags(b: Buf, flags: Blob): Buf {
    Put(Put(b, U32(|flags|)), flags)
  }

  /** One turn of the serializer's loop, with its three `continue`s. */
  function PutSlot(b: Buf, s: Slot): Buf {
    match s
    case NullInterface => b
    case NoArgFlags(id) => Put(b, U32(id))
    case NoRetFlags(id, argFlags) => PutFlags(Put(b, U32(id)), argFlags)
    case Whole(e) => PutFlags(PutFlags(Put(b, U32(e.id)), e.argFlags), e.retFlags)
  }

  function ListBuf(slots: seq<Slot>): Buf
    requires |slots| < U32_LIMIT
  {
    PutEach(PutSlot, Put(EMPTY, U32(|slots|)), slots)
  }

  lemma PutFlagsAppends(b: Buf, flags: Blob)
    requires Wellformed(b)
    ensures Wellformed(PutFlags(b, flags))
    ensures PutFlags(b, flags).Buf? ==> b.Buf? && PutFlags(b, flags).bytes == b.bytes + EncodeBlock(flags)
  {
    hide Put;
    PutFitsExactly(b, U32(|flags|));
    var b1 := Put(b, U32(|flags|));
    PutFitsExactly(b1, flags);
    if b.Buf? { assert b.bytes + U32(|flags|) + flags == b.bytes + EncodeBlock(flags); }
  }

  lemma PutSlotAppendsOne(b: Buf, s: Slot)
    requires b.Buf? && Wellformed(b)
    ensures Wellformed(PutSlot(b, s))
    ensures PutSlot(b, s).Buf? ==> PutSlot(b, s).bytes == b.bytes + EncodeSlot(s)
  {
    hide Put, PutFlags, EncodeBlock, U32;
    match s
    case NullInterface =>
    case NoArgFlags(id) =>
      PutFitsExactly(b, U32(id));
    case NoRetFlags(id, argFlags) =>
      PutFitsExactly(b, U32(id));
      PutFlagsAppends(Put(b, U32(id)), argFlags);
      assert b.bytes + U32(id) + EncodeBlock(argFlags) == b.bytes + EncodeSlot(s);
    case Whole(e) =>
      PutFitsExactly(b, U32(e.id));
      var b1 := Put(b, U32(e.id));
      PutFlagsAppends(b1, e.argFlags);
      PutFlagsAppends(PutFlags(b1, e.argFlags), e.retFlags);
      assert b.bytes + U32(e.id) + EncodeBlock(e.argFlags) + EncodeBlock(e.retFlags) == b.bytes + EncodeSlot(s);
  }

  lemma PutSlotAppends()
    ensures Appends(PutSlot, EncodeSlot)
  {
    forall b: Buf, s: Slot | b.Buf? && Wellformed(b)
      ensures Wellformed(PutSlot(b, s))
      ensures PutSlot(b, s).Buf? ==> PutSlot(b, s).bytes == b.bytes + EncodeSlot(s)
    {
      PutSlotAppendsOne(b, s);
    }
  }

  lemma ListBufIsEncode(slots: seq<Slot>)
    requires |slots| < U32_LIMIT
    ensures Wellformed(ListBuf(slots))
    ensures ListBuf(slots).Buf? ==> ListBuf(slots).bytes == EncodeList(slots)
  {
    hide Put, PutSlot, EncodeSlot, U32;
    PutSlotAppends();
    PutFitsExactly(EMPTY, U32(|slots|));
    PutEachAppends(PutSlot, EncodeSlot, Put(EMPTY, U32(|slots|)), slots);
  }

  /** The sources the serializer appends for an element, one `copy_to_buffer` each. */
  function SlotChunks(s: Slot): seq<Blob> {
    match s
    case NullInterface => []
    case NoArgFlags(id) => [U32(id)]
    case NoRetFlags(id, argFlags) => [U32(id), U32(|argFlags|), argFlags]
    case Whole(e) => [U32(e.id), U32(|e.argFlags|), e.argFlags, U32(|e.retFlags|), e.retFlags]
  }

  function AllSlotChunks(slots: seq<Slot>): seq<Blob> {
    if slots == [] then [] else AllSlotChunks(slots[..|slots| - 1]) + SlotChunks(slots[|slots| - 1])
  }

  lemma PutOne(b: Buf, front: seq<Blob>, x: Blob)
    ensures PutAll(b, front + [x]) == Put(PutAll(b, front), x)
  {
    hide Put;
    assert (front + [x])[..|front|] == front;
  }

  lemma PutNone(b: Buf)
    ensures PutAll(b, []) == b
  {
  }

  lemma PutFive(b: Buf, v: Blob, w: Blob, x: Blob, y: Blob, z: Blob)
    ensures PutAll(b, []) == b && PutAll(b, [v]) == Put(b, v) && PutAll(b, [v, w, x]) == Put(Put(Put(b, v), w), x)
    ensures PutAll(b, [v, w, x, y, z]) == Put(Put(Put(Put(Put(b, v), w), x), y), z)
  {
    hide Put, PutAll;
    PutNone(b);
    PutOne(b, [], v);
    PutOne(b, [v], w);
    PutOne(b, [v, w], x);
    PutOne(b, [v, w, x], y);
    PutOne(b, [v, w, x, y], z);
    assert [] + [v] == [v] && [v] + [w] == [v, w] && [v, w] + [x] == [v, w, x];
    assert [v, w, x] + [y] == [v, w, x, y] && [v, w, x, y] + [z] == [v, w, x, y, z];
  }

  lemma SlotIsPutAll(b: Buf, s: Slot)
    ensures PutSlot(b, s) == PutAll(b, SlotChunks(s))
  {
    hide Put, PutAll, U32;
    match s
    case NullInterface => PutFive(b, [], [], [], [], []);
    case NoArgFlags(id) => PutFive(b, U32(id), [], [], [], []);
    case NoRetFlags(id, argFlags) => PutFive(b, U32(id), U32(|argFlags|), argFlags, [], []);
    case Whole(e) => PutFive(b, U32(e.id), U32(|e.argFlags|), e.argFlags, U32(|e.retFlags|), e.retFlags);
  }

  lemma {:induction false} SlotsArePutAll(b: Buf, slots: seq<Slot>)
    ensures PutEach(PutSlot, b, slots) == PutAll(b, AllSlotChunks(slots))
  {
    hide Put, PutSlot, SlotChunks;
    if slots != [] {
      var init, s := slots[..|slots| - 1], slots[|slots| - 1];
      SlotsArePutAll(b, init);
      SlotIsPutAll(PutEach(PutSlot, b, init), s);
      PutAllConcat(b, AllSlotChunks(init), SlotChunks(s));
    }
  }

  /** Exactly which lists are serialized: each source must end within the capacity at the length
      before it, or within one increment more. */
  lemma ListFitsExactly(slots: seq<Slot>)
    requires |slots| < U32_LIMIT
    ensures var chunks := [U32(|slots|)] + AllSlotChunks(slots);
            ListBuf(slots).Buf? <==> FitInTurn(chunks)
  {
    hide Put, PutAll, U32, FitInTurn, AllSlotChunks;
    var count: Blob := U32(|slots|);
    PutFive(EMPTY, count, [], [], [], []);
    SlotsArePutAll(Put(EMPTY, count), slots);
    PutAllConcat(EMPTY, [count], AllSlotChunks(slots));
    PutAllExactly([count] + AllSlotChunks(slots));
  }

  lemma SmallFlagsFit(b: Buf, flags: Blob)
    requires b.Buf? && Wellformed(b) && |flags| <= BUFFER_INC_SIZE
    requires |b.bytes| + |EncodeBlock(flags)| <= U32_LIMIT - 2 * BUFFER_INC_SIZE
    ensures PutFlags(b, flags).Buf?
  {
    hide U32;
    PutFitsExactly(b, U32(|flags|));
    PutFitsExactly(Put(b, U32(|flags|)), flags);
  }

  lemma SmallEntryFits(b: Buf, e: Entry)
    requires b.Buf? && Wellformed(b) && |e.argFlags| <= BUFFER_INC_SIZE && |e.retFlags| <= BUFFER_INC_SIZE
    requires |b.bytes| + |EncodeEntry(e)| <= U32_LIMIT - 2 * BUFFER_INC_SIZE
    ensures PutSlot(b, Whole(e)).Buf?
  {
    hide Put, PutFlags, U32;
    PutFitsExactly(b, U32(e.id));
    var b1 := Put(b, U32(e.id));
    SmallFlagsFit(b1, e.argFlags);
    PutFlagsAppends(b1, e.argFlags);
    SmallFlagsFit(PutFlags(b1, e.argFlags), e.retFlags);
  }

  lemma {:induction false} SmallEntriesFit(b: Buf, list: seq<Entry>)
    requires b.Buf? && Wellformed(b)
    requires forall e | e in list :: |e.argFlags| <= BUFFER_INC_SIZE && |e.retFlags| <= BUFFER_INC_SIZE
    requires |b.bytes| + |EncodeAll(EncodeEntry, list)| <= U32_LIMIT - 2 * BUFFER_INC_SIZE
    ensures PutEach(PutSlot, b, AllWhole(list)).Buf?
  {
    hide PutSlot, Put, EncodeEntry;
    if list != [] {
      var init, e := list[..|list| - 1], list[|list| - 1];
      assert AllWhole(list)[..|init|] == AllWhole(init);
      SmallEntriesFit(b, init);
      PutSlotAppends();
      PutEachAppends(PutSlot, EncodeSlot, b, AllWhole(init));
      WholeSlotsEncodeAsEntries(init);
      assert e in list;
      SmallEntryFits(PutEach(PutSlot, b, AllWhole(init)), e);
    }
  }

  /** Every list whose flag arrays have at most 65536 elements is serialized, up to the 32-bit limit. */
  lemma SmallListFits(list: seq<Entry>)
    requires |list| < U32_LIMIT
    requires forall e | e in list :: |e.argFlags| <= BUFFER_INC_SIZE && |e.retFlags| <= BUFFER_INC_SIZE
    requires |EncodeList(AllWhole(list))| <= U32_LIMIT - 2 * BUFFER_INC_SIZE
    ensures ListBuf(AllWhole(list)).Buf?
  {
    hide PutSlot, EncodeEntry, U32;
    PutFitsExactly(EMPTY, U32(|list|));
    WholeSlotsEncodeAsEntries(list);
    SmallEntriesFit(Put(EMPTY, U32(|list|)), list);
  }

  method AppendFlags(packet: GrowBuffer, flags: Blob) returns (ok: bool)
    requires packet.Valid()
    modifies packet, packet.data
    ensures ok <==> PutFlags(old(packet.State()), flags).Buf?
    ensures packet.data == old(packet.data) || fresh(packet.data)
    ensures ok ==> packet.Valid() && packet.State() == PutFlags(old(packet.State()), flags)
  {
    ok := packet.Append(U32(|flags|));
    if ok {
      ok := packet.Append(flags);
    }
  }

  method AppendSlot(packet: GrowBuffer, s: Slot) returns (ok: bool)
    requires packet.Valid()
    modifies packet, packet.data
    ensures ok <==> PutSlot(old(packet.State()), s).Buf?
    ensures packet.data == old(packet.data) || fresh(packet.data)
    ensures ok ==> packet.Valid() && packet.State() == PutSlot(old(packet.State()), s)
  {
    if s.NullInterface? {
      return true;
    }
    ok := packet.Append(U32(if s.Whole? then s.entry.id else s.id));
    if !ok || s.NoArgFlags? {
      return;
    }
    ok := AppendFlags(packet, if s.Whole? then s.entry.argFlags else s.argFlags);
    if !ok || s.NoRetFlags? {
      return;
    }
    ok := AppendFlags(packet, s.entry.retFlags);
  }

  method SerializeInterfaces(list: array<Slot>) returns (ok: bool, packet: GrowBuffer)
    requires list.Length < U32_LIMIT
    ensures ok <==> ListBuf(list[..]).Buf?
    ensures fresh(packet) && (ok ==> packet.Valid() && packet.State().bytes == EncodeList(list[..]))
  {
    ghost var slots := list[..];
    ghost var head := Put(EMPTY, U32(|slots|));
    ListBufIsEncode(slots);
    packet := new GrowBuffer();
    PutFitsExactly(EMPTY, U32(|slots|));
    ok := packet.Append(U32(list.Length));
    for i := 0 to list.Length
      invariant packet.Valid() && fresh(packet) && fresh(packet.data)
      invariant packet.State() == PutEach(PutSlot, head, slots[..i])
    {
      hide PutSlot;
      assert slots[..i + 1][..i] == slots[..i];
      ok := AppendSlot(packet, list[i]);
      if !ok {
        PutSlotAppends();
        OverrunPersists(PutSlot, EncodeSlot, head, slots, i + 1);
        return;
      }
    }
    assert slots[..|slots|] == slots;
    ok := true;
  }

  // ---- the deserializer ----

  method ReadEntry(packet: array<byte>, cursor: nat) returns (r: Parsed<Entry>)
    ensures r == DecodeEntry(packet[..], cursor)
  {
    if cursor + 4 > packet.Length {
      return OutOfBounds;
    }
    var id := U32At(packet[..], cursor);
    var argFlags := ReadBlock(packet, cursor + 4);
    if argFlags.OutOfBounds? {
      return OutOfBounds;
    }
    var retFlags := ReadBlock(packet, argFlags.next);
    if retFlags.OutOfBounds? {
      return OutOfBounds;
    }
    return Parsed(Entry(id, argFlags.value, retFlags.value), retFlags.next);
  }

  method UnserializeInterfaces(packet: array<byte>, length: nat) returns (r: ListResult)
    ensures r == DecodeList(packet[..], length)
  {
    hide DecodeAll;
    if length < 4 {
      return InvalidLength;
    }
    if packet.Length < 4 {
      return ReadsPastEnd;
    }
    var count := U32At(packet[..], 0);
    if count > MAX_INTERFACES {
      return InvalidCount;
    }
    ghost var m := packet[..];
    ghost var all := DecodeAll(DecodeEntry, m, 4, count);
    var cursor: nat := 4;
    var list: array<Entry> := new Entry[count](_ => Entry(0, [], []));
    ghost var done: seq<Entry> := [];
    PrependNothing(all);
    for i := 0 to count
      invariant fresh(list) && list[..i] == done
      invariant all == Prepend(done, DecodeAll(DecodeEntry, m, cursor, count - i))
    {
      DecodeStep(DecodeEntry, m, done, cursor, count - i);
      var item := ReadEntry(packet, cursor);
      if item.OutOfBounds? {
        return ReadsPastEnd;
      }
      list[i] := item.value;
      done := done + [item.value];
      cursor := item.next;
    }
    DecodeNone(DecodeEntry, m, cursor);
    assert done + [] == list[..];
    r := Interfaces(list[..]);
  }
}
