/** The interface-description packet
    `id || name || description || argc || (name || description)* || retc || (name || description)*`,
    whose strings end at a NUL. The serializer writes as many return descriptions as there are
    ARGUMENTS; the lemmas say exactly when that is harmless. */
module InfoPacket {
  import opened Bytes
  import opened Buffer
  import opened Codec

  type CStr = s: seq<byte> | 0 !in s

  datatype Attr<T> = Attr(name: T, description: T)
  datatype Info<T> = Info(name: T, description: T, args: seq<Attr<T>>, rets: seq<Attr<T>>)

  /** The kernel's record, any of whose strings may still be NULL. */
  type InfoRecord = i: Info<Option<CStr>> | |i.args| < U32_LIMIT && |i.rets| < U32_LIMIT
    witness Info(None, None, [], [])

  const NO_TEXT: Attr<CStr> := Attr([], [])

  function Filled(a: Attr<CStr>): Attr<Option<CStr>> {
    Attr(Some(a.name), Some(a.description))
  }

  function FilledAll(xs: seq<Attr<CStr>>): (r: seq<Attr<Option<CStr>>>)
    ensures |r| == |xs|
  {
    seq(|xs|, i requires 0 <= i < |xs| => Filled(xs[i]))
  }

  /** A record with every string present. */
  function Complete(i: Info<CStr>): Info<Option<CStr>> {
    Info(Some(i.name), Some(i.description), FilledAll(i.args), FilledAll(i.rets))
  }

  // ---- the format ----

  function EncodeStr(s: CStr): (b: seq<byte>)
    ensures |b| == |s| + 1
  {
    s + [0]
  }

  /** `strlen` and the cursor step over the NUL. */
  function DecodeStr(m: seq<byte>, p: nat): Parsed<CStr>
    decreases |m| - p
  {
    if p >= |m| then OutOfBounds
    else if m[p] == 0 then Parsed([], p + 1)
    else
      match DecodeStr(m, p + 1)
      case OutOfBounds => OutOfBounds
      case Parsed(s, next) => Parsed([m[p]] + s, next)
  }

  function EncodeAttr(a: Attr<CStr>): seq<byte> {
    EncodeStr(a.name) + EncodeStr(a.description)
  }

  function DecodeAttr(m: seq<byte>, p: nat): Parsed<Attr<CStr>> {
    match DecodeStr(m, p)
    case OutOfBounds => OutOfBounds
    case Parsed(name, q) =>
      match DecodeStr(m, q)
      case OutOfBounds => OutOfBounds
      case Parsed(description, next) => Parsed(Attr(name, description), next)
  }

  function DecodeAttrs(m: seq<byte>, p: nat): Parsed<seq<Attr<CStr>>> {
    if p + 4 > |m| then OutOfBounds else DecodeAll(DecodeAttr, m, p + 4, U32At(m, p))
  }

  /** `unserialize_interface_info` of the packet at the start of `m`. */
  function DecodeInfo(m: seq<byte>): Parsed<Info<CStr>> {
    match DecodeAttr(m, 4)
    case OutOfBounds => OutOfBounds
    case Parsed(head, p) =>
      match DecodeAttrs(m, p)
      case OutOfBounds => OutOfBounds
      case Parsed(args, q) =>
        match DecodeAttrs(m, q)
        case OutOfBounds => OutOfBounds
        case Parsed(rets, next) => Parsed(Info(head.name, head.description, args, rets), next)
  }

  /** The packet carrying the first `k` return descriptions. */
  function EncodeInfo(id: u32, i: Info<CStr>, k: nat): seq<byte>
    requires |i.args| < U32_LIMIT && |i.rets| < U32_LIMIT && k <= |i.rets|
  {
    U32(id) + EncodeAttr(Attr(i.name, i.description))
    + (U32(|i.args|) + EncodeAll(EncodeAttr, i.args))
    + (U32(|i.rets|) + EncodeAll(EncodeAttr, i.rets[..k]))
  }

  lemma {:induction false} StrDecodes(m: seq<byte>, p: nat, s: CStr)
    requires Holds(m, p, EncodeStr(s))
    ensures DecodeStr(m, p) == Parsed(s, p + |EncodeStr(s)|)
    decreases |s|
  {
    assert m[p] == EncodeStr(s)[0];
    if s != [] {
      assert [s[0]] + EncodeStr(s[1..]) == EncodeStr(s);
      HoldsConcat(m, p, [s[0]], EncodeStr(s[1..]));
      StrDecodes(m, p + 1, s[1..]);
      assert [s[0]] + s[1..] == s;
    }
  }

  lemma {:induction false} StrEncodes(m: seq<byte>, p: nat)
    requires DecodeStr(m, p).Parsed?
    ensures var r := DecodeStr(m, p); Holds(m, p, EncodeStr(r.value)) && r.next == p + |EncodeStr(r.value)|
    decreases |m| - p
  {
    var r := DecodeStr(m, p);
    if m[p] != 0 {
      StrEncodes(m, p + 1);
      var rest := DecodeStr(m, p + 1).value;
      assert [m[p]] + EncodeStr(rest) == EncodeStr(r.value);
      HoldsConcat(m, p, [m[p]], EncodeStr(rest));
    }
  }

  lemma AttrCodecIsExact()
    ensures Exact(EncodeAttr, DecodeAttr)
  {
    forall m: seq<byte>, p: nat, a: Attr<CStr> | Holds(m, p, EncodeAttr(a))
      ensures DecodeAttr(m, p) == Parsed(a, p + |EncodeAttr(a)|)
    {
      HoldsConcat(m, p, EncodeStr(a.name), EncodeStr(a.description));
      StrDecodes(m, p, a.name);
      StrDecodes(m, p + |EncodeStr(a.name)|, a.description);
    }
    forall m: seq<byte>, p: nat | DecodeAttr(m, p).Parsed?
      ensures var r := DecodeAttr(m, p); Holds(m, p, EncodeAttr(r.value)) && r.next == p + |EncodeAttr(r.value)|
    {
      var a := DecodeAttr(m, p).value;
      StrEncodes(m, p);
      StrEncodes(m, DecodeStr(m, p).next);
      HoldsConcat(m, p, EncodeStr(a.name), EncodeStr(a.description));
    }
  }

  /** Reading a packet as far as its argument descriptions. */
  lemma HeadDecodes(m: seq<byte>, id: u32, i: Info<CStr>, k: nat)
    requires |i.args| < U32_LIMIT && |i.rets| < U32_LIMIT && k <= |i.rets|
    requires Holds(m, 0, EncodeInfo(id, i, k))
    ensures var q := 4 + |EncodeAttr(Attr(i.name, i.description))| + 4 + |EncodeAll(EncodeAttr, i.args)|;
            && q + 4 + |EncodeAll(EncodeAttr, i.rets[..k])| == |EncodeInfo(id, i, k)|
            && U32At(m, q) == |i.rets|
            && Holds(m, q + 4, EncodeAll(EncodeAttr, i.rets[..k]))
            && DecodeInfo(m) == (match DecodeAttrs(m, q)
                                 case OutOfBounds => OutOfBounds
                                 case Parsed(rets, next) => Parsed(Info(i.name, i.description, i.args, rets), next))
  {
    hide DecodeAll, EncodeAll, DecodeStr, U32, U32At, EncodeAttr, DecodeAttr;
    var head, args := EncodeAttr(Attr(i.name, i.description)), EncodeAll(EncodeAttr, i.args);
    var rets := EncodeAll(EncodeAttr, i.rets[..k]);
    HoldsConcat(m, 0, U32(id) + head + (U32(|i.args|) + args), U32(|i.rets|) + rets);
    HoldsConcat(m, 0, U32(id) + head, U32(|i.args|) + args);
    HoldsConcat(m, 0, U32(id), head);
    HoldsConcat(m, 4 + |head|, U32(|i.args|), args);
    var q := 4 + |head| + 4 + |args|;
    HoldsConcat(m, q, U32(|i.rets|), rets);
    U32AtExact(m, 4 + |head|, |i.args|);
    U32AtExact(m, q, |i.rets|);
    AttrCodecIsExact();
    DecodeAllOfEncodeAll(EncodeAttr, DecodeAttr, m, 4 + |head| + 4, i.args);
  }

  function TextBytes(xs: seq<Attr<CStr>>): nat {
    if xs == [] then 0
    else
      var last := xs[|xs| - 1];
      TextBytes(xs[..|xs| - 1]) + |last.name| + |last.description| + 2
  }

  lemma {:induction false} AttrsLength(xs: seq<Attr<CStr>>)
    ensures |EncodeAll(EncodeAttr, xs)| == TextBytes(xs)
  {
    if xs != [] { AttrsLength(xs[..|xs| - 1]); }
  }

  /** A name and a description stand here, each with its NUL. */
  ghost predicate AttrAt(m: seq<byte>, p: nat, a: Attr<CStr>) {
    Holds(m, p, a.name + [0]) && Holds(m, p + |a.name| + 1, a.description + [0])
  }

  lemma AttrsAt(m: seq<byte>, p: nat, xs: seq<Attr<CStr>>)
    requires Holds(m, p, EncodeAll(EncodeAttr, xs))
    ensures forall j | 0 <= j < |xs| :: AttrAt(m, p + TextBytes(xs[..j]), xs[j])
  {
    hide EncodeAll, TextBytes, AttrAt;
    forall j | 0 <= j < |xs| ensures AttrAt(m, p + TextBytes(xs[..j]), xs[j]) {
      EncodeAllAt(EncodeAttr, xs, j);
      AttrsLength(xs[..j]);
      HoldsWithin(m, p, EncodeAll(EncodeAttr, xs), |EncodeAll(EncodeAttr, xs[..j])|, EncodeAttr(xs[j]));
      AttrHolds(m, p + TextBytes(xs[..j]), xs[j]);
    }
  }

  lemma AttrHolds(m: seq<byte>, p: nat, a: Attr<CStr>)
    ensures Holds(m, p, EncodeAttr(a)) <==> AttrAt(m, p, a)
  {
    HoldsConcat(m, p, EncodeStr(a.name), EncodeStr(a.description));
  }

  /** The layout, byte for byte: the id, the interface's name and description, the number of its
      arguments and each one's, the number of its return values and each written one's. */
  lemma InfoLayout(id: u32, i: Info<CStr>, k: nat)
    requires |i.args| < U32_LIMIT && |i.rets| < U32_LIMIT && k <= |i.rets|
    ensures var m := EncodeInfo(id, i, k);
            var p := 6 + |i.name| + |i.description|;
            var q := p + 4 + TextBytes(i.args);
            && Holds(m, 0, U32(id)) && AttrAt(m, 4, Attr(i.name, i.description))
            && Holds(m, p, U32(|i.args|)) && Holds(m, q, U32(|i.rets|))
            && (forall j | 0 <= j < |i.args| :: AttrAt(m, p + 4 + TextBytes(i.args[..j]), i.args[j]))
            && (forall j | 0 <= j < k :: AttrAt(m, q + 4 + TextBytes(i.rets[..j]), i.rets[j]))
  {
    hide EncodeAll, U32, AttrAt, TextBytes, EncodeStr;
    var head, args := EncodeAttr(Attr(i.name, i.description)), EncodeAll(EncodeAttr, i.args);
    var rets := EncodeAll(EncodeAttr, i.rets[..k]);
    var m, p := EncodeInfo(id, i, k), 6 + |i.name| + |i.description|;
    var q := p + 4 + TextBytes(i.args);
    assert m[0..0 + |m|] == m;
    AttrsLength(i.args);
    HoldsConcat(m, 0, U32(id) + head + (U32(|i.args|) + args), U32(|i.rets|) + rets);
    HoldsConcat(m, 0, U32(id) + head, U32(|i.args|) + args);
    HoldsConcat(m, 0, U32(id), head);
    HoldsConcat(m, p, U32(|i.args|), args);
    HoldsConcat(m, q, U32(|i.rets|), rets);
    AttrHolds(m, 4, Attr(i.name, i.description));
    AttrsAt(m, p + 4, i.args);
    AttrsAt(m, q + 4, i.rets[..k]);
    forall j | 0 <= j < k ensures AttrAt(m, q + 4 + TextBytes(i.rets[..j]), i.rets[j]) {
      assert i.rets[..k][..j] == i.rets[..j];
    }
  }

  /** With as many return descriptions written as there are, the packet reads back in full from
      any buffer it starts, and the cursor stops at its end. */
  lemma FullInfoRoundTrip(m: seq<byte>, id: u32, i: Info<CStr>)
    requires |i.args| < U32_LIMIT && |i.rets| < U32_LIMIT
    requires Holds(m, 0, EncodeInfo(id, i, |i.rets|))
    ensures DecodeInfo(m) == Parsed(i, |EncodeInfo(id, i, |i.rets|)|)
  {
    hide DecodeAll, EncodeAll;
    HeadDecodes(m, id, i, |i.rets|);
    AttrCodecIsExact();
    assert i.rets[..|i.rets|] == i.rets;
    DecodeAllOfEncodeAll(EncodeAttr, DecodeAttr, m,
      4 + |EncodeAttr(Attr(i.name, i.description))| + 4 + |EncodeAll(EncodeAttr, i.args)| + 4, i.rets);
  }

  lemma {:induction false} NoTextIsZeros(n: nat)
    ensures EncodeAll(EncodeAttr, seq(n, _ => NO_TEXT)) == Zeros(2 * n)
  {
    if n > 0 {
      NoTextIsZeros(n - 1);
      assert seq(n, _ => NO_TEXT)[..n - 1] == seq(n - 1, _ => NO_TEXT);
    }
  }

  /** Return descriptions that were not written read back as empty strings from the zero-filled
      receive buffer, and cannot be read at all from the packet's own bytes. */
  lemma ShortInfoDecodes(id: u32, i: Info<CStr>, k: nat, room: nat)
    requires |i.args| < U32_LIMIT && |i.rets| < U32_LIMIT && k <= |i.rets|
    ensures var lost := |i.rets| - k;
            var packet := EncodeInfo(id, i, k);
            && (lost > 0 ==> DecodeInfo(packet).OutOfBounds?)
            && (2 * lost <= room ==>
                  DecodeInfo(packet + Zeros(room))
                  == Parsed(i.(rets := i.rets[..k] + seq(lost, _ => NO_TEXT)), |packet| + 2 * lost))
  {
    hide DecodeAll, EncodeAll, DecodeInfo;
    var lost := |i.rets| - k;
    var packet := EncodeInfo(id, i, k);
    AttrCodecIsExact();
    if lost > 0 {
      assert packet[0..0 + |packet|] == packet;
      HeadDecodes(packet, id, i, k);
      var start := |packet| - |EncodeAll(EncodeAttr, i.rets[..k])|;
      DecodeAllRunsOut(EncodeAttr, DecodeAttr, packet, start, i.rets[..k], |i.rets|);
    }
    if 2 * lost <= room {
      var padded := i.(rets := i.rets[..k] + seq(lost, _ => NO_TEXT));
      EncodeAllConcat(EncodeAttr, i.rets[..k], seq(lost, _ => NO_TEXT));
      NoTextIsZeros(lost);
      assert padded.rets[..|padded.rets|] == padded.rets;
      assert EncodeInfo(id, padded, |padded.rets|) == packet + Zeros(2 * lost);
      assert (packet + Zeros(room))[0..0 + |packet| + 2 * lost] == packet + Zeros(2 * lost);
      FullInfoRoundTrip(packet + Zeros(room), id, padded);
    }
  }

  // ---- the serializer ----

  /** What the serializer appends, in order. `PastEnd` is the read of `ret_info[i]` for an `i`
      the array does not have. */
  datatype Item = Number(n: u32) | Text(s: Option<CStr>) | PastEnd

  datatype Outcome = Failed | Undefined | Written(buf: Buf)

  function Settle(b: Buf): Outcome {
    if b.Overrun? then Undefined else Written(b)
  }

  function PutItem(o: Outcome, item: Item): Outcome {
    match o
    case Written(b) =>
      (match item
       case Number(n) => Settle(Put(b, U32(n)))
       case Text(None) => Failed
       case Text(Some(s)) => if |s| + 1 < U32_LIMIT then Settle(Put(b, EncodeStr(s))) else Undefined
       case PastEnd => Undefined)
    case _ => o
  }

  function PutItems(o: Outcome, items: seq<Item>): Outcome {
    if items == [] then o else PutItem(PutItems(o, items[..|items| - 1]), items[|items| - 1])
  }

  function AttrItems(xs: seq<Attr<Option<CStr>>>): seq<Item> {
    if xs == [] then []
    else AttrItems(xs[..|xs| - 1]) + [Text(xs[|xs| - 1].name), Text(xs[|xs| - 1].description)]
  }

  /** `serialize_interface_info` as written: the second loop is bounded by `argc`. */
  function Items(id: u32, i: InfoRecord): seq<Item> {
    [Number(id), Text(i.name), Text(i.description), Number(|i.args|)] + AttrItems(i.args)
    + [Number(|i.rets|)] + AttrItems(i.rets[..RetsReached(i)]) + (if |i.args| > |i.rets| then [PastEnd] else [])
  }

  /** How many return descriptions the second loop reaches. */
  function RetsReached(i: InfoRecord): (k: nat)
    ensures k <= |i.rets|
  {
    if |i.args| <= |i.rets| then |i.args| else |i.rets|
  }

  function SerializedInfo(id: u32, i: InfoRecord): Outcome {
    PutItems(Written(EMPTY), Items(id, i))
  }

  function ItemBytes(item: Item): seq<byte> {
    match item
    case Number(n) => U32(n)
    case Text(Some(s)) => EncodeStr(s)
    case _ => []
  }

  lemma {:induction false} PutItemsConcat(o: Outcome, xs: seq<Item>, ys: seq<Item>)
    ensures PutItems(o, xs + ys) == PutItems(PutItems(o, xs), ys)
  {
    hide PutItem;
    if ys == [] {
      assert xs + ys == xs;
    } else {
      var n := |ys| - 1;
      PutItemsConcat(o, xs, ys[..n]);
      assert (xs + ys)[..|xs| + n] == xs + ys[..n];
    }
  }

  lemma {:induction false} StoppedStays(o: Outcome, items: seq<Item>)
    requires !o.Written?
    ensures PutItems(o, items) == o
  {
    if items != [] { StoppedStays(o, items[..|items| - 1]); }
  }

  /** A serializer that neither failed nor strayed wrote the concatenation of its items, none of
      which was missing. */
  lemma {:induction false} WrittenIsConcatenation(items: seq<Item>)
    requires PutItems(Written(EMPTY), items).Written?
    ensures var b := PutItems(Written(EMPTY), items).buf;
            b.Buf? && Wellformed(b) && b.bytes == EncodeAll(ItemBytes, items)
    ensures PastEnd !in items && Text(None) !in items
  {
    if items != [] {
      var init, last := items[..|items| - 1], items[|items| - 1];
      if !PutItems(Written(EMPTY), init).Written? { StoppedStays(PutItems(Written(EMPTY), init), [last]); }
      WrittenIsConcatenation(init);
      var b := PutItems(Written(EMPTY), init).buf;
      PutFitsExactly(b, ItemBytes(last));
      assert items == init + [last];
    }
  }

  lemma {:induction false} AttrItemsEncode(xs: seq<Attr<CStr>>)
    ensures EncodeAll(ItemBytes, AttrItems(FilledAll(xs))) == EncodeAll(EncodeAttr, xs)
  {
    hide EncodeStr;
    if xs != [] {
      var n := |xs| - 1;
      AttrItemsEncode(xs[..n]);
      assert FilledAll(xs)[..n] == FilledAll(xs[..n]);
      AttrItemsEncodeLast(AttrItems(FilledAll(xs[..n])), xs[n]);
      assert AttrItems(FilledAll(xs)) == AttrItems(FilledAll(xs[..n]))
          + [Text(Some(xs[n].name)), Text(Some(xs[n].description))];
    }
  }

  lemma AttrItemsEncodeLast(front: seq<Item>, a: Attr<CStr>)
    ensures EncodeAll(ItemBytes, front + [Text(Some(a.name)), Text(Some(a.description))])
         == EncodeAll(ItemBytes, front) + EncodeAttr(a)
  {
    hide EncodeStr, EncodeAll;
    EncodeAllLast(ItemBytes, front, Text(Some(a.name)));
    EncodeAllLast(ItemBytes, front + [Text(Some(a.name))], Text(Some(a.description)));
    assert front + [Text(Some(a.name))] + [Text(Some(a.description))]
        == front + [Text(Some(a.name)), Text(Some(a.description))];
    assert EncodeAll(ItemBytes, front) + EncodeStr(a.name) + EncodeStr(a.description)
        == EncodeAll(ItemBytes, front) + EncodeAttr(a);
  }

  lemma {:induction false} AttrItemsAt(xs: seq<Attr<Option<CStr>>>)
    ensures |AttrItems(xs)| == 2 * |xs|
    ensures forall j {:trigger xs[j]} | 0 <= j < |xs| ::
              AttrItems(xs)[2 * j] == Text(xs[j].name) && AttrItems(xs)[2 * j + 1] == Text(xs[j].description)
  {
    if xs != [] {
      var init := xs[..|xs| - 1];
      AttrItemsAt(init);
      forall j {:trigger xs[j]} | 0 <= j < |xs|
        ensures AttrItems(xs)[2 * j] == Text(xs[j].name) && AttrItems(xs)[2 * j + 1] == Text(xs[j].description)
      {
        if j < |init| { assert init[j] == xs[j]; }
      }
    }
  }

  lemma {:induction false} FilledHasNoNull(xs: seq<Attr<CStr>>)
    ensures Text(None) !in AttrItems(FilledAll(xs)) && PastEnd !in AttrItems(FilledAll(xs))
  {
    if xs != [] {
      FilledHasNoNull(xs[..|xs| - 1]);
      assert FilledAll(xs)[..|xs| - 1] == FilledAll(xs[..|xs| - 1]);
    }
  }

  lemma {:induction false} NoNullNoFailure(items: seq<Item>)
    requires Text(None) !in items
    ensures !PutItems(Written(EMPTY), items).Failed?
  {
    if items != [] {
      NoNullNoFailure(items[..|items| - 1]);
      assert items[|items| - 1] in items;
    }
  }

  lemma HeadEncodes(id: u32, name: CStr, description: CStr, argc: u32)
    ensures EncodeAll(ItemBytes, [Number(id), Text(Some(name)), Text(Some(description)), Number(argc)])
         == U32(id) + EncodeAttr(Attr(name, description)) + U32(argc)
  {
    hide U32, EncodeStr;
    var none: seq<Item> := [];
    EncodeAllLast(ItemBytes, none, Number(id));
    EncodeAllLast(ItemBytes, none + [Number(id)], Text(Some(name)));
    EncodeAllLast(ItemBytes, none + [Number(id)] + [Text(Some(name))], Text(Some(description)));
    EncodeAllLast(ItemBytes, none + [Number(id)] + [Text(Some(name))] + [Text(Some(description))], Number(argc));
    assert none + [Number(id)] + [Text(Some(name))] + [Text(Some(description))] + [Number(argc)]
        == [Number(id), Text(Some(name)), Text(Some(description)), Number(argc)];
  }

  lemma ItemsEncode(id: u32, i: Info<CStr>)
    requires |i.args| <= |i.rets| < U32_LIMIT
    ensures EncodeAll(ItemBytes, Items(id, Complete(i))) == EncodeInfo(id, i, |i.args|)
  {
    hide EncodeStr, U32, EncodeAll, AttrItems, EncodeAttr;
    var k, none: seq<Item> := |i.args|, [];
    assert FilledAll(i.rets)[..k] == FilledAll(i.rets[..k]);
    AttrItemsEncode(i.args);
    AttrItemsEncode(i.rets[..k]);
    var args, rets := AttrItems(FilledAll(i.args)), AttrItems(FilledAll(i.rets[..k]));
    var head := [Number(id), Text(Some(i.name)), Text(Some(i.description)), Number(k)];
    HeadEncodes(id, i.name, i.description, k);
    EncodeAllConcat(ItemBytes, head, args);
    EncodeAllLast(ItemBytes, head + args, Number(|i.rets|));
    EncodeAllConcat(ItemBytes, head + args + [Number(|i.rets|)], rets);
    assert Items(id, Complete(i)) == head + args + [Number(|i.rets|)] + rets;
    assert EncodeInfo(id, i, k)
        == U32(id) + EncodeAttr(Attr(i.name, i.description)) + U32(k) + EncodeAll(EncodeAttr, i.args)
           + U32(|i.rets|) + EncodeAll(EncodeAttr, i.rets[..k]);
  }

  /** A complete record is serialized, if at all, into the packet with `argc` return descriptions. */
  lemma CompleteInfoPacket(id: u32, i: Info<CStr>)
    requires |i.args| < U32_LIMIT && |i.rets| < U32_LIMIT
    requires SerializedInfo(id, Complete(i)).Written?
    ensures |i.args| <= |i.rets|
    ensures var b := SerializedInfo(id, Complete(i)).buf;
            b.Buf? && b.bytes == EncodeInfo(id, i, |i.args|)
  {
    hide PutItems, AttrItems;
    var items := Items(id, Complete(i));
    WrittenIsConcatenation(items);
    if |i.args| <= |i.rets| {
      ItemsEncode(id, i);
    }
  }

  /** With fewer returns than arguments the second loop always leaves `ret_info`. */
  lemma MoreArgsThanRetsIsUndefined(id: u32, i: Info<CStr>)
    requires |i.args| < U32_LIMIT && |i.rets| < |i.args|
    ensures SerializedInfo(id, Complete(i)).Undefined?
  {
    var rec: InfoRecord := Complete(i);
    if SerializedInfo(id, rec).Written? { CompleteInfoPacket(id, i); }
    assert FilledAll(i.rets)[..|i.rets|] == FilledAll(i.rets);
    FilledHasNoNull(i.args);
    FilledHasNoNull(i.rets);
    NoNullNoFailure(Items(id, rec));
  }

  /** An item that is there and ends within the capacity at a length, or within one increment more. */
  predicate ItemFits(length: nat, item: Item) {
    item != PastEnd && item != Text(None) && |ItemBytes(item)| < U32_LIMIT && Fits(length, |ItemBytes(item)|)
  }

  lemma PutItemExactly(b: Buf, item: Item)
    requires b.Buf? && Wellformed(b)
    ensures PutItem(Written(b), item).Written? <==> ItemFits(|b.bytes|, item)
  {
    hide Put, Fits, Wellformed, EncodeStr, U32;
    if |ItemBytes(item)| < U32_LIMIT { FitsExactly(b, ItemBytes(item)); }
  }

  /** Each item in turn fits at the length the ones before it reach. */
  predicate ItemsFitInTurn(items: seq<Item>) {
    items == [] ||
    var init := items[..|items| - 1];
    ItemsFitInTurn(init) && ItemFits(|EncodeAll(ItemBytes, init)|, items[|items| - 1])
  }

  /** Exactly which descriptions are serialized: those of which every item is there and fits. */
  lemma {:induction false} ItemsWrittenExactly(items: seq<Item>)
    ensures PutItems(Written(EMPTY), items).Written? <==> ItemsFitInTurn(items)
  {
    hide ItemFits, PutItem, ItemBytes, Wellformed;
    if items != [] {
      var init, last := items[..|items| - 1], items[|items| - 1];
      ItemsWrittenExactly(init);
      var o := PutItems(Written(EMPTY), init);
      if o.Written? {
        WrittenIsConcatenation(init);
        PutItemExactly(o.buf, last);
      } else {
        StoppedItem(o, last);
      }
    }
  }

  /** Exactly when the serializer returns its error: it comes to a NULL string before anything else
      stops it. */
  lemma {:induction false} FailsExactly(items: seq<Item>)
    ensures PutItems(Written(EMPTY), items).Failed? <==>
            exists k :: 0 <= k < |items| && items[k] == Text(None) && ItemsFitInTurn(items[..k])
  {
    hide ItemsFitInTurn;
    if items != [] {
      var n := |items| - 1;
      var init, last := items[..n], items[n];
      FailsExactly(init);
      ItemsWrittenExactly(init);
      assert forall k | 0 <= k < n :: init[..k] == items[..k];
      var o := PutItems(Written(EMPTY), init);
      FailsAt(o, last);
      if o.Written? {
        WrittenIsConcatenation(init);
        assert forall k | 0 <= k < n :: items[k] == init[k];
      } else if k :| 0 <= k < |items| && items[k] == Text(None) && ItemsFitInTurn(items[..k]) {
        assert k < n && init[k] == items[k];
      }
    }
  }

  lemma FailsAt(o: Outcome, item: Item)
    ensures PutItem(o, item).Failed? <==> o.Failed? || (o.Written? && item == Text(None))
  {
    hide Put, EncodeStr, U32;
  }

  lemma StoppedItem(o: Outcome, item: Item)
    requires !o.Written?
    ensures PutItem(o, item) == o
  {
  }

  lemma {:induction false} SmallItemsFit(items: seq<Item>)
    requires PastEnd !in items && Text(None) !in items
    requires forall item | item in items :: |ItemBytes(item)| <= BUFFER_INC_SIZE
    requires |EncodeAll(ItemBytes, items)| <= U32_LIMIT - 2 * BUFFER_INC_SIZE
    ensures PutItems(Written(EMPTY), items).Written?
  {
    if items != [] {
      var init, last := items[..|items| - 1], items[|items| - 1];
      assert items == init + [last];
      SmallItemsFit(init);
      WrittenIsConcatenation(init);
      PutFitsExactly(PutItems(Written(EMPTY), init).buf, ItemBytes(last));
    }
  }

  /** Every complete record with at most as many arguments as returns, no string of 65536 bytes
      and a packet within the 32-bit limit is serialized. */
  lemma SmallInfoIsWritten(id: u32, i: Info<CStr>)
    requires |i.args| <= |i.rets| < U32_LIMIT && |EncodeInfo(id, i, |i.args|)| <= U32_LIMIT - 2 * BUFFER_INC_SIZE
    requires forall item | item in Items(id, Complete(i)) :: |ItemBytes(item)| <= BUFFER_INC_SIZE
    ensures SerializedInfo(id, Complete(i)).Written?
  {
    hide EncodeInfo, AttrItems, ItemBytes, EncodeAll, PutItems;
    ItemsEncode(id, i);
    FilledHasNoNull(i.args);
    FilledHasNoNull(i.rets[..|i.args|]);
    assert FilledAll(i.rets)[..|i.args|] == FilledAll(i.rets[..|i.args|]);
    SmallItemsFit(Items(id, Complete(i)));
  }

  /** When the info packet of a complete record gives that record back: read strictly within its
      own bytes, exactly for as many returns as arguments; read from a zero-filled buffer with
      room to spare, exactly when every description it dropped was empty. */
  lemma InfoRoundTripExactly(id: u32, i: Info<CStr>, room: nat)
    requires |i.args| < U32_LIMIT && |i.rets| < U32_LIMIT
    requires SerializedInfo(id, Complete(i)).Written?
    requires 2 * |i.rets| <= room
    ensures var packet := SerializedInfo(id, Complete(i)).buf.bytes;
            && |i.args| <= |i.rets|
            && (DecodeInfo(packet) == Parsed(i, |packet|) <==> |i.args| == |i.rets|)
            && DecodeInfo(packet + Zeros(room)).Parsed?
            && (DecodeInfo(packet + Zeros(room)).value == i <==>
                  forall r | r in i.rets[|i.args|..] :: r == NO_TEXT)
  {
    hide DecodeInfo, SerializedInfo, EncodeInfo;
    CompleteInfoPacket(id, i);
    var packet, k := EncodeInfo(id, i, |i.args|), |i.args|;
    ShortInfoDecodes(id, i, k, room);
    if k == |i.rets| {
      assert packet[0..0 + |packet|] == packet;
      FullInfoRoundTrip(packet, id, i);
    }
    var lost := seq(|i.rets| - k, _ => NO_TEXT);
    assert i.rets == i.rets[..k] + i.rets[k..];
    if i.rets[..k] + lost == i.rets {
      assert (i.rets[..k] + lost)[k..] == lost;
    }
    if forall r | r in i.rets[k..] :: r == NO_TEXT {
      assert forall j | 0 <= j < |lost| :: i.rets[k..][j] in i.rets[k..];
      assert i.rets[k..] == lost;
    }
  }

  datatype Status = Done | Failure | Stray

  function Tag(o: Outcome): Status {
    match o
    case Failed => Failure
    case Undefined => Stray
    case Written(_) => Done
  }

  /** The item list, by position. */
  lemma ItemsAt(id: u32, i: InfoRecord)
    ensures var items, n, k := Items(id, i), |i.args|, RetsReached(i);
            && |items| == 5 + 2 * n + 2 * k + (if n > |i.rets| then 1 else 0)
            && items[0] == Number(id) && items[1] == Text(i.name) && items[2] == Text(i.description)
            && items[3] == Number(n)
            && (forall j {:trigger i.args[j]} | 0 <= j < n ::
                  items[4 + 2 * j] == Text(i.args[j].name) && items[5 + 2 * j] == Text(i.args[j].description))
            && items[4 + 2 * n] == Number(|i.rets|)
            && (forall j {:trigger i.rets[j]} | 0 <= j < k ::
                  items[5 + 2 * n + 2 * j] == Text(i.rets[j].name) && items[6 + 2 * n + 2 * j]
                      == Text(i.rets[j].description))
            && (n > |i.rets| ==> items[5 + 2 * n + 2 * k] == PastEnd)
  {
    hide AttrItems;
    var k := RetsReached(i);
    AttrItemsAt(i.args);
    AttrItemsAt(i.rets[..k]);
    var head := [Number(id), Text(i.name), Text(i.description), Number(|i.args|)];
    var args, rets := AttrItems(i.args), AttrItems(i.rets[..k]);
    var tail := if |i.args| > |i.rets| then [PastEnd] else [];
    assert Items(id, i) == head + args + [Number(|i.rets|)] + rets + tail;
    forall j {:trigger i.rets[j]} | 0 <= j < k
      ensures rets[2 * j] == Text(i.rets[j].name) && rets[2 * j + 1] == Text(i.rets[j].description)
    {
      assert i.rets[..k][j] == i.rets[j];
    }
  }

  /** Appending item `k` of a packet whose first `k` items are written. */
  method AppendItem(packet: GrowBuffer, ghost items: seq<Item>, ghost k: nat, item: Item) returns (st: Status)
    requires packet.Valid() && k < |items| && items[k] == item
    requires PutItems(Written(EMPTY), items[..k]) == Written(packet.State())
    modifies packet, packet.data
    ensures packet.data == old(packet.data) || fresh(packet.data)
    ensures st.Done? ==> packet.Valid() && PutItems(Written(EMPTY), items[..k + 1]) == Written(packet.State())
    ensures !st.Done? ==> st == Tag(PutItems(Written(EMPTY), items))
    ensures item.PastEnd? ==> !st.Done?
  {
    hide Put, EncodeStr, U32, Wellformed;
    ghost var o := PutItems(Written(EMPTY), items[..k + 1]);
    assert items[..k + 1][..k] == items[..k];
    if item.PastEnd? || item == Text(None) || (item.Text? && |item.s.value| + 1 >= U32_LIMIT) {
      st := if item == Text(None) then Failure else Stray;
    } else {
      var ok := packet.Append(if item.Number? then U32(item.n) else EncodeStr(item.s.value));
      st := if ok then Done else Stray;
    }
    if !st.Done? {
      assert items == items[..k + 1] + items[k + 1..];
      PutItemsConcat(Written(EMPTY), items[..k + 1], items[k + 1..]);
      StoppedStays(o, items[k + 1..]);
    }
  }

  /** The serializer's two loops: `n` descriptions of `xs`, which may have fewer. */
  method AppendAttrs(packet: GrowBuffer, ghost items: seq<Item>, ghost base: nat, xs: seq<Attr<Option<CStr>>>, n: nat)
    returns (st: Status)
    requires packet.Valid()
    requires base + 2 * (if n <= |xs| then n else |xs|) + (if n > |xs| then 1 else 0) <= |items|
    requires forall j {:trigger xs[j]} | 0 <= j < n && j < |xs| ::
               items[base + 2 * j] == Text(xs[j].name) && items[base + 2 * j + 1] == Text(xs[j].description)
    requires n > |xs| ==> items[base + 2 * |xs|] == PastEnd
    requires PutItems(Written(EMPTY), items[..base]) == Written(packet.State())
    modifies packet, packet.data
    ensures packet.data == old(packet.data) || fresh(packet.data)
    ensures st.Done? ==> && packet.Valid() && base + 2 * n <= |items|
                         && PutItems(Written(EMPTY), items[..base + 2 * n]) == Written(packet.State())
    ensures !st.Done? ==> st == Tag(PutItems(Written(EMPTY), items))
  {
    hide PutItems;
    for j := 0 to n
      invariant packet.Valid() && (packet.data == old(packet.data) || fresh(packet.data)) && j <= |xs|
      invariant PutItems(Written(EMPTY), items[..base + 2 * j]) == Written(packet.State())
    {
      if j == |xs| {
        st := AppendItem(packet, items, base + 2 * j, PastEnd);
        return;
      }
      st := AppendItem(packet, items, base + 2 * j, Text(xs[j].name));
      if !st.Done? { return; }
      st := AppendItem(packet, items, base + 2 * j + 1, Text(xs[j].description));
      if !st.Done? { return; }
    }
    st := Done;
  }

  method SerializeInfo(id: u32, i: InfoRecord) returns (st: Status, packet: GrowBuffer)
    ensures fresh(packet) && st == Tag(SerializedInfo(id, i))
    ensures st.Done? ==> packet.Valid() && SerializedInfo(id, i) == Written(packet.State())
  {
    hide PutItems, Items, AttrItems;
    ghost var items := Items(id, i);
    ItemsAt(id, i);
    packet := new GrowBuffer();
    st := AppendHead(packet, items, id, i);
    if !st.Done? { return; }
    var argc, retc := |i.args|, |i.rets|;
    st := AppendAttrs(packet, items, 4, i.args, argc);
    if !st.Done? { return; }
    st := AppendItem(packet, items, 4 + 2 * argc, Number(retc));
    if !st.Done? { return; }
    st := AppendAttrs(packet, items, 5 + 2 * argc, i.rets, argc);
    if !st.Done? { return; }
    assert items[..|items|] == items;
  }

  method AppendHead(packet: GrowBuffer, ghost items: seq<Item>, id: u32, i: InfoRecord) returns (st: Status)
    requires packet.Valid() && packet.State() == EMPTY && items == Items(id, i)
    modifies packet, packet.data
    ensures packet.data == old(packet.data) || fresh(packet.data)
    ensures st.Done? ==> packet.Valid() && PutItems(Written(EMPTY), items[..4]) == Written(packet.State())
    ensures !st.Done? ==> st == Tag(SerializedInfo(id, i))
  {
    hide Items, AttrItems;
    ItemsAt(id, i);
    st := AppendItem(packet, items, 0, Number(id));
    if !st.Done? { return; }
    st := AppendItem(packet, items, 1, Text(i.name));
    if !st.Done? { return; }
    st := AppendItem(packet, items, 2, Text(i.description));
    if !st.Done? { return; }
    st := AppendItem(packet, items, 3, Number(|i.args|));
  }

  // ---- the deserializer ----

  /** `dup_str` and the cursor step. */
  method ReadStr(packet: array<byte>, cursor: nat) returns (r: Parsed<CStr>)
    ensures r == DecodeStr(packet[..], cursor)
  {
    hide DecodeStr;
    var end: nat := cursor;
    while end < packet.Length && packet[end] != 0
      invariant cursor <= end && (end <= packet.Length || end == cursor)
      invariant forall j | cursor <= j < end :: packet[j] != 0
      decreases packet.Length - end
    {
      end := end + 1;
    }
    StrEndsAt(packet[..], cursor, end);
    if end >= packet.Length {
      return OutOfBounds;
    }
    return Parsed(packet[cursor..end], end + 1);
  }

  /** A string is what stands before the first NUL. */
  lemma {:induction false} StrEndsAt(m: seq<byte>, p: nat, end: nat)
    requires p <= end && (end <= |m| || end == p)
    requires forall j | p <= j < end :: m[j] != 0
    requires end < |m| ==> m[end] == 0
    ensures DecodeStr(m, p) == if end < |m| then Parsed(m[p..end], end + 1) else OutOfBounds
    decreases end - p
  {
    if p < end {
      StrEndsAt(m, p + 1, end);
      assert m[p..end] == [m[p]] + m[p + 1..end];
    } else if end < |m| {
      assert m[p..end] == [];
    }
  }

  method ReadAttr(packet: array<byte>, cursor: nat) returns (r: Parsed<Attr<CStr>>)
    ensures r == DecodeAttr(packet[..], cursor)
  {
    var name := ReadStr(packet, cursor);
    if name.OutOfBounds? {
      return OutOfBounds;
    }
    var description := ReadStr(packet, name.next);
    if description.OutOfBounds? {
      return OutOfBounds;
    }
    return Parsed(Attr(name.value, description.value), description.next);
  }

  /** A count and that many descriptions, filled into a fresh array. */
  method ReadAttrs(packet: array<byte>, start: nat) returns (r: Parsed<seq<Attr<CStr>>>)
    ensures r == DecodeAttrs(packet[..], start)
  {
    hide DecodeAll;
    if start + 4 > packet.Length {
      return OutOfBounds;
    }
    ghost var m := packet[..];
    var count := U32At(packet[..], start);
    ghost var all := DecodeAll(DecodeAttr, m, start + 4, count);
    var cursor: nat := start + 4;
    var infos: array<Attr<CStr>> := new Attr<CStr>[count](_ => NO_TEXT);
    ghost var done: seq<Attr<CStr>> := [];
    PrependNothing(all);
    for i := 0 to count
      invariant fresh(infos) && infos[..i] == done
      invariant all == Prepend(done, DecodeAll(DecodeAttr, m, cursor, count - i))
    {
      DecodeStep(DecodeAttr, m, done, cursor, count - i);
      var item := ReadAttr(packet, cursor);
      if item.OutOfBounds? {
        return OutOfBounds;
      }
      infos[i] := item.value;
      done := done + [item.value];
      cursor := item.next;
    }
    DecodeNone(DecodeAttr, m, cursor);
    assert done + [] == infos[..];
    r := Parsed(infos[..], cursor);
  }

  method UnserializeInfo(packet: array<byte>) returns (r: Parsed<Info<CStr>>)
    ensures r == DecodeInfo(packet[..])
  {
    var head := ReadAttr(packet, 4);
    if head.OutOfBounds? {
      return OutOfBounds;
    }
    var args := ReadAttrs(packet, head.next);
    if args.OutOfBounds? {
      return OutOfBounds;
    }
    var rets := ReadAttrs(packet, args.next);
    if rets.OutOfBounds? {
      return OutOfBounds;
    }
    return Parsed(Info(head.value.name, head.value.description, args.value, rets.value), rets.next);
  }
}
