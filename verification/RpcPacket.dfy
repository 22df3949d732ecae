/** The RPC packet `id || argc || (len || bytes)*`: requests and replies of every call. */
module RpcPacket {
  import opened Bytes
  import opened Buffer
  import opened Codec

  datatype Rpc = Rpc(id: u32, values: seq<Blob>)

  // ---- the format ----

  function EncodeRpc(id: u32, values: seq<Blob>): seq<byte>
    requires |values| < U32_LIMIT
  {
    U32(id) + U32(|values|) + EncodeAll(EncodeBlock, values)
  }

  /** The library's decoder; the kernel's skips the id instead of returning it. */
  function DecodeRpc(m: seq<byte>, p: nat): (r: Parsed<Rpc>)
    ensures r.Parsed? ==> |r.value.values| < U32_LIMIT
  {
    if p + 8 > |m| then OutOfBounds
    else
      match DecodeAll(DecodeBlock, m, p + 8, U32At(m, p + 4))
      case OutOfBounds => OutOfBounds
      case Parsed(values, next) => Parsed(Rpc(U32At(m, p), values), next)
  }

  /** Round trip and self-delimitation in one: an RPC packet decodes to what was encoded from any
      place in memory, and the cursor stops just past it, whatever bytes follow. */
  lemma DecodeOfEncode(m: seq<byte>, p: nat, id: u32, values: seq<Blob>)
    requires |values| < U32_LIMIT && Holds(m, p, EncodeRpc(id, values))
    ensures DecodeRpc(m, p) == Parsed(Rpc(id, values), p + |EncodeRpc(id, values)|)
  {
    BlockCodecIsExact();
    var body := EncodeAll(EncodeBlock, values);
    HoldsConcat(m, p, U32(id) + U32(|values|), body);
    HoldsConcat(m, p, U32(id), U32(|values|));
    U32AtExact(m, p, id);
    U32AtExact(m, p + 4, |values|);
    DecodeAllOfEncodeAll(EncodeBlock, DecodeBlock, m, p + 8, values);
  }

  /** Re-encoding whatever was decoded gives back exactly the bytes that were consumed. */
  lemma EncodeOfDecode(m: seq<byte>, p: nat)
    requires DecodeRpc(m, p).Parsed?
    ensures var r := DecodeRpc(m, p);
            var packet := EncodeRpc(r.value.id, r.value.values);
            Holds(m, p, packet) && r.next == p + |packet|
  {
    BlockCodecIsExact();
    var r := DecodeRpc(m, p);
    var n := U32At(m, p + 4);
    EncodeAllOfDecodeAll(EncodeBlock, DecodeBlock, m, p + 8, n);
    U32AtExact(m, p, r.value.id);
    U32AtExact(m, p + 4, n);
    HoldsConcat(m, p, U32(r.value.id), U32(n));
    HoldsConcat(m, p, U32(r.value.id) + U32(n), EncodeAll(EncodeBlock, r.value.values));
  }

  /** No RPC packet is a proper prefix of another, and equal packets carry equal calls. */
  lemma PrefixFree(a: Rpc, b: Rpc, tail: seq<byte>)
    requires |a.values| < U32_LIMIT && |b.values| < U32_LIMIT
    requires EncodeRpc(a.id, a.values) + tail == EncodeRpc(b.id, b.values)
    ensures a == b && tail == []
  {
    var x, m := EncodeRpc(a.id, a.values), EncodeRpc(b.id, b.values);
    assert m[0..|x|] == x && m[0..|m|] == m;
    DecodeOfEncode(m, 0, a.id, a.values);
    DecodeOfEncode(m, 0, b.id, b.values);
  }

  lemma {:induction false} ValuesLength(values: seq<Blob>)
    ensures |EncodeAll(EncodeBlock, values)| == 4 * |values| + TotalLength(values)
  {
    if values != [] { ValuesLength(values[..|values| - 1]); }
  }

  function TotalLength(values: seq<Blob>): nat {
    if values == [] then 0 else TotalLength(values[..|values| - 1]) + |values[|values| - 1]|
  }

  /** 8 bytes of header, then 4 for each value besides its own. */
  lemma RpcLength(id: u32, values: seq<Blob>)
    requires |values| < U32_LIMIT
    ensures |EncodeRpc(id, values)| == 8 + 4 * |values| + TotalLength(values)
  {
    ValuesLength(values);
  }

  /** A value stands here behind its length. */
  ghost predicate ValueAt(m: seq<byte>, p: nat, v: Blob) {
    Holds(m, p, U32(|v|)) && Holds(m, p + 4, v)
  }

  lemma ValuesAt(m: seq<byte>, p: nat, values: seq<Blob>, i: nat)
    requires i < |values| && Holds(m, p, EncodeAll(EncodeBlock, values))
    ensures ValueAt(m, p + 4 * i + TotalLength(values[..i]), values[i])
  {
    hide EncodeAll, U32, TotalLength;
    var start := |EncodeAll(EncodeBlock, values[..i])|;
    EncodeAllAt(EncodeBlock, values, i);
    ValuesLength(values[..i]);
    HoldsWithin(m, p, EncodeAll(EncodeBlock, values), start, EncodeBlock(values[i]));
    HoldsConcat(m, p + start, U32(|values[i]|), values[i]);
  }

  /** The layout, byte for byte: the id, the number of values, and every value behind its length. */
  lemma RpcLayout(id: u32, values: seq<Blob>)
    requires |values| < U32_LIMIT
    ensures var m := EncodeRpc(id, values);
            && Holds(m, 0, U32(id)) && Holds(m, 4, U32(|values|))
            && forall i | 0 <= i < |values| :: ValueAt(m, 8 + 4 * i + TotalLength(values[..i]), values[i])
  {
    hide EncodeAll, U32, ValueAt, TotalLength;
    var m, body := EncodeRpc(id, values), EncodeAll(EncodeBlock, values);
    assert m[0..0 + |m|] == m;
    HoldsConcat(m, 0, U32(id) + U32(|values|), body);
    HoldsConcat(m, 0, U32(id), U32(|values|));
    forall i | 0 <= i < |values| ensures ValueAt(m, 8 + 4 * i + TotalLength(values[..i]), values[i]) {
      ValuesAt(m, 8, values, i);
    }
  }

  // ---- the serializer ----

  /** One turn of the serializer's loop: the length, then the bytes unless there are none. */
  function PutValue(b: Buf, v: Blob): Buf {
    var b1 := Put(b, U32(|v|));
    if |v| != 0 then Put(b1, v) else b1
  }

  function RpcBuf(id: u32, values: seq<Blob>): Buf
    requires |values| < U32_LIMIT
  {
    PutEach(PutValue, Put(Put(EMPTY, U32(id)), U32(|values|)), values)
  }

  lemma PutValueAppends()
    ensures Appends(PutValue, EncodeBlock)
  {
    forall b: Buf, v: Blob | b.Buf? && Wellformed(b)
      ensures Wellformed(PutValue(b, v))
      ensures PutValue(b, v).Buf? ==> PutValue(b, v).bytes == b.bytes + EncodeBlock(v)
    {
      PutFitsExactly(b, U32(|v|));
      var b1 := Put(b, U32(|v|));
      if b1.Buf? {
        PutFitsExactly(b1, v);
        assert b.bytes + U32(|v|) + v == b.bytes + EncodeBlock(v);
      }
    }
  }

  /** A serializer that stayed inside its buffer wrote exactly the packet. */
  lemma RpcBufIsEncode(id: u32, values: seq<Blob>)
    requires |values| < U32_LIMIT
    ensures RpcBuf(id, values).Buf? ==> RpcBuf(id, values).bytes == EncodeRpc(id, values)
    ensures Wellformed(RpcBuf(id, values))
  {
    hide Put, PutValue, U32;
    PutValueAppends();
    PutFitsExactly(EMPTY, U32(id));
    var b := Put(EMPTY, U32(id));
    PutFitsExactly(b, U32(|values|));
    PutEachAppends(PutValue, EncodeBlock, Put(b, U32(|values|)), values);
  }

  lemma {:induction false} SmallValuesFit(b: Buf, values: seq<Blob>)
    requires b.Buf? && Wellformed(b)
    requires forall v | v in values :: |v| <= BUFFER_INC_SIZE
    requires |b.bytes| + |EncodeAll(EncodeBlock, values)| <= U32_LIMIT - 2 * BUFFER_INC_SIZE
    ensures PutEach(PutValue, b, values).Buf?
  {
    if values != [] {
      var init, v := values[..|values| - 1], values[|values| - 1];
      SmallValuesFit(b, init);
      PutValueAppends();
      PutEachAppends(PutValue, EncodeBlock, b, init);
      var mid := PutEach(PutValue, b, init);
      PutFitsExactly(mid, U32(|v|));
      PutFitsExactly(Put(mid, U32(|v|)), v);
      assert v in values;
    }
  }

  /** The sources a serializer appends, one `copy_to_buffer` each. */
  function ValueChunks(values: seq<Blob>): seq<Blob> {
    if values == [] then []
    else
      var v := values[|values| - 1];
      ValueChunks(values[..|values| - 1]) + if |v| != 0 then [U32(|v|), v] else [U32(|v|)]
  }

  lemma PutTwo(b: Buf, front: seq<Blob>, x: Blob, y: Blob)
    ensures PutAll(b, front + [x]) == Put(PutAll(b, front), x)
    ensures PutAll(b, front + [x, y]) == Put(Put(PutAll(b, front), x), y)
  {
    hide Put;
    assert (front + [x])[..|front|] == front;
    assert (front + [x, y])[..|front| + 1] == front + [x];
  }

  lemma {:induction false} ValuesArePutAll(b: Buf, front: seq<Blob>, values: seq<Blob>)
    ensures PutEach(PutValue, PutAll(b, front), values) == PutAll(b, front + ValueChunks(values))
  {
    hide Put, PutAll, U32;
    if values == [] {
      assert front + ValueChunks(values) == front;
    } else {
      var init, v := values[..|values| - 1], values[|values| - 1];
      ValuesArePutAll(b, front, init);
      PutTwo(b, front + ValueChunks(init), U32(|v|), v);
      assert front + (ValueChunks(init) + [U32(|v|)]) == front + ValueChunks(init) + [U32(|v|)];
      assert front + (ValueChunks(init) + [U32(|v|), v]) == front + ValueChunks(init) + [U32(|v|), v];
    }
  }

  /** Exactly which calls are serialized: each source must end within the capacity at the length
      before it, or within one increment more. */
  lemma RpcFitsExactly(id: u32, values: seq<Blob>)
    requires |values| < U32_LIMIT
    ensures var chunks := [U32(id), U32(|values|)] + ValueChunks(values);
            RpcBuf(id, values).Buf? <==> FitInTurn(chunks)
  {
    hide Put, U32, FitInTurn, ValueChunks;
    var head: seq<Blob>, none: seq<Blob> := [U32(id), U32(|values|)], [];
    PutTwo(EMPTY, none, U32(id), U32(|values|));
    assert none + head == head;
    ValuesArePutAll(EMPTY, head, values);
    PutAllExactly(head + ValueChunks(values));
  }

  /** Values of at most 65536 bytes each are always serialized, up to the 32-bit limit. */
  lemma SmallRpcFits(id: u32, values: seq<Blob>)
    requires |values| < U32_LIMIT
    requires forall v | v in values :: |v| <= BUFFER_INC_SIZE
    requires |EncodeRpc(id, values)| <= U32_LIMIT - 2 * BUFFER_INC_SIZE
    ensures RpcBuf(id, values).Buf?
  {
    PutFitsExactly(EMPTY, U32(id));
    PutFitsExactly(Put(EMPTY, U32(id)), U32(|values|));
    SmallValuesFit(Put(Put(EMPTY, U32(id)), U32(|values|)), values);
  }

  method AppendValue(packet: GrowBuffer, v: Blob) returns (ok: bool)
    requires packet.Valid()
    modifies packet, packet.data
    ensures ok <==> PutValue(old(packet.State()), v).Buf?
    ensures packet.data == old(packet.data) || fresh(packet.data)
    ensures ok ==> packet.Valid() && packet.State() == PutValue(old(packet.State()), v)
  {
    ok := packet.Append(U32(|v|));
    if ok && |v| != 0 {
      ok := packet.Append(v);
    }
  }

  /** Kernel and library serializers, whose bodies are the same. */
  method SerializeRpc(id: u32, values: array<Blob>) returns (ok: bool, packet: GrowBuffer)
    requires values.Length < U32_LIMIT
    ensures ok <==> RpcBuf(id, values[..]).Buf?
    ensures fresh(packet) && (ok ==> packet.Valid() && packet.State().bytes == EncodeRpc(id, values[..]))
  {
    ghost var vs := values[..];
    ghost var head := Put(Put(EMPTY, U32(id)), U32(|vs|));
    RpcBufIsEncode(id, vs);
    packet := new GrowBuffer();
    PutFitsExactly(EMPTY, U32(id));
    PutFitsExactly(Put(EMPTY, U32(id)), U32(|vs|));
    ok := packet.Append(U32(id));
    ok := packet.Append(U32(values.Length));
    for i := 0 to values.Length
      invariant packet.Valid() && fresh(packet) && fresh(packet.data)
      invariant packet.State() == PutEach(PutValue, head, vs[..i])
    {
      assert vs[..i + 1][..i] == vs[..i];
      ok := AppendValue(packet, values[i]);
      if !ok {
        PutValueAppends();
        OverrunPersists(PutValue, EncodeBlock, head, vs, i + 1);
        return;
      }
    }
    assert vs[..|vs|] == vs;
    ok := true;
  }

  // ---- the deserializers ----

  /** The loop shared by both deserializers: `attrv` is filled in place as the cursor advances. */
  method ReadValues(packet: array<byte>, start: nat, attrc: u32) returns (r: Parsed<seq<Blob>>)
    ensures r == DecodeAll(DecodeBlock, packet[..], start, attrc)
  {
    hide DecodeAll;
    ghost var m := packet[..];
    ghost var all := DecodeAll(DecodeBlock, m, start, attrc);
    var cursor: nat := start;
    var attrv: array<Blob> := new Blob[attrc](_ => []);
    ghost var done: seq<Blob> := [];
    PrependNothing(all);
    for i := 0 to attrc
      invariant fresh(attrv) && attrv[..i] == done
      invariant all == Prepend(done, DecodeAll(DecodeBlock, m, cursor, attrc - i))
    {
      DecodeStep(DecodeBlock, m, done, cursor, attrc - i);
      var item := ReadBlock(packet, cursor);
      if item.OutOfBounds? {
        return OutOfBounds;
      }
      attrv[i] := item.value;
      done := done + [item.value];
      cursor := item.next;
    }
    DecodeNone(DecodeBlock, m, cursor);
    assert done + [] == attrv[..];
    r := Parsed(attrv[..], cursor);
  }

  /** `unserialize_rpc_packet` of the library: the id comes back too. */
  method UnserializeRpcLibrary(packet: array<byte>) returns (r: Parsed<Rpc>)
    ensures r == DecodeRpc(packet[..], 0)
  {
    if packet.Length < 8 {
      return OutOfBounds;
    }
    var id, attrc := U32At(packet[..], 0), U32At(packet[..], 4);
    var values := ReadValues(packet, 8, attrc);
    r := if values.OutOfBounds? then OutOfBounds else Parsed(Rpc(id, values.value), values.next);
  }

  /** `unserialize_rpc_packet` of the kernel: the id is stepped over. */
  method UnserializeRpcKernel(packet: array<byte>) returns (r: Parsed<seq<Blob>>)
    ensures var d := DecodeRpc(packet[..], 0);
            r == if d.OutOfBounds? then OutOfBounds else Parsed(d.value.values, d.next)
  {
    if packet.Length < 8 {
      return OutOfBounds;
    }
    var attrc := U32At(packet[..], 4);
    r := ReadValues(packet, 8, attrc);
  }
}
