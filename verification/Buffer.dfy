/** The growing output buffer behind every serializer (`copy_to_buffer`). */
module Buffer {
  import opened Bytes
  import opened Codec

  const BUFFER_INC_SIZE := 0x1_0000

  /** A buffer's written bytes and capacity. `Overrun` is a `memcpy` past the allocation. */
  datatype Buf = Overrun | Buf(bytes: seq<byte>, max: nat)

  const EMPTY := Buf([], BUFFER_INC_SIZE)

  /** One `copy_to_buffer`: the comparison and the growth are 32-bit and wrap, and the buffer
      grows once whatever the source's length. */
  function Put(b: Buf, src: Blob): Buf {
    match b
    case Overrun => Overrun
    case Buf(bytes, max) =>
      var end := |bytes| + |src|;
      var max' := if Wrap(end) > max then Wrap(max + BUFFER_INC_SIZE) else max;
      if end <= max' then Buf(bytes + src, max') else Overrun
  }

  function PutAll(b: Buf, chunks: seq<Blob>): Buf {
    if chunks == [] then b else Put(PutAll(b, chunks[..|chunks| - 1]), chunks[|chunks| - 1])
  }

  function Flatten(chunks: seq<Blob>): seq<byte> {
    if chunks == [] then [] else Flatten(chunks[..|chunks| - 1]) + chunks[|chunks| - 1]
  }

  /** What the capacity is at every moment: the bytes fit, it moves in whole increments, and it
      never runs a whole increment ahead of the bytes once the first one is full. */
  ghost predicate Wellformed(b: Buf) {
    b.Buf? ==>
      && |b.bytes| <= b.max < U32_LIMIT
      && b.max > 0 && b.max % BUFFER_INC_SIZE == 0
      && (b.max == BUFFER_INC_SIZE || b.max < |b.bytes| + BUFFER_INC_SIZE)
  }

  /** `copy_to_buffer` stays inside its allocation exactly when the source fits, or fits after
      one growth that does not wrap the 32-bit capacity. */
  lemma PutFitsExactly(b: Buf, src: Blob)
    requires Wellformed(b)
    ensures Put(b, src).Buf? <==>
            b.Buf? && (var end := |b.bytes| + |src|;
                       end <= b.max || end <= b.max + BUFFER_INC_SIZE < U32_LIMIT)
    ensures Wellformed(Put(b, src))
    ensures Put(b, src).Buf? ==> Put(b, src).bytes == b.bytes + src
  {
  }

  /** Any run of appends that never overran holds the concatenation of its sources. */
  lemma {:induction false} PutAllIsConcatenation(b: Buf, chunks: seq<Blob>)
    requires b.Buf? && Wellformed(b)
    ensures var r := PutAll(b, chunks);
            Wellformed(r) && (r.Buf? ==> r.bytes == b.bytes + Flatten(chunks))
  {
    hide Put;
    if chunks != [] {
      var init, last := chunks[..|chunks| - 1], chunks[|chunks| - 1];
      PutAllIsConcatenation(b, init);
      PutFitsExactly(PutAll(b, init), last);
      assert b.bytes + Flatten(init) + last == b.bytes + Flatten(chunks);
    }
  }

  /** The capacity at a length: whole increments, at least one. */
  function Capacity(length: nat): nat {
    if length == 0 then BUFFER_INC_SIZE else (length + BUFFER_INC_SIZE - 1) / BUFFER_INC_SIZE * BUFFER_INC_SIZE
  }

  /** A source of `size` bytes ends within the capacity, or within one more increment that does not
      wrap. */
  predicate Fits(length: nat, size: nat) {
    length + size <= Capacity(length) || length + size <= Capacity(length) + BUFFER_INC_SIZE < U32_LIMIT
  }

  lemma MaxIsCapacity(b: Buf)
    requires b.Buf? && Wellformed(b)
    ensures b.max == Capacity(|b.bytes|)
  {
    var k := b.max / BUFFER_INC_SIZE;
    assert b.max == k * BUFFER_INC_SIZE;
  }

  lemma {:induction false} PutAllConcat(b: Buf, front: seq<Blob>, rest: seq<Blob>)
    ensures PutAll(b, front + rest) == PutAll(PutAll(b, front), rest)
  {
    hide Put;
    if rest == [] {
      assert front + rest == front;
    } else {
      var n := |rest| - 1;
      PutAllConcat(b, front, rest[..n]);
      assert (front + rest)[..|front| + n] == front + rest[..n];
    }
  }

  /** Each source in turn fits at the length the ones before it reach. */
  predicate FitInTurn(chunks: seq<Blob>) {
    chunks == [] ||
    var init := chunks[..|chunks| - 1];
    FitInTurn(init) && Fits(|Flatten(init)|, |chunks[|chunks| - 1]|)
  }

  /** Exactly which runs of appends stay inside their allocation. */
  lemma {:induction false} PutAllExactly(chunks: seq<Blob>)
    ensures PutAll(EMPTY, chunks).Buf? <==> FitInTurn(chunks)
  {
    hide Put, Fits, Wellformed;
    EmptyIsWellformed();
    if chunks != [] {
      var init, last := chunks[..|chunks| - 1], chunks[|chunks| - 1];
      PutAllExactly(init);
      PutAllIsConcatenation(EMPTY, init);
      FitsExactly(PutAll(EMPTY, init), last);
    }
  }

  lemma EmptyIsWellformed()
    ensures Wellformed(EMPTY)
  {
  }

  lemma FitsExactly(b: Buf, src: Blob)
    requires Wellformed(b)
    ensures Put(b, src).Buf? <==> b.Buf? && Fits(|b.bytes|, |src|)
  {
    hide Put, Capacity;
    PutFitsExactly(b, src);
    if b.Buf? { MaxIsCapacity(b); }
  }

  /** Sources of at most one increment each never overrun, up to the 32-bit limit. */
  lemma {:induction false} SmallChunksFit(chunks: seq<Blob>)
    requires forall c | c in chunks :: |c| <= BUFFER_INC_SIZE
    requires |Flatten(chunks)| <= U32_LIMIT - 2 * BUFFER_INC_SIZE
    ensures PutAll(EMPTY, chunks).Buf?
  {
    if chunks != [] {
      var init, last := chunks[..|chunks| - 1], chunks[|chunks| - 1];
      SmallChunksFit(init);
      PutAllIsConcatenation(EMPTY, init);
      PutFitsExactly(PutAll(EMPTY, init), last);
      assert last in chunks;
    }
  }

  /** A loop of serializer bodies, one per item. */
  function PutEach<T>(put: (Buf, T) -> Buf, b: Buf, xs: seq<T>): Buf {
    if xs == [] then b else put(PutEach(put, b, xs[..|xs| - 1]), xs[|xs| - 1])
  }

  /** `put` either overruns or appends exactly `enc` of its item. */
  ghost predicate Appends<T(!new)>(put: (Buf, T) -> Buf, enc: T -> seq<byte>) {
    forall b: Buf, x: T {:trigger put(b, x)} ::
      if b.Overrun? then put(b, x).Overrun?
      else Wellformed(b) ==>
        Wellformed(put(b, x)) && (put(b, x).Buf? ==> put(b, x).bytes == b.bytes + enc(x))
  }

  lemma {:induction false} PutEachAppends<T(!new)>(
    put: (Buf, T) -> Buf, enc: T -> seq<byte>, b: Buf, xs: seq<T>)
    requires Appends(put, enc) && Wellformed(b)
    ensures var r := PutEach(put, b, xs);
            && Wellformed(r)
            && (b.Overrun? ==> r.Overrun?)
            && (r.Buf? ==> r.bytes == b.bytes + EncodeAll(enc, xs))
  {
    if xs != [] {
      var init, last := xs[..|xs| - 1], xs[|xs| - 1];
      PutEachAppends(put, enc, b, init);
      var mid := PutEach(put, b, init);
      assert PutEach(put, b, xs) == put(mid, last);
      if mid.Buf? {
        assert b.bytes + EncodeAll(enc, init) + enc(last) == b.bytes + EncodeAll(enc, xs);
      }
    }
  }

  /** Once a prefix of the loop has overrun, the loop has. */
  lemma {:induction false} OverrunPersists<T(!new)>(
    put: (Buf, T) -> Buf, enc: T -> seq<byte>, b: Buf, xs: seq<T>, k: nat)
    requires Appends(put, enc)
    requires k <= |xs| && PutEach(put, b, xs[..k]).Overrun?
    ensures PutEach(put, b, xs).Overrun?
  {
    if k == |xs| {
      assert xs[..k] == xs;
    } else {
      var init := xs[..|xs| - 1];
      assert init[..k] == xs[..k];
      OverrunPersists(put, enc, b, init, k);
    }
  }

  /** The `char *buf, uint32_t length, current_max` triple of a serializer. */
  class GrowBuffer {
    var data: array<byte>
    var length: nat
    var max: nat

    ghost predicate Valid()
      reads this, data
    {
      data.Length == max && length <= max && Wellformed(State())
    }

    ghost function State(): (s: Buf)
      reads this, data
      requires length <= data.Length
      ensures s.Buf?
    {
      Buf(data[..length], max)
    }

    constructor ()
      ensures Valid() && fresh(data) && State() == EMPTY
    {
      data := new byte[BUFFER_INC_SIZE];
      length, max := 0, BUFFER_INC_SIZE;
      new;
      assert data[..0] == [];
    }

    /** The `krealloc` of `copy_to_buffer`. */
    method Grow()
      requires Valid()
      modifies this
      ensures fresh(data) && length == old(length) && data.Length == max
      ensures max == Wrap(old(max) + BUFFER_INC_SIZE) && (length <= max ==> data[..length] == old(data[..length]))
    {
      max := Wrap(max + BUFFER_INC_SIZE);
      var grown := new byte[max];
      forall i | 0 <= i < length && i < max {
        grown[i] := data[i];
      }
      data := grown;
    }

    /** `copy_to_buffer`; `ok` is false when its `memcpy` would leave the allocation. */
    method Append(src: Blob) returns (ok: bool)
      requires Valid()
      modifies this, data
      ensures ok <==> Put(old(State()), src).Buf?
      ensures data == old(data) || fresh(data)
      ensures ok ==> Valid() && State() == Put(old(State()), src)
    {
      ghost var before := State();
      PutFitsExactly(before, src);
      hide Wrap;
      if Wrap(length + |src|) > max {
        Grow();
      }
      assert Put(before, src) == if length + |src| <= max then Buf(before.bytes + src, max) else Overrun;
      if length + |src| > max {
        return false;
      }
      assert data[..length] == before.bytes;
      forall i | 0 <= i < |src| {
        data[length + i] := src[i];
      }
      assert data[..length + |src|] == before.bytes + src;
      length := length + |src|;
      return true;
    }
  }
}
