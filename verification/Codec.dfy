/** What it means for a cursor-moving decoder to be the exact inverse of an encoder, and that
    repeating an item a known number of times keeps that property. Every packet format of the
    system is built from these two. */
module Codec {
  import opened Bytes

  /** A decoder reads memory `m` from offset `p`. `OutOfBounds` stands for a read past the end
      of `m`: undefined behaviour in the source, which never compares its cursor with a length. */
  datatype Parsed<+T> = OutOfBounds | Parsed(value: T, next: nat)

  /** `dec` accepts exactly the memories in which an encoding stands at the cursor, whatever
      precedes or follows it, and moves the cursor just past it. */
  ghost predicate Exact<T(!new)>(enc: T -> seq<byte>, dec: (seq<byte>, nat) -> Parsed<T>) {
    && (forall m: seq<byte>, p: nat, x: T {:trigger Holds(m, p, enc(x))} ::
          Holds(m, p, enc(x)) ==> dec(m, p) == Parsed(x, p + |enc(x)|))
    && (forall m: seq<byte>, p: nat {:trigger dec(m, p)} ::
          dec(m, p).Parsed? ==> Holds(m, p, enc(dec(m, p).value)) && dec(m, p).next == p + |enc(dec(m, p).value)|)
  }

  function EncodeAll<T>(enc: T -> seq<byte>, xs: seq<T>): seq<byte> {
    if xs == [] then [] else EncodeAll(enc, xs[..|xs| - 1]) + enc(xs[|xs| - 1])
  }

  function DecodeAll<T>(dec: (seq<byte>, nat) -> Parsed<T>, m: seq<byte>, p: nat, n: nat): (r: Parsed<seq<T>>)
    ensures r.Parsed? ==> |r.value| == n
    decreases n
  {
    if n == 0 then Parsed([], p)
    else
      match dec(m, p)
      case OutOfBounds => OutOfBounds
      case Parsed(x, q) => Prepend([x], DecodeAll(dec, m, q, n - 1))
  }

  function Prepend<T>(xs: seq<T>, r: Parsed<seq<T>>): Parsed<seq<T>> {
    if r.OutOfBounds? then OutOfBounds else Parsed(xs + r.value, r.next)
  }

  /** One turn of a decoding loop: with the items `done` read and `n` still to go from `q`,
      reading one more from `q` extends `done`. */
  lemma DecodeStep<T>(dec: (seq<byte>, nat) -> Parsed<T>, m: seq<byte>, done: seq<T>, q: nat, n: nat)
    requires n > 0
    ensures var rest := Prepend(done, DecodeAll(dec, m, q, n));
            match dec(m, q)
            case OutOfBounds => rest == OutOfBounds
            case Parsed(x, next) => rest == Prepend(done + [x], DecodeAll(dec, m, next, n - 1))
  {
    match dec(m, q)
    case OutOfBounds =>
    case Parsed(x, next) =>
      var r := DecodeAll(dec, m, next, n - 1);
      if r.Parsed? { assert done + ([x] + r.value) == done + [x] + r.value; }
  }

  lemma DecodeNone<T>(dec: (seq<byte>, nat) -> Parsed<T>, m: seq<byte>, p: nat)
    ensures DecodeAll(dec, m, p, 0) == Parsed([], p)
  {
  }

  lemma PrependNothing<T>(r: Parsed<seq<T>>)
    ensures Prepend([], r) == r
  {
    if r.Parsed? { assert [] + r.value == r.value; }
  }

  lemma {:induction false} EncodeAllFront<T>(enc: T -> seq<byte>, xs: seq<T>)
    requires xs != []
    ensures EncodeAll(enc, xs) == enc(xs[0]) + EncodeAll(enc, xs[1..])
  {
    var n := |xs| - 1;
    if n > 0 {
      EncodeAllFront(enc, xs[..n]);
      assert xs[..n][1..] == xs[1..][..n - 1];
    }
  }

  lemma EncodeAllLast<T>(enc: T -> seq<byte>, xs: seq<T>, x: T)
    ensures EncodeAll(enc, xs + [x]) == EncodeAll(enc, xs) + enc(x)
  {
    assert (xs + [x])[..|xs|] == xs;
  }

  lemma {:induction false} EncodeAllConcat<T>(enc: T -> seq<byte>, xs: seq<T>, ys: seq<T>)
    ensures EncodeAll(enc, xs + ys) == EncodeAll(enc, xs) + EncodeAll(enc, ys)
  {
    if ys == [] {
      assert xs + ys == xs;
    } else {
      hide EncodeAll;
      var init, last := ys[..|ys| - 1], ys[|ys| - 1];
      EncodeAllConcat(enc, xs, init);
      EncodeAllLast(enc, init, last);
      EncodeAllLast(enc, xs + init, last);
      assert ys == init + [last] && xs + ys == xs + init + [last];
    }
  }

  /** Where each item of an encoded run stands. */
  lemma {:induction false} EncodeAllAt<T>(enc: T -> seq<byte>, xs: seq<T>, i: nat)
    requires i < |xs|
    ensures Holds(EncodeAll(enc, xs), |EncodeAll(enc, xs[..i])|, enc(xs[i]))
  {
    var n := |xs| - 1;
    var all, front := EncodeAll(enc, xs), EncodeAll(enc, xs[..n]);
    if i == n {
      assert all[|front|..|front| + |enc(xs[n])|] == enc(xs[n]);
    } else {
      EncodeAllAt(enc, xs[..n], i);
      assert xs[..n][..i] == xs[..i];
      var p := |EncodeAll(enc, xs[..i])|;
      assert all[p..p + |enc(xs[i])|] == front[p..p + |enc(xs[i])|];
    }
  }

  lemma HoldsWithin(m: seq<byte>, p: nat, a: seq<byte>, q: nat, b: seq<byte>)
    requires Holds(m, p, a) && Holds(a, q, b)
    ensures Holds(m, p + q, b)
  {
    var part := m[p + q..p + q + |b|];
    forall i | 0 <= i < |b| ensures part[i] == b[i] {
      assert part[i] == m[p..p + |a|][q + i] == a[q + i] == a[q..q + |b|][i];
    }
  }

  /** An encoded run of items decodes to those items from any place. */
  lemma {:induction false} DecodeAllOfEncodeAll<T(!new)>(
    enc: T -> seq<byte>, dec: (seq<byte>, nat) -> Parsed<T>, m: seq<byte>, p: nat, xs: seq<T>)
    requires Exact(enc, dec)
    requires Holds(m, p, EncodeAll(enc, xs))
    ensures DecodeAll(dec, m, p, |xs|) == Parsed(xs, p + |EncodeAll(enc, xs)|)
    decreases |xs|
  {
    if xs != [] {
      EncodeAllFront(enc, xs);
      HoldsConcat(m, p, enc(xs[0]), EncodeAll(enc, xs[1..]));
      DecodeAllOfEncodeAll(enc, dec, m, p + |enc(xs[0])|, xs[1..]);
      assert [xs[0]] + xs[1..] == xs;
    }
  }

  /** Whatever decodes was an encoded run of items. */
  lemma {:induction false} EncodeAllOfDecodeAll<T(!new)>(
    enc: T -> seq<byte>, dec: (seq<byte>, nat) -> Parsed<T>, m: seq<byte>, p: nat, n: nat)
    requires Exact(enc, dec) && p <= |m|
    requires DecodeAll(dec, m, p, n).Parsed?
    ensures var r := DecodeAll(dec, m, p, n);
            Holds(m, p, EncodeAll(enc, r.value)) && r.next == p + |EncodeAll(enc, r.value)|
    decreases n
  {
    if n > 0 {
      var r := DecodeAll(dec, m, p, n);
      var x := r.value[0];
      var q := dec(m, p).next;
      EncodeAllOfDecodeAll(enc, dec, m, q, n - 1);
      assert r.value[1..] == DecodeAll(dec, m, q, n - 1).value;
      EncodeAllFront(enc, r.value);
      HoldsConcat(m, p, enc(x), EncodeAll(enc, r.value[1..]));
    }
  }

  /** Asking for more items than stand before the end of memory reads past it. */
  lemma {:induction false} DecodeAllRunsOut<T(!new)>(
    enc: T -> seq<byte>, dec: (seq<byte>, nat) -> Parsed<T>, m: seq<byte>, p: nat, xs: seq<T>, n: nat)
    requires Exact(enc, dec) && dec(m, |m|).OutOfBounds?
    requires Holds(m, p, EncodeAll(enc, xs)) && p + |EncodeAll(enc, xs)| == |m|
    requires n > |xs|
    ensures DecodeAll(dec, m, p, n).OutOfBounds?
    decreases n
  {
    if xs != [] {
      EncodeAllFront(enc, xs);
      HoldsConcat(m, p, enc(xs[0]), EncodeAll(enc, xs[1..]));
      DecodeAllRunsOut(enc, dec, m, p + |enc(xs[0])|, xs[1..], n - 1);
    }
  }

  // ---- the counted block `len || bytes` ----

  function EncodeBlock(v: Blob): seq<byte> {
    U32(|v|) + v
  }

  function DecodeBlock(m: seq<byte>, p: nat): Parsed<Blob> {
    if p + 4 > |m| then OutOfBounds
    else
      var length := U32At(m, p);
      if p + 4 + length > |m| then OutOfBounds
      else Parsed(m[p + 4..p + 4 + length], p + 4 + length)
  }

  lemma BlockDecodes(m: seq<byte>, p: nat, v: Blob)
    requires Holds(m, p, EncodeBlock(v))
    ensures DecodeBlock(m, p) == Parsed(v, p + |EncodeBlock(v)|)
  {
    HoldsConcat(m, p, U32(|v|), v);
    U32AtExact(m, p, |v|);
  }

  lemma BlockEncodes(m: seq<byte>, p: nat)
    requires DecodeBlock(m, p).Parsed?
    ensures var r := DecodeBlock(m, p); Holds(m, p, EncodeBlock(r.value)) && r.next == p + |EncodeBlock(r.value)|
  {
    var v := DecodeBlock(m, p).value;
    U32AtExact(m, p, |v|);
    HoldsConcat(m, p, U32(|v|), v);
  }

  lemma BlockCodecIsExact()
    ensures Exact(EncodeBlock, DecodeBlock)
  {
    forall m: seq<byte>, p: nat, v: Blob | Holds(m, p, EncodeBlock(v))
      ensures DecodeBlock(m, p) == Parsed(v, p + |EncodeBlock(v)|)
    {
      BlockDecodes(m, p, v);
    }
    forall m: seq<byte>, p: nat | DecodeBlock(m, p).Parsed?
      ensures var r := DecodeBlock(m, p); Holds(m, p, EncodeBlock(r.value)) && r.next == p + |EncodeBlock(r.value)|
    {
      BlockEncodes(m, p);
    }
  }

  method ReadBlock(packet: array<byte>, cursor: nat) returns (r: Parsed<Blob>)
    ensures r == DecodeBlock(packet[..], cursor)
  {
    if cursor + 4 > packet.Length {
      return OutOfBounds;
    }
    var length := U32At(packet[..], cursor);
    if cursor + 4 + length > packet.Length {
      return OutOfBounds;
    }
    return Parsed(packet[cursor + 4..cursor + 4 + length], cursor + 4 + length);
  }
}
