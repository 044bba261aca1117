/**
 * BinaryLongReference: a handle on an 8-byte `long` field at an offset inside a bytes store.
 * The handle is bound (and re-bound) to a store and offset; reads and writes go through
 * the store's typed accessors at that offset.
 *
 * In debug mode a process-wide registry remembers every reference on which a
 * compare-and-swap stored a value with the not-complete marker `(long) (1 << 31)` set,
 * and `forceAllToNotCompleteState` ORs that marker into the field of every registered
 * reference. The registry is a static field in the library; here it is an explicit
 * `Registry` object, and `Jvm.isDebug()` is its `debug` constant.
 */
module LongReferences {
  import opened Outcomes
  import opened JavaBits
  import opened Store

  /** Byte `k` of `(long) (1 << 31)` in the little-endian layout: bit 7 of byte 3, and all of bytes 4 to 7. */
  function MaskByte(k: int): bv8 {
    if k == 3 then 0x80 else if 4 <= k < 8 then 0xFF else 0
  }

  /** The store with the bytes of the marker ORed into the eight bytes at `offset`. */
  function OrMask(m: seq<bv8>, offset: int): (r: seq<bv8>)
    requires InBounds(m, offset, 8)
    ensures |r| == |m| && MarkerBytes(r[offset..offset + 8])
    ensures forall p :: 0 <= p < |m| ==> r[p] & m[p] == m[p]
    ensures forall p :: 0 <= p < |m| && !(offset <= p < offset + 8) ==> r[p] == m[p]
  {
    var r := seq(|m|, p requires 0 <= p < |m| => if offset <= p < offset + 8 then m[p] | MaskByte(p - offset) else m[p]);
    forall p | 0 <= p < |m|
      ensures r[p] & m[p] == m[p]
    {
      if offset <= p < offset + 8 {
        OrKeepsBits(MaskByte(p - offset), m[p], m[p]);
      }
    }
    forall k | 0 <= k < 8
      ensures r[offset..offset + 8][k] & MaskByte(k) == MaskByte(k)
    {
      OrKeepsBits(m[offset + k], MaskByte(k), MaskByte(k));
    }
    r
  }

  lemma EncodeOrMarker(b: seq<bv8>)
    requires |b| == 8
    ensures EncodeLong(LongOfIntBit31 | DecodeLong(b)) == seq(8, k requires 0 <= k < 8 => b[k] | MaskByte(k))
  {
    LongOfIntBit31Bits();
  }

  lemma WriteLongEncoded(m: seq<bv8>, offset: int, v: bv64, e: seq<bv8>)
    requires InBounds(m, offset, 8) && EncodeLong(v) == e
    ensures WriteLong(m, offset, v) == m[..offset] + e + m[offset + 8..]
  {
  }

  /**
   * `setValue(1 << 31 | getValue())` on a field: the int marker is widened with its sign,
   * so bits 31 to 63 of the long are set, which in the store is a byte-wise OR of the
   * marker's bytes; no other byte changes.
   */
  lemma SetNotCompleteIsOrMask(m: seq<bv8>, offset: int)
    requires InBounds(m, offset, 8)
    ensures ReadLong(m, offset).Ok?
    ensures WriteLong(m, offset, LongOfIntBit31 | ReadLong(m, offset).value) == OrMask(m, offset)
  {
    var field := m[offset..offset + 8];
    var e := seq(8, k requires 0 <= k < 8 => field[k] | MaskByte(k));
    EncodeOrMarker(field);
    WriteLongEncoded(m, offset, LongOfIntBit31 | DecodeLong(field), e);
    var after := m[..offset] + e + m[offset + 8..];
    forall p | 0 <= p < |m|
      ensures after[p] == OrMask(m, offset)[p]
    {
      if offset <= p < offset + 8 {
        assert after[p] == e[p - offset];
        assert m[p] == field[p - offset];
      }
    }
    assert after == OrMask(m, offset);
  }

  /** A long carrying the not-complete marker: bits 31 to 63 are all set. */
  predicate NotComplete(v: bv64) {
    v & LongOfIntBit31 == LongOfIntBit31
  }

  /** Eight bytes each of which carries its byte of the marker. */
  predicate MarkerBytes(b: seq<bv8>)
    requires |b| == 8
  {
    forall k :: 0 <= k < 8 ==> b[k] & MaskByte(k) == MaskByte(k)
  }

  /** A long whose bytes carry the marker's bits has bits 31 to 63 set. */
  lemma MarkerBytesGiveMarker(b: seq<bv8>)
    requires |b| == 8 && MarkerBytes(b)
    ensures NotComplete(DecodeLong(b))
  {
    LongOfIntBit31Bits();
  }

  /** The registry of references (`binaryLongReferences`); it exists only in debug mode. */
  class Registry {
    /** `Jvm.isDebug()`. */
    const debug: bool
    /**
     * The registered references. Each registration adds a new weak reference, so the same
     * reference can be registered more than once.
     */
    var refs: seq<BinaryLongReference>

    constructor (debug: bool)
      ensures this.debug == debug && refs == []
    {
      this.debug := debug;
      refs := [];
    }
  }

  class BinaryLongReference {
    /** The bound store, null until `bytesStore` succeeds. */
    var bytes: array?<bv8>
    var offset: int

    constructor ()
      ensures bytes == null && offset == 0
    {
      bytes := null;
      offset := 0;
    }

    /** `maxSize()`: the field is always as wide as the stored form of a long. */
    function MaxSize(): (n: int)
      ensures forall v: bv64 :: n == |EncodeLong(v)|
    {
      8
    }

    /** `offset()`: where in the bound store the field starts, the offset every access uses. */
    function Offset(): (o: int)
      reads this, bytes
      ensures bytes != null ==> GetValue() == ReadLong(bytes[..], o)
    {
      offset
    }

    /** `bytesStore(bytes, offset, length)`: binds to a field, which must be exactly `maxSize()` bytes long. */
    method BytesStore(store: array<bv8>, offset: int, length: int) returns (s: Status)
      modifies this
      ensures length != MaxSize() ==>
                s == Fail(IllegalArgument) && bytes == old(bytes) && this.offset == old(this.offset)
      ensures length == MaxSize() ==> s == Pass && bytes == store && Offset() == offset
    {
      if length != MaxSize() {
        return Fail(IllegalArgument);
      }
      bytes := store;
      this.offset := offset;
      return Pass;
    }

    /** `getValue()`: the long at the bound offset. */
    function GetValue(): (r: Result<bv64>)
      reads this, bytes
      ensures bytes == null ==> r == Err(NullPointer)
      ensures bytes != null ==> (r.Ok? <==> InBounds(bytes[..], offset, 8))
      ensures bytes != null && !InBounds(bytes[..], offset, 8) ==> r == Err(OutOfBounds)
      ensures bytes != null ==> r == ReadLong(bytes[..], offset)
    {
      if bytes == null then Err(NullPointer) else ReadLong(bytes[..], offset)
    }

    /** `setValue(v)`: stores `v` at the bound offset; only those eight bytes change. */
    method SetValue(v: bv64) returns (s: Status)
      modifies bytes
      ensures bytes == null ==> s == Fail(NullPointer)
      ensures bytes != null && !InBounds(bytes[..], offset, 8) ==> s == Fail(OutOfBounds) && bytes[..] == old(bytes[..])
      ensures bytes != null && InBounds(bytes[..], offset, 8) ==>
                s == Pass && bytes[..] == WriteLong(old(bytes[..]), offset, v)
    {
      if bytes == null {
        return Fail(NullPointer);
      }
      if !InBounds(bytes[..], offset, 8) {
        return Fail(OutOfBounds);
      }
      WriteLongInPlace(bytes, offset, v);
      return Pass;
    }

    /** `getVolatileValue()`, without its memory-ordering guarantee. */
    method GetVolatileValue() returns (r: Result<bv64>)
      ensures r == GetValue()
    {
      r := GetValue();
    }

    /** `setOrderedValue(v)`, without its memory-ordering guarantee. */
    method SetOrderedValue(v: bv64) returns (s: Status)
      modifies bytes
      ensures bytes == null ==> s == Fail(NullPointer)
      ensures bytes != null && !InBounds(bytes[..], offset, 8) ==> s == Fail(OutOfBounds) && bytes[..] == old(bytes[..])
      ensures bytes != null && InBounds(bytes[..], offset, 8) ==>
                s == Pass && bytes[..] == WriteLong(old(bytes[..]), offset, v)
    {
      s := SetValue(v);
    }

    /** `addValue(delta)`: adds with 64-bit wrap-around, stores the sum and returns it. */
    method AddValue(delta: bv64) returns (r: Result<bv64>)
      modifies bytes
      ensures old(GetValue()).Err? ==> r == Err(old(GetValue()).error) && (bytes != null ==> bytes[..] == old(bytes[..]))
      ensures old(GetValue()).Ok? ==>
                r.Ok? && r.value == AddLong(old(GetValue()).value, delta) &&
                bytes[..] == WriteLong(old(bytes[..]), offset, r.value)
    {
      var current := GetValue();
      if current.Err? {
        return Err(current.error);
      }
      var sum := AddLong(current.value, delta);
      var _ := SetValue(sum);
      return Ok(sum);
    }

    /** `addAtomicValue(delta)`: the same as `addValue(delta)`. */
    method AddAtomicValue(delta: bv64) returns (r: Result<bv64>)
      modifies bytes
      ensures old(GetValue()).Err? ==> r == Err(old(GetValue()).error) && (bytes != null ==> bytes[..] == old(bytes[..]))
      ensures old(GetValue()).Ok? ==>
                r.Ok? && r.value == AddLong(old(GetValue()).value, delta) &&
                bytes[..] == WriteLong(old(bytes[..]), offset, r.value)
    {
      r := AddValue(delta);
    }

    /**
     * `compareAndSwapValue(expected, value)`: in debug mode a value with any of bits 31 to
     * 63 set first registers this reference (even if the swap then fails); the field
     * becomes `value` exactly when it held `expected`.
     */
    method CompareAndSwapValue(expected: bv64, value: bv64, registry: Registry) returns (r: Result<bool>)
      modifies registry`refs, bytes
      ensures registry.refs ==
                if registry.debug && value & LongOfIntBit31 != 0 then old(registry.refs) + [this] else old(registry.refs)
      ensures old(GetValue()).Err? ==> r == Err(old(GetValue()).error) && (bytes != null ==> bytes[..] == old(bytes[..]))
      ensures old(GetValue()).Ok? ==>
                r == Ok(old(GetValue()).value == expected) &&
                bytes[..] == if old(GetValue()).value == expected then WriteLong(old(bytes[..]), offset, value) else old(bytes[..])
    {
      if registry.debug && value & LongOfIntBit31 != 0 {
        registry.refs := registry.refs + [this];
      }
      var current := GetValue();
      if current.Err? {
        return Err(current.error);
      }
      if current.value != expected {
        return Ok(false);
      }
      var _ := SetValue(value);
      return Ok(true);
    }
  }

  /** A reference's binding, as a value: the store and the offset. */
  datatype Binding = Binding(store: array?<bv8>, offset: int)

  /** A binding through which `getValue()` succeeds. */
  predicate Usable(b: Binding) {
    b.store != null && 0 <= b.offset && b.offset + 8 <= b.store.Length
  }

  /** The bindings of a sequence of references, in order. */
  ghost function Bindings(refs: seq<BinaryLongReference>): (bs: seq<Binding>)
    reads refs
    ensures |bs| == |refs|
    ensures forall i :: 0 <= i < |refs| ==> bs[i] == Binding(refs[i].bytes, refs[i].offset)
  {
    if refs == [] then [] else Bindings(refs[..|refs| - 1]) + [Binding(refs[|refs| - 1].bytes, refs[|refs| - 1].offset)]
  }

  /** The stores the references are bound to. */
  ghost function Stores(refs: seq<BinaryLongReference>): set<array<bv8>>
    reads refs
  {
    set r | r in refs && r.bytes != null :: r.bytes
  }

  /** The index of the first binding through which `getValue()` fails, or the length if there is none. */
  function FirstUnusable(bs: seq<Binding>): (k: nat)
    ensures k <= |bs|
    ensures forall i :: 0 <= i < k ==> Usable(bs[i])
    ensures k < |bs| ==> !Usable(bs[k])
  {
    if bs == [] || !Usable(bs[0]) then 0 else 1 + FirstUnusable(bs[1..])
  }

  lemma FirstUnusableAt(bs: seq<Binding>, i: int)
    requires 0 <= i <= |bs| && forall j :: 0 <= j < i ==> Usable(bs[j])
    requires i < |bs| ==> !Usable(bs[i])
    ensures FirstUnusable(bs) == i
  {
  }

  /** The contents `m` of store `a` after the marker is ORed into the field of each binding on `a`, in order.
      What this does to each byte is stated by `ForcedOnBytes`. */
  function ForcedOn(m: seq<bv8>, a: array<bv8>, bs: seq<Binding>): (r: seq<bv8>)
    requires |m| == a.Length
    requires forall i :: 0 <= i < |bs| ==> Usable(bs[i])
    ensures |r| == |m|
  {
    if bs == [] then m
    else
      var prev := ForcedOn(m, a, bs[..|bs| - 1]);
      var b := bs[|bs| - 1];
      assert Usable(b);
      if b.store == a then OrMask(prev, b.offset) else prev
  }

  lemma ForcedOnStep(m: seq<bv8>, a: array<bv8>, bs: seq<Binding>, i: int)
    requires |m| == a.Length && 0 <= i < |bs|
    requires forall j :: 0 <= j <= i ==> Usable(bs[j])
    ensures ForcedOn(m, a, bs[..i + 1]) ==
            if bs[i].store == a then OrMask(ForcedOn(m, a, bs[..i]), bs[i].offset) else ForcedOn(m, a, bs[..i])
  {
    assert bs[..i + 1][..i] == bs[..i];
  }

  /** The marker bits one binding puts on byte `p` of store `a`. */
  function OwnMask(a: array<bv8>, b: Binding, p: int): bv8 {
    if b.store == a && b.offset <= p < b.offset + 8 then MaskByte(p - b.offset) else 0
  }

  /** The marker bits the bindings on `a` put on byte `p`. */
  function CoverMask(a: array<bv8>, bs: seq<Binding>, p: int): bv8 {
    if bs == [] then 0 else CoverMask(a, bs[..|bs| - 1], p) | OwnMask(a, bs[|bs| - 1], p)
  }

  /** Forcing ORs every byte of the store with the marker bits of the fields that cover it, and nothing else. */
  lemma {:induction false} ForcedOnBytes(m: seq<bv8>, a: array<bv8>, bs: seq<Binding>, p: int)
    requires |m| == a.Length && 0 <= p < |m|
    requires forall i :: 0 <= i < |bs| ==> Usable(bs[i])
    ensures ForcedOn(m, a, bs)[p] == m[p] | CoverMask(a, bs, p)
  {
    if bs != [] {
      var front := bs[..|bs| - 1];
      var b := bs[|bs| - 1];
      var prev := ForcedOn(m, a, front);
      ForcedOnBytes(m, a, front, p);
      if b.store == a {
        OrMaskAt(prev, b.offset, p);
      } else {
        OrZero(prev[p]);
      }
      assert ForcedOn(m, a, bs)[p] == prev[p] | OwnMask(a, b, p);
      OrRegroup(m[p], CoverMask(a, front, p), OwnMask(a, b, p));
    }
  }

  /** Byte `p` of the store after the marker is ORed into the field at `offset`. */
  lemma OrMaskAt(m: seq<bv8>, offset: int, p: int)
    requires InBounds(m, offset, 8) && 0 <= p < |m|
    ensures OrMask(m, offset)[p] == m[p] | (if offset <= p < offset + 8 then MaskByte(p - offset) else 0)
  {
    if !(offset <= p < offset + 8) {
      OrZero(m[p]);
    }
  }

  lemma OrZero(x: bv8)
    ensures x | 0 == x
  {
  }

  lemma {:induction false} CoverMaskAppend(a: array<bv8>, bs1: seq<Binding>, bs2: seq<Binding>, p: int)
    ensures CoverMask(a, bs1 + bs2, p) == CoverMask(a, bs1, p) | CoverMask(a, bs2, p)
  {
    if bs2 == [] {
      assert bs1 + bs2 == bs1;
    } else {
      var front := bs2[..|bs2| - 1];
      var own := OwnMask(a, bs2[|bs2| - 1], p);
      assert (bs1 + bs2)[..|bs1 + bs2| - 1] == bs1 + front;
      assert (bs1 + bs2)[|bs1 + bs2| - 1] == bs2[|bs2| - 1];
      CoverMaskAppend(a, bs1, front, p);
      OrRegroup(CoverMask(a, bs1, p), CoverMask(a, front, p), own);
    }
  }

  lemma OrRegroup(x: bv8, y: bv8, z: bv8)
    ensures (x | y) | z == x | (y | z)
  {
  }

  /** Swapping two blocks of registrations does not change the result; `ForceDependsOnlyOnSet` covers any reordering. */
  lemma ForceOrderIrrelevant(m: seq<bv8>, a: array<bv8>, bs1: seq<Binding>, bs2: seq<Binding>)
    requires |m| == a.Length
    requires forall i :: 0 <= i < |bs1| ==> Usable(bs1[i])
    requires forall i :: 0 <= i < |bs2| ==> Usable(bs2[i])
    ensures ForcedOn(m, a, bs1 + bs2) == ForcedOn(m, a, bs2 + bs1)
  {
    forall p | 0 <= p < |m|
      ensures ForcedOn(m, a, bs1 + bs2)[p] == ForcedOn(m, a, bs2 + bs1)[p]
    {
      ForcedOnBytes(m, a, bs1 + bs2, p);
      ForcedOnBytes(m, a, bs2 + bs1, p);
      CoverMaskAppend(a, bs1, bs2, p);
      CoverMaskAppend(a, bs2, bs1, p);
    }
  }

  /** Forcing twice is forcing once. */
  lemma ForceIdempotent(m: seq<bv8>, a: array<bv8>, bs: seq<Binding>)
    requires |m| == a.Length
    requires forall i :: 0 <= i < |bs| ==> Usable(bs[i])
    ensures ForcedOn(ForcedOn(m, a, bs), a, bs) == ForcedOn(m, a, bs)
  {
    var once := ForcedOn(m, a, bs);
    forall p | 0 <= p < |m|
      ensures ForcedOn(once, a, bs)[p] == once[p]
    {
      ForcedOnBytes(m, a, bs, p);
      ForcedOnBytes(once, a, bs, p);
    }
  }

  lemma {:induction false} CoverMaskHasMember(a: array<bv8>, bs: seq<Binding>, i: int, p: int)
    requires 0 <= i < |bs| && bs[i].store == a && bs[i].offset <= p < bs[i].offset + 8
    ensures CoverMask(a, bs, p) & MaskByte(p - bs[i].offset) == MaskByte(p - bs[i].offset)
  {
    if i < |bs| - 1 {
      CoverMaskHasMember(a, bs[..|bs| - 1], i, p);
    }
  }

  /** Registering a reference again as the last registration changes nothing; `ForceDependsOnlyOnSet` covers a repeat anywhere. */
  lemma ForceDuplicateHarmless(m: seq<bv8>, a: array<bv8>, bs: seq<Binding>, i: int)
    requires |m| == a.Length && 0 <= i < |bs|
    requires forall j :: 0 <= j < |bs| ==> Usable(bs[j])
    ensures ForcedOn(m, a, bs + [bs[i]]) == ForcedOn(m, a, bs)
  {
    forall p | 0 <= p < |m|
      ensures ForcedOn(m, a, bs + [bs[i]])[p] == ForcedOn(m, a, bs)[p]
    {
      ForcedOnBytes(m, a, bs + [bs[i]], p);
      ForcedOnBytes(m, a, bs, p);
      CoverMaskAbsorbsMember(a, bs, i, p);
    }
  }

  lemma CoverMaskAbsorbsMember(a: array<bv8>, bs: seq<Binding>, i: int, p: int)
    requires 0 <= i < |bs|
    ensures CoverMask(a, bs + [bs[i]], p) == CoverMask(a, bs, p)
  {
    var extended := bs + [bs[i]];
    assert extended[..|extended| - 1] == bs;
    var c := CoverMask(a, bs, p);
    var own := OwnMask(a, bs[i], p);
    assert CoverMask(a, extended, p) == c | own;
    if bs[i].store == a && bs[i].offset <= p < bs[i].offset + 8 {
      CoverMaskHasMember(a, bs, i, p);
    }
    OrAbsorbs(c, own);
  }

  lemma OrAbsorbs(c: bv8, bits: bv8)
    requires c & bits == bits
    ensures c | bits == c
  {
  }

  /** The registry is walked in an unspecified order and holds each reference once: forcing
      depends only on which bindings are registered, not on their order or repetition. */
  lemma ForceDependsOnlyOnSet(m: seq<bv8>, a: array<bv8>, bs1: seq<Binding>, bs2: seq<Binding>)
    requires |m| == a.Length
    requires forall i :: 0 <= i < |bs1| ==> Usable(bs1[i])
    requires forall i :: 0 <= i < |bs2| ==> Usable(bs2[i])
    requires forall b :: b in bs1 <==> b in bs2
    ensures ForcedOn(m, a, bs1) == ForcedOn(m, a, bs2)
  {
    forall p | 0 <= p < |m|
      ensures ForcedOn(m, a, bs1)[p] == ForcedOn(m, a, bs2)[p]
    {
      ForcedOnBytes(m, a, bs1, p);
      ForcedOnBytes(m, a, bs2, p);
      CoverMaskWithin(a, bs1, bs2, p);
      CoverMaskWithin(a, bs2, bs1, p);
      AndAntisymmetric(CoverMask(a, bs1, p), CoverMask(a, bs2, p));
    }
  }

  /** The marker bits of some bindings are among those of any sequence holding all of them. */
  lemma {:induction false} CoverMaskWithin(a: array<bv8>, bs1: seq<Binding>, bs2: seq<Binding>, p: int)
    requires forall b :: b in bs1 ==> b in bs2
    ensures CoverMask(a, bs1, p) & CoverMask(a, bs2, p) == CoverMask(a, bs1, p)
  {
    if bs1 != [] {
      var front := bs1[..|bs1| - 1];
      var last := bs1[|bs1| - 1];
      assert forall b :: b in front ==> b in bs1;
      CoverMaskWithin(a, front, bs2, p);
      assert last in bs1;
      var i :| 0 <= i < |bs2| && bs2[i] == last;
      if last.store == a && last.offset <= p < last.offset + 8 {
        CoverMaskHasMember(a, bs2, i, p);
      }
      OrWithin(CoverMask(a, front, p), OwnMask(a, last, p), CoverMask(a, bs2, p));
    }
  }

  lemma OrWithin(x: bv8, y: bv8, c: bv8)
    requires x & c == x && y & c == y
    ensures (x | y) & c == x | y
  {
  }

  lemma AndAntisymmetric(x: bv8, y: bv8)
    requires x & y == x && y & x == y
    ensures x == y
  {
  }

  lemma ForcedByteCarriesMarker(m: seq<bv8>, a: array<bv8>, bs: seq<Binding>, i: int, k: int)
    requires |m| == a.Length && 0 <= i < |bs| && bs[i].store == a && 0 <= k < 8
    requires forall j :: 0 <= j < |bs| ==> Usable(bs[j])
    ensures ForcedOn(m, a, bs)[bs[i].offset + k] & MaskByte(k) == MaskByte(k)
  {
    var p := bs[i].offset + k;
    ForcedOnBytes(m, a, bs, p);
    CoverMaskHasMember(a, bs, i, p);
    OrKeepsBits(m[p], CoverMask(a, bs, p), MaskByte(k));
  }

  lemma OrKeepsBits(x: bv8, c: bv8, bits: bv8)
    requires c & bits == bits
    ensures (x | c) & bits == bits
  {
  }

  lemma ForcedFieldBytes(m: seq<bv8>, a: array<bv8>, bs: seq<Binding>, i: int)
    requires |m| == a.Length && 0 <= i < |bs| && bs[i].store == a
    requires forall j :: 0 <= j < |bs| ==> Usable(bs[j])
    ensures var o := bs[i].offset; MarkerBytes(ForcedOn(m, a, bs)[o..o + 8])
  {
    var o := bs[i].offset;
    var forced := ForcedOn(m, a, bs);
    var field := forced[o..o + 8];
    forall k | 0 <= k < 8
      ensures field[k] & MaskByte(k) == MaskByte(k)
    {
      assert field[k] == forced[o + k];
      ForcedByteCarriesMarker(m, a, bs, i, k);
    }
  }

  /** After forcing, every forced field reads back with bits 31 to 63 set. */
  lemma ForcedFieldsNotComplete(m: seq<bv8>, a: array<bv8>, bs: seq<Binding>, i: int)
    requires |m| == a.Length && 0 <= i < |bs| && bs[i].store == a
    requires forall j :: 0 <= j < |bs| ==> Usable(bs[j])
    ensures var o := bs[i].offset; NotComplete(DecodeLong(ForcedOn(m, a, bs)[o..o + 8]))
  {
    var o := bs[i].offset;
    ForcedFieldBytes(m, a, bs, i);
    MarkerBytesGiveMarker(ForcedOn(m, a, bs)[o..o + 8]);
  }

  /** A store no registered reference is bound to is left exactly as it was. */
  lemma {:induction false} ForceLeavesOtherStores(m: seq<bv8>, a: array<bv8>, bs: seq<Binding>)
    requires |m| == a.Length
    requires forall i :: 0 <= i < |bs| ==> Usable(bs[i]) && bs[i].store != a
    ensures ForcedOn(m, a, bs) == m
  {
    if bs != [] {
      ForceLeavesOtherStores(m, a, bs[..|bs| - 1]);
    }
  }

  /** The action applied to each registered reference: `setValue(1 << 31 | getValue())`. */
  method ForceNotComplete(r: BinaryLongReference) returns (s: Status)
    modifies r.bytes
    ensures s == Pass <==> Usable(Binding(r.bytes, r.offset))
    ensures r.bytes == null ==> s == Fail(NullPointer)
    ensures r.bytes != null && !Usable(Binding(r.bytes, r.offset)) ==> s == Fail(OutOfBounds) && r.bytes[..] == old(r.bytes[..])
    ensures Usable(Binding(r.bytes, r.offset)) ==> r.bytes[..] == OrMask(old(r.bytes[..]), r.offset)
  {
    var v := r.GetValue();
    if v.Err? {
      return Fail(v.error);
    }
    SetNotCompleteIsOrMask(r.bytes[..], r.offset);
    s := r.SetValue(LongOfIntBit31 | v.value);
  }

  /**
   * The walk's progress: the first `i` bindings are usable, and each store holds its
   * initial contents forced by those bindings.
   */
  ghost predicate ForcedUpTo(stores: set<array<bv8>>, init: map<array<bv8>, seq<bv8>>, bs: seq<Binding>, i: int)
    reads stores
  {
    0 <= i <= |bs| && (forall j :: 0 <= j < i ==> Usable(bs[j])) &&
    forall a :: a in stores ==> a in init && |init[a]| == a.Length && a[..] == ForcedOn(init[a], a, bs[..i])
  }

  /** One step of the walk over the registry: forces the next reference. */
  method ForceNext(r: BinaryLongReference, ghost stores: set<array<bv8>>, ghost init: map<array<bv8>, seq<bv8>>,
                   ghost bs: seq<Binding>, ghost i: int) returns (s: Status)
    requires 0 <= i < |bs| && bs[i] == Binding(r.bytes, r.offset)
    requires r.bytes != null ==> r.bytes in stores
    requires ForcedUpTo(stores, init, bs, i)
    modifies r.bytes
    ensures s == Pass <==> Usable(bs[i])
    ensures s.Fail? ==> s == Fail(if bs[i].store == null then NullPointer else OutOfBounds)
    ensures s.Fail? ==> ForcedUpTo(stores, init, bs, i)
    ensures s == Pass ==> ForcedUpTo(stores, init, bs, i + 1)
  {
    s := ForceNotComplete(r);
    if s == Pass {
      forall a | a in stores
        ensures a[..] == ForcedOn(init[a], a, bs[..i + 1])
      {
        ForcedOnStep(init[a], a, bs, i);
      }
    }
  }

  /**
   * `forceAllToNotCompleteState()`: walks the registry and sets the marker in each
   * reference's field. Without debug mode the registry is null and the call throws
   * NullPointer; a reference whose `getValue()` throws stops the walk there.
   */
  method ForceAllToNotCompleteState(registry: Registry) returns (s: Status)
    modifies Stores(registry.refs)
    ensures !registry.debug ==> s == Fail(NullPointer)
    ensures !registry.debug ==> forall a :: a in old(Stores(registry.refs)) ==> a[..] == old(a[..])
    ensures registry.debug ==>
              var bs := old(Bindings(registry.refs));
              var k := FirstUnusable(bs);
              s == (if k == |bs| then Pass else Fail(if bs[k].store == null then NullPointer else OutOfBounds)) &&
              forall a :: a in old(Stores(registry.refs)) ==> a[..] == ForcedOn(old(a[..]), a, bs[..k])
  {
    if !registry.debug {
      return Fail(NullPointer);
    }
    s := ForceEach(registry.refs);
  }

  /** The walk itself: forces each reference in turn, stopping at the first that throws. */
  method ForceEach(refs: seq<BinaryLongReference>) returns (s: Status)
    modifies Stores(refs)
    ensures var bs := old(Bindings(refs));
            var k := FirstUnusable(bs);
            s == (if k == |bs| then Pass else Fail(if bs[k].store == null then NullPointer else OutOfBounds)) &&
            forall a :: a in old(Stores(refs)) ==> a[..] == ForcedOn(old(a[..]), a, bs[..k])
  {
    ghost var bs := Bindings(refs);
    ghost var stores := Stores(refs);
    ghost var init := map a | a in stores :: a[..];
    assert bs[..0] == [];
    s := ForceFrom(refs, stores, init, bs);
    forall a | a in stores
      ensures a[..] == ForcedOn(old(a[..]), a, bs[..FirstUnusable(bs)])
    {
      assert init[a] == old(a[..]);
    }
  }

  /** The loop of the walk, stated against the contents `init` the stores had when it began. */
  method ForceFrom(refs: seq<BinaryLongReference>, ghost stores: set<array<bv8>>,
                   ghost init: map<array<bv8>, seq<bv8>>, ghost bs: seq<Binding>) returns (s: Status)
    requires |bs| == |refs| && forall j :: 0 <= j < |refs| ==> bs[j] == Binding(refs[j].bytes, refs[j].offset)
    requires forall j :: 0 <= j < |refs| && refs[j].bytes != null ==> refs[j].bytes in stores
    requires ForcedUpTo(stores, init, bs, 0)
    modifies stores
    ensures var k := FirstUnusable(bs);
            s == (if k == |bs| then Pass else Fail(if bs[k].store == null then NullPointer else OutOfBounds)) &&
            ForcedUpTo(stores, init, bs, k)
  {
    s := Pass;
    var i := 0;
    while i < |refs| && s == Pass
      invariant i <= |refs|
      invariant ForcedUpTo(stores, init, bs, i)
      invariant s == Pass || (i < |bs| && !Usable(bs[i]) && s == Fail(if bs[i].store == null then NullPointer else OutOfBounds))
      decreases |refs| - i, if s == Pass then 1 else 0
    {
      s := ForceNext(refs[i], stores, init, bs, i);
      if s == Pass {
        i := i + 1;
      }
    }
    FirstUnusableAt(bs, i);
  }
}
