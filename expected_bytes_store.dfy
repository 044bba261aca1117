/**
 * ExpectedBytesStore: a bytes store that checks instead of writing. It wraps an
 * underlying store holding the bytes a writer is expected to produce; every write is
 * compared with what the underlying store already holds at that offset and throws
 * AssertionError on a difference, so replaying a writer against it checks that the
 * writer reproduces the recorded bytes. It never changes the underlying store, and
 * every read and every raw-memory accessor is unsupported.
 *
 * The wrapper is a value here: its one field is final and no operation updates it, so
 * the underlying store is the snapshot of its contents the checks compare against.
 */
module ExpectedStore {
  import opened Outcomes
  import opened JavaBits
  import Store

  /** `NOT_READY`, bit 31 of an `int`: the marker of a header whose writer has not finished. */
  const NotReady: bv32 := IntBit31

  /** The members of the store interface the wrapper refuses with UnsupportedOperation. */
  datatype UnsupportedCall =
    | Copy | NativeWrite | NativeRead | CompareAndSwapInt | CompareAndSwapLong
    | ReadByte | ReadShort | ReadInt | ReadLong | ReadFloat | ReadDouble
    | Address | AccessOffset | RefCount | WriteFromByteBuffer | WriteFromBytes

  /** The bytes of a short at `offset` are its encoding exactly when they decode to it. */
  lemma ShortAt(mem: seq<bv8>, offset: int, v: bv16)
    requires Store.InBounds(mem, offset, 2)
    ensures DecodeShort(mem[offset..offset + 2]) == v <==> mem[offset..offset + 2] == EncodeShort(v)
  {
    EncodeDecodeShort(mem[offset..offset + 2]);
  }

  lemma IntAt(mem: seq<bv8>, offset: int, v: bv32)
    requires Store.InBounds(mem, offset, 4)
    ensures DecodeInt(mem[offset..offset + 4]) == v <==> mem[offset..offset + 4] == EncodeInt(v)
  {
    EncodeDecodeInt(mem[offset..offset + 4]);
  }

  lemma LongAt(mem: seq<bv8>, offset: int, v: bv64)
    requires Store.InBounds(mem, offset, 8)
    ensures DecodeLong(mem[offset..offset + 8]) == v <==> mem[offset..offset + 8] == EncodeLong(v)
  {
    EncodeDecodeLong(mem[offset..offset + 8]);
  }

  datatype ExpectedBytesStore = ExpectedBytesStore(underlying: seq<bv8>)
  {
    /** `capacity()`: the underlying store's. */
    function Capacity(): (c: nat)
      ensures c == |underlying|
    {
      |underlying|
    }

    /** The accessors that always throw UnsupportedOperation, whatever their arguments. */
    function Unsupported(call: UnsupportedCall): (s: Status)
      ensures s.Fail? && s.error == UnsupportedOperation
    {
      Fail(UnsupportedOperation)
    }

    /**
     * `writeByte(offset, v)`: reads the expected byte (an offset outside the store throws
     * there) and throws AssertionError when it differs from `v`.
     */
    function WriteByte(offset: int, v: bv8): (s: Status)
      ensures s == Fail(OutOfBounds) <==> !Store.InBounds(underlying, offset, 1)
      ensures s == Pass <==> Store.InBounds(underlying, offset, 1) && underlying[offset] == v
      ensures s == Pass || s == Fail(OutOfBounds) || s == Fail(AssertionFailure)
    {
      var expected := Store.ReadByte(underlying, offset);
      if expected.Err? then Fail(expected.error)
      else if expected.value != v then Fail(AssertionFailure)
      else Pass
    }

    /** `writeShort(offset, v)`: passes exactly when the store holds the encoding of `v` there. */
    function WriteShort(offset: int, v: bv16): (s: Status)
      ensures s == Fail(OutOfBounds) <==> !Store.InBounds(underlying, offset, 2)
      ensures s == Pass <==> Store.InBounds(underlying, offset, 2) && underlying[offset..offset + 2] == EncodeShort(v)
      ensures s == Pass || s == Fail(OutOfBounds) || s == Fail(AssertionFailure)
    {
      var expected := Store.ReadShort(underlying, offset);
      if expected.Err? then Fail(expected.error)
      else
        ShortAt(underlying, offset, v);
        if expected.value != v then Fail(AssertionFailure) else Pass
    }

    /** `writeInt(offset, v)`: passes exactly when the store holds the encoding of `v` there. */
    function WriteInt(offset: int, v: bv32): (s: Status)
      ensures s == Fail(OutOfBounds) <==> !Store.InBounds(underlying, offset, 4)
      ensures s == Pass <==> Store.InBounds(underlying, offset, 4) && underlying[offset..offset + 4] == EncodeInt(v)
      ensures s == Pass || s == Fail(OutOfBounds) || s == Fail(AssertionFailure)
    {
      var expected := Store.ReadInt(underlying, offset);
      if expected.Err? then Fail(expected.error)
      else
        IntAt(underlying, offset, v);
        if expected.value != v then Fail(AssertionFailure) else Pass
    }

    /**
     * `writeOrderedInt(offset, v)`: like `writeInt`, except that a value carrying the
     * not-ready bit is accepted whatever the store holds, as long as the field exists.
     */
    function WriteOrderedInt(offset: int, v: bv32): (s: Status)
      ensures s == Fail(OutOfBounds) <==> !Store.InBounds(underlying, offset, 4)
      ensures s == Pass <==> Store.InBounds(underlying, offset, 4) &&
                             (underlying[offset..offset + 4] == EncodeInt(v) || v & NotReady != 0)
      ensures s == Pass || s == Fail(OutOfBounds) || s == Fail(AssertionFailure)
    {
      var expected := Store.ReadInt(underlying, offset);
      if expected.Err? then Fail(expected.error)
      else
        IntAt(underlying, offset, v);
        if expected.value != v && v & NotReady == 0 then Fail(AssertionFailure) else Pass
    }

    /** `writeLong(offset, v)` (and `writeOrderedLong`): passes exactly when the store holds the encoding of `v` there. */
    function WriteLong(offset: int, v: bv64): (s: Status)
      ensures s == Fail(OutOfBounds) <==> !Store.InBounds(underlying, offset, 8)
      ensures s == Pass <==> Store.InBounds(underlying, offset, 8) && underlying[offset..offset + 8] == EncodeLong(v)
      ensures s == Pass || s == Fail(OutOfBounds) || s == Fail(AssertionFailure)
    {
      var expected := Store.ReadLong(underlying, offset);
      if expected.Err? then Fail(expected.error)
      else
        LongAt(underlying, offset, v);
        if expected.value != v then Fail(AssertionFailure) else Pass
    }

    /**
     * Step `i` of `write(offsetInRDO, bytes, offset, length)`: `bytes[offset + i]` is
     * evaluated first (an index outside the array throws there), then written.
     */
    function ArrayStep(offsetInRDO: int, bytes: seq<bv8>, offset: int, i: int): (s: Status)
      ensures s == Fail(ArrayIndexOutOfBounds) <==> !(0 <= offset + i < |bytes|)
      ensures s == Pass <==> 0 <= offset + i < |bytes| && Store.InBounds(underlying, offsetInRDO + i, 1) &&
                             underlying[offsetInRDO + i] == bytes[offset + i]
    {
      if 0 <= offset + i < |bytes| then WriteByte(offsetInRDO + i, bytes[offset + i])
      else Fail(ArrayIndexOutOfBounds)
    }

    /** The outcome of the first `n` steps of the bulk write: the first failing step's, or Pass. */
    function WriteArrayPrefix(offsetInRDO: int, bytes: seq<bv8>, offset: int, n: nat): (s: Status)
      ensures s == Pass || s == Fail(ArrayIndexOutOfBounds) || s == Fail(OutOfBounds) || s == Fail(AssertionFailure)
      ensures s == Pass <==> forall j :: 0 <= j < n ==> ArrayStep(offsetInRDO, bytes, offset, j) == Pass
    {
      if n == 0 then Pass
      else
        var before := WriteArrayPrefix(offsetInRDO, bytes, offset, n - 1);
        if before.Fail? then before else ArrayStep(offsetInRDO, bytes, offset, n - 1)
    }

    /** `write(offsetInRDO, bytes, offset, length)`: checks each byte in ascending order, stopping at the first that throws. */
    method WriteArray(offsetInRDO: int, bytes: array<bv8>, offset: int, length: int) returns (s: Status)
      ensures s == WriteArrayPrefix(offsetInRDO, bytes[..], offset, if length < 0 then 0 else length)
    {
      ghost var b := bytes[..];
      var i := 0;
      while i < length
        invariant 0 <= i && (i == 0 || i <= length)
        invariant WriteArrayPrefix(offsetInRDO, b, offset, i) == Pass
      {
        PrefixStep(this, offsetInRDO, b, offset, i);
        if !(0 <= offset + i < bytes.Length) {
          WriteArrayFailureSticks(this, offsetInRDO, b, offset, i + 1, length);
          return Fail(ArrayIndexOutOfBounds);
        }
        var st := WriteByte(offsetInRDO + i, bytes[offset + i]);
        if st.Fail? {
          WriteArrayFailureSticks(this, offsetInRDO, b, offset, i + 1, length);
          return st;
        }
        i := i + 1;
      }
      s := Pass;
    }
  }

  /** After passing steps, one more step decides the bulk write's outcome so far. */
  lemma PrefixStep(store: ExpectedBytesStore, offsetInRDO: int, bytes: seq<bv8>, offset: int, i: nat)
    requires store.WriteArrayPrefix(offsetInRDO, bytes, offset, i) == Pass
    ensures store.WriteArrayPrefix(offsetInRDO, bytes, offset, i + 1) == store.ArrayStep(offsetInRDO, bytes, offset, i)
    ensures 0 <= offset + i < |bytes| ==>
              store.ArrayStep(offsetInRDO, bytes, offset, i) == store.WriteByte(offsetInRDO + i, bytes[offset + i])
  {
  }

  /** An accepted byte write is one that would leave the underlying store unchanged. */
  lemma AcceptedByteIsNoOp(store: ExpectedBytesStore, offset: int, v: bv8)
    ensures store.WriteByte(offset, v) == Pass <==>
            Store.InBounds(store.underlying, offset, 1) && Store.WriteByte(store.underlying, offset, v) == store.underlying
  {
    if Store.InBounds(store.underlying, offset, 1) {
      Store.OverwriteUnchangedIff(store.underlying, offset, [v]);
      assert store.underlying[offset..offset + 1] == [store.underlying[offset]];
    }
  }

  /** An accepted short write is one that would leave the underlying store unchanged. */
  lemma AcceptedShortIsNoOp(store: ExpectedBytesStore, offset: int, v: bv16)
    ensures store.WriteShort(offset, v) == Pass <==>
            Store.InBounds(store.underlying, offset, 2) && Store.WriteShort(store.underlying, offset, v) == store.underlying
  {
    if Store.InBounds(store.underlying, offset, 2) {
      Store.OverwriteUnchangedIff(store.underlying, offset, EncodeShort(v));
    }
  }

  /** An accepted int write is one that would leave the underlying store unchanged. */
  lemma AcceptedIntIsNoOp(store: ExpectedBytesStore, offset: int, v: bv32)
    ensures store.WriteInt(offset, v) == Pass <==>
            Store.InBounds(store.underlying, offset, 4) && Store.WriteInt(store.underlying, offset, v) == store.underlying
  {
    if Store.InBounds(store.underlying, offset, 4) {
      Store.OverwriteUnchangedIff(store.underlying, offset, EncodeInt(v));
    }
  }

  /** An accepted long write is one that would leave the underlying store unchanged. */
  lemma AcceptedLongIsNoOp(store: ExpectedBytesStore, offset: int, v: bv64)
    ensures store.WriteLong(offset, v) == Pass <==>
            Store.InBounds(store.underlying, offset, 8) && Store.WriteLong(store.underlying, offset, v) == store.underlying
  {
    if Store.InBounds(store.underlying, offset, 8) {
      Store.OverwriteUnchangedIff(store.underlying, offset, EncodeLong(v));
    }
  }

  /** The ordered int write differs from the plain one only by accepting not-ready values it would reject. */
  lemma OrderedIntRelaxesInt(store: ExpectedBytesStore, offset: int, v: bv32)
    ensures store.WriteOrderedInt(offset, v) ==
            if store.WriteInt(offset, v) == Fail(AssertionFailure) && v & NotReady != 0 then Pass
            else store.WriteInt(offset, v)
  {
  }

  /** The bulk write passes exactly when the array's bytes all exist and equal the store's, byte for byte. */
  lemma {:induction false} WriteArrayPassIff(store: ExpectedBytesStore, offsetInRDO: int, bytes: seq<bv8>, offset: int, n: nat)
    ensures store.WriteArrayPrefix(offsetInRDO, bytes, offset, n) == Pass <==>
            n == 0 ||
            (0 <= offset && offset + n <= |bytes| && Store.InBounds(store.underlying, offsetInRDO, n) &&
             store.underlying[offsetInRDO..offsetInRDO + n] == bytes[offset..offset + n])
  {
    if n > 0 {
      WriteArrayPassIff(store, offsetInRDO, bytes, offset, n - 1);
      var m := n - 1;
      if store.WriteArrayPrefix(offsetInRDO, bytes, offset, n) == Pass {
        if m > 0 {
          assert store.underlying[offsetInRDO..offsetInRDO + n] ==
                 store.underlying[offsetInRDO..offsetInRDO + m] + [store.underlying[offsetInRDO + m]];
          assert bytes[offset..offset + n] == bytes[offset..offset + m] + [bytes[offset + m]];
        }
      }
      if 0 <= offset && offset + n <= |bytes| && Store.InBounds(store.underlying, offsetInRDO, n) &&
         store.underlying[offsetInRDO..offsetInRDO + n] == bytes[offset..offset + n] {
        assert store.underlying[offsetInRDO..offsetInRDO + m] == store.underlying[offsetInRDO..offsetInRDO + n][..m];
        assert bytes[offset..offset + m] == bytes[offset..offset + n][..m];
        assert store.underlying[offsetInRDO + m] == store.underlying[offsetInRDO..offsetInRDO + n][m];
        assert bytes[offset + m] == bytes[offset..offset + n][m];
      }
    }
  }

  /** Once a step has failed, the bulk write's outcome no longer changes. */
  lemma {:induction false} WriteArrayFailureSticks(store: ExpectedBytesStore, offsetInRDO: int, bytes: seq<bv8>,
                                                   offset: int, k: nat, n: nat)
    requires k <= n && store.WriteArrayPrefix(offsetInRDO, bytes, offset, k).Fail?
    ensures store.WriteArrayPrefix(offsetInRDO, bytes, offset, n) == store.WriteArrayPrefix(offsetInRDO, bytes, offset, k)
  {
    if k < n {
      WriteArrayFailureSticks(store, offsetInRDO, bytes, offset, k, n - 1);
    }
  }

  /** A failing bulk write reports the failure of its first failing step, whatever follows it. */
  lemma {:induction false} WriteArrayStopsAtFirstFailure(store: ExpectedBytesStore, offsetInRDO: int, bytes: seq<bv8>,
                                                         offset: int, k: nat, n: nat)
    requires k < n
    requires forall j :: 0 <= j < k ==> store.ArrayStep(offsetInRDO, bytes, offset, j) == Pass
    requires store.ArrayStep(offsetInRDO, bytes, offset, k).Fail?
    ensures store.WriteArrayPrefix(offsetInRDO, bytes, offset, n) == store.ArrayStep(offsetInRDO, bytes, offset, k)
  {
    if n - 1 > k {
      WriteArrayStopsAtFirstFailure(store, offsetInRDO, bytes, offset, k, n - 1);
    }
  }
}
