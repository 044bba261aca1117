/**
 * The part of a bytes store's contract that the core relies on: a fixed-capacity run of
 * bytes with bounds-checked typed reads and writes at byte offsets. Multi-byte values are
 * kept little-endian (the native order of the platforms the library targets). A bad
 * offset fails with OutOfBounds; nothing is ever clamped or truncated.
 */
module Store {
  import opened Outcomes
  import opened JavaBits

  /** A field of `width` bytes at `offset` lies wholly inside the store. */
  predicate InBounds(mem: seq<bv8>, offset: int, width: nat) {
    0 <= offset && offset + width <= |mem|
  }

  /**
   * `readByte(offset)`: fails with OutOfBounds exactly when the byte is outside the store;
   * otherwise it is the byte held there.
   */
  function ReadByte(mem: seq<bv8>, offset: int): (r: Result<bv8>)
    ensures r == Err(OutOfBounds) <==> !InBounds(mem, offset, 1)
    ensures r.Ok? ==> mem[offset..offset + 1] == [r.value]
  {
    if InBounds(mem, offset, 1) then Ok(mem[offset]) else Err(OutOfBounds)
  }

  /** `readShort(offset)`: the short whose little-endian encoding the two bytes at `offset` are. */
  function ReadShort(mem: seq<bv8>, offset: int): (r: Result<bv16>)
    ensures r == Err(OutOfBounds) <==> !InBounds(mem, offset, 2)
    ensures r.Ok? ==> mem[offset..offset + 2] == EncodeShort(r.value)
  {
    if InBounds(mem, offset, 2) then
      EncodeDecodeShort(mem[offset..offset + 2]);
      Ok(DecodeShort(mem[offset..offset + 2]))
    else Err(OutOfBounds)
  }

  /** `readInt(offset)`: the int whose little-endian encoding the four bytes at `offset` are. */
  function ReadInt(mem: seq<bv8>, offset: int): (r: Result<bv32>)
    ensures r == Err(OutOfBounds) <==> !InBounds(mem, offset, 4)
    ensures r.Ok? ==> mem[offset..offset + 4] == EncodeInt(r.value)
  {
    if InBounds(mem, offset, 4) then
      EncodeDecodeInt(mem[offset..offset + 4]);
      Ok(DecodeInt(mem[offset..offset + 4]))
    else Err(OutOfBounds)
  }

  /** `readLong(offset)`: the long whose little-endian encoding the eight bytes at `offset` are. */
  function ReadLong(mem: seq<bv8>, offset: int): (r: Result<bv64>)
    ensures r == Err(OutOfBounds) <==> !InBounds(mem, offset, 8)
    ensures r.Ok? ==> mem[offset..offset + 8] == EncodeLong(r.value)
  {
    if InBounds(mem, offset, 8) then
      EncodeDecodeLong(mem[offset..offset + 8]);
      Ok(DecodeLong(mem[offset..offset + 8]))
    else Err(OutOfBounds)
  }

  /** The store with the bytes `e` written at `offset` and every other byte kept. */
  function Overwrite(mem: seq<bv8>, offset: int, e: seq<bv8>): (r: seq<bv8>)
    requires InBounds(mem, offset, |e|)
    ensures |r| == |mem| && r[offset..offset + |e|] == e
    ensures forall i :: 0 <= i < |mem| && !(offset <= i < offset + |e|) ==> r[i] == mem[i]
  {
    mem[..offset] + e + mem[offset + |e|..]
  }

  /** Writing bytes leaves the store as it was exactly when it already holds those bytes there. */
  lemma OverwriteUnchangedIff(mem: seq<bv8>, offset: int, e: seq<bv8>)
    requires InBounds(mem, offset, |e|)
    ensures Overwrite(mem, offset, e) == mem <==> mem[offset..offset + |e|] == e
  {
    if mem[offset..offset + |e|] == e {
      assert mem == mem[..offset] + mem[offset..offset + |e|] + mem[offset + |e|..];
    }
  }

  /** The store after `writeByte(offset, v)`. */
  function WriteByte(mem: seq<bv8>, offset: int, v: bv8): (r: seq<bv8>)
    requires InBounds(mem, offset, 1)
    ensures |r| == |mem| && ReadByte(r, offset) == Ok(v)
    ensures forall i :: 0 <= i < |mem| && !(offset <= i < offset + 1) ==> r[i] == mem[i]
  {
    Overwrite(mem, offset, [v])
  }

  /** The store after `writeShort(offset, v)`. */
  function WriteShort(mem: seq<bv8>, offset: int, v: bv16): (r: seq<bv8>)
    requires InBounds(mem, offset, 2)
    ensures |r| == |mem| && ReadShort(r, offset) == Ok(v)
    ensures forall i :: 0 <= i < |mem| && !(offset <= i < offset + 2) ==> r[i] == mem[i]
  {
    Overwrite(mem, offset, EncodeShort(v))
  }

  /** The store after `writeInt(offset, v)`. */
  function WriteInt(mem: seq<bv8>, offset: int, v: bv32): (r: seq<bv8>)
    requires InBounds(mem, offset, 4)
    ensures |r| == |mem| && ReadInt(r, offset) == Ok(v)
    ensures forall i :: 0 <= i < |mem| && !(offset <= i < offset + 4) ==> r[i] == mem[i]
  {
    Overwrite(mem, offset, EncodeInt(v))
  }

  /** The store after `writeLong(offset, v)`: the eight bytes at `offset` hold `v`, every other byte is kept. */
  function WriteLong(mem: seq<bv8>, offset: int, v: bv64): (r: seq<bv8>)
    requires InBounds(mem, offset, 8)
    ensures |r| == |mem| && r[offset..offset + 8] == EncodeLong(v)
    ensures forall i :: 0 <= i < |mem| && !(offset <= i < offset + 8) ==> r[i] == mem[i]
  {
    Overwrite(mem, offset, EncodeLong(v))
  }

  /** A long written at an offset is the long then read back from it. */
  lemma ReadLongAfterWriteLong(mem: seq<bv8>, offset: int, v: bv64)
    requires InBounds(mem, offset, 8)
    ensures ReadLong(WriteLong(mem, offset, v), offset).Ok?
    ensures ReadLong(WriteLong(mem, offset, v), offset).value == v
  {
    var after := WriteLong(mem, offset, v);
    assert after[offset..offset + 8] == EncodeLong(v);
  }

  /** A long written at one offset leaves a long at a non-overlapping offset as it was. */
  lemma ReadLongAfterDisjointWrite(mem: seq<bv8>, offset: int, v: bv64, other: int)
    requires InBounds(mem, offset, 8)
    requires other + 8 <= offset || offset + 8 <= other
    ensures ReadLong(WriteLong(mem, offset, v), other) == ReadLong(mem, other)
  {
    var after := WriteLong(mem, offset, v);
    if InBounds(mem, other, 8) {
      assert after[other..other + 8] == mem[other..other + 8];
    }
  }

  /** Writing back the long a field already holds leaves the store unchanged. */
  lemma WriteLongOfReadLong(mem: seq<bv8>, offset: int)
    requires InBounds(mem, offset, 8)
    ensures WriteLong(mem, offset, ReadLong(mem, offset).value) == mem
  {
    EncodeDecodeLong(mem[offset..offset + 8]);
    var after := WriteLong(mem, offset, ReadLong(mem, offset).value);
    assert after[offset..offset + 8] == mem[offset..offset + 8];
    assert forall i :: 0 <= i < |mem| ==> after[i] == mem[i] by {
      forall i | 0 <= i < |mem| ensures after[i] == mem[i] {
        if offset <= i < offset + 8 {
          assert after[i] == after[offset..offset + 8][i - offset];
          assert mem[i] == mem[offset..offset + 8][i - offset];
        }
      }
    }
  }

  /** A second write to the same field overrides the first. */
  lemma WriteLongTwice(mem: seq<bv8>, offset: int, v1: bv64, v2: bv64)
    requires InBounds(mem, offset, 8)
    ensures WriteLong(WriteLong(mem, offset, v1), offset, v2) == WriteLong(mem, offset, v2)
  {
    var mem1 := WriteLong(mem, offset, v1);
    assert mem1[..offset] == mem[..offset];
    assert mem1[offset + 8..] == mem[offset + 8..];
  }

  /** Writes a long into a store held in an array, in place. */
  method WriteLongInPlace(a: array<bv8>, offset: int, v: bv64)
    requires InBounds(a[..], offset, 8)
    modifies a
    ensures a[..] == WriteLong(old(a[..]), offset, v)
  {
    var encoded := EncodeLong(v);
    forall k | 0 <= k < 8 {
      a[offset + k] := encoded[k];
    }
    assert a[..] == old(a[..])[..offset] + encoded + old(a[..])[offset + 8..];
  }
}
