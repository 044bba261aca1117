/**
 * StreamingDataInput: a read cursor over a store. The cursor has a `position` and a
 * `limit`; the bytes between them are the ones still readable (`remaining()`), every read
 * consumes bytes at the position and advances it, and a read that needs more than remain
 * fails with BufferUnderflow without moving the cursor.
 *
 * The typed reads `readByte/Short/Int/Long` are abstract in the interface; here they are
 * given the contract the stores implement (little-endian, bounded by the limit). The
 * default methods built on them are modelled as written.
 */
module StreamingInput {
  import opened Outcomes
  import opened JavaBits
  import Store

  /**
   * What a decoder reading through the cursor reports: the value it decoded or the error
   * it threw, and how many bytes it consumed on the way, whether it succeeded or not.
   */
  datatype Decoded<T> = Decoded(outcome: Result<T>, consumed: nat)

  /**
   * What the text parser reports: how it ended, the characters it appended to the
   * builder (on a failure, those appended before it threw), and the bytes it consumed.
   */
  datatype Parsed = Parsed(outcome: Status, text: seq<char>, consumed: nat)

  /** A decoder never consumes more bytes than it was given. */
  ghost predicate DecoderWithinInput<T>(decode: seq<bv8> -> Decoded<T>) {
    forall input: seq<bv8> :: decode(input).consumed <= |input|
  }

  /** A text parser for a given length never consumes more bytes than it was given. */
  ghost predicate ParserWithinInput(parse: (seq<bv8>, nat) -> Parsed) {
    forall input: seq<bv8>, length: nat :: parse(input, length).consumed <= |input|
  }

  /**
   * `Maths.toUInt31`: a long that must fit in 31 unsigned bits; any other value
   * (negative, or 2^31 and above) is rejected with IllegalArgument.
   */
  function ToUInt31(x: int): (r: Result<int>)
    ensures r.Ok? <==> 0 <= x < 0x8000_0000
    ensures r.Ok? ==> r.value == x
    ensures r.Err? ==> r.error == IllegalArgument
  {
    if 0 <= x < 0x8000_0000 then Ok(x) else Err(IllegalArgument)
  }

  /** What `readUTFΔ(sb)` returns, leaves in `sb`, and consumes. */
  datatype UtfRead = UtfRead(result: Result<bool>, text: seq<char>, consumed: nat)

  /**
   * `readUTFΔ(sb)` over the readable bytes `input`: the stop-bit encoded length comes
   * first; -1 stands for a null string; any other length must pass `toUInt31` and is
   * handed to the text parser, which appends to `sb` as it goes.
   */
  function ReadUtfDeltaSpec(input: seq<bv8>,
                            readStopBit: seq<bv8> -> Decoded<int>,
                            parseUtf: (seq<bv8>, nat) -> Parsed): (spec: UtfRead)
    requires DecoderWithinInput(readStopBit) && ParserWithinInput(parseUtf)
    ensures spec.consumed <= |input|
    ensures spec.result.Ok? ==> spec.result.value == (readStopBit(input).outcome != Ok(-1))
  {
    var length := readStopBit(input);
    assert length.consumed <= |input|;
    assert forall len: nat :: parseUtf(input[length.consumed..], len).consumed <= |input| - length.consumed;
    match length.outcome
    case Err(e) => UtfRead(Err(e), [], length.consumed)
    case Ok(len0) =>
      if len0 == -1 then UtfRead(Ok(false), [], length.consumed)
      else match ToUInt31(len0)
        case Err(e) => UtfRead(Err(e), [], length.consumed)
        case Ok(len) =>
          var parsed := parseUtf(input[length.consumed..], len);
          var result := if parsed.outcome.Pass? then Ok(true) else Err(parsed.outcome.error);
          UtfRead(result, parsed.text, length.consumed + parsed.consumed)
  }

  /** The length decoded to something other than -1 that fits in 31 unsigned bits: the parser runs. */
  ghost predicate ParserRuns(input: seq<bv8>, readStopBit: seq<bv8> -> Decoded<int>) {
    readStopBit(input).outcome.Ok? && 0 <= readStopBit(input).outcome.value < 0x8000_0000
  }

  /**
   * Whatever happens, `sb` ends up holding only what this call parsed: it is emptied first,
   * stays empty unless the parser runs, and then holds what the parser appended.
   */
  lemma ReadUtfDeltaEmptiesBuffer(input: seq<bv8>,
                                  readStopBit: seq<bv8> -> Decoded<int>,
                                  parseUtf: (seq<bv8>, nat) -> Parsed)
    requires DecoderWithinInput(readStopBit) && ParserWithinInput(parseUtf)
    ensures var spec := ReadUtfDeltaSpec(input, readStopBit, parseUtf);
            var used := readStopBit(input).consumed;
            spec.text == if ParserRuns(input, readStopBit)
                         then parseUtf(input[used..], readStopBit(input).outcome.value).text
                         else []
  {
  }

  /** A length of -1 is a null string: false, an empty buffer, and nothing consumed beyond the length. */
  lemma ReadUtfDeltaNull(input: seq<bv8>,
                         readStopBit: seq<bv8> -> Decoded<int>,
                         parseUtf: (seq<bv8>, nat) -> Parsed)
    requires DecoderWithinInput(readStopBit) && ParserWithinInput(parseUtf)
    requires readStopBit(input).outcome == Ok(-1)
    ensures ReadUtfDeltaSpec(input, readStopBit, parseUtf) == UtfRead(Ok(false), [], readStopBit(input).consumed)
  {
  }

  /**
   * The call returns true exactly when the length is present, is not -1, fits in 31
   * unsigned bits, and the text after it parses.
   */
  lemma ReadUtfDeltaPresent(input: seq<bv8>,
                            readStopBit: seq<bv8> -> Decoded<int>,
                            parseUtf: (seq<bv8>, nat) -> Parsed)
    requires DecoderWithinInput(readStopBit) && ParserWithinInput(parseUtf)
    ensures var spec := ReadUtfDeltaSpec(input, readStopBit, parseUtf);
            var used := readStopBit(input).consumed;
            spec.result == Ok(true) <==>
              ParserRuns(input, readStopBit) &&
              parseUtf(input[used..], readStopBit(input).outcome.value).outcome.Pass?
  {
  }

  /** A length outside [0, 2^31) other than -1 is rejected with IllegalArgument after the length is consumed. */
  lemma ReadUtfDeltaBadLength(input: seq<bv8>,
                              readStopBit: seq<bv8> -> Decoded<int>,
                              parseUtf: (seq<bv8>, nat) -> Parsed)
    requires DecoderWithinInput(readStopBit) && ParserWithinInput(parseUtf)
    requires readStopBit(input).outcome.Ok? && readStopBit(input).outcome.value != -1
    requires !(0 <= readStopBit(input).outcome.value < 0x8000_0000)
    ensures ReadUtfDeltaSpec(input, readStopBit, parseUtf) ==
            UtfRead(Err(IllegalArgument), [], readStopBit(input).consumed)
  {
  }

  /**
   * Failure or not, the cursor moves past every byte the decoders read: those of the
   * length, and, when the parser runs, those it consumed.
   */
  lemma ReadUtfDeltaConsumed(input: seq<bv8>,
                             readStopBit: seq<bv8> -> Decoded<int>,
                             parseUtf: (seq<bv8>, nat) -> Parsed)
    requires DecoderWithinInput(readStopBit) && ParserWithinInput(parseUtf)
    ensures var spec := ReadUtfDeltaSpec(input, readStopBit, parseUtf);
            var used := readStopBit(input).consumed;
            spec.consumed == used + if ParserRuns(input, readStopBit)
                                    then parseUtf(input[used..], readStopBit(input).outcome.value).consumed
                                    else 0
  {
  }

  /** A Java `StringBuilder`, as the characters it holds. */
  class CharBuffer {
    var chars: seq<char>

    constructor (chars: seq<char>)
      ensures this.chars == chars
    {
      this.chars := chars;
    }

    /** `setLength(0)`. */
    method Clear()
      modifies this
      ensures chars == []
    {
      chars := [];
    }

    /** `append`. */
    method Append(text: seq<char>)
      modifies this
      ensures chars == old(chars) + text
    {
      chars := chars + text;
    }
  }

  /** A `java.nio.ByteBuffer` as a destination: puts go to `position`, which may not pass `limit`. */
  class ByteBuffer {
    const store: array<bv8>
    var position: int
    var limit: int

    ghost predicate Valid()
      reads this
    {
      0 <= position <= limit <= store.Length
    }

    function Remaining(): int
      reads this
    {
      limit - position
    }

    constructor (store: array<bv8>, position: int, limit: int)
      requires 0 <= position <= limit <= store.Length
      ensures Valid() && this.store == store && this.position == position && this.limit == limit
    {
      this.store := store;
      this.position := position;
      this.limit := limit;
    }

    /** `put(b)`: stores `b` at the position and advances it, or overflows when the buffer is full. */
    method Put(b: bv8) returns (s: Status)
      requires Valid()
      modifies this`position, store
      ensures Valid() && limit == old(limit)
      ensures old(position) < limit ==>
                s == Pass && position == old(position) + 1 && store[..] == old(store[..])[old(position) := b]
      ensures old(position) >= limit ==>
                s == Fail(BufferOverflow) && position == old(position) && store[..] == old(store[..])
    {
      if position >= limit {
        return Fail(BufferOverflow);
      }
      store[position] := b;
      position := position + 1;
      return Pass;
    }
  }

  /** Extending a copied run by one byte is one more single-byte write. */
  lemma OverwriteExtend(s: seq<bv8>, at: int, piece: seq<bv8>, b: bv8)
    requires 0 <= at && at + |piece| < |s|
    ensures Store.Overwrite(s, at, piece)[at + |piece| := b] == Store.Overwrite(s, at, piece + [b])
  {
    assert Store.Overwrite(s, at, piece)[at + |piece| := b] == Store.Overwrite(s, at, piece + [b]);
  }

  /** Copying the next source byte extends the copied run by one. */
  lemma OverwriteNextByte(s: seq<bv8>, at: int, src: seq<bv8>, from: int, to: int)
    requires 0 <= from <= to < |src| && 0 <= at && at + (to - from) < |s|
    ensures Store.Overwrite(s, at, src[from..to])[at + (to - from) := src[to]] == Store.Overwrite(s, at, src[from..to + 1])
  {
    assert src[from..to + 1] == src[from..to] + [src[to]];
    OverwriteExtend(s, at, src[from..to], src[to]);
  }

  class StreamingDataInput {
    /** The bytes of the underlying store. */
    const data: seq<bv8>
    var position: int
    var limit: int

    ghost predicate Valid()
      reads this
    {
      0 <= position <= limit <= |data|
    }

    /** `remaining()`: how many bytes lie between the position and the limit. */
    function Remaining(): int
      reads this
    {
      limit - position
    }

    /** The readable bytes. */
    function Readable(): seq<bv8>
      reads this
      requires Valid()
    {
      data[position..limit]
    }

    constructor (data: seq<bv8>, position: int, limit: int)
      requires 0 <= position <= limit <= |data|
      ensures Valid() && this.data == data && this.position == position && this.limit == limit
    {
      this.data := data;
      this.position := position;
      this.limit := limit;
    }

    /** `readByte()`. */
    method ReadByte() returns (r: Result<bv8>)
      requires Valid()
      modifies this`position
      ensures Valid() && limit == old(limit)
      ensures old(Remaining()) >= 1 ==> r == Ok(data[old(position)]) && position == old(position) + 1
      ensures old(Remaining()) < 1 ==> r == Err(BufferUnderflow) && position == old(position)
    {
      if Remaining() < 1 {
        return Err(BufferUnderflow);
      }
      r := Ok(data[position]);
      position := position + 1;
    }

    /** `readShort()`: two bytes, little-endian. */
    method ReadShort() returns (r: Result<bv16>)
      requires Valid()
      modifies this`position
      ensures Valid() && limit == old(limit)
      ensures old(Remaining()) >= 2 ==>
                r == Ok(DecodeShort(data[old(position)..old(position) + 2])) && position == old(position) + 2
      ensures old(Remaining()) < 2 ==> r == Err(BufferUnderflow) && position == old(position)
    {
      if Remaining() < 2 {
        return Err(BufferUnderflow);
      }
      r := Ok(DecodeShort(data[position..position + 2]));
      position := position + 2;
    }

    /** `readInt()`: four bytes, little-endian. */
    method ReadInt() returns (r: Result<bv32>)
      requires Valid()
      modifies this`position
      ensures Valid() && limit == old(limit)
      ensures old(Remaining()) >= 4 ==>
                r == Ok(DecodeInt(data[old(position)..old(position) + 4])) && position == old(position) + 4
      ensures old(Remaining()) < 4 ==> r == Err(BufferUnderflow) && position == old(position)
    {
      if Remaining() < 4 {
        return Err(BufferUnderflow);
      }
      r := Ok(DecodeInt(data[position..position + 4]));
      position := position + 4;
    }

    /** `readLong()`: eight bytes, little-endian. */
    method ReadLong() returns (r: Result<bv64>)
      requires Valid()
      modifies this`position
      ensures Valid() && limit == old(limit)
      ensures old(Remaining()) >= 8 ==>
                r == Ok(DecodeLong(data[old(position)..old(position) + 8])) && position == old(position) + 8
      ensures old(Remaining()) < 8 ==> r == Err(BufferUnderflow) && position == old(position)
    {
      if Remaining() < 8 {
        return Err(BufferUnderflow);
      }
      r := Ok(DecodeLong(data[position..position + 8]));
      position := position + 8;
    }

    /** `readBoolean()`: any non-zero byte is true. */
    method ReadBoolean() returns (r: Result<bool>)
      requires Valid()
      modifies this`position
      ensures Valid() && limit == old(limit)
      ensures old(Remaining()) >= 1 ==> r == Ok(data[old(position)] != 0) && position == old(position) + 1
      ensures old(Remaining()) < 1 ==> r == Err(BufferUnderflow) && position == old(position)
    {
      var b := ReadByte();
      match b
      case Err(e) => return Err(e);
      case Ok(v) => return Ok(v != 0);
    }

    /** `readUnsignedByte()`: the byte masked with 0xFF, in [0, 255]. */
    method ReadUnsignedByte() returns (r: Result<int>)
      requires Valid()
      modifies this`position
      ensures Valid() && limit == old(limit)
      ensures old(Remaining()) >= 1 ==>
                r.Ok? && r.value == data[old(position)] as int && 0 <= r.value < 0x100 &&
                position == old(position) + 1
      ensures old(Remaining()) < 1 ==> r == Err(BufferUnderflow) && position == old(position)
    {
      var b := ReadByte();
      match b
      case Err(e) => return Err(e);
      case Ok(v) => return Ok(UnsignedByte(v));
    }

    /** `readUnsignedShort()`: the short masked with 0xFFFF, in [0, 65535]. */
    method ReadUnsignedShort() returns (r: Result<int>)
      requires Valid()
      modifies this`position
      ensures Valid() && limit == old(limit)
      ensures old(Remaining()) >= 2 ==>
                r.Ok? && r.value == DecodeShort(data[old(position)..old(position) + 2]) as int &&
                0 <= r.value < 0x1_0000 && position == old(position) + 2
      ensures old(Remaining()) < 2 ==> r == Err(BufferUnderflow) && position == old(position)
    {
      var s := ReadShort();
      match s
      case Err(e) => return Err(e);
      case Ok(v) => return Ok(UnsignedShort(v));
    }

    /** `readUnsignedInt()`: the int widened to long and masked with 0xFFFFFFFF, in [0, 2^32). */
    method ReadUnsignedInt() returns (r: Result<int>)
      requires Valid()
      modifies this`position
      ensures Valid() && limit == old(limit)
      ensures old(Remaining()) >= 4 ==>
                r.Ok? && r.value == DecodeInt(data[old(position)..old(position) + 4]) as int &&
                0 <= r.value < 0x1_0000_0000 && position == old(position) + 4
      ensures old(Remaining()) < 4 ==> r == Err(BufferUnderflow) && position == old(position)
    {
      var i := ReadInt();
      match i
      case Err(e) => return Err(e);
      case Ok(v) => return Ok(UnsignedInt(v));
    }

    /**
     * `readUTFΔ(sb)`: empties `sb`, reads the stop-bit length, and on a non-null length
     * parses the text into `sb`. `readStopBit` and `parseUtf` are the library's decoders.
     */
    method ReadUtfDelta(sb: CharBuffer,
                        readStopBit: seq<bv8> -> Decoded<int>,
                        parseUtf: (seq<bv8>, nat) -> Parsed) returns (r: Result<bool>)
      requires Valid() && DecoderWithinInput(readStopBit) && ParserWithinInput(parseUtf)
      modifies this`position, sb
      ensures Valid() && limit == old(limit)
      ensures var spec := ReadUtfDeltaSpec(old(Readable()), readStopBit, parseUtf);
              r == spec.result && sb.chars == spec.text && position == old(position) + spec.consumed
    {
      sb.Clear();
      var length := readStopBit(Readable());
      position := position + length.consumed;
      if length.outcome.Err? {
        return Err(length.outcome.error);
      }
      var len0 := length.outcome.value;
      if len0 == -1 {
        return Ok(false);
      }
      var len := ToUInt31(len0);
      if len.Err? {
        return Err(len.error);
      }
      var parsed := parseUtf(Readable(), len.value);
      sb.Append(parsed.text);
      position := position + parsed.consumed;
      if parsed.outcome.Fail? {
        return Err(parsed.outcome.error);
      }
      return Ok(true);
    }

    /** `read(byte[])`: fills the whole array, one `readByte()` per element, without clamping. */
    method ReadInto(bytes: array<bv8>) returns (s: Status)
      requires Valid()
      modifies this`position, bytes
      ensures Valid() && limit == old(limit)
      ensures old(Remaining()) >= bytes.Length ==>
                s == Pass && bytes[..] == data[old(position)..old(position) + bytes.Length] &&
                position == old(position) + bytes.Length
      ensures old(Remaining()) < bytes.Length ==>
                s == Fail(BufferUnderflow) && position == limit &&
                bytes[..] == Store.Overwrite(old(bytes[..]), 0, data[old(position)..limit])
    {
      ghost var start := position;
      ghost var before := bytes[..];
      var i := 0;
      while i < bytes.Length
        invariant 0 <= i <= bytes.Length
        invariant Valid() && limit == old(limit)
        invariant position == start + i
        invariant bytes[..i] == data[start..position] && bytes[i..] == before[i..]
      {
        var b := ReadByte();
        if b.Err? {
          assert bytes[..] == bytes[..i] + bytes[i..];
          return Fail(b.error);
        }
        ghost var prev := bytes[..];
        bytes[i] := b.value;
        assert bytes[..i + 1] == prev[..i] + [b.value];
        assert bytes[i + 1..] == prev[i + 1..];
        assert prev[i + 1..] == before[i + 1..] by {
          assert prev[i + 1..] == prev[i..][1..] && before[i + 1..] == before[i..][1..];
        }
        assert data[start..position] == data[start..position - 1] + [b.value];
        i := i + 1;
      }
      assert bytes[..] == bytes[..i];
      return Pass;
    }

    /** `read(ByteBuffer)`: transfers as many bytes as both sides allow, counting down. */
    method ReadIntoBuffer(buffer: ByteBuffer) returns (n: int)
      requires Valid() && buffer.Valid()
      modifies this`position, buffer`position, buffer.store
      ensures Valid() && limit == old(limit) && buffer.Valid() && buffer.limit == old(buffer.limit)
      ensures n == if old(Remaining()) < old(buffer.Remaining()) then old(Remaining()) else old(buffer.Remaining())
      ensures position == old(position) + n && buffer.position == old(buffer.position) + n
      ensures buffer.store[..] == Store.Overwrite(old(buffer.store[..]), old(buffer.position), data[old(position)..position])
    {
      ghost var start, target, before := position, buffer.position, buffer.store[..];
      n := if Remaining() < buffer.Remaining() then Remaining() else buffer.Remaining();
      var i := n;
      while i > 0
        invariant 0 <= i <= n
        invariant Valid() && limit == old(limit) && buffer.Valid() && buffer.limit == old(buffer.limit)
        invariant position == start + (n - i) && buffer.position == target + (n - i)
        invariant buffer.store[..] == Store.Overwrite(before, target, data[start..position])
      {
        ghost var at := position;
        var b := ReadByte();
        assert b == Ok(data[at]);
        OverwriteNextByte(before, target, data, start, at);
        var _ := buffer.Put(b.value);
        i := i - 1;
      }
    }
  }
}
