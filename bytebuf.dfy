/** The part of Netty's `ByteBuf` the core relies on: an array-backed buffer with
    a reader and a writer index. `Unpooled.wrappedBuffer(a)` shares `a`, so
    writes through the buffer are visible in the array and vice versa. */
module Buffers {
  import opened Common
  import Utils

  /** The two bytes `writeShortLE(v)` stores: the low 16 bits of `v`, least
      significant first. */
  function ShortLittleEndianBytes(v: int): (r: Bytes)
    ensures |r| == 2
  {
    [(v % 0x100) as bv8, ((v / 0x100) % 0x100) as bv8]
  }

  /** What `readShortLE` returns: the 16-bit value sign-extended to an int. */
  function ShortFromLittleEndian(lo: bv8, hi: bv8): (r: int)
    ensures -0x8000 <= r < 0x8000
  {
    var u := lo as int + 0x100 * hi as int;
    if u < 0x8000 then u else u - 0x1_0000
  }

  /** The Java value of `(short) v`: the low 16 bits of `v` read as a signed number. */
  function SignExtend16(v: int): (r: int)
    ensures -0x8000 <= r < 0x8000
    ensures (r - v) % 0x1_0000 == 0
  {
    var u := v % 0x1_0000;
    if u < 0x8000 then u else u - 0x1_0000
  }

  /** The low 16 bits of `v` split into its low and high byte. */
  lemma Low16Split(v: int)
    ensures v % 0x1_0000 == ((v / 0x100) % 0x100) * 0x100 + v % 0x100
  {
    var q := v / 0x100;
    var lo, hi := v % 0x100, q % 0x100;
    assert v == q * 0x100 + lo;
    assert q == (q / 0x100) * 0x100 + hi;
    assert v == (q / 0x100) * 0x1_0000 + (hi * 0x100 + lo);
    assert 0 <= hi * 0x100 + lo < 0x1_0000;
  }

  /** The two stored bytes, read as numbers, are the low and the high byte of `v`. */
  lemma ShortBytesValue(v: int)
    ensures ShortLittleEndianBytes(v)[0] as int == v % 0x100
    ensures ShortLittleEndianBytes(v)[1] as int == (v / 0x100) % 0x100
  {
    ByteConversion(v % 0x100);
    ByteConversion((v / 0x100) % 0x100);
  }

  lemma ByteConversion(x: int)
    requires 0 <= x < 0x100
    ensures (x as bv8) as int == x
  {
    if x < 0x10 {} else if x < 0x20 {} else if x < 0x40 {} else if x < 0x80 {} else {}
  }

  /** Writing a short and reading it back yields the truncated, sign-extended
      value. */
  lemma ShortRoundTrip(v: int)
    ensures ShortFromLittleEndian(ShortLittleEndianBytes(v)[0], ShortLittleEndianBytes(v)[1]) == SignExtend16(v)
  {
    ShortBytesValue(v);
    Low16Split(v);
  }

  /** A value already in short range survives the truncation unchanged. */
  lemma SignExtendShort(v: int)
    requires -0x8000 <= v < 0x8000
    ensures SignExtend16(v) == v
  {
  }

  class ByteBuf {
    const data: array<bv8>
    var readerIndex: nat
    var writerIndex: nat
    /** The positions saved by `markReaderIndex` and `markWriterIndex`. */
    var markedReaderIndex: nat
    var markedWriterIndex: nat

    ghost predicate Valid()
      reads this
    {
      readerIndex <= writerIndex <= data.Length
    }

    /** `readableBytes()`. */
    function ReadableCount(): nat
      reads this
      requires Valid()
    {
      writerIndex - readerIndex
    }

    /** `writableBytes()`: the capacity is fixed, as for every buffer of the core. */
    function WritableCount(): nat
      reads this
      requires Valid()
    {
      data.Length - writerIndex
    }

    /** The readable region. */
    ghost function Readable(): Bytes
      reads this, data
      requires Valid()
    {
      data[readerIndex..writerIndex]
    }

    /** `Unpooled.wrappedBuffer(a)`: all of `a` is readable. */
    constructor Wrap(a: array<bv8>)
      ensures Valid() && data == a && readerIndex == 0 && writerIndex == a.Length
    {
      data := a;
      readerIndex, writerIndex := 0, a.Length;
      markedReaderIndex, markedWriterIndex := 0, 0;
    }

    /** `alloc().directBuffer(n, n)`: an empty buffer of fixed capacity `n`. */
    constructor Allocate(capacity: nat)
      ensures Valid() && fresh(data) && data.Length == capacity
      ensures readerIndex == 0 && writerIndex == 0
    {
      data := new bv8[capacity];
      readerIndex, writerIndex := 0, 0;
      markedReaderIndex, markedWriterIndex := 0, 0;
    }

    /** `markReaderIndex()`. */
    method MarkReaderIndex()
      modifies this`markedReaderIndex
      ensures markedReaderIndex == readerIndex
    {
      markedReaderIndex := readerIndex;
    }

    /** `resetReaderIndex()`: back to the marked position, which must not lie
        past the writer index. */
    method ResetReaderIndex()
      requires Valid() && markedReaderIndex <= writerIndex
      modifies this`readerIndex
      ensures Valid() && readerIndex == markedReaderIndex
    {
      readerIndex := markedReaderIndex;
    }

    /** `markWriterIndex()`. */
    method MarkWriterIndex()
      modifies this`markedWriterIndex
      ensures markedWriterIndex == writerIndex
    {
      markedWriterIndex := writerIndex;
    }

    /** `writerIndex(n)`: `n` must lie between the reader index and the capacity. */
    method SetWriterIndex(n: nat)
      requires Valid() && readerIndex <= n <= data.Length
      modifies this`writerIndex
      ensures Valid() && writerIndex == n
    {
      writerIndex := n;
    }

    /** `resetWriterIndex()`: back to the marked position. */
    method ResetWriterIndex()
      requires Valid() && readerIndex <= markedWriterIndex <= data.Length
      modifies this`writerIndex
      ensures Valid() && writerIndex == markedWriterIndex
    {
      writerIndex := markedWriterIndex;
    }

    /** `getBytes(index, dst)`: copies `dst.Length` bytes from absolute position
        `index` into `dst`; the indices of this buffer do not move. */
    method GetBytes(index: nat, dst: array<bv8>)
      requires index + dst.Length <= data.Length && dst != data
      modifies dst
      ensures dst[..] == data[index..index + dst.Length]
    {
      forall k | 0 <= k < dst.Length {
        dst[k] := data[index + k];
      }
    }

    /** `readIntLE()`. */
    method ReadIntLE() returns (r: bv32)
      requires Valid() && ReadableCount() >= 4
      modifies this`readerIndex
      ensures Valid() && readerIndex == old(readerIndex) + 4
      ensures r == Utils.LittleEndianToInt(data[..], old(readerIndex))
    {
      r := Utils.LittleEndianToInt(data[..], readerIndex);
      readerIndex := readerIndex + 4;
    }

    /** `readInt()`: big-endian, most significant byte first. */
    method ReadInt() returns (r: bv32)
      requires Valid() && ReadableCount() >= 4
      modifies this`readerIndex
      ensures Valid() && readerIndex == old(readerIndex) + 4
      ensures r == BigEndianWord(data[..], old(readerIndex))
    {
      r := BigEndianWord(data[..], readerIndex);
      readerIndex := readerIndex + 4;
    }

    /** `readShortLE()`: sign-extended. */
    method ReadShortLE() returns (r: int)
      requires Valid() && ReadableCount() >= 2
      modifies this`readerIndex
      ensures Valid() && readerIndex == old(readerIndex) + 2
      ensures r == ShortFromLittleEndian(data[old(readerIndex)], data[old(readerIndex) + 1])
    {
      r := ShortFromLittleEndian(data[readerIndex], data[readerIndex + 1]);
      readerIndex := readerIndex + 2;
    }

    /** `skipBytes(n)`. */
    method SkipBytes(n: nat)
      requires Valid() && ReadableCount() >= n
      modifies this`readerIndex
      ensures Valid() && readerIndex == old(readerIndex) + n
    {
      readerIndex := readerIndex + n;
    }

    /** `writeShortLE(v)` at the writer index. */
    method WriteShortLE(v: int)
      requires Valid() && WritableCount() >= 2
      modifies this`writerIndex, data
      ensures Valid() && writerIndex == old(writerIndex) + 2 && readerIndex == old(readerIndex)
      ensures data[..] == old(data[..writerIndex]) + ShortLittleEndianBytes(v) + old(data[writerIndex + 2..])
    {
      var b := ShortLittleEndianBytes(v);
      data[writerIndex] := b[0];
      data[writerIndex + 1] := b[1];
      writerIndex := writerIndex + 2;
    }

    /** `readBytes(dst, n)`: moves `n` readable bytes of this buffer to the
        writable end of `dst`. */
    method ReadBytesInto(dst: ByteBuf, n: nat)
      requires Valid() && dst.Valid() && dst != this && dst.data != data
      requires n <= ReadableCount() && n <= dst.WritableCount()
      modifies this`readerIndex, dst`writerIndex, dst.data
      ensures Valid() && dst.Valid()
      ensures readerIndex == old(readerIndex) + n && writerIndex == old(writerIndex)
      ensures dst.writerIndex == old(dst.writerIndex) + n && dst.readerIndex == old(dst.readerIndex)
      ensures dst.data[..] == old(dst.data[..dst.writerIndex]) + data[old(readerIndex)..old(readerIndex) + n]
                              + old(dst.data[dst.writerIndex + n..])
    {
      var w := dst.writerIndex;
      forall k | 0 <= k < n {
        dst.data[w + k] := data[readerIndex + k];
      }
      assert dst.data[..] == old(dst.data[..w]) + data[readerIndex..readerIndex + n] + old(dst.data[w + n..]);
      readerIndex := readerIndex + n;
      dst.writerIndex := w + n;
    }
  }

  /** The big-endian word at `idx`, as `readInt` returns it. */
  function BigEndianWord(buf: Bytes, idx: nat): (r: bv32)
    requires idx + 4 <= |buf|
    ensures Utils.LittleEndianBytes(r) == [buf[idx + 3], buf[idx + 2], buf[idx + 1], buf[idx]]
  {
    (buf[idx] as bv32 << 24) | (buf[idx + 1] as bv32 << 16) | (buf[idx + 2] as bv32 << 8) | buf[idx + 3] as bv32
  }
}
