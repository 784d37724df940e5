/**
 * The .NET streams the core writes to and reads from: a growable output stream
 * (`MemoryStream` or `FileStream` behind a `BinaryWriter`) and a `BinaryReader`
 * over an in-memory buffer, whose `position` each read advances.
 */
module Streams {
  import opened Bytes

  class OutputStream {
    /** Everything written so far. */
    var data: seq<byte>

    constructor ()
      ensures data == []
    {
      data := [];
    }

    /** `Stream.Write(buffer, 0, buffer.Length)`. */
    method Write(bytes: seq<byte>)
      modifies this
      ensures data == old(data) + bytes
    {
      data := data + bytes;
    }

    /** `Stream.Write(buffer, offset, count)`; the caller guarantees the range is inside the buffer. */
    method WriteRange(buffer: seq<byte>, offset: nat, count: nat)
      requires offset + count <= |buffer|
      modifies this
      ensures data == old(data) + buffer[offset..offset + count]
    {
      data := data + buffer[offset..offset + count];
    }

    /** `BinaryWriter.Write(int)`. */
    method WriteInt32(v: i32)
      modifies this
      ensures data == old(data) + LeI32(v)
    {
      data := data + LeI32(v);
    }

    /** `BinaryWriter.Write(uint)`. */
    method WriteUInt32(v: u32)
      modifies this
      ensures data == old(data) + LeU32(v)
    {
      data := data + LeU32(v);
    }

    /** `BinaryWriter.Write(char[])` for ASCII characters: one byte each. */
    method WriteChars(cs: seq<char>)
      requires forall k | 0 <= k < |cs| :: IsAscii(cs[k])
      modifies this
      ensures data == old(data) + AsciiEncode(cs)
    {
      data := data + AsciiEncode(cs);
    }
  }

  class BinaryReader {
    /** The `MemoryStream`'s buffer. */
    const buffer: seq<byte>
    /** `BaseStream.Position`. */
    var position: nat

    constructor (buffer: seq<byte>)
      ensures this.buffer == buffer && position == 0
    {
      this.buffer := buffer;
      position := 0;
    }

    method ReadInt32() returns (v: i32)
      requires position + 4 <= |buffer|
      modifies this
      ensures v == I32At(buffer, old(position)) && position == old(position) + 4
    {
      v := I32At(buffer, position);
      position := position + 4;
    }

    method ReadUInt32() returns (v: u32)
      requires position + 4 <= |buffer|
      modifies this
      ensures v == U32At(buffer, old(position)) && position == old(position) + 4
    {
      v := U32At(buffer, position);
      position := position + 4;
    }

    /** `ReadChars(n)` over ASCII bytes, which decode one character per byte. */
    method ReadChars(n: nat) returns (cs: seq<char>)
      requires position + n <= |buffer| && AsciiBytes(buffer[position..position + n])
      modifies this
      ensures cs == AsciiDecode(buffer[old(position)..old(position) + n])
      ensures position == old(position) + n
    {
      cs := AsciiDecode(buffer[position..position + n]);
      position := position + n;
    }
  }
}
