/** The fields of an IsalDecompressor and the invariants its operations keep.

    Three buffers are involved, as in the compressor but with the roles of
    the owned buffers swapped:
    - the caller view `userBuf[userOff .. userOff + userLen]`, compressed
      bytes handed to setInput that have not yet been copied in;
    - the pending buffer `compressedBuf`, filled from its start up to its
      position; the engine has not yet consumed the bytes
      `compressedOff .. compressedOff + compressedLen`;
    - the ready buffer `uncompressedBuf`, holding inflated bytes between
      its position and its limit that the caller has not yet collected. */
module DecompressorState {
  import opened JavaNio

  /** The fields of one IsalDecompressor. `hasStream` stands for
      `stream != 0`; `bufferSize` is `BufferSize`, the capacity both owned
      buffers were allocated with, and `directBufferSize` the field of that
      name, which equals it until a zero-copy call changes it;
      `engineAvailIn` is the engine's own `avail_in`, which the native
      getRemaining reports. */
  datatype Decompressor = Decompressor(
    hasStream: bool,
    bufferSize: nat,
    directBufferSize: nat,
    compressedBuf: Buffer,
    compressedOff: nat,
    compressedLen: nat,
    uncompressedBuf: Buffer,
    userBuf: seq<byte>,
    userOff: nat,
    userLen: nat,
    finished: bool,
    engineAvailIn: nat,
    bytesRead: int,
    bytesWritten: int)

  /** The shape every operation keeps: both owned buffers are direct and of
      the allocated size, the pending buffer is never cut short, the engine's
      window lies inside the filled part of the pending buffer, and the
      caller view lies inside its array. */
  predicate Valid(d: Decompressor)
  {
    && d.compressedBuf.Capacity() == d.bufferSize
    && d.uncompressedBuf.Capacity() == d.bufferSize
    && d.compressedBuf.limit == d.bufferSize
    && d.compressedBuf.direct && d.uncompressedBuf.direct
    && d.compressedOff + d.compressedLen <= d.compressedBuf.position
    && d.userOff + d.userLen <= |d.userBuf|
  }

  /** A valid decompressor whose `directBufferSize` still matches the
      buffers, as the constructor leaves it. */
  predicate Coherent(d: Decompressor)
  {
    Valid(d) && d.directBufferSize == d.bufferSize
  }

  /** The compressed bytes the engine has not consumed yet, in stream
      order: the pending window, then the rest of the caller view. */
  function Unconsumed(d: Decompressor): seq<byte>
    requires Valid(d)
  {
    d.compressedBuf.data[d.compressedOff .. d.compressedOff + d.compressedLen]
      + d.userBuf[d.userOff .. d.userOff + d.userLen]
  }
}
