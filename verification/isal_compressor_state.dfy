/** The fields of an IsalCompressor and the invariant its operations keep.

    Three buffers are involved:
    - the caller view `userBuf[userOff .. userOff + userLen]`, bytes handed
      to setInput that have not yet been copied in;
    - the pending buffer `uncompressedBuf`, filled from its start up to its
      position; the engine has not yet consumed the bytes
      `uncompressedOff .. uncompressedOff + uncompressedLen`;
    - the ready buffer `compressedBuf`, holding engine output between its
      position and its limit that the caller has not yet collected. */
module CompressorState {
  import opened JavaNio

  /** The fields of one IsalCompressor. `hasStream` stands for `stream != 0`;
      `bufferSize` is both `BufferSize` and `directBufferSize`, which the
      compressor never lets differ; `endOfStream` is the int field
      `end_of_stream`, which only ever holds 0 or 1. */
  datatype Compressor = Compressor(
    hasStream: bool,
    bufferSize: nat,
    compressedBuf: Buffer,
    uncompressedBuf: Buffer,
    uncompressedOff: nat,
    uncompressedLen: nat,
    userBuf: seq<byte>,
    userOff: nat,
    userLen: nat,
    finish: bool,
    finished: bool,
    keepUncompressedBuf: bool,
    endOfStream: bool,
    bytesRead: int,
    bytesWritten: int)

  /** Buffer sizes and the caller view's bounds, which every field
      assignment keeps. */
  predicate Shaped(c: Compressor)
  {
    && c.compressedBuf.Capacity() == c.bufferSize
    && c.uncompressedBuf.Capacity() == c.bufferSize
    && c.uncompressedBuf.limit == c.bufferSize
    && c.userOff + c.userLen <= |c.userBuf|
  }

  /** The invariant of every compressor a caller can hold: the engine's window
      ends exactly at the pending fill position, a window that no longer
      starts at 0 is being kept for the engine, and the engine only reports
      the end of the stream after it was told the input is complete. */
  predicate Valid(c: Compressor)
  {
    && Shaped(c)
    && c.uncompressedOff + c.uncompressedLen == c.uncompressedBuf.position
    && (c.uncompressedOff > 0 ==> c.keepUncompressedBuf && c.uncompressedLen > 0)
    && (c.finished ==> c.endOfStream)
  }

  /** The caller's bytes that the engine has not consumed yet, in stream
      order: the pending window, then the rest of the caller view. */
  function Unconsumed(c: Compressor): seq<byte>
    requires Valid(c)
  {
    c.uncompressedBuf.data[c.uncompressedOff .. c.uncompressedOff + c.uncompressedLen]
      + c.userBuf[c.userOff .. c.userOff + c.userLen]
  }

}
