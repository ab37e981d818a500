/** One call of the isa-l engine (isal_deflate / isal_inflate), seen from the
    JNI glue. The engine itself is not modelled: a call is described by the
    offer the glue makes and the reply the engine gives, and a reply is
    admissible when it respects the engine's own bounds on that offer. */
module IsalEngine {
  import opened JavaNio

  /** What the glue hands to the engine: `len` input bytes starting at `off`
      of the input buffer (`avail_in`, `next_in`), room for `capacity` output
      bytes at the start of the output buffer (`avail_out`, `next_out`), and
      the end-of-stream bit (deflate only). */
  datatype Offer = Offer(off: int, len: int, capacity: int, endOfStream: bool)

  /** isal_deflate return codes that the glue tells apart. */
  datatype DeflateStatus =
    | CompOk
    | InvalidFlush
    | InvalidLevel
    | OtherDeflateStatus(code: int)

  /** The observable effect of one isal_deflate call: its return code, the
      `avail_in` and `avail_out` it leaves, the bytes it wrote at `next_out`,
      and whether its internal state reached ZSTATE_END. */
  datatype DeflateReply = DeflateReply(
    status: DeflateStatus,
    availIn: int,
    availOut: int,
    output: seq<byte>,
    reachedEnd: bool)
  {
    /** isa-l never consumes more than offered, never writes more than the
        room given, writes exactly the bytes it accounts for, and only ends
        the stream when told that the input is complete. */
    predicate Fits(o: Offer)
    {
      && 0 <= availIn <= o.len
      && 0 <= availOut <= o.capacity
      && |output| == o.capacity - availOut
      && (reachedEnd ==> o.endOfStream)
    }
  }

  /** isal_inflate return codes that the glue tells apart. */
  datatype InflateStatus =
    | DecompOk
    | EndInput
    | OutOverflow
    | InvalidBlock
    | InvalidSymbol
    | InvalidLookback
    | OtherInflateStatus(code: int)

  /** The observable effect of one isal_inflate call; `blockFinished` is
      `block_state == ISAL_BLOCK_FINISH` after the call. */
  datatype InflateReply = InflateReply(
    status: InflateStatus,
    availIn: int,
    availOut: int,
    output: seq<byte>,
    blockFinished: bool)
  {
    /** The same bounds as for deflate; inflate ignores the end-of-stream bit. */
    predicate Fits(o: Offer)
    {
      && 0 <= availIn <= o.len
      && 0 <= availOut <= o.capacity
      && |output| == o.capacity - availOut
    }
  }
}
