/** IsalDecompressor.IsalDirectDecompressor: the zero-copy subclass. It adds
    the `endOfInput` flag, routes decompress(ByteBuffer, ByteBuffer) to
    inflateDirect, refuses the byte[] decompress and setDictionary, and
    inherits everything else, setInput included. */
module IsalDirectDecompressor {
  import opened JavaNio
  import opened IsalEngine
  import opened DecompressorState
  import IsalDecompressor

  /** The inherited fields plus `endOfInput`. */
  datatype DirectDecompressor = DirectDecompressor(base: Decompressor, endOfInput: bool)

  /** The implicit constructor: the superclass's default constructor (a
      buffer of DEFAULT_DIRECT_BUFFER_SIZE bytes), and `endOfInput` false. */
  function Create(): (x: DirectDecompressor)
    ensures Coherent(x.base) && x.base.hasStream
    ensures x.base.bufferSize == IsalDecompressor.DefaultDirectBufferSize
    ensures !x.endOfInput && !Finished(x)
  {
    DirectDecompressor(IsalDecompressor.CreateDefault(), false)
  }

  /** finished(): the caller has reached the end of its input and the
      inherited finished() holds. */
  predicate Finished(x: DirectDecompressor)
  {
    x.endOfInput && IsalDecompressor.Finished(x.base)
  }

  /** The outcome of decompress(src, dst): the decompressor and the caller's
      two buffers afterwards. */
  datatype DirectRun = DirectRun(dec: DirectDecompressor, src: Buffer, dst: Buffer)

  /** decompress(src, dst): one inflateDirect call; when it returns,
      `endOfInput` records whether `src` was used up, and when it throws
      the flag stays as it was. */
  function Decompress(x: DirectDecompressor, src: Buffer, dst: Buffer, reply: InflateReply)
    : (s: Step<DirectRun, ()>)
    requires Valid(x.base) && dst.direct
    requires reply.Fits(IsalDecompressor.InflateOffer(IsalDecompressor.DirectTemp(x.base, src, dst)))
    ensures var w := IsalDecompressor.InflateDirect(x.base, src, dst, reply);
            && s.state.dec.base == w.state.dec && s.state.src == w.state.src && s.state.dst == w.state.dst
            && (s.result.Thrown? <==> w.result.Thrown?)
            && (w.result.Thrown? ==> s.result == Thrown(w.result.exception))
    ensures s.result.Ok? ==> (s.state.dec.endOfInput <==> !s.state.src.HasRemaining())
    ensures s.result.Thrown? ==> s.state.dec.endOfInput == x.endOfInput
  {
    var w := IsalDecompressor.InflateDirect(x.base, src, dst, reply);
    match w.result
    case Thrown(e) => Step(DirectRun(x.(base := w.state.dec), w.state.src, w.state.dst), Thrown(e))
    case Ok(_) =>
      Step(DirectRun(DirectDecompressor(w.state.dec, !w.state.src.HasRemaining()), w.state.src, w.state.dst),
           Ok(()))
  }

  /** After a decompress(src, dst) that returns, `endOfInput` holds exactly
      when the engine took every byte `src` offered. */
  lemma EndOfInputMeansSourceConsumed(x: DirectDecompressor, src: Buffer, dst: Buffer, reply: InflateReply)
    requires Valid(x.base) && dst.direct
    requires reply.Fits(IsalDecompressor.InflateOffer(IsalDecompressor.DirectTemp(x.base, src, dst)))
    ensures var s := Decompress(x, src, dst, reply);
            var t := IsalDecompressor.DirectTemp(x.base, src, dst);
            s.result.Ok? ==>
              (s.state.dec.endOfInput <==> IsalDecompressor.InflateConsumed(t, reply) == src.Remaining())
  {
  }

  /** After a decompress(src, dst) that returns, the direct decompressor is
      finished exactly when the engine took all of `src`, the final block
      has been seen (in this call or before), and the owned ready buffer,
      which the call leaves alone, holds nothing. */
  lemma FinishedNeedsSourceAndFinalBlock(x: DirectDecompressor, src: Buffer, dst: Buffer, reply: InflateReply)
    requires Valid(x.base) && dst.direct
    requires reply.Fits(IsalDecompressor.InflateOffer(IsalDecompressor.DirectTemp(x.base, src, dst)))
    ensures var s := Decompress(x, src, dst, reply);
            var t := IsalDecompressor.DirectTemp(x.base, src, dst);
            s.result.Ok? ==>
              (Finished(s.state.dec) <==>
                 && IsalDecompressor.InflateConsumed(t, reply) == src.Remaining()
                 && (x.base.finished || (IsalDecompressor.EngineRuns(t) && reply.blockFinished))
                 && x.base.uncompressedBuf.Remaining() == 0)
  {
    var t := IsalDecompressor.DirectTemp(x.base, src, dst);
    var e := IsalDecompressor.InflateBytesDirect(t, reply);
    assert IsalDecompressor.InflateDirect(x.base, src, dst, reply).state.dec.finished == e.state.finished;
  }

  /** The leak of `directBufferSize` through the public API: a direct
      decompressor with its 64 KiB buffers (as Create() builds it), one
      decompress(src, dst) from an empty direct source into a direct
      destination with more than 65536 bytes of room, answered by an engine
      that inflates nothing, and reset() then throws
      IllegalArgumentException. */
  lemma LargeDestinationBreaksReset(x: DirectDecompressor, src: Buffer, dst: Buffer)
    requires Coherent(x.base) && x.base.hasStream
    requires x.base.bufferSize == IsalDecompressor.DefaultDirectBufferSize
    requires src.data == [] && src.position == 0 && src.limit == 0 && src.direct
    requires dst.direct && dst.Remaining() > IsalDecompressor.DefaultDirectBufferSize
    ensures var reply := InflateReply(DecompOk, 0, dst.Remaining(), [], false);
            && reply.Fits(IsalDecompressor.InflateOffer(IsalDecompressor.DirectTemp(x.base, src, dst)))
            && Reset(Decompress(x, src, dst, reply).state.dec).result == Thrown(IllegalArgumentException)
  {
    var reply := InflateReply(DecompOk, 0, dst.Remaining(), [], false);
    assert IsalDecompressor.InflateOffer(IsalDecompressor.DirectTemp(x.base, src, dst))
           == Offer(0, 0, dst.Remaining(), false);
    IsalDecompressor.DirectCallLeaksBufferSize(x.base, src, dst, reply, [], 0, 0, reply);
  }

  /** reset(): the inherited reset, then `endOfInput` becomes true; when the
      inherited reset throws, the flag is not reached. */
  function Reset(x: DirectDecompressor): (s: Step<DirectDecompressor, ()>)
    requires Valid(x.base)
    ensures s.state.base == IsalDecompressor.Reset(x.base).state
    ensures s.result == IsalDecompressor.Reset(x.base).result
    ensures s.state.endOfInput == (s.result.Ok? || x.endOfInput)
  {
    var r := IsalDecompressor.Reset(x.base);
    Step(DirectDecompressor(r.state, r.result.Ok? || x.endOfInput), r.result)
  }

  /** A successful reset leaves a direct decompressor that is not finished,
      since the inherited reset empties the ready buffer and clears the
      engine's finished flag. */
  lemma ResetIsNotFinished(x: DirectDecompressor)
    requires Valid(x.base)
    ensures Reset(x).result.Ok? ==> Reset(x).state.endOfInput && !Finished(Reset(x).state)
  {
  }

  /** The inherited setInput(b, off, len), acting on the superclass's fields
      only. */
  function SetInput(x: DirectDecompressor, b: Option<seq<byte>>, off: int, len: int)
    : (s: Step<DirectDecompressor, ()>)
    requires Valid(x.base)
    ensures s.state.endOfInput == x.endOfInput
    ensures s.state.base == IsalDecompressor.SetInput(x.base, b, off, len).state
    ensures s.result == IsalDecompressor.SetInput(x.base, b, off, len).result
  {
    var r := IsalDecompressor.SetInput(x.base, b, off, len);
    Step(x.(base := r.state), r.result)
  }

  /** decompress(byte[], int, int): always UnsupportedOperationException,
      with nothing changed. */
  function DecompressArray(x: DirectDecompressor, b: Option<seq<byte>>, off: int, len: int)
    : (s: Step<DirectDecompressor, int>)
    ensures s == Step(x, Thrown(UnsupportedOperationException))
  {
    Step(x, Thrown(UnsupportedOperationException))
  }

  /** setDictionary(byte[], int, int): always UnsupportedOperationException,
      with nothing changed. */
  function SetDictionary(x: DirectDecompressor, b: Option<seq<byte>>, off: int, len: int)
    : (s: Step<DirectDecompressor, ()>)
    ensures s == Step(x, Thrown(UnsupportedOperationException))
  {
    Step(x, Thrown(UnsupportedOperationException))
  }
}
