/** Whole call sequences on one decompressor, as the Decompressor protocol
    drives it: setInput only when needsInput() would answer true, and
    zero-copy calls with `directBufferSize` restored. Over any such sequence
    the decompressor stays coherent, so no buffer-cursor exception is ever
    thrown, and no compressed byte is lost. */
module DecompressorRuns {
  import opened JavaNio
  import opened IsalEngine
  import opened DecompressorState
  import opened IsalDecompressor

  /** One call a caller makes; `reply` is what the engine answers if the
      call reaches it. */
  datatype Call =
    | SetInputCall(b: seq<byte>, off: int, len: int)
    | NeedsInputCall
    | DecompressCall(out: seq<byte>, off: int, len: int, reply: InflateReply)
    | ResetCall
    | ZeroCopyCall(src: Buffer, dst: Buffer, reply: InflateReply)

  /** The protocol's demands on a call in state d: setInput only once the
      window and the previous caller view are used up (what needsInput()
      answering true guarantees), a direct output buffer for a zero-copy
      call, and an engine reply that respects what the call would offer. */
  predicate Allowed(d: Decompressor, call: Call)
  {
    match call
    case SetInputCall(_, _, _) => d.compressedLen == 0 && d.userLen == 0
    case DecompressCall(_, _, _, reply) => reply.Fits(InflateOffer(d))
    case ZeroCopyCall(src, dst, reply) => dst.direct && reply.Fits(InflateOffer(DirectTemp(d, src, dst)))
    case _ => true
  }

  /** The decompressor after one call; every call keeps it coherent. */
  function Apply(d: Decompressor, call: Call): (r: Decompressor)
    requires Coherent(d) && Allowed(d, call)
    ensures Coherent(r)
  {
    match call
    case SetInputCall(b, off, len) =>
      CoherentCursorsNeverThrow(d, Some(b), off, len);
      SetInput(d, Some(b), off, len).state
    case NeedsInputCall =>
      CoherentCursorsNeverThrow(d, None, 0, 0);
      NeedsInput(d).state
    case DecompressCall(out, off, len, reply) =>
      DecompressKeepsCoherent(d, Some(out), off, len, reply);
      Decompress(d, Some(out), off, len, reply).state
    case ResetCall =>
      CoherentCursorsNeverThrow(d, None, 0, 0);
      Reset(d).state
    case ZeroCopyCall(src, dst, reply) => InflateDirectRestoring(d, src, dst, reply).state.dec
  }

  /** A call's outcome is not a buffer-cursor exception: whatever it threw
      came from the arguments, the stream handle or the engine. */
  predicate NoCursorException<T>(r: Result<T>)
  {
    r.Thrown? ==> r.exception != IllegalArgumentException && r.exception != BufferOverflowException
  }

  /** What one call returns or throws, with its value forgotten. */
  function Outcome(d: Decompressor, call: Call): Result<()>
    requires Coherent(d) && Allowed(d, call)
  {
    match call
    case SetInputCall(b, off, len) => SetInput(d, Some(b), off, len).result
    case NeedsInputCall => Forget(NeedsInput(d).result)
    case DecompressCall(out, off, len, reply) => Forget(Decompress(d, Some(out), off, len, reply).result)
    case ResetCall => Reset(d).result
    case ZeroCopyCall(src, dst, reply) => Forget(InflateDirectRestoring(d, src, dst, reply).result)
  }

  /** A result with its value dropped. */
  function Forget<T>(r: Result<T>): Result<()>
  {
    if r.Ok? then Ok(()) else Thrown(r.exception)
  }

  /** The bytes a call hands to the decompressor. */
  function Fed(call: Call): seq<byte>
  {
    match call
    case SetInputCall(b, off, len) => if InBounds(|b|, off, len) then b[off .. off + len] else []
    case _ => []
  }

  /** The bytes a call takes off the front of the stream owed to the
      engine: those the engine consumed, all of them on a reset, and the
      pending window on a zero-copy call. */
  function Taken(d: Decompressor, call: Call): seq<byte>
    requires Coherent(d) && Allowed(d, call)
  {
    match call
    case DecompressCall(out, off, len, reply) =>
      if InBounds(|out|, off, len) && d.uncompressedBuf.Remaining() == 0
      then Unconsumed(d)[..InflateConsumed(d, reply)] else []
    case ResetCall => if d.hasStream then Unconsumed(d) else []
    case ZeroCopyCall(_, _, _) => Unconsumed(d)[..d.compressedLen]
    case _ => []
  }

  /** One call throws no buffer-cursor exception. */
  lemma StepIsClean(d: Decompressor, call: Call)
    requires Coherent(d) && Allowed(d, call)
    ensures NoCursorException(Outcome(d, call))
  {
    match call
    case SetInputCall(b, off, len) =>
      CoherentCursorsNeverThrow(d, Some(b), off, len);
    case NeedsInputCall =>
      CoherentCursorsNeverThrow(d, None, 0, 0);
    case DecompressCall(out, off, len, reply) =>
      InflateRoundEffects(d, reply);
    case ResetCall =>
      CoherentCursorsNeverThrow(d, None, 0, 0);
    case ZeroCopyCall(src, dst, reply) =>
  }

  /** One call loses no byte: what it takes, followed by what is owed after
      it, is what was owed before it followed by what it hands in. */
  lemma StepLosesNothing(d: Decompressor, call: Call)
    requires Coherent(d) && Allowed(d, call)
    ensures Taken(d, call) + Unconsumed(Apply(d, call)) == Unconsumed(d) + Fed(call)
  {
    match call
    case SetInputCall(b, off, len) => SetInputLosesNothing(d, b, off, len);
    case NeedsInputCall =>
      CoherentCursorsNeverThrow(d, None, 0, 0);
      NeedsInputKeepsStream(d);
    case DecompressCall(out, off, len, reply) => DecompressLosesNothing(d, out, off, len, reply);
    case ResetCall =>
      CoherentCursorsNeverThrow(d, None, 0, 0);
    case ZeroCopyCall(src, dst, reply) => DirectLosesNothing(d, src, dst, reply);
  }

  /** setInput between windows: nothing is owed before it, and afterwards
      exactly the bytes it was handed. */
  lemma SetInputLosesNothing(d: Decompressor, b: seq<byte>, off: int, len: int)
    requires Coherent(d) && Allowed(d, SetInputCall(b, off, len))
    ensures Unconsumed(Apply(d, SetInputCall(b, off, len))) == Unconsumed(d) + Fed(SetInputCall(b, off, len))
  {
    CoherentCursorsNeverThrow(d, Some(b), off, len);
    if InBounds(|b|, off, len) {
      SetInputReplacesStream(d, b, off, len);
    }
  }

  /** decompress(b, off, len): the bytes the engine consumed, then what is
      still owed, are what was owed before. */
  lemma DecompressLosesNothing(d: Decompressor, out: seq<byte>, off: int, len: int, reply: InflateReply)
    requires Coherent(d) && Allowed(d, DecompressCall(out, off, len, reply))
    ensures var call := DecompressCall(out, off, len, reply);
            Taken(d, call) + Unconsumed(Apply(d, call)) == Unconsumed(d)
  {
    DecompressConsumesPrefix(d, Some(out), off, len, reply);
    var k := if InBounds(|out|, off, len) && d.uncompressedBuf.Remaining() == 0
             then InflateConsumed(d, reply) else 0;
    SplitAt(Unconsumed(d), k);
  }

  /** A zero-copy call: the pending window it drops, then what is still
      owed, are what was owed before. */
  lemma DirectLosesNothing(d: Decompressor, src: Buffer, dst: Buffer, reply: InflateReply)
    requires Coherent(d) && Allowed(d, ZeroCopyCall(src, dst, reply))
    ensures var call := ZeroCopyCall(src, dst, reply);
            Taken(d, call) + Unconsumed(Apply(d, call)) == Unconsumed(d)
  {
    DirectCallDropsWindow(d, src, dst, reply);
    SplitAt(Unconsumed(d), d.compressedLen);
  }

  /** A whole sequence of calls respects the protocol. */
  predicate AllowedRun(d: Decompressor, calls: seq<Call>)
    requires Coherent(d)
    decreases |calls|
  {
    |calls| == 0 || (Allowed(d, calls[0]) && AllowedRun(Apply(d, calls[0]), calls[1..]))
  }

  /** The decompressor after a sequence of calls, still coherent. */
  function Run(d: Decompressor, calls: seq<Call>): (r: Decompressor)
    requires Coherent(d) && AllowedRun(d, calls)
    ensures Coherent(r)
    decreases |calls|
  {
    if |calls| == 0 then d else Run(Apply(d, calls[0]), calls[1..])
  }

  /** Everything a sequence of calls hands in. */
  function FedAll(calls: seq<Call>): seq<byte>
    decreases |calls|
  {
    if |calls| == 0 then [] else Fed(calls[0]) + FedAll(calls[1..])
  }

  /** Everything a sequence of calls takes off the stream. */
  function TakenAll(d: Decompressor, calls: seq<Call>): seq<byte>
    requires Coherent(d) && AllowedRun(d, calls)
    decreases |calls|
  {
    if |calls| == 0 then [] else Taken(d, calls[0]) + TakenAll(Apply(d, calls[0]), calls[1..])
  }

  /** No byte is lost over a whole run: every byte handed to setInput has
      been consumed by the engine, or discarded by a reset or a zero-copy
      call, in order, or is still owed to the engine. */
  lemma {:induction false} RunLosesNothing(d: Decompressor, calls: seq<Call>)
    requires Coherent(d) && AllowedRun(d, calls)
    ensures TakenAll(d, calls) + Unconsumed(Run(d, calls)) == Unconsumed(d) + FedAll(calls)
    decreases |calls|
  {
    if |calls| > 0 {
      var d1, rest := Apply(d, calls[0]), calls[1..];
      StepLosesNothing(d, calls[0]);
      RunLosesNothing(d1, rest);
      assert TakenAll(d, calls) == Taken(d, calls[0]) + TakenAll(d1, rest);
      assert Run(d, calls) == Run(d1, rest);
      assert FedAll(calls) == Fed(calls[0]) + FedAll(rest);
      Regroup(Taken(d, calls[0]), TakenAll(d1, rest), Unconsumed(d1), Unconsumed(Run(d1, rest)),
              Unconsumed(d), Fed(calls[0]), FedAll(rest));
    }
  }

  /** No call of a run throws a buffer-cursor exception. */
  predicate CleanRun(d: Decompressor, calls: seq<Call>)
    requires Coherent(d) && AllowedRun(d, calls)
    decreases |calls|
  {
    |calls| == 0
    || (NoCursorException(Outcome(d, calls[0])) && CleanRun(Apply(d, calls[0]), calls[1..]))
  }

  /** From a coherent decompressor, such as a fresh one, no protocol-abiding
      run ever throws IllegalArgumentException or BufferOverflowException. */
  lemma {:induction false} RunNeverThrowsOnCursors(d: Decompressor, calls: seq<Call>)
    requires Coherent(d) && AllowedRun(d, calls)
    ensures CleanRun(d, calls)
    decreases |calls|
  {
    if |calls| > 0 {
      StepIsClean(d, calls[0]);
      RunNeverThrowsOnCursors(Apply(d, calls[0]), calls[1..]);
    }
  }
}
