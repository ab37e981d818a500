/** Whole call sequences on one compressor, as the Compressor protocol
    drives it: setInput only when needsInput() would answer true, and reset
    with `end_of_stream` cleared. Over any such sequence no caller byte is
    lost, and the engine is told that the input is complete exactly when
    finish() was called since the last reset. */
module CompressorRuns {
  import opened JavaNio
  import opened IsalEngine
  import opened CompressorState
  import opened IsalCompressor

  /** One call a caller makes; `reply` is what the engine answers if a
      compress call reaches it. */
  datatype Call =
    | SetInputCall(b: seq<byte>, off: int, len: int)
    | NeedsInputCall
    | FinishCall
    | CompressCall(out: seq<byte>, off: int, len: int, reply: DeflateReply)
    | ResetCall

  /** The protocol's demands on a call in state c: setInput only once the
      previous caller view is used up and no window is kept (what
      needsInput() answering true guarantees), and an engine reply that
      respects what compress would offer. */
  predicate Allowed(c: Compressor, call: Call)
  {
    match call
    case SetInputCall(_, _, _) => c.userLen == 0 && c.uncompressedOff == 0
    case CompressCall(_, _, _, reply) => reply.Fits(CompressOffer(c))
    case _ => true
  }

  /** The compressor after one call. */
  function Apply(c: Compressor, call: Call): (r: Compressor)
    requires Valid(c) && Allowed(c, call)
    ensures Valid(r)
  {
    match call
    case SetInputCall(b, off, len) => SetInput(c, Some(b), off, len).state
    case NeedsInputCall => NeedsInput(c).0
    case FinishCall => Finish(c)
    case CompressCall(out, off, len, reply) => Compress(c, Some(out), off, len, reply).state
    case ResetCall => ResetClearingEndOfStream(c).state
  }

  /** The bytes a call hands to the compressor. */
  function Fed(call: Call): seq<byte>
  {
    match call
    case SetInputCall(b, off, len) => if InBounds(|b|, off, len) then b[off .. off + len] else []
    case _ => []
  }

  /** The bytes a call takes off the front of the stream owed to the
      engine: those the engine consumed, or all of them on a reset. */
  function Taken(c: Compressor, call: Call): seq<byte>
    requires Valid(c) && Allowed(c, call)
  {
    match call
    case CompressCall(out, off, len, reply) =>
      if InBounds(|out|, off, len) && c.compressedBuf.Remaining() == 0
      then Unconsumed(c)[..EngineConsumed(c, reply)] else []
    case ResetCall => if c.hasStream then Unconsumed(c) else []
    case _ => []
  }

  /** One call loses no byte: what it takes, followed by what is owed after
      it, is what was owed before it followed by what it hands in. */
  lemma StepLosesNothing(c: Compressor, call: Call)
    requires Valid(c) && Allowed(c, call)
    ensures Taken(c, call) + Unconsumed(Apply(c, call)) == Unconsumed(c) + Fed(call)
  {
    match call
    case SetInputCall(b, off, len) => SetInputLosesNothing(c, b, off, len);
    case NeedsInputCall =>
    case FinishCall =>
    case CompressCall(out, off, len, reply) => CompressLosesNothing(c, out, off, len, reply);
    case ResetCall =>
  }

  /** setInput between windows: afterwards the compressor owes what it owed
      before followed by the bytes it was handed. */
  lemma SetInputLosesNothing(c: Compressor, b: seq<byte>, off: int, len: int)
    requires Valid(c) && Allowed(c, SetInputCall(b, off, len))
    ensures Unconsumed(Apply(c, SetInputCall(b, off, len))) == Unconsumed(c) + Fed(SetInputCall(b, off, len))
  {
    if InBounds(|b|, off, len) {
      SetInputExtendsStream(c, b, off, len);
    }
  }

  /** compress(b, off, len): the bytes the engine consumed, then what is
      still owed, are what was owed before. */
  lemma CompressLosesNothing(c: Compressor, out: seq<byte>, off: int, len: int, reply: DeflateReply)
    requires Valid(c) && Allowed(c, CompressCall(out, off, len, reply))
    ensures var call := CompressCall(out, off, len, reply);
            Taken(c, call) + Unconsumed(Apply(c, call)) == Unconsumed(c)
  {
    CompressConsumesPrefix(c, Some(out), off, len, reply);
    var k := if InBounds(|out|, off, len) && c.compressedBuf.Remaining() == 0
             then EngineConsumed(c, reply) else 0;
    SplitAt(Unconsumed(c), k);
  }

  /** A whole sequence of calls respects the protocol. */
  predicate AllowedRun(c: Compressor, calls: seq<Call>)
    requires Valid(c)
    decreases |calls|
  {
    |calls| == 0 || (Allowed(c, calls[0]) && AllowedRun(Apply(c, calls[0]), calls[1..]))
  }

  /** The compressor after a sequence of calls. */
  function Run(c: Compressor, calls: seq<Call>): (r: Compressor)
    requires Valid(c) && AllowedRun(c, calls)
    ensures Valid(r)
    decreases |calls|
  {
    if |calls| == 0 then c else Run(Apply(c, calls[0]), calls[1..])
  }

  /** Everything a sequence of calls hands in. */
  function FedAll(calls: seq<Call>): seq<byte>
    decreases |calls|
  {
    if |calls| == 0 then [] else Fed(calls[0]) + FedAll(calls[1..])
  }

  /** Everything a sequence of calls takes off the stream. */
  function TakenAll(c: Compressor, calls: seq<Call>): seq<byte>
    requires Valid(c) && AllowedRun(c, calls)
    decreases |calls|
  {
    if |calls| == 0 then [] else Taken(c, calls[0]) + TakenAll(Apply(c, calls[0]), calls[1..])
  }

  /** No byte is lost over a whole run: every byte handed to setInput has
      been consumed by the engine or discarded by a reset, in order, or is
      still owed to the engine. */
  lemma {:induction false} RunLosesNothing(c: Compressor, calls: seq<Call>)
    requires Valid(c) && AllowedRun(c, calls)
    ensures TakenAll(c, calls) + Unconsumed(Run(c, calls)) == Unconsumed(c) + FedAll(calls)
    decreases |calls|
  {
    if |calls| > 0 {
      var c1, rest := Apply(c, calls[0]), calls[1..];
      StepLosesNothing(c, calls[0]);
      RunLosesNothing(c1, rest);
      assert TakenAll(c, calls) == Taken(c, calls[0]) + TakenAll(c1, rest);
      assert Run(c, calls) == Run(c1, rest);
      assert FedAll(calls) == Fed(calls[0]) + FedAll(rest);
      Regroup(Taken(c, calls[0]), TakenAll(c1, rest), Unconsumed(c1), Unconsumed(Run(c1, rest)),
              Unconsumed(c), Fed(calls[0]), FedAll(rest));
    }
  }

  /** `end_of_stream` is only ever set after finish(). */
  predicate EndFollowsFinish(c: Compressor)
  {
    c.endOfStream ==> c.finish
  }

  /** Every call keeps EndFollowsFinish. */
  lemma StepKeepsEndFollowsFinish(c: Compressor, call: Call)
    requires Valid(c) && Allowed(c, call) && EndFollowsFinish(c)
    ensures EndFollowsFinish(Apply(c, call))
  {
    match call
    case CompressCall(out, off, len, reply) =>
      if InBounds(|out|, off, len) && c.compressedBuf.Remaining() == 0 {
        EngineRoundEffects(c, reply);
      }
    case _ =>
  }

  /** Over a whole run from a state where it holds, every engine call is
      told that the input is complete exactly when finish() was called
      since the last reset. */
  lemma {:induction false} RunTellsEndOnlyAfterFinish(c: Compressor, calls: seq<Call>)
    requires Valid(c) && AllowedRun(c, calls) && EndFollowsFinish(c)
    ensures EndFollowsFinish(Run(c, calls))
    ensures CompressOffer(Run(c, calls)).endOfStream <==> Run(c, calls).finish
    decreases |calls|
  {
    if |calls| > 0 {
      StepKeepsEndFollowsFinish(c, calls[0]);
      RunTellsEndOnlyAfterFinish(Apply(c, calls[0]), calls[1..]);
    }
  }

  /** A fresh compressor satisfies EndFollowsFinish, so every run from it
      does. */
  lemma CreateStartsWithoutEnd(n: int)
    requires n >= 0
    ensures Create(n).Ok? && EndFollowsFinish(Create(n).value)
  {
  }
}
