/** The operations of IsalDecompressor.java together with its native step
    inflateBytesDirect and getRemaining of IsalDecompressor.c, as
    transitions of the state described in module DecompressorState. */
module IsalDecompressor {
  import opened JavaNio
  import opened IsalEngine
  import opened DecompressorState

  /** DEFAULT_DIRECT_BUFFER_SIZE. */
  const DefaultDirectBufferSize: nat := 64 * 1024

  /** The constructor IsalDecompressor(gzipFlag, directBufferSize): both
      buffers are allocated direct, and the ready buffer starts with its
      position at its end so that it reads as empty. The engine state is
      zero-filled, so its `avail_in` starts at 0. */
  function Create(directBufferSize: int): (r: Result<Decompressor>)
    ensures r.Thrown? <==> directBufferSize < 0
    ensures r.Thrown? ==> r.exception == IllegalArgumentException
    ensures r.Ok? ==> && Coherent(r.value) && r.value.hasStream
                      && r.value.bufferSize == directBufferSize
                      && r.value.uncompressedBuf.Remaining() == 0
                      && Unconsumed(r.value) == [] && r.value.engineAvailIn == 0
                      && !Finished(r.value)
  {
    if directBufferSize < 0 then Thrown(IllegalArgumentException)
    else
      var pending := ByteBuffer.AllocateDirect(directBufferSize);
      var ready := ByteBuffer.AllocateDirect(directBufferSize);
      Ok(Decompressor(true, directBufferSize, directBufferSize, pending, 0, 0,
                      ready.(position := directBufferSize), [], 0, 0, false, 0, 0, 0))
  }

  /** The default constructor IsalDecompressor(): DEFAULT_DIRECT_BUFFER_SIZE
      bytes per buffer; a fresh decompressor asks for input and owes the
      engine nothing. */
  function CreateDefault(): (d: Decompressor)
    ensures Coherent(d) && d.hasStream && d.bufferSize == DefaultDirectBufferSize
    ensures NeedsInput(d) == Step(d, Ok(true)) && GetRemaining(d) == Ok(0) && !Finished(d)
  {
    FreshNeedsInput(DefaultDirectBufferSize);
    Create(DefaultDirectBufferSize).value
  }

  /** A decompressor fresh from the constructor, with a buffer of any
      positive size, asks for input and owes the engine nothing. */
  lemma FreshNeedsInput(n: int)
    requires n > 0
    ensures var d := Create(n).value;
            Create(n).Ok? && NeedsInput(d) == Step(d, Ok(true)) && GetRemaining(d) == Ok(0)
  {
  }

  /** checkStream(): a NullPointerException once the stream is gone. */
  function CheckStream(d: Decompressor): (r: Result<()>)
    ensures r.Thrown? <==> !d.hasStream
    ensures r.Thrown? ==> r.exception == NullPointerException
  {
    if d.hasStream then Ok(()) else Thrown(NullPointerException)
  }

  /** setInputFromSavedData(): the pending buffer is rewound and refilled
      from its start with up to `directBufferSize` bytes of the caller view;
      whatever window was there before is dropped. The window fields are
      set before the copy, so when `directBufferSize` exceeds the pending
      buffer's capacity and the caller view is longer than that capacity,
      the put throws BufferOverflowException after they were written. */
  function SetInputFromSavedData(d: Decompressor): (s: Step<Decompressor, ()>)
    requires Valid(d)
    ensures s.result.Thrown? <==> Min(d.userLen, d.directBufferSize) > d.bufferSize
    ensures s.result.Thrown? ==> s.result.exception == BufferOverflowException
    ensures var k := Min(d.userLen, d.directBufferSize);
            && s.state.compressedOff == 0 && s.state.compressedLen == k
            && s.state.compressedBuf.position == (if s.result.Ok? then k else 0)
            && (s.result.Ok? ==> s.state.userOff == d.userOff + k && s.state.userLen == d.userLen - k)
    ensures s.result.Ok? ==> Valid(s.state)
    ensures s.state == d.(compressedBuf := s.state.compressedBuf, compressedOff := 0,
                          compressedLen := s.state.compressedLen,
                          userOff := s.state.userOff, userLen := s.state.userLen)
  {
    var k := Min(d.userLen, d.directBufferSize);
    var rewound := d.compressedBuf.Rewind();
    var d1 := d.(compressedOff := 0, compressedLen := k, compressedBuf := rewound);
    if k > rewound.Remaining() then Step(d1, Thrown(BufferOverflowException))
    else
      Step(d1.(compressedBuf := rewound.Put(d.userBuf, d.userOff, k),
               userOff := d.userOff + k, userLen := d.userLen - k),
           Ok(()))
  }

  /** What a successful setInputFromSavedData owes the engine: the bytes of
      the caller view it has not handed out yet, with the refilled window
      in front. */
  lemma SavedDataOwesView(d: Decompressor)
    requires Valid(d)
    ensures var s := SetInputFromSavedData(d);
            s.result.Ok? ==> Unconsumed(s.state) == d.userBuf[d.userOff .. d.userOff + d.userLen]
  {
    var s := SetInputFromSavedData(d);
    if s.result.Ok? {
      var k := s.state.compressedLen;
      var u := d.userBuf[d.userOff .. d.userOff + d.userLen];
      assert s.state.compressedBuf.data[0 .. k] == d.userBuf[d.userOff .. d.userOff + k];
      assert u == d.userBuf[d.userOff .. d.userOff + k] + d.userBuf[d.userOff + k .. d.userOff + d.userLen];
    }
  }

  /** setInput(b, off, len): the new array becomes the caller view, its
      start is loaded into the pending buffer, and the ready buffer is
      emptied at `directBufferSize`. The only exceptions after the argument
      checks come from a `directBufferSize` larger than the buffers: the
      refill's BufferOverflowException or the ready buffer's
      IllegalArgumentException. */
  function SetInput(d: Decompressor, b: Option<seq<byte>>, off: int, len: int): (s: Step<Decompressor, ()>)
    requires Valid(d)
    ensures b.None? ==> s == Step(d, Thrown(NullPointerException))
    ensures b.Some? && !InBounds(|b.value|, off, len) ==> s == Step(d, Thrown(ArrayIndexOutOfBoundsException))
    ensures ArgsOk(b, off, len) ==> (s.result.Thrown? <==> d.directBufferSize > d.bufferSize)
    ensures ArgsOk(b, off, len) && s.result.Thrown? ==>
              s.result.exception == (if Min(len, d.directBufferSize) > d.bufferSize
                                     then BufferOverflowException else IllegalArgumentException)
    ensures s.result != Thrown(BufferOverflowException) ==> Valid(s.state)
    ensures ArgsOk(b, off, len) && s.result.Ok? ==>
              var k := Min(len, d.directBufferSize);
              && s.state == d.(compressedBuf := s.state.compressedBuf, compressedOff := 0, compressedLen := k,
                               uncompressedBuf := d.uncompressedBuf.EmptyAt(d.directBufferSize),
                               userBuf := b.value, userOff := off + k, userLen := len - k,
                               bytesRead := d.bytesRead + len)
  {
    if b.None? then Step(d, Thrown(NullPointerException))
    else if !InBounds(|b.value|, off, len) then Step(d, Thrown(ArrayIndexOutOfBoundsException))
    else
      var e := SetInputFromSavedData(d.(userBuf := b.value, userOff := off, userLen := len));
      if e.result.Thrown? then e
      else
        var d2 := e.state.(bytesRead := e.state.bytesRead + len);
        match d2.uncompressedBuf.SetLimit(d2.directBufferSize)
        case Thrown(x) => Step(d2, Thrown(x))
        case Ok(u) => Step(d2.(uncompressedBuf := u.EmptyAt(d2.directBufferSize)), Ok(()))
  }

  /** Two decompressors with the same pending bytes, window and caller
      view owe the engine the same stream. */
  lemma SameStream(a: Decompressor, b: Decompressor)
    requires Valid(a) && Valid(b)
    requires a.compressedBuf.data == b.compressedBuf.data
    requires a.compressedOff == b.compressedOff && a.compressedLen == b.compressedLen
    requires a.userBuf == b.userBuf && a.userOff == b.userOff && a.userLen == b.userLen
    ensures Unconsumed(a) == Unconsumed(b)
  {
  }

  /** setInput replaces the stream owed to the engine by the new bytes:
      the old window and the rest of the old caller view are dropped, so
      when both were used up (which is what needsInput() answering true
      guarantees) nothing is lost and the new bytes follow the old stream. */
  lemma SetInputReplacesStream(d: Decompressor, b: seq<byte>, off: int, len: int)
    requires Valid(d) && InBounds(|b|, off, len)
    ensures var s := SetInput(d, Some(b), off, len);
            s.result.Ok? ==> Unconsumed(s.state) == b[off .. off + len]
    ensures var s := SetInput(d, Some(b), off, len);
            s.result.Ok? && d.compressedLen == 0 && d.userLen == 0 ==>
              Unconsumed(s.state) == Unconsumed(d) + b[off .. off + len]
  {
    var s := SetInput(d, Some(b), off, len);
    if s.result.Ok? {
      var d1 := d.(userBuf := b, userOff := off, userLen := len);
      var e := SetInputFromSavedData(d1);
      assert e.result.Ok? && s.state.compressedBuf == e.state.compressedBuf;
      assert s.state.userOff == e.state.userOff && s.state.userLen == e.state.userLen;
      SavedDataOwesView(d1);
      SameStream(s.state, e.state);
      if d.compressedLen == 0 && d.userLen == 0 {
        assert Unconsumed(d) == [];
      }
    }
  }

  /** needsInput(): answers whether the caller should supply more input,
      refilling the pending buffer from the caller view once the engine
      has consumed it. */
  function NeedsInput(d: Decompressor): (s: Step<Decompressor, bool>)
    requires Valid(d)
    ensures s.result == Ok(true) <==>
              d.uncompressedBuf.Remaining() == 0 && d.compressedLen == 0 && d.userLen == 0
    ensures s.result.Thrown? <==>
              && d.uncompressedBuf.Remaining() == 0 && d.compressedLen == 0 && d.userLen > 0
              && Min(d.userLen, d.directBufferSize) > d.bufferSize
    ensures s.result.Thrown? ==> s.result.exception == BufferOverflowException
    ensures d.uncompressedBuf.Remaining() > 0 || d.compressedLen > 0 ==> s == Step(d, Ok(false))
    ensures s.result.Ok? ==> Valid(s.state)
    ensures s.result == Ok(false) && d.uncompressedBuf.Remaining() == 0 && d.compressedLen == 0 ==>
              s.state.compressedLen == Min(d.userLen, d.directBufferSize)
              && s.state.userLen == d.userLen - s.state.compressedLen
  {
    if d.uncompressedBuf.Remaining() > 0 then Step(d, Ok(false))
    else if d.compressedLen <= 0 then
      if d.userLen <= 0 then Step(d, Ok(true))
      else
        var e := SetInputFromSavedData(d);
        if e.result.Thrown? then Step(e.state, Thrown(e.result.exception)) else Step(e.state, Ok(false))
    else Step(d, Ok(false))
  }

  /** needsInput() moves bytes from the caller view into the pending
      buffer but loses none: when it returns, the stream owed to the engine
      is the one owed before. */
  lemma NeedsInputKeepsStream(d: Decompressor)
    requires Valid(d)
    ensures NeedsInput(d).result.Ok? ==> Unconsumed(NeedsInput(d).state) == Unconsumed(d)
  {
    if d.uncompressedBuf.Remaining() == 0 && d.compressedLen == 0 && d.userLen > 0 {
      SavedDataOwesView(d);
      assert Unconsumed(d) == d.userBuf[d.userOff .. d.userOff + d.userLen];
    }
  }

  /** finished(): the engine has reported the final block and every
      inflated byte has been collected. */
  predicate Finished(d: Decompressor)
  {
    d.finished && d.uncompressedBuf.Remaining() == 0
  }

  /** finished() turns true exactly on the decompress call that hands out
      the last waiting byte after the engine reported the final block, and
      not while any such byte is still waiting. */
  lemma FinishedOnceDrained(d: Decompressor, b: seq<byte>, off: int, len: int, reply: InflateReply)
    requires Valid(d) && reply.Fits(InflateOffer(d)) && InBounds(|b|, off, len)
    requires d.finished && d.uncompressedBuf.Remaining() > 0
    ensures !Finished(d)
    ensures Finished(Decompress(d, Some(b), off, len, reply).state) <==> len >= d.uncompressedBuf.Remaining()
  {
  }

  /** What inflateBytesDirect offers isal_inflate in state d. */
  function InflateOffer(d: Decompressor): Offer
  {
    Offer(d.compressedOff, d.compressedLen, d.directBufferSize, false)
  }

  /** isal_inflate really runs: the stream is live, the input buffer has a
      native address, and the output room fits the output buffer. */
  predicate EngineRuns(d: Decompressor)
  {
    d.hasStream && d.compressedBuf.direct && d.directBufferSize <= d.uncompressedBuf.Capacity()
  }

  /** The isal_inflate return codes that inflateBytesDirect turns into an
      IOException. */
  predicate InflateError(status: InflateStatus)
  {
    status.OutOverflow? || status.InvalidBlock? || status.InvalidSymbol? || status.InvalidLookback?
  }

  /** The message of that IOException: the name of the return code. */
  function ErrorMessage(status: InflateStatus): string
  {
    match status
    case OutOverflow => "ISAL_OUT_OVERFLOW"
    case InvalidBlock => "ISAL_INVALID_BLOCK"
    case InvalidSymbol => "ISAL_INVALID_SYMBOL"
    case InvalidLookback => "ISAL_INVALID_LOOKBACK"
    case _ => ""
  }

  /** The return codes after which inflateBytesDirect moves the window
      (ISAL_END_INPUT falls through to ISAL_DECOMP_OK). */
  predicate Progress(status: InflateStatus)
  {
    status.DecompOk? || status.EndInput?
  }

  /** Bytes the engine reports consumed from the pending window. */
  function InflateConsumed(d: Decompressor, reply: InflateReply): int
  {
    if EngineRuns(d) && Progress(reply.status) then d.compressedLen - reply.availIn else 0
  }

  /** Inflated bytes the native step reports produced. */
  function InflateProduced(d: Decompressor, reply: InflateReply): int
  {
    if EngineRuns(d) && Progress(reply.status) then d.directBufferSize - reply.availOut else 0
  }

  /** The part of inflateBytesDirect after the input address was found:
      isal_inflate consumes from the pending window and writes to the start
      of the output buffer; a finished final block marks the decompressor
      finished whatever the return code; ISAL_DECOMP_OK and ISAL_END_INPUT
      move the window past the consumed bytes and report the produced
      count; the four error codes throw an IOException naming them; any
      other code reports 0. */
  function Inflate(d: Decompressor, reply: InflateReply): (s: Step<Decompressor, int>)
    requires EngineRuns(d)
    requires reply.Fits(InflateOffer(d))
    ensures s.state == d.(uncompressedBuf := s.state.uncompressedBuf,
                          finished := d.finished || reply.blockFinished,
                          engineAvailIn := reply.availIn,
                          compressedOff := d.compressedOff + InflateConsumed(d, reply),
                          compressedLen := d.compressedLen - InflateConsumed(d, reply))
    ensures s.state.uncompressedBuf == d.uncompressedBuf.(data := s.state.uncompressedBuf.data)
    ensures s.state.uncompressedBuf.data == Overwrite(d.uncompressedBuf.data, 0, reply.output)
    ensures s.result.Thrown? <==> InflateError(reply.status)
    ensures s.result.Thrown? ==> s.result.exception == IOException(ErrorMessage(reply.status))
    ensures s.result.Ok? ==> s.result.value == InflateProduced(d, reply)
  {
    var written := d.uncompressedBuf.(data := Overwrite(d.uncompressedBuf.data, 0, reply.output));
    var d1 := d.(uncompressedBuf := written, finished := d.finished || reply.blockFinished,
                 engineAvailIn := reply.availIn);
    if Progress(reply.status) then
      Step(d1.(compressedOff := d.compressedOff + (d.compressedLen - reply.availIn),
               compressedLen := reply.availIn),
           Ok(d.directBufferSize - reply.availOut))
    else if InflateError(reply.status) then Step(d1, Thrown(IOException(ErrorMessage(reply.status))))
    else Step(d1, Ok(0))
  }

  /** inflateBytesDirect(): a NullPointerException without a stream, 0
      without a native address for the input buffer, one isal_inflate call
      otherwise. The output buffer's address is not checked: callers only
      ever pass a direct one, with `directBufferSize` within its capacity. */
  function InflateBytesDirect(d: Decompressor, reply: InflateReply): (s: Step<Decompressor, int>)
    requires d.directBufferSize <= d.uncompressedBuf.Capacity()
    requires reply.Fits(InflateOffer(d))
    ensures s.state == d.(uncompressedBuf := s.state.uncompressedBuf,
                          finished := d.finished || (EngineRuns(d) && reply.blockFinished),
                          engineAvailIn := if EngineRuns(d) then reply.availIn else d.engineAvailIn,
                          compressedOff := d.compressedOff + InflateConsumed(d, reply),
                          compressedLen := d.compressedLen - InflateConsumed(d, reply))
    ensures s.state.uncompressedBuf == d.uncompressedBuf.(data := s.state.uncompressedBuf.data)
    ensures s.state.uncompressedBuf.data
            == if EngineRuns(d) then Overwrite(d.uncompressedBuf.data, 0, reply.output) else d.uncompressedBuf.data
    ensures 0 <= InflateConsumed(d, reply) <= d.compressedLen
    ensures !d.hasStream ==> s == Step(d, Thrown(NullPointerException))
    ensures s.result.Thrown? <==> !d.hasStream || (EngineRuns(d) && InflateError(reply.status))
    ensures s.result.Thrown? && d.hasStream ==> s.result.exception == IOException(ErrorMessage(reply.status))
    ensures s.result.Ok? ==> s.result.value == InflateProduced(d, reply)
    ensures s.result.Ok? ==> 0 <= s.result.value <= d.directBufferSize
  {
    if !d.hasStream then Step(d, Thrown(NullPointerException))
    else if !d.compressedBuf.direct then Step(d, Ok(0))
    else Inflate(d, reply)
  }

  /** The tail of decompress: up to `len` of the bytes waiting in the ready
      buffer are copied to `b[off..]` and counted as written. decompress
      does this straight away when output is waiting, and after the engine
      call otherwise. */
  function Deliver(d: Decompressor, b: seq<byte>, off: int, len: int): (s: Step<Decompressor, Delivery>)
    requires Valid(d) && InBounds(|b|, off, len)
    ensures Valid(s.state) && s.result.Ok?
    ensures s.result.value.count == Min(d.uncompressedBuf.Remaining(), len)
    ensures s.state.bytesWritten == d.bytesWritten + s.result.value.count
    ensures s.state.uncompressedBuf
            == d.uncompressedBuf.(position := d.uncompressedBuf.position + s.result.value.count)
    ensures s.state.(uncompressedBuf := d.uncompressedBuf, bytesWritten := d.bytesWritten) == d
    ensures |s.result.value.dest| == |b|
    ensures s.result.value.dest[off .. off + s.result.value.count]
            == d.uncompressedBuf.data[d.uncompressedBuf.position .. d.uncompressedBuf.position + s.result.value.count]
    ensures s.result.value.dest[..off] == b[..off]
    ensures s.result.value.dest[off + s.result.value.count..] == b[off + s.result.value.count..]
  {
    var n := Min(d.uncompressedBuf.Remaining(), len);
    Step(d.(uncompressedBuf := d.uncompressedBuf.Advance(n), bytesWritten := d.bytesWritten + n),
         Ok(Delivery(n, d.uncompressedBuf.CopyOut(b, off, n))))
  }

  /** The middle of decompress, reached when no output is waiting: the ready
      buffer is rewound and opened to `directBufferSize` (which throws when
      that exceeds its capacity, leaving it rewound), inflateBytesDirect is
      called, and on success the ready buffer is cut to the produced bytes.
      The result is the produced count. */
  function InflateRound(d: Decompressor, reply: InflateReply): (s: Step<Decompressor, int>)
    requires Valid(d) && reply.Fits(InflateOffer(d))
    ensures Valid(s.state)
    ensures s.result.Thrown? <==>
              || d.directBufferSize > d.bufferSize || !d.hasStream
              || (EngineRuns(d) && InflateError(reply.status))
    ensures s.result.Ok? ==>
              && s.result.value == InflateProduced(d, reply)
              && s.state.uncompressedBuf.position == 0
              && s.state.uncompressedBuf.limit == InflateProduced(d, reply)
              && s.state.uncompressedBuf.data[..InflateProduced(d, reply)]
                 == reply.output[..InflateProduced(d, reply)]
    ensures 0 <= InflateConsumed(d, reply) <= d.compressedLen
    ensures s.state.compressedBuf == d.compressedBuf
    ensures s.state.compressedLen == d.compressedLen - InflateConsumed(d, reply)
    ensures s.state.compressedOff == d.compressedOff + InflateConsumed(d, reply)
    ensures s.state.userBuf == d.userBuf && s.state.userOff == d.userOff && s.state.userLen == d.userLen
  {
    var rewound := d.uncompressedBuf.Rewind();
    match rewound.SetLimit(d.directBufferSize)
    case Thrown(x) => Step(d.(uncompressedBuf := rewound), Thrown(x))
    case Ok(widened) =>
      var e := InflateBytesDirect(d.(uncompressedBuf := widened), reply);
      if e.result.Thrown? then e
      else Step(e.state.(uncompressedBuf := e.state.uncompressedBuf.WithLimit(e.result.value)), e.result)
  }

  /** decompress(b, off, len), where `reply` is what isal_inflate answers if
      this call reaches it. The pending buffer is not refilled here: only
      needsInput does that. */
  function Decompress(d: Decompressor, b: Option<seq<byte>>, off: int, len: int, reply: InflateReply)
    : (s: Step<Decompressor, Delivery>)
    requires Valid(d)
    requires reply.Fits(InflateOffer(d))
    ensures Valid(s.state)
    ensures b.None? ==> s == Step(d, Thrown(NullPointerException))
    ensures b.Some? && !InBounds(|b.value|, off, len) ==> s == Step(d, Thrown(ArrayIndexOutOfBoundsException))
    ensures s.result.Thrown? <==>
              || !ArgsOk(b, off, len)
              || (d.uncompressedBuf.Remaining() == 0 && InflateRound(d, reply).result.Thrown?)
    ensures s.result.Ok? ==>
              && 0 <= s.result.value.count <= len
              && s.state.bytesWritten == d.bytesWritten + s.result.value.count
  {
    if b.None? then Step(d, Thrown(NullPointerException))
    else if !InBounds(|b.value|, off, len) then Step(d, Thrown(ArrayIndexOutOfBoundsException))
    else if d.uncompressedBuf.Remaining() > 0 then Deliver(d, b.value, off, len)
    else
      var e := InflateRound(d, reply);
      if e.result.Thrown? then Step(e.state, Thrown(e.result.exception))
      else Deliver(e.state, b.value, off, len)
  }

  /** getRemaining(): the caller bytes not yet loaded plus the engine's
      `avail_in`. */
  function GetRemaining(d: Decompressor): (r: Result<int>)
    ensures r.Thrown? <==> !d.hasStream
    ensures r.Thrown? ==> r.exception == NullPointerException
    ensures r.Ok? ==> r.value >= d.userLen
  {
    match CheckStream(d)
    case Thrown(e) => Thrown(e)
    case Ok(_) => Ok(d.userLen + d.engineAvailIn)
  }

  /** reset(): re-initialise the engine (which zeroes its `avail_in`) and
      start a new stream. Opening the ready buffer to `directBufferSize`
      throws when that exceeds its capacity, after the window and the
      `finished` flag were already cleared. */
  function Reset(d: Decompressor): (s: Step<Decompressor, ()>)
    requires Valid(d)
    ensures Valid(s.state)
    ensures !d.hasStream ==> s == Step(d, Thrown(NullPointerException))
    ensures d.hasStream ==> (s.result.Thrown? <==> d.directBufferSize > d.bufferSize)
    ensures d.hasStream && s.result.Thrown? ==> s.result.exception == IllegalArgumentException
    ensures s.result.Ok? ==>
              && !s.state.finished && s.state.engineAvailIn == 0
              && s.state.compressedOff == 0 && s.state.compressedLen == 0
              && s.state.uncompressedBuf.position == s.state.uncompressedBuf.limit == d.directBufferSize
              && s.state.userOff == 0 && s.state.userLen == 0
              && s.state.bytesRead == 0 && s.state.bytesWritten == 0
              && Unconsumed(s.state) == []
    ensures s.state.hasStream == d.hasStream && s.state.directBufferSize == d.directBufferSize
  {
    match CheckStream(d)
    case Thrown(e) => Step(d, Thrown(e))
    case Ok(_) =>
      var d1 := d.(engineAvailIn := 0, finished := false, compressedLen := 0, compressedOff := 0);
      match d1.uncompressedBuf.SetLimit(d1.directBufferSize)
      case Thrown(x) => Step(d1, Thrown(x))
      case Ok(u) =>
        Step(d1.(uncompressedBuf := u.EmptyAt(d1.directBufferSize), userOff := 0, userLen := 0,
                 bytesRead := 0, bytesWritten := 0),
             Ok(()))
  }

  /** end(): release the engine handle; a second call does nothing. */
  function End(d: Decompressor): (r: Decompressor)
    ensures !r.hasStream
    ensures r.(hasStream := d.hasStream) == d
  {
    if d.hasStream then d.(hasStream := false) else d
  }

  /** While inflated output is waiting, decompress only hands it out: the
      engine is not called, and only the ready cursor and the written count
      move. */
  lemma DrainIgnoresEngine(d: Decompressor, b: seq<byte>, off: int, len: int, reply: InflateReply,
                           reply': InflateReply)
    requires Valid(d) && reply.Fits(InflateOffer(d)) && reply'.Fits(InflateOffer(d))
    requires InBounds(|b|, off, len) && d.uncompressedBuf.Remaining() > 0
    ensures Decompress(d, Some(b), off, len, reply) == Decompress(d, Some(b), off, len, reply')
    ensures var s := Decompress(d, Some(b), off, len, reply);
            && s.result.Ok?
            && s.result.value.count == Min(d.uncompressedBuf.Remaining(), len)
            && s.state.(uncompressedBuf := d.uncompressedBuf, bytesWritten := d.bytesWritten) == d
  {
  }

  /** A successful decompress writes exactly `b[off .. off + n]` of the
      caller's array and leaves the rest of it alone. */
  lemma DecompressWritesOnlyItsRange(d: Decompressor, b: Option<seq<byte>>, off: int, len: int,
                                     reply: InflateReply)
    requires Valid(d) && reply.Fits(InflateOffer(d))
    ensures var s := Decompress(d, b, off, len, reply);
            s.result.Ok? ==>
              && |s.result.value.dest| == |b.value|
              && s.result.value.dest[..off] == b.value[..off]
              && s.result.value.dest[off + s.result.value.count..] == b.value[off + s.result.value.count..]
  {
  }

  /** When decompress had to call the engine, what it hands out is the start
      of what the engine produced, and the rest stays waiting in the ready
      buffer for the next call. */
  lemma DecompressHandsOutEngineOutput(d: Decompressor, b: seq<byte>, off: int, len: int, reply: InflateReply)
    requires Valid(d) && reply.Fits(InflateOffer(d))
    requires InBounds(|b|, off, len) && d.uncompressedBuf.Remaining() == 0
    ensures var s := Decompress(d, Some(b), off, len, reply);
            s.result.Ok? ==>
              && s.result.value.count == Min(InflateProduced(d, reply), len)
              && s.result.value.dest[off .. off + s.result.value.count] == reply.output[..s.result.value.count]
              && s.state.uncompressedBuf.Remaining() == InflateProduced(d, reply) - s.result.value.count
  {
    var s := Decompress(d, Some(b), off, len, reply);
    var e := InflateRound(d, reply);
    if s.result.Ok? {
      var n := s.result.value.count;
      assert s == Deliver(e.state, b, off, len);
      assert e.state.uncompressedBuf.data[..n] == reply.output[..n] by {
        assert e.state.uncompressedBuf.data[..InflateProduced(d, reply)][..n] == e.state.uncompressedBuf.data[..n];
      }
    }
  }

  /** The rest of what one engine round does: the final block marks the
      decompressor finished even when the round then throws; the engine's
      `avail_in` is recorded whenever it ran; the counters are untouched;
      an error leaves the window where it was. */
  lemma InflateRoundEffects(d: Decompressor, reply: InflateReply)
    requires Valid(d) && reply.Fits(InflateOffer(d))
    ensures var s := InflateRound(d, reply);
            && (s.state.finished <==> d.finished || (EngineRuns(d) && reply.blockFinished))
            && s.state.engineAvailIn == (if EngineRuns(d) then reply.availIn else d.engineAvailIn)
            && s.state.hasStream == d.hasStream && s.state.directBufferSize == d.directBufferSize
            && s.state.bytesRead == d.bytesRead && s.state.bytesWritten == d.bytesWritten
    ensures var s := InflateRound(d, reply);
            s.result.Thrown? ==>
              && s.result.exception == (if d.directBufferSize > d.bufferSize then IllegalArgumentException
                                        else if !d.hasStream then NullPointerException
                                        else IOException(ErrorMessage(reply.status)))
              && s.state.compressedOff == d.compressedOff && s.state.compressedLen == d.compressedLen
  {
  }

  /** What an engine error leaves behind in the ready buffer: decompress
      rewound it and opened it to `directBufferSize` before the engine call,
      and the throw skips the cut to the produced count. The next decompress
      therefore finds output waiting and, without calling the engine, hands
      out up to `len'` bytes of the buffer's contents, none of which a
      successful round reported as produced. */
  lemma EngineErrorLeavesStaleOutput(d: Decompressor, b: seq<byte>, off: int, len: int, reply: InflateReply,
                                     b': seq<byte>, off': int, len': int, reply': InflateReply)
    requires Valid(d) && reply.Fits(InflateOffer(d)) && d.directBufferSize <= d.bufferSize
    requires InBounds(|b|, off, len) && d.uncompressedBuf.Remaining() == 0 && d.directBufferSize > 0
    requires Decompress(d, Some(b), off, len, reply).result.Thrown?
    requires InBounds(|b'|, off', len')
    requires reply'.Fits(InflateOffer(Decompress(d, Some(b), off, len, reply).state))
    ensures var s := Decompress(d, Some(b), off, len, reply).state;
            var t := Decompress(s, Some(b'), off', len', reply');
            && s.uncompressedBuf.position == 0 && s.uncompressedBuf.Remaining() == d.directBufferSize
            && t.result.Ok?
            && t.result.value.count == Min(d.directBufferSize, len')
            && t.result.value.dest[off' .. off' + t.result.value.count]
               == s.uncompressedBuf.data[..t.result.value.count]
  {
    var widened := d.uncompressedBuf.Rewind().WithLimit(d.directBufferSize);
    var e := InflateBytesDirect(d.(uncompressedBuf := widened), reply);
    assert e.state.uncompressedBuf == widened.(data := e.state.uncompressedBuf.data);
    assert Decompress(d, Some(b), off, len, reply).state == e.state;
  }

  /** Moving the window k bytes forward, with the pending bytes and the
      caller view untouched, drops exactly the first k owed bytes. */
  lemma WindowMoved(d: Decompressor, s: Decompressor, k: int)
    requires Valid(d) && Valid(s) && 0 <= k <= d.compressedLen
    requires s.compressedBuf.data == d.compressedBuf.data
    requires s.compressedOff == d.compressedOff + k && s.compressedLen == d.compressedLen - k
    requires s.userBuf == d.userBuf && s.userOff == d.userOff && s.userLen == d.userLen
    ensures Unconsumed(s) == Unconsumed(d)[k..]
  {
    DropFromWindow(d.compressedBuf.data, d.compressedOff, d.compressedLen, k, s.compressedOff,
                   d.userBuf[d.userOff .. d.userOff + d.userLen]);
  }

  /** The engine round loses no compressed byte: what is still owed to the
      engine afterwards is what was owed before minus the prefix the engine
      reported consumed. */
  lemma InflateRoundConsumesPrefix(d: Decompressor, reply: InflateReply)
    requires Valid(d) && reply.Fits(InflateOffer(d))
    ensures Unconsumed(InflateRound(d, reply).state) == Unconsumed(d)[InflateConsumed(d, reply)..]
  {
    WindowMoved(d, InflateRound(d, reply).state, InflateConsumed(d, reply));
  }

  /** Handing out inflated bytes does not touch the stream owed to the
      engine. */
  lemma DeliverKeepsStream(d: Decompressor, b: seq<byte>, off: int, len: int)
    requires Valid(d) && InBounds(|b|, off, len)
    ensures Unconsumed(Deliver(d, b, off, len).state) == Unconsumed(d)
  {
    var r := Deliver(d, b, off, len).state;
    assert r.compressedBuf == d.compressedBuf && r.compressedOff == d.compressedOff;
    assert r.compressedLen == d.compressedLen && r.userBuf == d.userBuf;
    assert r.userOff == d.userOff && r.userLen == d.userLen;
  }

  /** No byte is lost by decompress: the stream owed to the engine loses
      exactly the prefix that the engine reported consumed, and nothing when
      the call only handed out waiting output or failed before the engine. */
  lemma DecompressConsumesPrefix(d: Decompressor, b: Option<seq<byte>>, off: int, len: int, reply: InflateReply)
    requires Valid(d) && reply.Fits(InflateOffer(d))
    ensures var s := Decompress(d, b, off, len, reply);
            Unconsumed(s.state)
            == Unconsumed(d)[if ArgsOk(b, off, len) && d.uncompressedBuf.Remaining() == 0
                             then InflateConsumed(d, reply) else 0 ..]
  {
    if ArgsOk(b, off, len) {
      if d.uncompressedBuf.Remaining() > 0 {
        DeliverKeepsStream(d, b.value, off, len);
      } else {
        var e := InflateRound(d, reply);
        InflateRoundConsumesPrefix(d, reply);
        if e.result.Ok? {
          DeliverKeepsStream(e.state, b.value, off, len);
        }
      }
    }
  }

  /** Right after an engine call that returned ISAL_DECOMP_OK or
      ISAL_END_INPUT, getRemaining() counts exactly the compressed bytes
      still owed to the engine. */
  lemma RemainingCountsUnconsumed(d: Decompressor, reply: InflateReply)
    requires Valid(d) && reply.Fits(InflateOffer(d))
    requires EngineRuns(d) && d.directBufferSize <= d.bufferSize && Progress(reply.status)
    ensures var s := InflateRound(d, reply);
            GetRemaining(s.state) == Ok(|Unconsumed(s.state)|)
  {
  }

  /** After a successful reset nothing is owed or waiting: needsInput()
      answers true, getRemaining() answers 0, and the stream is not
      finished. */
  lemma ResetStartsOver(d: Decompressor)
    requires Valid(d)
    ensures var s := Reset(d);
            s.result.Ok? ==>
              && NeedsInput(s.state).result == Ok(true)
              && GetRemaining(s.state) == Ok(0)
              && !Finished(s.state)
  {
  }

  /** After setInput with at least one byte, needsInput() answers false. */
  lemma SetInputThenMoreWork(d: Decompressor, b: seq<byte>, off: int, len: int)
    requires Valid(d) && InBounds(|b|, off, len) && len > 0
    ensures var s := SetInput(d, Some(b), off, len);
            s.result.Ok? ==> NeedsInput(s.state).result == Ok(false)
  {
  }

  /** The outcome of a zero-copy call: the decompressor and the caller's
      two buffers afterwards. */
  datatype DirectCall = DirectCall(dec: Decompressor, src: Buffer, dst: Buffer)

  /** The output buffer inflateDirect hands to the engine: `dst` itself, or
      its slice from the position when the position is not 0. Either way
      the engine writes from the view's start, which is `dst`'s position. */
  function OutputView(dst: Buffer): (v: Buffer)
    ensures v.position == 0 && v.Remaining() == dst.Remaining() && v.direct == dst.direct
    ensures dst.position > 0 ==> v == dst.Slice()
    ensures dst.position == 0 ==> v == dst
  {
    if dst.position > 0 then dst.Slice() else dst
  }

  /** `dst` after bytes were written through its view `v`: a slice shares
      the bytes from `dst`'s position to its limit. */
  function WriteBack(dst: Buffer, v: Buffer): (r: Buffer)
    requires |v.data| == |OutputView(dst).data|
    ensures r == dst.(data := r.data) && |r.data| == |dst.data|
  {
    if dst.position > 0 then dst.(data := dst.data[..dst.position] + v.data + dst.data[dst.limit..])
    else dst.(data := v.data)
  }

  /** Bytes written at the start of the view land at `dst`'s position, and
      nothing else of `dst` changes. */
  lemma WriteBackLandsAtPosition(dst: Buffer, out: seq<byte>)
    requires |out| <= dst.Remaining()
    ensures var v := OutputView(dst);
            WriteBack(dst, v.(data := Overwrite(v.data, 0, out))).data == Overwrite(dst.data, dst.position, out)
  {
    if dst.position > 0 {
      OverwriteInWindow(dst.data, dst.position, dst.limit, out);
    }
  }

  /** A view nothing was written through gives `dst` back unchanged. */
  lemma WriteBackUnchanged(dst: Buffer)
    ensures WriteBack(dst, OutputView(dst)) == dst
  {
    if dst.position > 0 {
      assert dst.data == dst.data[..dst.position] + dst.data[dst.position .. dst.limit] + dst.data[dst.limit..];
    }
  }

  /** What inflateDirect makes of the decompressor before it calls the
      native step: the pending buffer becomes a slice of `src` whose window
      is `src`'s position and remaining count, the ready buffer becomes the
      output view, and `directBufferSize` its remaining room. */
  function DirectTemp(d: Decompressor, src: Buffer, dst: Buffer): (t: Decompressor)
    ensures InflateOffer(t) == Offer(src.position, src.Remaining(), dst.Remaining(), false)
    ensures t.directBufferSize <= t.uncompressedBuf.Capacity()
    ensures EngineRuns(t) <==> d.hasStream && src.direct
  {
    var v := OutputView(dst);
    d.(compressedBuf := src.Slice(), compressedLen := src.Remaining(), compressedOff := src.position,
       uncompressedBuf := v, directBufferSize := v.Remaining())
  }

  /** inflateDirect(src, dst), where `reply` is what isal_inflate answers
      if the call reaches it. The native step runs on the temporary state of
      DirectTemp; afterwards both owned buffers, `BufferSize` and a zero
      window are put back on every exit, but `directBufferSize` keeps the
      output room of this call. On success `dst`'s position moves past the
      produced bytes and `src`'s past the consumed ones. */
  function InflateDirect(d: Decompressor, src: Buffer, dst: Buffer, reply: InflateReply): (s: Step<DirectCall, int>)
    requires Valid(d) && dst.direct
    requires reply.Fits(InflateOffer(DirectTemp(d, src, dst)))
    ensures Valid(s.state.dec)
    ensures s.state.dec == d.(directBufferSize := dst.Remaining(), compressedOff := 0, compressedLen := 0,
                              finished := s.state.dec.finished, engineAvailIn := s.state.dec.engineAvailIn)
    ensures s.state.src == src.(position := s.state.src.position)
    ensures s.state.dst == dst.(data := s.state.dst.data, position := s.state.dst.position)
    ensures s.state.dst.data
            == if EngineRuns(DirectTemp(d, src, dst)) then Overwrite(dst.data, dst.position, reply.output) else dst.data
    ensures s.result.Thrown? <==> !d.hasStream || (src.direct && InflateError(reply.status))
    ensures s.result.Thrown? ==> s.state.src == src && s.state.dst.position == dst.position
    ensures s.result.Ok? ==>
              var t := DirectTemp(d, src, dst);
              && s.result.value == InflateProduced(t, reply)
              && 0 <= s.result.value <= dst.Remaining()
              && s.state.dst.position == dst.position + s.result.value
              && s.state.src.position == src.position + InflateConsumed(t, reply)
  {
    var t := DirectTemp(d, src, dst);
    var e := InflateBytesDirect(t, reply);
    var written := WriteBack(dst, e.state.uncompressedBuf);
    WriteBackLandsAtPosition(dst, reply.output);
    WriteBackUnchanged(dst);
    var restored := e.state.(compressedBuf := d.compressedBuf, uncompressedBuf := d.uncompressedBuf,
                             compressedLen := 0, compressedOff := 0, bufferSize := d.bufferSize);
    if e.result.Thrown? then Step(DirectCall(restored, src, written), Thrown(e.result.exception))
    else
      var n := e.result.value;
      var moved := if e.state.compressedLen > 0 then src.(position := e.state.compressedOff)
                   else src.(position := src.limit);
      Step(DirectCall(restored, moved, written.(position := dst.position + n)), Ok(n))
  }

  /** inflateDirect with its `finally` block also restoring
      `directBufferSize`. */
  function InflateDirectRestoring(d: Decompressor, src: Buffer, dst: Buffer, reply: InflateReply)
    : (s: Step<DirectCall, int>)
    requires Valid(d) && dst.direct
    requires reply.Fits(InflateOffer(DirectTemp(d, src, dst)))
    ensures Valid(s.state.dec) && s.state.dec.directBufferSize == d.directBufferSize
    ensures Coherent(d) ==> Coherent(s.state.dec)
    ensures var w := InflateDirect(d, src, dst, reply);
            && s.result == w.result && s.state.src == w.state.src && s.state.dst == w.state.dst
            && s.state.dec.(directBufferSize := w.state.dec.directBufferSize) == w.state.dec
  {
    var w := InflateDirect(d, src, dst, reply);
    Step(w.state.(dec := w.state.dec.(directBufferSize := d.directBufferSize)), w.result)
  }

  /** In a coherent decompressor no buffer-cursor exception can occur:
      reset() succeeds on a live stream, setInput() succeeds on legal
      arguments, and needsInput() never throws. */
  lemma CoherentCursorsNeverThrow(d: Decompressor, b: Option<seq<byte>>, off: int, len: int)
    requires Coherent(d)
    ensures d.hasStream ==> Reset(d).result.Ok? && Coherent(Reset(d).state)
    ensures ArgsOk(b, off, len) ==> SetInput(d, b, off, len).result.Ok? && Coherent(SetInput(d, b, off, len).state)
    ensures NeedsInput(d).result.Ok? && Coherent(NeedsInput(d).state)
  {
  }

  /** inflateDirect as written: once a call was given more output room than
      the owned buffers hold, `directBufferSize` stays too large and the
      byte[] path is broken: reset() and setInput() throw, and so does
      decompress() as soon as the ready buffer is empty. It stays broken
      until a later zero-copy call with no more room than the owned buffers
      overwrites `directBufferSize` again (SmallDirectCallHeals). */
  lemma DirectCallLeaksBufferSize(d: Decompressor, src: Buffer, dst: Buffer, reply: InflateReply,
                                  b: seq<byte>, off: int, len: int, reply': InflateReply)
    requires Valid(d) && d.hasStream && dst.direct
    requires reply.Fits(InflateOffer(DirectTemp(d, src, dst)))
    requires dst.Remaining() > d.bufferSize
    requires InBounds(|b|, off, len)
    ensures var x := InflateDirect(d, src, dst, reply).state.dec;
            && Reset(x).result == Thrown(IllegalArgumentException)
            && SetInput(x, Some(b), off, len).result.Thrown?
            && (x.uncompressedBuf.Remaining() == 0 && reply'.Fits(InflateOffer(x)) ==>
                  Decompress(x, Some(b), off, len, reply').result == Thrown(IllegalArgumentException))
  {
    var x := InflateDirect(d, src, dst, reply).state.dec;
    if x.uncompressedBuf.Remaining() == 0 && reply'.Fits(InflateOffer(x)) {
      InflateRoundEffects(x, reply');
    }
  }

  /** One concrete run showing it on a plain IsalDecompressor with 4-byte
      buffers (as Create(4) returns), whose package-private inflateDirect is
      reachable only from code in the same package running without
      assertions: one zero-copy call from an empty source into an empty
      8-byte direct buffer, answered by an engine that inflates nothing, and
      reset() then throws IllegalArgumentException. The public route, through
      IsalDirectDecompressor, is IsalDirectDecompressor.LargeDestinationBreaksReset. */
  lemma DirectCallLeakWitness(d: Decompressor, src: Buffer, dst: Buffer)
    requires Coherent(d) && d.hasStream && d.bufferSize == 4
    requires src.data == [] && src.position == 0 && src.limit == 0 && src.direct
    requires |dst.data| == 8 && dst.position == 0 && dst.limit == 8 && dst.direct
    ensures var reply := InflateReply(DecompOk, 0, 8, [], false);
            && reply.Fits(InflateOffer(DirectTemp(d, src, dst)))
            && Reset(InflateDirect(d, src, dst, reply).state.dec).result == Thrown(IllegalArgumentException)
  {
    var reply := InflateReply(DecompOk, 0, 8, [], false);
    assert InflateOffer(DirectTemp(d, src, dst)) == Offer(0, 0, 8, false);
    DirectCallLeaksBufferSize(d, src, dst, reply, [], 0, 0, reply);
  }

  /** The leak lasts only until the next zero-copy call: one whose output
      room fits the owned buffers sets `directBufferSize` back within them,
      and reset() succeeds again. */
  lemma SmallDirectCallHeals(d: Decompressor, src: Buffer, dst: Buffer, reply: InflateReply)
    requires Valid(d) && d.hasStream && dst.direct
    requires reply.Fits(InflateOffer(DirectTemp(d, src, dst)))
    requires dst.Remaining() <= d.bufferSize
    ensures var x := InflateDirect(d, src, dst, reply).state.dec;
            && x.directBufferSize == dst.Remaining()
            && Reset(x).result.Ok?
  {
  }

  /** With `directBufferSize` restored, a zero-copy call of any size keeps a
      coherent decompressor coherent, so the byte[] path keeps working. */
  lemma RestoringKeepsByteArrayPath(d: Decompressor, src: Buffer, dst: Buffer, reply: InflateReply,
                                    b: seq<byte>, off: int, len: int)
    requires Coherent(d) && d.hasStream && dst.direct
    requires reply.Fits(InflateOffer(DirectTemp(d, src, dst)))
    requires InBounds(|b|, off, len)
    ensures var x := InflateDirectRestoring(d, src, dst, reply).state.dec;
            && Coherent(x)
            && Reset(x).result.Ok?
            && SetInput(x, Some(b), off, len).result.Ok?
  {
    var x := InflateDirectRestoring(d, src, dst, reply).state.dec;
    CoherentCursorsNeverThrow(x, Some(b), off, len);
  }

  /** decompress keeps a coherent decompressor coherent. */
  lemma DecompressKeepsCoherent(d: Decompressor, b: Option<seq<byte>>, off: int, len: int, reply: InflateReply)
    requires Coherent(d) && reply.Fits(InflateOffer(d))
    ensures Coherent(Decompress(d, b, off, len, reply).state)
  {
    if ArgsOk(b, off, len) && d.uncompressedBuf.Remaining() == 0 {
      InflateRoundEffects(d, reply);
    }
  }

  /** A zero-copy call drops the window the byte[] path had pending: what is
      owed to the engine afterwards is only the rest of the caller view. */
  lemma DirectCallDropsWindow(d: Decompressor, src: Buffer, dst: Buffer, reply: InflateReply)
    requires Valid(d) && dst.direct
    requires reply.Fits(InflateOffer(DirectTemp(d, src, dst)))
    ensures Unconsumed(InflateDirect(d, src, dst, reply).state.dec) == Unconsumed(d)[d.compressedLen..]
  {
  }
}
