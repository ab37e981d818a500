/** The operations of IsalCompressor.java together with its native step
    compressBytesDirect of IsalCompressor.c, as transitions of the state
    described in module CompressorState. */
module IsalCompressor {
  import opened JavaNio
  import opened IsalEngine
  import opened CompressorState

  /** DEFAULT_DIRECT_BUFFER_SIZE. */
  const DefaultDirectBufferSize: nat := 64 * 1024

  /** The constructor IsalCompressor(directBufferSize, ...): both buffers are
      allocated direct, and the ready buffer starts with its position at its
      end so that it reads as empty. */
  function Create(directBufferSize: int): (r: Result<Compressor>)
    ensures r.Thrown? <==> directBufferSize < 0
    ensures r.Thrown? ==> r.exception == IllegalArgumentException
    ensures r.Ok? ==> && Valid(r.value) && r.value.hasStream
                      && r.value.bufferSize == directBufferSize
                      && r.value.compressedBuf.Remaining() == 0
                      && Unconsumed(r.value) == []
                      && !Finished(r.value)
  {
    if directBufferSize < 0 then Thrown(IllegalArgumentException)
    else
      var pending := ByteBuffer.AllocateDirect(directBufferSize);
      var ready := ByteBuffer.AllocateDirect(directBufferSize);
      Ok(Compressor(true, directBufferSize, ready.(position := directBufferSize), pending,
                    0, 0, [], 0, 0, false, false, false, false, 0, 0))
  }

  /** The default constructor IsalCompressor(): DEFAULT_DIRECT_BUFFER_SIZE
      bytes per buffer, no output waiting, not finished. That it owes
      nothing and asks for input holds for every size (Create,
      FreshNeedsInput). */
  function CreateDefault(): (c: Compressor)
    ensures Valid(c) && c.hasStream && c.bufferSize == DefaultDirectBufferSize
    ensures c.compressedBuf.Remaining() == 0 && !Finished(c)
  {
    Create(DefaultDirectBufferSize).value
  }

  /** A compressor fresh from the constructor, with a buffer of any
      positive size, asks for input. */
  lemma FreshNeedsInput(n: int)
    requires n > 0
    ensures Create(n).Ok? && NeedsInput(Create(n).value) == (Create(n).value, true)
  {
  }

  /** checkStream(): a NullPointerException once the stream is gone. */
  function CheckStream(c: Compressor): (r: Result<()>)
    ensures r.Thrown? <==> !c.hasStream
    ensures r.Thrown? ==> r.exception == NullPointerException
  {
    if c.hasStream then Ok(()) else Thrown(NullPointerException)
  }

  /** setInputFromSavedData(): copy as much of the caller view as the pending
      buffer still has room for. */
  function SetInputFromSavedData(c: Compressor): (r: Compressor)
    requires Shaped(c)
    ensures Shaped(r)
    ensures var k := Min(c.userLen, c.uncompressedBuf.Remaining());
            && r.uncompressedBuf.position == c.uncompressedBuf.position + k
            && r.userOff == c.userOff + k && r.userLen == c.userLen - k
    ensures r.uncompressedLen == r.uncompressedBuf.position <= r.bufferSize
    ensures r.userLen == 0 || r.uncompressedBuf.Remaining() == 0
    ensures r == c.(uncompressedBuf := r.uncompressedBuf, uncompressedLen := r.uncompressedLen,
                    userOff := r.userOff, userLen := r.userLen)
  {
    var len := Min(c.userLen, c.uncompressedBuf.Remaining());
    var buf := c.uncompressedBuf.Put(c.userBuf, c.userOff, len);
    c.(uncompressedBuf := buf, userLen := c.userLen - len, userOff := c.userOff + len,
       uncompressedLen := buf.position)
  }

  /** What setInputFromSavedData moves: the filled part of the pending buffer
      grows by exactly the bytes the caller view gives up. */
  lemma SavedDataMovesBytes(c: Compressor)
    requires Shaped(c)
    ensures var r := SetInputFromSavedData(c);
            r.uncompressedBuf.data[..r.uncompressedBuf.position]
            == c.uncompressedBuf.data[..c.uncompressedBuf.position] + c.userBuf[c.userOff .. r.userOff]
  {
    var r := SetInputFromSavedData(c);
    var p, q := c.uncompressedBuf.position, r.uncompressedBuf.position;
    var d := r.uncompressedBuf.data;
    assert d[..q] == d[..p] + d[p .. q];
  }

  /** So a stream that starts at the beginning of the pending buffer is
      unchanged by setInputFromSavedData. */
  lemma SavedDataKeepsStream(c: Compressor)
    requires Valid(c) && c.uncompressedOff == 0
    ensures Valid(SetInputFromSavedData(c))
    ensures Unconsumed(SetInputFromSavedData(c)) == Unconsumed(c)
  {
    var r := SetInputFromSavedData(c);
    var p, q := c.uncompressedBuf.position, r.uncompressedBuf.position;
    var d, b := r.uncompressedBuf.data, c.userBuf;
    var o, l := c.userOff, c.userLen;
    SavedDataMovesBytes(c);
    assert r.userBuf == b && r.userOff == o + (q - p) && r.userOff + r.userLen == o + l;
    assert Unconsumed(c) == c.uncompressedBuf.data[..p] + b[o .. o + l];
    assert Unconsumed(r) == d[..q] + b[o + (q - p) .. o + l];
    AppendInTwo(d[..q], c.uncompressedBuf.data[..p], b, o, q - p, l);
  }

  /** Splitting the appended range at k does not change the concatenation. */
  lemma AppendInTwo(x: seq<byte>, y: seq<byte>, b: seq<byte>, off: int, k: int, len: int)
    requires 0 <= off && 0 <= k <= len && off + len <= |b|
    requires x == y + b[off .. off + k]
    ensures x + b[off + k .. off + len] == y + b[off .. off + len]
  {
    assert b[off .. off + len] == b[off .. off + k] + b[off + k .. off + len];
  }

  /** setInput(b, off, len): the new array becomes the caller view, as much
      of it as fits is appended to the pending buffer, and the ready buffer
      is emptied. */
  function SetInput(c: Compressor, b: Option<seq<byte>>, off: int, len: int): (s: Step<Compressor, ()>)
    requires Valid(c)
    ensures Valid(s.state)
    ensures b.None? ==> s == Step(c, Thrown(NullPointerException))
    ensures b.Some? && !InBounds(|b.value|, off, len) ==> s == Step(c, Thrown(ArrayIndexOutOfBoundsException))
    ensures ArgsOk(b, off, len) ==>
              && s.result.Ok?
              && s.state == c.(compressedBuf := c.compressedBuf.EmptyAt(c.bufferSize),
                               uncompressedBuf := s.state.uncompressedBuf, uncompressedOff := 0,
                               uncompressedLen := s.state.uncompressedLen, userBuf := b.value,
                               userOff := s.state.userOff, userLen := s.state.userLen,
                               bytesRead := c.bytesRead + len)
    ensures ArgsOk(b, off, len) ==>
              var k := Min(len, c.uncompressedBuf.Remaining());
              && s.state.userOff == off + k && s.state.userLen == len - k
              && s.state.uncompressedLen == c.uncompressedBuf.position + k
  {
    if b.None? then Step(c, Thrown(NullPointerException))
    else if !InBounds(|b.value|, off, len) then Step(c, Thrown(ArrayIndexOutOfBoundsException))
    else
      var c1 := c.(userBuf := b.value, userOff := off, userLen := len, uncompressedOff := 0);
      var c2 := SetInputFromSavedData(c1);
      Step(c2.(compressedBuf := c2.compressedBuf.EmptyAt(c2.bufferSize), bytesRead := c2.bytesRead + len),
           Ok(()))
  }

  /** No byte is lost by setInput: the stream still owed to the engine is
      the filled part of the pending buffer followed by all `len` new
      bytes. */
  lemma SetInputAppends(c: Compressor, b: seq<byte>, off: int, len: int)
    requires Valid(c) && InBounds(|b|, off, len)
    ensures Unconsumed(SetInput(c, Some(b), off, len).state)
            == c.uncompressedBuf.data[..c.uncompressedBuf.position] + b[off .. off + len]
  {
    var c1 := c.(userBuf := b, userOff := off, userLen := len, uncompressedOff := 0);
    SavedDataMovesBytes(c1);
    var s := SetInput(c, Some(b), off, len).state;
    assert s.uncompressedBuf == SetInputFromSavedData(c1).uncompressedBuf;
    var d := s.uncompressedBuf.data;
    assert Unconsumed(s) == d[..s.uncompressedLen] + b[s.userOff .. off + len];
    AppendInTwo(d[..s.uncompressedLen], c.uncompressedBuf.data[..c.uncompressedBuf.position],
                b, off, s.userOff - off, len);
  }

  /** When the previous caller view was used up and no window was kept
      (which is what needsInput() answering true guarantees), setInput
      appends the new bytes to what was owed before. */
  lemma SetInputExtendsStream(c: Compressor, b: seq<byte>, off: int, len: int)
    requires Valid(c) && InBounds(|b|, off, len)
    requires c.userLen == 0 && c.uncompressedOff == 0
    ensures Unconsumed(SetInput(c, Some(b), off, len).state) == Unconsumed(c) + b[off .. off + len]
  {
    SetInputAppends(c, b, off, len);
    assert Unconsumed(c) == c.uncompressedBuf.data[..c.uncompressedBuf.position];
  }

  /** needsInput(): answers whether the caller should supply more input,
      topping the pending buffer up from the caller view on the way. */
  function NeedsInput(c: Compressor): (r: (Compressor, bool))
    requires Valid(c)
    ensures Valid(r.0)
    ensures Unconsumed(r.0) == Unconsumed(c)
    ensures r.1 <==> && c.compressedBuf.Remaining() == 0
                     && !(c.keepUncompressedBuf && c.uncompressedLen > 0)
                     && c.userLen < c.uncompressedBuf.Remaining()
    ensures r.1 ==> r.0.userLen == 0 && r.0.uncompressedOff == 0 && r.0.compressedBuf.Remaining() == 0
    ensures c.compressedBuf.Remaining() > 0 || (c.keepUncompressedBuf && c.uncompressedLen > 0) ==> r.0 == c
    ensures r.0 == c.(uncompressedBuf := r.0.uncompressedBuf, uncompressedLen := r.0.uncompressedLen,
                      userOff := r.0.userOff, userLen := r.0.userLen)
  {
    if c.compressedBuf.Remaining() > 0 then (c, false)
    else if c.keepUncompressedBuf && c.uncompressedLen > 0 then (c, false)
    else if c.uncompressedBuf.Remaining() > 0 then
      if c.userLen <= 0 && c.uncompressedLen <= 0 then (c, true)
      else
        var r := SetInputFromSavedData(c);
        SavedDataKeepsStream(c);
        (r, r.uncompressedBuf.Remaining() > 0)
    else (c, false)
  }

  /** finish(): later engine calls are told that the input is complete. */
  function Finish(c: Compressor): (r: Compressor)
    requires Valid(c)
    ensures Valid(r) && Unconsumed(r) == Unconsumed(c)
    ensures CompressOffer(r).endOfStream
    ensures CompressOffer(r).len == CompressOffer(c).len
  {
    c.(finish := true)
  }

  /** finished(): the engine has ended the stream and every compressed byte
      has been collected. */
  predicate Finished(c: Compressor)
  {
    c.finished && c.compressedBuf.Remaining() == 0
  }

  /** finished() turns true exactly on the compress call that hands out the
      last waiting byte of a stream the engine has ended, and not while any
      such byte is still waiting. */
  lemma FinishedOnceDrained(c: Compressor, b: seq<byte>, off: int, len: int, reply: DeflateReply)
    requires Valid(c) && reply.Fits(CompressOffer(c)) && InBounds(|b|, off, len)
    requires c.finished && c.compressedBuf.Remaining() > 0
    ensures !Finished(c)
    ensures Finished(Compress(c, Some(b), off, len, reply).state) <==> len >= c.compressedBuf.Remaining()
  {
  }

  /** What compressBytesDirect offers isal_deflate in state c. */
  function NativeOffer(c: Compressor): Offer
  {
    Offer(c.uncompressedOff, c.uncompressedLen, c.bufferSize, c.endOfStream)
  }

  /** What a compress call that reaches the engine offers it: compress first
      raises end_of_stream when finish() was called. */
  function CompressOffer(c: Compressor): Offer
  {
    Offer(c.uncompressedOff, c.uncompressedLen, c.bufferSize, c.endOfStream || c.finish)
  }

  /** isal_deflate really runs: the stream is live and both buffers have a
      native address. */
  predicate EngineRuns(c: Compressor)
  {
    c.hasStream && c.uncompressedBuf.direct && c.compressedBuf.direct
  }

  /** Bytes the engine reports consumed from the pending window. */
  function EngineConsumed(c: Compressor, reply: DeflateReply): int
  {
    if EngineRuns(c) && reply.status.CompOk? then c.uncompressedLen - reply.availIn else 0
  }

  /** Compressed bytes the native step reports produced. */
  function EngineProduced(c: Compressor, reply: DeflateReply): int
  {
    if EngineRuns(c) && reply.status.CompOk? then c.bufferSize - reply.availOut else 0
  }

  /** The part of compressBytesDirect after both buffer addresses were
      found: isal_deflate consumes from the pending window and writes to the
      start of the ready buffer; COMP_OK moves the window past the consumed
      bytes and reports the produced count, INVALID_FLUSH and
      ISAL_INVALID_LEVEL throw, any other status reports 0; an engine that
      reached ZSTATE_END marks the compressor finished in every case. */
  function Deflate(c: Compressor, reply: DeflateReply): (s: Step<Compressor, int>)
    requires Shaped(c) && EngineRuns(c)
    requires reply.Fits(NativeOffer(c))
    ensures s.state == c.(compressedBuf := s.state.compressedBuf, finished := c.finished || reply.reachedEnd,
                          uncompressedOff := c.uncompressedOff + EngineConsumed(c, reply),
                          uncompressedLen := c.uncompressedLen - EngineConsumed(c, reply))
    ensures s.state.compressedBuf == c.compressedBuf.(data := s.state.compressedBuf.data)
    ensures |s.state.compressedBuf.data| == c.bufferSize
    ensures s.state.compressedBuf.data[..|reply.output|] == reply.output
    ensures s.result.Thrown? <==> reply.status.InvalidFlush? || reply.status.InvalidLevel?
    ensures s.result.Thrown? ==> s.result.exception == IllegalArgumentException
    ensures s.result.Ok? ==> s.result.value == EngineProduced(c, reply) == |reply.output|
                             || s.result.value == EngineProduced(c, reply) == 0
  {
    var written := c.compressedBuf.(data := Overwrite(c.compressedBuf.data, 0, reply.output));
    var c1 := c.(compressedBuf := written, finished := c.finished || reply.reachedEnd);
    match reply.status
    case CompOk =>
      Step(c1.(uncompressedOff := c.uncompressedOff + (c.uncompressedLen - reply.availIn),
               uncompressedLen := reply.availIn),
           Ok(c.bufferSize - reply.availOut))
    case InvalidFlush => Step(c1, Thrown(IllegalArgumentException))
    case InvalidLevel => Step(c1, Thrown(IllegalArgumentException))
    case OtherDeflateStatus(_) => Step(c1, Ok(0))
  }

  /** compressBytesDirect(): a NullPointerException without a stream, 0
      without a native address for either buffer, one isal_deflate call
      otherwise. */
  function CompressBytesDirect(c: Compressor, reply: DeflateReply): (s: Step<Compressor, int>)
    requires Shaped(c)
    requires reply.Fits(NativeOffer(c))
    ensures s.state == c.(compressedBuf := s.state.compressedBuf,
                          finished := c.finished || (EngineRuns(c) && reply.reachedEnd),
                          uncompressedOff := c.uncompressedOff + EngineConsumed(c, reply),
                          uncompressedLen := c.uncompressedLen - EngineConsumed(c, reply))
    ensures s.state.compressedBuf == c.compressedBuf.(data := s.state.compressedBuf.data)
    ensures Shaped(s.state)
    ensures 0 <= EngineConsumed(c, reply) <= c.uncompressedLen
    ensures !c.hasStream ==> s == Step(c, Thrown(NullPointerException))
    ensures s.result.Thrown? <==>
              !c.hasStream || (EngineRuns(c) && (reply.status.InvalidFlush? || reply.status.InvalidLevel?))
    ensures s.result.Thrown? && c.hasStream ==> s.result.exception == IllegalArgumentException
    ensures s.result.Ok? ==> s.result.value == EngineProduced(c, reply)
    ensures s.result.Ok? ==> 0 <= s.result.value <= c.bufferSize
    ensures EngineRuns(c) ==> s.state.compressedBuf.data[..|reply.output|] == reply.output
  {
    if !c.hasStream then Step(c, Thrown(NullPointerException))
    else if !c.uncompressedBuf.direct || !c.compressedBuf.direct then Step(c, Ok(0))
    else Deflate(c, reply)
  }

  /** The tail of compress: up to `len` of the bytes waiting in the ready
      buffer are copied to `b[off..]` and counted as written. compress does
      this straight away when output is waiting, and after the engine call
      otherwise. */
  function Deliver(c: Compressor, b: seq<byte>, off: int, len: int): (s: Step<Compressor, Delivery>)
    requires Valid(c) && InBounds(|b|, off, len)
    ensures Valid(s.state) && s.result.Ok?
    ensures s.result.value.count == Min(c.compressedBuf.Remaining(), len)
    ensures s.state.bytesWritten == c.bytesWritten + s.result.value.count
    ensures s.state.compressedBuf
            == c.compressedBuf.(position := c.compressedBuf.position + s.result.value.count)
    ensures s.state.(compressedBuf := c.compressedBuf, bytesWritten := c.bytesWritten) == c
    ensures |s.result.value.dest| == |b|
    ensures s.result.value.dest[off .. off + s.result.value.count]
            == c.compressedBuf.data[c.compressedBuf.position .. c.compressedBuf.position + s.result.value.count]
    ensures s.result.value.dest[..off] == b[..off]
    ensures s.result.value.dest[off + s.result.value.count..] == b[off + s.result.value.count..]
  {
    var n := Min(c.compressedBuf.Remaining(), len);
    Step(c.(compressedBuf := c.compressedBuf.Advance(n), bytesWritten := c.bytesWritten + n),
         Ok(Delivery(n, c.compressedBuf.CopyOut(b, off, n))))
  }

  /** The pending-side update after a completed engine call: a consumed window
      clears the pending buffer, an unconsumed one is kept for the next call. */
  function SettlePending(c: Compressor): (r: Compressor)
    requires Shaped(c) && c.uncompressedOff + c.uncompressedLen == c.uncompressedBuf.position
    requires c.finished ==> c.endOfStream
    ensures Valid(r)
    ensures r.keepUncompressedBuf <==> r.uncompressedLen > 0
    ensures r.uncompressedLen == 0 ==> r.uncompressedOff == 0 && r.uncompressedBuf.position == 0
    ensures r.uncompressedBuf.data == c.uncompressedBuf.data
    ensures r.uncompressedLen == c.uncompressedLen
    ensures r.uncompressedLen > 0 ==> r.uncompressedOff == c.uncompressedOff
    ensures r == c.(keepUncompressedBuf := r.keepUncompressedBuf, uncompressedBuf := r.uncompressedBuf,
                    uncompressedOff := r.uncompressedOff)
  {
    if c.uncompressedLen <= 0 then
      c.(keepUncompressedBuf := false, uncompressedBuf := c.uncompressedBuf.Clear(),
         uncompressedOff := 0, uncompressedLen := 0)
    else c.(keepUncompressedBuf := true)
  }

  /** What compress does to the ready buffer and the flags before it calls
      compressBytesDirect: the ready buffer is rewound to its full size and
      a pending finish() raises end_of_stream. */
  function PrepareRound(c: Compressor): (r: Compressor)
    requires Valid(c)
    ensures Valid(r)
    ensures r.compressedBuf.position == 0 && r.compressedBuf.limit == r.bufferSize
    ensures r.endOfStream == (c.endOfStream || c.finish)
    ensures EngineRuns(r) == EngineRuns(c) && NativeOffer(r) == CompressOffer(c)
    ensures r == c.(compressedBuf := r.compressedBuf, endOfStream := r.endOfStream)
  {
    c.(compressedBuf := c.compressedBuf.Rewind().WithLimit(c.bufferSize),
       endOfStream := c.endOfStream || c.finish)
  }

  /** What compress does after compressBytesDirect returned `n`: the ready
      buffer is cut to the produced bytes and the pending buffer settled. */
  function FinishRound(c: Compressor, n: int): (r: Compressor)
    requires Shaped(c) && c.uncompressedOff + c.uncompressedLen == c.uncompressedBuf.position
    requires c.finished ==> c.endOfStream
    requires 0 <= n <= c.bufferSize
    ensures Valid(r)
    ensures r.compressedBuf == c.compressedBuf.WithLimit(n)
    ensures r.keepUncompressedBuf <==> r.uncompressedLen > 0
    ensures r.uncompressedLen == 0 ==> r.uncompressedBuf.position == 0
    ensures r.uncompressedBuf.data == c.uncompressedBuf.data && r.uncompressedLen == c.uncompressedLen
    ensures r.uncompressedLen > 0 ==> r.uncompressedOff == c.uncompressedOff
    ensures r == c.(compressedBuf := r.compressedBuf, keepUncompressedBuf := r.keepUncompressedBuf,
                    uncompressedBuf := r.uncompressedBuf, uncompressedOff := r.uncompressedOff)
  {
    SettlePending(c.(compressedBuf := c.compressedBuf.WithLimit(n)))
  }

  /** The middle of compress, reached when no output is waiting: prepare,
      call compressBytesDirect, and on success finish the round. The result
      is the produced count. */
  function EngineRound(c: Compressor, reply: DeflateReply): (s: Step<Compressor, int>)
    requires Valid(c) && reply.Fits(CompressOffer(c))
    ensures Valid(s.state)
    ensures s.result.Thrown? <==>
              !c.hasStream || (EngineRuns(c) && (reply.status.InvalidFlush? || reply.status.InvalidLevel?))
    ensures s.result.Ok? ==>
              && s.result.value == EngineProduced(c, reply)
              && s.state.compressedBuf.position == 0
              && s.state.compressedBuf.limit == EngineProduced(c, reply)
              && s.state.compressedBuf.data[..EngineProduced(c, reply)]
                 == reply.output[..EngineProduced(c, reply)]
    ensures 0 <= EngineConsumed(c, reply) <= c.uncompressedLen
    ensures s.state.uncompressedBuf.data == c.uncompressedBuf.data
    ensures s.state.uncompressedLen == c.uncompressedLen - EngineConsumed(c, reply)
    ensures s.state.uncompressedLen > 0 ==>
              s.state.uncompressedOff == c.uncompressedOff + EngineConsumed(c, reply)
    ensures s.state.userBuf == c.userBuf && s.state.userOff == c.userOff && s.state.userLen == c.userLen
  {
    var e := CompressBytesDirect(PrepareRound(c), reply);
    if e.result.Thrown? then e
    else Step(FinishRound(e.state, e.result.value), e.result)
  }

  /** compress(b, off, len), where `reply` is what isal_deflate answers if
      this call reaches it. */
  function Compress(c: Compressor, b: Option<seq<byte>>, off: int, len: int, reply: DeflateReply)
    : (s: Step<Compressor, Delivery>)
    requires Valid(c)
    requires reply.Fits(CompressOffer(c))
    ensures Valid(s.state)
    ensures b.None? ==> s == Step(c, Thrown(NullPointerException))
    ensures b.Some? && !InBounds(|b.value|, off, len) ==> s == Step(c, Thrown(ArrayIndexOutOfBoundsException))
    ensures s.result.Thrown? <==>
              || !ArgsOk(b, off, len)
              || (c.compressedBuf.Remaining() == 0 && EngineRound(c, reply).result.Thrown?)
    ensures s.result.Ok? ==>
              && 0 <= s.result.value.count <= len
              && s.state.bytesWritten == c.bytesWritten + s.result.value.count
  {
    if b.None? then Step(c, Thrown(NullPointerException))
    else if !InBounds(|b.value|, off, len) then Step(c, Thrown(ArrayIndexOutOfBoundsException))
    else if c.compressedBuf.Remaining() > 0 then Deliver(c, b.value, off, len)
    else
      var e := EngineRound(c, reply);
      if e.result.Thrown? then Step(e.state, Thrown(e.result.exception))
      else Deliver(e.state, b.value, off, len)
  }

  /** While compressed output is waiting, compress only hands it out: the
      engine is not called, and only the ready cursor and the written count
      move. */
  lemma DrainIgnoresEngine(c: Compressor, b: seq<byte>, off: int, len: int, reply: DeflateReply,
                           reply': DeflateReply)
    requires Valid(c) && reply.Fits(CompressOffer(c)) && reply'.Fits(CompressOffer(c))
    requires InBounds(|b|, off, len) && c.compressedBuf.Remaining() > 0
    ensures Compress(c, Some(b), off, len, reply) == Compress(c, Some(b), off, len, reply')
    ensures var s := Compress(c, Some(b), off, len, reply);
            && s.result.Ok?
            && s.result.value.count == Min(c.compressedBuf.Remaining(), len)
            && s.state.(compressedBuf := c.compressedBuf, bytesWritten := c.bytesWritten) == c
  {
  }

  /** A successful compress writes exactly `b[off .. off + n]` of the
      caller's array and leaves the rest of it alone. */
  lemma CompressWritesOnlyItsRange(c: Compressor, b: Option<seq<byte>>, off: int, len: int,
                                   reply: DeflateReply)
    requires Valid(c) && reply.Fits(CompressOffer(c))
    ensures var s := Compress(c, b, off, len, reply);
            s.result.Ok? ==>
              && |s.result.value.dest| == |b.value|
              && s.result.value.dest[..off] == b.value[..off]
              && s.result.value.dest[off + s.result.value.count..] == b.value[off + s.result.value.count..]
  {
  }

  /** When compress had to call the engine, what it hands out is the start
      of what the engine produced, and the rest stays waiting in the ready
      buffer for the next call. */
  lemma CompressHandsOutEngineOutput(c: Compressor, b: seq<byte>, off: int, len: int, reply: DeflateReply)
    requires Valid(c) && reply.Fits(CompressOffer(c))
    requires InBounds(|b|, off, len) && c.compressedBuf.Remaining() == 0
    ensures var s := Compress(c, Some(b), off, len, reply);
            s.result.Ok? ==>
              && s.result.value.count == Min(EngineProduced(c, reply), len)
              && s.result.value.dest[off .. off + s.result.value.count] == reply.output[..s.result.value.count]
              && s.state.compressedBuf.Remaining() == EngineProduced(c, reply) - s.result.value.count
  {
    var s := Compress(c, Some(b), off, len, reply);
    var e := EngineRound(c, reply);
    if s.result.Ok? {
      var n := s.result.value.count;
      assert s == Deliver(e.state, b, off, len);
      assert e.state.compressedBuf.data[..n] == reply.output[..n] by {
        assert e.state.compressedBuf.data[..EngineProduced(c, reply)][..n] == e.state.compressedBuf.data[..n];
      }
    }
  }

  /** A state whose window moved k bytes into the old window, over the same
      pending bytes and the same caller view, owes the engine the old stream
      minus its first k bytes. */
  lemma WindowAdvance(c: Compressor, s: Compressor, k: int)
    requires Valid(c) && Valid(s) && 0 <= k <= c.uncompressedLen
    requires s.uncompressedBuf.data == c.uncompressedBuf.data
    requires s.userBuf == c.userBuf && s.userOff == c.userOff && s.userLen == c.userLen
    requires s.uncompressedLen == c.uncompressedLen - k
    requires s.uncompressedLen > 0 ==> s.uncompressedOff == c.uncompressedOff + k
    ensures Unconsumed(s) == Unconsumed(c)[k..]
  {
    var w, u := c.uncompressedBuf.data, c.userBuf[c.userOff .. c.userOff + c.userLen];
    var o, l, o' := c.uncompressedOff, c.uncompressedLen, s.uncompressedOff;
    assert Unconsumed(c) == w[o .. o + l] + u;
    assert Unconsumed(s) == w[o' .. o' + (l - k)] + u;
    DropFromWindow(w, o, l, k, o', u);
  }

  /** The engine round loses no caller byte: what is still owed to the
      engine afterwards is what was owed before minus the prefix the engine
      reported consumed. */
  lemma EngineRoundConsumesPrefix(c: Compressor, reply: DeflateReply)
    requires Valid(c) && reply.Fits(CompressOffer(c))
    ensures Unconsumed(EngineRound(c, reply).state) == Unconsumed(c)[EngineConsumed(c, reply)..]
  {
    WindowAdvance(c, EngineRound(c, reply).state, EngineConsumed(c, reply));
  }

  /** The rest of what one engine round does to the compressor: a pending
      finish() has become end_of_stream; `finished` is set once the engine
      reports the end of the stream; the counters and flags the caller set
      are untouched; an engine error leaves the ready buffer rewound to its
      full size, so the next compress hands its old bytes out (see
      EngineErrorLeavesStaleOutput), and the pending window as it was; a
      completed round keeps the pending buffer exactly when bytes remain in
      the window. */
  lemma EngineRoundEffects(c: Compressor, reply: DeflateReply)
    requires Valid(c) && reply.Fits(CompressOffer(c))
    ensures var s := EngineRound(c, reply);
            && s.state.endOfStream == (c.endOfStream || c.finish)
            && (s.state.finished <==> c.finished || (EngineRuns(c) && reply.reachedEnd))
            && s.state.hasStream == c.hasStream && s.state.finish == c.finish
            && s.state.bytesRead == c.bytesRead && s.state.bytesWritten == c.bytesWritten
            && s.state.bufferSize == c.bufferSize
    ensures var s := EngineRound(c, reply);
            s.result.Thrown? ==>
              && s.result.exception == (if c.hasStream then IllegalArgumentException else NullPointerException)
              && s.state.compressedBuf.position == 0
              && s.state.compressedBuf.limit == c.bufferSize
              && s.state.uncompressedOff == c.uncompressedOff
              && s.state.uncompressedBuf == c.uncompressedBuf
              && s.state.keepUncompressedBuf == c.keepUncompressedBuf
    ensures var s := EngineRound(c, reply);
            s.result.Ok? ==>
              && (s.state.keepUncompressedBuf <==> s.state.uncompressedLen > 0)
              && (s.state.uncompressedLen == 0 ==> s.state.uncompressedBuf.position == 0)
  {
  }

  /** What an engine error leaves behind in the ready buffer: compress
      rewound it and opened it to its full size before the engine call, and
      the throw skips the cut to the produced count. The next compress
      therefore finds output waiting and, without calling the engine, hands
      out up to `len'` bytes of the buffer's contents, none of which a
      successful round reported as produced. */
  lemma EngineErrorLeavesStaleOutput(c: Compressor, b: seq<byte>, off: int, len: int, reply: DeflateReply,
                                     b': seq<byte>, off': int, len': int, reply': DeflateReply)
    requires Valid(c) && reply.Fits(CompressOffer(c))
    requires InBounds(|b|, off, len) && c.compressedBuf.Remaining() == 0 && c.bufferSize > 0
    requires Compress(c, Some(b), off, len, reply).result.Thrown?
    requires InBounds(|b'|, off', len')
    requires reply'.Fits(CompressOffer(Compress(c, Some(b), off, len, reply).state))
    ensures var s := Compress(c, Some(b), off, len, reply).state;
            var t := Compress(s, Some(b'), off', len', reply');
            && s.compressedBuf.position == 0 && s.compressedBuf.Remaining() == c.bufferSize
            && t.result.Ok?
            && t.result.value.count == Min(c.bufferSize, len')
            && t.result.value.dest[off' .. off' + t.result.value.count]
               == s.compressedBuf.data[..t.result.value.count]
  {
    var p := PrepareRound(c);
    var e := CompressBytesDirect(p, reply);
    assert e.state.compressedBuf == p.compressedBuf.(data := e.state.compressedBuf.data);
    assert Compress(c, Some(b), off, len, reply).state == e.state;
  }

  /** No byte is lost by compress: the stream owed to the engine loses exactly
      the prefix that the engine reported consumed, and nothing when the call
      only handed out waiting output or failed. */
  lemma CompressConsumesPrefix(c: Compressor, b: Option<seq<byte>>, off: int, len: int, reply: DeflateReply)
    requires Valid(c) && reply.Fits(CompressOffer(c))
    ensures var s := Compress(c, b, off, len, reply);
            Unconsumed(s.state)
            == Unconsumed(c)[if ArgsOk(b, off, len) && c.compressedBuf.Remaining() == 0
                             then EngineConsumed(c, reply) else 0 ..]
  {
    if ArgsOk(b, off, len) {
      if c.compressedBuf.Remaining() > 0 {
        DeliverKeepsStream(c, b.value, off, len);
      } else {
        var e := EngineRound(c, reply);
        EngineRoundConsumesPrefix(c, reply);
        if e.result.Ok? {
          DeliverKeepsStream(e.state, b.value, off, len);
        }
      }
    }
  }

  /** Handing out compressed bytes does not touch the stream owed to the
      engine. */
  lemma DeliverKeepsStream(c: Compressor, b: seq<byte>, off: int, len: int)
    requires Valid(c) && InBounds(|b|, off, len)
    ensures Unconsumed(Deliver(c, b, off, len).state) == Unconsumed(c)
  {
    var r := Deliver(c, b, off, len).state;
    assert r.uncompressedBuf == c.uncompressedBuf && r.uncompressedOff == c.uncompressedOff;
    assert r.uncompressedLen == c.uncompressedLen && r.userBuf == c.userBuf;
    assert r.userOff == c.userOff && r.userLen == c.userLen;
  }

  /** reset(): start a new stream on the same engine handle. */
  function Reset(c: Compressor): (s: Step<Compressor, ()>)
    requires Valid(c)
    ensures !c.hasStream ==> s == Step(c, Thrown(NullPointerException))
    ensures c.hasStream ==> s.result.Ok?
    ensures s.result.Ok? ==>
              && Valid(s.state)
              && !s.state.finish && !s.state.finished && !s.state.keepUncompressedBuf
              && s.state.uncompressedOff == 0 && s.state.uncompressedLen == 0
              && s.state.uncompressedBuf.position == 0
              && s.state.userOff == 0 && s.state.userLen == 0
              && s.state.bytesRead == 0 && s.state.bytesWritten == 0
              && s.state.compressedBuf.Remaining() == 0
              && Unconsumed(s.state) == []
              && !Finished(s.state)
              && (s.state.bufferSize > 0 ==> NeedsInput(s.state).1)
    ensures s.state.hasStream == c.hasStream && s.state.endOfStream == c.endOfStream
  {
    match CheckStream(c)
    case Thrown(e) => Step(c, Thrown(e))
    case Ok(_) =>
      Step(c.(finish := false, finished := false,
              uncompressedBuf := c.uncompressedBuf.Clear(), uncompressedLen := 0, uncompressedOff := 0,
              compressedBuf := c.compressedBuf.EmptyAt(c.bufferSize),
              userOff := 0, userLen := 0, bytesRead := 0, bytesWritten := 0,
              keepUncompressedBuf := false),
           Ok(()))
  }

  /** end(): release the engine handle; a second call does nothing. */
  function End(c: Compressor): (r: Compressor)
    ensures !r.hasStream
    ensures r.(hasStream := c.hasStream) == c
  {
    if c.hasStream then c.(hasStream := false) else c
  }

  /** reset() as written keeps `end_of_stream`: once a stream was finished
      and compressed, the next stream's first engine call is told that the
      input is complete although finish() has not been called. */
  lemma EndOfStreamSurvivesReset(c: Compressor, b: seq<byte>, off: int, len: int, reply: DeflateReply)
    requires Valid(c) && c.hasStream && c.compressedBuf.Remaining() == 0 && InBounds(|b|, off, len)
    requires reply.Fits(CompressOffer(Finish(c))) && reply.status.CompOk?
    ensures var s := Compress(Finish(c), Some(b), off, len, reply);
            && s.result.Ok?
            && !Reset(s.state).state.finish
            && CompressOffer(Reset(s.state).state).endOfStream
  {
    var f := Finish(c);
    EngineRoundEffects(f, reply);
  }

  /** reset() with `end_of_stream` cleared as well. */
  function ResetClearingEndOfStream(c: Compressor): (s: Step<Compressor, ()>)
    requires Valid(c)
    ensures Valid(s.state)
    ensures s.result == Reset(c).result
    ensures s.result.Ok? ==> !CompressOffer(s.state).endOfStream && s.state.(endOfStream := true) == Reset(c).state.(endOfStream := true)
    ensures s.result.Thrown? ==> s.state == c
  {
    var r := Reset(c);
    if r.result.Ok? then Step(r.state.(endOfStream := false), r.result) else r
  }
}
