# isa-l compressor and decompressor coordinators

This project models, in Dafny, how Hadoop adapts the isa-l deflate/inflate
engine to the incremental `Compressor` / `Decompressor` protocol. It covers
`IsalCompressor`, `IsalDecompressor` with its zero-copy subclass
`IsalDirectDecompressor`, and the JNI steps `compressBytesDirect`,
`inflateBytesDirect` and `getRemaining`. These keep three buffers apart:
- the caller view (`userBuf`, `userBufOff`, `userBufLen`);
- the pending input buffer and its engine window (`...DirectBufOff/Len`);
- the ready output buffer, whose undelivered bytes lie between its position
  and its limit.

Every Java method is a pure function from the coordinator's fields to its
fields afterwards plus a `Result`. The state after a thrown exception is
modelled too, because Java does not roll back fields it already wrote. A
`ByteBuffer` is a record of data, position, limit and direct-ness.

The engine is not modelled. One `isal_deflate` or `isal_inflate` call is a
reply value that the caller of the model passes in. The reply carries:
- a return code;
- `avail_in` and `avail_out`;
- the bytes written;
- the end flag.

The reply is constrained only by what the glue offered (`Fits`). The
offered range, the `off`/`len` and produced-count updates, and the error
dispatch around the call are concrete.

Files and modules:
- `java_nio.dfy` (`JavaNio`): bytes, `Option`, Java exceptions, `Result`/`Step`, and the `ByteBuffer` operations used.
- `isal_engine.dfy` (`IsalEngine`): the offer/reply description of one engine call.
- `isal_compressor_state.dfy` (`CompressorState`): the compressor's fields, its invariant `Valid`, and `Unconsumed`, the caller bytes the engine has yet to consume.
- `isal_compressor.dfy` (`IsalCompressor`): the compressor's operations and `compressBytesDirect`.
- `compressor_runs.dfy` (`CompressorRuns`): arbitrary call sequences on one compressor.
- `isal_decompressor_state.dfy` (`DecompressorState`): the decompressor's fields, `Valid`, `Coherent` (valid with `directBufferSize` equal to the buffers' size) and `Unconsumed`.
- `isal_decompressor.dfy` (`IsalDecompressor`): the decompressor's operations, `inflateBytesDirect`, `getRemaining` and `inflateDirect`.
- `isal_direct_decompressor.dfy` (`IsalDirectDecompressor`): the zero-copy subclass.
- `decompressor_runs.dfy` (`DecompressorRuns`): arbitrary call sequences on one decompressor.

Most contracts state one of two things, for every call and then for every
sequence of calls a protocol-abiding caller can make:
- **Conservation:** the bytes a call takes off the owed stream, followed by
  what is still owed afterwards, equal what was owed before followed by the
  bytes the call hands in.
- **Error cases:** the exact condition under which each exception is thrown,
  and what the state is afterwards.

The model follows the code as written, also where it departs from what the
Compressor and Decompressor javadoc the classes carry would lead a caller to
expect:
- compress before any setInput still calls the engine, with 0 bytes
  offered. It does not skip the call.
- Bad arguments are rejected before anything changes. But some later
  failures happen after fields were written:
  - the decompressor's refill writes its window fields before the put can
    overflow;
  - reset opens the ready buffer after clearing the window;
  - an engine error in compress or decompress leaves the ready buffer
    rewound and opened to its full size, because the throw skips the cut to
    the produced count. The next call therefore hands out up to `len` of the
    buffer's old bytes without calling the engine, although no successful
    round produced them.
- The decompressor refills its pending buffer only in needsInput, never
  inside decompress. The compressor pulls further caller bytes only in
  needsInput, not after a compress round.
- A null or undersized destination array raises NullPointerException or
  ArrayIndexOutOfBoundsException, not IllegalArgumentException.
- inflateDirect does not restore every binding: `directBufferSize` leaks.
  See Findings. Through the public API the leak needs an
  IsalDirectDecompressor and a direct `dst` with more than 65536 bytes of
  room. It lasts until a later zero-copy call into a `dst` of at most 65536
  remaining bytes.

## Model

| member | source | states |
|---|---|---|
| IsalCompressor.Create | hadoop-common-project/hadoop-common/src/main/java/org/apache/hadoop/io/compress/isal/IsalCompressor.java:126-136 | A negative size throws IllegalArgumentException, as allocateDirect does. Otherwise the compressor satisfies the invariant, holds a live stream and buffers of the given size, owes the engine nothing, has an empty ready buffer and is not finished. |
| IsalCompressor.CreateDefault | hadoop-common-project/hadoop-common/src/main/java/org/apache/hadoop/io/compress/isal/IsalCompressor.java:141-143 | The default constructor uses DEFAULT_DIRECT_BUFFER_SIZE (64 KiB). The fresh compressor satisfies the invariant, holds a live stream, has an empty ready buffer and is not finished. |
| IsalCompressor.FreshNeedsInput | hadoop-common-project/hadoop-common/src/main/java/org/apache/hadoop/io/compress/isal/IsalCompressor.java:253-256 | For any positive buffer size, the default one included, a freshly constructed compressor answers needsInput() with true and stays as it was. |
| IsalCompressor.CheckStream | hadoop-common-project/hadoop-common/src/main/java/org/apache/hadoop/io/compress/isal/IsalCompressor.java:408-411 | Throws NullPointerException exactly when the stream handle is gone. |
| IsalCompressor.SetInputFromSavedData | hadoop-common-project/hadoop-common/src/main/java/org/apache/hadoop/io/compress/isal/IsalCompressor.java:192-199 | Copies exactly min(userBufLen, room left in the pending buffer) bytes. The fill position grows and the caller view shrinks by that count, so userBufOff + userBufLen is preserved. uncompressedDirectBufLen ends equal to the fill position and within capacity. Afterwards the view is used up or the pending buffer is full. No other field changes. |
| IsalCompressor.SavedDataMovesBytes | hadoop-common-project/hadoop-common/src/main/java/org/apache/hadoop/io/compress/isal/IsalCompressor.java:193-197 | Contents, not only counts: the filled part of the pending buffer grows by exactly the bytes the caller view gives up, in order. |
| IsalCompressor.SavedDataKeepsStream | hadoop-common-project/hadoop-common/src/main/java/org/apache/hadoop/io/compress/isal/IsalCompressor.java:192-199 | When the window starts at 0, the refill keeps the invariant and leaves the stream of bytes owed to the engine unchanged. |
| IsalCompressor.SetInput | hadoop-common-project/hadoop-common/src/main/java/org/apache/hadoop/io/compress/isal/IsalCompressor.java:167-185 | A null array throws NullPointerException and a bad off/len throws ArrayIndexOutOfBoundsException, both with no state change. Legal arguments succeed: the new array becomes the caller view, the window restarts at 0, k = min(len, room) bytes are loaded, the ready buffer becomes empty, bytesRead grows by exactly len, and the invariant is kept. |
| IsalCompressor.SetInputAppends | hadoop-common-project/hadoop-common/src/main/java/org/apache/hadoop/io/compress/isal/IsalCompressor.java:174-178 | No byte of the new input is lost: afterwards the stream owed to the engine is the filled part of the pending buffer followed by all len new bytes. |
| IsalCompressor.SetInputExtendsStream | hadoop-common-project/hadoop-common/src/main/java/org/apache/hadoop/io/compress/isal/IsalCompressor.java:174-178 | When the previous view is used up and no window is kept (what needsInput() answering true guarantees), setInput appends exactly the new bytes to the stream owed before. |
| IsalCompressor.NeedsInput | hadoop-common-project/hadoop-common/src/main/java/org/apache/hadoop/io/compress/isal/IsalCompressor.java:242-267 | Answers true iff all of these hold: no compressed output is waiting, no window is being kept, and the caller view is shorter than the room left. It never changes the stream owed to the engine. A true answer leaves the view used up, the window at 0 and the ready buffer empty. It changes nothing while output is waiting or a window is kept. Only the pending-buffer and caller-view fields can change. |
| IsalCompressor.Finish | hadoop-common-project/hadoop-common/src/main/java/org/apache/hadoop/io/compress/isal/IsalCompressor.java:274-276 | Later engine calls are told that the input is complete. The offered length and the owed stream are unchanged. |
| IsalCompressor.Finished | hadoop-common-project/hadoop-common/src/main/java/org/apache/hadoop/io/compress/isal/IsalCompressor.java:286-289 | finished(): the engine has reported the end of the stream and no compressed byte is left waiting in the ready buffer. Its behaviour is stated by FinishedOnceDrained. |
| IsalCompressor.FinishedOnceDrained | hadoop-common-project/hadoop-common/src/main/java/org/apache/hadoop/io/compress/isal/IsalCompressor.java:286-289 | Once the engine has ended the stream, finished() stays false while output is waiting. It turns true on the compress call whose len covers everything still waiting, and only then. |
| IsalCompressor.Deflate | hadoop-common-project/hadoop-common/src/main/native/src/org/apache/hadoop/io/compress/isal/IsalCompressor.c:222-261 | The engine is offered uncompressedDirectBufLen bytes at uncompressedDirectBufOff, with BufferSize of output room. Its output lands at the start of the ready buffer. On COMP_OK: off' = off + consumed, len' = avail_in and produced = BufferSize - avail_out. INVALID_FLUSH and ISAL_INVALID_LEVEL throw IllegalArgumentException with off/len untouched; any other code reports 0. ZSTATE_END sets finished, which is never cleared. |
| IsalCompressor.CompressBytesDirect | hadoop-common-project/hadoop-common/src/main/native/src/org/apache/hadoop/io/compress/isal/IsalCompressor.c:181-263 | No stream: NullPointerException and 0, with nothing changed. A missing buffer address returns 0 without calling the engine. It throws iff the stream is gone or the engine returns INVALID_FLUSH or ISAL_INVALID_LEVEL. Consumed bytes lie in [0, len], so off + len is conserved. The result lies in [0, BufferSize]. Only the ready bytes, the window and finished change. |
| IsalCompressor.Deliver | hadoop-common-project/hadoop-common/src/main/java/org/apache/hadoop/io/compress/isal/IsalCompressor.java:349-354 | Copies min(waiting, len) bytes from the ready cursor into b[off..], leaves the rest of b alone, and advances the ready cursor and bytesWritten by exactly that count. Nothing else changes. |
| IsalCompressor.SettlePending | hadoop-common-project/hadoop-common/src/main/java/org/apache/hadoop/io/compress/isal/IsalCompressor.java:337-346 | After an engine call, keepUncompressedBuf holds iff bytes remain in the window. An exhausted window clears the pending buffer, with off = len = 0. Otherwise the window stays where the engine left it. |
| IsalCompressor.PrepareRound | hadoop-common-project/hadoop-common/src/main/java/org/apache/hadoop/io/compress/isal/IsalCompressor.java:321-327 | Before the engine call, the ready buffer is opened to its full size and end_of_stream is raised when finish() was called. So the native offer is exactly what compress promises the engine. |
| IsalCompressor.FinishRound | hadoop-common-project/hadoop-common/src/main/java/org/apache/hadoop/io/compress/isal/IsalCompressor.java:334-346 | The ready buffer is cut to the n produced bytes, and the pending side is settled as SettlePending states. The invariant is restored. |
| IsalCompressor.EngineRound | hadoop-common-project/hadoop-common/src/main/java/org/apache/hadoop/io/compress/isal/IsalCompressor.java:321-346 | It throws iff the stream is gone or the engine reports an invalid flush or level. Success makes the engine's first `produced` output bytes the ready buffer's contents. The window shrinks by exactly the consumed count and the caller view is untouched. |
| IsalCompressor.Compress | hadoop-common-project/hadoop-common/src/main/java/org/apache/hadoop/io/compress/isal/IsalCompressor.java:303-355 | A null array or a bad off/len throws with no state change. Otherwise it throws iff the engine round it had to make throws. A successful call returns n with 0 <= n <= len, and bytesWritten grows by exactly n. |
| IsalCompressor.DrainIgnoresEngine | hadoop-common-project/hadoop-common/src/main/java/org/apache/hadoop/io/compress/isal/IsalCompressor.java:313-319 | While output is waiting, compress returns min(waiting, len) whatever the engine would answer, so the engine is not called. Only the ready cursor and bytesWritten move. |
| IsalCompressor.CompressWritesOnlyItsRange | hadoop-common-project/hadoop-common/src/main/java/org/apache/hadoop/io/compress/isal/IsalCompressor.java:313-354 | A successful compress writes b[off .. off + n] and nothing else of the caller's array. |
| IsalCompressor.CompressHandsOutEngineOutput | hadoop-common-project/hadoop-common/src/main/java/org/apache/hadoop/io/compress/isal/IsalCompressor.java:330-354 | After an engine call, compress hands out min(produced, len) bytes, namely the start of the engine's output. The rest stays waiting in the ready buffer. |
| IsalCompressor.EngineRoundConsumesPrefix | hadoop-common-project/hadoop-common/src/main/native/src/org/apache/hadoop/io/compress/isal/IsalCompressor.c:236-240 | The engine round loses no byte: the stream owed afterwards is the stream owed before minus exactly the prefix the engine reported consumed. |
| IsalCompressor.EngineRoundEffects | hadoop-common-project/hadoop-common/src/main/java/org/apache/hadoop/io/compress/isal/IsalCompressor.java:321-346 | A pending finish() becomes end_of_stream. finished is set only once the engine reports the end of the stream. The counters are untouched. An engine error leaves the window and the pending buffer as they were, with the ready buffer rewound to full size. A completed round keeps the pending buffer exactly when the window is not empty. |
| IsalCompressor.EngineErrorLeavesStaleOutput | hadoop-common-project/hadoop-common/src/main/java/org/apache/hadoop/io/compress/isal/IsalCompressor.java:313-333 | As written: after an engine error in compress, the ready buffer sits at position 0 with its full size remaining. The next compress therefore returns min(bufferSize, len) bytes, taken from the start of that buffer, without calling the engine. |
| IsalCompressor.CompressConsumesPrefix | hadoop-common-project/hadoop-common/src/main/java/org/apache/hadoop/io/compress/isal/IsalCompressor.java:303-355 | No byte is lost by compress. The owed stream loses exactly the prefix the engine consumed, and nothing on a pure drain or a rejected call. |
| IsalCompressor.DeliverKeepsStream | hadoop-common-project/hadoop-common/src/main/java/org/apache/hadoop/io/compress/isal/IsalCompressor.java:349-354 | Handing out output never touches the stream owed to the engine. |
| IsalCompressor.Reset | hadoop-common-project/hadoop-common/src/main/java/org/apache/hadoop/io/compress/isal/IsalCompressor.java:361-377 | No stream: NullPointerException with nothing changed. Otherwise it succeeds and clears finish, finished and keepUncompressedBuf, both cursors, the caller view and both counters. It empties the ready buffer and keeps the invariant, so nothing is owed, finished() is false, and for a positive buffer size needsInput() answers true. end_of_stream is kept (see Findings). |
| IsalCompressor.End | hadoop-common-project/hadoop-common/src/main/java/org/apache/hadoop/io/compress/isal/IsalCompressor.java:401-406 | Afterwards the stream handle is gone and nothing else has changed. A second end() is a no-op. |
| IsalCompressor.EndOfStreamSurvivesReset | hadoop-common-project/hadoop-common/src/main/java/org/apache/hadoop/io/compress/isal/IsalCompressor.java:361-377 | As written: after finish() and a successful engine round, reset() clears finish, yet the next engine call is still told end_of_stream. |
| IsalCompressor.ResetClearingEndOfStream | hadoop-common-project/hadoop-common/src/main/java/org/apache/hadoop/io/compress/isal/IsalCompressor.java:361-377 | Corrected reset: the same outcome as reset() except that end_of_stream is cleared, so the next engine call is not told that the input is complete. A throw leaves the compressor unchanged. |
| CompressorRuns.Apply | hadoop-common-project/hadoop-common/src/main/java/org/apache/hadoop/io/compress/isal/IsalCompressor.java:167-377 | Every protocol call keeps the compressor invariant: setInput, needsInput, finish, compress, and reset with end_of_stream cleared. |
| CompressorRuns.StepLosesNothing | hadoop-common-project/hadoop-common/src/main/java/org/apache/hadoop/io/compress/isal/IsalCompressor.java:167-377 | For every protocol call: the bytes it takes off the owed stream, followed by what is owed afterwards, equal what was owed before followed by the bytes it hands in. |
| CompressorRuns.SetInputLosesNothing | hadoop-common-project/hadoop-common/src/main/java/org/apache/hadoop/io/compress/isal/IsalCompressor.java:174-178 | A setInput made when needsInput() allows it appends its bytes to the owed stream. |
| CompressorRuns.CompressLosesNothing | hadoop-common-project/hadoop-common/src/main/java/org/apache/hadoop/io/compress/isal/IsalCompressor.java:303-355 | A compress call takes exactly the consumed prefix off the owed stream. |
| CompressorRuns.Run | hadoop-common-project/hadoop-common/src/main/java/org/apache/hadoop/io/compress/isal/IsalCompressor.java:167-377 | Every protocol-abiding sequence of calls keeps the compressor invariant. |
| CompressorRuns.RunLosesNothing | hadoop-common-project/hadoop-common/src/main/java/org/apache/hadoop/io/compress/isal/IsalCompressor.java:167-377 | Conservation over any call sequence: taken + still owed == owed at the start + everything handed to setInput. Every input byte is consumed by the engine, discarded by a reset, or still owed, in order. |
| CompressorRuns.StepKeepsEndFollowsFinish | hadoop-common-project/hadoop-common/src/main/java/org/apache/hadoop/io/compress/isal/IsalCompressor.java:325-327 | With the corrected reset, no call sets end_of_stream unless finish() was called since the last reset. |
| CompressorRuns.RunTellsEndOnlyAfterFinish | hadoop-common-project/hadoop-common/src/main/java/org/apache/hadoop/io/compress/isal/IsalCompressor.java:325-327 | With the corrected reset, after any run the engine is told that the input is complete iff finish() was called since the last reset. |
| CompressorRuns.CreateStartsWithoutEnd | hadoop-common-project/hadoop-common/src/main/java/org/apache/hadoop/io/compress/isal/IsalCompressor.java:126-136 | A fresh compressor starts with end_of_stream following finish, so every run from it tells the end only after finish(). |
| IsalDecompressor.Create | hadoop-common-project/hadoop-common/src/main/java/org/apache/hadoop/io/compress/isal/IsalDecompressor.java:94-105 | A negative size throws IllegalArgumentException. Otherwise the decompressor is coherent (directBufferSize equals the buffers' capacity), holds a live stream, owes nothing, has an empty ready buffer, and its engine avail_in is 0. It is not finished. |
| IsalDecompressor.CreateDefault | hadoop-common-project/hadoop-common/src/main/java/org/apache/hadoop/io/compress/isal/IsalDecompressor.java:110-112 | The default constructor uses DEFAULT_DIRECT_BUFFER_SIZE. needsInput() answers true without changing it, getRemaining() answers 0, and it is not finished. |
| IsalDecompressor.FreshNeedsInput | hadoop-common-project/hadoop-common/src/main/java/org/apache/hadoop/io/compress/isal/IsalDecompressor.java:200-208 | For any positive size, a fresh decompressor asks for input and getRemaining() answers 0. |
| IsalDecompressor.CheckStream | hadoop-common-project/hadoop-common/src/main/java/org/apache/hadoop/io/compress/isal/IsalDecompressor.java:349-352 | Throws NullPointerException exactly when the stream handle is gone. |
| IsalDecompressor.SetInputFromSavedData | hadoop-common-project/hadoop-common/src/main/java/org/apache/hadoop/io/compress/isal/IsalDecompressor.java:163-175 | Loads k = min(userBufLen, directBufferSize) bytes at offset 0. The window becomes (0, k), and the view advances by k, preserving userBufOff + userBufLen. It throws BufferOverflowException iff k exceeds the capacity, after the window fields were written. No other field changes. |
| IsalDecompressor.SavedDataOwesView | hadoop-common-project/hadoop-common/src/main/java/org/apache/hadoop/io/compress/isal/IsalDecompressor.java:163-175 | A successful refill owes the engine exactly the caller's remaining view, its first k bytes now in the window. Nothing is lost. |
| IsalDecompressor.SetInput | hadoop-common-project/hadoop-common/src/main/java/org/apache/hadoop/io/compress/isal/IsalDecompressor.java:137-156 | A null array or a bad off/len throws with no state change. Otherwise it throws iff directBufferSize exceeds the buffers, with BufferOverflowException or IllegalArgumentException depending on where. On success the new array is the view, its first k bytes form the window, bytesRead grows by exactly len, and the ready buffer is empty. |
| IsalDecompressor.SetInputReplacesStream | hadoop-common-project/hadoop-common/src/main/java/org/apache/hadoop/io/compress/isal/IsalDecompressor.java:145-149 | After setInput the owed stream is exactly the new bytes, so an unconsumed old window is dropped. When the old window and view were used up (needsInput() true), the new bytes follow the old stream with nothing lost. |
| IsalDecompressor.NeedsInput | hadoop-common-project/hadoop-common/src/main/java/org/apache/hadoop/io/compress/isal/IsalDecompressor.java:195-215 | Answers true iff the ready buffer, the window and the caller view are all empty. It answers false while output waits or a window remains, changing nothing. With the window consumed and view bytes left, it refills min(userBufLen, directBufferSize) bytes and answers false; that refill can throw BufferOverflowException only when it exceeds the capacity. |
| IsalDecompressor.NeedsInputKeepsStream | hadoop-common-project/hadoop-common/src/main/java/org/apache/hadoop/io/compress/isal/IsalDecompressor.java:205-211 | needsInput() moves bytes from the view into the window but never changes the stream owed to the engine. |
| IsalDecompressor.Finished | hadoop-common-project/hadoop-common/src/main/java/org/apache/hadoop/io/compress/isal/IsalDecompressor.java:235-237 | finished(): the engine has reported the final block and no inflated byte is left waiting in the ready buffer. Its behaviour is stated by FinishedOnceDrained. |
| IsalDecompressor.FinishedOnceDrained | hadoop-common-project/hadoop-common/src/main/java/org/apache/hadoop/io/compress/isal/IsalDecompressor.java:235-237 | Once the final block was reported, finished() stays false while output is waiting. It turns true on the decompress call whose len covers everything still waiting, and only then. |
| IsalDecompressor.Inflate | hadoop-common-project/hadoop-common/src/main/native/src/org/apache/hadoop/io/compress/isal/IsalDecompressor.c:172-223 | The engine is offered compressedDirectBufLen bytes at compressedDirectBufOff, with directBufferSize of room. A finished final block sets finished whatever the return code. ISAL_DECOMP_OK and ISAL_END_INPUT move off by the consumed count, set len = avail_in, and report directBufferSize - avail_out. The four error codes throw an IOException naming the code, with off/len unchanged. |
| IsalDecompressor.InflateBytesDirect | hadoop-common-project/hadoop-common/src/main/native/src/org/apache/hadoop/io/compress/isal/IsalDecompressor.c:134-224 | No stream: NullPointerException and 0, with nothing changed. A missing input address returns 0 with no engine call. Consumed bytes lie in [0, len], so off + len is conserved. A successful result lies in [0, directBufferSize]. |
| IsalDecompressor.Deliver | hadoop-common-project/hadoop-common/src/main/java/org/apache/hadoop/io/compress/isal/IsalDecompressor.java:279-286 | Copies min(waiting, len) bytes from the ready cursor into b[off..] and leaves the rest of b alone. The ready cursor and bytesWritten advance by exactly that count. |
| IsalDecompressor.InflateRound | hadoop-common-project/hadoop-common/src/main/java/org/apache/hadoop/io/compress/isal/IsalDecompressor.java:273-279 | It throws iff directBufferSize exceeds the buffers, the stream is gone, or the engine reports an error. Success makes the engine's first n output bytes the ready contents, with limit n. The window moves by exactly the consumed count. The pending bytes and the caller view are untouched, so decompress never refills. |
| IsalDecompressor.Decompress | hadoop-common-project/hadoop-common/src/main/java/org/apache/hadoop/io/compress/isal/IsalDecompressor.java:252-287 | A null array or a bad off/len throws with no state change. Otherwise it throws iff the engine round it had to make throws. A successful call returns n with 0 <= n <= len, and bytesWritten grows by exactly n. |
| IsalDecompressor.GetRemaining | hadoop-common-project/hadoop-common/src/main/java/org/apache/hadoop/io/compress/isal/IsalDecompressor.java:296-300 | Throws NullPointerException exactly without a stream. Otherwise it counts at least the caller's unloaded bytes; RemainingCountsUnconsumed pins down the rest. |
| IsalDecompressor.Reset | hadoop-common-project/hadoop-common/src/main/java/org/apache/hadoop/io/compress/isal/IsalDecompressor.java:303-312 | No stream: NullPointerException with nothing changed. Otherwise it throws IllegalArgumentException iff directBufferSize exceeds the buffers. On success it clears finished, the window, the view, both counters and the engine's avail_in, empties the ready buffer, and owes nothing. |
| IsalDecompressor.End | hadoop-common-project/hadoop-common/src/main/java/org/apache/hadoop/io/compress/isal/IsalDecompressor.java:341-347 | Afterwards the stream handle is gone and nothing else has changed. A second end() is a no-op. |
| IsalDecompressor.DrainIgnoresEngine | hadoop-common-project/hadoop-common/src/main/java/org/apache/hadoop/io/compress/isal/IsalDecompressor.java:264-271 | While output is waiting, decompress returns min(waiting, len) whatever the engine would answer, so the engine is not called. Only the ready cursor and bytesWritten move. |
| IsalDecompressor.DecompressWritesOnlyItsRange | hadoop-common-project/hadoop-common/src/main/java/org/apache/hadoop/io/compress/isal/IsalDecompressor.java:264-286 | A successful decompress writes b[off .. off + n] and nothing else of the caller's array. |
| IsalDecompressor.DecompressHandsOutEngineOutput | hadoop-common-project/hadoop-common/src/main/java/org/apache/hadoop/io/compress/isal/IsalDecompressor.java:273-286 | After an engine call, decompress hands out min(produced, len) bytes, namely the start of the engine's output. The rest stays waiting. |
| IsalDecompressor.InflateRoundEffects | hadoop-common-project/hadoop-common/src/main/native/src/org/apache/hadoop/io/compress/isal/IsalDecompressor.c:180-221 | finished is set iff it was set or the engine finished the final block, even when the round throws. The engine's avail_in is recorded whenever the engine ran, and the counters are untouched. The exception is the one for the first failing check, and an error leaves the window where it was. |
| IsalDecompressor.EngineErrorLeavesStaleOutput | hadoop-common-project/hadoop-common/src/main/java/org/apache/hadoop/io/compress/isal/IsalDecompressor.java:265-279 | As written: after an engine error in decompress, the ready buffer sits at position 0 with directBufferSize bytes remaining. The next decompress therefore returns min(directBufferSize, len) bytes, taken from the start of that buffer, without calling the engine. |
| IsalDecompressor.InflateRoundConsumesPrefix | hadoop-common-project/hadoop-common/src/main/native/src/org/apache/hadoop/io/compress/isal/IsalDecompressor.c:189-197 | The owed stream loses exactly the prefix the engine reported consumed. |
| IsalDecompressor.DeliverKeepsStream | hadoop-common-project/hadoop-common/src/main/java/org/apache/hadoop/io/compress/isal/IsalDecompressor.java:279-286 | Handing out output never touches the stream owed to the engine. |
| IsalDecompressor.DecompressConsumesPrefix | hadoop-common-project/hadoop-common/src/main/java/org/apache/hadoop/io/compress/isal/IsalDecompressor.java:252-287 | No byte is lost by decompress. The owed stream loses exactly the consumed prefix, and nothing on a drain or a rejected call. |
| IsalDecompressor.RemainingCountsUnconsumed | hadoop-common-project/hadoop-common/src/main/java/org/apache/hadoop/io/compress/isal/IsalDecompressor.java:296-300 | Right after a progressing engine call, getRemaining() equals exactly the number of compressed bytes still owed: the window plus the unloaded view. |
| IsalDecompressor.ResetStartsOver | hadoop-common-project/hadoop-common/src/test/java/org/apache/hadoop/io/compress/isal/TestIsalCompressorDecompressor.java:339-340 | After a successful reset, needsInput() answers true, getRemaining() answers 0 and finished() is false, as the test expects. |
| IsalDecompressor.SetInputThenMoreWork | hadoop-common-project/hadoop-common/src/test/java/org/apache/hadoop/io/compress/isal/TestIsalCompressorDecompressor.java:330-332 | After a successful setInput of at least one byte, needsInput() answers false, as the test expects. |
| IsalDecompressor.OutputView | hadoop-common-project/hadoop-common/src/main/java/org/apache/hadoop/io/compress/isal/IsalDecompressor.java:369-373 | The engine writes through dst itself, or through its slice when dst's position is not 0. Either way the view starts at 0 with dst's remaining room. |
| IsalDecompressor.WriteBack | hadoop-common-project/hadoop-common/src/main/java/org/apache/hadoop/io/compress/isal/IsalDecompressor.java:369-386 | The bytes written through the output view become dst's bytes: with a slice, only the part from dst's position to its limit changes. dst keeps its cursors, its size and its other fields. |
| IsalDecompressor.WriteBackLandsAtPosition | hadoop-common-project/hadoop-common/src/main/java/org/apache/hadoop/io/compress/isal/IsalDecompressor.java:369-373 | Bytes written at the start of the view land at dst's position, and nothing else of dst changes. |
| IsalDecompressor.DirectTemp | hadoop-common-project/hadoop-common/src/main/java/org/apache/hadoop/io/compress/isal/IsalDecompressor.java:375-382 | The rebinding offers the engine src's remaining bytes at src's position, with dst's remaining room, and the engine runs iff the stream is live and src is direct. |
| IsalDecompressor.InflateDirect | hadoop-common-project/hadoop-common/src/main/java/org/apache/hadoop/io/compress/isal/IsalDecompressor.java:366-403 | As written: both owned buffers and BufferSize are restored, with a zero window, on every exit, but directBufferSize keeps dst.remaining(). dst gets the engine's output at its position. It throws iff there is no stream or a direct src meets an engine error, and then src and dst's position are untouched. On success dst's position advances by n in [0, dst.remaining()], and src's by the consumed count, reaching src's limit when everything was consumed. |
| IsalDecompressor.InflateDirectRestoring | hadoop-common-project/hadoop-common/src/main/java/org/apache/hadoop/io/compress/isal/IsalDecompressor.java:395-401 | Corrected inflateDirect: the same outcome, but directBufferSize is restored too, so a coherent decompressor stays coherent. |
| IsalDecompressor.CoherentCursorsNeverThrow | hadoop-common-project/hadoop-common/src/main/java/org/apache/hadoop/io/compress/isal/IsalDecompressor.java:137-312 | In a coherent decompressor, reset() on a live stream and setInput() with legal arguments always succeed, needsInput() never throws, and all three keep it coherent. |
| IsalDecompressor.DirectCallLeaksBufferSize | hadoop-common-project/hadoop-common/src/main/java/org/apache/hadoop/io/compress/isal/IsalDecompressor.java:382-400 | As written: after a zero-copy call with more room than the buffers hold, reset() throws IllegalArgumentException, setInput() throws, and decompress() throws as soon as the ready buffer is empty. |
| IsalDecompressor.DirectCallLeakWitness | hadoop-common-project/hadoop-common/src/main/java/org/apache/hadoop/io/compress/isal/IsalDecompressor.java:366-400 | A concrete run that drives the package-private inflateDirect of a plain IsalDecompressor with 4-byte buffers, as code in the same package can with assertions off. One zero-copy call from an empty src into an empty 8-byte dst, and then reset() throws IllegalArgumentException. |
| IsalDecompressor.SmallDirectCallHeals | hadoop-common-project/hadoop-common/src/main/java/org/apache/hadoop/io/compress/isal/IsalDecompressor.java:382 | The leak lasts only until the next zero-copy call. A call whose dst has no more room than the owned buffers sets directBufferSize to that room, and reset() succeeds again. |
| IsalDecompressor.RestoringKeepsByteArrayPath | hadoop-common-project/hadoop-common/src/main/java/org/apache/hadoop/io/compress/isal/IsalDecompressor.java:395-401 | With the corrected restore, after any zero-copy call the decompressor is coherent and reset() and setInput() succeed. |
| IsalDecompressor.DecompressKeepsCoherent | hadoop-common-project/hadoop-common/src/main/java/org/apache/hadoop/io/compress/isal/IsalDecompressor.java:252-287 | decompress keeps a coherent decompressor coherent. |
| IsalDecompressor.DirectCallDropsWindow | hadoop-common-project/hadoop-common/src/main/java/org/apache/hadoop/io/compress/isal/IsalDecompressor.java:375-399 | A zero-copy call drops the window the byte[] path had pending: afterwards only the rest of the caller view is owed. |
| IsalDirectDecompressor.Create | hadoop-common-project/hadoop-common/src/main/java/org/apache/hadoop/io/compress/isal/IsalDecompressor.java:405-419 | The subclass is built by the default constructor: a coherent decompressor with the default size and endOfInput false, so it is not finished. |
| IsalDirectDecompressor.Decompress | hadoop-common-project/hadoop-common/src/main/java/org/apache/hadoop/io/compress/isal/IsalDecompressor.java:421-429 | One inflateDirect call. When it returns, endOfInput == !src.hasRemaining(); when it throws, endOfInput is unchanged and the same exception propagates. |
| IsalDirectDecompressor.EndOfInputMeansSourceConsumed | hadoop-common-project/hadoop-common/src/main/java/org/apache/hadoop/io/compress/isal/IsalDecompressor.java:421-429 | After a decompress(src, dst) that returns, endOfInput holds iff the engine consumed every byte src offered. |
| IsalDirectDecompressor.Finished | hadoop-common-project/hadoop-common/src/main/java/org/apache/hadoop/io/compress/isal/IsalDecompressor.java:408-411 | finished(): endOfInput holds and the inherited finished() holds. Its behaviour after decompress(src, dst) is stated by FinishedNeedsSourceAndFinalBlock. |
| IsalDirectDecompressor.FinishedNeedsSourceAndFinalBlock | hadoop-common-project/hadoop-common/src/main/java/org/apache/hadoop/io/compress/isal/IsalDecompressor.java:408-430 | After a decompress(src, dst) that returns, finished() holds iff three things hold. The engine took all of src. The final block was reported, in this call or earlier. The owned ready buffer, which the call leaves alone, holds nothing. |
| IsalDirectDecompressor.LargeDestinationBreaksReset | hadoop-common-project/hadoop-common/src/main/java/org/apache/hadoop/io/compress/isal/IsalDecompressor.java:382-401 | Through the public API: a direct decompressor with its 64 KiB buffers makes one decompress(src, dst) from an empty direct src into a direct dst with more than 65536 bytes of room. reset() then throws IllegalArgumentException. |
| IsalDirectDecompressor.Reset | hadoop-common-project/hadoop-common/src/main/java/org/apache/hadoop/io/compress/isal/IsalDecompressor.java:413-417 | The inherited reset, then endOfInput becomes true; when the inherited reset throws, the flag is left as it was. |
| IsalDirectDecompressor.ResetIsNotFinished | hadoop-common-project/hadoop-common/src/main/java/org/apache/hadoop/io/compress/isal/IsalDecompressor.java:408-417 | After a successful reset, endOfInput holds but finished() is false, since the ready buffer is empty and the engine flag cleared. |
| IsalDirectDecompressor.SetInput | hadoop-common-project/hadoop-common/src/main/java/org/apache/hadoop/io/compress/isal/IsalDecompressor.java:137-156 | The subclass inherits setInput unchanged: the same outcome on the superclass fields, with endOfInput untouched. |
| IsalDirectDecompressor.DecompressArray | hadoop-common-project/hadoop-common/src/main/java/org/apache/hadoop/io/compress/isal/IsalDecompressor.java:437-441 | Always UnsupportedOperationException, with nothing changed. |
| IsalDirectDecompressor.SetDictionary | hadoop-common-project/hadoop-common/src/main/java/org/apache/hadoop/io/compress/isal/IsalDecompressor.java:431-435 | Always UnsupportedOperationException, with nothing changed. |
| DecompressorRuns.Apply | hadoop-common-project/hadoop-common/src/main/java/org/apache/hadoop/io/compress/isal/IsalDecompressor.java:137-403 | Every protocol call, with zero-copy calls restoring directBufferSize, keeps the decompressor coherent. |
| DecompressorRuns.StepIsClean | hadoop-common-project/hadoop-common/src/main/java/org/apache/hadoop/io/compress/isal/IsalDecompressor.java:137-312 | No protocol call on a coherent decompressor throws IllegalArgumentException or BufferOverflowException. |
| DecompressorRuns.StepLosesNothing | hadoop-common-project/hadoop-common/src/main/java/org/apache/hadoop/io/compress/isal/IsalDecompressor.java:137-403 | For every protocol call: the bytes it takes, followed by what is owed afterwards, equal what was owed before followed by what it hands in. |
| DecompressorRuns.SetInputLosesNothing | hadoop-common-project/hadoop-common/src/main/java/org/apache/hadoop/io/compress/isal/IsalDecompressor.java:145-149 | A setInput made when needsInput() allows it appends its bytes to the (empty) owed stream. |
| DecompressorRuns.DecompressLosesNothing | hadoop-common-project/hadoop-common/src/main/java/org/apache/hadoop/io/compress/isal/IsalDecompressor.java:252-287 | decompress takes exactly the consumed prefix off the owed stream. |
| DecompressorRuns.DirectLosesNothing | hadoop-common-project/hadoop-common/src/main/java/org/apache/hadoop/io/compress/isal/IsalDecompressor.java:375-399 | A zero-copy call takes exactly the pending window off the owed stream. |
| DecompressorRuns.Run | hadoop-common-project/hadoop-common/src/main/java/org/apache/hadoop/io/compress/isal/IsalDecompressor.java:137-403 | Every protocol-abiding run keeps the decompressor coherent. |
| DecompressorRuns.RunLosesNothing | hadoop-common-project/hadoop-common/src/main/java/org/apache/hadoop/io/compress/isal/IsalDecompressor.java:137-403 | Conservation over any call sequence: every compressed byte handed to setInput is consumed by the engine, discarded by a reset or a zero-copy call, or still owed, in order. |
| DecompressorRuns.RunNeverThrowsOnCursors | hadoop-common-project/hadoop-common/src/main/java/org/apache/hadoop/io/compress/isal/IsalDecompressor.java:137-403 | From a coherent decompressor, such as a fresh one, no call of a protocol-abiding run throws a buffer-cursor exception. |

## Left out

- The isa-l engine itself: DEFLATE (RFC 1951) and gzip (RFC 1952). Each call is an uninterpreted reply bounded by the offer, so there is no compress-then-decompress round trip.
- JNI and library loading (`initIDs`, symbol loading, `getLibraryName`, the loaded flags). Also left out are native `init`, with its allocation and `exit(0)` on failure, and the configuration glue: `reinit`, `IsalFactory`, `IsalCodec`, the header file, the `Configuration` constructors and the level/flush/gzip settings.
- Engine initialisation on reset: the decompressor's reset is assumed to zero the engine's `avail_in`, as `isal_inflate_init` does. The compressor's native reset has no field effect the model tracks.
- `getBytesRead`/`getBytesWritten`: most of these return totals kept by the engine, which the model treats as opaque. The decompressor's `getBytesRead` returns the Java field `bytesRead`. The model keeps the Java `bytesRead`/`bytesWritten` fields and states how each call changes them.
- Static fields: `IsalDecompressor`'s `bytesRead` and `bytesWritten` are static, so all decompressors share them. The model keeps them per decompressor. The loaded flags and the compressor's shared `gzipFlag`/`level`/`flush` are not modelled.
- Concurrency: the model describes one thread driving one coordinator.
- The aliasing on the zero-copy path: `src.slice()` is passed with `off = src.position()`. Only the position arithmetic is modelled, not which memory the native code ends up reading.
- Java `assert`s in `IsalDirectDecompressor.decompress`: a direct `dst` is a precondition. A direct `src` and `dst.remaining() > 0` are not required. An indirect `src` makes the native step return 0 without calling the engine, as the code does.
- Java `int` and `long` arithmetic is unbounded in the model. Offsets, lengths and counters never approach 2^31 in the modelled paths, since every length is bounded by an array or buffer size, but `bytesRead`/`bytesWritten` wrap-around is not modelled.
- `setDictionary` on both base classes (a no-op) and `needsDictionary` (always false) are not modelled.
- A null `userBuf` before the first setInput is modelled as an empty array. Neither class reads it then: needsInput refills only while caller bytes or a window remain, and only setInput creates those.
- The native `inflateBytesDirect` does not check the output buffer's address. The model requires the output room to fit the output buffer, which every caller in the code guarantees.
- IsalDecompressor.GetRemaining: its own contract only bounds the answer from below, by the caller's unloaded bytes, because the engine's `avail_in` is an engine observation. RemainingCountsUnconsumed states the exact value after each engine call.
- IsalCompressor.CompressBytesDirect: a missing direct address for either owned buffer makes it return 0 with no engine call. Both buffers are always direct, so this path is modelled but never reached.

## Findings

| source | as written | input that shows it | evidently intended | confidence | as-written member | corrected member |
|---|---|---|---|---|---|---|
| hadoop-common-project/hadoop-common/src/main/java/org/apache/hadoop/io/compress/isal/IsalDecompressor.java:395-401 | inflateDirect sets `directBufferSize = dst.remaining()`, but its `finally` restores `BufferSize`, which it never changed, and leaves `directBufferSize` as it is | an IsalDirectDecompressor (64 KiB buffers), one `decompress(src, dst)` from an empty direct `src` into a direct `dst` with more than 65536 bytes remaining, then `reset()`: `uncompressedDirectBuf.limit(dst.remaining())` throws IllegalArgumentException. setInput throws too, until a later zero-copy call into a `dst` of at most 65536 remaining bytes | the `finally` restores `directBufferSize` as well, so a zero-copy call does not disturb the byte[] path | medium, not executed | IsalDecompressor.DirectCallLeaksBufferSize, IsalDirectDecompressor.LargeDestinationBreaksReset, IsalDecompressor.DirectCallLeakWitness | IsalDecompressor.InflateDirectRestoring, IsalDecompressor.RestoringKeepsByteArrayPath, DecompressorRuns.RunNeverThrowsOnCursors |
| hadoop-common-project/hadoop-common/src/main/java/org/apache/hadoop/io/compress/isal/IsalCompressor.java:361-377 | reset() clears `finish` but never `end_of_stream`, which compress set to 1 once finish was called | `finish()`, one `compress` that reaches the engine, `reset()`, `setInput(b, 0, n)`, `compress`: the engine is told that the input is complete although `finish()` was not called for the new stream | reset() clears `end_of_stream` too, so the engine is told the input is complete only after finish() | medium, not executed | IsalCompressor.EndOfStreamSurvivesReset | IsalCompressor.ResetClearingEndOfStream, CompressorRuns.RunTellsEndOnlyAfterFinish |

The call-sequence modules use the corrected definitions. `CompressorRuns`
resets through `ResetClearingEndOfStream`, and `DecompressorRuns` makes
zero-copy calls through `InflateDirectRestoring`.
