# Proofs about DDNet's base and HTTP layers

This project models nine pieces of `src/base` and `src/engine` and proves what they are for. Each module
follows one source file or one component of it; `dafny verify dfyconfig.toml` checks all of them.

- **`AioRing`, `AioProtocol`, `AioRefinement`** — the asynchronous file writer (`aio.cpp`). The ring buffer is a
  class over an array that refines a byte queue. The threads are a step system: any number of clients and one
  drain thread, with the mutex, the counting semaphore, the finish state and the reference count. All results
  about it hold for every number of clients and every interleaving. `AioRefinement` puts the two together: a
  whole run of the step system, carried out on the arrays, moves exactly the bytes the step system says.
- **`AsyncLogger`** — the file logger as a client of both: lines stay whole.
- **`FutureLogger`** — the deferred logger's hand-over as a step system: exactly-once delivery.
- **`Sha256Spec`, `Sha256Impl`** — FIPS 180-4 written down on its own, and the streaming implementation proved
  equal to it for every way of cutting the message into updates. `Sha256Constants` derives the constants from the
  prime numbers, and `Sha256Vector` works out the standard's example, the digest of "abc".
- **`HttpRuns`, `HttpRequest`** — a request as a state machine over response buffer, running hash, temporary file
  and destination file. Every outcome of every file operation is a parameter. The request object (`HttpRequest`)
  is proved to follow a function of the settings and the events alone (`HttpRuns`), and the safety and
  completeness results are about that function.
- **`Utf8`, `Utf8Truncate`, `Utf8Offsets`, `EditDistance`, `Base64`, `FilenameOrder`** — the string algorithms
  of `str.cpp`.
- **`Numerals`, `NetAddr`** — IPv6 and IPv4 text. **`WindowsArgs`** — argument quoting. **`SecureRandom`** —
  bounded random numbers and passwords. **`Easter`** — the date of Easter. **`Bytes`** — shared definitions.

Code that changes things in place is a class or a method over arrays, proved against a specification function;
the lemmas then say what that function means. Integer widths appear where they matter: 32-bit doubling of the
ring size, the 32-bit conversion of hash update and file write lengths, the 64-bit bit counter, 32-bit loads in
Base64, the `int` of the number parser, signed and unsigned characters in the file name order.

Places where the code does less than a reader may expect, with the exact limit proved:

- **Growing the ring.** The doubling of a 32-bit size stops with room for all bytes if and only if at most 2^31
  are needed (`AioRing.GrowthSucceedsExactly`). For a need above 2^31 the loop does not end
  (`AioRing.GrowthTerminatesExactly`); from 2^32 on the need itself wraps around, and for 2^32 - 1 new bytes in
  an empty ring the buffer stays as it is (`AioRing.WrappedNeedStopsShort`).
- **Writing after `aio_close`.** Between calls, a write is certain to be in the file when `aio_wait` returns if
  and only if finishing has not been requested yet (`AioProtocol.WriteIsSafeExactly`).
- **Closing after `aio_wait`.** Between calls, and before any close, `aio_close` is certain to close the file in the
  end if and only if `aio_wait` has not been called yet (`AioProtocol.CloseIsSureExactly`).
- **Order of one thread's messages.** When a thread logs again, the deferred logger is certain to deliver its
  earlier message first if and only if that one has been delivered already; a message that is still pending can
  be overtaken while `Set` delivers (`FutureLogger.OwnOrderExactly`).
- **Validating a request that is not done.** `OnValidation` looks at its flag only. The destination is always the
  original file or the whole trusted response if and only if no validation moves the temporary file of a request
  that is not done, and no completion moves it after its validation was spent (`HttpRuns.SafeExactly`). Asking
  `State() == DONE` before every validation is enough (`HttpRuns.GuardedRunsAreSafe`); without it, what a failed
  download left behind ends up at the destination (`HttpRuns.LeftoverIsMoved`).
- **Hash updates.** `sha256_update` takes a `size_t` and hands it on as 32 bits; it takes all of its input if and
  only if the length is below 2^32 (`Sha256Impl.UpdateTakesAllExactly`). So the digest of a response covers all of
  it if and only if no chunk of 2^32 bytes or more was taken; a request to a file never takes one
  (`HttpRuns.DigestCoversExactly`).
- **Numbers in addresses.** `parse_int` accumulates in an `int`, which holds the value of a digit run, without
  overflow on the way, if and only if it is below 2^31 (`NetAddr.AccumulatorExactly`). An address text is always
  accepted as what it says; a text that is accepted is what it says if and only if all its digit runs are below
  2^31 (`NetAddr.ParserIsRightExactly`). With wrap-around, `4294967297.0.0.0` is accepted as 1.0.0.0
  (`NetAddr.LongRunIsAccepted`).
- **Offsets beyond the end.** The two UTF-8 offset conversions form a Galois connection if and only if the byte
  offset is not beyond the end of the string (`Utf8Offsets.GaloisConnection`).

## Model

| member | source | states |
|---|---|---|
| AioRing.NextBufferSize | src/base/aio.cpp:186-193 | every doubling is a real one up to 2^31, so the loop ends; the result is sufficient, never smaller than before, and less than twice the need when it grew |
| AioRing.GrowthTerminatesExactly | src/base/aio.cpp:186-193 | over every buffer size and every need: some number of 32-bit doublings reaches the need if and only if the need is at most 2^31 |
| AioRing.GrowthSucceedsExactly | src/base/aio.cpp:227-229 | with the need as the 32-bit sum it is: the loop stops with a size that holds queue, new bytes and a free slot if and only if these are at most 2^31 bytes |
| AioRing.WrappedNeedStopsShort | src/base/aio.cpp:227-229 | the input for which the need wraps to zero and the buffer is not grown |
| AioRing.ViewStraight | src/base/aio.cpp:212-224 | a write that does not pass the end of the buffer appends to the queue, also when it ends exactly at the end |
| AioRing.ViewWrapped | src/base/aio.cpp:215-221 | a write split at the end of the buffer appends both parts in order and never makes the ring look empty |
| AioRing.ViewDrop | src/base/aio.cpp:127 | advancing the read position modulo the size removes exactly the oldest bytes |
| AioRing.AsyncIo.constructor | src/base/aio.cpp:138-160 | a fresh handle is an empty queue in an 8 KiB buffer |
| AioRing.AsyncIo.BufferLen | src/base/aio.cpp:174-184 | the positions determine the length of the queue, and one slot is always free |
| AioRing.AsyncIo.BufferPtrs | src/base/aio.cpp:46-61 | the two pieces are contiguous stretches of the buffer whose concatenation is the queue |
| AioRing.AsyncIo.WriteInPlace | src/base/aio.cpp:213-224 | with a slot to spare, the bytes are appended in place |
| AioRing.AsyncIo.WriteGrowing | src/base/aio.cpp:225-253 | queue and new bytes end up, in order, in a strictly larger buffer that is less than twice what is needed |
| AioRing.AsyncIo.WriteUnlocked | src/base/aio.cpp:206-254 | refines queue append; the buffer is replaced exactly when the bytes would not leave a free slot |
| AioRing.AsyncIo.FillLocal | src/base/aio.cpp:107-126 | the local buffer gets the longest front part of the two pieces that fits into 64 KiB |
| AioRing.AsyncIo.TakeChunk | src/base/aio.cpp:106-127 | refines dequeue: the oldest bytes, at most 64 KiB, move to the local buffer and nothing else changes |
| AioProtocol.RunKeepsInv | src/base/aio.cpp:78-136 | lock ownership, byte order, wake-up, exit and reference-count invariants survive every run |
| AioProtocol.FileIsInLockOrder | src/base/aio.cpp:78-136 | in every reachable state: written, in-flight and queued bytes together are the lock sections in lock order; the file is a prefix of that, and whole sections once the drain thread has left |
| AioProtocol.NoLostWakeup | src/base/aio.cpp:90-105 | a parked drain thread with pending bytes or a finish request always has a positive semaphore, a client that still owes a signal, or a client still inside its lock section |
| AioProtocol.NoUseAfterFree | src/base/aio.cpp:63-76 | no reachable step uses the struct after it was freed |
| AioProtocol.FreedExactlyOnce | src/base/aio.cpp:63-76 | at most one step of any run frees the struct, and exactly one once both owners are through |
| AioProtocol.NoWriteAfterClose | src/base/aio.cpp:90-100 | after the drain thread has left, no run changes the file or closes it again; it is closed at most once |
| AioProtocol.DrainLeavesOnlyWhenEmpty | src/base/aio.cpp:90-100 | at the step in which the drain thread leaves, everything queued has been written, finishing was requested, and the file is closed if and only if close was requested |
| AioProtocol.CloseIsSureExactly | src/base/aio.cpp:285-308 | in every idle state before a close: under every schedule around a close request and every continuation in which the drain thread leaves, the file is closed once, if and only if wait has not been called before |
| AioProtocol.WaitDelivers | src/base/aio.cpp:294-308 | when wait returns, everything queued before finishing was requested is in the file |
| AioProtocol.LateWriteCanBeLost | src/base/aio.cpp:285-308 | from every idle state after a finish request, every nonempty write followed by wait has a schedule that loses it |
| AioProtocol.WriteIsSafeExactly | src/base/aio.cpp:285-308 | in every idle state before wait and free: under every schedule around a write and every continuation in which wait returns, all that was queued is in the file, if and only if finishing was not requested before the write |
| AioProtocol.NoDeadlock | src/base/aio.cpp:285-308 | after a finish request and before the drain thread has exited, some call under way, or the drain thread, can go on |
| AioProtocol.DrainMoves | src/base/aio.cpp:83-136 | with work left and no client inside a call, the drain thread has exactly one step, and it comes closer to its goal |
| AioProtocol.DrainFinishes | src/base/aio.cpp:83-136 | liveness: after a finish request the drain thread alone writes everything and exits |
| AioProtocol.DrainEmpties | src/base/aio.cpp:83-136 | liveness: without a finish request the drain thread alone writes everything that is queued |
| AioProtocol.EveryScheduleEnds | src/base/aio.cpp:285-319 | liveness under every schedule: after a finish request, without new calls, every run has a bounded number of steps, and where it cannot go on all calls have returned, wait included, and what was queued before the drain thread left is written |
| AioRefinement.Pass | src/base/aio.cpp:88-127 | comparing the two positions decides whether anything is queued, so a full ring is never taken for an empty one; if something is, the oldest bytes are taken |
| AioRefinement.RunOnRing | src/base/aio.cpp:78-254 | for every number of clients and every interleaving, the bytes handed from the ring through the local buffers to the file, and those left in the ring, are the ones of the step system |
| AsyncLogger.Log | src/base/log.cpp:240-266 | one call appends exactly one line to the queue, or nothing when filtered; the line is the message's text and the line break, with the sequences that set and reset its color around the text |
| AsyncLogger.LineReadsBack | src/base/log.cpp:247-264 | for every message: without color, the bytes are its text and the line break; with color, they start with the escape character, `[38;2;`, three decimal numerals whose values are red, green and blue in that order, and `m`, and end with the text, the escape character, `[0m` and the line break |
| AsyncLogger.LogRunOk | src/base/log.cpp:240-266 | in every run of logging clients, each completed lock section is the line of one message and each open one the front of a line |
| AsyncLogger.LogFileHoldsWholeLines | src/base/log.cpp:240-266 | for any number of clients that write by Log calls, under every interleaving: the file is a prefix of the lines, in the sense above, of the messages in lock order, and after shutdown it consists of whole lines |
| FutureLogger.DeliveredExactlyOnce | src/base/log.cpp:511-545 | for any number of Log calls interleaved with one Set: when all are finished, each message was delivered once and nothing else was |
| FutureLogger.PendingDeliveredInOrder | src/base/log.cpp:511-545 | the messages that were pending are delivered in the order they were queued, whatever is delivered in between |
| FutureLogger.OwnOrderExactly | src/base/log.cpp:511-545 | for two calls one after the other, the first message is received first under every continuation if and only if it had been received when the second call starts |
| FutureLogger.NothingLostBeforeSet | src/base/log.cpp:530-545 | before Set, nothing is delivered and exactly the messages of finished calls are pending |
| FutureLogger.NoDeadlock | src/base/log.cpp:511-545 | until every call is finished, some call can go on |
| Sha256Spec.ZeroBytesIsFips | src/base/hash_libtomcrypt.cpp:165-184 | the number of padding bytes is the least number of zero bits of section 5.1.1 of FIPS 180-4 |
| Sha256Spec.PadReadBack | src/base/hash_libtomcrypt.cpp:158-184 | the padded message is the message, the byte 0x80, fewer than 64 zero bytes, and the eight bytes of its length in bits, the highest first, in whole blocks |
| Sha256Spec.LowByteIs | src/base/hash_libtomcrypt.cpp:41-46 | a stored byte is the one whose value is the residue modulo 256 |
| Sha256Spec.WordAtBytes | src/base/hash_libtomcrypt.cpp:36-39 | each of the four bytes of a loaded word, read by shift and mask, is the byte of the block at its place, the first one highest |
| Sha256Spec.BytesReadBack | src/base/hash_libtomcrypt.cpp:48-53 | every word is read back from the bytes at four times its position |
| Sha256Constants.PrimesAreFirst | src/base/hash_libtomcrypt.cpp:15-29 | the sixty-four numbers used start with 2, are prime and leave out no prime |
| Sha256Constants.RoundConstants | src/base/hash_libtomcrypt.cpp:15-29 | each round constant is the first 32 bits of the fractional part of the cube root of its prime, as section 4.2.2 says |
| Sha256Constants.InitialHash | src/base/hash_libtomcrypt.cpp:112-124 | the initial words are the first 32 bits of the fractional parts of the square roots of the first eight primes, as section 5.3.3 says |
| Sha256Vector.DigestOfAbc | src/base/hash_libtomcrypt.cpp:191-206 | the digest of "abc" is the published one, ba7816bf to f20015ad, through padding, schedule and all 64 rounds |
| Sha256Impl.ChIsStandard | src/base/hash_libtomcrypt.cpp:55 | the shortened form equals Ch of section 4.1.2 |
| Sha256Impl.MajIsStandard | src/base/hash_libtomcrypt.cpp:56 | the shortened form equals Maj of section 4.1.2 |
| Sha256Impl.SigmasAreStandard | src/base/hash_libtomcrypt.cpp:57-62 | the four rotation functions equal those of section 4.1.2 |
| Sha256Impl.MessageSchedule | src/base/hash_libtomcrypt.cpp:73-79 | the array holds the recursive message schedule of section 6.2.2 |
| Sha256Impl.RoundInPlace | src/base/hash_libtomcrypt.cpp:81-103 | the round macro followed by the array rotation is the standard's round on a to h |
| Sha256Impl.AllRounds | src/base/hash_libtomcrypt.cpp:91-103 | 64 rounds with the standard's constants and schedule |
| Sha256Impl.Feedback | src/base/hash_libtomcrypt.cpp:105-107 | the intermediate hash is added word by word |
| Sha256Impl.CompressInPlace | src/base/hash_libtomcrypt.cpp:64-108 | one block step of section 6.2.2 |
| Sha256Impl.Context.constructor | src/base/hash_libtomcrypt.cpp:112-124 | a fresh context has absorbed the empty message |
| Sha256Impl.Context.AbsorbBlock | src/base/hash_libtomcrypt.cpp:133-139 | a whole block taken from the input extends the absorbed message and keeps the bit counter right modulo 2^64 |
| Sha256Impl.Context.AbsorbPart | src/base/hash_libtomcrypt.cpp:140-154 | so does a part that goes through the buffer |
| Sha256Impl.Context.Update | src/base/hash_libtomcrypt.cpp:126-156 | the absorbed message grows by the first (length modulo 2^32) bytes of the input |
| Sha256Impl.Context.StoreLength | src/base/hash_libtomcrypt.cpp:41-46 | the counter is stored big-endian behind the 56 data bytes, which stay as they are |
| Sha256Impl.Context.AppendOneBit | src/base/hash_libtomcrypt.cpp:165-166 | the absorbed stream grows by the byte 0x80 |
| Sha256Impl.Context.FillBlock | src/base/hash_libtomcrypt.cpp:170-176 | zero bytes complete the block, which is compressed |
| Sha256Impl.Context.PadTail | src/base/hash_libtomcrypt.cpp:165-180 | the 0x80 byte and the right number of zero bytes, in one block or in two |
| Sha256Impl.StoreWord | src/base/hash_libtomcrypt.cpp:48-53 | the four bytes at the given place become those of the word, and no others change |
| Sha256Impl.StoreState | src/base/hash_libtomcrypt.cpp:186-188 | the output holds the hash words one behind the other, and each of them is read back from its place |
| Sha256Impl.Context.Finish | src/base/hash_libtomcrypt.cpp:158-189 | returns the SHA-256 of the absorbed message, 32 bytes from which the eight hash words are read back in order |
| Sha256Impl.UpdateTakesAllExactly | src/base/hash_libtomcrypt.cpp:196-199 | an update takes all of its input if and only if the length is below 2^32 |
| Sha256Impl.HashInParts | src/base/hash_libtomcrypt.cpp:191-206 | for every message and every partition into updates, the digest is that of the whole message |
| HttpRequest.Request.constructor | src/engine/http.cpp:19-23 | a queued request at the beginning of its run, for any settings and any existing destination |
| HttpRequest.Request.BeforeInit | src/engine/http.cpp:249-276 | succeeds exactly when folder and file could be made, or none are needed; an open, empty temporary file is there exactly then |
| HttpRequest.Request.Reserve | src/engine/http.cpp:296-308 | the buffer grows enough and the bytes received so far stay |
| HttpRequest.Request.Remember | src/engine/http.cpp:294-310 | the chunk stands right behind the bytes received so far |
| HttpRequest.Request.Absorb | src/engine/http.cpp:289-315 | a chunk reaches the hash and the file cut to 32 bits of length, the file as far as there is room, and the memory whole, in order behind what was there |
| HttpRequest.Request.OnData | src/engine/http.cpp:278-316 | memory and file, and for a file request the hash, advance together by whole chunks of any length; a chunk beyond the size limit changes nothing; any result but the length marks the request as one that must be aborted |
| HttpRequest.Request.ReadDestination | src/engine/http.cpp:358-381 | the memory result becomes the existing destination |
| HttpRequest.Request.SettleFile | src/engine/http.cpp:346-391 | a request stays done exactly when, with status 304, a modification time was asked for and a memory result could be read, and, with any other status, validation is pending or the temporary file could be moved; it is moved, kept or removed accordingly |
| HttpRequest.Request.FinishFiles | src/engine/http.cpp:320-391 | a request ends as done exactly when it was reported done, its digest is the expected one if there is one, the file could be closed, and, for a file, with status 304 a modification time was asked for and with any other the file waits or could be moved |
| HttpRequest.Request.OnCompletionInternal | src/engine/http.cpp:318-406 | the same condition for the visible state, written out in settings, status and file outcomes; where that leaves destination and temporary file; what the memory result is |
| HttpRequest.Request.OnValidation | src/engine/http.cpp:120-148 | in every state in which it may be called: a temporary file that is there is moved exactly on success of a modified response, and removed otherwise; what becomes of the state |
| HttpRequest.Request.Destroy | src/engine/http.cpp:25-34 | destroying a request that was never validated leaves the destination unchanged |
| HttpRequest.Request.SkipRequest | src/engine/http.cpp:235-247 | a request is skipped exactly when the destination already has the expected digest |
| HttpRequest.Drive | src/engine/http.h:192-198 | for every sequence of events, validation at any time included, the request object and the files around it end exactly where the function of the events says |
| HttpRuns.SafeExactly | src/engine/http.cpp:120-148 | over every sequence of events: the destination is at all times the untouched original, or the whole response of a done request with the expected digest and validated if demanded, if and only if no validation moves the file of a request that is not done and no completion moves it after its validation was spent |
| HttpRuns.GuardedRunsAreSafe | src/engine/http.h:115-121 | every run is safe in which validation is asked for only when the state says that the request is done |
| HttpRuns.LeftoverIsMoved | src/engine/http.cpp:120-148 | the inputs that break it: a failed download with a leftover file, or one still going on, followed by a successful validation |
| HttpRuns.ReplacedExactly | src/engine/http.cpp:318-406 | over every sequence of events: the temporary file is moved over the destination if and only if a completion that took effect reported success of a modified response with the expected digest and a file closed without an error, and it, or a later successful validation of the done request if still demanded, moved the file; or a validation moved it when the request was not done |
| HttpRuns.FailureIsFinalExactly | src/engine/http.cpp:346-350 | after an error, an abort, a 304 response, a wrong digest, or a failed or missing validation, the file is moved later if and only if a validation moves what was left of it; with nothing left, never |
| HttpRuns.UnmodifiedNeverPlaces | src/engine/http.cpp:350-352 | over every sequence of events: a completion with status 304 never moves the temporary file, at once or later, and an untouched destination stays the original |
| HttpRuns.UnmodifiedWasAsked | src/engine/http.cpp:350-357 | over every sequence of events: a started file request that is done with status 304 was started with the modification time of the destination, as its settings ask |
| HttpRuns.DoneExactly | src/engine/http.cpp:318-406 | over every sequence of events: a request is done if and only if it was skipped with the expected file in place, or a completion ended well in terms of outcome, digest, status and file operations, and no pending validation failed or was left out after that |
| HttpRuns.TmpIsCleanedUp | src/engine/http.cpp:346-390 | when removing works, no temporary file is left by a validation, by a completion with status 304 or by one that does not end as done |
| HttpRuns.LimitHolds | src/engine/http.cpp:278-285 | over every sequence of events, what is taken never exceeds a limit that is not negative |
| HttpRuns.MustAbortExactly | src/engine/http.cpp:278-316 | a chunk makes the driver abort if and only if it is not empty and exceeds such a limit, or the file cannot take all of it |
| HttpRuns.DigestCoversExactly | src/engine/http.cpp:287-289 | the digest is that of everything accepted if and only if no chunk of 2^32 bytes or more was taken, which never happens for a file request |
| HttpRuns.GoodRunReplaces | src/engine/http.cpp:249-406 | for any chunks within the limits and with the expected digest, a run without failures ends as done and the destination becomes their concatenation, at completion or, if demanded, at validation |
| Utf8.DecodeLoop | src/base/str.cpp:957-1034 | the state-machine loop computes the decoding function, always advances, and never reads beyond the terminator |
| Utf8.ErrorKeepsStarts | src/base/str.cpp:1016-1021 | on any string, an error consumes nothing behind its first byte but continuation bytes, so it never takes the start of a character |
| Utf8.ErrorIsLongestFront | src/base/str.cpp:1016-1021 | on any string, an error consumes the longest front part of an encoding of a character that stands there, or one byte when there is none |
| Utf8.EncodingIsMonotone | src/base/str.cpp:924-950 | encodings are in byte order like the characters they encode, as section 1 of RFC 3629 says |
| Utf8.DecodeEncode | src/base/str.cpp:924-1034 | every nonzero code point is read back from its encoding if and only if it is no surrogate; surrogates are rejected |
| Utf8.EncodeDecode | src/base/str.cpp:924-1034 | a successful decode of a nonzero code point consumed exactly its shortest encoding |
| Utf8.DecodeAt | src/base/str.cpp:957-1034 | an encoding is recognised anywhere in a string |
| Utf8.DecodeCut | src/base/str.cpp:957-1034 | an encoding cut off by the end of the string is an error |
| Utf8.Check | src/base/str.cpp:1239-1250 | the validator loop decides validity |
| Utf8.ValidEncodes | src/base/str.cpp:1239-1250 | a valid string is the encoding of the characters it decodes to |
| Utf8.EncodedIsValid | src/base/str.cpp:1239-1250 | the encoding of any characters is valid and decodes to them |
| Utf8.ValidIsRfc3629 | src/base/str.cpp:1239-1250 | the validator accepts exactly the octet grammar of section 4 of RFC 3629 |
| Utf8Truncate.Rewind | src/base/str.cpp:1131-1140 | finds the last byte before the cursor that is not between 0x80 and 0xBF, or the start of the string |
| Utf8Truncate.FixTruncation | src/base/str.cpp:1053-1068 | the buffer holds the string without a broken last character, and its length is returned |
| Utf8Truncate.RepairedExactly | src/base/str.cpp:1053-1068 | on any string: the repair cuts before the last byte that is no continuation byte if and only if no character is encoded there |
| Utf8Truncate.StrCopy | src/base/str.cpp:18-23 | the destination holds the repaired longest byte prefix that fits |
| Utf8Truncate.StrAppend | src/base/str.cpp:25-40 | the same for the old content, of any length, followed by the source |
| Utf8Truncate.StrTruncate | src/base/str.cpp:42-50 | the same with the smaller of buffer size and byte limit |
| Utf8Truncate.Utf8TruncateTo | src/base/str.cpp:1036-1051 | the same for the bytes of the allowed number of decoding steps |
| Utf8Truncate.FitIsLargest | src/base/str.cpp:1053-1068 | the number of characters kept is the largest whose encoding fits |
| Utf8Truncate.WholeCharactersKept | src/base/str.cpp:18-50 | for valid UTF-8, cutting at any byte and repairing leaves the longest prefix of whole characters that fits |
| Utf8Truncate.CharacterTruncation | src/base/str.cpp:1036-1051 | for valid UTF-8, the result is the longest prefix with at most the given number of characters that fits |
| Utf8Offsets.Forward | src/base/str.cpp:1229-1237 | one decoding step that never passes the terminator |
| Utf8Offsets.OffsetBytesToChars | src/base/str.cpp:1290-1303 | the number of steps to reach a byte offset or the end |
| Utf8Offsets.OffsetCharsToBytes | src/base/str.cpp:1305-1316 | the position after a number of steps, stopping at the end |
| Utf8Offsets.AfterSkipsCodePoints | src/base/str.cpp:1305-1316 | on any string, after n characters exactly the code points beyond the first n remain |
| Utf8Offsets.CutIsLargest | src/base/str.cpp:1036-1051 | on any string: within the allowed number of characters, a position fits the buffer if and only if it is not behind the cut |
| Utf8Offsets.CutIsReached | src/base/str.cpp:1036-1051 | on any string: the cut is the position after some allowed number of characters |
| Utf8Offsets.AfterWholeCharacters | src/base/str.cpp:1305-1316 | in valid UTF-8 the byte offset of n characters is the length of the encoding of the first n |
| Utf8Offsets.GaloisConnection | src/base/str.cpp:1290-1316 | on any string, valid or not, the two conversions are adjoint if and only if the byte offset is at most the length |
| EditDistance.DistanceIsMinimum | src/base/str.cpp:1358-1393 | a number is the distance if and only if some sequence of single edits has that length and none is shorter |
| EditDistance.PathsAreLong | src/base/str.cpp:1358-1393 | no sequence of insertions, deletions and replacements is shorter than the distance |
| EditDistance.ShortestPath | src/base/str.cpp:1358-1393 | some sequence of edits is as short as the distance |
| EditDistance.Symmetric | src/base/str.cpp:1345-1350 | the distance does not depend on the order of the arguments, which the swaps rely on |
| EditDistance.FillRow | src/base/str.cpp:1380-1389 | given one row of prefix distances in the buffer, the inner loop produces the next one over the row before it |
| EditDistance.FillTable | src/base/str.cpp:1373-1391 | two rows suffice for the whole distance, and only they are written |
| EditDistance.Utf32DistBuffer | src/base/str.cpp:1358-1393 | the distance in either argument order; nothing outside the caller's buffer changes |
| EditDistance.ToUtf32 | src/base/str.cpp:1327-1336 | the decoded code points, errors included, and one terminator behind them |
| EditDistance.Utf8DistBuffer | src/base/str.cpp:1338-1356 | the distance of the decoded strings, with inputs and table overlapping in one buffer of the asserted size |
| Base64.EncodeSymbols | src/base/str.cpp:687-737 | each symbol of the grouped encoding, read off the data directly |
| Base64.AlphabetIsStandard | src/base/str.cpp:689 | the digits are the alphabet of RFC 4648 written out, and the padding is its 65th character |
| Base64.GroupIsNumber | src/base/str.cpp:687-737 | three bytes are to base 256 the number that their four symbols are to base 64 |
| Base64.EncodedExamples | src/base/str.cpp:687-737 | the vectors of section 10 of RFC 4648 for one, two and three bytes |
| Base64.EncodeInto | src/base/str.cpp:687-737 | the bit-shifting loop on 32 bits writes section 4 of RFC 4648, cut to the buffer and terminated |
| Base64.DigitsAreInverse | src/base/str.cpp:739-762 | digit values and the alphabet are inverse, and the padding character is no digit |
| Base64.DecodeInto | src/base/str.cpp:764-831 | writes the decoded bytes and returns their number, or the code of the first error |
| Base64.DecodeEncode | src/base/str.cpp:687-831 | decoding the encoding of any bytes gives them back |
| Base64.EncodeDecode | src/base/str.cpp:764-831 | whatever decodes is the canonical encoding of the result |
| Base64.AcceptsExactlyCanonical | src/base/str.cpp:687-831 | with enough room, a text decodes to some bytes if and only if it is their encoding: padding bits are zero and padding stands only at the end |
| FilenameOrder.CompareRuns | src/base/str.cpp:264-273 | the first difference of two digit runs of equal length orders them by value |
| FilenameOrder.CompFilenames | src/base/str.cpp:258-290 | the sign of the result is the lexicographic order of the strings' keys of numbers and lowered characters |
| FilenameOrder.EqualFronts | src/base/str.cpp:258-290 | fronts that are equal up to case, and do not cut a digit run, do not matter for the order |
| FilenameOrder.LongerRunIsLarger | src/base/str.cpp:275-278 | of two digit runs the longer one is the larger |
| FilenameOrder.FirstDigitDecides | src/base/str.cpp:264-280 | of two digit runs of the same length the first different digit decides |
| FilenameOrder.FirstCharacterDecides | src/base/str.cpp:285-287 | where at most one string has a digit, the first characters decide, capital letters counting as small ones, signed or not |
| FilenameOrder.EndDecides | src/base/str.cpp:289 | the end of a string counts as the character zero |
| FilenameOrder.KeyIsCaseless | src/base/str.cpp:285-289 | two strings have the same key exactly when they have the same length and each pair of bytes is equal or the two cases of one letter, so leading zeros count |
| FilenameOrder.OrderIsTotalPreorder | src/base/str.cpp:258-290 | antisymmetric in sign, transitive across mixed runs and characters, zero exactly for strings equal up to case |
| WindowsArgs.AppendQuoted | src/base/windows.cpp:38-66 | the loop with its backslash counter appends the quoted form of one argument |
| WindowsArgs.ArgsToWide | src/base/windows.cpp:26-71 | the quoted arguments with single spaces between them |
| WindowsArgs.ParseInvertsQuoting | src/base/windows.cpp:26-71 | for every argument list, parsing the line by the documented rules returns exactly that list |
| SecureRandom.SmearIsLeast | src/base/secure.cpp:98-107 | the mask is the least number of the form 2^k - 1 that is at least the bound minus one |
| SecureRandom.RandBelow | src/base/secure.cpp:109-123 | returns the first masked draw below the bound |
| SecureRandom.AcceptedIs | src/base/secure.cpp:109-123 | a draw is accepted if and only if its bits under the mask are below the bound |
| SecureRandom.ResultsAreUniform | src/base/secure.cpp:109-123 | any two results below the bound have equally many 32-bit draws |
| SecureRandom.MostDrawsAreTaken | src/base/secure.cpp:109-123 | more than half of all draws are accepted, for every bound |
| SecureRandom.GeneratePassword | src/base/secure.cpp:49-65 | the buffer holds the password of the random numbers and a terminator, with every index in bounds |
| SecureRandom.ValuesAreAlphabet | src/base/secure.cpp:51 | the characters are the 46 of the alphabet written out |
| SecureRandom.PasswordCharacters | src/base/secure.cpp:56-64 | each random number gives two characters of the alphabet, those at the quotient and at the remainder by 46 of its low eleven bits |
| SecureRandom.PasswordIsInjective | src/base/secure.cpp:49-65 | two passwords are equal if and only if their random numbers agree modulo 2048 |
| Easter.DividendsAreNonnegative | src/base/time.cpp:79-92 | every dividend is nonnegative, so C's division is the one used here |
| Easter.DateInRange | src/base/time.cpp:79-92 | the date lies between 22 March and 25 April |
| Easter.DateIsSunday | src/base/time.cpp:79-92 | it is a Sunday of the Gregorian calendar |
| Easter.FirstSundayAfterFullMoon | src/base/time.cpp:79-92 | it is the first Sunday strictly after the ecclesiastical full moon |
| Easter.FullMoonsAgree | src/base/time.cpp:79-86 | that full moon is the one given by Clavius' epacts, in every year |
| Easter.EqualsClavius | src/base/time.cpp:79-92 | the date equals that of Clavius' algorithm, in every year |
| Numerals.NumeralRoundTrip | src/base/net.cpp:277-283 | the hexadecimal and decimal numerals are digits without leading zeros that read back as the number |
| Numerals.DigitsInOrder | src/base/net.cpp:277-283 | the digits are 0 to 9 and a to f in order, and no other character is one |
| Numerals.ValueIsPositional | src/base/net.cpp:316-339 | the first digit weighs most, by the power of the base |
| NetAddr.FindAbbreviation | src/base/net.cpp:222-263 | the one-pass scan finds the first longest run of at least two zero groups, or none, as section 4.2 of RFC 5952 asks |
| NetAddr.AbbreviationIsUnique | src/base/net.cpp:222-263 | there is only one such choice |
| NetAddr.FullTextFits | src/base/types.h:162 | with every abbreviation and every 16-bit port, the text fits the declared maximum size |
| NetAddr.NetAddrStrV6 | src/base/net.cpp:220-285 | the buffer, of any size, holds the bracketed text with that abbreviation and the port, or its longest front part that fits; with the declared size it reads back as address and port |
| NetAddr.FullTextReadsBack | src/base/net.cpp:220-285 | for every address and every port or none: the text starts with a bracket, what stands up to the first closing one expands to the eight groups, and the rest is empty for a negative port, and otherwise a colon and the decimal digits of the port without leading zeros |
| NetAddr.TextIsJoined | src/base/net.cpp:264-280 | the address is the groups in front of the abbreviation and those behind it, with single colons, around a double one |
| NetAddr.ExpandInvertsText | src/base/net.cpp:264-280 | expanding the text by section 2.2 of RFC 4291 gives back the eight groups, for every address |
| NetAddr.AccumulatorExactly | src/base/net.cpp:316-339 | for every digit run: the 32-bit accumulator holds its value, and nothing overflows on the way, if and only if the value is below 2^31; otherwise it holds the value wrapped around |
| NetAddr.ParseInt | src/base/net.cpp:316-339 | consumes the longest digit run, fails exactly when there is none, and returns its value if and only if that is below 2^31 |
| NetAddr.ParseBounded | src/base/net.cpp:349-369 | reads a whole digit run whose accumulated value is within the bound, and fails otherwise |
| NetAddr.ParseChar | src/base/net.cpp:341-347 | consumes exactly the expected character |
| NetAddr.AcceptsExactly | src/base/net.cpp:490-519 | a text is accepted as an address and a port if and only if it is the concatenation of four nonempty digit strings of value at most 255 with dots between them and, optionally, a colon and digits of value at most 65535, for exact and for accumulated values |
| NetAddr.ParserIsRightExactly | src/base/net.cpp:316-339 | every address text is accepted as what it says; an accepted text is what it says if and only if all its digit runs are below 2^31 |
| NetAddr.LongRunIsAccepted | src/base/net.cpp:334 | the input that is no address and is accepted as 1.0.0.0 |
| NetAddr.NetAddrFromStr | src/base/net.cpp:490-519 | accepts exactly the address texts with accumulated values, and, on texts without a digit run of 2^31 or more, exactly the address texts as they are written |
| NetAddr.AddressRoundTrip | src/base/net.cpp:289-298 | parsing the text of any IPv4 address with or without a port gives the address back |

## Left out

- AioRing.AsyncIo.WriteUnlocked: asks for a total below 2^31 bytes, beyond which growing does not succeed (`AioRing.GrowthSucceedsExactly`).
- AioProtocol.NoLostWakeup: the rules for callers are guards of the steps: wait at most once, free at most once, when no other call is going on and none follows.
- AioRefinement.RunOnRing: steps happen one after the other, each step of a critical section by its lock holder; the ring never has to hold 2^31 bytes.
- aio: the stored error of the file and `aio_error`, failing allocations in `aio_new`, detaching the thread, and memory models weaker than sequential consistency.
- AsyncLogger.LogFileHoldsWholeLines: clients that use the handle for anything but Log calls, close, wait and free are not part of the logger.
- AsyncLogger.Log: the filter decision is a parameter; formatting of the message and the logger's destructor are not part of this model.
- FutureLogger.DeliveredExactlyOnce: one Set call; a second one is an assertion failure in the source. The repeated store of the pointer inside Set, `GlobalFinish` and filter changes are left out.
- Sha256Impl.Context.Finish: messages below 2^61 bytes, the limit of the standard; the OpenSSL variant is not modelled.
- HttpRequest.Request.Reserve: the growing memory block is a sequence, and writing past what is reallocated cannot be expressed.
- HttpRequest.Request.OnCompletionInternal: the running hash is the sequence of bytes given to it and its digest is `Sha256` of them, which `Sha256Impl.Context` justifies.
- HttpRequest.Drive: events that the rules of the interface exclude have no effect; renaming is atomic, written bytes reach the file when it is closed, and no temporary file exists before the request.
- HttpRequest.Request.OnValidation: calls are events one after the other; a validation in another thread during a callback of the driver is not modelled.
- http: progress callbacks, waiting threads, logging, headers, and the curl and browser drivers.
- Utf8.DecodeEncode: bit operations on disjoint bits are written as arithmetic; negative code points given to the encoder are left out.
- Utf8Truncate.WholeCharactersKept: for valid UTF-8; on other strings `RepairedExactly` says what the repair does.
- Base64.DecodeInto: the inner loops over the four symbols and three bytes of a group are the function `DecodeGroup`.
- FilenameOrder.CompFilenames: `tolower` is that of the C locale, which leaves bytes from 128 on alone.
- WindowsArgs.ParseInvertsQuoting: characters are those after the conversion to wide strings; the special rule for the program name of a command line is not part of the parser.
- SecureRandom.RandBelow: the random source is a given stream of draws, so the loop ends with the stream; the signed comparison is an unsigned one because the mask is below 2^31.
- Easter.EqualsClavius: only the date; the comparison with the current local time that follows is left out.
- NetAddr.NetAddrStrV6: an empty buffer, for which the source has no meaning, is excluded.
- NetAddr.ParseInt: signed overflow is undefined in C++; the model lets the accumulator wrap around, and `AccumulatorExactly` says when no overflow happens.
- net: parsing of IPv6 text by the platform, name lookup, sockets, address types, and formatting the IPv4 text into a buffer.
- str: lower-casing, comparison without case, confusable characters, hexadecimal and format helpers, which would only add easy members.
- Engine and game interfaces, graphics mathematics, Windows registry code and code generators are outside this model.
