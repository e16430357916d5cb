# Verified models of the DDNet core library and character core

A Dafny 4.11 project that models the parts of the repository whose correctness rests on loops, buffers,
interleavings or arithmetic, and proves what they promise, for all inputs and all runs.
`dafny verify dfyconfig.toml` checks everything.

| files | what they model | main results |
|---|---|---|
| `AsyncRing`, `AsyncProtocol`, `AsyncCalls`, `AsyncLogger` | the asynchronous writer ASYNCIO and the logger on top of it: first the ring buffer as a class over an array, then the protocol of writer, clients and owner with every lock, unlock, signal, wait, write and free as a step of its own | in every interleaving every write that is started is recorded once, and nothing is lost, duplicated or reordered on its way to the file; one release, no use after it, no lost wake-up; when the buffer can grow, exactly; progress of the writer, whatever the clients do |
| `FutureLogger` | `CFutureLogger`, messages logged before a logger is installed | exactly-once hand-over in every interleaving |
| `Sha256Spec`, `BlockChain`, `Sha256Bits`, `Sha256` | FIPS 180-4, and the streaming implementation in place over arrays | every split of every message gives the digest of the message |
| `Sha256Constants`, `Sha256Equations` | where the constants come from, and the equations of the standard by bits and sums | all 64 round constants are those of the cube roots of the first 64 primes |
| `EditDistance`, `Utf8Distance` | the edit distance with two rows in one buffer | the length of a shortest edit script; a metric |
| `Utf8`, `Utf8Strings`, `Utf8Errors` | the UTF-8 coder, copying, appending and truncating strings, and what they do with invalid ones | decoding and encoding are inverse; valid strings stay valid, cut as late as possible |
| `GroupCode`, `Base64`, `Base64Decode`, `Base64Alphabet` | base64 | the letters of all six-bit digits; a bijection; a short buffer gets exactly the prefix that fits |
| `IntStrings` | strings packed into integers for the network | the round trip, exactly for valid UTF-8 |
| `WindowsArgs` | quoting of Windows arguments | any splitter gets back exactly the list |
| `Easter` | the date of Easter | the first Sunday after the paschal full moon, for every year |
| `MoveBox`, `PlainMove`, `MoveBoxTiles` | the box mover, for arbitrary callbacks, without special tiles, and with those of the game | free of collision at the end, for all callbacks, if and only if the map only opens; without special tiles, exactly where it ends and how fast |
| `Teleporters` | the teleporter lists of the map | every teleporter exactly once |
| `BoxLaws`, `BoxEffects`, `TileLaws` | what collisions, portals, shifters, stoppers and switches mean for a moving box | boxes slide on floors, fall along walls, and land on ground |
| `HookTick`, `HookLaws`, `HookedPlayers` | the hook of a character, and who hooks whom | what a hook holds on to and for how long, over every run; launches only after a release; when hooked and attached agree, exactly |
| `Bytes`, `Common` | bytes and concatenation; definitions shared by several files | |

Some promises hold under a condition that the code does not check. It is stated exactly:

- The ring grows correctly if and only if queue, new bytes and one more are at most 2^31 bytes (`GrowthIsExact`);
  beyond that the 32-bit loop does not end (`HugeWriteNeverEnds`) or, if and only if the sum wraps to at most 2^31
  (`FailureIsExact`), ends with a buffer that is too small (`WrappedSizeIsTooSmall`).
- What is queued after `finish` was set may never be written (`LateCallIsLost`): exactly what was queued before the writer
  left its loop is (`WrittenIffFinishedBeforeExit`), and that includes everything queued before `finish` was set
  (`JoinedMeansWritten`). A writer that is freed without having been closed or waited for never ends, and its memory
  stays allocated (`WriterComesToRest`).
- `sha256_update` takes a `size_t`, and hands on its low 32 bits (`Update`).
- The attached and the hooked players agree as long as nobody is reset while hooked (`AttachedIffNotForgotten`,
  `ResetCoincidesIff`); hooking the same player again does not repair it (`ResetBreaksLinks`).
- In `MoveBox` a hit switch may change the map during the move. Boxes that start free always end free if and only if
  each change only opens the map (`AlwaysEndsFreeIffMapOnlyOpens`); a door that a hit switch turns on can catch one
  (`SwitchClosesDoorOnBox`).

One rule of use is sufficient for the invariant and needed in general, but not exact: the owner of an ASYNCIO frees it
only when no other call is in progress, its signal included. Without the rule there are runs, from a state at every step
of `aio_close`, that touch released memory (`FreeTooEarly`). Beside calls that only write, with `finish` not set, the
writer keeps its reference and nothing is ever released (`FreeBesideWrites`).

Conventions: a method follows the code statement by statement, with array fields where the code updates in place, and
is proved against a specification; properties that span several calls are lemmas about that specification. Ghost
parameters and ghost results carry what the proof needs and no more. Bytes are integers below 256; machine integers are
unbounded where the code keeps them in range, and reduced explicitly where it does not.

## Model

| member | source | states |
|---|---|---|
| `AsyncRing.NextBufferSize` | src/base/system.cpp:672-679 | the loop ends with the smallest doubling of the current size that is at least the needed size, within 32 bits |
| `AsyncRing.GrowthIsExact` | src/base/system.cpp:672-679 | with `cur_size *= 2` wrapping at 32 bits, the loop ends with a buffer that holds the queue, the new bytes and one free byte if and only if their sum is at most 2^31 |
| `AsyncRing.HugeWriteNeverEnds` | src/base/system.cpp:672-679 | a write of 2^31 bytes to an empty ring: the loop does not end, however often it doubles |
| `AsyncRing.FailureIsExact` | src/base/system.cpp:672-679 | beyond that bound the loop ends if and only if the sum, wrapped at 32 bits, is at most 2^31, and then with a buffer smaller than the sum |
| `AsyncRing.WrappedSizeIsTooSmall` | src/base/system.cpp:711-715 | a write of 2^32 - 1 bytes to an empty ring: the needed size wraps to zero, and the loop ends at once with 8 KiB |
| `AsyncRing.AsyncIo.constructor` | src/base/system.cpp:624-658 | a new ring of 8 KiB represents the empty queue |
| `AsyncRing.AsyncIo.BufferPtrs` | src/base/system.cpp:532-547 | the two reported stretches, one after the other, are the queue |
| `AsyncRing.AsyncIo.BufferLen` | src/base/system.cpp:660-670 | the length of the queue, always less than the size of the ring |
| `AsyncRing.AsyncIo.CopyOut` | src/base/system.cpp:593-611 | the clipped copies put the first min(64 KiB, length) bytes of the queue into the local buffer, in order |
| `AsyncRing.AsyncIo.Drain` | src/base/system.cpp:593-612 | local buffer and remaining queue together are the old queue, through wrap-around and clipping |
| `AsyncRing.AsyncIo.WriteInPlace` | src/base/system.cpp:698-710 | one or two copies, the second to the start of the buffer, append exactly the given bytes |
| `AsyncRing.AsyncIo.WriteGrowing` | src/base/system.cpp:711-739 | moving to a larger buffer keeps the queue and appends exactly the given bytes |
| `AsyncRing.AsyncIo.WriteUnlocked` | src/base/system.cpp:692-740 | the queue afterwards is the queue before followed by the bytes; the buffer grows if and only if it would become full, and never to more than twice what is needed |
| `AsyncProtocol.StepKeepsInv` | src/base/system.cpp:549-805 | every step of the writer, of any client and of the owner keeps the invariant: lock ownership, data, reference count, wake-up, exit and wait |
| `AsyncProtocol.ReachableInv` | src/base/system.cpp:549-805 | the invariant holds in every state of every interleaving of any number of clients |
| `AsyncProtocol.StreamIsIntact` | src/base/system.cpp:564-622 | in every interleaving, file, local buffer and ring together are all writes in lock order |
| `AsyncProtocol.CallsAreContiguous` | src/base/system.cpp:681-690 | what a caller queues between lock and unlock stands in the file in one piece, directly behind the calls before it |
| `AsyncProtocol.ReleasedOnceAndNotUsedAfter` | src/base/system.cpp:549-562 | the memory is released exactly once, by the holder that drops last, and is not touched afterwards; the file is closed at most once |
| `AsyncProtocol.NoLostWakeup` | src/base/system.cpp:576-590 | a writer at the semaphore with data in the ring or `finish` set finds a positive count, or some caller that has changed the state has yet to signal |
| `AsyncProtocol.ExitAfterEverythingIsWritten` | src/base/system.cpp:576-586 | the step by which the writer leaves its loop happens only with every byte queued so far in the file |
| `AsyncProtocol.WaitHasThread` | src/base/system.cpp:780-794 | `aio_wait` finds a thread handle that nobody has taken or detached |
| `AsyncProtocol.JoinedMeansWritten` | src/base/system.cpp:780-794 | when `aio_wait` has returned, the writer has ended and every call completed before `finish` was set is in the file |
| `AsyncProtocol.WrittenIffFinishedBeforeExit` | src/base/system.cpp:576-586 | once the writer has left its loop, a call with bytes to write is in the file if and only if it was finished by then; every call finished before `finish` was set was |
| `AsyncProtocol.LateCallIsLost` | src/base/system.cpp:576-586 | a call after `finish` was set can stay in the ring for ever, shown by a run; so the bound of JoinedMeansWritten cannot be improved |
| `AsyncProtocol.FileClosedIff` | src/base/system.cpp:578-583 | the file is closed, once, if and only if `finish` was ASYNCIO_CLOSE when the writer left its loop |
| `AsyncProtocol.CloseThenWait` | src/base/log.cpp:253-269 | after closing and waiting, as the destructor and `GlobalFinish` do, the file is closed and holds every call finished before the first `aio_close` |
| `AsyncProtocol.NoDeadlock` | src/base/system.cpp:564-805 | in every interleaving, when no thread can move and no caller holds a piece that the ring cannot take, every call has returned, `aio_wait` included |
| `AsyncProtocol.FreeTooEarly` | src/base/system.cpp:796-805 | freeing while another client is in `aio_close`, wherever in it, can lead to an access to released memory, shown by runs from four reachable states; so the rule that the owner frees alone is needed |
| `AsyncProtocol.FreeBesideWrites` | src/base/system.cpp:549-562 | freeing beside clients that only write, before anybody closes, is safe in every continuation: the writer keeps its reference, and nothing is released or touched after a release |
| `AsyncProtocol.WriterAtRest` | src/base/system.cpp:564-622 | a writer that cannot move has ended, or sleeps with everything written and `finish` not set |
| `AsyncProtocol.WrittenInBoundedSteps` | src/base/system.cpp:564-622 | however the clients go on, all calls that are finished are in the file after at most five steps of the writer for each of their bytes and five more, if the writer was still in its loop |
| `AsyncProtocol.WriterComesToRest` | src/base/system.cpp:564-622 | left alone the writer comes to rest after finitely many steps; after the owner has freed, the structure stays allocated if and only if nobody closed or waited |
| `AsyncCalls.EveryWriteIsRecorded` | src/base/system.cpp:681-740 | over every schedule, the writes that were started are, each as often as it was started, those recorded and those whose client has still to leave the lock; so their number is that of the starts less those |
| `AsyncCalls.ReturnedWriteIsRecorded` | src/base/system.cpp:742-747 | a write that has returned is recorded once it began, behind everything recorded before, in every interleaving |
| `AsyncCalls.ReturnedWriteIsInFile` | src/base/system.cpp:564-622 | after it has returned and the writer has made its steps, its bytes stand in the file in one piece |
| `AsyncCalls.ReturnedCloseIsFinal` | src/base/system.cpp:771-778 | once `aio_close` has returned, `finish` is ASYNCIO_CLOSE for ever, also when `aio_wait` came first |
| `AsyncLogger.CLoggerAsync.Log` | src/base/log.cpp:226-252 | the queue grows by exactly the formatted line, or by nothing if the message is filtered |
| `AsyncLogger.LogLinesAreContiguous` | src/base/log.cpp:226-252 | in every interleaving with other callers, a log line in the file is in one piece |
| `AsyncLogger.LoggedLineIsInFile` | src/base/log.cpp:226-252 | a line whose `Log` has returned is in the file, in one piece, after boundedly many steps of the writer |
| `AsyncLogger.FormattedLineShape` | src/base/log.cpp:226-252 | the text that is queued is the line and a newline, between a selection of its colour and one of none if it is to be coloured |
| `AsyncLogger.ColorIsSelected` | src/base/log.cpp:233-248 | a terminal reads the text before the line as selecting the 24-bit colour with its red, green and blue, and the one behind it as selecting none |
| `FutureLogger.StepKeepsInv` | src/base/log.cpp:499-533 | every step of `Log` and of `Set` keeps lock ownership, place and order of the messages |
| `FutureLogger.AlwaysInOnePlace` | src/base/log.cpp:499-533 | at any time a message is delivered, pending, or in the hands of its `Log` call: exactly one of these, once |
| `FutureLogger.ExactlyOnce` | src/base/log.cpp:499-533 | when all calls have returned, the installed logger has received every message exactly once |
| `FutureLogger.FlushedInQueueOrder` | src/base/log.cpp:509-512 | `Set` delivers the pending messages in the order in which they were queued |
| `FutureLogger.PendingStaysEmpty` | src/base/log.cpp:513-532 | after `Set` the pending list stays empty: whoever takes the lock then sees the logger |
| `FutureLogger.NoDeadlock` | src/base/log.cpp:499-533 | only when every call has returned can no thread move |
| `Sha256Bits.ChFastIsCh` | src/base/hash_libtomcrypt.cpp:55 | z ^ (x & (y ^ z)) is Ch of section 4.1.2 of FIPS 180-4, for all words |
| `Sha256Bits.MajFastIsMaj` | src/base/hash_libtomcrypt.cpp:56 | ((x \| y) & z) \| (x & y) is Maj of section 4.1.2, for all words |
| `Sha256Bits.RotIsRotr` | src/base/hash_libtomcrypt.cpp:57 | the two shifts combined are the circular right shift |
| `Sha256Bits.Load32IsBigEndian` | src/base/hash_libtomcrypt.cpp:36-39 | four bytes combined by shifts are the big-endian word |
| `Sha256.GammasAreSigmas` | src/base/hash_libtomcrypt.cpp:59-62 | the four sigma functions of the code are those of section 4.1.2 |
| `Sha256.ExpandSchedule` | src/base/hash_libtomcrypt.cpp:73-79 | the array W is the message schedule of section 6.2.2 |
| `Sha256.Rnd` | src/base/hash_libtomcrypt.cpp:81-89 | the macro updates d and h in place as one round of the standard does before its shift of the variables |
| `Sha256.RoundAndRotate` | src/base/hash_libtomcrypt.cpp:91-103 | one iteration of the loop is one round of section 6.2.2 |
| `Sha256.AllRounds` | src/base/hash_libtomcrypt.cpp:91-103 | the loop is the 64 rounds of the standard |
| `Sha256.Compress` | src/base/hash_libtomcrypt.cpp:64-108 | the compression of one block, in place, is the step of section 6.2.2 |
| `Sha256.Store` | src/base/hash_libtomcrypt.cpp:41-53 | the bytes written are the big-endian form of the number |
| `Sha256.Sha256Ctx.constructor` | src/base/hash_libtomcrypt.cpp:112-124 | the context of the empty message, with the initial hash value of section 5.3.3 |
| `Sha256.Sha256Ctx.Process` | src/base/hash_libtomcrypt.cpp:126-156 | taking data whole block by whole block or through the buffer extends the message by exactly this data |
| `Sha256.Sha256Ctx.Update` | src/base/hash_libtomcrypt.cpp:196-199 | the message is extended by the first `data_len` modulo 2^32 bytes, so by all of them if and only if there are fewer than 2^32 |
| `Sha256.Sha256Ctx.PadFirst` | src/base/hash_libtomcrypt.cpp:162-176 | the one bit, and a further block when the length field does not fit |
| `Sha256.Sha256Ctx.Done` | src/base/hash_libtomcrypt.cpp:158-189 | the result is the SHA-256 digest, as FIPS 180-4 defines it, of everything taken |
| `Sha256.PaddedMessage` | src/base/hash_libtomcrypt.cpp:165-184 | what is compressed at the end, in one block or two, completes the padding of section 5.1.1 |
| `Sha256.HashPieces` | src/base/hash_libtomcrypt.cpp:191-206 | for every split of every message into updates below 2^32 bytes, the result is the digest of the message |
| `Sha256Constants.PrimesInOrder` | src/base/hash_libtomcrypt.cpp:15-30 | the table of primes holds the first 64, in order and with none left out |
| `Sha256Constants.RoundConstants` | src/base/hash_libtomcrypt.cpp:15-30 | K[t] is the first 32 bits of the fraction of the cube root of prime t, for all 64, as section 4.2.2 of FIPS 180-4 defines it |
| `Sha256Constants.InitialHashValue` | src/base/hash_libtomcrypt.cpp:112-124 | the eight initial words are the first 32 bits of the fractions of the square roots of the first eight primes (section 5.3.3) |
| `Sha256Equations.BigSigmaBits` | src/base/hash_libtomcrypt.cpp:59-60 | bit i of the two functions is the parity of three bits of the word, i + 2, 13, 22 and i + 6, 11, 25 around the word |
| `Sha256Equations.SmallSigmaBits` | src/base/hash_libtomcrypt.cpp:61-62 | bit i is the parity of bits i + 7, 18 and i + 17, 19 around the word, and of i + 3 and i + 10 if there are such |
| `Sha256Equations.ChoiceAndMajority` | src/base/hash_libtomcrypt.cpp:55-56 | each bit of Ch is chosen by the first word, and each bit of Maj is the majority of three |
| `Sha256Equations.RoundEquations` | src/base/hash_libtomcrypt.cpp:81-103 | the equations of a round in section 6.2.2, as sums modulo 2^32 |
| `Sha256Equations.ScheduleBegins` | src/base/hash_libtomcrypt.cpp:73-75 | W[t] is word t of the block, for t below 16 |
| `Sha256Equations.ScheduleEquations` | src/base/hash_libtomcrypt.cpp:77-79 | from 16 on, W[t] is a sum of four words before, modulo 2^32 |
| `Sha256Equations.HashOfNextBlock` | src/base/hash_libtomcrypt.cpp:126-156 | the blocks are compressed one after the other from the initial hash value on |
| `Sha256Equations.PaddedShape` | src/base/hash_libtomcrypt.cpp:162-184 | a padded message is the message, the byte 0x80, fewer than 64 zeros, and in its last eight bytes the number of its bits |
| `Sha256Equations.DigestWords` | src/base/hash_libtomcrypt.cpp:186-188 | the digest is the eight words of the hash value, each most significant byte first |
| `EditDistance.BestScript` | src/base/system.cpp:3033-3067 | an edit script with the computed number of edits exists |
| `EditDistance.NoCheaperScript` | src/base/system.cpp:3033-3067 | no script that turns one string into the other has fewer edits |
| `EditDistance.DistanceIsLeastCost` | src/base/system.cpp:3033-3067 | the recursion that the table holds is the least cost of a script, and the only number that is |
| `EditDistance.DistanceZero` | src/base/system.cpp:3033-3067 | the distance is zero if and only if the strings are equal |
| `EditDistance.DistanceSymmetric` | src/base/system.cpp:3037-3047 | exchanging the operands does not change the distance |
| `EditDistance.DistanceTriangle` | src/base/system.cpp:3033-3067 | the triangle inequality, by composing scripts |
| `EditDistance.NotMoreThanDifferences` | src/base/system.cpp:3033-3067 | of strings of the same length the distance is at most the number of places in which they differ: a substitution costs one |
| `EditDistance.DistanceByLengths` | src/base/system.cpp:3033-3067 | the distance lies between the difference of the lengths and the greater length |
| `EditDistance.InsertionCostsOne` | src/base/system.cpp:3033-3067 | inserting one element anywhere, or deleting it, is a distance of exactly one |
| `EditDistance.NextCell` | src/base/system.cpp:3058-3062 | a cell of the new row from its left neighbour and two cells of the old row |
| `EditDistance.NextRow` | src/base/system.cpp:3053-3064 | the row of parity j, computed over the row before last |
| `EditDistance.FillTable` | src/base/system.cpp:3048-3065 | two rows in a buffer are enough; nothing outside of it is written |
| `EditDistance.Utf32DistBuffer` | src/base/system.cpp:3033-3067 | the result is the length of a shortest insert, delete and substitute script; all indices stay in the asserted buffer |
| `Utf8Distance.ToUtf32Unchecked` | src/base/system.cpp:3022-3031 | the decoded code points are stored one after the other, with the final zero behind them |
| `Utf8Distance.Utf8DistBuffer` | src/base/system.cpp:3069-3087 | the distance of the decoded strings; the asserted size is enough for both of them and the two rows |
| `Utf8.DecodeOfEncode` | src/base/str.cpp:861-971 | decoding the encoding of a scalar value returns it and its length, whatever follows |
| `Utf8.EncodeOfDecode` | src/base/str.cpp:906-971 | whatever decodes without error is the encoding of its code point, so no overlong form or surrogate is accepted |
| `Utf8.EncodeTo` | src/base/str.cpp:861-892 | the bytes written and their number are the encoding of section 3 of RFC 3629; beyond 0x10FFFF nothing is written, and of a negative number its low byte |
| `Utf8.Decode` | src/base/str.cpp:906-971 | the state machine returns the first code point or -1; from a byte that is not NUL it moves forward, and never past the terminator |
| `Utf8.FirstAdvances` | src/base/str.cpp:906-971 | on any bytes, decoding consumes at least one byte and no more than there are |
| `Utf8.DecodeAllOfEncodeAll` | src/base/str.cpp:906-971 | decoding again and again returns the encoded sequence |
| `Utf8.EncodeAllOfDecodeAll` | src/base/str.cpp:906-971 | a string that decodes without error is the encoding of what was decoded |
| `Utf8.ValidIffNoError` | src/base/system.cpp:3285-3296 | a string is the encoding of some scalar values if and only if no error occurs, and these values are unique |
| `Utf8.Check` | src/base/system.cpp:3285-3296 | accepts a string if and only if it is the encoding of some sequence of non-zero scalar values |
| `Utf8.Forward` | src/base/system.cpp:3275-3283 | moves behind the next code point, and nowhere at the end |
| `Utf8Errors.ErrorIsMaximalSubpart` | src/base/str.cpp:906-971 | on an error the decoder consumes the longest beginning of the encoding of some code point, or one byte where none begins, and no more |
| `Utf8Errors.DecodesIffCodePoint` | src/base/str.cpp:906-971 | decoding succeeds exactly if the bytes begin with the encoding of a code point |
| `Utf8Strings.StrLength` | src/base/str.cpp:40-43 | the number of bytes before the first NUL |
| `Utf8Strings.Rewind` | src/base/str.cpp:1068-1077 | the start byte at or before the cursor, or the start of the string |
| `Utf8Strings.FixTruncation` | src/base/str.cpp:990-1005 | only a broken last code point is removed, and the new length returned |
| `Utf8Errors.RewoundIsLastStart` | src/base/str.cpp:1068-1077 | between the new cursor and the old one there is no start byte |
| `Utf8Errors.FixedOfAny` | src/base/str.cpp:990-1005 | of any string, valid or not, the repair removes the last start byte and what follows, exactly if no code point begins there |
| `Utf8Errors.LimitedEndIsLast` | src/base/str.cpp:973-988 | of any source, valid or not, the truncation stops at a boundary: behind the allowed number of code points and errors, or the last one that fits |
| `Utf8Strings.StrCopy` | src/base/str.cpp:6-11 | the bytes that fit, without a broken last code point; nothing behind the buffer changes |
| `Utf8Strings.StrAppend` | src/base/str.cpp:13-28 | the concatenation as far as it fits, without a broken last code point; nothing behind the buffer changes |
| `Utf8Strings.AlignedPrefixIsLongest` | src/base/str.cpp:6-28 | the aligned prefix fits, and no longer one does |
| `Utf8Strings.CopyKeepsAlignedPrefix` | src/base/str.cpp:6-11 | of a valid source, `str_copy` keeps the longest prefix of whole code points that fits |
| `Utf8Strings.AppendKeepsAlignedPrefix` | src/base/str.cpp:13-28 | of valid strings, `str_append` leaves the longest prefix of whole code points of their concatenation |
| `Utf8Strings.Truncate` | src/base/str.cpp:973-988 | the same function of source, size and limit as for CopyNum, for every source; nothing behind the buffer changes |
| `Utf8Strings.CopyNum` | src/base/system.cpp:3298-3314 | the same function of source, size and limit as for Truncate, for every source; nothing behind the buffer changes |
| `Utf8Strings.TruncatedIsAlignedPrefix` | src/base/str.cpp:973-988 | of a valid source both leave the longest prefix of whole code points within the size and the limit |
| `IntStrings.StrToInts` | src/game/gamecore.cpp:71-89 | each integer packs four bytes offset by 128, with zero bytes behind the string and the last byte masked |
| `IntStrings.IntsToStr` | src/game/gamecore.cpp:91-120 | true with the unpacked string if that is valid UTF-8, and false with the empty string otherwise |
| `IntStrings.UnpackedOfPacked` | src/game/gamecore.cpp:71-111 | unpacking after packing gives every string that fits |
| `IntStrings.PackAndUnpack` | src/game/gamecore.cpp:71-120 | packing and unpacking returns true and the original string if it is valid UTF-8, for every string that fits |
| `IntStrings.PackIsBigEndian` | src/game/gamecore.cpp:85 | the 32 bits of an integer are its four bytes, each plus 128 modulo 256, the first one on top |
| `IntStrings.PackOfUnpack` | src/game/gamecore.cpp:97-109 | packing what any integer unpacks to gives it back |
| `Base64.EncodedAt` | src/base/str.cpp:642-692 | character o of the encoding, by the position in its group of four |
| `Base64.ReadStep` | src/base/str.cpp:656-661 | another byte enters the accumulator, which may overflow, exactly when fewer than six bits are left |
| `Base64.WriteStep` | src/base/str.cpp:666-690 | the next character of the encoding, padding included, or its end |
| `Base64.Encode64` | src/base/str.cpp:642-692 | for a buffer of any size, exactly the prefix of the encoding that fits, and a NUL |
| `Base64Decode.DigitValue` | src/base/str.cpp:694-717 | the inverse of the table of digits, and -1 for every other character |
| `Base64Decode.DecodeOfEncodedGroup` | src/base/str.cpp:736-784 | one to three bytes come back from their four characters |
| `Base64Decode.EncodeOfDecodedGroup` | src/base/str.cpp:736-784 | four characters that are accepted are the encoding of what they stand for, unused bits included |
| `GroupCode.AcceptedIffEncoding` | src/base/str.cpp:736-785 | if single groups can be decoded uniquely, so can texts: a text is accepted if and only if it is an encoding |
| `Base64Decode.AcceptedIffEncoding` | src/base/str.cpp:719-786 | a string decodes to some data if and only if it is the encoding of this data, as in section 4 of RFC 4648 |
| `Base64Decode.EncodingIsInjective` | src/base/str.cpp:642-692 | no two byte strings have the same encoding |
| `Base64Decode.ReadGroup` | src/base/str.cpp:738-766 | the value and the size of a group, with padding counted only in the last one |
| `Base64Decode.StoreBytes` | src/base/str.cpp:767-783 | the bytes of the group go to the output, and those behind the padding have to be zero |
| `Base64Decode.Decode64` | src/base/str.cpp:719-786 | the length and the data if the string is the encoding of some data, and otherwise the code of the first error |
| `Base64Alphabet.DigitIsLetter` | src/base/str.cpp:644 | digit v is the character of the alphabet of section 4 of RFC 4648 at v, for all 64 |
| `Base64Alphabet.EncodedLetter` | src/base/str.cpp:642-692 | character k of group g is the letter of six of the 24 bits of the group, or padding exactly where a byte that it would end is missing |
| `Base64Alphabet.PlusAndSlash` | src/base/str.cpp:644-690 | the bytes FB EF BE are encoded as four plus signs, and FF FF FF as four slashes |
| `Base64Alphabet.GroupError` | src/base/str.cpp:738-783 | a group is refused with -1 exactly for a character outside the alphabet that is not padding, and with -2 only if it is padded |
| `Base64Alphabet.DecodingError` | src/base/str.cpp:719-786 | the code of an error is that of the first group with an error |
| `WindowsArgs.WriteArg` | src/base/system.cpp:3448-3477 | after the closing quote, every splitter has one more argument, the given one |
| `WindowsArgs.WindowsArgsToWide` | src/base/system.cpp:3436-3481 | splitting the result by the rules of CommandLineToArgvW, in three dialects and behind any arguments already split off, returns exactly the list |
| `Easter.OperandsAreNatural` | src/base/system.cpp:2894-2908 | no division or remainder of the formula sees a negative operand |
| `Easter.EasterInRange` | src/base/system.cpp:2894-2908 | the date lies between 22 March and 25 April, for every year |
| `Easter.EasterIsSunday` | src/base/system.cpp:2894-2908 | the date is a Sunday of the Gregorian calendar, for every year: a day more than some weeks from Saturday, 1 January 2000 |
| `Easter.LunarTerm` | src/base/system.cpp:2900-2901 | the code's two divisions by 25 and 3 are the lunar correction of the century |
| `Easter.MoonByEpact` | src/base/system.cpp:2902-2906 | h and the week subtracted by m give the paschal full moon of Clavius' epact, with its exceptions |
| `Easter.EasterIsFirstSundayAfterMoon` | src/base/system.cpp:2894-2908 | the date is the first Sunday strictly after the paschal full moon, for every year |
| `MoveBox.Resolve` | src/game/collision.cpp:735-766 | after a collision: which axes are put back and reversed, by which of the three tests, and when grounded is set |
| `MoveBox.ResolvedIsFree` | src/game/collision.cpp:735-768 | after a collision the box is outside of the map or where it came from, and no component of its velocity is larger |
| `MoveBox.MakeTurn` | src/game/collision.cpp:711-768 | one iteration for arbitrary callbacks: portal, rest, or the resolved collision of what the callbacks leave |
| `MoveBox.TurnIsFree` | src/game/collision.cpp:699-769 | an iteration ends where it began or free in the map after it; without a portal and with callbacks that do not accelerate, no component grows |
| `MoveBox.Loop` | src/game/collision.cpp:699-770 | the loop makes its iterations one after the other until one of the breaks |
| `MoveBox.MoveBox` | src/game/collision.cpp:680-774 | position, velocity and grounded at the end are those of the specified run; a box that starts free in a map that only opens ends free in the last map unless it goes through a portal |
| `MoveBox.OpeningMapEndsFree` | src/game/collision.cpp:680-774 | for any effect of the callbacks, a box that starts free ends free if no switch it hits closes a place for it, unless it goes through a portal |
| `MoveBox.ClosingMapCatches` | src/game/collision.cpp:730-769 | if the map ever closes a place where the box can stand, there is a move, without a portal, that starts free and ends there, inside the map |
| `MoveBox.AlwaysEndsFreeIffMapOnlyOpens` | src/game/collision.cpp:680-774 | over all moves and all callbacks without a portal: boxes that start free always end free if and only if the map only opens |
| `MoveBox.MoveIsCalm` | src/game/collision.cpp:680-774 | callbacks that do not accelerate the box leave it not faster in the end |
| `PlainMove.PlainMoveFlies` | src/game/collision.cpp:699-769 | without special tiles each iteration moves the box by its part of the velocity, except on the axes on which its corners hit the map |
| `PlainMove.GroundedByLanding` | src/game/collision.cpp:741-764 | grounded is set if and only if some iteration hit the map along y, moving down, with positive elasticity |
| `PlainMove.StepsAreSmall` | src/game/collision.cpp:690-711 | no step is a unit or more long on either axis |
| `PlainMove.PlainMoveInFull` | src/game/collision.cpp:680-774 | the velocity in the end is reversed once for each hit on an axis; an axis without a hit is moved in full, and otherwise no further |
| `PlainMove.FreeFlight` | src/game/collision.cpp:680-774 | a box with nothing in its way ends at the sum of position and velocity, with velocity and grounded unchanged |
| `MoveBoxTiles.CornersAreCalm` | src/game/collision_kz.cpp:928-1073 | the stoppers and switches at the corners, in turn, do not make the box faster |
| `MoveBoxTiles.TestBoxKZ` | src/game/collision_kz.cpp:928-1073 | the loop over the corners is the composition of the active stoppers and the switches hit there, and remembers the tiles as touched; unless it reports an update, the box is unchanged |
| `MoveBoxTiles.SwitchClosesDoorOnBox` | src/game/collision_kz.cpp:953-1010 | a ninja flies over a switch, whose hit turns on a door that leaves the box inside something solid |
| `MoveBoxTiles.GameWorldIsCalm` | src/game/gamecore_kz.cpp:63-106 | with the position shifters, stoppers and switches of the game wherever they are, only a portal can make a box faster |
| `BoxLaws.BoxReaches` | src/game/collision.cpp:666-678 | a box collides with a floor, a ceiling or a wall if and only if it reaches it |
| `BoxLaws.OnlyCornersCollide` | src/game/collision.cpp:666-678 | a single solid point collides with the four corners of the box and no other place of it |
| `BoxLaws.OnlyXBlocked` | src/game/collision.cpp:735-766 | with only the move along x blocked, only x is put back and reversed |
| `BoxLaws.OnlyYBlocked` | src/game/collision.cpp:735-766 | with only the move along y blocked, only y is put back and reversed, and the box is grounded if it moved down with positive elasticity |
| `BoxLaws.BothOrNeitherBlocked` | src/game/collision.cpp:735-766 | with both blocked, or only the diagonal, both are put back and reversed |
| `BoxLaws.VelocityIsPower` | src/game/collision.cpp:680-774 | a component of the velocity in the end is the one before times the k-th power of -e, for k hits on its axis |
| `BoxLaws.ElasticityIsLimited` | src/game/collision.cpp:696-697 | elasticities between -1 and 1 are used as they are, others are limited |
| `BoxLaws.SlidesOnFloor` | src/game/collision.cpp:680-774 | on any map that is level along x, a box that starts free moves by all of its velocity along x and keeps it |
| `BoxLaws.FallsAlongWall` | src/game/collision.cpp:680-774 | on any map that is upright along y, the same along y, and the box does not become grounded |
| `BoxLaws.LandsOnGround` | src/game/collision.cpp:680-774 | over ground, a move with positive elasticity ends grounded if and only if it began so or its straight way reaches the ground |
| `BoxEffects.PortalEndsMove` | src/game/collision.cpp:711-715 | the first portal on the way ends the move, with the position and velocity that it gives |
| `BoxEffects.ShiftersCarry` | src/game/collision.cpp:690-721 | shifters everywhere carry the box along once in each iteration, of which there are the whole part of the speed and one more |
| `BoxEffects.ShiftedBackRests` | src/game/collision.cpp:723-728 | a shifter that takes the box back to where it was ends the move |
| `BoxEffects.StoppersHold` | src/game/collision.cpp:730-733 | stoppers along x hold the box on this axis from the first iteration on and leave the other one alone |
| `BoxEffects.SlowBoxesStay` | src/game/collision.cpp:693 | a box slower than 0.00001 stays where it is, whatever is there |
| `TileLaws.BlocksDown` | src/game/collision_kz.cpp:1016-1028 | a stopper lets pass what moves against its direction, here downwards; anything else is put back and reversed along it, and only along it |
| `TileLaws.BlocksLeft` | src/game/collision_kz.cpp:1029-1039 | the same a quarter turn further |
| `TileLaws.BlocksUp` | src/game/collision_kz.cpp:1040-1050 | the same two quarter turns further |
| `TileLaws.BlocksRight` | src/game/collision_kz.cpp:1051-1061 | the same three quarter turns further |
| `TileLaws.StopperIsSwitched` | src/game/collision_kz.cpp:1012 | a stopper with a number acts exactly while its switch is on |
| `TileLaws.SwitchTypes` | src/game/collision_kz.cpp:955-1004 | types 0 and 1 turn a switch on, 2 and 3 off, 4 toggles it |
| `TileLaws.SwitchIsHitOnce` | src/game/collision_kz.cpp:953-1009 | a ninja that arrives on a switch hits it once, with however many corners |
| `TileLaws.SwitchIsNotHit` | src/game/collision_kz.cpp:953-1009 | nobody else hits it, nor a ninja that touched it before |
| `TileLaws.ShifterMoves` | src/game/gamecore_kz.cpp:63-106 | a shifter moves the box by its distance and reverses the axes it names; its opposite undoes it |
| `Teleporters.IndexOfCentre` | src/game/collision.cpp:1011-1016 | the centre of every tile of the map is on this tile |
| `Teleporters.CentreIsHalfway` | src/game/collision.cpp:208 | the centre of a tile is as far from its left as from its right side, and from its top as from its bottom |
| `Teleporters.PureMapIndexIs` | src/game/collision.cpp:1011-1016 | every position on the map has the index of the tile it is on, and every other one that of the nearest tile |
| `Teleporters.KindsOfTypes` | src/game/collision.cpp:204-224 | the types 26, 27 and 30 of the map format, all others but 0, and no tile of two kinds |
| `Teleporters.TilesAreExact` | src/game/collision.cpp:200-226 | the tiles of a kind and number, each once and in order |
| `Teleporters.AllTilesAreExact` | src/game/collision.cpp:200-226 | the tiles with a number and a type, and no others, each once |
| `Teleporters.Collision.Init` | src/game/collision.cpp:200-226 | after loading, the four maps hold the centres of the tiles; a layer that is too small counts as none |
| `Teleporters.Collision.AddTile` | src/game/collision.cpp:204-224 | one tile extends the list of its kind and number and no other |
| `Teleporters.Collision.TeleOuts` | src/game/collision.h:190 | reading a list, which can add an empty entry, changes no list |
| `Teleporters.Collision.TeleAllSize` | src/game/collision.cpp:1464-1476 | the number of tiles with the number and a type |
| `Teleporters.Collision.TeleAllGet` | src/game/collision.cpp:1433-1462 | the element at the offset in the four lists one after the other, or (-1, -1) |
| `Teleporters.Collision.ListsFollowEachOther` | src/game/collision.cpp:1433-1462 | entrances come before exits, exits before those of checkpoints, and these before all others |
| `Teleporters.Collision.NthIsCentre` | src/game/collision.cpp:1433-1462 | offsets below the size give the centres of the tiles, larger ones (-1, -1) |
| `Teleporters.Collision.ListsEveryTileOnce` | src/game/collision.cpp:1433-1476 | over the offsets below the size, each tile with the number and a type comes exactly once, and the position is on it |
| `Teleporters.Collision.GetPureMapIndex` | src/game/collision.cpp:1011-1016 | an index of the map for every position, on and off it |
| `HookTick.NearestIsNearest` | src/game/gamecore.cpp:390-411 | the player taken by the loop is the nearest in reach, and among equals the one with the lowest number |
| `HookTick.HookCore.HookPlayers` | src/game/gamecore.cpp:390-411 | the loop hooks that player, or nobody if none is in reach |
| `HookTick.HookCore.Tick` | src/game/gamecore.cpp:276-502 | the new hook state is the one of the specification, whose runs are the subject of the lemmas |
| `HookTick.TickKeepsInv` | src/game/gamecore.cpp:276-502 | every tick keeps: a hooked player implies HOOK_GRABBED, a hook tick of at most 60, a world and an id |
| `HookTick.HookedMeansGrabbed` | src/game/gamecore.cpp:276-502 | the same in every run from `Reset` |
| `HookTick.HeldCount` | src/game/gamecore.cpp:285-495 | in every run the hook tick of a held player is the launch value plus the ticks of the hold so far |
| `HookTick.HoldIsBounded` | src/game/gamecore.cpp:494-501 | no unbroken hold on a player is longer than 60 ticks less the launch value |
| `HookTick.DefaultHold` | src/game/gamecore.cpp:276-502 | with a hook duration of at most 1.25 seconds, the default, no player is held for more than 60 ticks in any run |
| `HookTick.FlightFromIdle` | src/game/gamecore.cpp:276-295 | a hook that flies after a tick flew before it or was launched from idle, and idle comes only from a released input |
| `HookTick.LaunchesNeedRelease` | src/game/gamecore.cpp:276-295 | between two launches there is a tick with the input released |
| `HookTick.RetractionTakesThreeTicks` | src/game/gamecore.cpp:320-328 | an undisturbed retraction passes through its states in three ticks |
| `HookLaws.HitDecides` | src/game/gamecore.cpp:414-426 | a hook in flight with nobody to hook holds on ground, turns back at other solid tiles, and otherwise flies on |
| `HookLaws.TooLongTurnsBack` | src/game/gamecore.cpp:339-344 | a hook that is too long, with nobody to hook, turns back whatever it hits |
| `HookLaws.NearestIsHooked` | src/game/gamecore.cpp:387-411 | a player in reach is hooked before anything is hit: the nearest one, and among equals the one with the lowest number |
| `HookLaws.TeleporterMakesNew` | src/game/gamecore.cpp:428-440 | a hook is new from the teleporter it passes until the end of a tick in which it no longer flies |
| `HookLaws.ReleaseLetsGo` | src/game/gamecore.cpp:289-294 | a released hook is idle and holds nobody |
| `HookLaws.WallHolds` | src/game/gamecore.cpp:446-501 | a hook in a wall holds until it is released |
| `HookLaws.PlayerIsHeld` | src/game/gamecore.cpp:456-501 | a player is held exactly while it is there, may be kept, and the count is below 60 |
| `HookLaws.LaunchCount` | src/game/gamecore.cpp:285 | the count starts at 50 times what the duration is short of 1.25 seconds, rounded towards zero |
| `HookLaws.WallWasHit` | src/game/gamecore.cpp:276-502 | in every run, a hook that holds a wall was launched, met ground in flight, and has not been released since |
| `HookLaws.PlayerWasNearest` | src/game/gamecore.cpp:276-502 | in every run, a hooked player was the nearest in reach when the hook flew by, and has been held since |
| `HookedPlayers.HookedIsLastRequest` | src/game/gamecore.cpp:762-784 | over every run, a core hooks whom it was last told to, and nobody after its own `Reset` |
| `HookedPlayers.DoKeepsAttached` | src/game/gamecore.cpp:762-784 | each operation keeps: attached players hook the one they are attached to |
| `HookedPlayers.AttachedMeansHooked` | src/game/gamecore.cpp:762-784 | i in attached(j) implies hooked(i) = j, over every run of SetHookedPlayer, Read and Reset |
| `HookedPlayers.AttachedToOne` | src/game/gamecore.cpp:762-784 | no player is attached to two others |
| `HookedPlayers.AttachedIffNotForgotten` | src/game/gamecore.cpp:155-166 | over every run, i is attached to j if and only if it hooks j and j was not reset since |
| `HookedPlayers.CoincideWithoutReset` | src/game/gamecore.cpp:762-784 | without `Reset` the two relations coincide |
| `HookedPlayers.ResetCoincidesIff` | src/game/gamecore.cpp:155-166 | a `Reset` leaves them coinciding if and only if no other player hooks the one that is reset |
| `HookedPlayers.ResetBreaksLinks` | src/game/gamecore.cpp:155-166 | one core hooks another that is then reset: hooked and no longer attached, even after hooking again |
| `HookedPlayers.CharacterCore.SetHookedPlayer` | src/game/gamecore.cpp:762-784 | the fields of all cores afterwards, with cores that are missing, or the core itself, as target; a core that its world does not list passes on its id all the same, and one without an id or a world only remembers its target |
| `HookedPlayers.CharacterCore.ResetHook` | src/game/gamecore.cpp:155-166 | hooked and attached players of all cores after `Reset` |
| `HookedPlayers.CharacterCore.Read` | src/game/gamecore.cpp:681-697 | hooked and attached players of all cores after a snapshot was read |

## Left out

- Errors of the file operations: `aio->error`, short writes and failed allocations; a write appends to the file.
- The primitives: mutex, counting semaphore, threads and atomic loads are abstract state, sequentially consistent; the
  unsynchronised second store to `m_pLogger` in `CFutureLogger::Set`, which writes the value already there, is not a step.
- AsyncRing.AsyncIo.WriteGrowing: requires that queue, bytes and one more are at most 2^31; beyond that the code does not
  end or overruns its buffer, which GrowthIsExact states.
- AsyncRing.AsyncIo.WriteUnlocked: requires the same, for the same reason.
- AsyncLogger.CLoggerAsync.Log: requires the same of the formatted line.
- The ring inside the protocol: AsyncProtocol keeps the queue as a sequence, which AsyncRing implements step by step
  under the lock.
- The order of messages through `CFutureLogger` as a whole: `Set` publishes the logger first, so a later message can
  overtake pending ones.
- `CLoggerAsync` after `GlobalFinish`; the interface excludes it. The Windows newline: lines end in one newline here.
- MD5, and the alternative SHA-256 back end.
- The conversion of arguments to wide strings, and of file names; WindowsArgs begins with the converted arguments. The
  program name, which has quoting rules of its own, is among the arguments already split off.
- WindowsArgs splitters are written from the published rules for the arguments behind the program name; the
  implementation inside Windows is not part of this model.
- The window of days around Easter in `time_iseasterday`, whose loop adds its offsets to a time that was already
  shifted; and years before year 0.
- Rounding of floating-point numbers: positions and velocities are real numbers, and the length of the velocity is given.
- `HandlePortalCollision`, `CheckPointForCore` and the tile queries: arbitrary functions. TestBoxKZ and the position
  shifters are arbitrary in MoveBox and modelled in MoveBoxTiles.
- MoveBoxTiles.TestBoxKZ: models of a switch its status, not its end tick, type and time of the last update; a tile whose
  number has no switch, and a box without a core or a world, are not modelled. The tiles at the corners are a parameter.
- A null `pGrounded`, and the hook position moved along by a position shifter.
- HookTick.HookCore.HookPlayers: which players are in reach and how far away they are is a parameter.
- HookTick.HookCore.Tick: what the hook meets in a tick is a parameter of the tick; the movement of the characters, tuning
  and teams are not modelled. Endless hook, which sets the hook tick from outside, is not a tick.
- HookedPlayers.CharacterCore.ResetHook: models the hooked and the attached players, not the other fields of a core.
- HookedPlayers.CharacterCore.Read: models the hooked player, not the other fields of a snapshot.
- Cores that enter or leave a world during a run.
- Teleporters.Collision.Init: models the teleporter layer, not the other layers, and no map with a negative size.
- Utf8Strings.Truncate: requires a limit that is not negative; below zero the code would pass a size of zero to
  `str_copy`.
- `str_utf8_tolower`, case-insensitive search and comparison, string formatting, and `str_comp_filenames`.
- `secure_rand_below`, `swap_endian`, sockets, files, processes and time.
- Rendering, menus, the engine interfaces, game entities beyond the character core, build scripts and the Rust parts.
