# Verified models of the DDNet base and HTTP layers

The game's portability layer hides a number of small, delicate algorithms behind plain functions:
an asynchronous file writer, a streaming hash, string routines that must never cut a character in
half, printers whose output other programs parse, and the life cycle of a download. The modules
here state what these promise and prove it for all inputs and all interleavings.

| files | component | source |
|---|---|---|
| `AioRing.dfy` | the growable ring buffer, as a value and as the class that updates it in place | `src/base/aio.cpp` |
| `AioProtocol.dfy`, `AioTheorems.dfy` | any number of writers, the worker, close, wait and free, as a transition system | `src/base/aio.cpp` |
| `LogFile.dfy` | what the asynchronous logger writes, and a reader of its files | `src/base/log.cpp` |
| `FutureLogger.dfy` | the logger that queues until the real one is set | `src/base/log.cpp` |
| `Sha256Spec.dfy`, `Sha256Constants.dfy`, `Sha256ReadBack.dfy`, `Sha256.dfy` | FIPS 180-4, and the buffered block hasher | `src/base/hash_libtomcrypt.cpp` |
| `Utf8.dfy`, `Utf8Strings.dfy` | decoder, encoder, truncation-safe copying, offset conversion | `src/base/str.cpp` |
| `EditDistance.dfy`, `Utf8Distance.dfy` | the two-row edit distance | `src/base/str.cpp` |
| `Base64.dfy`, `Filenames.dfy` | base64 printer and parser, natural-order comparison | `src/base/str.cpp` |
| `WindowsArgs.dfy` | command-line quoting against the documented `CommandLineToArgvW` | `src/base/windows.cpp` |
| `AddrText.dfy`, `NetAddr.dfy`, `NetAddrParser.dfy`, `NetAddrRoundTrip.dfy` | address text | `src/base/net.cpp` |
| `HttpRequest.dfy` | a download's temporary file, destination, buffer and hash | `src/engine/http.cpp` |
| `Bytes.dfy`, `Text.dfy`, `Wrappers.dfy` | memory copying, number printing, optional values | |

Conventions. A file is the sequence of its bytes and a semaphore a counter. Buffers are arrays and
positions in them numbers; a null-terminated string is the sequence of its bytes before the
terminator. Unsigned 32- and 64-bit results are reduced explicitly wherever they could wrap; signed
`int` overflow, which the language leaves undefined, is excluded by preconditions. What the system
decides (whether a file can be opened, how much is written, what the server answers) is a parameter
of the method that asks for it.

Six statements come with the exact condition under which the code keeps them:

- `next_buffer_size` doubles an unsigned 32-bit number, and what `aio_write_unlocked` asks it for is an
  unsigned sum. The ring gets large enough exactly when no more than 2^31 bytes are needed. Above that
  and below 2^32 the loop never ends; from 2^32 on the sum has wrapped, and a loop that ends leaves the
  allocation too small (`AioRing.NextBufferSizeTerminates`, `AioRing.GrowthSufficesIff`).
- `sha256_update` takes a `size_t` but passes a 32-bit length on, so a chunk is hashed whole exactly
  when it is shorter than 4 GiB (`Sha256.AbsorbedWhole`).
- The documentation of `str_comp_filenames` says that digits are compared as numbers
  (`src/base/str.h:295`). The code compares the lengths of the runs first, so `01` comes behind `9`
  (`Filenames.LeadingZeroSortsLast`). Anywhere in a name, a number compares by value with all numbers
  written without leading zeros exactly when it has none itself (`Filenames.ByValueIff`).
- Of a text in brackets, `net_addr_from_str` ignores what follows the address or the port; of a dotted
  quad it does not (`NetAddrParser.ReadBracketedIff`, `NetAddrParser.ReadV4Iff`).
- A download that is skipped because the destination already matches its hash and that is validated
  all the same moves a temporary file of an earlier process to the destination, if there is one
  (`HttpRequest.Run`, `HttpRequest.StaleFileTakesOver`). No caller in the repository combines the two.
- `OnValidation` does not look at the request's state. A request that is not done is harmless to validate
  unless its temporary file could not be removed, in which case that file gets to the destination
  (`HttpRequest.Request.OnValidation`, `HttpRequest.FailedDownloadTakesOver`). The callers in the
  repository look at the state first.

`dafny verify dfyconfig.toml` checks all of it.

## Model

| member | source | states |
|---|---|---|
| AioRing.NeverFull | src/base/aio.cpp:174-184 | a ring always keeps a free cell, so equal cursors mean empty, and the cursor arithmetic gives the queue's length |
| AioRing.GrownCapacityBounds | src/base/aio.cpp:186-193 | growing ends at a doubling of 8192 that holds what is needed, is at most 2^31 and less than twice the need |
| AioRing.NextBufferSizeTerminates | src/base/aio.cpp:186-193 | in 32-bit arithmetic the doubling loop ends if and only if at most 2^31 bytes are needed |
| AioRing.GrowthSufficesIff | src/base/aio.cpp:186-229 | with the unsigned sum included, the loop can end at a size that holds the need if and only if that is at most 2^31; how it fails below and from 2^32 on |
| AioRing.AdvanceIsModular | src/base/aio.cpp:126-126 | the unsigned sum modulo the size is one wrap of the cursor; nothing overflows |
| AioRing.WriteInPlaceContents | src/base/aio.cpp:212-232 | laying data down from the write cursor, around the end if need be, appends exactly it to the queue |
| AioRing.TakeChunkContents | src/base/aio.cpp:126-126 | moving the read cursor drops exactly the bytes copied out |
| AioRing.AsyncBuffer.BufferPtrs | src/base/aio.cpp:46-61 | the two stretches, one after the other, are the queue; the second one starts at the front and only exists when the first reaches the end |
| AioRing.AsyncBuffer.BufferLen | src/base/aio.cpp:174-184 | the number of queued bytes |
| AioRing.AsyncBuffer.NextBufferSize | src/base/aio.cpp:186-193 | with up to 2^31 bytes needed the wrapping loop computes the unwrapped doubling |
| AioRing.AsyncBuffer.WriteUnlocked | src/base/aio.cpp:206-254 | the queue grows by exactly the data; the allocation is kept when a cell stays free and otherwise replaced by the grown one, with the queue at its front |
| AioRing.AsyncBuffer.WriteInPlace | src/base/aio.cpp:212-232 | the copies into one or two stretches append the data without growing |
| AioRing.AsyncBuffer.GrowAndWrite | src/base/aio.cpp:233-253 | queue and data are copied to the front of a larger allocation that is less than twice what they need |
| AioRing.AsyncBuffer.TakeChunk | src/base/aio.cpp:107-126 | the worker's section removes the first 64 KiB or all of the queue and has them in its local buffer |
| AioProtocol.NewObjectIsInitial | src/base/aio.cpp:138-172 | the object aio_new creates, with its own and the worker's reference, is where the runs start |
| AioProtocol.StepKeepsInv | src/base/aio.cpp:63-319 | every step of every thread keeps: file, chunk in flight and queue together are all that was enqueued; the lock; a pending wakeup for a sleeping worker with work; two references and one release; shutdown states; the bounds |
| AioProtocol.RunsKeepInv | src/base/aio.cpp:138-172 | so all of that holds in every state of every run from aio_new, for any number of threads |
| AioTheorems.FileIsPrefixOfSections | src/base/aio.cpp:195-254 | in every state of every run the file, and the history of what was enqueued, is a prefix of the writes of the sections begun so far, each whole and in the order in which they took the lock; all of them once nothing is queued, in flight or open |
| LogFile.LogFileIsPrefixOfMessages | src/base/log.cpp:240-266 | when the k-th section is the Log call of message k, the file is a prefix of exactly those messages rendered one after the other: calls never interleave, and nothing is lost once nothing is underway |
| LogFile.LogReadsAsMessages | src/base/log.cpp:240-266 | in every state of every run, a reader of the file gets the first of the messages whose calls have begun, each with its line and its r, g and b, in lock order; all of them once nothing is underway |
| LogFile.MessagesReadBack | src/base/log.cpp:246-265 | the reader, which knows nothing of messages, finds in rendered messages exactly their lines and colors in order, the reset being in front of the newline |
| LogFile.PlainLog | src/base/log.cpp:246-265 | without colors the file is line and newline in turn, whatever the lines hold |
| LogFile.LogIsCompleteAtExit | src/base/aio.cpp:90-100 | when the worker leaves, the file is exactly the messages whose calls have begun, and reads as these |
| AioTheorems.PeakIsAttained | src/base/aio.cpp:206-254 | the peak that bounds the allocation is the length of a queue there has been |
| AioTheorems.RingStaysBounded | src/base/aio.cpp:186-254 | in every state of every run both cursors are inside, the ring is not full, and its size is a doubling of 8192: 8192 itself, or less than twice (n + 1) for some queue length n there has been |
| AioTheorems.SleepingWorkerIsSignalled | src/base/aio.cpp:90-105 | in every run, with the lock free, a worker that waits while there is work has a positive semaphore or a thread about to signal |
| AioTheorems.NoUseAfterFree | src/base/aio.cpp:63-76 | no step of any run touches the object after its release, and it is released at most once, after both owners let go |
| AioTheorems.OthersAreLocal | src/base/aio.cpp:63-76 | the steps that do not count as touching the object change program counters only |
| AioTheorems.ReleasedInTheEnd | src/base/aio.cpp:310-319 | in every run, once worker and aio_free are both done the object has been released |
| AioTheorems.FinishIffAsked | src/base/aio.cpp:285-303 | in every run: the state is CLOSE if and only if an aio_close has come that far, not RUNNING if and only if an aio_close or aio_wait has, and the file is closed if and only if the worker has left after an aio_close |
| AioTheorems.WaitReturnsAfterExit | src/base/aio.cpp:295-308 | in every run, a thread that is out of its aio_wait has the worker exited |
| AioTheorems.OnlyWaitJoins | src/base/aio.cpp:285-308 | in every run, only an aio_wait makes a thread wait for the worker |
| AioTheorems.WorkerExitsDrained | src/base/aio.cpp:90-100 | the worker leaves only with the queue empty and everything enqueued in the file, and closes it exactly for CLOSE |
| AioTheorems.ClosedFileIsFinal | src/base/aio.cpp:92-100 | between any two moments of a run the file only grows, only the worker's exit for CLOSE closes it, and nothing is written or closed after that exit |
| AioTheorems.StepUsesBudget | src/base/aio.cpp:78-136 | every step that starts no new call lowers a measure, whatever the interleaving |
| AioTheorems.RunWithoutCallsIsBounded | src/base/aio.cpp:78-136 | without new calls every run is finite, with an explicit bound |
| AioTheorems.RestIsShutDown | src/base/aio.cpp:285-308 | after a shutdown request a state without a next step has the worker gone and every call returned |
| AioTheorems.RecordCanStep | src/base/aio.cpp:206-254 | a writer inside its section is never stuck while the queue may grow |
| AioTheorems.ShutdownCompletes | src/base/aio.cpp:285-308 | in every run, after an aio_close or aio_wait and with no further calls: it comes to rest within the bound, with all sections' bytes in the file, all calls returned, the worker gone, and the file closed after an aio_close |
| AioTheorems.RestIsWritten | src/base/aio.cpp:78-136 | in every run, before shutdown is asked for: a state without a next step has all calls returned, the worker waiting, and all sections' bytes in the file |
| FutureLogger.StepKeepsInv | src/base/log.cpp:516-550 | every interleaving of loggers with the one Set keeps: each message is delivered, queued or in a thread's hands as often as it was logged, and the replay follows the queue |
| FutureLogger.RunsKeepInv | src/base/log.cpp:516-550 | that holds in every state of every run |
| FutureLogger.RunHistory | src/base/log.cpp:516-524 | what counts as logged is what Log was called with, and the logger is set exactly when Set has published it |
| FutureLogger.DeliversOnlyWhenSet | src/base/log.cpp:534-550 | in every run nothing is handed to the real logger before it is published, on either path |
| FutureLogger.NeverStuck | src/base/log.cpp:516-550 | in every run, while a call is in progress some thread has a step |
| FutureLogger.NothingStranded | src/base/log.cpp:526-531 | in every run, with the logger set and the lock free the queue is empty and was replayed in its order |
| FutureLogger.DeliveredExactlyOnce | src/base/log.cpp:534-550 | in every run, when all calls have returned, deliveries plus queue are the messages of the Log calls, each as often as it was logged; all are delivered once Set has published the logger, all are queued before |
| Sha256Constants.RoundConstants | src/base/hash_libtomcrypt.cpp:15-29 | each of the 64 words of K is the first 32 bits of the fractional part of the cube root of its prime (section 4.2.2 of FIPS 180-4) |
| Sha256Constants.InitialHashValue | src/base/hash_libtomcrypt.cpp:112-124 | the initial state likewise comes from the square roots of the first eight primes (section 5.3.3) |
| Sha256Words.ChCodeIsCh | src/base/hash_libtomcrypt.cpp:55-55 | the code's Ch is the standard's |
| Sha256Words.MajCodeIsMaj | src/base/hash_libtomcrypt.cpp:56-56 | the code's Maj is the standard's |
| Sha256Words.Sigma0IsBigSigma0 | src/base/hash_libtomcrypt.cpp:57-59 | the masked rotations are the standard's ROTR |
| Sha256Words.Gamma1IsSmallSigma1 | src/base/hash_libtomcrypt.cpp:58-62 | the same for the schedule's functions |
| Sha256Words.AddIsModular | src/base/hash_libtomcrypt.cpp:86-90 | 32-bit addition is addition modulo 2^32 |
| Sha256ReadBack.PadParts | src/base/hash_libtomcrypt.cpp:158-184 | a padded message is the message, a '1' bit, fewer than 64 zero bytes, and eight bytes that read as its length in bits modulo 2^64 |
| Sha256ReadBack.BigEndianReadsBack | src/base/hash_libtomcrypt.cpp:42-47 | the octets stored for a number stand for that number |
| Sha256ReadBack.WordReadsBack | src/base/hash_libtomcrypt.cpp:49-54 | load32 undoes store32 for every word |
| Sha256ReadBack.DigestIsFinalHash | src/base/hash_libtomcrypt.cpp:186-189 | the eight big-endian words of a digest are the last hash value |
| Sha256.FillSchedule | src/base/hash_libtomcrypt.cpp:64-84 | the array holds the message schedule of section 6.2.2 of FIPS 180-4 |
| Sha256.RoundInPlace | src/base/hash_libtomcrypt.cpp:86-102 | the RND macro and the moves behind it are one round on the working variables |
| Sha256.CompressInPlace | src/base/hash_libtomcrypt.cpp:64-108 | sha_compress is the standard's compression of one block |
| Sha256.AbsorbedWhole | src/base/hash_libtomcrypt.cpp:196-199 | a chunk passes the 32-bit length parameter unharmed if and only if it is shorter than 4 GiB |
| Sha256.HoldsBlock | src/base/hash_libtomcrypt.cpp:132-154 | compressing a full block, direct or buffered, keeps the context the state of the message so far |
| Sha256.PadInOneBlock | src/base/hash_libtomcrypt.cpp:176-184 | with up to 55 bytes buffered one block completes the padding of section 5.1.1 |
| Sha256.PadInTwoBlocks | src/base/hash_libtomcrypt.cpp:169-184 | with more, two blocks do |
| Sha256.Sha256Ctx.Process | src/base/hash_libtomcrypt.cpp:126-156 | direct and buffered paths together append the input to the message |
| Sha256.Sha256Ctx.CompressPadding | src/base/hash_libtomcrypt.cpp:158-184 | either padding branch leaves the hash state of the padded message |
| Sha256.Sha256Ctx.Done | src/base/hash_libtomcrypt.cpp:158-189 | the digest is SHA-256 of the message |
| Sha256.HashChunks | src/base/hash_libtomcrypt.cpp:191-206 | init, any number of updates and finish give SHA-256 of the concatenation, however it is cut into chunks below 4 GiB; in general, of what was absorbed |
| Utf8.DecodeEncode | src/base/str.cpp:924-1034 | the decoder inverts the encoder on every Unicode scalar value, whatever follows |
| Utf8.DecodeSound | src/base/str.cpp:969-1034 | every result that is no error is a scalar value whose encoding is exactly the bytes read: no overlong forms, no surrogates |
| Utf8.DecodeExtends | src/base/str.cpp:969-1034 | a successful result depends on the bytes read only, not on what follows |
| Utf8.DecodeProgress | src/base/str.cpp:957-1034 | on any null-terminated input one to four bytes are read and the terminator is passed only to report the end |
| Utf8.CutEncodingFails | src/base/str.cpp:1060-1065 | an encoding cut short decodes to an error |
| Utf8.StrUtf8Encode | src/base/str.cpp:924-955 | the bytes of the encoding are stored, and nothing else |
| Utf8.StrUtf8Decode | src/base/str.cpp:969-1034 | the loop with its shifted accumulator computes the decoder of section 8.1.1 of the WHATWG Encoding Standard |
| Utf8Strings.ValidIffEncoded | src/base/str.cpp:1239-1250 | a string decodes without error if and only if it is a concatenation of encoded scalar values |
| Utf8Strings.FixedIsLongest | src/base/str.cpp:1053-1068 | cutting a valid string anywhere and repairing the cut leaves its longest prefix of whole code points |
| Utf8Strings.Rewind | src/base/str.cpp:1131-1140 | the cursor goes back to the last start byte before it, or to the front |
| Utf8Strings.FixTruncation | src/base/str.cpp:1053-1068 | on any stored string: the last code point goes if it does not decode, and the new length is returned |
| Utf8Strings.StrCopy | src/base/str.cpp:18-23 | for valid text exactly the longest whole-code-point prefix that fits, and its length; nothing behind the room changes |
| Utf8Strings.StrAppend | src/base/str.cpp:25-40 | behind a valid destination exactly the longest such prefix of the source |
| Utf8Strings.StrUtf8Truncate | src/base/str.cpp:1036-1051 | as many whole characters as fit, at most the given number, and no fewer; of any source, those bytes repaired at their end |
| Utf8Strings.StrUtf8Forward | src/base/str.cpp:1229-1237 | the next decoder boundary, or the end again |
| Utf8Strings.OffsetCharsToBytes | src/base/str.cpp:1305-1316 | the k-th decoder boundary, of valid text or not |
| Utf8Strings.OffsetBytesToChars | src/base/str.cpp:1290-1303 | the first boundary at or behind the offset |
| Utf8Strings.OffsetsAdjoint | src/base/str.cpp:1290-1316 | the two conversions are a Galois pair |
| Utf8Strings.CharsRoundTrip | src/base/str.cpp:1290-1316 | characters to bytes and back is the offset clamped to the number of characters |
| Utf8Strings.BytesRoundTrip | src/base/str.cpp:1290-1316 | bytes to characters and back is the least boundary not below the offset, clamped to the length |
| EditDistance.Symmetric | src/base/str.cpp:1362-1370 | the distance is symmetric, which justifies swapping the strings |
| EditDistance.ZeroIffEqual | src/base/str.cpp:1358-1393 | it is zero on equal strings only |
| EditDistance.Triangle | src/base/str.cpp:1358-1393 | it satisfies the triangle inequality |
| EditDistance.DistIsShortest | src/base/str.cpp:1358-1393 | a number is the distance if and only if it is the length of a shortest sequence of insertions, deletions and substitutions |
| EditDistance.FillRow | src/base/str.cpp:1379-1390 | one pass turns a row of prefix distances into the next one in place |
| EditDistance.Utf32DistBuffer | src/base/str.cpp:1358-1393 | the two alternating rows, in scratch space that may overlap nothing, end with the distance; only that space changes |
| Utf8Distance.ToUtf32Unchecked | src/base/str.cpp:1327-1336 | the decoder's results are stored one behind the other, errors included |
| Utf8Distance.StrUtf8DistBuffer | src/base/str.cpp:1338-1356 | with the documented buffer size both strings and the table always fit, and the result is the distance of the code points |
| Utf8Distance.ValidStringsApart | src/base/str.cpp:1338-1356 | between valid strings it is zero exactly when they are equal |
| Base64.StrBase64 | src/base/str.cpp:687-737 | the bit accumulator prints the encoding of section 4 of RFC 4648, and as much of it as fits into a smaller buffer |
| Base64.DigitIsInTable | src/base/str.cpp:689-689 | the digits are those of Table 1 of RFC 4648, in its order |
| Base64.StrBase64Decode | src/base/str.cpp:764-831 | the parser's result and error codes; a string is accepted exactly when it is the encoding of the result |
| Base64.StoreQuantum | src/base/str.cpp:781-828 | one group of four characters becomes up to three bytes, or the error its digits or its excess bits call for |
| Base64.QuantumSound | src/base/str.cpp:781-828 | an accepted group is the encoding of its bytes, padding only in the last one |
| Base64.QuantumComplete | src/base/str.cpp:781-828 | the encoding of up to three bytes is accepted and yields them |
| Base64.DecodesIffEncoded | src/base/str.cpp:687-831 | parsing yields d if and only if the text is the encoding of d: only canonical encodings, section 3.5 of RFC 4648 |
| Base64.RoundTrip | src/base/str.cpp:687-831 | decoding an encoding gives the bytes back |
| Filenames.StrCompFilenames | src/base/str.cpp:258-290 | the sign of the loop's result is that of comparing token lists: numbers by length and digits, letters without case; for all byte strings, with char signed or not |
| Filenames.CompareFlips | src/base/str.h:295-306 | swapping the names swaps the sign |
| Filenames.CompareTransitive | src/base/str.h:295-306 | the order is transitive, and strictly so if one step is strict |
| Filenames.CompareZero | src/base/str.h:295-306 | names compare equal exactly when they differ in case only |
| Filenames.SameLetter | src/base/str.cpp:285-287 | two characters are identified exactly when they are equal or one letter in two cases |
| Filenames.FirstDifferenceDecides | src/base/str.cpp:258-290 | behind equal text, two characters that are no capitals and not both digits decide by their values alone, except that a number that goes on is larger than one that has ended |
| Filenames.EndDecides | src/base/str.cpp:289-289 | the same for a name that has ended, by its terminator |
| Filenames.CapitalIsSmall | src/base/str.cpp:285-285 | a capital anywhere in a name can be replaced by its small letter without changing any comparison |
| Filenames.ByValueIff | src/base/str.h:295-295 | a number, anywhere in a name, is ordered by value against every number without leading zeros, and by what follows an equal one, if and only if it has no leading zero itself |
| Filenames.LeadingZeroSortsLast | src/base/str.h:295-295 | the input for which the documentation fails: 01 comes behind 9 |
| WindowsArgs.WindowsArgsToWide | src/base/windows.cpp:26-71 | the loops print the quoted list, and the documented parser reads the arguments back from it |
| WindowsArgs.ReadEscaped | src/base/windows.cpp:40-66 | escaped text inside quotes reads as itself, with the backslashes in front of it |
| WindowsArgs.ReadWord | src/base/windows.cpp:40-66 | without quotes the documented parser ends an argument at a space or a tab and takes backslashes literally |
| WindowsArgs.ArgumentsRoundTrip | src/base/windows.cpp:26-71 | every list survives, with empty arguments, quotes, blanks and trailing backslashes |
| WindowsArgs.PrintedApart | src/base/windows.cpp:26-71 | different lists never print alike |
| WindowsArgs.ProcessSeesArguments | src/base/process.cpp:45-52 | a program started with its quoted path in front sees its path and the list, by the rule for program names |
| AddrText.CanonicalReads | src/base/net.cpp:217-282 | the canonical text of section 4 of RFC 5952 is read by section 2.2 of RFC 4291 as the address |
| AddrText.CanonicalApart | src/base/net.cpp:217-282 | two addresses share a canonical text only if they are equal |
| AddrText.GroupsStyle | src/base/net.cpp:273-274 | the groups printed are lower-case hexadecimal without leading zeros (sections 4.1 and 4.3 of RFC 5952) |
| AddrText.CanonicalLength | src/base/types.h:162-162 | it has at most 39 characters |
| NetAddr.FindLongestRun | src/base/net.cpp:219-260 | the search finds the first of the longest runs of two or more zeros, or none |
| NetAddr.PutWords | src/base/net.cpp:262-276 | piece by piece the loop writes the text up to the closing bracket into however much room there is |
| NetAddr.NetAddrStrV6 | src/base/net.cpp:217-282 | the buffer shows the bracketed canonical text and the port, cut off only where its room ends |
| NetAddr.NetAddrStr | src/base/net.cpp:284-311 | the same for all four types of addresses, with or without port |
| NetAddr.TextFits | src/base/types.h:162-162 | no text is longer than NETADDR_MAXSTRSIZE allows |
| NetAddr.SameNumber | src/base/net.cpp:262-276 | words and octets of an address are one number of 128 bits, in base 65536 and in base 256 |
| NetAddrParser.ParseInt | src/base/net.cpp:313-336 | the value of the whole run of digits and the position behind it, without overflow when that number fits an int |
| NetAddrParser.ReadV4Iff | src/base/net.cpp:487-514 | accepted is exactly four numbers up to 255 with dots and perhaps a port, and nothing else |
| NetAddrParser.ReadBracketedIff | src/base/net.cpp:441-486 | accepted is exactly a host of up to 127 characters in brackets whose port, if there is a colon, is a number up to 65535 |
| NetAddrParser.NetAddrFromStr | src/base/net.cpp:436-517 | the address is filled in with what these readings say, or -1 is returned |
| NetAddrParser.PrintedReadsBack | src/base/net.cpp:284-517 | every printed address is read back: type, address and port |
| NetAddrRoundTrip.TextReadable | src/base/net.cpp:313-336 | no printed text holds a number that overflows the parser |
| NetAddrRoundTrip.PrintAndParse | src/base/net.cpp:284-517 | printing into a buffer of the documented size and parsing the buffer gives the address back |
| HttpRequest.GrownSize | src/engine/http.cpp:298-302 | doubling from 1024 ends with enough room, less than twice what is needed |
| HttpRequest.Request.BeforeInit | src/engine/http.cpp:249-276 | starts an empty temporary file, or asks for the request to be aborted; the time to ask the server about becomes that of the existing file when that is wanted and known |
| HttpRequest.Request.OnData | src/engine/http.cpp:278-316 | a chunk is taken exactly when it stays within the cap and is written whole; file, buffer, hash and length then all hold the chunks so far |
| HttpRequest.Request.CheckHash | src/engine/http.cpp:320-335 | a download whose hash differs from the expected one ends as an error |
| HttpRequest.Request.SettleFile | src/engine/http.cpp:337-392 | done if and only if the outcome is, the file is closed, and a 304 answer has an existing file to stand for or the download gets its place; aborted if and only if the outcome is and an open file closes; then exactly what is in both files |
| HttpRequest.Request.OnCompletionInternal | src/engine/http.cpp:318-406 | done if and only if the outcome is, the hash is the expected one, and a file is closed and gets its place; exactly when it is aborted; destination, temporary file and result in every case, the result being the body, or the existing file after a 304 answer |
| HttpRequest.Request.OnValidation | src/engine/http.cpp:120-148 | success moves the temporary file to the destination, everything else removes it, whatever the state; the request stays what it should be if it was done or left no file |
| HttpRequest.Request.Destroy | src/engine/http.cpp:25-34 | a request that still awaits validation is refused, no temporary file of a completed one survives, and the destination is left alone |
| HttpRequest.CalculateSha256 | src/engine/http.cpp:195-215 | reading a file in pieces of 64 KiB gives the SHA-256 of its content |
| HttpRequest.ShouldSkipRequest | src/engine/http.cpp:235-247 | a download is skipped exactly when the existing file has the expected hash |
| HttpRequest.Perform | src/engine/http.cpp:249-406 | the same equivalence for a request up to its completion |
| HttpRequest.Run | src/engine/shared/http_curl.cpp:442-502 | over whole runs: done if and only if the files can be created, every chunk stays in the cap and is written whole, the transfer succeeds, the hash is the expected one, the file is closed, placed, and validated if that is asked for; done means delivered; the destination changes only to the concatenated chunks, complete, within the cap, with the expected hash and validated; no temporary file survives; and the destination, temporary file and state of a skipped request |
| HttpRequest.StaleFileTakesOver | src/engine/http.cpp:120-148 | a request that is skipped and validated replaces the matching destination by a stale temporary file |
| HttpRequest.FailedDownloadTakesOver | src/engine/http.cpp:120-148 | a failed request whose temporary file stays and that is validated replaces the destination by it |

## Left out

- AioProtocol.StepKeepsInv: writes to the file are taken to be complete, because `aio_thread` ignores the result of `io_write` (src/base/aio.cpp:129); the error flag read by `aio_error` is left out with it.
- AioProtocol.RunsKeepInv: threads, mutex and semaphore are abstract steps, one per use of shared data; weak memory, failing allocations and thread creation, and a second `aio_wait` on the same object are not modelled.
- AioTheorems.RecordCanStep: a write that would need more than 2^31 bytes of buffer has no step; the code loops forever or gets too small an allocation there (`AioRing.GrowthSufficesIff`), and what it does next is not modelled.
- FutureLogger.DeliveredExactlyOnce: says nothing about the order between replayed and direct messages, because a logger on the fast path can overtake the replay; the second, plain store of the same pointer in `Set` (src/base/log.cpp:524) is not a step of its own. `GlobalFinish` and the filter are left out.
- LogFile.LogFileIsPrefixOfMessages: the filter of a logger is left out, a filtered message makes no call.
- LogFile.LogReadsAsMessages: takes messages on one line, which without a color of their own do not start with an escape sequence; any other line cannot be told apart by a reader.
- Sha256.HashChunks: says what the code does with chunks of 4 GiB and more, but relates the digest to the whole message only below; messages of 2^64 bits and more, which the standard does not cover, are padded with the length modulo 2^64 as the code does.
- Base64.StrBase64Decode: lengths are unbounded numbers, the 32-bit `int` arithmetic on sizes of 2 GiB and more is not modelled.
- Filenames.StrCompFilenames: `tolower` is that of the C locale and leaves all bytes but the letters of ASCII alone, also where C leaves it undefined, for the negative values of a signed `char`.
- WindowsArgs.WindowsArgsToWide: arguments are UTF-16 strings already, the conversion from UTF-8 is the system's; `CommandLineToArgvW` is its documentation's rules, not the undocumented treatment of two quotes in a row, which quoted arguments never contain.
- AddrText.CanonicalReads: the third form of section 2.2 of RFC 4291, with a dotted quad at the end, is not read; the printer never writes it.
- NetAddrParser.NetAddrFromStr: the system's conversion is a parameter; what an address holds after a failure is not stated, and so are numbers that the parser gets to and that overflow an `int`, which C leaves undefined.
- HttpRequest.Request.OnData: sizes are unbounded numbers and memory is never short; progress reporting and the hand-over of the state to waiting threads are left out.
- HttpRequest.Run: one request at a time, with the outcomes of all file operations as a script; the transfer itself, headers, retries and redirects are left out.
- `printf`, `strncat` and `inet_pton` stand for what they are specified to do on the arguments they get here.
- Other string functions (escaping, tokens, trimming, case-insensitive search, UTF-8 statistics) would only add easy members.
- Sockets, storage, links, processes, configuration, curses and Windows registry code, floating-point code and everything above the base and HTTP layers.
