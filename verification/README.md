# Dafny model of the CH32H4 Arduino core

The core is firmware for a dual-core RISC-V microcontroller: a small in-order V3F and a
fast V5F share one memory and execute from one flash array. This project models the parts
of the core that are algorithms or protocols rather than register settings, and proves
what they promise. Hardware is kept to a few words of abstract state whose answers are
arbitrary wherever the real ones are not under the program's control: a wait may run out, a
command may fail, time may pass and an interrupt may come between any two reads.

| file | what it models |
|---|---|
| `Stream.dfy`, `ParseInt.dfy` | the multi-target stream search, and `parseInt` |
| `Numerals.dfy`, `Print.dfy` | numerals, and the three number printers |
| `IPText.dfy`, `IPGrammar.dfy`, `IPAddress.dfy` | the texts of an address as a theory, what is accepted, and the class that prints and parses in place |
| `MD5.dfy`, `MD5Suite.dfy`, `MD5Builder.dfy` | RFC 1321, a digest of its section A.5 operation by operation, and the incremental digest |
| `Park.dfy` | parking the other core before flash is written |
| `Fifo.dfy`, `Mutex.dfy` | the inter-core FIFO and the recursive mutex |
| `SdArithmetic.dfy`, `Sdmmc.dfy` | the SD clock, capacity and addresses; the block path |
| `DMAPool.dfy`, `DMAAlign.dfy` | the DMA buffer pool and its memory |
| `SysTick.dfy`, `Rtc.dfy` | the microsecond clock and delay; the real-time clock |
| `Flash.dfy`, `Ota.dfy` | the flash controller and driver; committing a new image |
| `Timers.dfy` | timer ownership under `analogWrite` and `tone` |
| `BootGuard.dfy`, `Sbrk.dfy` | the crash-loop breaker; the heap |
| `Arith.dfy`, `Bits.dfy` | products, quotients and powers; bitwise operations |

Concurrency is interleaving of single loads and stores, one at a time. The two-core
protocols are state machines whose invariants hold in every run. Code that changes state
step by step is a class or a method with loops, proved against a function or a relation
that is defined without it.

## What the code does not promise

Each of these is a lemma or a method with a concrete run or input, named here, beside the
theorem that says exactly when the promise does hold.

* Parking is safe under exactly one discipline (`Park.SafeExactly`): a request must not
  start while the doorbell bit of the channel is still set, and the test of `park_check`
  and the masking must be one step. Guarding only against the bell of a request that was
  given up is not enough (`Park.ExpiredBellGuardIsNotEnough`). Two live cores that ask each
  other at the same time park each other for good (`Park.CrossedRequestsDeadlock`). A core
  that need not park the other can be parked in the middle of its own flash operation
  (`Park.UnparkedHolderIsNotAlone`).
* The nesting depth of a recursive mutex is one byte: at 256 it wraps (`Mutex.NestsDeep`),
  the lock is never given back (`Mutex.ReleasedUnlessWrapped`), and the next lock waits for
  itself.
* A version 2 card whose C_SIZE is all ones reads as zero blocks
  (`SdArithmetic.FullSizeReadsAsZero`, `CapacityIsRight`). Below the slowest rate of the low
  clock mode `sd_set_clock` exceeds the request; at a 400 MHz source that includes the
  100 kHz that `ch32h4_sd_begin` accepts (`SdArithmetic.HundredKilohertzIsOutOfReach`).
* A transfer that fails after its chunk has taken a turn of the bounce buffers and before
  the engine is armed leaves the engine in the middle of the buffer used next. The retry
  then succeeds and puts an old block on the card, or hands the caller one
  (`Sdmmc.LostTurnWritesTheWrongBlock`, `RightExactlyFromTheHead`,
  `ReadRightExactlyFromTheHead`).
* `DMAPool::free(buf)` without flags sends a written buffer back to be written, because
  `get_flags` returns a `bool` (`DMAPools.WrittenAndLost`, `DefaultFreeIsRelease`); and of
  the even alignments that `aligned_malloc` lets through its mask aligns for the powers of
  two only (`DMAAlignment.EvenIsNotEnough`, `AlignsExactly`).
* `analogWriteStop` stops whatever is on the first row of the pin whose timer PWM holds. On
  the tables as shipped that can be the channel of another pin: one that shares it, when the
  stopped pin was never written (`Timers.StopOfUnwrittenPin`) or had gone to its second
  choice (`Timers.StopOfSecondChoice`, `StopUnmarksExactly`, `StopSparesOthersExactly`).
* `MD5Builder::add(const char *)` narrows the length to sixteen bits: of a string of 64 KB
  nothing is left (`MD5Builders.LongStringIsDropped`, `NarrowedIsWhole`).
* In bases above 201 a digit may print as NUL, which cuts the text of the plain loop off
  but not that of the fast one (`Print.ReferenceIsCutOff`, `CutExactly`).
* `parseInt` never returns if the character to ignore is 255, a number has begun and nothing
  that ends it arrives any more (`ParseInt.WaitsForEver`, `ReturnsExactly`).
* `_sbrk` takes back more than it has given (`Sbrk.GivenBackTooMuch`).
* `micros` masks the interrupts of its own core, and the SysTick interrupt is taken by the
  V5F alone. On the V3F, where `loop1` reaches it through `Wire`, the handler may count the
  wrap and clear its bit between the reads: the clock then goes back by a millisecond, and
  the difference that `TwoWire::waitFor` compares with its timeout is more than an hour
  (`SysTick.GoesBackOnTheOtherCore`, `RightExactlyIfShielded`). The same holds for a
  handler that interrupts the SysTick handler between its two steps.
* `delayMicroseconds` counts ticks in 32 bits: forty-three seconds at 100 MHz are over
  after four ticks (`SysTick.FortyThreeSeconds`, `ReturnsEarly`).
* A tone with a duration on a timer other than TIM2 to TIM5 does not end by itself
  (`Timers.TenthOfASecondGoesOn`, `EndsItselfExactly`); the source says so beside the code.
* `IPAddress::fromString` changes the bytes and not the type when it fails. An IPv4 object
  with such bytes is not read back from its own text
  (`IPAddresses.FailedReadDoesNotRoundTrip`, `PrintThenRead`).

Where comments and code disagree the model follows the code: the fault counter is cleared
three seconds into a run, not when the runtime is ready, and after a refusal one reset is
enough, not two (`main_v3f.c:253`, `main_v3f.c:258`); the counter of the real-time clock
runs to 2136 but `ch32h4_rtc_get` wraps in 2106 (`ch32h4_rtc.c:13`); the loop of
`MD5Builder::transform` is the compressed form, not the written-out one
(`MD5Builder.cpp:4`).

## Model

| member | source | states |
|---|---|---|
| StreamMatcher.RaceIsEarliest | cores/ch32h4/api/Stream.cpp:258-321 | the search stops at the earliest position at which any target ends, with the lowest-numbered target ending there; no winner means no target occurs anywhere in what was read |
| StreamMatcher.RaceReadsInOrder | cores/ch32h4/api/Stream.cpp:266-269 | what the search has read is exactly what arrived before it stopped: nothing skipped, reordered or read ahead |
| StreamMatcher.LongestIsUnique | cores/ch32h4/api/Stream.cpp:271-317 | at most one index is the longest proper prefix of a target that ends the stream |
| StreamMatcher.Hit | cores/ch32h4/api/Stream.cpp:273-278 | a matching character completes the target or makes the next index the longest partial match |
| StreamMatcher.Miss | cores/ch32h4/api/Stream.cpp:284-316 | the value of the walk-back is the longest partial match of the stream extended by the mismatching character |
| StreamMatcher.WalkBack | cores/ch32h4/api/Stream.cpp:287-316 | the walk-back loop ends with the exact failure value: the longest self-overlap that the character continues |
| StreamMatcher.Advance | cores/ch32h4/api/Stream.cpp:271-317 | one target on one character keeps its index the longest partial match, and says whether the whole target has been seen |
| StreamMatcher.Feed | cores/ch32h4/api/Stream.cpp:271-317 | one character against every target: the lowest-numbered target that now ends, or every index again the longest partial match |
| StreamMatcher.FindMulti | cores/ch32h4/api/Stream.cpp:258-321 | returns, consumes and leaves behind exactly what the race says, for any targets and any stream; an empty target wins before anything is read; a search that timed out can be resumed |
| StreamMatcher.FindUntil | cores/ch32h4/api/Stream.cpp:116-125 | true exactly when the target is the winner of the race against the optional terminator |
| StreamMatcher.FindUntilWinsTheRace | cores/ch32h4/api/Stream.cpp:116-125 | that is: the target ends somewhere in what arrives before the timeout, and the terminator nowhere before it |
| StreamMatcher.Stream.TimedRead | cores/ch32h4/api/Stream.cpp:33-42 | takes the next character, or waits a timeout out |
| StreamMatcher.Stream.TimedPeek | cores/ch32h4/api/Stream.cpp:45-54 | looks at the next character without taking it, or waits a timeout out |
| ParseInt.PeekNextDigit | cores/ch32h4/api/Stream.cpp:58-84 | what the look-ahead mode finds in front, and the stream without what it skips; `SkipsJunk` and `StopsInFrontOf` say what that is in each mode |
| ParseInt.ParseInt | cores/ch32h4/api/Stream.cpp:132-158 | whether it returns, the result and the remaining stream are those of the parse of the characters that arrive |
| ParseInt.ReturnsExactly | cores/ch32h4/api/Stream.cpp:144-154 | a call returns exactly unless a number has begun, the character to ignore is the one a timeout reads as, and no character that ends the number ever arrives |
| ParseInt.WaitsForEver | cores/ch32h4/api/Stream.cpp:144-154 | a stream on which it does not return, and the same one with a character more on which it does |
| ParseInt.ParseUndoesPrint | cores/ch32h4/api/Stream.cpp:132-158 | in every look-ahead mode, a number printed in decimal is read back from behind whatever the mode passes over, with ignored characters put anywhere behind its first character, and the stream stands right after it |
| ParseInt.StopsInFrontOf | cores/ch32h4/api/Stream.cpp:58-84 | a character that the mode does not pass over and that begins no number ends the call with 0 and is left in the stream: anything but white space with `SKIP_WHITESPACE`, anything at all with `SKIP_NONE` |
| ParseInt.IgnoresAnywhere | cores/ch32h4/api/Stream.cpp:144-149 | inside a number the ignored character might as well not be there |
| ParseInt.IgnoredComma | cores/ch32h4/api/Stream.cpp:144-149 | "1,234" with the comma ignored is 1234 |
| Numerals.NumeralDenotes | cores/ch32h4/api/Print.cpp:291-296 | repeated division gives digits below the base, without a leading zero, whose value is the number |
| Numerals.NumeralIsUnique | cores/ch32h4/api/Print.cpp:291-296 | and no other such digits do |
| Numerals.TextDeterminesNumber | cores/ch32h4/api/Print.cpp:295-298 | no two numbers print alike |
| Numerals.TextShows | cores/ch32h4/api/Print.cpp:295-298 | read by a reader of its own (0 to 9, and then the letters of one case), the text of a number in a base up to 36 is that number, without leading zeros |
| Numerals.NumeralSplit | cores/ch32h4/api/Print.cpp:349-371 | the numeral of n is that of n / base^k followed by the remainder in exactly k digits, inner zeros included |
| Print.LargestPower | cores/ch32h4/api/Print.cpp:341-347 | `th16` is the power base^innerLoops, at least the base, and never overflows sixteen bits |
| Print.FastDigits | cores/ch32h4/api/Print.cpp:349-371 | the buffer holds the digits of the number in reverse, within its sixty-four bytes |
| Print.NextChunk | cores/ch32h4/api/Print.cpp:349-363 | one chunk adds its digits with all inner zeros |
| Print.Printer.PrintULLNumber | cores/ch32h4/api/Print.cpp:324-380 | emits exactly the numeral of every 64-bit number in every base, and returns its length; in bases 2 to 36, and 10 in place of 0 and 1, the emitted text reads back in that base, in capitals, as the number |
| Print.Printer.PrintULLReference | cores/ch32h4/api/Print.cpp:301-321 | the quoted reference implementation emits the same text, up to a digit that prints as NUL; it reads back alike |
| Print.Printer.PrintNumber | cores/ch32h4/api/Print.cpp:281-299 | so does the 32-bit printer; in bases up to 201 that is the whole text, and up to 36 it reads back as the number |
| Print.CutExactly | cores/ch32h4/api/Print.cpp:295-298 | the text of the plain loop, as written through `strlen`, is that of the fast form exactly if the number has no digit 201 |
| Print.Printer.PrintLong | cores/ch32h4/api/Print.cpp:129-143 | a sign and the numeral in base ten, and the bit pattern in every other base; the text reads back as the number, or as the pattern; the most negative number included |
| Print.Printer.PrintLongLong | cores/ch32h4/api/Print.cpp:151-165 | the same for 64 bits |
| Print.DivideLoop | cores/ch32h4/api/Print.cpp:283-296 | the plain loop fills its buffer with the numeral from the end and never leaves the buffer |
| Print.UtoaCommon | cores/ch32h4/itoa.c:21-36 | writes a text in small letters that reads back in the radix as the number, and its terminator, and nothing beyond |
| Print.LtoaCommon | cores/ch32h4/itoa.c:38-52 | signed only in base ten, right for the most negative number, empty for a bad radix |
| Print.LtoaShows | cores/ch32h4/itoa.c:38-52 | in a radix other than ten the text reads back as the 32-bit pattern |
| Print.LtoaShowsNegative | cores/ch32h4/itoa.c:44-49 | in ten a minus sign is followed by a text that reads back as the number negated, for the most negative one too |
| IPText.CompressedIsUnique | cores/ch32h4/api/IPAddress.cpp:308-327 | at most one run is the leftmost longest run of two or more zero fields |
| IPText.CanonicalRoundTrip | cores/ch32h4/api/IPAddress.cpp:183-249 | for every address, scanning its canonical text and expanding gives back its bytes, whatever the bytes were before |
| IPText.FullRoundTrip | cores/ch32h4/api/IPAddress.cpp:104-113 | the same for the uncompressed text of `toString6` |
| IPText.DottedRoundTrip | cores/ch32h4/api/IPAddress.cpp:131-181 | the same for dotted decimal |
| IPText.DottedIsPlain | cores/ch32h4/api/IPAddress.cpp:97-102 | in dotted decimal a zero at the start or behind a dot stands alone: no octet is padded |
| IPText.CanonicalIsPlain | cores/ch32h4/api/IPAddress.cpp:328-343 | in the canonical text a zero at the start or behind a colon stands alone, and there are no capitals |
| IPGrammar.Parse4Exactly | cores/ch32h4/api/IPAddress.cpp:131-181 | an IPv4 text is accepted exactly if cutting it at its dots gives four decimal numbers up to 255, leading zeros allowed; those are the octets |
| IPGrammar.Parse6Exactly | cores/ch32h4/api/IPAddress.cpp:183-249 | an IPv6 text is accepted exactly if cutting it at its colons gives eight fields of at most sixteen bits, or up to seven and one gap, which becomes zeros; the first field may be empty, the others not |
| IPAddresses.CaseIsIgnored | cores/ch32h4/api/IPAddress.cpp:188-190 | a text in capitals is read as the same text in small letters is |
| IPAddresses.ScanRunsFindsBest | cores/ch32h4/api/IPAddress.cpp:308-327 | the one-pass scan finds the leftmost longest run of two or more zero fields |
| IPAddresses.NibbleText | cores/ch32h4/api/IPAddress.cpp:330-343 | the nibble tests print a field in hexadecimal without leading zeros |
| IPAddresses.PiecesAreCanonical | cores/ch32h4/api/IPAddress.cpp:328-353 | the pieces that are printed field by field make up the text with one run compressed |
| IPAddresses.PrintedIPv6IsReadBack | cores/ch32h4/api/IPAddress.cpp:302-355 | `fromString` of what `printTo` emits is the same sixteen bytes and type IPv6 |
| IPAddresses.FullIPv6IsReadBack | cores/ch32h4/api/IPAddress.cpp:104-128 | `fromString` of `toString6` is the same sixteen bytes and type IPv6 |
| IPAddresses.IPv4IsReadBack | cores/ch32h4/api/IPAddress.cpp:97-128 | `fromString` of `toString4` is the same four bytes and type IPv4 |
| IPAddresses.TextHasColon | cores/ch32h4/api/IPAddress.cpp:124-129 | a text the IPv6 reading accepts is not accepted by the IPv4 reading that is tried first |
| IPAddresses.IPAddress.ToString4 | cores/ch32h4/api/IPAddress.cpp:97-102 | a text that fits its sixteen characters uncut, whose octets are unpadded, and that `fromString` reads back as the same four bytes and type IPv4 |
| IPAddresses.IPAddress.ToString6 | cores/ch32h4/api/IPAddress.cpp:104-113 | 39 characters, uncut, with the four digits of each field and the colons at their places, that `fromString` reads back as the same sixteen bytes and type IPv6 |
| IPAddresses.IPAddress.FromString4 | cores/ch32h4/api/IPAddress.cpp:131-181 | accepts exactly what the reference scan accepts, with its bytes; what a failure leaves; the type changes only on success |
| IPAddresses.IPAddress.FromString6 | cores/ch32h4/api/IPAddress.cpp:183-249 | the same for IPv6, through stores into the bytes and the in-place expansion |
| IPAddresses.IPAddress.ExpandInPlace | cores/ch32h4/api/IPAddress.cpp:240-245 | the backward shift and the zero fill are the expansion of the double colon |
| IPAddresses.IPAddress.FromString | cores/ch32h4/api/IPAddress.cpp:124-129 | the IPv4 reading, and otherwise the IPv6 reading; a failure keeps the type and leaves the fields that were stored before it |
| IPAddresses.IPAddress.FindRun | cores/ch32h4/api/IPAddress.cpp:308-327 | the run to compress is the leftmost longest of two or more, as sections 4.2.1 to 4.2.3 of RFC 5952 ask |
| IPAddresses.IPAddress.PrintIPv6 | cores/ch32h4/api/IPAddress.cpp:306-355 | emits the canonical text: that run compressed, no leading zeros, lower case (sections 4.1 to 4.3 of RFC 5952) |
| IPAddresses.IPAddress.PrintTo | cores/ch32h4/api/IPAddress.cpp:302-365 | emits the canonical text of an IPv6 address, dotted decimal for IPv4, and returns its length; the text has no padding and no capitals, and `fromString` reads it back as the same address |
| IPAddresses.KnownTexts | cores/ch32h4/api/IPAddress.cpp:302-365 | 192.168.1.0 prints as just that; of two zero runs the longer is compressed, 2001:0:0:1::1, and of two equally long the first, 2001:db8::1:0:0:1 |
| IPAddresses.PrintThenRead | cores/ch32h4/api/IPAddress.cpp:124-365 | printing any object and reading the text into another gives that one the same type, and the same bytes if and only if it is an IPv6 address or its first twelve bytes are zero |
| IPAddresses.FailedReadDoesNotRoundTrip | cores/ch32h4/api/IPAddress.cpp:124-279 | a run: an IPv4 object fails to read "1:z", keeps its type and a stored byte, and is not what its own text gives back |
| MD5Builders.PicksListedWord | cores/ch32h4/MD5Builder.cpp:79-93 | the words picked by arithmetic are those of the lists in section 3.4 of RFC 1321 |
| MD5Builders.TurnIsOperation | cores/ch32h4/MD5Builder.cpp:77-98 | one turn of the rotating loop is one explicitly permuted operation, under the renaming of the registers |
| MD5Builders.TurnsAreRounds | cores/ch32h4/MD5Builder.cpp:77-98 | sixty-four turns are the four rounds of sixteen operations, for every chaining state and block |
| MD5Builders.AssembledIsWord | cores/ch32h4/MD5Builder.cpp:67-72 | the shifted bytes put together with `or` are the little-endian word |
| MD5.ChainSplit | cores/ch32h4/MD5Builder.cpp:106-124 | compressing blocks as they fill is compressing the whole message |
| MD5.RotateLeftIs | cores/ch32h4/MD5Builder.cpp:15-17 | the rotation is multiplication by a power of two modulo 2^32, with the bits that go out on the left coming in on the right |
| MD5.OutputIsRegisters | cores/ch32h4/MD5Builder.cpp:149-154 | the sixteen bytes are the registers a, b, c and d in that order, low byte first |
| Bits.BitsOfAnd | cores/ch32h4/MD5Builder.cpp:77-91 | every bit of the conjunction is that of both words |
| Bits.BitsOfOr | cores/ch32h4/MD5Builder.cpp:77-91 | every bit of the disjunction is that of either word |
| Bits.BitsOfXor | cores/ch32h4/MD5Builder.cpp:77-91 | every bit of the exclusive or is set exactly if the two differ |
| MD5Suite.DigestOfAlphabet | cores/ch32h4/MD5Builder.cpp:19-155 | section A.5 of RFC 1321: the digest of the 26 small letters, through all sixty-four operations with their constants and shifts, is c3fcd3d76192e4007dfb496cca67e13b |
| MD5Suite.AlphabetInPieces | cores/ch32h4/MD5Builder.cpp:50-155 | and the class computes it, wherever the message is cut in two |
| MD5Builders.LengthModulo | cores/ch32h4/MD5Builder.cpp:130-141 | the bit count kept modulo 2^64 has the eight length bytes of the true one |
| MD5Builders.MD5Builder.Begin | cores/ch32h4/MD5Builder.cpp:50-59 | the state of an empty message |
| MD5Builders.MD5Builder.Transform | cores/ch32h4/MD5Builder.cpp:61-104 | the state becomes the RFC's compression of it with the block |
| MD5Builders.MD5Builder.Add | cores/ch32h4/MD5Builder.cpp:106-124 | complete blocks are in the state, the rest in the buffer, the length counted: for the message extended by the data |
| MD5Builders.MD5Builder.AddString | cores/ch32h4/MD5Builder.h:30-30 | adds the string cut to a sixteen-bit length |
| MD5Builders.NarrowedIsWhole | cores/ch32h4/MD5Builder.h:30-30 | nothing is cut exactly when the string is shorter than 65536 |
| MD5Builders.LongStringIsDropped | cores/ch32h4/MD5Builder.h:30-30 | a string of 65536 bytes leaves the digest of the empty message |
| MD5Builders.MD5Builder.Pad | cores/ch32h4/MD5Builder.cpp:132-136 | the padding loop ends, across the wrap of the buffer, with the number of zeros section 3.1 asks for |
| MD5Builders.MD5Builder.Calculate | cores/ch32h4/MD5Builder.cpp:126-155 | the digest of everything added, of RFC 1321, with the length captured before padding |
| MD5Builders.DigestInPieces | cores/ch32h4/MD5Builder.cpp:106-155 | however a message is split into calls, the digest is that of the whole |
| Park.StepKeeps | cores/ch32h4/ch32h4_park.c:70-167 | every load and store of either core keeps the invariant of both channels |
| Park.HeldCoreIsParked | cores/ch32h4/ch32h4_park.c:140-167 | under every interleaving, from an acknowledged `park_other` to `unpark_other` the other core spins with interrupts masked; and the two cores are never both there |
| Park.SafeExactly | cores/ch32h4/ch32h4_park.c:70-167 | of all disciplines of asking and polling, exactly the one of `HeldCoreIsParked` keeps every reachable state of every run from breaking the parking |
| Park.ClearBellMeansOut | cores/ch32h4/ch32h4_park.c:74-85 | a clear bell with no request means the core has left the parking code but for its interrupt state |
| Park.WaitingRequestIsAnswered | cores/ch32h4/ch32h4_park.c:70-97 | in every run in which the asker waits on and the owner's program leaves interrupts enabled: acknowledged exactly when the owner has taken its remaining steps, at most three, on the channel, and until then the next is possible; steps of the asker and on the other channel change nothing |
| Park.UnguardedRequestBreaks | cores/ch32h4/ch32h4_park.c:148-160 | a late answer to a request that was given up acknowledges the next one, and the core leaves |
| Park.ExpiredBellGuardIsNotEnough | cores/ch32h4/ch32h4_park.c:77-81 | waiting only for the bell of a request that was given up does not prevent that |
| Park.PollInTwoStepsBreaks | cores/ch32h4/ch32h4_park.c:133-138 | nor does the full guard, if an interrupt may come between the test of the poll and its call |
| Park.CoreNotYetLiveIsNotParked | cores/ch32h4/ch32h4_park.c:143-146 | a core that goes live during a grant made without parking it runs |
| Park.UnparkedHolderIsNotAlone | cores/ch32h4/ch32h4_park.c:140-162 | a core that holds a grant without parking the other can be parked, and both are past `park_other` |
| Park.CrossedRequestsDeadlock | cores/ch32h4/ch32h4_park.c:70-97 | two live cores that ask each other park each other |
| Park.DeadlockIsForever | cores/ch32h4/ch32h4_park.c:75-76 | no run from there changes anything |
| Park.StuckExactlyWhenDeadlocked | cores/ch32h4/ch32h4_park.c:70-167 | and that is the only reachable state in which nothing can move |
| Fifo.Ring.PushNb | cores/ch32h4/ch32h4_xcore.c:112-128 | appends, exactly if fewer than seven words are waiting |
| Fifo.Ring.PopNb | cores/ch32h4/ch32h4_xcore.c:137-150 | removes the oldest, exactly if there is one |
| Fifo.Ring.Available | cores/ch32h4/ch32h4_xcore.c:159-162 | the number of words waiting |
| Fifo.Ring.Drain | cores/ch32h4/ch32h4_xcore.c:164-167 | leaves none |
| Fifo.StepKeeps | cores/ch32h4/ch32h4_xcore.c:112-167 | every load and store of producer and consumer keeps the invariant |
| Fifo.DeliveredInOrder | cores/ch32h4/ch32h4_xcore.c:112-167 | at every state of every run: the words popped are an in-order selection of those pushed, none lost but by `drain`, none twice, a prefix without `drain`, at most seven in flight |
| Fifo.StepIsQueueStep | cores/ch32h4/ch32h4_xcore.c:112-167 | each operation acts on the queue at one store, and no other step does |
| Fifo.RefusedExactly | cores/ch32h4/ch32h4_xcore.c:116-142 | a push is refused exactly when seven are in flight at its load, a pop exactly when none is |
| Fifo.AvailableIsExact | cores/ch32h4/ch32h4_xcore.c:159-162 | `available` is the number in flight when the producer's index is loaded |
| Fifo.DrainDrops | cores/ch32h4/ch32h4_xcore.c:164-167 | a run in which `drain` makes a pushed word disappear |
| Mutex.StepKeeps | cores/ch32h4/ch32h4_xcore.c:53-94 | every step of both cores keeps the invariant |
| Mutex.Excludes | cores/ch32h4/ch32h4_xcore.c:53-94 | under every interleaving at most one core is inside, and it owns the semaphore, at any nesting |
| Mutex.ReleasedUnlessWrapped | cores/ch32h4/ch32h4_xcore.c:80-94 | balanced unlocks give the semaphore back exactly if the core has never nested 256 deep |
| Mutex.FreeIsTaken | cores/ch32h4/ch32h4_xcore.c:53-94 | a lock or a try that finds the semaphore free returns with it, one deep, and undoing that frees it |
| Mutex.TakenIsRefused | cores/ch32h4/ch32h4_xcore.c:53-78 | while the other core has it, a lock waits and a try leaves everything as it was |
| Mutex.OwnerNests | cores/ch32h4/ch32h4_xcore.c:53-94 | the owner gets it again at once by either call, and undoing that leaves it where it was |
| Mutex.WrappedLockNeverReturns | cores/ch32h4/ch32h4_xcore.c:69-78 | after that, the next lock of the core never gets through |
| Mutex.NestsDeep | cores/ch32h4/ch32h4_xcore.c:69-78 | nesting up to 256 is reachable, and there the byte reads zero |
| Mutex.HandlerIsLetIn | cores/ch32h4/ch32h4_xcore.c:74-77 | a handler that locks between the count and the take is let in beside the other core |
| SdArithmetic.SetClock | cores/ch32h4/ch32h4_sdmmc.c:155-185 | the divider is allowed and every faster setting of either mode would exceed the request; the rate does not exceed it exactly from the slowest rate up, if and only if the wrap of the 32-bit sum does no harm, as up to 2^31 Hz it never does (`SmallSourcesAreHarmless`) |
| SdArithmetic.DividerIsRoundedUp | cores/ch32h4/ch32h4_sdmmc.c:159-166 | smaller dividers are too small even if the sum wraps; the one computed suffices exactly if it has not wrapped or 2 would do |
| SdArithmetic.HundredKilohertzIsOutOfReach | cores/ch32h4/ch32h4_sdmmc.c:150-185 | no setting at a 400 MHz source is below 201612 Hz |
| SdArithmetic.HighFields | cores/ch32h4/ch32h4_sdmmc.c:374-385 | the shifts and masks read the CSD fields by their bit numbers |
| SdArithmetic.CapacityIsRight | cores/ch32h4/ch32h4_sdmmc.c:374-393 | the block count is the specified capacity exactly unless C_SIZE of version 2 is all ones or READ_BL_LEN of version 1 is below 9 |
| SdArithmetic.FullSizeReadsAsZero | cores/ch32h4/ch32h4_sdmmc.c:374-393 | the register of a two-tebibyte card reads as no blocks |
| SdArithmetic.AddressIsRight | cores/ch32h4/ch32h4_sdmmc.c:723-724 | the 32-bit argument names the block exactly for high-capacity cards and blocks below 2^23 |
| SdArithmetic.ByteAddressedCardsFit | cores/ch32h4/ch32h4_sdmmc.c:374-393 | every version 1 card with a legal block length is below that |
| SdArithmetic.RangeCheckIsRight | cores/ch32h4/ch32h4_sdmmc.c:775-777 | the 32-bit check accepts exactly the ranges on the card and those whose end wraps |
| Sdmmc.ArmingRewinds | cores/ch32h4/ch32h4_sdmmc.c:585-596 | arming starts at the head of a buffer exactly when the address is new or nothing has moved |
| Sdmmc.RightExactlyFromTheHead | cores/ch32h4/ch32h4_sdmmc.c:786-806 | a write of one chunk of any length that succeeds puts those blocks on the card, whatever they are, if and only if arming goes back to the head of the buffer |
| Sdmmc.SentFromTheMiddle | cores/ch32h4/ch32h4_sdmmc.c:786-806 | otherwise the first block on the card is the one the engine stood at: a later one of the chunk, or one from earlier |
| Sdmmc.ReadRightExactlyFromTheHead | cores/ch32h4/ch32h4_sdmmc.c:786-811 | a read of one chunk that succeeds hands over what is on the card, whatever that is, under the same condition and no other |
| Sdmmc.ReceivedFromTheMiddle | cores/ch32h4/ch32h4_sdmmc.c:786-811 | otherwise the first blocks handed over are what lay in the buffer |
| Sdmmc.Controller.constructor | cores/ch32h4/ch32h4_sdmmc.c:873-937 | a fresh controller is ready and the next buffer is one the engine has not been given |
| Sdmmc.Controller.WriteData | cores/ch32h4/ch32h4_sdmmc.c:619-657 | success means every block has gone, each after the first kicked off; failure leaves a prefix |
| Sdmmc.Controller.ReadData | cores/ch32h4/ch32h4_sdmmc.c:600-617 | success means every block has come to where the engine stood, and nothing to before that |
| Sdmmc.Controller.TransferDma | cores/ch32h4/ch32h4_sdmmc.c:721-768 | the blocks addressed are those meant; every accepted multi-block command is closed by CMD12 even if its data fails (section 4.3 of the SD Physical Layer Simplified Specification); the result is the first error of all the answers consumed, the card is asked first whether it is busy, and a write that succeeds has been told last that it is programmed |
| Sdmmc.Controller.Transfer | cores/ch32h4/ch32h4_sdmmc.c:770-813 | whenever arming will go back to the head: success writes or reads exactly the named blocks across all chunks, failure leaves a prefix and nothing else; in every state, what a write of one chunk sends and what a read of one hands over; the turns stay in order exactly if none was lost before arming; the result is the first error of all the answers consumed; the refusals |
| Sdmmc.FirstErrorIsZero | cores/ch32h4/ch32h4_sdmmc.c:751-763 | that is zero exactly if every answer was |
| Sdmmc.Controller.SwitchFunc | cores/ch32h4/ch32h4_sdmmc.c:672-692 | no path loses a turn, the pointer moves by 64 bytes, and the status is the card's |
| Sdmmc.Controller.WriteThenRead | cores/ch32h4/ch32h4_sdmmc.c:939-946 | what a successful write has written, a successful read gives back, whenever arming goes back to the head at the start |
| Sdmmc.LostTurnWritesTheWrongBlock | cores/ch32h4/ch32h4_sdmmc.c:786-806 | a run: a write, a write that times out before it is armed, and the same again, which succeeds and puts an old block on the card |
| DMAPools.SPSCQueue.Push | cores/ch32h4/api/DMAPool.h:68-77 | appends, and refuses exactly when full |
| DMAPools.SPSCQueue.Pop | cores/ch32h4/api/DMAPool.h:79-90 | gives the oldest, and keeps it when peeking |
| DMAPools.ReturnedToWrite | cores/ch32h4/api/DMAPool.h:299-303 | a returned buffer leaves every buffer in exactly one place, and there is room for it |
| DMAPools.ReturnedToRead | cores/ch32h4/api/DMAPool.h:303-306 | the same for the read queue |
| DMAPools.OneIsMissing | cores/ch32h4/api/DMAPool.h:69-73 | a queue that lacks one buffer is not full |
| DMAPools.DMAPool.constructor | cores/ch32h4/api/DMAPool.h:218-243 | all buffers start in the write queue, in order; none for a pool of no buffers |
| DMAPools.DMAPool.Alloc | cores/ch32h4/api/DMAPool.h:276-290 | the oldest of the queue the flags select, held from then on; fails exactly if that queue is empty; its flags |
| DMAPools.DMAPool.Free | cores/ch32h4/api/DMAPool.h:292-307 | to the write queue without flags, or behind all written before in the read queue |
| DMAPools.DMAPool.Release | cores/ch32h4/api/DMAPool.h:157-161 | by the flags the buffer was taken with; buffers are read in the order they were released |
| DMAPools.DMAPool.Flush | cores/ch32h4/api/DMAPool.h:267-274 | ends, with everything readable behind the write queue in order |
| DMAPools.DefaultFreeIsRelease | cores/ch32h4/api/DMAPool.h:167-169 | freeing without flags is releasing exactly if the buffer was taken to read or has no flags |
| DMAPools.WrittenAndLost | cores/ch32h4/api/DMAPool.h:292-307 | a run: a buffer taken to write and freed without flags can be written again and not be read |
| DMAAlignment.MaskRoundsDown | cores/ch32h4/api/DMAPool.h:205-205 | the mask of a power of two rounds down to a multiple |
| DMAAlignment.PointerIsAligned | cores/ch32h4/api/DMAPool.h:199-208 | for a power of two the memory is aligned and lies in the allocation with the stashed pointer before it |
| DMAAlignment.AlignsExactly | cores/ch32h4/api/DMAPool.h:199-208 | of the even alignments that are let through, the powers of two are exactly those for which every address of `malloc` gives aligned memory |
| DMAAlignment.BuffersAreApart | cores/ch32h4/api/DMAPool.h:221-236 | all buffers are aligned, inside and disjoint |
| DMAAlignment.EvenIsNotEnough | cores/ch32h4/api/DMAPool.h:202-205 | the memory at address 8, aligned to 6, starts at 16 |
| SysTick.Clock.Handler | cores/ch32h4/wiring_time.c:48-55 | clears the bit and counts the wrap, in two steps |
| SysTick.ReadsAreRight | cores/ch32h4/wiring_time.c:80-88 | wherever the wrap and the steps of the handler fall among the reads, they are never ahead of an instant of the call, and behind by no more than the wrap not yet counted and those that come; by exactly one if the reads are short and the handler has overtaken them; not at all if it does not run |
| SysTick.RightExactlyIfShielded | cores/ch32h4/wiring_time.c:61-95 | every placement of the wrap and the handler in reads of less than a period gives the count of an instant inside the call if and only if the handler cannot run between the reads |
| SysTick.Clock.Sample | cores/ch32h4/wiring_time.c:80-88 | takes what the reads take, whatever happens in between |
| SysTick.Clock.Micros | cores/ch32h4/wiring_time.c:61-95 | the true microseconds, modulo 2^32, at an instant inside the call, less the milliseconds lost: none if the handler is shut out, at most one if the reads are short |
| SysTick.Clock.Interval | cores/ch32h4/wiring_time.c:61-95 | the difference of two readings is the true one but for the milliseconds lost, so where the handler is shut out the clock never goes backwards |
| SysTick.GoesBackOnTheOtherCore | libraries/Wire/src/Wire.cpp:298-306 | a run on the core that does not take the interrupt: readings of 999 and then 0 |
| SysTick.ForwardsAtTheWrap | cores/ch32h4/wiring_time.c:27-30 | for any clock rate: the reading does not go backwards at the wrap exactly if the rounded ticks leave no more than one microsecond over |
| SysTick.DelayMicroseconds | cores/ch32h4/wiring_time.c:113-136 | never returns before the ticks, counted in 32 bits, have passed, and returns at the first reading late enough if no two are a millisecond apart; those are the requested ones exactly if they fit 32 bits |
| SysTick.ReturnsEarly | cores/ch32h4/wiring_time.c:123-124 | whenever they do not fit, prompt readings make it return too early |
| Rtc.SetIsReported | cores/ch32h4/ch32h4_rtc.c:275-300 | a time set is reported exactly if it is before 2106 |
| Rtc.Clock.Get | cores/ch32h4/ch32h4_rtc.c:258-286 | seconds and microseconds belong to one instant inside the call |
| Rtc.Clock.Set | cores/ch32h4/ch32h4_rtc.c:288-302 | stores seconds since 2000; the refusals |
| Flash.Controller.Wait | cores/ch32h4/ch32h4_flash_ll.c:43-57 | reads the bit until it is clear, at most one time more than a million, and succeeds exactly if one of the first million readings was clear |
| Flash.Controller.ErasePage | cores/ch32h4/ch32h4_flash_ll.c:75-94 | success erases the page; at no step does anything else change; CR_PER is clear on every path |
| Flash.Controller.ProgramPage | cores/ch32h4/ch32h4_flash_ll.c:96-126 | success on an erased page leaves the source in it; at no step does anything else change; CR_PAGE_PG is clear on every path |
| Flash.Controller.Erase | cores/ch32h4/ch32h4_flash.c:49-83 | the refusals touch nothing; otherwise true exactly if no page primitive answered with a failure, each page being asked once up to the first, and then the range is erased; locked and confined in every case |
| Flash.Controller.Write | cores/ch32h4/ch32h4_flash.c:161-208 | true exactly if no page primitive failed and the range reads back, and always if it was erased and none failed; locked and confined in every case |
| Flash.Controller.IsErased | cores/ch32h4/ch32h4_flash.c:28-39 | exactly if every word of the range is 0xE339E339 |
| Ota.EraseAll | cores/ch32h4/ch32h4_ota.c:46-53 | every content on the way is some pages erased, one that is anything, and the rest as it was |
| Ota.ProgramAll | cores/ch32h4/ch32h4_ota.c:55-72 | every content on the way is a prefix of the image, one page that is anything, and erased words |
| Ota.Commit | cores/ch32h4/ch32h4_ota.c:37-76 | all contents of erasing come before all of programming; done exactly if no page primitive failed, and then the range is the image, the rest is untouched and the controller is locked |
| Ota.OutsideIsUntouched | cores/ch32h4/ch32h4_ota.c:49-72 | at no step has a word outside the range changed |
| Ota.NothingOldIsLeft | cores/ch32h4/ch32h4_ota.c:46-48 | once programming has begun, each word of the range is the image's, erased, or of the one unfinished page |
| Timers.Core.Claim | cores/ch32h4/ch32h4_timer.c:37-46 | succeeds exactly for a free timer or one's own |
| Timers.Core.Release | cores/ch32h4/ch32h4_timer.c:48-52 | frees one's own timer and no other |
| Timers.Core.PwmFind | cores/ch32h4/ch32h4_pinmap.c:29-68 | one pass finds the first usable row on a PWM timer, or else the first on a free timer |
| Timers.Core.PwmFindActive | cores/ch32h4/ch32h4_pinmap.c:70-81 | the first row of the pin on a PWM timer, negated rows included |
| Timers.Core.AnalogWrite | cores/ch32h4/wiring_analog.c:319-400 | claims the timer of that row and marks its channel |
| Timers.Core.AnalogWriteStop | cores/ch32h4/wiring_analog.c:405-430 | unmarks the channel, and gives the timer back with its last one |
| Timers.Core.StartTone | cores/ch32h4/Tone.cpp:59-172 | silences the old tone, takes the first free timer of the pin, and attaches the count of the periods if there is a limit and the interrupt of the timer is routed |
| Timers.Core.ToneTick | cores/ch32h4/Tone.cpp:179-187 | counts a period of its own timer down, and stops at the last |
| Timers.Core.TimerDispatch | cores/ch32h4/ch32h4_timer.c:112-169 | an update event reaches what is attached to its timer, for TIM2 to TIM5 |
| Timers.CallKeeps | cores/ch32h4/ch32h4_timer.c:37-52 | every call keeps: a timer is PWM's exactly if a channel is marked, tone's exactly if it plays the tone |
| Timers.RunKeeps | cores/ch32h4/wiring_analog.c:357-430 | so it is in every sequence of calls |
| Timers.NobodyTakesAnothers | cores/ch32h4/ch32h4_timer.c:37-52 | owners change only from free to the caller and from the caller to free |
| Timers.NoToneSilences | cores/ch32h4/Tone.cpp:53-63 | `noTone` of the playing pin, and `tone` of it at frequency 0, silence the tone, free its timer and change nothing else; of another pin they change nothing |
| Timers.TonePlaysExactly | cores/ch32h4/Tone.cpp:59-172 | with a valid pin and frequency it plays exactly if some plain row of the pin has a timer that is free or was the old tone's, on the first such, for the periods of the duration; no other owner and no mask changes |
| Timers.WriteDrivesExactly | cores/ch32h4/wiring_analog.c:319-400 | marks the channel of the first plain row of the pin on a PWM timer, or else on a free one, and nothing else changes; without such a row nothing does |
| Timers.StopDropsExactly | cores/ch32h4/wiring_analog.c:405-430 | unmarks the channel of the first row of the pin, negated or not, on a PWM timer, and frees the timer exactly if that was its last |
| Timers.ClaimsAndReleases | cores/ch32h4/ch32h4_timer.c:37-52 | a claim takes a free timer, a release frees one's own, and neither does anything else |
| Timers.StopUndoesWrite | cores/ch32h4/wiring_analog.c:405-430 | right after a first write, a stop undoes it exactly if the first row on a PWM timer has its timer and channel |
| Timers.PlainFirstUndoes | cores/ch32h4/ch32h4_pinmap.c:70-81 | so it does with every table whose negated rows come last, as in all those shipped |
| Timers.StopUnmarksExactly | cores/ch32h4/wiring_analog.c:405-430 | in any state with a channel of the pin marked, a stop unmarks that one and no other exactly if the first row on a PWM timer is its row |
| Timers.StopChangesExactly | cores/ch32h4/wiring_analog.c:405-430 | whether or not the pin was written, a stop changes something exactly if the channel of that row is marked |
| Timers.MasksAreUses | cores/ch32h4/wiring_analog.c:357-430 | after any sequence of calls the marked channels are those some pin was written to since they were last stopped |
| Timers.StopSparesOthersExactly | cores/ch32h4/wiring_analog.c:405-430 | after any sequence of calls, a stop leaves all other pins their channels exactly if none of them uses the channel of that row |
| Timers.StopOfUnwrittenPin | variants/CH32H417QEU6/pin_map_package.c:30-56 | PA15 is written and PA0, which never was, is stopped: TIM2 goes silent and free |
| Timers.StopOfSecondChoice | variants/CH32H417QEU6/pin_map_package.c:30-56 | PA0 on TIM5 is stopped when TIM2 drives PA15: PA15 goes silent and TIM5 stays taken |
| Timers.ToneIsCountedOut | cores/ch32h4/Tone.cpp:144-187 | whatever else the program does: a limited tone on a routed timer plays exactly that many periods, any other goes on; the timer is held as long as the tone plays and no longer |
| Timers.EndsItselfExactly | cores/ch32h4/Tone.cpp:144-163 | a tone ends by itself if and only if it has a limit and its timer is one of TIM2 to TIM5, whose update interrupts are routed |
| Timers.TenthOfASecondGoesOn | variants/CH32H417QEU6/pin_map_package.c:52-52 | PA8 has TIM1 alone: 440 Hz for 100 ms holds it until it is stopped |
| BootGuard.FaultLog.V3fMain | cores/ch32h4/main_v3f.c:83-279 | the log after a boot, and whether the V5F is woken |
| BootGuard.FaultLog.V5fLoop | cores/ch32h4/main_v5f.c:153-177 | over any number of turns: the run is confirmed exactly if the clock was past three seconds in one, and the count is then cleared once |
| BootGuard.FaultLog.Boots | cores/ch32h4/main_v3f.c:83-288 | boot after boot, the code wakes the V5F and leaves the log exactly as the runs below say |
| BootGuard.AtMostThreeWakes | cores/ch32h4/main_v3f.c:254-288 | whatever the memory held, a crash loop wakes the V5F at most three times before a boot that refuses |
| BootGuard.RefusedExactly | cores/ch32h4/main_v3f.c:83-262 | a boot is refused exactly if the region is worth reading and the causes come to three with the count in it, which is not believed beyond three |
| BootGuard.CountStaysBelow | cores/ch32h4/main_v3f.c:83-104 | after the first boot the stored count is below the limit at every entry |
| BootGuard.RefusalIsForgotten | cores/ch32h4/main_v3f.c:258-262 | one reset after a refusal tries again, unless it leaves all three records at once |
| BootGuard.OneCrashIsForgiven | cores/ch32h4/main_v3f.c:111-176 | a boot after a confirmed run is refused only on all three records at once |
| Sbrk.Heap.Sbrk | cores/ch32h4/ch32h4_sbrk.c:24-52 | what is handed out is in nobody else's hands and in one region; succeeds exactly if a region it may still use has room; what is free; after a negative increment the heap is in order exactly if no more was given back than taken |
| Sbrk.GivenBackTooMuch | cores/ch32h4/ch32h4_sbrk.c:24-52 | a run that gives back too much and is then handed memory outside both regions |

## Left out

- Register settings, pin multiplexing, clock trees, startup code, USB, networking, file systems and the host tools: no algorithm of their own.
- Floating point (`printFloat`, `parseFloat`, temperature), the converters, random numbers and console output.
- Weak memory and caches: steps are sequentially consistent. Real time: timeouts may happen at any step.
- Plain `ch32h4_mutex_*` calls: they are the take and the release of the recursive ones; the interrupt-safe use of the FIFO from two producers is excluded by its documentation.
- ParseInt.ParseInt: the value is a mathematical integer; between a wait that ran out and the `read` right after it no character arrives.
- Print.Printer.PrintLong: negating the most negative number, which C++ leaves undefined, is taken to wrap as the machine's does; so it is in `PrintLongLong`.
- IPAddresses.IPAddress.FromString6: it accepts more than RFC 4291 writes (an empty first field, leading zeros of any number); `IPGrammar.Parse6Exactly` says exactly what.
- MD5Builders.DigestInPieces: pieces are at most 65535 bytes, the range of the length parameter; the hexadecimal text of the digest is not modelled.
- SdArithmetic.SetClock: a request of zero divides by zero and is excluded.
- Sdmmc.Controller.Transfer: the end of the range does not wrap 32 bits (`RangeCheckIsRight` says what happens otherwise), a card refuses a range that is not on it before any data, and card identification is not modelled.
- Sdmmc.Controller.ReadData: which bytes move when the engine stands inside a block or beyond both buffers is left open, as what lies there is.
- SysTick.Clock.Micros: HCLK is a whole number of megahertz and the handler has counted a wrap before the next one; `delay` is not modelled.
- Rtc.Clock.Get: the number of turns of its loop is a parameter, since a second may begin in any turn; oscillator start-up is not modelled.
- Flash.Controller.Erase: addresses and lengths are whole words inside the array, which the code does not check, and the other core does not touch the controller meanwhile (`Park.UnparkedHolderIsNotAlone` says when it may).
- Ota.Commit: the length is a multiple of both page sizes, as its header asks; the reset itself is not modelled.
- Timers.Core.AnalogWrite: compare values, prescalers and pin modes; the table is any table whose rows name timers 1 to 12 and channels 1 to 4.
- Timers.Core.ToneTick: the interrupt does not come in the middle of another call.
- BootGuard.AtMostThreeWakes: a reset inside the boot code itself, between counting and deciding.
- Sbrk.Heap.Sbrk: addresses do not wrap.
- DMAPools.DMAPool.Release: each held buffer is released once; producer and consumer are not interleaved here, as the FIFO's proof covers the same indices.
- DMAPools.DMAPool.constructor: the memory of the buffers is modelled apart, in `DMAAlignment`; allocation does not fail.
- DMAPools.SPSCQueue.Push: a queue of no size, where the source takes a remainder by zero, is excluded; no pool pushes to one.
- `RingBuffer.h`, the CAN and UART receive rings: further copies of the FIFO.
