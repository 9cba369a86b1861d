# A verified model of robotd's logging and supervision core

robotd is a small Unix daemon. It compiles in a logging library (spdlog with the C++ Format headers)
and runs its worker process under a supervisor loop of its own. This project models the parts whose
correctness is not visible at a glance, and proves what they promise.

* **The lock-free queue.** `MpmcQueue` interleaves any number of producers and consumers at the level
  of single atomic accesses. Every thread has an explicit program point, compare-exchanges may fail
  spuriously, and a run is any schedule of actions. A history records, in claim order, who won each
  position. One inductive invariant over all schedules gives FIFO delivery, exclusive cells and the exact
  meaning of `false`. `MpmcQueue64` runs the same algorithm on 64-bit words (wrapping positions, masked
  slots, signed differences) and simulates the unbounded one; `StaleThreads` drives it past the bound up to
  which it does. `BoundedQueue` is the object with its retry
  loops, called by one thread at a time.
* **The asynchronous worker.** `AsyncLog` puts producers with their retry loops and the single worker on
  top of the queue model, one step at a time, and proves delivery, order and flush-before-exit.
  `WorkerDuties` proves what the worker owes and when: no flush forgotten, nothing queued left behind, every
  message served and every termination honoured within a bounded number of its own steps.
* **Formatting.** Digit counting (`DigitCount`), decimal text written backwards in place
  (`DecimalText`), integers in four bases with prefix, fill, precision and alignment (`IntWriter`, on the
  growing buffer of `MemoryBuffer`), packed argument types (`ArgList`), integer parsing (`ParseInt`), and
  the two format-string languages: their meanings as functions (`FormatterSpec`, `PrintfSpec`) and the
  cursor-moving formatters (`Formatter`, `Printf`) that are proved to compute them. `SpecSyntax` and
  `Template` print specifications and whole templates and prove that parsing inverts printing;
  `PrintfSyntax` and `PrintfTemplate` do the same for printf. `References` does so for argument references
  and nested counts, `Reading` holds what all share, and `FileNames` applies it to the names of log files.
  `ArgumentChoice` shows in whole outputs which argument a reference brings out; `PrintfStars` and
  `PrintfStandard` compare integer conversions with fprintf as section 7.21.6.1 of ISO/IEC 9899:2011 defines it.
* **The rotating file sink.** `RotatingSink` shifts files in place in a file system that is a map from
  names to contents, and proves conservation of the log history.
* **The pattern compiler.** `PatternFormatter` compiles a pattern to a list of formatters and proves that
  running the list is reading the pattern.
* **The supervisor.** `Supervisor` runs the fork/wait/signal loop against an arbitrary script of signals
  and child endings, and proves whole-run safety from the trace of its acts.

`Bits` and `Numerals` hold the bit and numeral arithmetic; `Wrappers` and `FormatSpecs` the shared
datatypes. A C++ object that updates fields is a class here, a loop is a loop proved against a
specification function, and exceptions are `Result` values. Pointers into a buffer are offsets.

Where behaviour and documentation part ways, the model follows the code and says exactly when they agree:

* `parse_nonnegative_int` misses some overflows, the first at 4772185884; "10000000000" is read as
  1410065408 (`ParseInt.HonestExactly`, `ParseInt.SmallestSlip`).
* An empty specification `{:}` looks one character past the brace and takes an alignment from there
  (`SpecSyntax.EmptySpecLooksAhead`).
* A thread whose loaded position lags by more than 2^63 - capacity can report an empty queue full or a full
  one empty: runs from construction get there (`MpmcQueue64.StepSimulates`, `StaleThreads.EmptyReportedFull`,
  `StaleThreads.FullReportedEmpty`).
* printf's 64-bit conversions zero-extend negative 32-bit arguments (`PrintfSpec.WideConversion`).
* printf's integer conversions print what the C standard says but for three families: a zero under precision
  zero, `#` with a number of which a length modifier keeps nothing, and the flag `0` together with `-` or a
  precision where there is something to pad (`PrintfStandard.PrintsAsStandard`, `PrintfStandard.ZerosOverruleMinus`).
* `%z` is an ISO 8601 offset exactly when the offset is not negative; five hours west shows as "--5:00"
  (`PatternFormatter.ZoneIsIso`, `PatternFormatter.ZoneOfNewYork`).
* `%I`, documented as 1 to 12, shows midnight as 00 (`PatternFormatter.TwelveHourClock`).
* A master killed by a signal looks like exit status 0 to the supervisor and is restarted (`Supervisor.StatusSurvives`, `Supervisor.EndingsDecide`).

## Model

| member | source | states |
|---|---|---|
| MpmcQueue.Construct | include/spdlog/details/mpmc_bounded_q.h:60-73 | construction succeeds exactly for powers of two of at least 2, decided by the `n & (n - 1)` test |
| MpmcQueue.ConstructedInv | include/spdlog/details/mpmc_bounded_q.h:60-73 | a newly built queue satisfies the invariant |
| MpmcQueue.StepKeepsInv | include/spdlog/details/mpmc_bounded_q.h:80-131 | every single atomic access of any thread, spurious compare-exchange failures included, keeps the invariant |
| MpmcQueue.RunKeepsInv | include/spdlog/details/mpmc_bounded_q.h:80-131 | so does every schedule of any number of producers and consumers |
| MpmcQueue.Fifo | include/spdlog/details/mpmc_bounded_q.h:80-131 | over all interleavings, the dequeue that claims position p yields exactly what the enqueue that claimed p stored; takes are a prefix of claims and at most the capacity is outstanding |
| MpmcQueue.HistoryGrows | include/spdlog/details/mpmc_bounded_q.h:80-131 | no position is claimed twice, reassigned or read again: histories only grow |
| MpmcQueue.EnqueuesInRealTime | include/spdlog/details/mpmc_bounded_q.h:80-106 | claim order respects real time: an enqueue called after another had returned gets the larger position, in every run |
| MpmcQueue.DequeuesInRealTime | include/spdlog/details/mpmc_bounded_q.h:108-131 | the same for dequeues |
| MpmcQueue.Exclusive | include/spdlog/details/mpmc_bounded_q.h:91-129 | two threads between their compare-exchange and their sequence store never share a cell |
| MpmcQueue.Undisturbed | include/spdlog/details/mpmc_bounded_q.h:91-129 | a held cell is changed by no other thread |
| MpmcQueue.TailSequence | include/spdlog/details/mpmc_bounded_q.h:86-90 | the sequence number at a tail position is behind exactly when the item one lap back is still there or its consumer is in flight |
| MpmcQueue.HeadSequence | include/spdlog/details/mpmc_bounded_q.h:114-118 | the sequence number at the head is behind exactly when the item is unclaimed or its producer is in flight |
| MpmcQueue.EnqueueFalseIsHonest | include/spdlog/details/mpmc_bounded_q.h:86-101 | at the sequence load enqueue gives up if and only if its position is the tail and the slot is unreleased; stale positions are retried |
| MpmcQueue.DequeueFalseIsHonest | include/spdlog/details/mpmc_bounded_q.h:114-127 | dequeue gives up if and only if, at the sequence load, its position is the head and the item is unpublished |
| MpmcQueue.EnqueueTries | include/spdlog/details/mpmc_bounded_q.h:80-106 | an enqueue in its retry loop, whoever moves, goes on with the same item, claims the tail, or gives up at a sequence load; a lost or spuriously failed compare-exchange leads back into the loop with the position just seen |
| MpmcQueue.DequeueTries | include/spdlog/details/mpmc_bounded_q.h:108-131 | the same for a dequeue |
| MpmcQueue.OnlyHonestRefusals | include/spdlog/details/mpmc_bounded_q.h:80-131 | no step of any thread begins a refusal but a sequence load at the tail with the slot one lap back occupied, or at the head with the item unpublished |
| MpmcQueue.ClaimsSucceed | include/spdlog/details/mpmc_bounded_q.h:91-129 | a call that has claimed a position ends in success with that position, a dequeue with the item claimed there |
| MpmcQueue.Quiescent | include/spdlog/details/mpmc_bounded_q.h:80-131 | with no thread inside a cell, the claimed items not yet taken sit published in their cells, and full and empty are what the positions say |
| MpmcQueue64.SlotAgrees | include/spdlog/details/mpmc_bounded_q.h:86 | masking the wrapped position selects the cell of the unbounded position |
| MpmcQueue64.SignOfWord | include/spdlog/details/mpmc_bounded_q.h:88 | the two's-complement difference of two words has the sign of the true difference d if and only if d <= 0 or 0 < d mod 2^64 < 2^63 |
| MpmcQueue64.EqualWords | include/spdlog/details/mpmc_bounded_q.h:91 | wrapped counters are equal if and only if the true ones are a whole number of turns apart |
| MpmcQueue64.StepSimulates | include/spdlog/details/mpmc_bounded_q.h:80-131 | in every state with the invariant, one 64-bit step is the image of the unbounded step if and only if the sign seen by a sequence load survives, or the compare-exchange is not a whole number of turns behind |
| MpmcQueue64.FreshAgrees | include/spdlog/details/mpmc_bounded_q.h:86-92 | it does whenever no loaded position lags by more than 2^63 - capacity |
| MpmcQueue64.RunSimulates | include/spdlog/details/mpmc_bounded_q.h:80-131 | whole schedules of agreeing steps end in the image of the unbounded run, with the same history, kept by the 64-bit machine itself |
| MpmcQueue64.FreshRunsAgree | include/spdlog/details/mpmc_bounded_q.h:80-131 | runs with fresh positions throughout consist of agreeing steps |
| MpmcQueue64.Fifo64 | include/spdlog/details/mpmc_bounded_q.h:60-131 | FIFO for the 64-bit queue itself from construction, its counters being the history lengths modulo 2^64 |
| MpmcQueue64.Fifo64ShortRuns | include/spdlog/details/mpmc_bounded_q.h:60-131 | the same without any condition on the threads, with unwrapped counters, for every run of at most 2^63 - size steps |
| StaleThreads.EmptyReportedFull | include/spdlog/details/mpmc_bounded_q.h:80-101 | the freshness bound is tight: a run from construction, agreeing all along, leads to an empty queue and a producer one position beyond the bound; the unbounded queue retries, the 64-bit queue reports full |
| StaleThreads.FullReportedEmpty | include/spdlog/details/mpmc_bounded_q.h:108-126 | likewise a full queue is reported empty to a consumer one position beyond the bound |
| BoundedQueue.Queue.Create | include/spdlog/details/mpmc_bounded_q.h:60-73 | construction succeeds exactly for powers of two of at least 2, with the error otherwise, and the new queue is empty and valid |
| BoundedQueue.Queue.Enqueue | include/spdlog/details/mpmc_bounded_q.h:80-106 | an uncontended call appends the item, or returns false exactly when the queue is full and changes nothing; the call is the run of a given schedule of the interleaving model, spurious failures included |
| BoundedQueue.Queue.Dequeue | include/spdlog/details/mpmc_bounded_q.h:108-131 | an uncontended call removes the oldest item, or fails exactly when the queue is empty; likewise a run of a given schedule |
| BoundedQueue.SoloEnqueue | include/spdlog/details/mpmc_bounded_q.h:80-106 | executing the call's atomic accesses in the interleaving model, with any number of spurious failures, gives the appended queue, or a refusal exactly when full |
| BoundedQueue.SoloDequeue | include/spdlog/details/mpmc_bounded_q.h:108-131 | the same for taking the oldest item, refused exactly when empty |
| AsyncLog.RunKeepsSystemInv | include/spdlog/details/async_log_helper.h:203-238 | every interleaving of producers, their retries and the worker keeps the delivery invariant |
| AsyncLog.ProducerSubsequence | include/spdlog/details/async_log_helper.h:216-221 | a producer's records occur among the queue's records in its own order |
| AsyncLog.DeliveryAndFlushBeforeExit | include/spdlog/details/async_log_helper.h:267-318 | when the worker has exited, every sink holds in queue order all records queued up to a point past a terminate message, and was flushed after the last of them |
| AsyncLog.OrderKept | include/spdlog/details/async_log_helper.h:224-239 | at every moment sinks hold a prefix of the queue's records, and the queue holds each producer's messages intact and in program order whatever retries occurred |
| AsyncLog.FinishedProducerDelivered | include/spdlog/details/async_log_helper.h:203-318 | a producer that has pushed its whole program before any terminate message finds all its records in every sink at exit, in order and flushed |
| AsyncLog.LoggedComesOut | include/spdlog/details/async_log_helper.h:83-104 | what is logged comes out of the queued messages unchanged and in order: name, level, time, thread and text |
| AsyncLog.ProducesAlone | include/spdlog/details/async_log_helper.h:224-239 | from any state, with the slot at the tail free, at most six steps of a producer alone, retries included, put its next message into the queue |
| WorkerDuties.RunKeepsDuty | include/spdlog/details/async_log_helper.h:246-323 | on every run each handled flush request is owed, going on or done, and the worker flushes and exits only on an empty queue |
| WorkerDuties.FlushNeverForgotten | include/spdlog/details/async_log_helper.h:275-318 | once a message asking for a flush is handled, the flush is owed, going on, or every sink is flushed behind all records queued before it |
| WorkerDuties.EmptyPollFlushes | include/spdlog/details/async_log_helper.h:298-318 | at the next empty poll after such a message, one more step of the worker than there are sinks flushes them all behind those records, which are there in queue order, whatever the producers do |
| WorkerDuties.IntervalFlushes | include/spdlog/details/async_log_helper.h:308-318 | so does an empty poll with the flush interval over, for everything handled |
| WorkerDuties.NoFlushUnasked | include/spdlog/details/async_log_helper.h:308-318 | without a due interval and with nothing but log records no sink is ever flushed |
| WorkerDuties.EmptyPollTerminates | include/spdlog/details/async_log_helper.h:298-304 | the first empty poll after a terminate message ends the worker within sinks + 2 of its steps |
| WorkerDuties.ServedInTime | include/spdlog/details/async_log_helper.h:246-296 | every message stored in the queue reaches all sinks within sinks + 8 steps of the worker for each message from the first unhandled one up to it and once more, spurious failures apart, whatever the producers do |
| WorkerDuties.NothingLeftBehind | include/spdlog/details/async_log_helper.h:296-304 | the worker never exits before the sinks have every message that was stored when it had not yet begun to leave |
| DigitCount.CountDigitsLoop | include/spdlog/details/format.h:950-966 | the divide-by-10000 loop returns the number of decimal digits |
| DigitCount.NumDigitsBounds | include/spdlog/details/format.h:940-941 | n lies between the powers of ten that its digit count names |
| DigitCount.TableIsPow10 | include/spdlog/details/format.cc:474-498 | the tables hold the powers of ten |
| DigitCount.Estimate | include/spdlog/details/format.h:942-948 | `(bits * 1233) >> 12` is the digit count or one less, for every bit length |
| DigitCount.Lookup | include/spdlog/details/format.h:942-948 | the table index is in range and one comparison corrects the estimate |
| DigitCount.CountDigits64 | include/spdlog/details/format.h:942-948 | the branch-free form is the digit count for every 64-bit value |
| DigitCount.CountDigits32 | include/spdlog/details/format.h:970-975 | and for every 32-bit value |
| Numerals.DecodeNumeral | include/spdlog/details/format.h:3067-3125 | decoding a numeral in its base gives the number back |
| Numerals.NoLeadingZero | include/spdlog/details/format.h:978-1001 | numerals have no superfluous leading zero |
| Numerals.DecimalLength | include/spdlog/details/format.h:940-941 | the decimal text has as many characters as digits are counted |
| Numerals.NumeralInjective | include/spdlog/details/format.h:3029-3133 | different numbers have different numerals |
| Numerals.NumeralCase | include/spdlog/details/format.h:3077-3082 | hexadecimal digits are lower-case letters under `x` and upper-case ones under `X` |
| DecimalText.DigitPairs | include/spdlog/details/format.cc:466-472 | entries 2n and 2n + 1 of the digit table are the two digits of n |
| DecimalText.FormatDecimal | include/spdlog/details/format.h:978-1001 | exactly the given cells receive the decimal text and no other cell changes |
| DecimalText.WriteBackwards | include/spdlog/details/format.h:3631-3653 | writing pairs from the end backwards yields the decimal text in front of the end |
| DecimalText.FormatInt.Unsigned | include/spdlog/details/format.h:3679-3681 | the text fits the 22-byte buffer for every unsigned 64-bit value |
| DecimalText.FormatInt.Signed | include/spdlog/details/format.h:3655-3677 | and for every signed one, the smallest included; the start never leaves the buffer |
| DecimalText.FormatInt.Str | include/spdlog/details/format.h:3686-3718 | the text runs from the start to the place of the terminator |
| DecimalText.FormatInt.Terminate | include/spdlog/details/format.h:3704-3708 | adding the terminator does not touch the text |
| DecimalText.SignedRoundTrip | include/spdlog/details/format.h:3655-3664 | decoding signed decimal text gives the value back |
| ParseInt.ParseNonnegativeInt | include/spdlog/details/format.h:3943-3965 | the loop returns the 32-bit verdict on the whole digit run and leaves the cursor behind it |
| ParseInt.HonestBelowUintMax | include/spdlog/details/format.h:3943-3965 | runs below 2^32 are read back up to INT_MAX and refused beyond |
| ParseInt.HonestExactly | include/spdlog/details/format.h:3943-3965 | for all digit runs: the verdict is right if and only if the number n fits, or n mod 2^32 exceeds INT_MAX, or cutting decimal digits off n shows a prefix that keeps less than the one before it |
| ParseInt.HonestBelowTenTimes | include/spdlog/details/format.h:3943-3965 | between INT_MAX and ten times 2^32 one comparison of n mod 2^32 with n / 10 decides |
| ParseInt.SmallestSlip | include/spdlog/details/format.h:3943-3965 | every number below 4772185884 is judged rightly; 4772185884 itself is read as 477218588 |
| ParseInt.TenBillionSlipsThrough | include/spdlog/details/format.h:3943-3965 | 10000000000 is accepted as 1410065408 |
| ParseInt.PrintedReadsBack | include/spdlog/details/format.h:3943-3965 | the printed text of any number up to INT_MAX reads back, whatever surrounds it |
| MemoryBuffer.GrowthBounded | include/spdlog/details/format.h:593-685 | under any mix of operations on a new buffer, all growths copy at most three times the capacity, and the capacity is the inline size or at most 1.5 times the largest request |
| MemoryBuffer.Buffer.Grow | include/spdlog/details/format.h:761-780 | contents survive; size, capacity, copies and largest request change as the account of the operation says |
| MemoryBuffer.Buffer.Resize | include/spdlog/details/format.h:633-638 | truncates or extends, keeping the old contents as a prefix, with the exact new capacity, copies and largest request |
| MemoryBuffer.Buffer.Reserve | include/spdlog/details/format.h:645-649 | makes room without changing the contents, with the exact account |
| MemoryBuffer.Buffer.PushBack | include/spdlog/details/format.h:653-658 | appends one element, with the exact account |
| MemoryBuffer.Buffer.Append | include/spdlog/details/format.h:674-685 | appends a range, with the exact account |
| MemoryBuffer.Buffer.Clear | include/spdlog/details/format.h:651 | empties without giving up memory, with the exact account |
| IntWriter.IntWriter.WriteInt | include/spdlog/details/format.h:3027-3133 | appends the formatted integer for every value, base, width, fill, alignment, flag and precision, or fails on an unknown type with nothing written |
| IntWriter.FormattedLength | include/spdlog/details/format.h:2951-3025 | the length is max(width, prefix + max(digits, precision)), an octal zero being absorbed by precision zeros |
| IntWriter.FormattedDecodes | include/spdlog/details/format.h:3027-3133 | the digit run sits behind prefix, fill and zeros and decodes to the magnitude; the prefix carries the sign |
| IntWriter.BareInteger | include/spdlog/details/format.h:3027-3133 | without width and precision: minus, plus or blank, then 0x, 0X, 0b, 0B or 0 when asked for, then the digits in the base and case of the letter |
| IntWriter.BaseLetters | include/spdlog/details/format.h:3046-3132 | integers are written under d, x, X, b, B, o and no letter, and under nothing else |
| IntWriter.OctalZeroIsADigit | include/spdlog/details/format.h:2960-2966 | the octal prefix is absorbed by zeros that a precision demands, the hexadecimal one is not |
| IntWriter.PlainSurroundings | include/spdlog/details/format.h:2986-3025 | without precision: fill goes left, right, around or between prefix and digits as alignment says |
| IntWriter.PreciseSurroundings | include/spdlog/details/format.h:2957-2985 | with precision beyond the digits: zeros precede the digits and fill surrounds the whole |
| IntWriter.IntWriter.PrepareIntBuffer | include/spdlog/details/format.h:2951-3025 | lays out prefix and fill around a hole for the digits, dispatching on precision and alignment |
| IntWriter.IntWriter.FillPadding | include/spdlog/details/format.h:2933-2948 | centres a field: half the padding before, the rest after |
| IntWriter.IntWriter.WriteDecimal | include/spdlog/details/format.h:2607-2630 | the specification-free path writes signed decimal text |
| IntWriter.AbsWord | include/spdlog/details/format.h:3033-3040 | negation in unsigned words gives the magnitude, minimum value included |
| IntWriter.CountDigitsBase | include/spdlog/details/format.h:3066-3071 | the shift loop counts the digits of the numeral |
| IntWriter.IntWriter.WriteDigits | include/spdlog/details/format.h:3077-3081 | the backwards loop fills the hole with the numeral |
| ArgList.PackedTypes | include/spdlog/details/format.h:2286-2291 | the i-th nibble of the packed word is the type of argument i below sixteen, NONE beyond the last |
| ArgList.UnionTag | include/spdlog/details/format.h:1643-1649 | the sixteenth nibble is NONE exactly when there are fewer than sixteen arguments |
| ArgList.ArgList.constructor | include/spdlog/details/format.h:2329-2338 | packing builds the word and the array for the arguments |
| ArgList.ArgList.Get | include/spdlog/details/format.h:1638-1666 | indexing returns the i-th argument with its type, or NONE past the end, reading only stored cells |
| FormatterSpec.NextArg | include/spdlog/details/format.h:2144-2152 | an automatic reference brings the argument behind those already taken, or the one it names, exactly when there is one and indexing is not manual; it keeps the discipline |
| FormatterSpec.GetArg | include/spdlog/details/format.h:2154-2170 | a numbered reference brings the argument at that index, or the one it names, exactly when there is one and none was taken automatically; it keeps the discipline |
| FormatterSpec.GetNamedArg | include/spdlog/details/format.h:3991-4004 | a named reference brings what the argument of that name holds, under the same condition |
| FormatterSpec.FindsFirst | include/spdlog/details/format.cc:619-661 | a name stands for the first argument of that name, and for nothing when no argument bears it |
| FormatterSpec.Output | include/spdlog/details/format.h:4234-4257 | on success all references, nested ones included, were automatic with indices 0, 1, 2, ... once each in order, or none was |
| FormatterSpec.IndexingNeverMixes | include/spdlog/details/format.h:2124-2170 | the same for a whole run from the initial state |
| FormatterSpec.EscapedText | include/spdlog/details/format.h:4237-4250 | NUL-free text with doubled braces contributes itself anywhere in a format string |
| FormatterSpec.DoubledBracesEscape | include/spdlog/details/format.h:4234-4257 | and formats to itself with no arguments consumed |
| FormatterSpec.AcceptedSuits | include/spdlog/details/format.h:3966-3987 | whatever the text, a specification is accepted only for arguments it suits: signs for signed numbers, `#` and numeric alignment for numbers, no precision for integers and pointers |
| FormatterSpec.FieldsClose | include/spdlog/details/format.h:4226-4228 | a replacement field ends with a closing brace |
| FormatterSpec.StrayBraces | include/spdlog/details/format.h:4234-4257 | a closing brace that closes nothing and an opening one at the end are errors |
| FormatterBases.FormatterBase.NextArgument | include/spdlog/details/format.h:2144-2152 | the counter object takes the argument at its counter, or the one it names, and counts on |
| FormatterBases.FormatterBase.ArgumentAt | include/spdlog/details/format.h:2154-2159 | or the one at the index given, exactly when there is one and none was taken automatically |
| FormatterBases.FormatterBase.CheckNoAutoIndex | include/spdlog/details/format.h:2161-2170 | refuses exactly after automatic use and otherwise switches to manual |
| Formatter.BasicFormatter.ReadArgIndex | include/spdlog/details/format.h:4006-4018 | index parsing with its error messages |
| Formatter.BasicFormatter.ReadArgName | include/spdlog/details/format.h:4020-4036 | the name loop stops at the first other character |
| Formatter.BasicFormatter.ScanAlign | include/spdlog/details/format.h:4054-4093 | the backwards scan stays in the string, terminates and finds fill and alignment as specified |
| Formatter.BasicFormatter.ReadCount | include/spdlog/details/format.h:4128-4166 | width or precision from digits or a nested field |
| Formatter.BasicFormatter.ReadSpec | include/spdlog/details/format.h:4054-4224 | the whole specification parser computes the specified result and cursor |
| Formatter.BasicFormatter.FormatField | include/spdlog/details/format.h:4039-4232 | one replacement field: nothing is written unless the field is complete and its argument renders |
| Formatter.BasicFormatter.Format | include/spdlog/details/format.h:4234-4257 | the main loop appends exactly the output of the format string, or reports its error |
| References.RefReads | include/spdlog/details/format.h:4006-4036 | a printed reference, automatic, numbered or named, is read as the argument it means or its error |
| References.CountReads | include/spdlog/details/format.h:4128-4165 | a printed count, absent, literal or nested, is read as the number it means or its error |
| SpecSyntax.SpecReads | include/spdlog/details/format.h:4054-4224 | a printed specification followed by `}`, nested width and precision included, parses back to its meaning or error with the cursor at the brace |
| SpecSyntax.ParserInvertsPrinter | include/spdlog/details/format.h:4039-4232 | every legal non-empty specification parses back whatever surrounds it, with the cursor just behind the brace |
| SpecSyntax.EmptySpecLooksAhead | include/spdlog/details/format.h:4054-4093 | the empty one takes its alignment from the character behind the brace |
| Template.TemplatesMean | include/spdlog/details/format.h:4234-4257 | formatting a printed template gives its texts and rendered fields interleaved in order, with or without specification, with automatic, numbered and named references and nested widths and precisions, errors included |
| FileNames.FileNameFormatted | include/spdlog/sinks/file_sinks.h:86-94 | the file names of the rotating sink are what formatting "{}.{}.{}" and "{}.{}" gives |
| Template.IntegerFormatted | include/spdlog/details/format.h:2018-2022 | from text to digits: an integer field under any legal specification, inside any escaped text, comes out as the formatted integer |
| Template.IntegerLooks | include/spdlog/details/format.h:3027-3133 | and looks as its specification says: sign, prefix, digits in base and case, fill left, right, around or behind the prefix |
| SpecSyntax.Spellings | include/spdlog/details/format.h:4054-4224 | the printed forms are those of the format language, character by character |
| ArgumentChoice.ReferencesBringOut | include/spdlog/details/format.h:4006-4036 | numbered and named references in any order and number: the output is the texts of just those arguments in that order, and formatting fails exactly when an index is out of range or a name unknown |
| ArgumentChoice.Swapped | include/spdlog/details/format.h:2154-2159 | "{1}{0}" brings out the second text before the first |
| ArgumentChoice.AutomaticInOrder | include/spdlog/details/format.h:2144-2152 | automatic references bring out the texts one after the other and fail exactly when there are not enough |
| PrintfSpec.PrintfOutput | include/spdlog/details/format.cc:761-860 | printf runs keep the indexing discipline, `*` widths and precisions included |
| PrintfSpec.EscapedPercents | include/spdlog/details/format.cc:761-774 | NUL-free text with doubled percent signs contributes itself anywhere |
| PrintfSpec.DoubledPercentsEscape | include/spdlog/details/format.cc:761-774 | and formats to itself |
| PrintfSpec.NarrowConversion | include/spdlog/details/format.cc:300-334 | conversions to at most 32 bits keep the value modulo the size, land in range, and change nothing that fits |
| PrintfSpec.WideConversion | include/spdlog/details/format.cc:300-334 | conversions to 64 bits keep the value if and only if it fits and is not a negative value of a 32-bit type |
| PrintfSpec.ConversionType | include/spdlog/details/format.cc:300-334 | converted integers have the type asked for; other arguments, and a bool under s, stay as they are |
| PrintfSpec.CharConversion | include/spdlog/details/format.cc:337-350 | c keeps the value modulo 256 as a signed char |
| PrintfSpec.LettersKept | include/spdlog/details/format.cc:838-852 | i and u are written as d, other letters as they are |
| PrintfSpec.StrayPercent | include/spdlog/details/format.cc:761-774 | a percent sign at the end is an error |
| Printf.PrintfFormatter.ParseFlags | include/spdlog/details/format.cc:686-710 | the flag loop |
| PrintfSyntax.HeadReads | include/spdlog/details/format.cc:725-759 | index, flags in any order and number, and width are read back as printed, zero flags running into a width included |
| PrintfSyntax.Spellings | include/spdlog/details/format.cc:686-852 | the printed forms are those of printf, character by character |
| PrintfStars.FlagsMean | include/spdlog/details/format.cc:686-710 | flags in any order and number: each sets its own part of the specification, which depends only on which flags occur |
| PrintfSyntax.DirectiveReads | include/spdlog/details/format.cc:775-852 | every legal printed directive, wherever it stands, is read as what it stands for: argument, conversion and specification, or the error, with the cursor behind its letter |
| PrintfTemplate.TemplatesMean | include/spdlog/details/format.cc:761-860 | formatting a printed template gives its texts and rendered directives interleaved in order, indices, stars and conversions included, errors included |
| PrintfTemplate.IntegerPrinted | include/spdlog/details/format.cc:775-859 | any integer conversion in any base, with any flags, literal width and precision and length modifier, inside any escaped text, comes out as the converted value formatted under the directive's specification |
| PrintfTemplate.DecimalPrinted | include/spdlog/details/format.cc:804-852 | under bare d, i or u that is the signed decimal text of the converted value |
| PrintfStars.StarsArePrintedOut | include/spdlog/details/format.cc:243-286 | a directive with `*` for width or precision prints what it does with the numbers spelled out, a negative width being a `-` flag and a width, a negative precision none |
| PrintfStandard.IntegerTextIs | include/spdlog/details/format.cc:799-859 | head, zeros, digits and padding of every integer conversion |
| PrintfStandard.PrintsAsStandard | include/spdlog/details/format.cc:686-859 | every integer conversion the C standard defines, anywhere in a format string, prints fprintf's text for the converted value if and only if it is no zero under precision zero, no vanished number under `#`, and does not pad under `0` with `-` or a precision |
| PrintfStandard.ZerosOverruleMinus | include/spdlog/details/format.cc:801-806 | %-05d of 42 prints 00042 |
| PrintfStandard.ModifiersSize | include/spdlog/details/format.cc:808-836 | hh, h and no modifier print what is left of the value in 8, 16 and 32 bits, the others the value itself where 64 bits hold it |
| ArgumentChoice.DirectivesChoose | include/spdlog/details/format.cc:713-723 | numbered directives, counting from 1, bring out the texts of just those arguments in that order, and fail exactly when an index is out of range |
| Printf.PrintfFormatter.Format | include/spdlog/details/format.cc:761-860 | the main loop appends exactly the output of the format string, or reports its error |
| RotatingSink.NamesDistinct | include/spdlog/sinks/file_sinks.h:86-94 | distinct indices give distinct file names |
| RotatingSink.Logged | include/spdlog/sinks/file_sinks.h:74-83 | after every write file 0 is within the limit or holds just the last message |
| RotatingSink.HistoryConserved | include/spdlog/sinks/file_sinks.h:74-123 | over any message stream, old history and all messages equal what rotations dropped followed by what the files hold |
| RotatingSink.NothingDropped | include/spdlog/sinks/file_sinks.h:102-123 | nothing is dropped while rotations do not exceed the free places |
| RotatingSink.OneMessage | include/spdlog/sinks/file_sinks.h:74-83 | a message that fits is appended to file 0 and nothing else changes; any other starts file 0 anew behind a shift by one |
| RotatingSink.FittingStaysInFileZero | include/spdlog/sinks/file_sinks.h:74-83 | as long as everything logged fits into file 0, it all stands there in order and nothing rotates |
| RotatingSink.RotationsBounded | include/spdlog/sinks/file_sinks.h:74-83 | over any stream, rotations times maxSize + 1 are at most the old size of file 0 plus twice the characters logged |
| RotatingSink.NothingDroppedEarly | include/spdlog/sinks/file_sinks.h:74-123 | so a fresh row drops nothing before about half of what its files hold has been logged |
| RotatingSink.FileHelper.Open | include/spdlog/details/file_helper.h:46-61 | opens for appending, or empties |
| RotatingSink.FileHelper.Reopen | include/spdlog/details/file_helper.h:63-69 | opens the same name again, or refuses if there was none |
| RotatingSink.RotatingFileSink.constructor | include/spdlog/sinks/file_sinks.h:55-67 | file 0 exists with its old content and the running size is its size; no other file changes |
| RotatingSink.RotatingFileSink.Rotate | include/spdlog/sinks/file_sinks.h:102-123 | the descending loop is exactly the shift by one, missing files included; file 0 is empty and no other file changes |
| RotatingSink.RotatingFileSink.SinkIt | include/spdlog/sinks/file_sinks.h:74-83 | a message that fits is appended to file 0 with all other files as they are, any other becomes file 0 behind the shifted row; the running size stays the size of file 0 |
| PatternFormatter.CompilationPreservesMeaning | include/spdlog/details/pattern_formatter_impl.h:451-479 | running the compiled list equals reading the pattern from left to right, for every pattern and message |
| PatternFormatter.CompiledCompact | include/spdlog/details/pattern_formatter_impl.h:377-392 | aggregates are non-empty and never adjacent |
| PatternFormatter.RunHandled | include/spdlog/details/pattern_formatter_impl.h:480-604 | what the flag table pushes shows what the flag means, unknown flags being echoed with their percent sign |
| PatternFormatter.TimeShorthands | include/spdlog/details/pattern_formatter_impl.h:148-297 | `%R`, `%T`, `%r` and `%D` equal their documented longer patterns |
| PatternFormatter.FullIsItsPattern | include/spdlog/details/pattern_formatter_impl.h:394-439 | `%+` equals the pattern its comment documents |
| PatternFormatter.NumbersReadBack | include/spdlog/details/pattern_formatter_impl.h:143-354 | the numeric flags read back as the field they stand for, at their fixed width |
| PatternFormatter.TextsComeOut | include/spdlog/details/pattern_formatter_impl.h:33-59 | logger name, level names and text come out unchanged |
| PatternFormatter.ShortNames | include/spdlog/details/pattern_formatter_impl.h:76-115 | full names of days and months begin with their short ones |
| PatternFormatter.Synonyms | include/spdlog/details/pattern_formatter_impl.h:480-604 | `%h`, `%x` and `%X` are `%b`, `%D` and `%T` |
| PatternFormatter.UnknownStandsForItself | include/spdlog/details/pattern_formatter_impl.h:597-603 | characters that are no flags come out with their percent sign, a percent sign at the very end does not |
| PatternFormatter.DateAndTimeIsItsPattern | include/spdlog/details/pattern_formatter_impl.h:132-141 | `%c` is the names, the day unpadded, the clock and the year |
| PatternFormatter.TwelveHourClock | include/spdlog/details/pattern_formatter_impl.h:66-74 | `%I` and `%p` together give the hour back; `%I` runs from 1 to 12 exactly outside the hour after midnight, which shows as 00 |
| PatternFormatter.ZoneIsIso | include/spdlog/details/pattern_formatter_impl.h:298-325 | `%z` is the ISO 8601 offset if and only if the offset is not negative |
| PatternFormatter.ZoneOfNewYork | include/spdlog/details/pattern_formatter_impl.h:298-325 | five hours west of Greenwich shows as "--5:00" |
| PatternFormatter.PatternFormatter.constructor | include/spdlog/details/pattern_formatter_impl.h:446-449 | the formatters mean the pattern for every message |
| PatternFormatter.PatternFormatter.CompilePattern | include/spdlog/details/pattern_formatter_impl.h:451-479 | the iterator loop with its accumulator pushes the compiled list; a lone trailing percent sign is dropped |
| PatternFormatter.PatternFormatter.Format | include/spdlog/details/pattern_formatter_impl.h:607-618 | appends the meaning of the pattern and one end of line |
| Supervisor.MonitorProc | daemon/daemon_impl.hpp:246-353 | under every script of signals and child endings the trace follows the protocol and reports how each reaped child ended; the loop returns only after CHILD_NEED_TERMINATE or after sending SIGTERM, and is cut off only where the script ends |
| Supervisor.AtMostOneMaster | daemon/daemon_impl.hpp:246-345 | at every moment at most one unreaped master |
| Supervisor.SignalsReachTheMaster | daemon/daemon_impl.hpp:326-340 | every signal sent goes to the unreaped master |
| Supervisor.ForksAndReapsAlternate | daemon/daemon_impl.hpp:248-297 | a master is forked only when there is none, and only it is reaped |
| Supervisor.ForksCounted | daemon/daemon_impl.hpp:246-314 | forks are one plus the reaped exits with another status than CHILD_NEED_TERMINATE |
| Supervisor.NothingAfterTheEnd | daemon/daemon_impl.hpp:291-344 | nothing follows a terminating exit or a SIGTERM sent |
| Supervisor.HangupsForwarded | daemon/daemon_impl.hpp:315-331 | each SIGHUP is answered by one reload and one forwarded SIGHUP to a master that stays |
| Supervisor.WhatComesNext | daemon/daemon_impl.hpp:246-345 | the protocol act by act: SIGCHLD leads to reaping the unreaped master, SIGHUP to a reload and a SIGHUP to it, every other signal to a SIGTERM to it as the last act, a reaped master to a fork or the end |
| Supervisor.WhatCameBefore | daemon/daemon_impl.hpp:246-345 | and nothing else leads there: no reload without SIGHUP, no SIGTERM without a stop signal, no reaping without SIGCHLD, no fork but at the start and after a reaping |
| Supervisor.System.SigWaitInfo | daemon/daemon_impl.hpp:285-289 | the wait takes the first signal offered that is pending, one raised before or meanwhile, and misses none |
| Supervisor.EndingsDecide | daemon/daemon_impl.hpp:291-314 | at every reap in a run, exit code CHILD_NEED_TERMINATE ends the run, and any other ending is followed by a fork of a new master, if by anything |
| Supervisor.WorkProc | daemon/master_impl.hpp:231-262 | SIGHUP, and nothing but SIGHUP, reloads; the first other event ends the master with the code for stopping, a fault with the code for restarting, or for stopping in debug builds |
| Supervisor.StatusSurvives | daemon/daemon_impl.hpp:293-297 | the exit status that `wait` yields |

## Left out

- The C++ weak memory model, cache padding and progress of contending producers: atomics are sequentially consistent steps.
- Linearizability of `false`: a refusal is honest about its own slot at its sequence load, not about the whole queue.
- The discard policy of the asynchronous helper, throwing sinks and formatters, the exception hand-off, clocks and the sleep heuristics; a flush interval may fall due at any step.
- Moving the message out of a failed enqueue cannot happen in the code and is not modelled; the move constructor of a queued message, which drops the thread id, is not on the push path.
- Wrap-around of `size_t` and `unsigned` sizes, widths and lengths, and memory exhaustion.
- Floating-point, string, character and pointer output, wide characters and custom argument types; an argument is written by a rendering function that is a parameter of the formatters.
- ArgList.ArgList.constructor: the terminating cell of the array is zeroed as the code does; uninitialised cells are arbitrary parameters.
- Error messages that quote a character or a type name are modelled without the quotation.
- Failing file operations, buffering between `write` and `flush`, and other processes touching the log files.
- Broken-down time is a given record of non-negative fields; the UTC offset is a given number of minutes.
- Failing `fork`, `sigwaitinfo` and `kill`, job-control stops and stale `siginfo`; process identities are not reused.
- Restarting is not rate-limited in the code, and how a live master reacts to a signal is up to the script.
- Windows branches, the registry, other sinks, the configuration loader, command line and daemonizing code, and the slave services.
