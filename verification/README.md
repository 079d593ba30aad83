# TinyAra: models and proofs

This project models five stateful components of TinyAra in Dafny and proves what they promise over whole
runs: the block read-ahead/write-behind cache, the CAN driver's two message rings, the TASH shell (line
editor, command-line parser, command table), power management, and the log ring. Where the code changes
things in place the model is a class with the same fields, arrays and loops; its methods are proved equal to
step functions or to a stated property, and the lemmas prove what those steps add up to.

`dafny verify dfyconfig.toml` checks the whole project.

## How the files divide

- `RwModel` (steps of the cache on values), `RwCoherence` (what each call means), `RwRuns` (whole runs against
  a plain block array), `RwBuffer` (the driver object).
- `CanCodec` (message bytes), `CanTx` (transmit ring), `CanRx` (receive ring), `CanReaders` (readers and
  interrupt as a state machine), `CanReceiver` (the receive half of the device as one object).
- `TashSort` (Shellsort and Theorem K), `TashCommands` (command table), `TashParse` (grammar of a command line
  and its inverse), `TashLaws` (a machine for command lines and the laws they obey), `TashTokenizer` (the in-place
  parser), `TashLineEdit` (the line editor).
- `PmUpdate` (activity, average, thresholds), `PmWorker` (the worker on the domain's fields), `PmDomain` (reports,
  worker and changes of a domain together), `PmMetrics` (history and time in state), `PmChange` (two-phase state
  change).
- `LogRing` (producers and consumer of the log), `Ring` (wrapping indices), `CStrings` (NUL-terminated strings),
  `Platform` (bytes and errno values).

## Where the code does not do what it is meant to

Each of these is kept as the code has it; where a promise fails, the condition under which it holds is proved.

- A flush that the device refuses empties the buffer all the same: the blocks are lost (`RwCoherence.FlushStatus`).
- With both caches on, `rwb_read` prefetches without looking at the dirty blocks, so a block that is written,
  prefetched and read back can come out old (`RwRuns.StaleReadBack`). `RwRuns.CleanExactly` gives the
  condition on a run, `RwCoherence.ReadKeepsCoherenceIff` the condition on one call.
- A size of zero is promised to disable a cache (os/include/tinyara/rwbuffer.h:120-122), but the `else` in
  `rwb_write` and `rwb_read` binds to `return ret`: with a write buffer of zero blocks compiled in every write is
  dropped, with a read-ahead cache of zero blocks every read delivers nothing, and both report success. Exactly
  these sizes fail (`RwCoherence.WriteStoresIff`, `RwCoherence.ReadDeliversIff`). The return values modelled are
  those assigned to `ret`.
- A CAN reader whose buffer does not take the first queued message uses up a wake-up. Runs without lost wake-ups
  are guaranteed exactly from a buffer size of 10 bytes on (`CanReaders.WakeupThreshold`).
- A write to the CAN driver without blocking that is cut short returns without starting the hardware, so its messages
  can wait beside idle hardware until the next write (last clauses of `CanTx.TxFifo.Write`); all other writes leave
  nothing stranded (`CanTx.TxFifo.Session`).
- The count of the receive semaphore is meant to stay within the ring, but readers that find a message do not
  wait, and it grows without bound (`CanReaders.CountBoundedIff`); `CanReaders.SurplusRisesIff` tells the reads
  that raise it.
- Arguments that end in a backslash cannot be quoted (`TashParse.RoundTrip`). The 31st token of a command is
  not cut off: it is the whole rest of the line, and if it starts with a quote the command is discarded
  (`TashParse.Rest`).
- In the line editor a NUL directly behind a backspace or delete in the same batch makes the loop stick: it erases
  and takes up the same character in turn until the batch is used up, and the rest of the batch is lost. One batch
  "ab", backspace, NUL, "cd" leaves "ab" (`TashLineEdit.RestIsLost`). `TashLineEdit.BatchExactly` gives the line for every batch,
  `TashLineEdit.BatchTypesIff` says exactly when it is the line typed; where it is not, the line depends on how the
  input was cut (`TashLineEdit.CutMatters`). With an empty line the byte in front of the buffer is tested for LF and
  can end the reading (`Astray` in `TashLineEdit.Editor.ReadInputLine`).
- The library's `strcmp` narrows a difference to a signed char. It has the sign that ISO C demands exactly when the
  difference of the first differing bytes lies between -128 and 127 (`TashSort.StrcmpAgreesIff`); beyond that it is
  no order (`TashSort.LibraryOrderCycles`). The sort uses it and always permutes the table; it sorts the table where
  the two agree on its names (`TashSort.SortCmds`, `TashSort.AgreeingIff`).
- `isfirst` is never cleared before the end of the history, so the last state is credited with the whole window
  (`PmMetrics.TotalsTrueIff`), and before the clock has reached the window's length the subtraction wraps
  (`PmMetrics.EarlyClock`). The clock is read once for the window and again for the pruning; what that can cost is
  `PmMetrics.FullHistoryIff`.
- The count of calm updates is not cleared when the state changes, so updates seen before a wake-up took effect
  count towards going idle again (`PmUpdate.CountCarriesOver`). A state takes its full count exactly when it is
  entered with the count cleared (`PmUpdate.FullCountNeededIff`); what every run does guarantee is
  `PmUpdate.DeepeningIsEarned`.
- A log message that does not fit its slot loses its NUL to the newline patch, and printing runs on into the
  next slot, from the last one into the memory behind the ring (`LogRing.PrintsExactlyIff`).

## Model

| member | source | states |
|---|---|---|
| `RwCoherence.OverlapMeans` | os/drivers/rwbuffer.c:133-146 | The overlap test answers false only for extents without a common block; for non-empty extents it answers true exactly when they share a block or touch |
| `RwCoherence.FlushMeaning` | os/drivers/rwbuffer.c:172-194 | A flush empties the write buffer onto the media, changes no logical contents, and neither loses nor repeats nor reorders a block write |
| `RwCoherence.FlushStatus` | os/drivers/rwbuffer.c:172-194 | From any state a flush leaves the buffer empty and the window alone; accepted blocks are logged in order, refused ones are lost |
| `RwCoherence.WriteBufferMeaning` | os/drivers/rwbuffer.c:246-289 | A buffered write, coalesced or after a flush, acts as a plain array store and appends exactly its blocks to the committed writes |
| `RwCoherence.WriteMeaning` | os/drivers/rwbuffer.c:814-874 | Every write on the media succeeds and acts as a plain array store, also when it bypasses the buffer, whatever the read-ahead cache |
| `RwCoherence.WriteReachesDeviceIff` | os/drivers/rwbuffer.c:246-289 | A write reaches the device in its call exactly when it is unbuffered, too large, not a continuation of the dirty blocks, or without room behind them |
| `RwCoherence.WriteStatus` | os/drivers/rwbuffer.c:814-874 | From any state a write returns its number of blocks, or -EIO exactly when the device refuses the transfer it makes; a refused flush leaves the buffer as it was |
| `RwCoherence.WriteKeepsWindowIff` | os/drivers/rwbuffer.c:819-832 | A write drops the window exactly when they share a block or touch |
| `RwCoherence.WriteKeepsCoherence` | os/drivers/rwbuffer.c:819-832 | Dropping the window on overlap keeps every prefetched block equal to the logical contents |
| `RwCoherence.WriteStoresIff` | os/drivers/rwbuffer.c:836-873 | A write acts as a store exactly when the write buffer is not compiled in with zero blocks (or nothing is written); with zero blocks it returns OK and changes nothing |
| `RwCoherence.LoopMeaning` | os/drivers/rwbuffer.c:753-787 | The read loop delivers the window's share, then the media, leaves the window at its last reload, and reloads once per window still needed |
| `RwCoherence.CeilDivMeans` | os/drivers/rwbuffer.c:753-787 | The number of reloads is the rounded-up quotient of the blocks missing from the window by its size |
| `RwCoherence.ReadKeeps` | os/drivers/rwbuffer.c:727-743 | A read on the media changes neither logical contents nor committed writes, whatever the cache sizes |
| `RwCoherence.ReadKeepsBufferIff` | os/drivers/rwbuffer.c:734-743 | A read flushes dirty blocks exactly when it shares a block with them or touches them |
| `RwCoherence.ReadMeaning` | os/drivers/rwbuffer.c:720-808 | A read on the media delivers every block asked for and issues at most ceil(n / rhmaxblocks) reloads |
| `RwCoherence.ReadDeliversIff` | os/drivers/rwbuffer.c:745-807 | A read delivers its blocks exactly when the read-ahead cache is not compiled in with zero blocks (or none are asked for); with zero blocks it returns OK and delivers nothing |
| `RwCoherence.ReadExact` | os/drivers/rwbuffer.c:734-787 | A read returns the last-written contents exactly when the blocks it finds in the window are up to date |
| `RwCoherence.CoherentIffEveryReadRight` | os/drivers/rwbuffer.c:720-808 | The window agrees with the logical contents exactly when no read of any extent can return stale data |
| `RwCoherence.ReadKeepsCoherenceIff` | os/drivers/rwbuffer.c:780-786 | A read keeps the caches coherent exactly when the window it loads holds no dirty block that differs from the media |
| `RwCoherence.ReadLength` | os/drivers/rwbuffer.c:789-795 | From any state, a successful read returns the number of blocks delivered |
| `RwCoherence.LoopStatus` | os/drivers/rwbuffer.c:753-787 | The read loop ends with every block delivered, or at the first block it cannot deliver with -ESPIPE off the media and -EIO for a refused window |
| `RwCoherence.ReadStatus` | os/drivers/rwbuffer.c:720-808 | From any state, failing devices included, a read returns the number of blocks asked for if it delivered them all, else the reason for the next block |
| `RwCoherence.WriteThenRead` | os/drivers/rwbuffer.c:720-874 | After a write each block it stored reads as stored and every other as before |
| `RwRuns.RunCommits` | os/drivers/rwbuffer.c:172-216 | Over every run, blocks delivered by flushes followed by those buffered are exactly the accepted block writes in order, and the logical contents are those of the plain array |
| `RwRuns.RunStaysFaithful` | os/drivers/rwbuffer.c:172-216 | Over every run, failing devices included, replaying the block writes delivered gives the media |
| `RwRuns.AcceptedReplays` | os/drivers/rwbuffer.c:814-874 | The plain array is what replaying the accepted block writes gives |
| `RwRuns.RunRefines` | os/drivers/rwbuffer.c:720-874 | In every clean run each call returns what a plain block array returns |
| `RwRuns.CleanExactly` | os/drivers/rwbuffer.c:780-781 | A run is clean exactly when at every point of it every possible read would return the last-written contents |
| `RwRuns.SingleCacheRefines` | os/drivers/rwbuffer.c:720-874 | With only one of the caches compiled in, every run from initialization agrees with the plain array, without any assumption |
| `RwRuns.StaleReadBack` | os/drivers/rwbuffer.c:780-781 | With both caches a three-call run reads back old contents |
| `RwBuffer.Buffer.Initialize` | os/drivers/rwbuffer.c:609-688 | Returns -ENOMEM exactly when a buffer that is compiled in and not of size zero cannot be allocated; otherwise both buffers are empty |
| `RwBuffer.Buffer.Flush` | os/drivers/rwbuffer.c:172-216 | The flush, also run by the timer, takes the model's flush step |
| `RwBuffer.Buffer.WriteBuffered` | os/drivers/rwbuffer.c:246-289 | The buffered write takes the model's step, including the failed flush that leaves the buffer as it was |
| `RwBuffer.Buffer.WriteBlocks` | os/drivers/rwbuffer.c:814-874 | The write call takes the model's step and returns its value |
| `RwBuffer.Buffer.Reload` | os/drivers/rwbuffer.c:343-388 | The reload takes the model's step, with its two error returns |
| `RwBuffer.Buffer.BufferRead` | os/drivers/rwbuffer.c:311-335 | Blocks are copied from the window behind those already delivered |
| `RwBuffer.Buffer.ReadThrough` | os/drivers/rwbuffer.c:748-795 | The loop terminates and delivers the model's blocks, window and status |
| `RwBuffer.Buffer.ReadBlocks` | os/drivers/rwbuffer.c:720-808 | The read call takes the model's step; the caller's buffer starts with the delivered blocks |
| `RwBuffer.Buffer.Execute` | os/drivers/rwbuffer.c:720-874 | Any run of calls and timer ticks on the object is the model's run, so the run theorems hold of it |
| `CanCodec.HeaderWord` | os/include/tinyara/can.h:145-155 | The first two bytes, low byte first, hold the data length in bits 0 to 3, the remote request in bit 4 and the identifier in bits 5 to 15; the data follow |
| `CanCodec.DecodeEncoded` | os/include/tinyara/can.h:145-155 | A message encoded as header bits and data is read back wherever it stands in a byte stream |
| `CanCodec.DecodeAllEncoded` | os/include/tinyara/can.h:145-155 | A stream of encoded messages determines the messages: nothing is split or merged |
| `CanTx.TxFifo.Indices` | os/drivers/can.c:383-393 | Comparing the wrapped indices compares how many messages were completed, sent and written |
| `CanTx.TxFifo.DevSend` | os/drivers/can.c:400-411 | The message handed to the hardware is the next one in write order, and completions during the call keep the ring's split |
| `CanTx.TxFifo.Xmit` | os/drivers/can.c:368-422 | Keeps head, queue and tail splitting the written messages into completed, in flight and waiting; sends in order, each once; hands over everything unless the hardware refused; recursion ends because the unsent part shrinks; both assertions hold |
| `CanTx.TxFifo.TxDone` | os/drivers/can.c:788-821 | Completes one message, hands over what waits, posts the semaphore when a writer sleeps; on an empty ring only -ENOENT; its assertion holds |
| `CanTx.TxFifo.FullMeans` | os/drivers/can.c:464-471 | The next tail meets the head exactly when one less than the ring size is held |
| `CanTx.TxFifo.constructor` | os/drivers/can.c:646-656 | The ring starts empty with no writer waiting and a zero semaphore |
| `CanTx.TxFifo.SemWait` | os/drivers/can.c:493-505 | A wake-up is paid for by a completion or an earlier count; interrupts during the sleep keep the split |
| `CanTx.TxFifo.WaitOnce` | os/drivers/can.c:495-505 | The waiter count is restored when the wait ends and stays raised exactly while the writer sleeps |
| `CanTx.TxFifo.WaitForRoom` | os/drivers/can.c:471-510 | Waiting ends with room in the ring, an error, or asleep; it cannot spin; before it sleeps idle hardware has been started |
| `CanTx.TxFifo.Write` | os/drivers/can.c:428-544 | Exactly the first k messages of the buffer are written in order and the count returned is their length; all of them if a blocking call returns a count; -EAGAIN or a short count exactly on a full ring; only a sleeping writer stays counted; messages left waiting wait for one in flight unless the hardware refused, except after a short write without blocking, which hands nothing over |
| `CanTx.TxFifo.Session` | os/drivers/can.c:368-544 | Over any run of writes, completions and spurious completions the ring stays valid, the hardware got a prefix of the written messages in order, the written messages are exactly those the calls report as accepted, writes are left out only behind a sleeping writer, and no message waits beside idle hardware unless it refused or a write without blocking was cut short |
| `CanRx.TakenIsMaximal` | os/drivers/can.c:321-342 | The copy loop moves the longest run of whole messages that fits |
| `CanRx.RxFifo.Receive` | os/drivers/can.c:700-768 | A message is queued, or refused with -ENOMEM exactly when one less than the ring size is held |
| `CanRx.RxFifo.Drain` | os/drivers/can.c:321-348 | The bytes returned are the encodings of that run, at most buflen of them, and the rest stays queued |
| `CanReaders.StepConserves` | os/drivers/can.c:281-355 | Every step of readers and interrupt keeps: the bytes returned are the encodings of the oldest accepted messages, whole, and the queue holds the rest |
| `CanReaders.RefusedIff` | os/drivers/can.c:738-768 | In every such state a message is refused exactly when one less than the ring size is held, and then nothing changes |
| `CanReaders.ReadOnBounded` | os/drivers/can.c:328-330 | No read returns more than its buffer holds |
| `CanReaders.ReadOnReturns` | os/drivers/can.c:299-348 | A read returns the number of bytes it delivered, -EAGAIN on an empty ring without blocking and then changes nothing, or sleeps |
| `CanReaders.StepReturns` | os/drivers/can.c:281-355 | What every call returns: bytes delivered, 0 for a buffer without room for a header, -EINTR for a signal, 0 or -ENOMEM for the handler |
| `CanReaders.RunReturns` | os/drivers/can.c:281-355 | Over every run the values returned by reads add up to the bytes delivered |
| `CanReaders.RunConserves` | os/drivers/can.c:690-769 | Over every interleaving the returned bytes are whole messages, and these followed by the queue are the accepted messages in arrival order: none lost, split, repeated or overtaken |
| `CanReaders.StepCovers` | os/drivers/can.c:299-315 | A step keeps counts plus woken readers at least the queued messages unless it wastes a wake-up |
| `CanReaders.WasteIsLossIff` | os/drivers/can.c:328-330 | A wasted wake-up breaks that cover exactly when there was no spare count |
| `CanReaders.RunLosesNoWakeup` | os/drivers/can.c:299-315 | With buffers that fit the longest message no run leaves a reader asleep, messages queued and nobody woken |
| `CanReaders.SmallBufferLosesWakeup` | os/drivers/can.c:322-330 | For every ring that holds a message and every buffer size from 2 to 9 there is such a run |
| `CanReaders.WakeupThreshold` | os/drivers/can.c:299-330 | For every ring size and least buffer size, no run loses a wake-up exactly when the buffers fit the longest message or the ring holds none |
| `CanReaders.SurplusRisesIff` | os/drivers/can.c:299-342 | Counts and woken readers gain on the queued messages exactly when a reader takes messages it did not wait for |
| `CanReaders.CountStaysBelow` | os/drivers/can.c:759-764 | In runs without such reads the semaphore never exceeds the queued messages, hence stays below the ring size |
| `CanReaders.CountGrowsWithoutBound` | os/drivers/can.c:759-764 | With them every count is reached, for every ring that holds a message |
| `CanReaders.CountBoundedIff` | os/drivers/can.c:759-764 | Any bound on the count holds over all runs exactly when the ring holds no message |
| `CanReceiver.Receiver.OnReceive` | os/drivers/can.c:738-768 | The interrupt takes the machine's step on the ring and the semaphore |
| `CanReceiver.Receiver.Read` | os/drivers/can.c:299-348 | The wait loop and the copy loop take the machine's step; the value returned is the number of bytes delivered, or -EAGAIN with none |
| `CanReceiver.Receiver.Execute` | os/drivers/can.c:281-355 | Every event that can happen to the object happens, and together they are a run of the machine, so the run theorems hold of it |
| `TashSort.LessIff` | apps/shell/tash_command.c:128 | The order of names: a proper beginning, or the smaller character where they first differ |
| `TashSort.LeTotal` | apps/shell/tash_command.c:128 | Any two names are ordered by strcmp as ISO C defines it, the order the table is to be sorted in |
| `TashSort.LeTransitive` | apps/shell/tash_command.c:128 | That order is transitive |
| `TashSort.DifferenceDecides` | lib/libc/string/lib_strcmp.c:66-75 | The sign of the first difference is the ISO order; the library returns that difference narrowed to a signed char |
| `TashSort.StrcmpAgreesIff` | lib/libc/string/lib_strcmp.c:66-75 | The library agrees with ISO C exactly when the difference of the first differing bytes lies between -128 and 127 |
| `TashSort.LibraryOrderCycles` | lib/libc/string/lib_strcmp.c:66-75 | Three names each of which precedes the next in a circle |
| `TashSort.AgreeingIff` | lib/libc/string/lib_strcmp.c:66-75 | The library agrees with ISO C on all names of a table exactly when that holds of any two of them; seven-bit names always agree |
| `TashSort.SortedForLibrary` | lib/libc/string/lib_strcmp.c:66-75 | On such a table being in order for the library's answers is being in order for ISO C |
| `TashSort.TheoremK` | apps/shell/tash_command.c:122-133 | Sorting with gap h leaves a k-sorted table k-sorted, for any two gaps |
| `TashSort.InsertAt` | apps/shell/tash_command.c:127-131 | One insertion, comparing with the library's strcmp, moves entries only within their class and extends the gap-sorted part where the library agrees with ISO C on the names |
| `TashSort.GapPass` | apps/shell/tash_command.c:126-132 | One pass is a permutation class by class, and leaves such a table sorted for its gap |
| `TashSort.NextGapMeans` | apps/shell/tash_command.c:123-125 | The next gap is five elevenths of the last, rounded down, but at least 1 |
| `TashSort.GapsEndWithOne` | apps/shell/tash_command.c:122-125 | The gaps start below the count, strictly decrease and end with 1 |
| `TashSort.SortCmds` | apps/shell/tash_command.c:113-134 | For every count and table the result is a permutation; where the library agrees with ISO C on the names it is sorted, and sorted for every gap used |
| `TashCommands.StrncmpComparesPrefixes` | lib/libc/string/lib_strncmp.c:70-80 | strncmp over n characters is equality of the n-character prefixes |
| `TashCommands.KeyMeans` | apps/shell/tash_command.c:283-293 | Names count with their first 15 characters |
| `TashCommands.InstallAnswers` | apps/shell/tash_command.c:271-303 | 0 exactly for a new name and room, which binds that name and no other; -1 exactly for a full table; -2 exactly for a taken name; nothing changes on a refusal |
| `TashCommands.BindingsStay` | apps/shell/tash_command.c:275-288 | Later installs never exceed the limit and never change a binding |
| `TashCommands.FirstRequestWins` | apps/shell/tash_command.c:271-303 | A bound name carries the binding of the first request under its 15-character prefix |
| `TashCommands.UnboundMeansFull` | apps/shell/tash_command.c:275-279 | A requested name is unbound only if the table is full |
| `TashCommands.RearrangedHolds` | apps/shell/tash_command.c:146-149 | Sorting keeps names distinct and every binding |
| `TashCommands.CommandTable.Search` | apps/shell/tash_command.c:283-288 | The scan finds the entry of the name's prefix or shows that there is none |
| `TashCommands.CommandTable.Install` | apps/shell/tash_command.c:271-303 | Installs on the map: -1 when full, -2 when taken, else bound; the sorted flag is withdrawn |
| `TashCommands.CommandTable.InstallList` | apps/shell/tash_command.c:315-322 | Installs a list one by one |
| `TashCommands.CommandTable.Help` | apps/shell/tash_command.c:139-163 | Sorts when needed, changes no binding, and lists exactly the bound names, once each, in table order |
| `TashCommands.CommandTable.Perform` | apps/shell/tash_command.c:139-322 | After any history of installs, lists and helps the table stands for the map that the requests alone give, and each help listed exactly the names bound by then |
| `TashCommands.CommandTable.Execute` | apps/shell/tash_command.c:217-254 | Dispatches exactly the binding of the name's prefix, wherever sorting moved it |
| `TashParse.QuotedReadsEscaped` | apps/shell/tash_main.c:280-295 | Inside quotes an escaped argument is read back whatever it contains |
| `TashParse.RoundTrip` | apps/shell/tash_main.c:258-318 | For every list of arguments, quoting, joining and parsing gives the list back exactly when there are 1 to 30 arguments and none ends in a backslash |
| `TashLaws.MachineReads` | apps/shell/tash_main.c:230-356 | The grammar finds the commands that a machine taking one character at a time finds |
| `TashLaws.CommentIsIgnored` | apps/shell/tash_main.c:250-256 | A comment outside quotes is ignored to the end of the line, whatever it holds |
| `TashLaws.SeparatorSplits` | apps/shell/tash_main.c:265-270 | A semicolon or line feed separates: the commands of both sides are executed one after the other |
| `TashLaws.UnclosedQuote` | apps/shell/tash_main.c:337-342 | A quote that is never closed discards its command and only that |
| `TashLaws.PlainWords` | apps/shell/tash_main.c:242-333 | 1 to 30 words free of special characters, with any gaps between them, are one command as they stand |
| `TashLaws.ThirtyFirstToken` | apps/shell/tash_main.c:239 | Behind 30 words everything left is the last argument, or the command is discarded if that begins with a quote |
| `TashTokenizer.RemoveChar` | apps/shell/tash_main.c:57-72 | One character is closed up, nothing else changes |
| `TashTokenizer.Scanner.StepVoid` | apps/shell/tash_main.c:242-278 | A step between tokens keeps the command still to be found and shortens what is left |
| `TashTokenizer.Scanner.StepQuote` | apps/shell/tash_main.c:280-295 | A step inside quotes keeps the command still to be found and shortens what is left |
| `TashTokenizer.Scanner.StepWord` | apps/shell/tash_main.c:297-333 | A step inside a word keeps the command still to be found and shortens what is left |
| `TashTokenizer.Scanner.Finished` | apps/shell/tash_main.c:337-352 | The strings argv points to are the arguments of the command found; none after an unclosed quote |
| `TashTokenizer.ExecuteCmdline` | apps/shell/tash_main.c:230-356 | For every NUL-terminated line the parser terminates inside the buffer and executes exactly the commands of the grammar, in order |
| `TashLineEdit.TypedPlain` | apps/shell/tash_main.c:129-144 | Ordinary characters are appended, CR and LF both as LF |
| `TashLineEdit.TypedBack` | apps/shell/tash_main.c:115-127 | Backspace and delete take back the last character, and nothing on an empty line |
| `TashLineEdit.TypedTooLong` | apps/shell/tash_main.c:138-143 | A line is given up exactly when a character would make it 128 long |
| `TashLineEdit.TypedConcat` | apps/shell/tash_main.c:99-149 | The edited line does not depend on how the input is cut into reads |
| `TashLineEdit.BatchTypes` | apps/shell/tash_main.c:113-145 | A batch without a NUL directly behind a backspace or delete edits the line as typed, or finds it too long |
| `TashLineEdit.Stuck` | apps/shell/tash_main.c:113-127 | At a NUL directly behind a backspace or delete the rest of the batch only moves the position back and forth, for every number of characters left |
| `TashLineEdit.BatchExactly` | apps/shell/tash_main.c:113-145 | The exact line after any batch: as typed without such a NUL, otherwise what was typed before the first one, with or without the character to be erased |
| `TashLineEdit.BatchTypesIff` | apps/shell/tash_main.c:113-145 | Any batch edits the line as typed exactly when it holds no such NUL, or typing from the first one on leads back to the line that stuck there |
| `TashLineEdit.LastErasedNul` | apps/shell/tash_main.c:115-127 | With the NUL at the end of the batch: only if the line was given up or the character to be erased is itself a NUL |
| `TashLineEdit.ReadExactly` | apps/shell/tash_main.c:99-149 | The exact line in the buffer for every input and every cut of it into reads |
| `TashLineEdit.ReadTypes` | apps/shell/tash_main.c:99-149 | However the input is cut into reads, if every piece is fine the line is the input edited as typed |
| `TashLineEdit.InputDecides` | apps/shell/tash_main.c:99-149 | So it is for every cut if the input holds no such NUL |
| `TashLineEdit.RestIsLost` | apps/shell/tash_main.c:113-127 | Behind "ab", backspace and NUL any rest of the batch is lost: "ab" or "a" remains |
| `TashLineEdit.CutMatters` | apps/shell/tash_main.c:115-127 | With one, the same four characters give two different lines |
| `TashLineEdit.Editor.Erase` | apps/shell/tash_main.c:115-127 | The position steps back and the buffer is the old one with the rest moved up |
| `TashLineEdit.Editor.Process` | apps/shell/tash_main.c:113-145 | For any buffer and batch, the loop is the editing function of the lemmas above |
| `TashLineEdit.Editor.ReadInputLine` | apps/shell/tash_main.c:97-152 | For every input, schedule of reads and byte in front of the buffer each read takes all that is available and fits, the pieces add up to the input used and the line is exactly what the editor makes of them; with fine pieces that is all input so far, edited as typed; reading ends at an LF, a full buffer or an error, and on an empty line exactly when that byte is an LF; the line returned ends with a NUL |
| `PmUpdate.SumMeans` | os/pm/pm_activity.c:117-130 | A sample counts each positive report once with its own value, and is cut off at 32767 |
| `PmUpdate.Meter.Activity` | os/pm/pm_activity.c:117-160 | Every sample is the saturated sum of the positive priorities reported in its slice; the slice time advances exactly when a slice ends |
| `PmUpdate.Meter.EndSlice` | os/pm/pm_checkstate.c:128-147 | A slice ends exactly when its ticks have passed since the last end; its reports become one sample and the next slice starts now |
| `PmUpdate.AverageIsQuotient` | os/pm/pm_update.c:220-239 | The average is the weighted sum divided by the weights, rounded down |
| `PmUpdate.DotUpdate` | os/pm/pm_update.c:228-235 | Every remembered value counts with the weight at its place |
| `PmUpdate.AverageBetween` | os/pm/pm_update.c:210-239 | The average lies between the least and the greatest value it is taken over |
| `PmUpdate.SumFitsIff` | os/pm/pm_update.c:220-235 | The weighted sum fits int32_t for all samples exactly when the weights add up to at most 65538 |
| `PmUpdate.CalmRowMeans` | os/pm/pm_update.c:260-290 | A calm row in terms of the thresholds: no update of it is above one, and the update before it is |
| `PmUpdate.RecommendedIff` | os/pm/pm_update.c:286-323 | From any count, the next lower state is recommended exactly when it still stands from before or when the latest calm updates in a row, with the count brought along, reach the number demanded; until then the count is that number |
| `PmUpdate.FullCountNeededIff` | os/pm/pm_update.c:309-322 | A lower state takes its full count of calm updates exactly when it is entered with the count cleared or one update is enough |
| `PmUpdate.OtherwiseRecommended` | os/pm/pm_update.c:260-305 | Until then the latest busy update decides: normal above the exit threshold, else the present state |
| `PmUpdate.AsleepOnlyWakes` | os/pm/pm_update.c:260-286 | In the sleep state only activity above the exit threshold changes the recommendation |
| `PmUpdate.Run` | os/pm/pm_checkstate.c:102-158 | Over every run the recommendation is normal, the state, or one deeper, and the 16-bit count cannot wrap |
| `PmUpdate.DeepensByOne` | os/pm/pm_changestate.c:185-258 | Over every run a step deepens the state by at most one level, and only to the state recommended at that moment |
| `PmUpdate.DeepeningIsEarned` | os/pm/pm_update.c:286-323 | Over every run, state changes included, a lower state is newly recommended only by the update that completes a row of calm updates as long as its count |
| `PmUpdate.CountCarriesOver` | os/pm/pm_update.c:309-322 | There is a run in which a single update after waking up recommends IDLE although its count is three |
| `PmWorker.PartialFits` | os/pm/pm_update.c:228-235 | Every partial sum of the averaging loop fits int32_t |
| `PmWorker.Domain.Weigh` | os/pm/pm_update.c:220-239 | The loop reads the ring oldest first and returns the weighted sum divided by the weights, rounded down, which fits int16_t |
| `PmWorker.Domain.Remember` | os/pm/pm_update.c:241-245 | The new value replaces the oldest |
| `PmWorker.Domain.Judge` | os/pm/pm_update.c:260-323 | The threshold logic takes the model's step |
| `PmWorker.Domain.Worker` | os/pm/pm_update.c:170-324 | Fills the ring first, then averages, remembers and assesses |
| `PmDomain.Domain.Activity` | os/pm/pm_activity.c:117-160 | A report is kept, and a slice it ends reaches the worker as one sample |
| `PmDomain.Domain.CheckState` | os/pm/pm_checkstate.c:102-158 | A check ends a slice that is due and returns the recommendation of the model's run |
| `PmDomain.Domain.Live` | os/pm/pm_update.c:170-324 | Over any life of a domain no report is lost, slices end when their time has passed, the samples are the saturated activity of the slices, and state and recommendation are those of the run over the averaged samples and the changes, so the run theorems hold of it |
| `PmMetrics.PruningIsInvisible` | os/pm/pm_metrics.c:36-62 | Pruning never empties the history, keeps the state at every instant of the window, and leaves at most one older entry |
| `PmMetrics.TotalExact` | os/pm/pm_metrics.c:86-125 | Each total is the exact seconds in the state up to the last change, plus the whole window for the last state |
| `PmMetrics.MetricsOfHistory` | os/pm/pm_metrics.c:64-133 | The same in terms of the history before pruning, with the clock read again for the pruning |
| `PmMetrics.FullHistoryIff` | os/pm/pm_metrics.c:64-133 | Pruning costs the totals nothing exactly when it has not cut into the window, and never with one clock reading |
| `PmMetrics.TotalsAddUp` | os/pm/pm_metrics.c:86-125 | The four totals add up to D, plus last - max(ref, first) with two or more entries |
| `PmMetrics.TotalsTrueIff` | os/pm/pm_metrics.c:92-98 | The totals are the true times in state exactly when the last change is not inside the window |
| `PmMetrics.EarlyClock` | os/pm/pm_metrics.c:80-95 | While the clock is below D everything but the last entry is pruned and its state gets 2^32 - D seconds |
| `PmMetrics.History.Prune` | os/pm/pm_metrics.c:36-62 | The loop leaves the pruned history |
| `PmMetrics.TotalsMean` | os/pm/pm_metrics.c:109-130 | Each of the four fields is the time of its own state |
| `PmMetrics.History.Metrics` | os/pm/pm_metrics.c:64-133 | The loop accumulates the totals of the pruned history, and each field is the time in its own state of the history before pruning |
| `PmChange.Domain.constructor` | os/pm/pm_initialize.c:98-137 | The history starts with the normal state |
| `PmChange.Domain.Register` | os/pm/pm_register.c:86-100 | A driver is appended without touching state or history |
| `PmChange.Domain.PrepAll` | os/pm/pm_changestate.c:95-114 | Drivers are asked in order, each once, up to the first refusal; returns OK exactly when every prepare callback accepts, else that refusal |
| `PmChange.Domain.ChangeAll` | os/pm/pm_changestate.c:135-151 | Every notify callback is told the state |
| `PmChange.Domain.ChangeState` | os/pm/pm_changestate.c:185-258 | The new state is entered exactly when all accepted it in this call; afterwards every driver has been told the actual state, and the history, pruned by a second clock reading, ends with it |
| `LogRing.FormattedMeans` | os/logm/logm.c:48-61 | What a slot holds: a fitting text and its NUL, or the first bytes of the text and a line feed |
| `LogRing.PrintsExactlyIff` | os/logm/logm.c:59-61 | Printing any slot begins with the text it was meant to show, and shows exactly that exactly when the text ends inside its slot or the next byte in memory is a NUL |
| `LogRing.LongMessageRunsOn` | os/logm/logm.c:59-61 | A message that does not fit runs on into the next slot |
| `LogRing.StoreKeepsSlots` | os/logm/logm.c:48-65 | Storing overwrites no entry that has not been given back |
| `LogRing.AccountsDropped` | os/logm/logm.c:50-55 | A dropped message is covered by the notice at its place |
| `LogRing.EveryAttemptHasItsEntry` | os/logm/logm.c:48-66 | Every attempt to log has an entry at its place in the order of entries: the message itself or a notice |
| `LogRing.LogmRing.Logm` | os/logm/logm.c:40-79 | Stores the message, or the notice in the extra slot, or drops; every attempt stays accounted for, and a full ring ends with a notice |
| `LogRing.LogmRing.Print` | os/logm/logm_process.c:44-45 | Entries are printed once each in order: every line begins with its entry's text, and is that alone if the text ends inside its slot |
| `LogRing.LogmRing.Advance` | os/logm/logm_process.c:46-49 | Moving the head keeps the entry until it is given back |
| `LogRing.LogmRing.Decrement` | os/logm/logm_process.c:50 | Giving the slot back frees exactly the printed entry |
| `LogRing.LogmRing.Interleave` | os/logm/logm_process.c:43-53 | Over every interleaving of producers with the consumer's steps, each step moves the ring as the code does, every attempt is accounted for in order and the entries are printed once each, in order, each line as told for Print |

## Assumptions

- Calls on the cache are atomic; the release of `rhsem` that is missing on an error return is not modelled. Both
  orders of arguments in the device callbacks mean the plain device read and write. A device transfer succeeds or
  fails as a whole, depending on its range and on a set of bad blocks.
- While a CAN writer sleeps no other writer runs. A writer's buffer holds whole messages and at most a piece of a
  header behind them, with at most eight data bytes per message and standard identifiers. The hardware completes
  only messages it was given.
- Weights of the moving average are not negative. The state is changed only to the recommendation of the moment, and
  the worker runs before the next report, check or change.
- The consumer's decrement of the log count is atomic, and the system is ready and not in interrupt context.
- strncmp, memcpy, vsnprintf, clocks, semaphores and the work queue behave as their standards say; command names
  contain no NUL before their end. A byte read behind the line buffer does not matter, because its bound is tested
  together with it.

## Left out

- RwRuns.RunRefines: assumes that no window is loaded over a differing dirty block, because the code does not check it; RwRuns.CleanExactly shows that this is exactly what is needed.
- TashSort.SortCmds: says nothing about the order of a table on whose names the library's strcmp differs from ISO C, because its answers need not be an order (TashSort.LibraryOrderCycles).
- LogRing.LogmRing.Print: treats one fputs as a single step; the memory behind the ring is any string given to it.
- PmMetrics.History.Metrics: totals are unbounded integers; for windows below 2^31 seconds they fit time_t.
- rwb_invalidate and its two parts, rwb_mediaremoved, rwb_readbytes: the end-of-buffer cases of invalidation keep the wrong count, so no run property covers them.
- CAN open and close, remote requests (RTR), extended identifiers, ioctl: reference counts and unseen hardware.
- Echo to the console, task launch, script files, sleep, tash_get_cmdpair: plumbing around the shell.
- pm_procfs, pm_debug, the other drivers, syscalls, file systems and networking: they would only add easy members.
