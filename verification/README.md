# Verified model of the Raspberry Pi 5 board support package

A Dafny model of eight parts of the board support package, with proofs that
they do what they are for. `dafny verify dfyconfig.toml` checks all of it.

| files | component |
|---|---|
| `OtaText`, `OtaVersion`, `OtaConfig`, `OtaPending`, `OtaProtocol`, `OtaClient` | the A/B update client |
| `SpiTransfer` | the interrupt-driven full-duplex SPI transfer |
| `I2cMaster` | the interrupt-driven I2C master |
| `AsRanges`, `AsTable` | the address-space table and `as_add_containing` |
| `BootArgs`, `FdtCmdline` | the packed boot-argument editor and its tokenizer |
| `Callouts` | the two passes over the kernel callouts |
| `RamList` | the list of free RAM and its allocator |
| `EfiSort`, `ElfLoad`, `Calendar` | heapsort of the EFI memory map, ELF segment mapping, calendar conversions |
| `Common` | `Option`, `Byte`, `Min` |

**The update client.** `OtaProtocol` is a transition system over the device:
`config.txt` and its backup, the two slot images, `ota_pending`, `ota_version`,
the witness file in RAM, both clocks and the running slot. One step is one file
operation, one clock step or one reboot. A killed process changes nothing, so
every prefix of a run is a run. `Allowed` says what is known when a step is
taken. No case of it mentions the running slot. The number of the boot occurs
in `MayArm`, where the client has just written the record itself, and in
`ClockSane`, which limits what the environment may do to the clock in a `Tick`.
`InvAlways`, `RunIsSafe` and `CommittedIncreases` speak about every run.
`OtaClient.Client` is the client: each of its file operations may succeed, fail
or be the last thing the process does, and its methods are proved to take only
allowed steps. `Life` strings processes and reboots together and draws the
conclusions. What a process does that nothing disturbs is a function of the
device and the server's answers (`SettledAtStart`, `RoundsDone`): it commits a
switch the machine has rebooted into, drops a stale record, and switches to the
first answer that is newer. `UndisturbedUpdate` takes an update through a
process, a reboot and the next process.

Some of what the client is meant to guarantee fails in corners, and each corner
has its exact condition. A failed switch does not always leave `kernel=` on the
old slot: restoring the backup can leave `config.txt` without a `kernel=` line
(`RestoreConfigBackup`, `SetActiveIfs`, and over runs `KernelKeptExactly`). A
switch that succeeds does not always keep the other lines of `config.txt`: if
the file cannot be opened for the rewrite, a file with nothing but the
`kernel=` line replaces it (`SettingsAreLost`), and the other lines are kept if
and only if there were none (`RewriteOfNothing`, on the client `SetActiveIfs`). A
stale backup can name the target slot (`RestoreThenRemove`). A record that
cannot be opened while a switch awaits its reboot lets the next update write
into the running slot (`UnreadableRecordHitsRunningSlot`). A newline in a
version text garbles the record (`PendingRoundTripExact`), and a clock stepped by
more than five seconds looks like a reboot (`FallbackInSameBoot`,
`FallbackAfterReboot`).

**SPI and I2C.** The controller is a FIFO, a shifter (or bus) and a FIFO that
move words at any moment, between any two register accesses of the driver.
What was sent, received and issued is recorded in ghost state, and the drivers'
counters are proved to agree with it through every interrupt. The I2C master
also keeps the history of its transactions; the protocol between them is an
invariant of that history. Both also get through: interrupts that come when the
queued words or commands have gone out, and without trouble, end the transfer
after a number of them that is stated (`Spi.Wait`, `WaitComplete`), so under
favourable conditions every call of a sequence succeeds (`RunCalls`). One corner is open there too: without a STOP, an
abort that comes after the interrupt status was read looks like the end of the
transaction, and all was sent if and only if it had gone out before
(`AbortRaceLooksDone`).

**Address ranges, boot arguments, callouts, free RAM, heapsort, ELF,
calendar.** Each is the algorithm in its own imperative form, proved against a
specification that does not mention it: the innermost owner of each address, an
edit of two lists of strings, disjoint areas behind a page-rounded base, the set
of free addresses, a sorted permutation,
the contents the System V ABI prescribes for a loaded segment, and a calendar
counted year by year and month by month.

`calc_time_t` and `_gmtime` use different calendars. `RoundTrip` says when they
are inverse, `CalcAgainstGregorian` and `GmTimeAgainstGregorian` until when each is
right. The ELF loader's `boot_vaddr_base` treats 0 as "not set";
`BaseIsLeast` says exactly when the recorded base is the lowest page anyway.
The search for room keeps only the larger piece around a range to be avoided and
can miss room that is there (`RoomIsMissed`); it fails exactly when there is
none if no such range lies in the middle of a block (`SearchExact`). On a secure
system the allocator zeroes RAM through an address cut to 32 bits;
`ClearedInPlace` says exactly when that zeroes the RAM handed out and nothing
else. The size of a boot-argument structure is stored in two bytes; `DoAdjust`
edits the strings correctly at any size, and the structure is consistent
afterwards if and only if the new size fits.

Several lemmas carry `{:induction false}`: their proofs are given in full and
nothing rests on automatic induction.

## Model

| member | source | states |
|---|---|---|
| OtaText.TrimmedPadded | src/ota/ota_client.cpp:227-238 | trimming removes exactly the blanks around a trimmed text |
| OtaText.LinesOfRender | src/ota/ota_client.cpp:297-323 | a file written one line at a time reads back as the same lines |
| OtaText.ParseOfShow | src/ota/ota_client.cpp:640-675 | a printed integer parses back to itself whatever follows it |
| OtaVersion.NewerIsStrictOrder | src/ota/ota_client.cpp:133-140 | "newer" is irreflexive and transitive on all strings and total, up to equal numbers, on parsable ones |
| OtaVersion.PublishedVersionParses | src/ota/ota_client.cpp:114-131 | year.week.seq, with or without leading zeros, parses to those numbers and a plain N to 0.0.N |
| OtaVersion.NewerByNumbers | src/ota/ota_client.cpp:114-140 | newer means a later year, in the same year a later week, in the same week a higher number; a plain number counts as year 0, week 0 |
| OtaVersion.MalformedVersion | src/ota/ota_client.cpp:114-131 | a text with one dot, or one that does not start like a number, is no version |
| OtaText.ParseOfPadded | src/ota/ota_client.cpp:114-131 | leading zeros do not change a number, whatever follows it |
| OtaConfig.KernelLineExact | src/ota/ota_client.cpp:227-238 | a line names n if and only if it spells kernel= behind an indent, then n among blanks, then nothing or a comment |
| OtaConfig.GetActiveIfs | src/ota/ota_client.cpp:243-260 | the loop returns the name of the first effective kernel= line, and fails exactly if there is none |
| OtaConfig.RewriteLines | src/ota/ota_client.cpp:297-311 | the loop relabels exactly the effective lines and adds one only if there was none |
| OtaConfig.WrittenLineReadsBack | src/ota/ota_client.cpp:227-238 | the line the client writes is effective and names the new image |
| OtaConfig.SwitchIsExact | src/ota/ota_client.cpp:297-323 | for every text read, the text written has n as its active image, every line that named no kernel keeps place and text, every one that did names n, and only a text without one gains a line |
| OtaConfig.SwitchIsIdempotent | src/ota/ota_client.cpp:284-338 | switching twice to the same image leaves the file that switching once leaves |
| OtaConfig.RewriteOfNothing | src/ota/ota_client.cpp:297-323 | when config.txt cannot be opened, the file written in its place keeps all lines that named no kernel if and only if there were none |
| OtaConfig.SettingsAreLost | src/ota/ota_client.cpp:297-323 | a concrete config.txt whose first line is lost that way |
| OtaPending.PendingRoundTrip | src/ota/ota_client.cpp:619-679 | all five fields of the record survive the file |
| OtaPending.PendingRoundTripExact | src/ota/ota_client.cpp:640-679 | a record with a trimmed version text survives if and only if the text holds no newline |
| OtaPending.FallbackInSameBoot | src/ota/ota_client.cpp:682-693 | without the witness file, "rebooted" is answered in the same boot if and only if the clock was stepped forward by more than 5 s |
| OtaPending.FallbackAfterReboot | src/ota/ota_client.cpp:682-693 | after a reboot it is answered if and only if the uptime is below the recorded one, or recorded uptime, gap and clock step exceed 5 s |
| OtaPending.OldRecordIsRebooted | src/ota/ota_client.cpp:655-693 | a record in the older format, slot and version only, reads as such and as rebooted at any time |
| OtaPending.IncompleteIsRebooted | src/ota/ota_client.cpp:682-693 | so does one that has lost a switch time, unless its witness file is still there |
| OtaProtocol.TwoSlots | src/ota/ota_client.cpp:838 | the target is one of two slots, and they alternate |
| OtaProtocol.VersionFileReads | src/ota/ota_client.cpp:199-209 | the version is the first line without the blanks around it; a missing file or a blank line is version 1 |
| OtaProtocol.InvStep | src/ota/ota_client.cpp:619-775 | every allowed step keeps the invariant |
| OtaProtocol.FactoryInv | src/ota/ota_client.cpp:199-209 | a device as delivered satisfies the invariant |
| OtaProtocol.InvAlways | src/ota/ota_client.cpp:697-884 | the invariant holds in every state of every run |
| OtaProtocol.StepIsSafe | src/ota/ota_client.cpp:697-884 | one step changes the version file only after a true reboot into the recorded slot, never touches the slot kernel= names or the running one, and moves kernel= only to a complete newer image |
| OtaProtocol.RunIsSafe | src/ota/ota_client.cpp:697-936 | the same for every step of every run, and whenever no switch is under way the version file is the version of the image kernel= names, which is running |
| OtaProtocol.KernelKeptExactly | src/ota/ota_client.cpp:263-338 | kernel= names a complete image in every state of a run if and only if no step puts a file without a kernel= line in place of config.txt |
| OtaProtocol.LossIsRestore | src/ota/ota_client.cpp:263-281 | an allowed step that leaves config.txt without a kernel= line writes nothing or the backup into it |
| OtaProtocol.CommittedRuns | src/ota/ota_client.cpp:720-728 | the committed version is the version of the image that runs |
| OtaProtocol.CommittedStep | src/ota/ota_client.cpp:720-728 | one step keeps the committed version or makes it strictly newer |
| OtaProtocol.CommittedIncreases | src/ota/ota_client.cpp:720-728 | over any run the committed version is the same or strictly newer |
| OtaProtocol.RestoreThenRemove | src/ota/ota_client.cpp:263-335 | restoring a backup and removing the target leaves kernel= on a complete image if and only if the backup names a complete image other than the target |
| OtaProtocol.TargetIsRunningSlot | src/ota/ota_client.cpp:838 | the slot an update would choose is the running one if and only if a switch of this boot awaits its reboot |
| OtaProtocol.UnreadableRecordHitsRunningSlot | src/ota/ota_client.cpp:655-660 | if the record could not be opened, writing that slot would break the invariant if and only if a switch of this boot awaits its reboot |
| OtaClient.VersionTextReadsBack | src/ota/ota_client.cpp:199-222 | the version file the client writes reads back as the version |
| OtaClient.Client.Take | src/ota/ota_client.cpp:619-775 | an allowed operation extends the recorded legal run and keeps the invariant |
| OtaClient.Client.GetActive | src/ota/ota_client.cpp:243-260 | an answer is what kernel= names |
| OtaClient.Client.ClearPending | src/ota/ota_client.cpp:649-653 | removes record and witness only, and never makes the record apply again |
| OtaClient.Client.WritePendingRecord | src/ota/ota_client.cpp:619-647 | success means the record names target and version, in this boot, and does not look rebooted |
| OtaClient.Client.RestoreConfigBackup | src/ota/ota_client.cpp:263-281 | afterwards config.txt is untouched, truncated or the backup, by which files opened, and kernel= names what it named before, or nothing; it is kept if and only if there is no backup, config.txt could not be opened, or the backup could be read and names a slot |
| OtaClient.Client.BackUpConfig | src/ota/ota_client.cpp:287-295 | changes nothing but the backup, which is the file, empty or as before, by which of the two files could be opened |
| OtaClient.Client.SetActiveIfs | src/ota/ota_client.cpp:284-338 | it succeeds exactly if the temporary file opens, syncs and is renamed; config.txt is then the rewritten text, otherwise untouched or what restoring leaves; success means kernel= names the target, and every line that named no kernel is kept if and only if config.txt could be opened for the rewrite or had no such line; after a failure it names the old slot if and only if nothing was to be restored or restoring keeps it, and no slot otherwise |
| OtaClient.Client.DownloadAndVerify | src/ota/ota_client.cpp:845-863 | a verified download means the target holds the whole image of that version; undisturbed, it is verified exactly if the image arrives and passes its checks, and a download that breaks off leaves no file |
| OtaClient.Client.AbortBeforeSwitch | src/ota/ota_client.cpp:850-854 | no switch is under way afterwards, kernel= and version file are untouched; undisturbed, image and record are gone |
| OtaClient.Client.TryApplyUpdate | src/ota/ota_client.cpp:826-884 | true: kernel= names the other slot with this version pending, and the other lines of config.txt are kept under the condition of SetActiveIfs; false: nothing is switched, the version file is untouched, and kernel= is kept under the same condition; undisturbed, the switch is reached exactly if there is space and the image arrives and is intact, and a failed update leaves neither image nor record |
| OtaClient.Client.SettlePendingOnBoot | src/ota/ota_client.cpp:697-740 | a switch is settled only in a later boot than its record, and then the version file holds its version; otherwise the version file is untouched; undisturbed, the device ends as SettledAtStart says |
| OtaClient.Client.CommitVersion | src/ota/ota_client.cpp:719-728 | the version is committed only after a true reboot; success means it is on file, failure keeps the record |
| OtaClient.Client.PendingBlocksUpdate | src/ota/ota_client.cpp:746-775 | not blocking means no switch is under way; blocking changes nothing; a reboot is asked for only while one is; undisturbed it blocks exactly while one is or the record cannot be judged, and drops a stale record |
| OtaClient.ColdStartCommits | src/ota/ota_client.cpp:697-728 | a start after a true reboot puts the pending version on file and ends the transaction, kernel= and images as they were |
| OtaClient.RoundsNext | src/ota/ota_client.cpp:901-931 | one more round adds one more answer to what the rounds have done |
| OtaClient.Client.Round | src/ota/ota_client.cpp:902-931 | one round, killed anywhere, changes kernel= and version file only for a newer answer while no switch is pending; undisturbed it switches to an answer that is newer and can be fetched, and otherwise only drops a stale record |
| OtaClient.Client.OtaLoop | src/ota/ota_client.cpp:888-936 | a whole process, killed anywhere, leaves a legal run and the invariant and asks for a reboot only while a switch awaits it; undisturbed it settles first, then changes nothing if a switch awaits its reboot or no answer is newer, and otherwise ends switched to the first answer that is newer and can be fetched |
| OtaClient.Client.UndisturbedUpdate | src/ota/ota_client.cpp:697-884 | an update in which nothing fails, through one process, a reboot and the next process, ends with the first newer image running, named by kernel= and on file, no record left, and the other lines of config.txt kept |
| OtaClient.Client.Life | src/ota/ota_client.cpp:888-936 | over any sequence of processes, answers and reboots every step is safe, the committed version never goes back, and kernel= is lost only in a step that writes nothing, or the backup of that moment, into config.txt; undisturbed, every process does what OtaLoop promises |
| SpiTransfer.Spi.PrepareForTransfer | src/hardware/spi/dwc/xfer.c:87-159 | accepts exactly the valid width, rate and length, and then the words make up the bytes of the longer direction |
| SpiTransfer.Spi.WriteFifo | src/hardware/spi/dwc/intr.c:153-171 | queues the next words of the caller's buffer and loses none |
| SpiTransfer.Spi.ReadFifo | src/hardware/spi/dwc/intr.c:180-195 | stores the next received words in order and leaves unsent words alone |
| SpiTransfer.Spi.Drain | src/hardware/spi/dwc/intr.c:229-231 | takes at least what was in the receive FIFO |
| SpiTransfer.Spi.ProcessInterrupts | src/hardware/spi/dwc/intr.c:203-267 | DONE: the words sent are the original buffer and it holds the words received; CONTINUE: the exchange invariant holds with progress, half a FIFO if all queued words were shifted; error exactly on the two error bits |
| SpiTransfer.Spi.Refill | src/hardware/spi/dwc/intr.c:242-261 | after refilling, the receive threshold is at most the words in flight |
| SpiTransfer.Spi.Wait | src/hardware/spi/dwc/intr.c:275-353 | EOK only with the finished exchange, EIO only on an error bit, a timeout only without one; without one, as many drained wake-ups as half FIFOs make up the exchange are enough |
| SpiTransfer.Spi.Start | src/hardware/spi/dwc/xfer.c:196-224 | prefill and thresholds establish the exchange invariant on the buffer as it was |
| SpiTransfer.Spi.Xfer | src/hardware/spi/dwc/xfer.c:171-238 | EBUSY exactly on a busy controller, EINVAL exactly on a width, rate or length that does not fit; otherwise EOK if enough drained wake-ups come without an error bit, and then the bus saw exactly the caller's buffer, which now holds exactly the received words; a refused transfer leaves the buffer alone |
| SpiTransfer.WordBytes | src/hardware/spi/dwc/xfer.c:100-105 | bytes per word hold the word width |
| SpiTransfer.NarrowExact | src/hardware/spi/dwc/intr.c:105-146 | storing a word keeps its low bytes, as many as an element has, so a word of the prepared width survives |
| SpiTransfer.DrainedMeansInterrupt | src/hardware/spi/dwc/intr.c:252-261 | no stall: in every unfinished state, once the queued words have been shifted the receive interrupt is asserted |
| SpiTransfer.FifosNeverOverrun | src/hardware/spi/dwc/intr.c:229-250 | the two FIFOs together hold exactly the words in flight, at most half a FIFO |
| I2cMaster.StreamExact | src/hardware/i2c/dwc/wait.c:172-205 | the stream is the one bus transaction that sends the bytes and then reads: data before reads, a repeated START exactly where the direction changes, in front exactly on an open bus, a STOP at most at the end |
| I2cMaster.TarDeterminesSlave | src/hardware/i2c/dwc/init.c:189-197 | the address register tells any two slaves and formats apart |
| I2cMaster.SurplusCheckExact | src/hardware/i2c/dwc/wait.c:131-134 | the 32-bit check for surplus bytes is right if and only if the sum does not wrap |
| I2cMaster.ExecuteKeepsLink | src/hardware/i2c/dwc/wait.c:66-229 | the controller executing a command keeps counters and bus history in agreement |
| I2cMaster.WriteKeepsLink | src/hardware/i2c/dwc/wait.c:203-208 | so does queueing the next command of the stream |
| I2cMaster.ReadKeepsLink | src/hardware/i2c/dwc/wait.c:142-144 | so does taking a byte, which is the next one received |
| I2cMaster.OverwriteKeepsLink | src/hardware/i2c/dwc/wait.c:216-217 | so does a received byte that lands on data still to be sent, when both share a buffer |
| I2cMaster.ExecuteKeepsFlow | src/hardware/i2c/dwc/wait.c:154-210 | while nothing goes wrong every read brings its byte and the receive FIFO has room for it |
| I2cMaster.Master.HandleStopDet | src/hardware/i2c/dwc/wait.c:97-122 | takes the rest of the bytes exactly if they complete the count, and reports ERROR otherwise; nothing is written behind them |
| I2cMaster.Master.HandleRxFull | src/hardware/i2c/dwc/wait.c:124-152 | takes what is there, but never more than asked for, and reports ERROR exactly on a surplus |
| I2cMaster.Master.HandleTxEmpty | src/hardware/i2c/dwc/wait.c:154-210 | every command written is the next one of the stream; as many are written as there are left or the queue had room for, and the interrupt goes off only when nothing is left to queue |
| I2cMaster.Master.HandleNoStop | src/hardware/i2c/dwc/wait.c:212-226 | without a STOP the end means everything queued and read and an empty queue; then everything was sent, unless the transaction was aborted; it returns with all bytes read or the receive FIFO empty |
| I2cMaster.MoveKeepsLink | src/hardware/i2c/dwc/wait.c:66-229 | every move of the controller and of the handler's loops keeps counters and history in agreement, and after an abort nothing more is sent |
| I2cMaster.AbortRaceLooksDone | src/hardware/i2c/dwc/wait.c:212-226 | an abort at any time, whatever follows it: once everything counts as written the queue is empty, which the handler takes for the end, and all was sent if and only if it had gone out before the abort; if only requested bytes arrive, having read all of them means all was sent |
| I2cMaster.Master.DrainedMeansIrq | src/hardware/i2c/dwc/wait.c:154-226 | no stall: once all that was queued has been executed, an unfinished transaction in which nothing went wrong raises an interrupt |
| I2cMaster.Master.ProcessIntr | src/hardware/i2c/dwc/wait.c:66-229 | any interrupt keeps the transaction invariant; an abort ends it with a cause, a STOP seen ends it; with the queue at most half full and the interrupt on, commands are written until none is left or it is full; exactly DONE means all commands queued and all bytes read, and with a STOP or without an abort all commands put on the bus; when all that was queued is executed and nothing goes wrong it writes on or ends with exactly DONE |
| I2cMaster.Master.Conclude | src/hardware/i2c/dwc/wait.c:312-321 | lost arbitration or an error costs exactly one reset and nothing else does; exactly DONE leaves the whole stream issued and all bytes in place |
| I2cMaster.Master.WaitComplete | src/hardware/i2c/dwc/wait.c:283-325 | whatever the outcome the issued commands are a prefix of the stream, sent to the current slave; exactly DONE means all of it; one untroubled interrupt per queue-full of commands and one more end with exactly DONE |
| I2cMaster.Master.Reset | src/hardware/i2c/dwc/wait.c:231-281 | forgets the open transaction; it succeeds exactly if one of three attempts finds the adapter off, and then that is off, empty and silent |
| I2cMaster.Master.BusActive | src/hardware/i2c/dwc/init.c:142-212 | it fails exactly if the bus is open for another slave, or, when it is not open, stays busy through all polls or the adapter does not switch off and on; success means the adapter is enabled and addressed to the current slave, with RESTART pending exactly if a transaction was open; how many resets it costs is stated |
| I2cMaster.Master.WriteTar | src/hardware/i2c/dwc/init.c:189-195 | the address register is written only with the adapter off and no open transaction |
| I2cMaster.Master.LeaveBus | src/hardware/i2c/dwc/sendrecv.c:83-96 | the bus stays open exactly after DONE without STOP; with a STOP the adapter is switched off |
| I2cMaster.Master.SetSlaveAddr | src/hardware/i2c/dwc/slave_addr.c:45-71 | accepts exactly the valid addresses and leaves the old one otherwise |
| I2cMaster.Master.Transfer | src/hardware/i2c/dwc/sendrecv.c:69-98 | one transaction enters the history, with the data as given and the bytes delivered when it is DONE; BUSY exactly if the bus cannot be claimed, and DONE when untroubled |
| I2cMaster.Master.Send | src/hardware/i2c/dwc/send.c:45-93 | the history grows by one transaction with exactly this data and keeps the protocol; BUSY exactly if the bus cannot be claimed, and DONE when untroubled |
| I2cMaster.Master.Recv | src/hardware/i2c/dwc/recv.c:45-93 | on DONE the buffer starts with the bytes received, in order; nothing behind them changes; BUSY exactly if the bus cannot be claimed, and DONE when untroubled |
| I2cMaster.Master.SendRecv | src/hardware/i2c/dwc/sendrecv.c:45-99 | both, even when data and reply share one buffer; lengths whose sum overflows are refused; the data sent is the data given unless bytes nobody asked for may overwrite it; BUSY exactly if the bus cannot be claimed, and DONE when untroubled |
| I2cMaster.ChainedExtend | src/hardware/i2c/dwc/init.c:148-161 | a further transaction keeps the protocol between transactions |
| I2cMaster.RestartExactly | src/hardware/i2c/dwc/init.c:148-161 | the first command carries the RESTART if and only if the previous transaction ended with DONE and no STOP |
| I2cMaster.RunCall | src/hardware/i2c/dwc/sendrecv.c:45-99 | one call adds exactly the transaction it asks for, if any, for the slave set last; under favourable conditions it succeeds, unless the bus was left open for another slave |
| I2cMaster.RunCalls | src/hardware/i2c/dwc/sendrecv.c:45-99 | any sequence of calls adds exactly the transactions asked for, in order, each for the slave set last, all following the protocol; under favourable conditions every one succeeds but those that find the bus open for another slave |
| AsRanges.SplitOwners | src/hardware/startup/lib/as_add_containing.c:99-132 | splitting a range gives the piece to its new owner and the rest to the old one |
| AsRanges.InsertParts | src/hardware/startup/lib/as_add_containing.c:80-135 | what the list looks like around the range that was split |
| AsRanges.InsertDisjoint | src/hardware/startup/lib/as_add_containing.c:80-135 | the list stays disjoint |
| AsRanges.InsertOwners | src/hardware/startup/lib/as_add_containing.c:80-135 | a clean claim changes the owner exactly on its piece |
| AsRanges.InsertFits | src/hardware/startup/lib/as_add_containing.c:80-135 | later pieces still fit the list |
| AsRanges.InsertPiece | src/hardware/startup/lib/as_add_containing.c:80-135 | the walk along any list computes that insertion |
| AsRanges.InsertExact | src/hardware/startup/lib/as_add_containing.c:80-135 | for every claim, fitting or not: the ranges stay disjoint if and only if the claim meets no range, or only the one that holds its start and `piece_end + 1` does not wrap inside it |
| AsRanges.NeverRecovers | src/hardware/startup/lib/as_add_containing.c:80-135 | ranges that overlap keep overlapping |
| AsRanges.InsertAllExact | src/hardware/startup/lib/as_add_containing.c:72-136 | for all claims together: the ranges are disjoint in the end if and only if every claim was clean when it was made |
| AsTable.OverlapExact | src/hardware/startup/lib/as_find_containing.c:72-74 | the three tests together mean that entry and range share an address |
| AsRanges.MatchesByPath | src/hardware/startup/lib/as_find_containing.c:50-56 | an entry matches if and only if a path from entry to owner leads from it to an entry with the name |
| AsTable.Table.MatchName | src/hardware/startup/lib/as_find_containing.c:50-56 | the walk finds whether an entry or one of its owners has the name |
| AsTable.Table.FindContaining | src/hardware/startup/lib/as_find_containing.c:59-79 | the first matching, overlapping entry behind a position, none skipped |
| AsTable.Table.SplitByOwners | src/hardware/startup/lib/as_add_containing.c:69-136 | the loop makes the claims of all matching, overlapping entries, in the order of the table |
| AsTable.ClaimedExact | src/hardware/startup/lib/as_add_containing.c:69-136 | the pieces are disjoint if and only if every entry claims its part cleanly |
| AsTable.SoundOwners | src/hardware/startup/lib/as_add_containing.c:69-136 | disjoint pieces give each address its innermost matching owner |
| AsTable.NestedClaimsCleanly | src/hardware/startup/lib/as_add_containing.c:69-136 | in a nested table every entry claims its part cleanly |
| AsTable.Table.AsAdd | src/hardware/startup/lib/as_add64.c:51-84 | one entry, its owner marked, and an overlay entry owned by it if asked for |
| AsTable.Table.EmitChain | src/hardware/startup/lib/as_add_containing.c:137-148 | one entry per piece that is not empty, all but the last CONTINUED, the owners marked |
| AsTable.Table.AddOverlays | src/hardware/startup/lib/as_add_containing.c:149-158 | one overlay entry per piece, owned by it, behind the chain |
| AsTable.Table.AsAddContaining | src/hardware/startup/lib/as_add_containing.c:58-161 | for any table: the pieces form one chain, then their overlays, and old entries only gain the KIDS bit; the pieces are disjoint exactly if every entry claims cleanly, as in a nested table, and then each has the innermost owner |
| AsTable.PiecesPartitionRange | src/hardware/startup/lib/as_add_containing.c:69-136 | the pieces cover exactly the range cut with the matching entries, no address twice, innermost owner each |
| AsTable.UnnestedEntriesOverlap | src/hardware/startup/lib/as_add_containing.c:80-135 | three concrete entries, one across two neighbours, for which the pieces overlap |
| AsTable.OwnersAreClimbed | src/hardware/startup/lib/as_find_containing.c:50-56 | a concrete table in which a child without the name is the innermost owner |
| AsTable.Table.ChainOfPieces | src/hardware/startup/lib/as_add_containing.c:137-158 | the chain from the first piece ends at the last one |
| AsTable.Table.SetPriority | src/hardware/startup/lib/as_set_priority.c:50-58 | changes the priority of that chain and nothing else |
| BootArgs.PackConcat | src/hardware/startup/lib/bootstrap_cmdline.c:60-70 | packing distributes over joining lists |
| BootArgs.FirstIndex | src/hardware/startup/lib/bootstrap_cmdline.c:65-70 | the first match |
| BootArgs.ListEffect | src/hardware/startup/lib/bootstrap_cmdline.c:78-101 | an edit of either list is one exchange of bytes in the packed buffer |
| BootArgs.Bootargs.Splice | src/hardware/startup/lib/bootstrap_cmdline.c:92-97 | the move that starts before p followed by the copy is a splice; nothing in front of p or behind the new end changes |
| BootArgs.Bootargs.Search | src/hardware/startup/lib/bootstrap_cmdline.c:60-75 | the place of the edit: the first match, or the end of the list |
| BootArgs.Bootargs.Locate | src/hardware/startup/lib/bootstrap_cmdline.c:105-114 | the same in the list selected, with the other one skipped |
| BootArgs.Bootargs.DoAdjust | src/hardware/startup/lib/bootstrap_cmdline.c:49-114 | editing in place refines editing the lists: append, replace or delete the first match, the other list and the trailing bytes preserved, counts right; 16 bits of the new size are stored, so the structure is consistent if and only if it is below 64 KiB; memory is needed only for the growth |
| BootArgs.Bootargs.SizeIsContents | src/hardware/startup/lib/bootstrap_cmdline.c:91-100 | the stored size is the size of what is stored |
| FdtCmdline.WordsOfSpaced | src/hardware/startup/lib/fdt_tweak_cmdline.c:54-78 | cutting undoes joining, with any gap in front of each word and any spaces behind the last |
| FdtCmdline.KthCallKthSegment | src/hardware/startup/lib/fdt_tweak_cmdline.c:115-120 | after k segments were read the next one is segment k, or nothing |
| FdtCmdline.Cmdline.FindNextArg | src/hardware/startup/lib/fdt_tweak_cmdline.c:54-78 | closes the next word in place and leaves the text after it |
| FdtCmdline.Cmdline.Load | src/hardware/startup/lib/fdt_tweak_cmdline.c:92-113 | copies the property once; nothing to read if there is none |
| FdtCmdline.Cmdline.NextWord | src/hardware/startup/lib/fdt_tweak_cmdline.c:116-117 | takes exactly the first word off the unread text, and none only if there is none |
| FdtCmdline.Cmdline.AppendSegment | src/hardware/startup/lib/fdt_tweak_cmdline.c:115-120 | the loop appends the words up to the next "--" |
| FdtCmdline.Cmdline.TweakCmdline | src/hardware/startup/lib/fdt_tweak_cmdline.c:87-121 | appends exactly the words of the next segment to argv and leaves the rest unread |
| FdtCmdline.Cmdline.TweakAll | src/hardware/startup/lib/fdt_tweak_cmdline.c:87-121 | over one call per executable, the k-th argv gains exactly the k-th segment, those beyond the last segment nothing, and all else is kept |
| Callouts.AreasAreDisjoint | src/hardware/startup/lib/callouts.c:128-141 | different keys never share a byte, and every area lies inside the reported size |
| Callouts.LinkKeepsChain | src/hardware/startup/lib/add_cache.c:72-76 | a newly hooked section extends the chain at its head |
| Callouts.Output.Install | src/hardware/startup/lib/add_interrupt.c:89-93 | the chain visits each installed section once, the base last |
| Callouts.Output.SizeOne | src/hardware/startup/lib/callouts.c:126-143 | code is added up, read/write data once for each key in use and for no other |
| Callouts.Output.FindArea | src/hardware/startup/lib/callouts.c:152-155 | the walk finds the area of the key |
| Callouts.Output.SizeSection | src/hardware/startup/lib/callouts.c:244-266 | every routine of a section is counted |
| Callouts.Output.EmitOne | src/hardware/startup/lib/callouts.c:145-177 | code goes behind what was emitted, with the area of its key; the pointer is its kernel address |
| Callouts.Output.EmitSection | src/hardware/startup/lib/callouts.c:244-266 | every pointer of a section is redirected, NULLs are kept |
| Callouts.Output.SizingPass | src/hardware/startup/lib/callouts.c:94-111 | the size of all routines in the chain and of one read/write area for each key they use |
| Callouts.Output.EmittingPass | src/hardware/startup/lib/callouts.c:94-111 | all routines in the chain are placed and all pointers redirected |
| Callouts.Output.AllocateAndWrite | src/hardware/startup/lib/syspage_memory.c:162-219 | both passes around an allocation in which the system page may grow |
| Callouts.EmittedAsPromised | src/hardware/startup/lib/callouts.c:113-177 | copies do not overlap and fit the promised size; equal keys share one area, different keys none, inside the promised region |
| Callouts.EveryAreaIsUsed | src/hardware/startup/lib/callouts.c:126-155 | every read/write area reserved is the one some placed routine was given |
| Callouts.ReservationSuffices | src/hardware/startup/lib/syspage_memory.c:179-182 | the reserved memory holds it all even if the system page grew by the slack |
| RamList.RoundIsLeast | src/hardware/startup/lib/public/startup.h:168-169 | rounding gives the least multiple that is not below |
| RamList.TrimmedLosesNothing | src/hardware/startup/lib/ram.c:136-169 | keeping clear of ranges at the edges of a candidate loses no clear stretch |
| RamList.SearchFits | src/hardware/startup/lib/ram.c:225-281 | what is found lies in a free block, aligned, clear of everything to be avoided |
| RamList.SearchExact | src/hardware/startup/lib/ram.c:225-281 | without a range to be avoided in the middle of a block the search fails exactly if there is no room |
| RamList.RoomIsMissed | src/hardware/startup/lib/ram.c:136-169 | a concrete block and two ranges for which room is missed |
| RamList.TidyIsUnique | src/hardware/startup/lib/ram.c:103-134 | a list without empty or touching blocks is determined by the addresses it holds |
| RamList.Ram.FindRam | src/hardware/startup/lib/ram.c:225-281 | the two loops are that search |
| RamList.Ram.AddMem | src/hardware/startup/lib/ram.c:103-134 | exactly the stretch becomes free, and touching blocks are joined |
| RamList.Ram.TakeOut | src/hardware/startup/lib/ram.c:314-337 | exactly the stretch is no longer free; blocks go, shrink or split |
| RamList.Ram.AllocRam | src/hardware/startup/lib/ram.c:296-337 | an allocation is aligned, was free, touches nothing to be avoided and is no longer free; nothing else changes |
| EfiSort.RootIsMax | src/hardware/startup/lib/efi_entry_point.c:134-154 | the root of a heap is its maximum |
| EfiSort.SiftStep | src/hardware/startup/lib/efi_entry_point.c:139-152 | an exchange moves the only open edge up |
| EfiSort.Map.SiftUp | src/hardware/startup/lib/efi_entry_point.c:137-152 | the heap grows by the entry behind it |
| EfiSort.Map.Heapify | src/hardware/startup/lib/efi_entry_point.c:134-154 | the first count entries become a heap, rearranged among themselves, the rest untouched |
| EfiSort.Map.SortMap | src/hardware/startup/lib/efi_entry_point.c:156-170 | ascending order, same descriptors |
| EfiSort.Map.RemoveMax | src/hardware/startup/lib/efi_entry_point.c:162-169 | the sorted end grows by the maximum, and nothing in the heap exceeds it |
| EfiSort.MaxMoves | src/hardware/startup/lib/efi_entry_point.c:163-167 | the maximum joins the sorted end |
| ElfLoad.Shift | src/hardware/startup/lib/elf64.c:84-87 | page truncation and offset under a shift by whole pages, for any page size |
| ElfLoad.MappedAt | src/hardware/startup/lib/aarch64/aarch64_map.c:193-304 | where an address lies after a mapping, inside and outside it |
| ElfLoad.Loader.ElfMap | src/hardware/startup/lib/aarch64/elf_map.c:49-64 | exactly the whole pages of the range are mapped, consecutively |
| ElfLoad.Loader.CallocRam | src/hardware/startup/lib/ram.c:373-382 | fresh aligned pages nobody uses; zeroed are those bytes or, on a secure system, those at the address cut to 32 bits; where no range is to be avoided it fails only if there is no such stretch |
| ElfLoad.ClearedInPlace | src/hardware/startup/lib/ram.c:308-311 | zeroing at the cut address zeroes the RAM handed out and nothing else if and only if the address fits 32 bits, or both places held zeros |
| ElfLoad.Loader.MapCopy | src/hardware/startup/lib/elf64.c:108-110 | the virtual range is backed by fresh RAM that holds a copy of the bytes in use, then zeros, and no other memory or mapping changes |
| ElfLoad.InPlace | src/hardware/startup/lib/elf64.c:100-111 | image pages plus the split tail page in RAM give every byte of the segment |
| ElfLoad.CopiedOut | src/hardware/startup/lib/elf64.c:134-136 | so does a segment copied out as a whole |
| ElfLoad.Loader.MapInPlace | src/hardware/startup/lib/elf64.c:100-111 | a segment with a place of its own is loaded, padded or not |
| ElfLoad.Loader.MapOut | src/hardware/startup/lib/elf64.c:133-136 | a segment without one is loaded into RAM |
| ElfLoad.FromTheImage | src/hardware/startup/lib/elf64.c:82-138 | later segments still find their file part untouched |
| ElfLoad.Persists | src/hardware/startup/lib/elf64.c:82-138 | when others follow, a loaded segment stays loaded where its pages are not mapped again |
| ElfLoad.SeparateLoaded | src/hardware/startup/lib/elf64.c:82-138 | segments that share no page are loaded as a whole |
| ElfLoad.Loader.LoadSegment | src/hardware/startup/lib/elf64.c:83-139 | in every branch the file bytes are in place, the bss is zero, memory in use and other mappings are kept; it is left unloaded only for want of the RAM it needs |
| ElfLoad.Loader.LoadElf | src/hardware/startup/lib/elf64.c:77-141 | after the loop every byte of every PT_LOAD segment is in place, except on pages a later segment maps again; it gives up only at a segment for which there is no room |
| ElfLoad.TakenFromFile | src/hardware/startup/lib/elf64.c:84-87 | bytes come from where the header says if and only if vaddr and a nonzero paddr agree modulo the page |
| ElfLoad.SegmentReads | src/hardware/startup/lib/elf64.c:82-138 | reading a loaded segment gives the file part, then zeros |
| ElfLoad.BaseIsLeast | src/hardware/startup/lib/elf64.c:90-92 | the recorded base is the lowest page if and only if no segment starts in page 0 or the last one does |
| Calendar.YearClosedForm | src/hardware/startup/lib/calc_time_t.c:63-64 | the year loop of one conversion is the closed form of the other |
| Calendar.MonthTable | src/hardware/startup/lib/calc_time_t.c:58-66 | the table of seconds is the running sum of the month lengths |
| Calendar.GmTime | src/hardware/startup/lib/gmtime.c:46-74 | the fields denote the moment when every fourth year is a leap year |
| Calendar.DenotesOnce | src/hardware/startup/lib/gmtime.c:46-74 | only one set of fields does |
| Calendar.CalcTimeT | src/hardware/startup/lib/calc_time_t.c:54-82 | the sum reduced to 64 bits; the crash exactly on a month out of range |
| Calendar.RoundTrip | src/hardware/startup/lib/calc_time_t.c:54-82 | the round trip is exact if and only if it is not March or later of a century year not divisible by 400, where it loses one day |
| Calendar.GregorianYears | src/hardware/startup/lib/calc_time_t.c:63-64 | every fourth year counts one day too many per skipped century year |
| Calendar.CalcAgainstGregorian | src/hardware/startup/lib/calc_time_t.c:63-76 | on Gregorian dates it is ahead one day per skipped century year that is over, so right if and only if the year is at most 2100 |
| Calendar.GmTimeAgainstGregorian | src/hardware/startup/lib/gmtime.c:56-66 | the fields are the Gregorian date if and only if the moment is before March 2100 |

## Left out

Update client:

- A file operation is atomic and durable, and writes into a file that could be opened succeed; an existing `ota_pending` or `ota_version` can be opened for reading.
- OtaClient.Client.BackUpConfig: assumes that replacing a backup that names another slot does not fail, because the source only logs the failure; `RestoreThenRemove` gives the exact condition under which that does harm.
- Nobody else edits `config.txt`; a torn restore is modelled as an empty file only, and `config.txt.tmp` is not part of the state. A device whose `config.txt` names no slot is not restarted in a run.
- OtaClient.Client.DownloadAndVerify: assumes that no image can be fetched for a version with a newline in it, because the version is part of the URL; `PendingRoundTripExact` says what such a version would do to the record.
- While a record of this boot has no witness file, the clock is not stepped forward by more than five seconds.
- The two clock reads that fill a record are one instant, and `clock_gettime` does not fail.
- Records in the older format read as rebooted (`OldRecordIsRebooted`); the runs do not contain them.
- Download, SHA-256, size check, free space and mounting are arbitrary outcomes; a verified download means the slot holds the image of that version. Configuration update from the server, logging and daemonizing are not modelled.

SPI and I2C:

- SpiTransfer.Spi.Xfer: requires `fifo_len` of at least 2, because with less nothing would ever be queued; a buffer element is a number, not its bytes.
- SPI: DMA, clock and mode bits, slave select and time-out durations.
- I2cMaster.Master.Recv: where the controller may deliver bytes nobody asked for, requires lengths that leave room for them below 2^32, because the length check wraps there (`SurplusCheckExact`).
- I2cMaster.Master.SendRecv: requires the same of the receive length.
- I2cMaster.RunCall: requires the same of the call.
- I2cMaster.RunCalls: requires the same of every call.
- I2cMaster.Master.WaitComplete: its progress clause needs every interrupt to come after all queued commands were executed, because otherwise more bytes may come in than the receive FIFO holds.
- I2C: a stop condition without an abort is seen only after a command carrying STOP was executed. Nothing is claimed about bytes lost to a full receive FIFO, clock counts or time-out durations.
- I2cMaster.Master.Reset: does not say what the registers hold if the adapter cannot be switched off, because the soft reset is not described further.

Startup:

- AsTable.Table.AsAddContaining: requires a range that is not empty; the list of pieces is a value, so relinking in place is not modelled, and neither are the string table and moving sections when the system page grows.
- BootArgs.Bootargs.DoAdjust: requires memory in front of the place of the edit and behind the strings for the bytes the buffer grows by, because the move starts that many bytes before p; counts of at most 127; and not both strings NULL.
- FdtCmdline.Cmdline.TweakCmdline: requires a property with a NUL in it, because the tokenizer would run past its copy otherwise, and room for the words it appends within 64 KiB, because the next append would start from a size that was cut (`DoAdjust`).
- Callouts: patcher routines, registered patch data and the copied code bytes; only sizes, places and pointers are modelled.
- RamList.Ram.FindRam: colours and bounds are those of `calloc_ram`, none; addresses do not wrap; the overflow of the fixed-size tables, the watchers and the trimming of "sysram" entries are not modelled.
- RamList.SearchExact: goes one way for ranges in the middle of a block, because whether room is missed then depends on size and alignment too.
- EfiSort: a descriptor is its physical start and one opaque rest.
- ElfLoad.Loader.LoadSegment: claims nothing when no RAM is found, because the source goes on with an invalid address; addresses do not wrap, protection bits and page-table storage are not modelled.
- ElfLoad.Loader.MapCopy: claims nothing on a secure system that hands out RAM at 4 GiB or above, because other RAM is zeroed there (`ClearedInPlace`).
- ELF: the non-virtual path, the one-to-one path and the 32-bit copy would add nothing new.
- Calendar.RoundTrip: stops at the year 2147483647, because later years do not fit the `int` that holds them.
