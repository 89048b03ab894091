# Verified model of ft_strace and its audit tools

`ft_strace` traces one process with ptrace and prints a line for each system
call, each signal and each change of ABI. Beside it stand two Python tools: one
turns the syscall tables into a Markdown matrix, the other runs a measuring
campaign and keeps an index of it on disk that must survive a crash. This
project models the three programs and proves what they are for. All files are
checked together with `dafny verify dfyconfig.toml`.

## What is modelled

**The tracer** (`Tracee`, `Quoting`, `Ambiguity`, `Buffers`, `SyscallTable`, `CallPrinter`,
`TraceLoop`, `Stops`, `Runs`). The methods follow the functions of `ft_strace.c` one by
one and write to an object `Stderr` that holds everything printed so far. A
`Process` holds the memory of the tracee at the current stop, and logs every
memory read and every signal number passed to `PTRACE_SYSCALL`. The kernel is
an arbitrary list of events: a failed request, or a wait status with the memory,
signal information and registers that go with it. A memory read answers with any
prefix of what was asked, or fails. 64-bit addresses wrap around, and 32-bit
values are truncated and sign-extended where the C code does so.

Each method is tied to functions of its inputs, and the properties are proved
about these. The main result is `Runs.TranscriptIsPerCall`: what the loop prints
with its four pieces of state, over every run, equals a specification that at each
entry looks ahead to the exit and prints the whole call. `CallPrinter.SplitRecord`
says what the two printed parts of one call add up to. What these functions themselves
say is tied to what the kernel delivers: status words and registers (`Stops`), and the
bytes of memory (`Buffers.ShowsBytes`, `ShowsString`, `ShowsVector`).

**The matrix generator** (`Ranges`, `Matrix`, `Rendering`). Range compression is
the loop of the source with a parser that undoes it; the gap accounting and the
rendered rows are proved from the matched lines of the header to the finished lines of
the matrix, with the checks on the way (`Rendering.Generate`). The prose above the rows is
a parameter; no line of it looks like a row.

**The baseline run** (`Disk`, `Manifests`, `Plans`, `Baseline`, `WriteAhead`,
`Ordering`, `Checkpoints`, `Reruns`). A disk is a map from paths to files, each with its
contents and whether they were synced. `Baseline.RunBaseline` is `main()`; the index it
grows is a heap object that holds the case records it appends to, as the dictionaries of
the source do. A plan lists what a manifest asks for; each of its steps knows at what
`main` would raise there and what it would have done to the disk by then. The disk keeps
the list of all actions, a crash may come after any of them, and what is found afterwards
is a `CrashImage`: every file that was there, with its contents if they were synced and
with anything at all otherwise. `Reruns.RerunsSafe` is about any number of runs one after
the other on the same disk, each of them cut short anywhere.

Assumptions of the crash model: renames and removals reach the disk in the order
in which they were made; the identifiers of runs differ (`NotOurs`, `Series`); no output
of the manifest is a link in `portfolio_audit/raw` (`OutputsOutside`), and the programs
that are run do not touch that directory. JSON encoding and hashing are left out:
a file holds a document (`Doc`) or bytes.

## What turned out not to hold everywhere

- **Quoting is ambiguous.** A byte outside the printable range is written as a
  backslash and a decimal number of variable length, so byte 1 before the digit `2`
  looks like byte 12 (`Quoting.QuotedAmbiguous`). `Ambiguity.QuotedDetermines` says
  exactly which buffers no other is printed like: those in which every escaped byte is
  0, or below 10 and not followed by a digit that makes a number up to 31 with it. A
  reader that takes the longest possible number gets back exactly the buffers whose
  escapes are the longest (`Ambiguity.DecodeRoundTrip`); each printed text is that of
  exactly one such buffer, so no reader gets back more (`Ambiguity.OneLongest`). They
  include all buffers in which no escape is followed by a digit
  (`Ambiguity.CleanOrSole`). A reader that simply takes all digits gets back exactly
  these (`Quoting.QuotedRoundTrip`).
- **Write-ahead ordering needs distinct output names.** Captures of compilations are
  named after the output file, and `validate_manifest` does not ask for the names to
  differ. With two equal names the later compilation deletes the capture files that
  the index on disk still names. `Ordering.WriteAheadOrdering` gives the exact
  condition: the names of those targets differ that the run gets to compile, which are
  the ones before the first without a role, and none if the build or the compiler's
  timeout stops it. `Ordering.AcceptedWithDuplicates` is an accepted manifest that breaks
  it.
- **Accepted manifests can still stop midway.** `main` reads some things that
  `validate_manifest` has not looked at: the build command and its timeout, the compiler's
  timeout, the targets' roles and the engines' prefixes; and it runs commands whose
  arguments may hold a NUL character, which cannot be passed to a program.
  `Plans.PlanIsFull` says that an accepted manifest is carried out whole if and only if
  none of these stops it (`Plans.ReadsThrough`), and `Plans.AcceptedButStopping` gives
  accepted manifests that stop for each of these reasons. This takes for granted that the
  operating system does what it is asked for and that a timeout, if present, is a finite
  number.
- **Two counts never fail.** Once the figures of both tables are the pinned ones, the
  total number of rows is right as well, in `verify_invariants`
  (`Matrix.VerifyInvariants`) and in `render_markdown` (`Rendering.Generate`).

## Model

| member | source | states |
|---|---|---|
| Numerals.DigitChars | ft_strace.c:176-197 | numbers are written with the usual digits, hexadecimal ones in lower case |
| Numerals.NumeralValue | ft_strace.c:176-197 | a numeral denotes the number that it was printed for |
| Numerals.NumeralCanonical | ft_strace.c:176-197 | and has no leading zero |
| Tracee.Process.ReadTracee | ft_strace.c:40-45 | a read copies a prefix of the requested span into the buffer and leaves the rest alone, or fails and changes nothing; it is logged |
| Quoting.PrintQuoted | ft_strace.c:47-59 | the loop appends exactly `Quoted` of the first `size` bytes to stderr |
| Quoting.QuotedByte | ft_strace.c:51-56 | quote and backslash stand behind a backslash, the other bytes from 32 to 126 for themselves, and all others as a decimal number behind a backslash |
| Quoting.QuotedBytes | ft_strace.c:49-58 | quoted text is a quote, each byte in its turn and a quote |
| Quoting.UnescapeEscaped | ft_strace.c:49-58 | a reader of the escaped text stops at the closing quote, whatever follows it, and obtains `ReadBack` of the bytes |
| Quoting.ReadBackExact | ft_strace.c:50-57 | what is read back is the buffer itself if and only if no decimally escaped byte is directly followed by a digit |
| Quoting.QuotedRoundTrip | ft_strace.c:47-59 | for every buffer and every following text the closing quote is the first unescaped one; a reader that takes all digits after a backslash gets the bytes back if and only if no decimally escaped byte is directly followed by a digit |
| Quoting.QuotedAmbiguous | ft_strace.c:55-56 | two different buffers, one of them not clean, that are printed alike |
| Ambiguity.QuotedDetermines | ft_strace.c:47-59 | no other buffer is printed like this one if and only if each escaped byte is 0, or is below 10 and makes no number up to 31 with a digit behind it |
| Ambiguity.NotSole | ft_strace.c:50-57 | every other buffer shares its text with one more |
| Ambiguity.SoleIsOnly | ft_strace.c:50-57 | a buffer of that kind shares its text with none |
| Ambiguity.CleanOrSole | ft_strace.c:50-57 | clean buffers and those printed like no other have the longest escapes only |
| Ambiguity.DecodesLongest | ft_strace.c:49-58 | a reader that takes the longest numeral of an escaped byte gets every such buffer back, whatever follows the closing quote |
| Ambiguity.DecodeRoundTrip | ft_strace.c:47-59 | for every buffer that reader finds the closing quote and a buffer printed exactly so, and the buffer itself if and only if its escapes are the longest |
| Ambiguity.OneLongest | ft_strace.c:47-59 | each printed text is that of exactly one buffer with longest escapes, so no reader recovers more |
| Quoting.QuotedInjective | ft_strace.c:47-59 | two clean buffers that are printed alike are equal |
| Quoting.QuotedPrintable | ft_strace.c:47-59 | at most 4 * size + 2 characters, all of them printable |
| Buffers.PrintBytes | ft_strace.c:61-73 | appends `BytesText` and makes one read of min(count, 64) bytes, or none when the count is zero |
| Buffers.BytesShown | ft_strace.c:61-73 | from what the kernel lets be read: all bytes that one read of min(count, 64) returns are shown, with an ellipsis if and only if these are fewer than `count`; the address if it returns none; two quotes for an empty buffer |
| Buffers.WholeBuffer | ft_strace.c:64-72 | a readable buffer of at most 64 bytes is shown whole, without an ellipsis |
| Buffers.PrintString | ft_strace.c:75-87 | appends `StringText` after one read of 4096 bytes |
| Buffers.StringShown | ft_strace.c:75-87 | from what the kernel lets be read: the bytes before the first NUL of those that one read of 4096 returns, with an ellipsis if and only if there is none; the address if it returns nothing |
| Buffers.ReadSlot | ft_strace.c:91-94 | one pointer of 4 or 8 bytes at the wrapped-around address is unreadable, NULL or its little-endian value |
| Buffers.ElementCount | ft_strace.c:92-110 | counts exactly the elements before the first NULL or unreadable slot |
| Buffers.PrintSlot | ft_strace.c:93-109 | one round of the walk: what it prints and reads, and that it goes on exactly after a non-NULL pointer |
| Buffers.PrintArgv | ft_strace.c:89-112 | the walk prints the elements before the first NULL or unreadable slot among the first 128, and reads each slot and string once |
| Buffers.SlotHolds | ft_strace.c:91-94 | a slot is the pointer whose bytes lie there, least significant first: four of them every four bytes on i386, eight every eight on x86-64 |
| Buffers.VectorShown | ft_strace.c:89-112 | from memory: the strings of the pointers before the first NULL or unreadable slot, 128 at most, in brackets; cut unless a NULL ended them; the address if there is not even a first slot |
| Buffers.VectorReads | ft_strace.c:92-109 | the reads made: each slot at its address and width, then 4096 bytes at its pointer, and the last slot |
| Buffers.AlwaysVector | ft_strace.c:92-111 | every memory holds such a vector at every address |
| Buffers.ArgvEnding | ft_strace.c:89-112 | for both widths and any memory: the bare address if and only if slot 0 is unreadable, a plain closing bracket if and only if a NULL ended the walk, and the cut ending in all other cases |
| SyscallTable.ReadRegisters | ft_strace.c:114-145 | fails exactly when the register set is missing or of another length; number, result and arguments come from their registers; i386 values fit 32 bits |
| SyscallTable.LookupSyscall | ft_strace.c:147-154 | the row of the ABI's own table; nothing exactly for numbers from 0x1d6 on and for gaps |
| SyscallTable.AbisAgree | ft_strace.c:117-139 | for every 32-bit kernel result the i386 and the x86-64 path recover the same number, and errno e exactly when it is -e with e in 1..4095 |
| SyscallTable.ErrorPatterns | ft_strace.c:284-289 | an error is exactly one of the top 4095 patterns of the ABI's own register width, and its distance from the top is the errno |
| SyscallTable.SampleRows | include/strace_data.h:5-231 | five rows of the tables have scalars only after their first kernel-filled buffer, which is where stated |
| CallPrinter.PrintArg | ft_strace.c:156-199 | appends `ArgText` of one argument and makes the reads `ArgReads` |
| CallPrinter.ScalarReadBack | ft_strace.c:179-198 | the value of every scalar is read back from its text, at the width and signedness of its type and ABI |
| CallPrinter.ScalarNotation | ft_strace.c:179-198 | addresses, flags and signal numbers stand in hexadecimal, other scalars in decimal with a sign exactly when negative at their width |
| CallPrinter.OutputBufferShown | ft_strace.c:163-172 | a kernel-filled buffer shows all that can be read of its first min(result, requested) bytes, as `ShowsBytes` says; after an error only its address |
| CallPrinter.PointerArgsShown | ft_strace.c:160-178 | input buffers, strings and vectors are those at the argument's address, with the next argument as length and the caller's pointer width |
| CallPrinter.ArgReadsAre | ft_strace.c:158-198 | which memory each kind of argument reads, and how much of it |
| CallPrinter.PrintEntry | ft_strace.c:207-225 | looks the row up, prints up to the first kernel-filled buffer from entry memory and remembers where it stopped |
| CallPrinter.FinishArgs | ft_strace.c:227-237 | prints the remaining arguments with the result known, from the memory of that moment |
| CallPrinter.SplitRecord | ft_strace.c:207-237 | for every row, result and pair of snapshots the two parts add up to the name and every argument once, in order, commas and one closing parenthesis in place |
| CallPrinter.RecordText | ft_strace.c:207-237 | the record is the name, and between parentheses one text for each declared argument: of its own type, from entry memory before the first kernel-filled buffer and from exit memory with the result after it |
| CallPrinter.SplitIsInvisible | ft_strace.c:207-237 | with equal snapshots they add up to what a printer prints that sees the finished call at once |
| CallPrinter.NoOutputReadAtEntry | ft_strace.c:216-223 | the entry stop reads for exactly the arguments before the first kernel-filled buffer, none of which is one |
| CallPrinter.QuietArg | ft_strace.c:158-178 | after a failed call an argument is printed without reading memory if and only if it is a scalar, a kernel-filled buffer or an empty input buffer |
| CallPrinter.FailedCallReads | ft_strace.c:231-235 | completing the record of a failed call reads nothing if and only if all remaining arguments are of that kind |
| CallPrinter.FailedCallReadsNothing | ft_strace.c:227-237 | so nothing is read for rows with only scalars after the first kernel-filled buffer |
| CallPrinter.ReadRecord | ft_strace.c:207-237 | the record of `read`: descriptor and size from the registers, the buffer from exit memory only |
| TraceLoop.StatusWords | ft_strace.c:260-270 | status words of exits, deaths by signal and stops are told apart, and a stop's signal and event bits are recovered |
| Stops.StopKinds | ft_strace.c:267-282 | a stop with event bits is passed over; one by 0x85 is a syscall stop if its registers can be read; any other is the delivery of its signal |
| Stops.EndKinds | ft_strace.c:260-266 | exits and deaths by a signal, with or without a core dump, end the run |
| Stops.Continued | ft_strace.c:267-268 | a tracee that has been continued is passed over |
| Stops.Entry64 | ft_strace.c:120-129 | a 64-bit entry stop opens the record of the call that sys64 has for orig_rax, with rdi, rsi, rdx, r10, r8 and r9 as arguments, or that of an unknown number |
| Stops.Entry32 | ft_strace.c:130-139 | a 32-bit one the call that sys32 has for orig_eax, with ebx, ecx, edx, esi, edi and ebp |
| Stops.Return64 | ft_strace.c:283-290 | a 64-bit exit stop completes the record with rax as signed result, and ends the line with an error for its 4095 highest values and with rax otherwise |
| Stops.Return32 | ft_strace.c:283-290 | a 32-bit one the same with eax as signed 32-bit result |
| Stops.NoReturn | ft_strace.c:261-264 | a call that is not returned from is completed as a failed one and ends in a question mark |
| Stops.SignalFields | ft_strace.c:274-276 | which value stands where in a signal line |
| Stops.ModeTexts | ft_strace.c:292 | a mode line names the process and the width of its ABI |
| TraceLoop.FinishCall | ft_strace.c:283-290 | the exit stop prints the rest of the record and its result |
| TraceLoop.AbandonCall | ft_strace.c:260-264 | a tracee that terminates inside a call leaves the rest of the record with result -1 and a question mark |
| TraceLoop.SyscallStop | ft_strace.c:283-299 | one syscall stop takes the loop's variables, its output and its reads exactly one step of the state machine further |
| TraceLoop.Trace | ft_strace.c:248-301 | for every script of kernel answers the loop's outcome, status, output, memory reads and resumed signals are those of the state machine |
| TraceLoop.FinishedStatus | ft_strace.c:260-266 | a finished run leaves the status of the event that ended it: an exit or a signal, never both |
| Runs.InsideCall | ft_strace.c:267-290 | from inside a call, every run prints the signals up to the next syscall stop or the end, and there completes that call |
| Runs.TranscriptIsPerCall | ft_strace.c:248-301 | for every run and starting ABI the stateful loop prints the per-call specification |
| Runs.HeadAndTail | ft_strace.c:260-297 | the pieces printed at entry and at the end of a call make up its one-line record |
| Runs.TranscriptCalls | ft_strace.c:248-301 | without signal and mode lines, the transcript of every run is the heads and tails of its calls, call by call |
| Runs.CallsClosed | ft_strace.c:260-299 | only the last call of a run can lack its end, and none does when the tracee has terminated |
| Runs.EveryCallOnce | ft_strace.c:248-301 | over every run that ends in termination each call has exactly one record with exactly one completion, and these make up the transcript apart from signal and mode lines |
| Runs.InCallByParity | ft_strace.c:283-299 | the tracee is inside a call exactly after an odd number of syscall stops |
| Runs.TranscriptSplit | ft_strace.c:255-300 | the transcript of a run is that of its first part and, from the state this leads to, that of the rest |
| Runs.UnbrokenRecord | ft_strace.c:248-301 | in every run, a call entered at any event in which no signal arrives is one contiguous line of the transcript, with the mode lines before or after it |
| Runs.ResultLines | ft_strace.c:284-289 | a call returning v ends in the same error line on both ABIs exactly when v is in -4095..-1, and otherwise in its register value |
| Runs.ModeChanges | ft_strace.c:291-294 | mode lines stand exactly at the syscall stops whose ABI differs from the one before |
| Runs.RunModes | ft_strace.c:253-294 | a run starts outside of calls and as 64 bit |
| Runs.OutcomeDecided | ft_strace.c:255-282 | the first event at which a run cannot go on decides it: it finishes if that is the end of the tracee and fails otherwise |
| Runs.SignalsConserved | ft_strace.c:252-279 | for every run: the non-zero signals resumed with, and at most one that the run ends on, are the signals of its signal-delivery stops in order and once each |
| Runs.FinishedDelivers | ft_strace.c:256-279 | a run that ends in termination leaves no signal undelivered |
| Runs.EverySignalOnce | ft_strace.c:252-279 | over such a run exactly the signals that stopped the tracee were passed on |
| Runs.ResumeAfterStop | ft_strace.c:256-279 | each resume passes the signal of the stop just before it, and zero after syscall, event and other stops |
| Runs.FailureReadsNothing | ft_strace.c:260-290 | with tables like the tracer's, completing a call that failed or was not returned from reads no memory |
| Ranges.ScanRanges | portfolio_audit/tools/generate_syscall_matrix.py:142-150 | the ranges expand to the list in order, each has start <= end, and none starts one past the end before |
| Ranges.FewestRanges | portfolio_audit/tools/generate_syscall_matrix.py:142-150 | no list of ranges that stands for the same numbers is shorter, whatever its ranges |
| Ranges.CompressionUnique | portfolio_audit/tools/generate_syscall_matrix.py:142-150 | a list has only one such compression |
| Ranges.RangeWritten | portfolio_audit/tools/generate_syscall_matrix.py:152-155 | a range is written as its one number, or as its two ends with an en dash between, in hexadecimal |
| Ranges.ParseRangeText | portfolio_audit/tools/generate_syscall_matrix.py:153 | one printed range is read back, whatever non-digit follows |
| Ranges.ParseListText | portfolio_audit/tools/generate_syscall_matrix.py:152-155 | the comma-joined ranges are read back as the same ranges |
| Ranges.CompressRanges | portfolio_audit/tools/generate_syscall_matrix.py:138-155 | for every list of integers the text is read back as that list, is NONE only for the empty one, and is the print of its compression |
| Matrix.SortByNumber | portfolio_audit/tools/generate_syscall_matrix.py:133-134 | the sort keeps every row as often as it was there |
| Matrix.SortSorts | portfolio_audit/tools/generate_syscall_matrix.py:133-134 | the numbers are in order afterwards |
| Matrix.SortIsStable | portfolio_audit/tools/generate_syscall_matrix.py:133-134 | rows with the same number keep their order in the source |
| Matrix.ParseSource | portfolio_audit/tools/generate_syscall_matrix.py:88-135 | the loop raises the first line whose fields are not acceptable, and otherwise yields for each ABI the sorted list of its entries, and the table sizes |
| Matrix.EntryAcceptable | portfolio_audit/tools/generate_syscall_matrix.py:108-119 | an entry is acceptable if and only if it has six fields, at most six arguments and no padding among their types |
| Matrix.EntriesAreLines | portfolio_audit/tools/generate_syscall_matrix.py:92-131 | every entry line of the header is exactly one row, which carries its line number and says what the line says field by field, and there are no other rows |
| Matrix.SizeIsLast | portfolio_audit/tools/generate_syscall_matrix.py:93-96 | the size of a table is that of its last definition |
| Matrix.OfAbiInOrder | portfolio_audit/tools/generate_syscall_matrix.py:121-131 | the list of an ABI holds only its rows and keeps the order of the header |
| Matrix.DistinctBySize | portfolio_audit/tools/generate_syscall_matrix.py:164-166 | a list is as long as its set if and only if no number occurs twice |
| Matrix.Gaps | portfolio_audit/tools/generate_syscall_matrix.py:170-171 | exactly the unpopulated slot numbers, strictly increasing |
| Matrix.GapPartition | portfolio_audit/tools/generate_syscall_matrix.py:164-171 | gaps and populated numbers are disjoint, cover the slots, and rows + gaps = slots |
| Matrix.TallyCounts | portfolio_audit/tools/generate_syscall_matrix.py:176-179 | the sums count the rows without arguments, with a vector, and with a string followed by its size |
| Matrix.TallyDeclared | portfolio_audit/tools/generate_syscall_matrix.py:177 | and the declared types of all rows together |
| Matrix.CalculateAbi | portfolio_audit/tools/generate_syscall_matrix.py:160-182 | accepts exactly distinct numbers in range with a known size, raises the first failing check, and reports the partition and gap ranges that read back as the gaps |
| Matrix.Calculate | portfolio_audit/tools/generate_syscall_matrix.py:158-183 | both tables are accepted and reported, or the first failing check is raised |
| Matrix.VerifyInvariants | portfolio_audit/tools/generate_syscall_matrix.py:186-209 | no error exactly for tables with the pinned figures and number of names, else that of the first figure that differs; the check of the total never fails |
| Rendering.ReadCellText | portfolio_audit/tools/generate_syscall_matrix.py:212-213 | any text, bars and backslashes included, is read back from its escaped cell |
| Rendering.LineRoundTrip | portfolio_audit/tools/generate_syscall_matrix.py:277-297 | every rendered line is read back as its eleven cells, though only two are escaped |
| Rendering.ColumnsSay | portfolio_audit/tools/generate_syscall_matrix.py:277-297 | what a reader finds in each of the eleven columns: ABI, number in both notations, name, argument count, types, the three fixed assessments, special conditions and source line |
| Rendering.LineInjective | portfolio_audit/tools/generate_syscall_matrix.py:277-297 | rows rendered alike agree on ABI, number, name, argument count, source line and the types as printed, and on the types themselves if these are as many as the arguments and hold no comma, as parse_source makes them |
| Rendering.RenderRows | portfolio_audit/tools/generate_syscall_matrix.py:275-297 | one line per row, ABI by ABI, in the order of the lists |
| Rendering.LineLooksLikeRow | portfolio_audit/tools/generate_syscall_matrix.py:277-304 | every rendered line begins as the count of matrix rows expects |
| Rendering.RenderMarkdown | portfolio_audit/tools/generate_syscall_matrix.py:275-309 | the prose, the rows and an empty line, or an error exactly when the rows are not 791 |
| Rendering.AcceptedIncreasing | portfolio_audit/tools/generate_syscall_matrix.py:133-166 | the sort and the duplicate test together give strictly increasing numbers |
| Rendering.AbisPartition | portfolio_audit/tools/generate_syscall_matrix.py:121-131 | the two lists hold every entry exactly once |
| Rendering.EveryEntryOnce | portfolio_audit/tools/generate_syscall_matrix.py:121-134 | no entry is lost, duplicated or moved to the other ABI |
| Rendering.Generate | portfolio_audit/tools/generate_syscall_matrix.py:312-316 | a matrix is produced exactly when parse_source and calculate accept the header and its figures are the pinned ones, and then lists each of the 791 entries once, ABI by ABI, in strictly increasing number; otherwise the first thing that is wrong is raised, and it is never the count of all rows |
| Disk.TempNeverLasting | portfolio_audit/tools/run_baseline.py:79 | a temporary name is never that of an index, environment or capture file |
| Disk.AtomicSteps | portfolio_audit/tools/run_baseline.py:77-84 | a hidden file beside the destination, with the process number in its name, is made, written and synced and then takes the destination's place |
| Disk.AtomicWriteResult | portfolio_audit/tools/run_baseline.py:77-84 | afterwards the destination holds the new data, synced |
| Disk.AtomicAtEveryCrash | portfolio_audit/tools/run_baseline.py:77-84 | wherever a crash comes the destination holds exactly the old contents, or after the rename exactly the new, and all other lasting files are as before |
| Disk.Drive.AtomicWriteBytes | portfolio_audit/tools/run_baseline.py:77-84 | performs exactly create, write, sync and replace, in this order |
| Manifests.ValidateHead | portfolio_audit/tools/run_baseline.py:385-404 | no error if and only if sources, cases, timeout, engines and compiler are the expected ones, else that of the first that is not |
| Manifests.ValidateTargets | portfolio_audit/tools/run_baseline.py:410-418 | no error if and only if all sources and outputs are in their directories, else that of the first target that is not |
| Manifests.ValidateCase | portfolio_audit/tools/run_baseline.py:423-440 | no error if and only if the case names a compiled target and its expected engines, else that of the first check that fails |
| Manifests.ValidateCases | portfolio_audit/tools/run_baseline.py:420-440 | no error if and only if every case is accepted, else that of the first that is not |
| Manifests.ValidateManifest | portfolio_audit/tools/run_baseline.py:374-440 | no error if and only if the manifest is `Accepted`, and otherwise the error of the first check that fails |
| Manifests.ErrorsInOrder | portfolio_audit/tools/run_baseline.py:385-440 | which error belongs to which check, in the order of the checks |
| Manifests.AcceptedSpells | portfolio_audit/tools/run_baseline.py:394-440 | what acceptance pins down: compiler, flags, timeout, engines, directories, and the engines and targets of the cases |
| Manifests.EngineFound | portfolio_audit/tools/run_baseline.py:427-440 | an engine lookup for a case of an accepted manifest never misses |
| Manifests.AcceptedCounts | portfolio_audit/tools/run_baseline.py:385-440 | exactly 15 compile targets and 29 case/engine pairs |
| Manifests.AcceptedManifest | portfolio_audit/tools/run_baseline.py:374-440 | every case runs a program that some target compiles, with engines that are defined; 15 and 29 |
| Baseline.CleanCapturePrefix | portfolio_audit/tools/run_baseline.py:110-112 | unlinks the four files of a capture |
| Plans.ResultFor | portfolio_audit/tools/run_baseline.py:170-199 | a return code is recorded as either an exit status or the signal that ended the process, never both, and is recovered from it; the other fields are those of the command, the run and the outcome |
| Plans.CaptureDone | portfolio_audit/tools/run_baseline.py:202-254 | a capture unlinks its four files and writes them anew under the same names: command, standard output, standard error and result |
| Plans.WorkDone | portfolio_audit/tools/run_baseline.py:487-558 | what each kind of step does before its checkpoint: a compilation unlinks the output first |
| Plans.OutcomeInTurn | portfolio_audit/tools/run_baseline.py:487-558 | the n-th capture of a run records what its n-th command came to |
| Plans.ObstaclesMet | portfolio_audit/tools/run_baseline.py:485-542 | in which order main comes across the obstacles of each kind of step |
| Plans.RemnantsLeft | portfolio_audit/tools/run_baseline.py:485-558 | and what it has done to the disk by then |
| Plans.PrologueDone | portfolio_audit/tools/run_baseline.py:463-482 | before its first step a run writes the environment record and the empty index |
| Baseline.CaptureProcess | portfolio_audit/tools/run_baseline.py:202-254 | cleans up, then writes command, stdout, stderr and result files in this order, and returns the record that describes them; a command that cannot be passed on raises after the clean-up |
| Baseline.CheckpointIndex | portfolio_audit/tools/run_baseline.py:452-453 | replaces run_index.json by the index as it is in memory, case records included |
| Baseline.StartRun | portfolio_audit/tools/run_baseline.py:461-482 | environment record, then the empty index |
| Baseline.RunBuild | portfolio_audit/tools/run_baseline.py:484-496 | the build step, on disk and in memory, or the first obstacle and what was done by then |
| Baseline.RunCompile | portfolio_audit/tools/run_baseline.py:503-523 | one compile step further, or stopped by a missing role once the output is unlinked |
| Baseline.RunCompiles | portfolio_audit/tools/run_baseline.py:498-523 | all compile steps in manifest order, or as many as there are before the first obstacle, a missing timeout included |
| Baseline.OpenCaseStep | portfolio_audit/tools/run_baseline.py:528-536 | appends an empty case record and publishes it |
| Baseline.AppendEngine | portfolio_audit/tools/run_baseline.py:559-564 | appending to the case record changes the last case of the index, which holds the same object, and nothing else |
| Baseline.RunEngineStep | portfolio_audit/tools/run_baseline.py:538-565 | one engine step further, or stopped by its prefix or by an argument |
| Baseline.RunCase | portfolio_audit/tools/run_baseline.py:527-565 | the steps of a case, all of them or up to the first obstacle |
| Baseline.RunCases | portfolio_audit/tools/run_baseline.py:527-565 | the same for all cases in manifest order |
| Baseline.FinishRun | portfolio_audit/tools/run_baseline.py:567-569 | marks the index complete and publishes it |
| Plans.UpToBadAppend | portfolio_audit/tools/run_baseline.py:484-569 | of two plans in a row the second is begun if and only if the first runs to its end |
| Plans.StopsInside | portfolio_audit/tools/run_baseline.py:484-569 | a run that comes through its first steps stops where the next ones stop it, and leaves what these leave |
| Plans.CompileBad | portfolio_audit/tools/run_baseline.py:498-521 | a compile step of an accepted manifest is stopped by a missing timeout or role and by nothing else |
| Plans.CasesBad | portfolio_audit/tools/run_baseline.py:527-558 | the cases are run through if and only if all three engine prefixes are lists of strings and no argument holds a NUL |
| Plans.PlanIsFull | portfolio_audit/tools/run_baseline.py:484-569 | an accepted manifest is carried out whole if and only if everything that main reads of it unchecked is there: build command, both timeouts, roles and prefixes, with arguments that can be passed on |
| Plans.AcceptedButStopping | portfolio_audit/tools/run_baseline.py:374-569 | seven accepted manifests that are not carried out whole, one for each shortcoming |
| Baseline.RunBaseline | portfolio_audit/tools/run_baseline.py:456-570 | a rejected manifest leaves the disk alone and raises the first failing check; otherwise the disk sees exactly the log of the run up to the first obstacle, which is raised, and there is none if and only if everything read unchecked is there |
| WriteAhead.CapturePathInjective | portfolio_audit/tools/run_baseline.py:106-107 | files of different captures, and the four of one, never share a path |
| WriteAhead.CaptureStores | portfolio_audit/tools/run_baseline.py:202-254 | after a capture its four files are whole and synced: the command and result of the record, and exactly the output that the command came to |
| WriteAhead.CaptureTouches | portfolio_audit/tools/run_baseline.py:212-245 | a capture touches no lasting file but its own four |
| WriteAhead.NamesRecorded | portfolio_audit/tools/run_baseline.py:487-565 | every record that an index names was captured by a step of this run |
| WriteAhead.MidStep | portfolio_audit/tools/run_baseline.py:502-565 | inside a step the previous index stays on disk and all earlier captures stay stored |
| WriteAhead.EndStep | portfolio_audit/tools/run_baseline.py:502-565 | at the end of a step the new index is on disk and all captures, its own included, are stored |
| WriteAhead.SettledSafe | portfolio_audit/tools/run_baseline.py:202-254 | whatever such a disk's index names, some step of this run captured, and all four files hold what that step wrote |
| WriteAhead.RunSafe | portfolio_audit/tools/run_baseline.py:456-570 | with distinct capture prefixes every crash state of every run is safe |
| Ordering.PlanWithin | portfolio_audit/tools/run_baseline.py:484-521 | a run that does not get to compile all targets ends in the compile stage or before |
| Ordering.PlanReaches | portfolio_audit/tools/run_baseline.py:484-523 | a run gets to compile each target before the first without a role |
| Ordering.PlanDistinct | portfolio_audit/tools/run_baseline.py:488-546 | if the output names of these targets differ, so do all capture prefixes of the run |
| Ordering.RestClear | portfolio_audit/tools/run_baseline.py:484-558 | what a step that raises leaves behind spares the index and all earlier captures |
| Ordering.PlanSafe | portfolio_audit/tools/run_baseline.py:456-570 | so such a run is safe at every crash point, after an obstacle as well |
| Ordering.DuplicateUnsafe | portfolio_audit/tools/run_baseline.py:502-523 | two targets that are compiled to one output name give a crash point at which the index names a record whose files are gone |
| Ordering.WriteAheadOrdering | portfolio_audit/tools/run_baseline.py:456-570 | a run over an accepted manifest is safe at every crash point if and only if the output names of the targets that it gets to compile differ |
| Ordering.AcceptedWithDuplicates | portfolio_audit/tools/run_baseline.py:374-440 | an accepted manifest in which all targets share one output and all are compiled |
| Reruns.PrologueKeeps | portfolio_audit/tools/run_baseline.py:461-482 | until its first checkpoint is over a run changes no lasting file but the environment record |
| Reruns.OwnerKept | portfolio_audit/tools/run_baseline.py:461-482 | so the index of an earlier run stays safe until it is replaced |
| Reruns.RerunsSafe | portfolio_audit/tools/run_baseline.py:456-570 | after any number of runs, each stopped or crashed anywhere, everything that the index on the disk names is there as the run that owns the index wrote it |
| Checkpoints.IndexAlwaysWhole | portfolio_audit/tools/run_baseline.py:452-569 | from the first checkpoint on the synced index is that of the last finished step |
| Checkpoints.RunIndexWhole | portfolio_audit/tools/run_baseline.py:452-569 | for every manifest and crash point from there on, run_index.json is one whole index of this run |
| Checkpoints.CheckpointsGrow | portfolio_audit/tools/run_baseline.py:467-569 | a later index extends an earlier one: compilations, cases and engine lists only grow at their ends, and a complete index is final |
| Checkpoints.IndexesGrow | portfolio_audit/tools/run_baseline.py:467-569 | of two crash points of a run the later one finds an index that extends the earlier one's |
| Checkpoints.FullPlanRecordsAll | portfolio_audit/tools/run_baseline.py:484-569 | the index of a whole plan records the build, every target and every case/engine pair, in manifest order, each with its files, command, timeout and context |
| Checkpoints.CommandsOfAll | portfolio_audit/tools/run_baseline.py:507-558 | of an accepted manifest: each compilation ran gcc with its five flags on the source to make the output, and each engine run the engine's own prefix on the case's target for five seconds |
| Checkpoints.CompleteOnDisk | portfolio_audit/tools/run_baseline.py:456-570 | an index of this run found "complete" on the disk at any crash point names 15 compilations and 29 engine results, every target and pair, and with distinct output names all their files are there with what the steps wrote |
| Checkpoints.CompleteMeansAll | portfolio_audit/tools/run_baseline.py:567-569 | the state "complete" is published only after the whole plan, with exactly 15 compilations and 29 engine results |

## Left out

- ReadTracee: `process_vm_readv` is an arbitrary answer; that a partial read ends at a page boundary is not modelled, so everything proved holds for any partial read.
- Trace: the kernel's answers are a finite script, so the loop's waiting for ever is a script that ends; `wait_child` and its retry after EINTR are one answer; the first syscall stop is taken for an entry, as in the code.
- PrintString: `strnlen` is the function `UpToNul`, not a loop, since the source calls the C library.
- SampleRows: only five of the 791 rows of the tables are written out; the others enter through `Row.WellFormed` and `Row.ScalarTail`.
- ValidateTargets: as for ValidateManifest, where a path leads is given with it.
- ValidateCases: as for ValidateManifest, every case is an object with lists of strings.
- StartRun: what the environment record says is a parameter; the fields of the index that never change, such as the manifest's hash, are left out.
- SortByNumber: Python's `list.sort` is modelled by what it promises, a stable sort, through insertion; its own algorithm and its updating in place are not in the source.
- ParseSource: starts from what the regular expressions make of a line, with the argument fields already split and stripped; the expressions themselves are not part of this model.
- Calculate: the dictionary of rows is a map with the two fixed ABIs, visited in the order in which `parse_source` creates them.
- Generate: the fixed prose and metric tables of `render_markdown` are a parameter, of which only is required that no line looks like a row.
- ValidateManifest: where a path leads is a given part of it, as the file system would resolve it, and the type tests on JSON values are left to Dafny's types.
- AtomicWriteBytes: `mkdir` and the sync of the directory itself, which the source does not do either, are outside the disk model; renames are taken to last.
- CaptureProcess: what a process comes to, its clock readings, `shlex.join` and the working directory are parameters; an error of the operating system other than a failed spawn, and a timeout that is not finite, are not modelled.
- RunBaseline: loading the manifest, making up the run identifier and errors of the operating system are not modelled. A value of the wrong type counts as a missing one.
- The launch of the tracee in `main()`, its signal handlers and its exit report: system calls around `trace`, with no state of their own.
- `strerror` and `sigabbrev_np`: functions of the number, given as parameters.
- `analyze_results.py`, the other tools, the test programs and the documentation: fixed checks on collected evidence.
