# A verified model of the algorithms behind procps

procps reads `/proc` and prints what it finds. Below the reading and printing there are
algorithms with state: deltas between successive reads, result stacks that are reused and
relabelled, an in-place sanitiser, a screen layout that notices changes, writes that are
cut into lines. This project models those algorithms in Dafny and proves what they are for.

`/proc`, the kernel, libnuma, glob(3), fnmatch(3), the clock and the locale are parameters:
their answers are inputs, and every theorem holds for all of them. Memory allocation
succeeds. Integers are unbounded except where a width matters; there it is written out.

Each module models one part of one C file; `Bytes`, `Options` and `Decimals` are shared.
Code that changes things step by step is a class or a method over arrays and linked nodes,
proved against a specification function; the theorems are then about that function, over
all inputs and whole runs. `dafny verify dfyconfig.toml` checks everything.

| module | source | what is proved, in one line |
|---|---|---|
| `PidsHistory` | library/pids.c | the double-buffered hash chains are a map of the last frame; the deltas shown add up exactly while none runs backwards or needs more than 32 bits |
| `PidsStacks` | library/pids.c | over any run of calls, stacks are live, distinct, labelled and filled as a value-level reference says; which reader serves a get and what it reads; when the deltas a caller reads off its stacks add up |
| `Strutils` | local/strutils.c | the merge sort yields the one stable sorted permutation |
| `Signals` | local/signals.c | listings name each signal once; names and numbers round-trip |
| `Escape` | library/escape.c | the recogniser is RFC 3629 less two private-use areas; the rewrite keeps exactly the printable characters |
| `Watch` | src/watch.c | one pass equals a line-by-line layout, writes each cell once, and notices exactly the changes; what is highlighted after any passes; after which output watch exits |
| `Diskstats` | library/diskstats.c | over any run and on any clock, what a device's delta spans when it was lost and came back |
| `Stat` | library/stat.c | ticks never run backwards, and folding into nodes conserves every sum |
| `Sysctl` | src/sysctl.c | keys and paths correspond; which of several settings wins, whatever the interleaving |
| `Pgrep` | src/pgrep.c | a shell reads the quoted vector as exactly that vector, within the reserved space |
| `Readproc` | library/readproc.c | a file read in chunks becomes exactly its strings, in terms of what stands between its ends |
| `ProcStatus` | library/readproc.c | the perfect hash finds what a linear search finds |
| `Procio` | local/procio.c | the greedy cut finds a cutting whenever there is one, in the fewest lines; short writes drop and reorder nothing; what a second newline sends again |
| `Vmstat` | src/vmstat.c | idle debt is conserved, percentages total about a hundred, no line keeps its columns further left |

## Findings

Six properties one would expect do not hold of the code as it is. Each is stated with the
exact condition, and with a run in which it fails.

- The reader of a pids context is shared. `get` keeps its table open between calls, but a
  `reap` or a `select` in between replaces the reader. A get is served by its own kind of
  reader except exactly when its table was already open and the last fetch since it was
  opened was of the other kind (`PidsStacks.OwnReader` over every run of calls,
  `PidsStacks.GetAfterRun` on the object, `PidsStacks.ReaderTaken` for such a run).
- The table that `get` keeps open keeps the flags it was opened with, and a reset to as many
  items or fewer leaves it open. A get reads all that its items need except exactly when its
  table was already open and some item needs what the items back then did not
  (`PidsStacks.ReadsEnough`, `PidsStacks.ReadsTooLittle`).
- The tics delta of a task is shown as an unsigned 32-bit number. The deltas shown add up to
  the task's tics count throughout a run exactly when no delta, the first one against 0
  included, runs backwards or needs more than 32 bits (`PidsHistory.TelescopeExact` over
  fetches, `PidsStacks.ContextExact` over every run of calls, `PidsStacks.TicsShown` for what
  a caller reads off its stacks). Nothing keeps a delta in that range: a pid can be taken over
  by a younger task, and an old task can have used more (`PidsHistory.TelescopeFails`). Modulo 2^32 the
  sums are always right.
- The disk statistics clock counts whole seconds and can be set back. A device the previous
  read missed starts afresh exactly when nothing is remembered of it, or something from
  neither the second of this read nor that of the previous one, or its counters have not
  changed since (`Diskstats.AfreshOnAnyClock` over every run). What is remembered is when it
  was last listed, until a lookup by name drops it. `Diskstats.MissedWithinASecond` is a run
  within one second, `Diskstats.SteppedBack` one in which any number of reads missed the
  device. On a clock that does not run backwards lookups make no difference
  (`Diskstats.StartsAfresh`).
- A proc stream never empties its buffer. When every write is taken whole, the file receives
  a text once exactly when a single call carries a newline and nothing comes after it
  (`Procio.SentOnce`); any further newline sends all earlier text again (`Procio.WriteCalls`),
  and after a split it sends a front part of the earlier text first (`Procio.WriteAfterSplit`).

- A newline ends a string of a NUL-separated file as a NUL does, but only a final NUL keeps
  the code from adding one. A text yields exactly the strings that are ended in it, and one
  more, possibly empty, exactly when something stands behind the last end or that end is a
  newline (`Readproc.StringsAre` for every text, `Readproc.File2StrVecParts` for what the
  pointers show). Strings that are each ended by a newline yield an empty one more
  (`Readproc.AllEndedBy`).

One theorem has a limit that the code as built stays within.

- Signal names and numbers round-trip without exception for tables none of whose names
  starts with an R, as that of local/signals.c:90-153 (`Signals.RoundTripAlways`). For any
  other table the exact exception is a real-time name borne by another signal
  (`Signals.RoundTrip`, `Signals.ShadowedRealTime`).

## Model

| member | source | states |
|---|---|---|
| `PidsHistory.History.constructor` | library/pids.c:709-720 | a new history holds two empty frames |
| `PidsHistory.History.HistGet` | library/pids.c:723-735 | the chain walk returns the slot of the last record put for that pid in the previous fetch, and nothing for any other pid; it terminates because links strictly decrease |
| `PidsHistory.History.HistPut` | library/pids.c:738-746 | the record is hooked in front of its chain, and nothing else changes |
| `PidsHistory.StoredPut` | library/pids.c:738-746 | hooking in front keeps the whole table: every link is the previous index with the same hash, every head the last one |
| `PidsHistory.History.GrowMaybe` | library/pids.c:751-784 | growing both arrays in mid-fetch keeps both frames and leaves room |
| `PidsHistory.History.MakeHist` | library/pids.c:751-784 | the task joins the new frame; its deltas are those against its last record in the saved frame, and a task unknown there reports its whole count |
| `PidsHistory.History.ToggleHistory` | library/pids.c:787-802 | the new frame becomes the saved one and an empty one starts |
| `PidsHistory.DeltasAre` | library/pids.c:773-780 | from the two tasks alone: the deltas of tics, major and minor faults of a pid in two successive fetches are the growth of each, modulo 2^32, and nothing else in the task changes |
| `PidsHistory.DeltasOfNew` | library/pids.c:773-780 | a task the previous fetch did not list shows all its tics, its fault deltas left as they are |
| `PidsHistory.FaultsTelescope` | library/pids.c:775-776 | the major, and the minor, fault deltas add up to the growth since the first fetch modulo 2^32 |
| `PidsHistory.FaultsExact` | library/pids.c:203-206 | they add up exactly throughout a run if and only if no growth between two fetches needs more than an int |
| `PidsHistory.ReportedIsGrowth` | library/pids.c:751-784 | what a fetch shows for a task is the low 32 bits of its growth since the previous fetch, through the int it is stored in and the unsigned item that shows it (library/pids.c:308) |
| `PidsHistory.DeltasTelescope` | library/pids.c:751-784 | over a run in which a pid is in every fetch, the deltas shown add up to its latest tics count modulo 2^32 |
| `PidsHistory.TelescopeExact` | library/pids.c:308 | the sums of what is shown are right throughout the run if and only if no delta, the first one against 0, runs backwards or needs more than 32 bits |
| `PidsHistory.TelescopeFails` | library/pids.c:308 | both ways to fail: 100 tics and then 10 add up to 10 and 2^32 too many, and a first count of 2^32 + 5 is shown as 5 |
| `PidsStacks.PidsInfo.constructor` | library/pids.c:1297-1394 | a new context satisfies every invariant |
| `PidsStacks.PidsInfo.StacksAlloc` | library/pids.c:1179-1221 | a new extent of distinct stacks, each labelled with the current items and its values zero, without disturbing those in use |
| `PidsStacks.PidsInfo.CleanupStack` | library/pids.c:941-953 | the values in front of the end marker are zeroed and the labels stay; the loop stops at the marker |
| `PidsStacks.PidsInfo.CleanupStacksAll` | library/pids.c:956-967 | the same for every stack of every extent |
| `PidsStacks.PidsInfo.ItemizeStacksAll` | library/pids.c:1015-1026 | afterwards every live stack is labelled with the current items, its values untouched |
| `PidsStacks.PidsInfo.AssignResults` | library/pids.c:923-938 | every result holds its own item's value for this task |
| `PidsStacks.PidsInfo.AnchorGrow` | library/pids.c:1224-1282 | growing the anchor in mid-fetch keeps the stacks already filled and continues with live, distinct ones |
| `PidsStacks.PidsInfo.ProcTally` | library/pids.c:1130-1165 | the task is counted, and recorded and compared exactly when some item needs history |
| `PidsStacks.TallySummarises` | library/pids.c:1130-1165 | each state counter counts its state and the counters sum to the total, after every task |
| `PidsStacks.PidsInfo.FetchOne` | library/pids.c:1224-1282 | one more stack shows this task, and all stacks filled before keep their contents |
| `PidsStacks.PidsInfo.FetchLoop` | library/pids.c:1224-1282 | after the loop stack number i shows task number i, for all tasks read, and the frame and the summary are those of the tasks |
| `PidsStacks.PidsInfo.StacksFetch` | library/pids.c:1224-1282 | the caller is shown one stack per task read and then a NULL, against the frame of the previous fetch |
| `PidsStacks.PidsInfo.New` | library/pids.c:1297-1394 | a context exists unless the items are invalid, and then has those items and an empty frame |
| `PidsStacks.PidsInfo.Get` | library/pids.c:1491-1535 | which reader serves the call and what the get stack then shows; the reader, and what is to be read, are replaced only when a table is opened, and items and frame stay |
| `PidsStacks.PidsInfo.Reap` | library/pids.c:1545-1579 | null unless at least one task was found; otherwise all tasks shown, and the state moves as the reference says |
| `PidsStacks.PidsInfo.Select` | library/pids.c:1643-1688 | the same for a selection, where an empty result is a result |
| `PidsStacks.PidsInfo.Reset` | library/pids.c:1582-1633 | invalid items change nothing; otherwise every stack that is kept is relabelled and zeroed; with more items than before all stacks are given up and the open table with them; frame and reader survive |
| `PidsStacks.Run` | library/pids.c:1297-1688 | after any run of new, reset, get, reap and select every invariant holds, and the items, the frame, the open table and the reader are those of the value-level reference |
| `PidsStacks.ReaderIs` | library/pids.c:1491-1688 | from the calls alone: the items, the open table with the flags it was opened with, and the installed reader after any run |
| `PidsStacks.OwnReader` | library/pids.c:1491-1688 | a get is served by its own kind of reader if and only if its table was not open yet, or nothing was fetched since it was opened, or the last fetch since was of the same kind |
| `PidsStacks.GetAfterRun` | library/pids.c:1491-1535 | the same on the object: any run and then a get, and what its stack shows |
| `PidsStacks.ReaderTaken` | library/pids.c:1545-1579 | a run in which a reap of tasks leaves a later get for threads with the wrong reader |
| `PidsStacks.ReadsEnough` | library/pids.c:1508-1517 | after any run, a get reads all its current items need if and only if its table was not open yet, or the items it was opened for needed as much |
| `PidsStacks.FlagsExact` | library/pids.c:1059-1080 | what is to be read is what any of the items needs, and nothing else |
| `PidsStacks.ReadsTooLittle` | library/pids.c:1600-1633 | a run in which a reset to other items leaves a later get without what they need |
| `PidsStacks.FrameIsSaved` | library/pids.c:1224-1282 | while some item needs history, the frame a fetch compares with is that of the fetch before it, whatever gets and resets came in between |
| `PidsStacks.FrameIs` | library/pids.c:1224-1282 | and for every run: the frame is that of the last fetch if some item needed history then, and empty otherwise |
| `PidsStacks.ContextTelescopes` | library/pids.c:751-802 | over any such run of calls what the fetches show for a task they all list adds up to its latest tics count modulo 2^32 |
| `PidsStacks.ContextExact` | library/pids.c:751-802 | and after every call it is that count itself if and only if no delta between the fetches runs backwards or needs more than 32 bits |
| `PidsStacks.ReadTics` | library/pids.c:308 | the value that the stack shown for a task holds for the tics item is the low 32 bits of its growth |
| `PidsStacks.TicsShown` | library/pids.c:1297-1688 | the same on the object: adding up the values read off the stacks after each fetch, for any run of calls on a context that keeps the item |
| `Strutils.MergeOne` | local/strutils.c:184-241 | one comparison sends out the smaller head, the left one on a tie, and keeps the merge ordered |
| `Strutils.MergeTwo` | local/strutils.c:184-241 | two adjacent sorted segments become one sorted segment of the same positions, whatever was in front of it untouched |
| `Strutils.MergePass` | local/strutils.c:184-241 | a pass doubles the length of the sorted segments, a last one without a partner included |
| `Strutils.StableSort` | local/strutils.c:184-241 | terminates with the stable sort in the caller's array, whichever buffer the last pass wrote, the overflow test included |
| `Strutils.UsesEveryPosition` | local/strutils.c:184-241 | the result takes every position of the input |
| `Strutils.StableSortPermutes` | local/strutils.c:184-241 | nothing is lost or duplicated |
| `Strutils.StableSortAscends` | local/strutils.c:184-241 | in plain terms: the result ascends, and items that compare equal keep their order |
| `Strutils.StableSortUnique` | local/strutils.c:184-241 | for a total preorder there is only one stable sort, so the contract pins the result down |
| `Signals.SignalNumberToName` | local/signals.c:249-267 | the first entry with the number, else 0, RTMIN or RTMIN+n in range, else a dash |
| `Signals.SignalNameToNumber` | local/signals.c:191-243 | a number, a listed name in any case with or without SIG, or RTMIN, RTMAX, RTMIN+n and RTMAX-n inside the range; -1 for everything else |
| `Signals.RealTimeExact` | local/signals.c:217-242 | reading a real-time name gives the number its spelling means, and -1 exactly when it means none |
| `Signals.StrtolDecimal` | local/signals.c:191-243 | a decimal number reads back as itself, to its end |
| `Signals.StrtolReads` | local/signals.c:199-206 | blanks, a sign and digits read as the signed number up to the first character that is no digit |
| `Signals.StrtolOnly` | local/signals.c:199-206 | nothing else reads as a number |
| `Signals.NumberExact` | local/signals.c:199-206 | a spelled number is that number, or -1 if something follows it, if it is negative, or if an int cannot hold it |
| `Decimals.LeadingZero` | local/signals.c:199-206 | zeros in front of a number count nothing |
| `Signals.SameLetter` | local/signals.c:207-216 | two characters are taken for the same exactly if they are, or are one letter in both cases |
| `Signals.SmallLetterUnfound` | local/signals.c:212-216 | an entry whose name starts with a small letter is never found |
| `Signals.UnlistedExact` | local/signals.c:258-266 | an unlisted number is printed as 0, RTMIN or a dash exactly when it is 0, the first real-time signal, or none of either |
| `Signals.RoundTrip` | local/signals.c:191-267 | for every number whose name is not a dash, every spelling of that name reads as the number, if and only if no entry bears the real-time name made up for it |
| `Signals.RoundTripAlways` | local/signals.c:90-267 | without exception for tables none of whose names starts with an R, as the one in the source |
| `Signals.MaxReads` | local/signals.c:227-242 | RTMAX-n reads as the n-th number below the last for every n in the range, and as -1 beyond it |
| `Signals.ShadowedRealTime` | local/signals.c:191-267 | a table, other than that of the source, for which a printed name reads as another number |
| `Signals.FirstOfGroup` | local/signals.c:324-368 | by stability, the first of each group of equal numbers after sorting is the one the table lists first |
| `Signals.PrintSignals` | local/signals.c:324-368 | the listing visits every distinct non-zero number once, ascending, under the name signal_number_to_name gives it |
| `Signals.ListingUnique` | local/signals.c:324-368 | that determines the listing, so both printers list the same |
| `Escape.AcceptedIsEncoding` | library/escape.c:46-85 | soundness: what the range arithmetic accepts is the encoding of a scalar value outside the private-use areas |
| `Escape.EncodingIsAccepted` | library/escape.c:46-85 | completeness: every such encoding is found, with its length, whatever follows |
| `Escape.U8CharLenExact` | library/escape.c:46-85 | 0 for an empty buffer only, n exactly when the buffer starts with an n-byte character of RFC 3629, section 4, that is not rejected, -1 otherwise |
| `Escape.EscapedExact` | library/escape.c:98-123 | the byte tests turn away exactly C0, DEL, C1 and whatever is no character |
| `Escape.SanitisedIsPrintable` | library/escape.c:98-123 | the result is well-formed UTF-8 of printable characters only |
| `Escape.SanitisedFixpoint` | library/escape.c:98-123 | sanitising changes nothing exactly on printable text |
| `Escape.SanitisedIdempotent` | library/escape.c:98-123 | doing it twice is doing it once |
| `Escape.SanitisedBytes` | library/escape.c:98-123 | each byte keeps its value or becomes a question mark, and no control byte is left |
| `Escape.PrintablePrefixKept` | library/escape.c:98-123 | printable text in front survives untouched, whatever follows |
| `Escape.CutCharacter` | library/escape.c:125-145 | a character cut by the end of the buffer leaves only question marks |
| `Escape.TruncatedText` | library/escape.c:125-145 | truncated printable text comes out as its first whole characters and fewer than four question marks |
| `Escape.EscOne` | library/escape.c:98-123 | one step of the loop rewrites what it passes over and nothing else, without reading behind the end |
| `Escape.EscCtl` | library/escape.c:98-123 | the loop rewrites the first bytes as the reference says, leaves the rest, and terminates |
| `Escape.EscAll` | library/escape.c:90-96 | in other locales each unprintable byte becomes a question mark |
| `Escape.EscapeStr` | library/escape.c:125-145 | length and contents for every buffer size and source, the two early returns included |
| `Watch.RowsArePending` | src/watch.c:992-1085 | laying out token by token, with carry, gives the layout line by line |
| `Watch.LayoutLines` | src/watch.c:992-1085 | the lines of any output's layout consist of characters and tabs, so that the next two rows cover every line |
| `Watch.WrappedLine` | src/watch.c:1055-1069 | with wrapping, the rows of a line of characters and tabs, joined, are what the line shows and fewer blanks than a row: nothing lost, repeated or moved |
| `Watch.CutLine` | src/watch.c:1055-1069 | without wrapping, a line is one row, as much of what it shows as fits |
| `Watch.PlainShown` | src/watch.c:1071-1082 | a line without tabs shows its characters |
| `Watch.EachCellOnce` | src/watch.c:992-1085 | written row by row, every cell is written exactly once |
| `Watch.Screen.DisplayChar` | src/watch.c:745-868 | the cell shown, its highlighting, and the change reported, in every mode |
| `Watch.Screen.MyClrToEol` | src/watch.c:885-898 | the rest of the row is blank, cell by cell when differences matter |
| `Watch.Screen.MyClrToBot` | src/watch.c:900-918 | the rest of the screen is blank, likewise |
| `Watch.Screen.LayRow` | src/watch.c:992-1085 | one turn of the outer loop leaves a row as the layout says, with the right token carried over |
| `Watch.Screen.RunCommand` | src/watch.c:988-1085 | the finished screen is the reference layout painted over the old screen; with a difference mode on, every cell was written once, and on a later screen the flag is set exactly when some character differs |
| `Watch.Screen.LaidOut` | src/watch.c:988-1085 | what the loop's invariant means once the pass is finished |
| `Watch.WatchLoop` | src/watch.c:1346-1405 | watch exits after the first pass at which a documented condition holds, looking back over all counted passes, and not before |
| `Watch.PassCounted` | src/watch.c:1388-1405 | a first pass, or one after a change of size, leaves the count alone; any other extends or breaks the run of quiet passes |
| `Watch.RunPass` | src/watch.c:988-1085 | from a screen that shows a text, a pass shows the layout of its output, sees a change exactly when that is another text, and highlights the cells whose character changed and, cumulatively, those that were |
| `Watch.RunPasses` | src/watch.c:745-868 | passes over any outputs on a screen of fixed size, in terms of the layouts shown: with cumulative differences a cell is highlighted if and only if some pass after the first changed its character, with plain ones if and only if the last pass did, without them never |
| `Watch.ExitSeen` | src/watch.c:1388-1405 | on a screen of fixed size the exit condition in terms of what was shown: another layout than just before, or as many equal ones as asked for |
| `Watch.WatchOutputs` | src/watch.c:1346-1405 | passes and exit condition composed: for any outputs on a screen of fixed size and an option to exit, watch stops at the first layout that differs from the one before, or that ends the first run of equal layouts long enough |
| `Diskstats.UpdateLookup` | library/diskstats.c:397-421 | an update changes one device, as its age says, and no other device notices |
| `Diskstats.ReadExact` | library/diskstats.c:511-568 | a read updates each device it lists once, leaves the others alone, and keeps one entry per name |
| `Diskstats.TwoReads` | library/diskstats.c:397-421 | a device in two successive reads has the numbers of the second and keeps the kind it was first given; a new one is classified |
| `Diskstats.RunCurrent` | library/diskstats.c:511-568 | over any orderly run, a device carries the latest stamp exactly when the latest read listed it, with its counters |
| `Diskstats.DeltasSpanOneRead` | library/diskstats.c:397-421 | when the clock moves on between reads: a device in two successive reads carries both counters; one the previous read missed carries its new counters twice, even if it existed earlier |
| `Diskstats.RunRemembers` | library/diskstats.c:511-568 | over any run on a clock that does not run backwards, the list holds for every device when it was last listed and with which counters, unless that is older than the two latest reads |
| `Diskstats.HistoryExact` | library/diskstats.c:372-421 | on a clock that does not run backwards, whatever was looked up: the old counters are those the device was last listed with, unless that was before the second of the previous read |
| `Diskstats.StartsAfresh` | library/diskstats.c:372-421 | on such a clock a device the previous read missed starts afresh if and only if it was never listed, or last in a second before that of the previous read, or its counters are unchanged |
| `Diskstats.MissedWithinASecond` | library/diskstats.c:535-537 | a run within one second in which a device missed by the previous read is compared with the read before that |
| `Diskstats.RunKeeps` | library/diskstats.c:372-568 | over any run on any clock, the list holds for every device exactly when and with which counters it was last listed, lookups that dropped it taken into account |
| `Diskstats.HistoryOnAnyClock` | library/diskstats.c:372-421 | on any clock the old counters are those still remembered, unless they date from neither the second of this read nor that of the previous one |
| `Diskstats.AfreshOnAnyClock` | library/diskstats.c:372-421 | on any clock a device the previous read missed starts afresh if and only if nothing is remembered of it, or something from neither of these seconds, or its counters are unchanged |
| `Diskstats.SteppedBack` | library/diskstats.c:535-537 | a run on a clock that steps back in which a device missed by any number of reads is compared with what it was before them |
| `Diskstats.Info.NodeAdd` | library/diskstats.c:284-320 | the node is appended and the list stays acyclic |
| `Diskstats.Info.NodeCut` | library/diskstats.c:349-369 | exactly that node is unlinked, and NULL or a node of no list is answered with NULL |
| `Diskstats.Info.NodeGet` | library/diskstats.c:372-394 | the first node of that name, unless it is stale: then it is dropped |
| `Diskstats.Info.NodeUpdate` | library/diskstats.c:397-421 | the list changes as the reference update says |
| `Diskstats.Info.ReadFailed` | library/diskstats.c:511-568 | both stamps move on, all lines in front of a malformed one take effect, and the result says whether there was one |
| `Diskstats.Info.StacksFetch` | library/diskstats.c:627-682 | with growth in mid-walk, stack number i shows node number i, and the caller sees those stacks and a NULL |
| `Diskstats.Run` | library/diskstats.c:284-568 | over any run of reads and lookups the linked list holds what the reference says |
| `Stat.DeriveUnique` | library/stat.c:592-632 | the derived totals add up; the old ticks are kept unless some field would run backwards, and then no field does |
| `Stat.StatInfo.ReadSlot` | library/stat.c:837-857 | a slot takes the line's counters, and its old ticks are what it held before |
| `Stat.StatInfo.ReadSlots` | library/stat.c:833-877 | with growth in mid-loop, every cpu line fills its slot, the line behind them leaves what it held in the next slot, and the count is the number of cpu lines |
| `Stat.StatInfo.ReadCpus` | library/stat.c:804-879 | after a read the summary and every cpu are consistent and monotone, against what each slot held before where that is known; the lines of at least seven counters are the cpus; a short first line fails and leaves what it held |
| `Stat.ReturningCpu` | library/stat.c:837-857 | over three reads: a cpu that the second one misses is compared with the counters its slot last held when it comes back |
| `Stat.StatInfo.AddToNode` | library/stat.c:722-746 | the cpu's ticks are added to its own node and to no other |
| `Stat.StatInfo.MakeNumaHist` | library/stat.c:692-749 | every node holds the sums over exactly its cpus, and their number; every cpu knows its node |
| `Stat.FoldingConserves` | library/stat.c:692-749 | whatever is summed, the sum over all nodes is the sum over all cpus that have a node |
| `Stat.FoldedTotals` | library/stat.c:692-749 | so each field, new and old, and the counts, add up over the nodes |
| `Stat.NodeIsSound` | library/stat.c:692-749 | node deltas are never negative and node totals add up |
| `Stat.StatInfo.ReadAndFold` | library/stat.c:692-879 | a read and its folding end to end: nodes are monotone and consistent, and every field, new and old, and the counts, add up over the nodes to what they are over the cpus as read |
| `Sysctl.SlashDot` | src/sysctl.c:130-152 | in place: the text as it was, or with every slash and dot exchanged, so that its first separator, if any, is the wanted one |
| `Sysctl.NotationUnique` | src/sysctl.c:130-152 | which determines the text |
| `Sysctl.PrintedKeyNamesPath` | src/sysctl.c:130-152 | the key printed for a path names that path again, whichever notation it came from |
| `Sysctl.SamePath` | src/sysctl.c:130-152 | two keys name one path exactly when they are the same up to notation |
| `Sysctl.SettingNew` | src/sysctl.c:166-199 | the path of a setting: /proc/sys/ and the key, a leading dash left out, in the notation whose first separator is a slash |
| `Sysctl.SettingList.Add` | src/sysctl.c:201-215 | appended at the tail, the list staying acyclic |
| `Sysctl.SettingList.FindPath` | src/sysctl.c:217-227 | the first entry that names or excludes the path, NULL exactly when there is none |
| `Sysctl.SettingList.WriteSettingList` | src/sysctl.c:713-745 | the writes in order, that each path is last written its documented value, and that the result reports a failure exactly when some write failed, equal writes answering alike or not |
| `Sysctl.WritesResolve` | src/sysctl.c:713-745 | a path ends with its last explicit setting; failing that, unless some entry names or excludes it, with the last pattern that expands to it; else untouched |
| `Sysctl.OutcomeExact` | src/sysctl.c:713-745 | the same in plain terms: the last line naming the path wins; else a line that excludes it or bears its name leaves it alone; else the last pattern that expands to it wins; else nothing is written |
| `Sysctl.WritesCarry` | src/sysctl.c:713-745 | every write carries key, value and flag of the setting it is for, to a path that setting is for, in the order of the settings |
| `Sysctl.OrderIndependent` | src/sysctl.c:713-745 | how explicit lines, patterns and excludes are interleaved makes no difference |
| `Pgrep.IsTokenSafe` | src/pgrep.c:636-661 | safe exactly when not empty and of safe characters only |
| `Pgrep.WorstSize` | src/pgrep.c:663-711 | the first pass computes the worst-case size |
| `Pgrep.QuoteFits` | src/pgrep.c:663-711 | the quoted text never exceeds it |
| `Pgrep.WorstReached` | src/pgrep.c:663-711 | and no smaller space would do |
| `Pgrep.LeftAlone` | src/pgrep.c:636-661 | a token is left without quotes exactly when it is not empty and consists of letters, digits and nine other characters |
| `Pgrep.ShellQuoteVector` | src/pgrep.c:663-711 | no write passes the end of the buffer, and a shell splits the result into exactly the arguments |
| `Pgrep.QuoteRoundTrip` | src/pgrep.c:663-711 | splitting after section 2.2 of the POSIX Shell Command Language returns the vector, for every vector |
| `Pgrep.QuoteInjective` | src/pgrep.c:663-711 | different vectors are quoted differently |
| `Readproc.ReadWhole` | library/readproc.c:792-830 | the block read is what the chunks up to the first short one or the cap hold, with a final NUL; nothing for an empty file or an error |
| `Readproc.CountEnds` | library/readproc.c:831-841 | one pointer per string is counted, up to the point where an int could overflow, and newlines become NULs |
| `Readproc.PointAtStrings` | library/readproc.c:843-855 | each pointer points at its string, in order |
| `Readproc.File2StrVec` | library/readproc.c:783-857 | one aligned slot per string and one for the NULL, the whole below INT_MAX; fewer strings only where one more pointer would reach it |
| `Readproc.File2StrVecWhole` | library/readproc.c:783-857 | a file below the caps, delivered in full chunks, yields exactly its strings |
| `Readproc.GatherChunked` | library/readproc.c:792-823 | reading in full chunks gathers the whole file |
| `Readproc.GatherExact` | library/readproc.c:792-823 | for any chunks: the first of them are gathered, up to a short one, to the last, or to where the cap would be reached |
| `Readproc.FailsExact` | library/readproc.c:792-827 | reading fails exactly on an error behind nothing but full chunks below the cap |
| `Readproc.NothingLost` | library/readproc.c:834-855 | the strings and the bytes that ended them make up the text again |
| `Readproc.StringsAre` | library/readproc.c:806-811 | for every text, given as strings without NUL or newline, the end of each, and what stands behind the last end: its strings are these, and one more exactly if something stands there or that end is a newline |
| `Readproc.AllEndedBy` | library/readproc.c:806-855 | strings that are each ended by a NUL are exactly the strings; newlines as ends add an empty one; without its last byte the text yields exactly the strings, unless the last one is empty |
| `Readproc.File2StrVecParts` | library/readproc.c:783-857 | so for every text below the caps the pointers show exactly these strings, in order |
| `ProcStatus.KnownHashes` | library/readproc.c:193-268 | each known name hashes to the slot that holds it |
| `ProcStatus.HashIsLinearSearch` | library/readproc.c:286-293 | on a line that does not start with a colon, the hash test accepts exactly the known names, each in its own slot |
| `ProcStatus.DispatchLine` | library/readproc.c:285-302 | one turn of the loop gives up, handles or passes over a line as a linear search would |
| `ProcStatus.DispatchFields` | library/readproc.c:273-302 | over a whole text, the handlers entered are those a linear search of the names would enter |
| `ProcStatus.FieldsOfText` | library/readproc.c:273-302 | on a text of well-formed lines that search yields the known names, each once and in order |
| `ProcStatus.DispatchText` | library/readproc.c:273-302 | so the handlers entered for any such text are those of its known fields, in order |
| `Procio.Cookie.Append` | local/procio.c:225-234 | the bytes are appended, with or without reallocation |
| `Procio.Cookie.SplitWrite` | local/procio.c:248-275 | the lines written, the result, the buffer and the bytes left unaccounted for, whatever each write answers |
| `Procio.Cookie.ProcWrite` | local/procio.c:211-282 | what is buffered, what is written, what is returned and what the buffer then holds, with and without a newline and for every answer of the kernel, the later writes of a split included |
| `Procio.WriteInParts` | local/procio.c:211-282 | text handed over in several calls and refused in one piece: whatever later writes answer, the bytes they take are a front part of it with delimiters turned into newlines at most, all of it exactly on success; if they take all they are given, the lines are some cutting of the text, exactly when there is one and the stream has a delimiter |
| `Procio.WriteCalls` | local/procio.c:211-282 | any calls on one stream, every write taken whole: each newline sends everything gathered since the stream was opened |
| `Procio.SentOnce` | local/procio.c:236-241 | so the file receives the text once if and only if a single call carries a newline and nothing comes after it, or the text is empty |
| `Procio.WriteAfterSplit` | local/procio.c:248-275 | a newline call after one that was split sends as many bytes from the front of the earlier text as its last piece was long, and then its own |
| `Procio.FullWrites` | local/procio.c:248-275 | writes that take everything write the greedy pieces as lines, and succeed exactly when the split does |
| `Procio.NothingGarbled` | local/procio.c:248-275 | after short or failing writes too, what the writes took is a front part of the text but for delimiters, and success means all of it |
| `Procio.SplitIsCutting` | local/procio.c:248-275 | the pieces are short enough, end at delimiters, and join to the text |
| `Procio.GreedyIsBest` | local/procio.c:248-275 | going as far as the window allows never leads into a dead end and never takes more pieces than necessary |
| `Procio.SplitExact` | local/procio.c:248-275 | the split succeeds exactly on the texts that can be cut at all |
| `Procio.WindowsSuffice` | local/procio.c:248-275 | a delimiter in every window and a final newline are enough |
| `Procio.LinesWritten` | local/procio.c:248-275 | each line is at most LINELEN long, ends in a newline, and differs from its piece in its last byte at most |
| `Procio.SameLength` | local/procio.c:248-275 | the lines together are the text but for delimiters turned into newlines |
| `Vmstat.SampleLoop` | src/vmstat.c:495-572 | corrected idle ticks are never negative, their sum and the debt make up the raw sum, and no more was shown than the raw sum ever reached; every line whose other ticks are sane totals 98 to 103 |
| `Vmstat.PayDebt` | src/vmstat.c:528-536 | what is owed is taken from the next sample, and only one of idle and debt is left |
| `Vmstat.Percentages` | src/vmstat.c:538-568 | the six shares of the total, guest ticks taken out of user ticks, for any sample; a sample without ticks is all idle; 98 to 103 in all when no tick count runs backwards and guest ticks are among the user ticks |
| `Vmstat.SharesTotal` | src/vmstat.c:563-568 | six rounded shares of any total add up to 98 at least and 103 at most |
| `Vmstat.RoundedTruncates` | src/vmstat.c:540-568 | for any sample, each share is the quotient without its fraction, half the divisor added before |
| `Vmstat.PrintField` | src/vmstat.c:363-378 | columns are won back one by one while the digits still fit; in front of the digits there are only blanks |
| `Vmstat.LeastLagNext` | src/vmstat.c:348-391 | the least possible lag after one more field |
| `Vmstat.ExcessBound` | src/vmstat.c:348-391 | no line that shows all digits, and ends no field before its declared end, lags less than its worst run of fields |
| `Vmstat.LeastIsLeftmost` | src/vmstat.c:348-391 | so the line with the least lag is such a line, and of all of them ends every field furthest left |
| `Vmstat.OutputLine` | src/vmstat.c:348-391 | no digit is lost, all other columns are blank, and of all lines that lose none and end no field before its declared end, every field ends as far left as possible |

## Left out

What a member states less than the code does:

- PidsHistory.History.MakeHist: works on a task as a value, not in place, and leaves the fields unrelated to history abstract.
- PidsStacks.PidsInfo.AssignResults: the setters are one abstract function of item and task; those for strings and vectors hand over what the task owns (library/pids.c:165-178), so such an item given twice shows a hint the second time, and items with such setters are taken to be distinct.
- PidsStacks.PidsInfo.Get: an open table is remembered as its kind and the flags it was opened with; what reading with too few flags leaves in a task is an input.
- PidsStacks.PidsInfo.Select: the ids selected by are not modelled; the tasks that match are an input.
- Signals.RoundTrip: assumes names that are distinct whatever their case, start with a capital letter and carry no SIG prefix, as in every table the code is built with; `Signals.SmallLetterUnfound` is why.
- Signals.PrintSignals: separators, columns and widths of the two listings; both share the loop that decides what is visited.
- Strutils.StableSort: a single item wider than one byte is excluded, because that call fails the assertion at the head of the loop.
- Stat.StatInfo.ReadCpus: slots are positional, so nothing is said of a slot's old ticks belonging to the same cpu, nor of the past of a slot that reallocation has just made; the build with CPU_IDLE_FORCED is left out.
- Diskstats.HistoryExact: assumes a clock that does not run backwards; `Diskstats.HistoryOnAnyClock` does not.
- Diskstats.StartsAfresh: likewise, see `Diskstats.AfreshOnAnyClock`.
- Diskstats.DeltasSpanOneRead: assumes that the clock moves on between reads; the general case is `Diskstats.HistoryOnAnyClock`.
- Diskstats.Info.NodeGet: eviction happens on lookup by name only, so nothing is said of a fetch leaving out devices that are gone.
- Watch.Screen.RunCommand: the build without wide characters, without follow mode, and with colour sequences already taken for one token each.
- Watch.Screen.MyClrToEol: without a difference mode the code first moves to a column that may be the width of the window (src/watch.c:895); the model takes that for a move that does nothing.
- Watch.Screen.MyClrToBot: likewise (src/watch.c:914).
- Watch.WatchOutputs: the size stays the same and an option to exit is given; without one watch does not stop by itself.
- Watch.WatchLoop: only the counting; the prompts after a failing command, signals and waiting between passes are not part of this model.
- Vmstat.SampleLoop: assumes that idle ticks fit an int together with the debt, and that products and sums of ticks do not overflow.
- Procio.Cookie.SplitWrite: the step of one byte in the file before each later write (local/procio.c:262-263) is not modelled; `written` holds what each write took, not where it landed in the file.
- ProcStatus.DispatchFields: a handler is assumed to leave the cursor within its line; lines that start with a colon are excluded, because an empty name matches an empty slot of the table.
- Pgrep.QuoteRoundTrip: the splitter knows backslashes, single quotes, blanks and special characters; what a shell makes of a word afterwards (expansions, reserved words, assignments, job names) is not modelled.
- Sysctl.SettingList.WriteSettingList: whether a write fails is an input; what a path holds after a write that failed is not described.

What is not modelled at all:

- Files, directories and descriptors, allocation failures, locale calls and libsystemd.
- `read_unvectored` and `fill_cgroup_cvt` in library/readproc.c, which only replace and escape bytes and would add easy members.
- The handlers of `status2proc`, the item tables and their one-line setters, reference counts, sorting of stacks and the debugging functions.
- library/slabinfo.c, library/meminfo.c and library/vmstat.c, whose stacks repeat those of pids and diskstats.
- Small tables and caches (library/capname.c, library/devname.c, library/pwcache.c), and floating-point formatting in local/units.c.
- curses, colours, headers and screenshots of watch; only the grid of characters and its highlighting are kept.
- Option parsing, regular expressions, and the other command-line programs.
