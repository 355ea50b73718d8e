# DbgAtlas core, modelled and proved in Dafny

This project models the hard parts of DbgAtlas and proves what they promise.

- **ETW extraction** (`Etw*.dfy`, `Totals.dfy`). A trace is a sequence of decoded events. `EtwSpec` says what each
  operation of the extraction does to the abstract state; the class `EtwContext.ExtractionContext` keeps the tables,
  queues and counters in place and is proved to implement it; `Run` and `Extract` fold whole traces. On that stand the
  laws over every trace: the process tree is the set of descendants of the root; parked file events, OP_END records and
  stack walks are conserved; every accepted file event is written exactly once or was superseded by a CLOSE; the next use
  of its IRP decides what becomes of a parked event, and a record is completed if and only if its OP_END came
  (`EtwRecords`, `EtwFates`); which events are admitted, which walk joins which event and what the bounded cache holds follow
  from the fields of the events (`EtwAdmission`, `EtwWalks`); the path caches and the module map answer questions about the
  history; every event is accounted for; and extracting a filtered trace gives what extracting the full trace gives, with
  the exact condition under which that holds.
- **Windows argument quoting** (`WindowsArgs.dfy`), against the documented command-line parser.
- **JSON escaping** (`JsonEscape.dfy`), against a decoder for section 7 of RFC 8259.
- **IDA adapter text and paging** (`IdaNumbers.dfy`, `IdaConvert.dfy`, `IdaPattern.dfy`, `IdaPaging.dfy`), with the laws
  of numerals and pattern texts character by character (`IdaNumerals.dfy`) and the list of matches told without the search
  (`IdaHits.dfy`).
- **IDA session protocol**: `IdaSession.dfy` is a state machine over every interleaving of message senders and workers;
  `IdaClient.dfy` adds what callers can do with a session - shared calls side by side, closing under an exclusive borrow
  with a join, dropping after a close - and the laws that hold only then; `IdaOrder.dfy` adds order, progress and outcomes.
- **Preview truncation** (`Utf8.dfy`, `TextPreview.dfy`), over well-formed UTF-8 (section 3 of RFC 3629).

Inputs that come from foreign code are parameters: decoded event fields, the outcome of opening an output file
(`Config.opens`, one answer per attempt), the iteration order of the IRP table (`Config.walkOrder`, any enumeration of
the keys), readable bytes and segments, and the outcome of native IDA calls.

Findings:

- The trace filter judges a file event by the process in its header, the extraction by the decoded process
  (lines 1137-1142 and 1686-1687 of `native/adapters/etw/dbgatlas_etw.cpp`). The filtered trace therefore extracts to the
  same result exactly when no file event of the traced tree is logged under a header process the filter does not follow
  (`EtwFilter.FilterPreservesExtraction`); `EtwFilter.LossExample` is a two-process trace that loses an event. Stack walks
  that happen to be categorised as process events do no harm: they can only make the filter follow more processes.
- A launch line read back with the program-name rule of the C runtime returns the executable exactly when it has no quote
  and is not a quoted name that ends in a backslash (`WindowsArgs.LaunchRoundTrip`); `WindowsArgs.LaunchLossExample` is
  one that does not come back.
- In the paged byte search the second comparison of the row count with the limit (line 1627 of
  `native/adapters/ida/dbgatlas_ida.cpp`) can never succeed, and a limit of zero yields a next offset that does not
  advance (`IdaPaging.ZeroLimitStalls`). A pattern that does not parse is reported only if the search reaches it, so
  following the pages then ends in the error and the matches of the last page are never delivered
  (`IdaPaging.SearchPagesTile`). The saturated stopping point makes a page differ from the slice of all matches exactly
  when both the end of the page and the number of matches reach 2^64 - 1 (`IdaPaging.BoundedSearchIsSearch`).
- The message protocol alone does not make a second close succeed: of two closes sent side by side the second is answered
  WorkerStopped (`IdaSession.SideBySideCloseIsStopped`). The exclusive borrow and the join make it succeed
  (`IdaClient.SecondCloseIsHarmless`); they also make the close behind the worker's loop unreachable
  (`IdaClient.LoopEndsByClose`).
- A CLOSE leaves its IRP ignored until an OP_END finds no begin waiting on it: a begin in between that reuses the IRP does
  not clear the mark (`EtwFates.IgnoredIsHistory`).
- `parse_byte_pattern` has two error branches for bytes that fail to parse (lines 1565 and 1573 of the same file); after
  the hex check they are unreachable (`IdaPattern.ParseHexByte`).

## Model

| member | source | states |
|---|---|---|
| `EtwContext.AppendStackAddresses` | native/adapters/etw/dbgatlas_etw.cpp:842-848 | the loop appends as `AppendStack` says, whose result `AppendStackIsExact` and `AppendStackInOrder` determine |
| `EtwContext.FindWalk` | native/adapters/etw/dbgatlas_etw.cpp:858-865 | the index of the first walk of the process (and thread), the length if there is none |
| `EtwContext.FindInModules` | native/adapters/etw/dbgatlas_etw.cpp:706-716 | the first module of the list that contains the address |
| `EtwContext.RemoveBase` | native/adapters/etw/dbgatlas_etw.cpp:696-701 | the list without the modules at that base, order kept |
| `EtwContext.ExtractionContext.constructor` | native/adapters/etw/dbgatlas_etw.cpp:620-644 | an empty context whose tree holds the root, if any |
| `EtwContext.ExtractionContext.ProcessTreeAllowsEvent` | native/adapters/etw/dbgatlas_etw.cpp:646-665 | the verdict of the tree filter and the tree after it |
| `EtwContext.ExtractionContext.UpdateModuleMap` | native/adapters/etw/dbgatlas_etw.cpp:667-703 | load replaces, unload removes the module at its base, for its process only |
| `EtwContext.ExtractionContext.FindModule` | native/adapters/etw/dbgatlas_etw.cpp:705-727 | own modules first, then those of process 0 |
| `EtwContext.ExtractionContext.StackFramesFromAddresses` | native/adapters/etw/dbgatlas_etw.cpp:907-924 | frames in reverse address order, each counted as resolved or unresolved |
| `EtwContext.ExtractionContext.TakeMatchingPendingStack` | native/adapters/etw/dbgatlas_etw.cpp:850-875 | the walk handed out and the cache without exactly that walk |
| `EtwContext.ExtractionContext.TakeStackFor` | native/adapters/etw/dbgatlas_etw.cpp:926-932 | own addresses followed by those of the walk that waited |
| `EtwContext.ExtractionContext.CachePendingStack` | native/adapters/etw/dbgatlas_etw.cpp:877-900 | the bounded cache after one more walk, with eviction of the oldest slot and the drop counter |
| `EtwContext.ExtractionContext.AttachStackToPendingFile` | native/adapters/etw/dbgatlas_etw.cpp:1225-1242 | the walk joins the target chosen in iteration order, or nothing changes |
| `EtwContext.ExtractionContext.ProcessStackWalkEvent` | native/adapters/etw/dbgatlas_etw.cpp:1244-1248 | attach, else cache |
| `EtwContext.ExtractionContext.CacheFilePath` | native/adapters/etw/dbgatlas_etw.cpp:1053-1063 | a nonempty path is cached for the object and for the key |
| `EtwContext.ExtractionContext.RemoveFilePath` | native/adapters/etw/dbgatlas_etw.cpp:1065-1072 | both entries are forgotten |
| `EtwContext.ExtractionContext.ResolveFilePath` | native/adapters/etw/dbgatlas_etw.cpp:1074-1098 | own path, else object cache, else key cache, with source and counter |
| `EtwContext.ExtractionContext.DecodedFileEvent` | native/adapters/etw/dbgatlas_etw.cpp:1100-1135 | the record of an event before its path is resolved; an OP_END has no stack, any other event its own addresses and those of the walk that waited |
| `EtwContext.ExtractionContext.WriteFileEvent` | native/adapters/etw/dbgatlas_etw.cpp:1144-1223 | one logged line with frames and counters, or a skipped event if the file does not open |
| `EtwContext.ExtractionContext.CompleteIo` | native/adapters/etw/dbgatlas_etw.cpp:1262-1289 | OP_END: matched and written, suppressed, or unmatched |
| `EtwContext.ExtractionContext.CloseFile` | native/adapters/etw/dbgatlas_etw.cpp:1298-1308 | CLOSE displaces the parked record, marks the IRP, is written and forgets the paths |
| `EtwContext.ExtractionContext.ParkFile` | native/adapters/etw/dbgatlas_etw.cpp:1310-1338 | a begin event displaces and writes the parked record and takes its place; CLEANUP forgets the paths |
| `EtwContext.ExtractionContext.SettleFile` | native/adapters/etw/dbgatlas_etw.cpp:1295-1338 | path cached and resolved, then CLOSE or park |
| `EtwContext.ExtractionContext.ProcessFileIoEvent` | native/adapters/etw/dbgatlas_etw.cpp:1250-1339 | the whole file-event step, rejected and disabled events included |
| `EtwContext.ExtractionContext.ListPending` | native/adapters/etw/dbgatlas_etw.cpp:1343-1347 | the parked records in iteration order |
| `EtwContext.ExtractionContext.FlushPendingFileEvents` | native/adapters/etw/dbgatlas_etw.cpp:1341-1352 | all parked records counted incomplete, written, and the table empty |
| `EtwContext.ExtractionContext.WriteOpenedEvent` | native/adapters/etw/dbgatlas_etw.cpp:1434-1487 | the line of an event whose file is open, with the stack walk that waited for it |
| `EtwContext.ExtractionContext.WriteAllowedEvent` | native/adapters/etw/dbgatlas_etw.cpp:1419-1487 | open, module map, stack and line, or a skipped event |
| `EtwContext.ExtractionContext.WriteExtractedEvent` | native/adapters/etw/dbgatlas_etw.cpp:1412-1488 | events outside the IRP route: filtered by the tree, then written |
| `EtwContext.ExtractionContext.EventRecordCallback` | native/adapters/etw/dbgatlas_etw.cpp:1490-1523 | one event changes the abstract state by `Step` |
| `EtwContext.ExtractFileEvents` | native/adapters/etw/dbgatlas_etw.cpp:2179-2194 | a whole trace plus the flush reach `Extract` |
| `EtwTree.RunTree` | native/adapters/etw/dbgatlas_etw.cpp:646-665 | in every reachable state the tree is the in-order fold of process events |
| `EtwTree.TreeGrows` | native/adapters/etw/dbgatlas_etw.cpp:657-660 | the tree never loses a process |
| `EtwTree.TreeIsDescendants` | native/adapters/etw/dbgatlas_etw.cpp:640-665 | a process is in the tree iff it is the root or a chain of ever later process events leads to it from the root |
| `EtwTree.NoPresetNoGrowth` | native/adapters/etw/dbgatlas_etw.cpp:1517-1522 | without the process preset only the root is followed |
| `EtwInvariants.Reachable` | native/adapters/etw/dbgatlas_etw.cpp:850-900 | every reachable cache and IRP table is well-formed and holds traced processes only |
| `EtwInvariants.CacheIsBounded` | native/adapters/etw/dbgatlas_etw.cpp:565-566 | at most 4096 timestamps, 1 to 32 walks each, all in the order queue |
| `EtwInvariants.RejectedTakesNothing` | native/adapters/etw/dbgatlas_etw.cpp:1128-1142 | a file event that the tree rejects consumes no cached stack |
| `EtwAdmission.TreeStep` | native/adapters/etw/dbgatlas_etw.cpp:646-665 | what an event adds to the followed processes, by its fields |
| `EtwAdmission.CompletionsAre` | native/adapters/etw/dbgatlas_etw.cpp:1007-1015 | completions are the enabled records of the file providers with opcode 76 |
| `EtwAdmission.AcceptedAre` | native/adapters/etw/dbgatlas_etw.cpp:1137-1142 | accepted events are the other enabled file records, of 17 opcodes, whose decoded or else header process is followed |
| `EtwAdmission.ReportedAre` | native/adapters/etw/dbgatlas_etw.cpp:1412-1417 | any other record of an enabled category is reported iff its header process - for a process event its own or its parent process - is followed |
| `EtwIrps.StepIrps` | native/adapters/etw/dbgatlas_etw.cpp:1262-1339 | what any event does to the IRP table and to the file records written |
| `EtwIrps.IrpConservation` | native/adapters/etw/dbgatlas_etw.cpp:1262-1339 | parked = matched + reused + pending; OP_ENDs = matched + unmatched + suppressed; suppressed + ignored IRPs never exceed the CLOSE events with an IRP |
| `EtwIrps.IrpConservationAtEnd` | native/adapters/etw/dbgatlas_etw.cpp:1341-1352 | after the flush parked = matched + reused + incomplete |
| `EtwIrps.OriginConservation` | native/adapters/etw/dbgatlas_etw.cpp:1262-1339 | in every reachable state an accepted event was written, is parked or was superseded, as often as it came |
| `EtwIrps.ExactlyOnce` | native/adapters/etw/dbgatlas_etw.cpp:1250-1352 | every accepted event is written exactly once unless a CLOSE superseded it, and those are counted as reused |
| `EtwStacks.WalkConservation` | native/adapters/etw/dbgatlas_etw.cpp:850-900 | each walk is in one record, in the cache or dropped, as often as it came; the counter counts the drops |
| `EtwStacks.WalkConservationAtEnd` | native/adapters/etw/dbgatlas_etw.cpp:1225-1248 | the same after the flush, so no walk feeds two records |
| `EtwStacks.AppendStackIsExact` | native/adapters/etw/dbgatlas_etw.cpp:842-848 | the target stays in front, every nonzero new address is added once |
| `EtwStacks.RunProvenance` | native/adapters/etw/dbgatlas_etw.cpp:1128-1133 | every stack is the own addresses followed by those of its walks, which share its time and process |
| `EtwStacks.StackProvenance` | native/adapters/etw/dbgatlas_etw.cpp:926-932 | every address of a written line is its event's own or from a walk of the trace with its time and process |
| `EtwStacks.TakePrefersThread` | native/adapters/etw/dbgatlas_etw.cpp:850-868 | an exact thread match is preferred, else the process, else nothing is taken |
| `EtwStacks.AttachPrefersThread` | native/adapters/etw/dbgatlas_etw.cpp:1225-1242 | a walk attaches iff a record of its time and process waits, of its thread by preference |
| `EtwWalks.AppendStackInOrder` | native/adapters/etw/dbgatlas_etw.cpp:842-848 | the addresses a walk adds come in the order in which they first occur in it |
| `EtwWalks.WalksConcatenate` | native/adapters/etw/dbgatlas_etw.cpp:842-848 | several walks add their addresses as one walk would, the first walk first |
| `EtwWalks.TakeIsBest` | native/adapters/etw/dbgatlas_etw.cpp:850-875 | an event takes the first cached walk of its thread, else the first of its process; the others stay in order |
| `EtwWalks.TargetIsBest` | native/adapters/etw/dbgatlas_etw.cpp:1225-1242 | in iteration order a walk joins the first parked record of its thread, else the last of its process, else none |
| `EtwWalks.WalkJoins` | native/adapters/etw/dbgatlas_etw.cpp:1225-1248 | the target gains the walk and its addresses, every other parked record stays |
| `EtwWalks.WalkCached` | native/adapters/etw/dbgatlas_etw.cpp:877-900 | what a walk does to the walks cached for every timestamp: refused, cached last, dropped from a slot of 32, or evicting the front of a queue of 4096 |
| `EtwWalks.TakenFromCache` | native/adapters/etw/dbgatlas_etw.cpp:850-875 | no other event changes the cache except by taking a walk of its own time |
| `EtwWalks.AcceptedCarries` | native/adapters/etw/dbgatlas_etw.cpp:1128-1133 | an accepted event is parked or written with its own addresses and those of the walk it takes |
| `EtwWalks.ReportedCarries` | native/adapters/etw/dbgatlas_etw.cpp:926-932 | so is a reported event whose file opens |
| `EtwWalks.QueueIsFifo` | native/adapters/etw/dbgatlas_etw.cpp:881-893 | the timestamp queue holds the 4096 timestamps queued last: first in, first out |
| `EtwPaths.CacheIsSearch` | native/adapters/etw/dbgatlas_etw.cpp:1053-1098 | the caches equal a search of the history, latest event first |
| `EtwPaths.CacheRefinesHistory` | native/adapters/etw/dbgatlas_etw.cpp:1295-1338 | an id is cached with a path iff an accepted event named it and no later one renamed, closed or cleaned it up |
| `EtwPaths.PathsCounted` | native/adapters/etw/dbgatlas_etw.cpp:1074-1098 | resolved + unresolved = accepted events |
| `EtwPaths.ResolvedAreKnown` | native/adapters/etw/dbgatlas_etw.cpp:1074-1098 | resolved counts the accepted events whose own path, or that of their object or key in the history, is known |
| `EtwRecords.SequenceCounts` | native/adapters/etw/dbgatlas_etw.cpp:1260-1260 | the raw sequence number counts the enabled file records |
| `EtwRecords.TableIsLastTouch` | native/adapters/etw/dbgatlas_etw.cpp:1262-1324 | an IRP is parked iff its last use is a begin, and the table holds that event with its own data |
| `EtwRecords.RecordsAreSound` | native/adapters/etw/dbgatlas_etw.cpp:1250-1352 | every written record is one accepted event with the path of its history; it is completed if and only if the OP_END of that event came, by that OP_END, and nothing but completion data and stack differs from the begin event |
| `EtwFates.IgnoredIsHistory` | native/adapters/etw/dbgatlas_etw.cpp:1262-1308 | an IRP is ignored iff a CLOSE used it and no OP_END without a waiting begin has come on it since |
| `EtwFates.CountersAreHistory` | native/adapters/etw/dbgatlas_etw.cpp:1262-1324 | matched, unmatched, reused and suppressed are the numbers of events that played that part by the uses of their IRP |
| `EtwFates.PairIsWritten` | native/adapters/etw/dbgatlas_etw.cpp:1262-1289 | if the next use of a begin's IRP is an OP_END, that step writes the begin completed by it |
| `EtwFates.DisplacedIsWritten` | native/adapters/etw/dbgatlas_etw.cpp:1310-1324 | if it is another begin, that step writes the earlier one uncompleted |
| `EtwFates.SupersededIsLost` | native/adapters/etw/dbgatlas_etw.cpp:1298-1308 | if it is an accepted CLOSE, that step throws the begin away and writes the CLOSE alone |
| `EtwFates.WaitingIsFlushed` | native/adapters/etw/dbgatlas_etw.cpp:1341-1352 | if there is none, the flush writes the begin uncompleted |
| `EtwFates.FlushInOrder` | native/adapters/etw/dbgatlas_etw.cpp:1341-1352 | the flush appends exactly the parked records, in iteration order |
| `EtwFates.ExactlyOnceByTrace` | native/adapters/etw/dbgatlas_etw.cpp:1250-1352 | every accepted event is written exactly once, except the begins whose IRP was next used by an accepted CLOSE |
| `EtwModules.SecondUpdateIsNoOp` | native/adapters/etw/dbgatlas_etw.cpp:1431-1433 | the second update for the same image event changes nothing |
| `EtwModules.ModuleMapIsHistory` | native/adapters/etw/dbgatlas_etw.cpp:667-703 | a module with this base, size and name is mapped iff an image event of a followed process loaded it with these and no later one of that process touched its base |
| `EtwModules.BasesStayUnique` | native/adapters/etw/dbgatlas_etw.cpp:696-702 | no two modules of a process share a base |
| `EtwModules.FrameIsExact` | native/adapters/etw/dbgatlas_etw.cpp:705-727 | an address is named iff a module of its process, or else of process 0, contains it; the offset stays inside |
| `EtwModules.ModulesInLoadOrder` | native/adapters/etw/dbgatlas_etw.cpp:696-702 | the modules of a process are the images still loaded, in the order of their load events |
| `EtwModules.AddressIsNamed` | native/adapters/etw/dbgatlas_etw.cpp:705-727 | over the trace: an address is named after the earliest loaded image of its process that contains it, else of process 0, with its offset, else left raw |
| `EtwModules.FramesReverse` | native/adapters/etw/dbgatlas_etw.cpp:912-922 | frames are the addresses in reverse, one for one |
| `EtwModules.LinesAreFramed` | native/adapters/etw/dbgatlas_etw.cpp:1151-1151 | the frames of every line are its stack under the module map of the step that wrote it |
| `EtwModules.FramesAreCounted` | native/adapters/etw/dbgatlas_etw.cpp:913-920 | the frame counters are the totals over the lines, resolved + unresolved = total |
| `EtwModules.ResolvedCountIs` | native/adapters/etw/dbgatlas_etw.cpp:914-919 | a frame counts as resolved iff it names a module |
| `EtwAccounts.EventLinesAreReported` | native/adapters/etw/dbgatlas_etw.cpp:1412-1488 | events outside the IRP route are written iff enabled and in the tree, once each and in order |
| `EtwAccounts.EventAccounting` | native/adapters/etw/dbgatlas_etw.cpp:1490-1523 | every event is a walk, an OP_END, accepted, reported or skipped; counters and files agree with the lines |
| `EtwAccounts.EventAccountingAtEnd` | native/adapters/etw/dbgatlas_etw.cpp:1553-1575 | the same for the reported totals of a finished extraction |
| `EtwAccounts.LinesFollowOpens` | native/adapters/etw/dbgatlas_etw.cpp:1144-1151 | the n-th writer call leaves its line iff the n-th open succeeds |
| `EtwAccounts.AllOpenAllWritten` | native/adapters/etw/dbgatlas_etw.cpp:1221-1222 | if every file opens, every writer call is a written event and the files are the categories of the lines |
| `EtwFilter.FilteredAgain` | native/adapters/etw/dbgatlas_etw.cpp:1662-1702 | filtering is idempotent, and a dropped event never changes the filter's tree |
| `EtwFilter.FilterKeepsSurvivors` | native/adapters/etw/dbgatlas_etw.cpp:1676-1690 | by position and field: an event survives iff it is a walk of a followed process, an enabled completion, or of an enabled or image category with its process followed |
| `EtwFilter.UnfollowedIsDropped` | native/adapters/etw/dbgatlas_etw.cpp:1684-1690 | with a root nothing else of a process that is not followed is in the filtered trace |
| `EtwFilter.FilterTreeStep` | native/adapters/etw/dbgatlas_etw.cpp:646-665 | what an event adds to the processes the filter follows, by its fields |
| `EtwFilter.FilterTreeIsTree` | native/adapters/etw/dbgatlas_etw.cpp:646-665 | the filter follows what the extraction follows unless a stack walk passes for a process event |
| `EtwFilter.FilterFollowsMore` | native/adapters/etw/dbgatlas_etw.cpp:1676-1690 | the filter follows at least the processes of the extraction |
| `EtwFilter.FilteredTree` | native/adapters/etw/dbgatlas_etw.cpp:1662-1702 | the filtered trace gives the same process tree |
| `EtwFilter.DropIsInvisible` | native/adapters/etw/dbgatlas_etw.cpp:1679-1690 | an event the filter drops leaves no trace in the extraction unless the extraction accepts it |
| `EtwFilter.FilterPreservesExtraction` | native/adapters/etw/dbgatlas_etw.cpp:1607-1702 | filter-then-extract equals extract - lines, order, counters - iff no accepted file event has a header process outside the filter's tree |
| `EtwFilter.FilteredExtractsTheSame` | native/adapters/etw/dbgatlas_etw.cpp:1607-1702 | the same spelled out: line by line equal but for the completion number, all reported numbers equal |
| `EtwFilter.AgreeingHeadersSuffice` | native/adapters/etw/dbgatlas_etw.cpp:1679-1681 | it always holds when file events are logged under their own process |
| `EtwFilter.LossExample` | native/adapters/etw/dbgatlas_etw.cpp:1686-1687 | a concrete trace that violates the condition and loses an event |
| `EtwRelogger.FilteringRelogger.constructor` | native/adapters/etw/dbgatlas_etw.cpp:1625-1627 | an empty relogger whose tree holds the root, if any |
| `EtwRelogger.FilteringRelogger.ProcessTreeAllowsEvent` | native/adapters/etw/dbgatlas_etw.cpp:646-665 | the verdict of the tree filter and the tree after it |
| `EtwRelogger.FilteringRelogger.OnEvent` | native/adapters/etw/dbgatlas_etw.cpp:1662-1702 | which events are injected, the tree and the counters after each, failures included |
| `EtwRelogger.FilterTraceFile` | native/adapters/etw/dbgatlas_etw.cpp:2282-2299 | a whole trace, unreadable records and failed injections included: what is injected, the tree, the counters and the categories written |
| `EtwRelogger.InjectedIsFilter` | native/adapters/etw/dbgatlas_etw.cpp:1692-1700 | the trace written is `Filter` of the records read iff every kept event could be injected |
| `EtwRelogger.OutputCategoriesAre` | native/adapters/etw/dbgatlas_etw.cpp:1693-1697 | a category counts as written iff it is enabled and an event of it was injected |
| `JsonEscape.EscapeJson` | native/adapters/etw/dbgatlas_etw.cpp:185-223 | the loop escapes byte by byte |
| `JsonEscape.EscapeRoundTrip` | native/adapters/etw/dbgatlas_etw.cpp:185-223 | a JSON decoder reads every byte string back and stops at the closing quote |
| `JsonEscape.EscapedIsPrintable` | native/adapters/etw/dbgatlas_etw.cpp:211-219 | no byte below 0x20 is left, so a record stays on its line |
| `JsonEscape.EscapeSpelling` | native/adapters/etw/dbgatlas_etw.cpp:189-221 | which bytes stay, which have a short form, and the lower-case code unit of the rest |
| `JsonEscape.EscapeJoins` | native/adapters/etw/dbgatlas_etw.cpp:185-223 | bytes are escaped independently of each other |
| `WindowsArgs.QuoteWindowsArg` | crates/dbgatlas-dbgeng/src/lib.rs:525-549 | the loop with its backslash counter prints `Quote` |
| `WindowsArgs.LaunchCommandLine` | crates/dbgatlas-dbgeng/src/lib.rs:509-523 | the quoted parts joined by spaces, or the empty-path error |
| `WindowsArgs.QuoteParses` | crates/dbgatlas-dbgeng/src/lib.rs:525-549 | one quoted argument is read back as it was and no further |
| `WindowsArgs.QuotingRoundTrip` | crates/dbgatlas-dbgeng/src/lib.rs:517-522 | every argument list is read back, empty arguments, quotes and backslash runs included |
| `WindowsArgs.PlainIsLeft` | crates/dbgatlas-dbgeng/src/lib.rs:526-548 | an argument that needs no quotes is printed as it is |
| `WindowsArgs.QuoteByPieces` | crates/dbgatlas-dbgeng/src/lib.rs:527-545 | any other one is printed run by run: backslashes doubled before a quote and at the end, a quote escaped, nothing else changed |
| `WindowsArgs.EveryTextHasPieces` | crates/dbgatlas-dbgeng/src/lib.rs:530-542 | every argument is such a sequence of runs |
| `WindowsArgs.JoinSnoc` | crates/dbgatlas-dbgeng/src/lib.rs:522-522 | parts are separated by one space |
| `WindowsArgs.LaunchRoundTrip` | crates/dbgatlas-dbgeng/src/lib.rs:509-523 | with the program-name rule the line round-trips iff the executable has no quote and is not a quoted name ending in a backslash |
| `WindowsArgs.LaunchLossExample` | crates/dbgatlas-dbgeng/src/lib.rs:525-549 | an executable with a blank and a backslash at its end comes back with the backslash doubled |
| `TextPreview.Preview` | crates/dbgatlas-debug/src/lib.rs:149-170 | the longest well-formed prefix within the limit, at most 3 bytes given up, truncated iff the text exceeds the limit |
| `Utf8.BoundaryIsWellFormed` | crates/dbgatlas-debug/src/lib.rs:160-165 | cutting at a character boundary leaves well-formed text |
| `Utf8.EncodeTable` | crates/dbgatlas-debug/src/lib.rs:160-165 | the encoding is the table of section 3 of RFC 3629: lengths, marks and bits |
| `Utf8.PrefixEndsAtBoundary` | crates/dbgatlas-debug/src/lib.rs:161-163 | well-formed prefixes end at character boundaries only |
| `Utf8.BoundaryNearby` | crates/dbgatlas-debug/src/lib.rs:161-163 | a boundary is at most three bytes back |
| `IdaNumbers.GuardIsExact` | native/adapters/ida/dbgatlas_ida.cpp:192-194 | the division guard refuses exactly the overflows |
| `IdaNumbers.TrimIsExact` | native/adapters/ida/dbgatlas_ida.cpp:163-168 | trimming removes all spaces at both ends and nothing else |
| `IdaNumbers.AccumulateDigits` | native/adapters/ida/dbgatlas_ida.cpp:183-198 | the positional value, or nothing on a bad digit or overflow |
| `IdaNumbers.ParseU64Text` | native/adapters/ida/dbgatlas_ida.cpp:170-199 | accepts exactly the trimmed decimal, 0x and 0b numerals below 2^64, with their value |
| `IdaNumerals.ValueIsPositional` | native/adapters/ida/dbgatlas_ida.cpp:184-196 | the accumulated number is the sum of digits of either case times powers of the base |
| `IdaNumerals.NumbersParse` | native/adapters/ida/dbgatlas_ida.cpp:163-199 | which texts are numbers, character by character: blanks around, optional prefix, digits of the base, value below 2^64 |
| `IdaNumerals.BlankIsNoNumber` | native/adapters/ida/dbgatlas_ida.cpp:170-175 | a blank text is none |
| `IdaNumbers.DecimalParsesBack` | native/adapters/ida/dbgatlas_ida.cpp:575-575 | the decimal text parses back |
| `IdaNumbers.PrefixedParsesBack` | native/adapters/ida/dbgatlas_ida.cpp:558-568 | the 0x and 0b texts parse back |
| `IdaNumerals.PrintedDigit` | native/adapters/ida/dbgatlas_ida.cpp:558-559 | digits are printed in lower case |
| `IdaNumerals.NoLeadingZero` | native/adapters/ida/dbgatlas_ida.cpp:558-568 | no printed number starts with a zero but zero itself |
| `IdaNumbers.BinaryText` | native/adapters/ida/dbgatlas_ida.cpp:560-568 | the bit loop prints the binary numeral without leading zeros |
| `IdaNumbers.LittleEndian` | native/adapters/ida/dbgatlas_ida.cpp:570-570 | eight bytes that sum to the number in base 256 |
| `IdaConvert.ReadAscii` | native/adapters/ida/dbgatlas_ida.cpp:526-531 | the first eight characters as a little-endian number |
| `IdaConvert.ReadBytes` | native/adapters/ida/dbgatlas_ida.cpp:532-550 | up to eight byte numerals set apart by separators, or nothing if one spells no byte |
| `IdaConvert.PrintAscii` | native/adapters/ida/dbgatlas_ida.cpp:569-574 | the bytes up to the first zero, a dot for what cannot be printed |
| `IdaConvert.ConvertInt` | native/adapters/ida/dbgatlas_ida.cpp:557-584 | all printed forms of one number denote it |
| `IdaConvert.ConvertInput` | native/adapters/ida/dbgatlas_ida.cpp:515-592 | every input form is converted iff it stands for a number, and the printed forms denote that number |
| `IdaConvert.AsciiRoundTrip` | native/adapters/ida/dbgatlas_ida.cpp:526-574 | up to eight printable characters come back as the `ascii` form |
| `IdaConvert.AsciiBytes` | native/adapters/ida/dbgatlas_ida.cpp:526-531 | whatever the characters, the first eight are the bytes of the number |
| `IdaConvert.AsciiTextIs` | native/adapters/ida/dbgatlas_ida.cpp:571-574 | the `ascii` form character by character |
| `IdaConvert.ByteListReads` | native/adapters/ida/dbgatlas_ida.cpp:532-550 | byte numerals of any base joined by commas read as the number of those bytes |
| `IdaConvert.ByteListIs` | native/adapters/ida/dbgatlas_ida.cpp:532-550 | byte lists with any separators: the first eight items count, and trailing separators behind fewer items are an error |
| `IdaConvert.BytesRoundTrip` | native/adapters/ida/dbgatlas_ida.cpp:532-582 | the printed byte list, typed in again, is the number |
| `IdaPattern.IsHexText` | native/adapters/ida/dbgatlas_ida.cpp:1506-1516 | true iff the text is not empty and all characters are hex digits |
| `IdaPattern.ParseHexByte` | native/adapters/ida/dbgatlas_ida.cpp:1571-1576 | checked digits always parse to a byte |
| `IdaPattern.ParseHexPairs` | native/adapters/ida/dbgatlas_ida.cpp:1562-1569 | a compact token gives the bytes of its digit pairs |
| `IdaPattern.ParseTokenText` | native/adapters/ida/dbgatlas_ida.cpp:1548-1578 | wildcard, byte, compact bytes or the error of the token |
| `IdaPattern.ParseBytePattern` | native/adapters/ida/dbgatlas_ida.cpp:1539-1585 | the tokens in order, the first error, or the empty-pattern error |
| `IdaPattern.PatternListsAgree` | native/adapters/ida/dbgatlas_ida.cpp:1534-1537 | byte list and wildcard list have the same positive length |
| `IdaNumerals.WildcardToken` | native/adapters/ida/dbgatlas_ida.cpp:1549-1550 | `?` and `??` are one position that every byte fits |
| `IdaNumerals.HexTokenIs` | native/adapters/ida/dbgatlas_ida.cpp:1551-1578 | what any other token stands for, byte by byte in either case, or its error |
| `IdaNumerals.PatternIsTokens` | native/adapters/ida/dbgatlas_ida.cpp:1539-1585 | a text is its tokens in order, whatever blanks lie around them, the first error, or the error of an empty text |
| `IdaNumerals.EveryTextIsLaidOut` | native/adapters/ida/dbgatlas_ida.cpp:1542-1547 | every text falls apart into tokens and blanks |
| `IdaPattern.PrintBytesHex` | native/adapters/ida/dbgatlas_ida.cpp:444-453 | two digits per byte |
| `IdaNumerals.HexTextIs` | native/adapters/ida/dbgatlas_ida.cpp:444-453 | the digits of every byte, high one first |
| `IdaPattern.SpellingRoundTrip` | native/adapters/ida/dbgatlas_ida.cpp:1539-1585 | every split of the hex text into spaced groups parses to the same bytes, no wildcard |
| `IdaPattern.PrintedHexParsesBack` | native/adapters/ida/dbgatlas_ida.cpp:444-453 | the printed hex text parses back to its bytes |
| `IdaPaging.PagedResult` | native/adapters/ida/dbgatlas_ida.cpp:1160-1183 | the slice at the offset; a next offset iff more rows exist |
| `IdaHits.PageIsCut` | native/adapters/ida/dbgatlas_ida.cpp:1160-1183 | how many rows a page has, which ones, and when and where it leads on |
| `IdaPaging.BytePatternMatches` | native/adapters/ida/dbgatlas_ida.cpp:1587-1598 | every byte is readable and is a wildcard or equal |
| `IdaPaging.ComputeStopAfter` | native/adapters/ida/dbgatlas_ida.cpp:1604-1605 | one past the page, saturated at the largest 64-bit number |
| `IdaPaging.CountMatch` | native/adapters/ida/dbgatlas_ida.cpp:1619-1634 | rows, total and flag after one more match, for any number of matches |
| `IdaPaging.SearchSegment` | native/adapters/ida/dbgatlas_ida.cpp:1612-1635 | the scan of one segment, stopped early or not, agrees with all its matches |
| `IdaPaging.SearchSegments` | native/adapters/ida/dbgatlas_ida.cpp:1611-1637 | the same over all segments |
| `IdaPaging.FindBytes` | native/adapters/ida/dbgatlas_ida.cpp:1600-1657 | the early-stopping search returns `BoundedSearch`, whatever the number of matches: no counter overflows, and an error iff it reaches a bad pattern |
| `IdaHits.AllHitsAre` | native/adapters/ida/dbgatlas_ida.cpp:1609-1637 | the list of all matches without the loops: one row for every pattern, segment and address where the pattern fits, in that order |
| `IdaHits.FoundIff` | native/adapters/ida/dbgatlas_ida.cpp:1587-1637 | an address is found iff every byte there is readable and fits, inside a segment, and no pattern up to this one fails to parse |
| `IdaHits.FirstErrorIs` | native/adapters/ida/dbgatlas_ida.cpp:1609-1610 | the error is that of the first pattern that does not parse |
| `IdaHits.SearchAnswers` | native/adapters/ida/dbgatlas_ida.cpp:1638-1656 | rows, total, next offset and error of a page in terms of that list |
| `IdaPaging.BoundedSearchIsSearch` | native/adapters/ida/dbgatlas_ida.cpp:1604-1654 | that is the slice of all matches, with a next offset iff more exist, iff the end of the page or the number of matches stays below 2^64 - 1 |
| `IdaPaging.SearchPagesTile` | native/adapters/ida/dbgatlas_ida.cpp:1646-1654 | following a search from 0 terminates and delivers all matches once in order iff every pattern parses (or there is no match); otherwise it ends in the first error, short of the last page |
| `IdaPaging.PagesTile` | native/adapters/ida/dbgatlas_ida.cpp:1172-1180 | following the next offsets of a complete list terminates and tiles it from the offset on |
| `IdaPaging.PagesCoverAll` | native/adapters/ida/dbgatlas_ida.cpp:1172-1180 | from zero the pages give the whole list, once and in order |
| `IdaPaging.ZeroLimitStalls` | native/adapters/ida/dbgatlas_ida.cpp:1603-1603 | a page of the search leads back to itself iff its limit is zero and matches remain |
| `IdaSession.NextKeepsWorkers` | native/adapters/ida/dbgatlas_ida.cpp:1971-2009 | every step keeps at most one handle, owned by its worker, and the flag set iff there is one |
| `IdaSession.NextKeepsCalls` | native/adapters/ida/dbgatlas_ida.cpp:1902-1926 | every step keeps the discipline of native calls |
| `IdaSession.NextAnswersOnce` | crates/dbgatlas-ida/src/lib.rs:362-397 | every step keeps a call in one queue or with one reply |
| `IdaSession.StepKeeps` | crates/dbgatlas-ida/src/lib.rs:305-402 | the protocol invariant is inductive |
| `IdaSession.NativeCallsAreDisciplined` | native/adapters/ida/dbgatlas_ida.cpp:1902-2015 | over every interleaving: flag true iff a handle is live, each open closed exactly once and by the time its worker is finished, on its owner thread, no call after the close |
| `IdaSession.RepliesAreUnique` | crates/dbgatlas-ida/src/lib.rs:93-155 | over every interleaving a call gets at most one reply, exactly one once it left its queue |
| `IdaSession.BehindCloseSeesStopped` | crates/dbgatlas-ida/src/lib.rs:385-395 | a call behind a close can only be answered with WorkerStopped |
| `IdaSession.SideBySideCloseIsStopped` | crates/dbgatlas-ida/src/lib.rs:385-395 | of two closes sent side by side the second can only be answered with WorkerStopped |
| `IdaSession.RunNativeSession` | crates/dbgatlas-ida/src/lib.rs:362-401 | one worker's loop: replies by position of the first close, the handle closed exactly once |
| `IdaOrder.OpenSucceedsIff` | native/adapters/ida/dbgatlas_ida.cpp:1963-2009 | an open hands out a handle iff no session is active and the database opens |
| `IdaOrder.AnswersComeFromCalls` | crates/dbgatlas-ida/src/lib.rs:362-384 | over every interleaving each answer comes from one native call and carries its outcome |
| `IdaOrder.CloseReportsOutcome` | crates/dbgatlas-ida/src/lib.rs:385-395 | a close reports the outcome of its native close and frees the flag |
| `IdaClient.DoKeeps` | crates/dbgatlas-ida/src/lib.rs:93-155 | every step of callers and workers keeps the invariant that ties callers, queues and replies together |
| `IdaClient.RepliesFollowTheCalls` | crates/dbgatlas-ida/src/lib.rs:93-148 | over every run the one reply to a call is determined by the calls before it on its session: up to the first close the worker answers, after it a close succeeds and other calls are stopped |
| `IdaOrder.AnswersInOrder` | crates/dbgatlas-ida/src/lib.rs:362-397 | over every run a session answers its calls in the order they were made |
| `IdaOrder.CallIsPossible` | crates/dbgatlas-ida/src/lib.rs:93-134 | a call can be made iff the open succeeded, the session lives, no close is under way and, for a close, no other call is |
| `IdaOrder.WorkersGoOn` | crates/dbgatlas-ida/src/lib.rs:305-402 | a worker that is not finished can go on unless it waits for a command |
| `IdaClient.CloseIsNeverStopped` | crates/dbgatlas-ida/src/lib.rs:136-143 | no close is ever answered with WorkerStopped |
| `IdaClient.CloseHasEnded` | crates/dbgatlas-ida/src/lib.rs:144-148 | when a close has returned the worker is finished and its handle was closed exactly once |
| `IdaClient.SecondCloseIsHarmless` | crates/dbgatlas-ida/src/lib.rs:128-155 | whenever a run has closed a session and can close it again, that close succeeds at once and can return, with no native call and the flag and all workers unchanged |
| `IdaClient.LoopEndsByClose` | crates/dbgatlas-ida/src/lib.rs:362-401 | a worker's queue is never disconnected under it and the close behind its loop is never reached |
| `IdaClient.NothingHangs` | crates/dbgatlas-ida/src/lib.rs:93-148 | while a call has not returned, it can return or its worker can take a step; the join of a close never deadlocks |

## Left out

- Counters of the extraction are natural numbers: 32-bit wrap-around is not modelled.
- The iteration order of the IRP table is an arbitrary function of its keys; an order that also depends on the insertion history is not modelled.
- `EtwContext.ExtractionContext` groups the fields of the context into four records (cache, IRP table, paths, output) that its methods reassign; the log of writer calls stands for the output files.
- Event decoding (TDH field names, stack extended data, raw stack-walk payload), display names of modules and the JSON text of a line beyond string escaping: foreign names and library formatting.
- ETW session control, the real-time consumer thread and the COM relogger setup: foreign calls.
- `IdaPaging.FindBytes` takes segments that end below the last address, so that stepping past one stays in range.
- `IdaSession.RepliesAreUnique` and `IdaClient.NothingHangs` do not say that a waiting call is eventually answered: no fairness is assumed of the scheduler.
- A session value that is leaked instead of dropped, and the exit of the whole process while workers run.
- Start-up checks before the native open, panics of a worker and the loading of the adapter library; a start-up failure is an open that fails.
- Workspace, runtime, recording and CLI crates, validators and the worker-protocol enums: file layout and single-branch checks.
