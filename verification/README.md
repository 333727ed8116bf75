# Verified kernels of the household data collector

This project models, in Dafny, the protocol and storage kernels of the collector and
proves properties of them for all inputs, all runs or all reachable states. Each module
follows one source file. Code that updates state step by step is a class or a method with
a loop, proved equal to a function of its inputs or of the old state; what the code is
for is then proved about that function.

| module | kernel |
|---|---|
| `OperationalJournal` | the append-only journal several processes share: lock directory, stale-lock recovery, rotation by rename |
| `SmartLedzFraming` | frames and fragments, arriving in any order |
| `CompactDatabase`, `JsonlArchive` | lossless archiving, and removing what was archived |
| `ModbusContinuity`, `ModbusQualification` | continuity epochs and the 24-hour gate that judges them |
| `Echonet`, `EchonetPropertyMaps` | ECHONET Lite frames (ECHONET Lite Specification Part II, section 3.2) and property maps (Appendix 1 of the APPENDIX on device objects) |
| `WaremaStream` | the splitter of a byte stream into frames |
| `GasQueueImporter` | the idempotent import transaction |
| `ModbusTcp` | the read-only Modbus TCP client (section 3.1.3 of the MODBUS Messaging on TCP/IP Implementation Guide V1.0b; sections 6.3 and 6.4 of the MODBUS Application Protocol Specification V1.1b3) |
| `SwitchBotStorage`, `ShadowExecution` | deduplication with conflict accounting; replay protection |
| `AlarmCollector`, `SseParser` | pagination against an arbitrary server; the bounded event-stream parser (section 9.2.6 of the HTML Living Standard) |
| `Common` | options, results, byte words, stable sorting, text order, permutations |

`dafny verify dfyconfig.toml` checks everything.

## Assumptions

- SHA-256 and canonical JSON are injective: a digest is a constructor applied to what it
  digests, and a record is identified with its canonical line, which holds no line feed.
- Tokens drawn by the continuity sentinel are 32 characters long and never coincide.
- Times are integers: seconds, or microseconds since 1970 in `ModbusQualification`.
- A file-system call (mkdir, create-exclusive, write, rename, unlink, rmdir) is one atomic
  step and takes effect completely or not at all. In the journal protocol a process id
  stands for one appending process at a time; a process that died may be started again.
- A text comparison is by code points, as in the source's tuple sort and its SQL.
- Bit masks and shifts are written as division and remainder on integers.
- A database transaction sees no other writer once it holds the write lock; before that,
  other writers may change anything (`GasQueueImporter` carries both databases).

## What the proofs found

- Two processes can hold the journal lock when others act between the staleness check and
  the rename of a recovery (`OperationalJournal.SplitRecoveryBreaksExclusion`). The exact
  condition (`ExclusiveExactly`): from a state in which every holder owns the lock, a step
  and all continuations with uninterrupted later recoveries keep exclusion if and only if
  the step does not rename away a live holder's lock. Hence exclusion holds over every run
  whose recoveries are uninterrupted (`AtomicRunsExclude`). No assumption on how long a
  live process may take is needed: the owner file, created exclusively, is what excludes.
- A crash between creating and writing the owner file (`CrashWedges`) blocks the journal
  for good (`WedgedForever`); the source leaves such a lock for a human. It is the only
  such state: from any state a record can still be written if and only if it is not wedged
  in this way (`WritableExactly`).
- A Smart LEDZ frame that declares itself the only fragment is accepted whatever total
  length it declares; the declared length is guaranteed if and only if two or more
  fragments are declared (`LengthIsCheckedExactly`).
- A failed `feed` loses the good frames decoded earlier in the same call: of `{a}{r}`, with
  the source's own decoder, one call delivers nothing and two calls deliver the first frame
  (`FrameIsLost`). For every input, the frames delivered are independent of the chunking if
  and only if the input fits the buffer and all its candidates decode, or no candidate
  before the first that does not decode or does not fit contains a `{`
  (`ChunkingMattersExactly`).
- The event-stream parser differs from the standard it follows, among other things in that
  a line without a colon is ignored, an unterminated last event is emitted and an empty
  event name stays empty. The model follows the code.

## Model

| member | source | states |
|---|---|---|
| `OperationalJournal.LockInPlaceExactly` | src/hedp/operations/operational_metrics.py:416-556 | In every interleaving of any number of processes, with crashes, give-ups, failed calls and recovery: every holder owns the directory at the lock path at all points up to `n` if and only if no recovery before `n` renamed away the lock of a live holder. |
| `OperationalJournal.StepKeepsLockInPlace` | src/hedp/operations/operational_metrics.py:416-556 | The single step behind it: from a state where every holder owns the lock, a step keeps that exactly when it is not such a rename. |
| `OperationalJournal.AtomicRecoveryNeverSteals` | src/hedp/operations/operational_metrics.py:466-501 | A rename that directly follows its own staleness check (old, and owner dead or directory empty) finds nobody holding the lock. |
| `OperationalJournal.OnlyStaleLocksAreTaken` | src/hedp/operations/operational_metrics.py:466-501 | In runs with uninterrupted recoveries a recovery only takes away a lock at least 60 seconds old that is empty or left by a dead process. |
| `OperationalJournal.AtomicRunsKeepLockInPlace` | src/hedp/operations/operational_metrics.py:416-556 | Over every run whose recoveries check and rename without interruption, every holder owns the lock at every point. |
| `OperationalJournal.AtomicRunsExclude` | src/hedp/operations/operational_metrics.py:416-556 | Mutual exclusion: at every point of every such run at most one process is between acquiring and releasing the lock. |
| `OperationalJournal.ExclusiveExactly` | src/hedp/operations/operational_metrics.py:416-556 | The exact condition of exclusion: from a state where every holder owns the lock, one step and every continuation whose later recoveries are uninterrupted keep at most one holder at every point, if and only if the step does not rename away the lock of a live holder. |
| `OperationalJournal.TheftEndsInTwoHolders` | src/hedp/operations/operational_metrics.py:416-501 | After such a rename the thief can make and own a new lock at once, beside the live holder. |
| `OperationalJournal.AtomicTracesKeepLockInPlace` | src/hedp/operations/operational_metrics.py:416-556 | The invariant behind it, over traces from any state: uninterrupted recoveries keep every holder's lock in place. |
| `OperationalJournal.SplitRecoveryBreaksExclusion` | src/hedp/operations/operational_metrics.py:466-501 | When others may act between the check and the rename, a reachable state has two holders: the second of two recoverers renames away the lock the first one made. |
| `OperationalJournal.WedgedForever` | src/hedp/operations/operational_metrics.py:445-490 | A lock whose owner file exists but was never written, with nobody holding it or about to rename it, blocks the journal for good: no later step of anyone changes the lock, the files or the history. |
| `OperationalJournal.CrashWedges` | src/hedp/operations/operational_metrics.py:445-464 | Such a state is reachable: a process starts, makes the lock, creates the owner file and crashes before writing it. |
| `OperationalJournal.WritableExactly` | src/hedp/operations/operational_metrics.py:416-556 | From any state, some continuation writes a record if and only if the journal is not wedged in this way. |
| `OperationalJournal.RecoveryWrites` | src/hedp/operations/operational_metrics.py:466-501 | A lock that is empty or names its owner can always be recovered once it is old and its owner gone, and a record written. |
| `OperationalJournal.SectionWrites` | src/hedp/operations/operational_metrics.py:300-304 | A process in the section can always go on through rotation to its write. |
| `OperationalJournal.FilesAreAlwaysAWindow` | src/hedp/operations/operational_metrics.py:375-410 | At every point of every run with uninterrupted recoveries, so also mid-rotation and after a crash: the files, oldest generation first, concatenate to a suffix of all records ever written; each file is within the limit or holds exactly one record; the next rename overwrites nothing. |
| `OperationalJournal.StepKeepsFilesSafe` | src/hedp/operations/operational_metrics.py:375-407 | Each single file-system call keeps that window, the size bound and what the process in the section has prepared, and overwrites no live file. |
| `OperationalJournal.StepKeepsWindow` | src/hedp/operations/operational_metrics.py:375-407 | Unlinking the oldest generation, each rename, opening and writing leave a suffix of the history on record boundaries. |
| `OperationalJournal.DropOldestWindow` | src/hedp/operations/operational_metrics.py:383-384 | Unlinking the oldest generation removes exactly its records from the front of the window. |
| `OperationalJournal.ShiftOneOlder` | src/hedp/operations/operational_metrics.py:385-389 | Renaming generation g to the free g+1 changes nothing in the window. |
| `OperationalJournal.RotateActiveOlder` | src/hedp/operations/operational_metrics.py:390 | Renaming the active file to the free generation 1 moves its records to the end of the older ones. |
| `OperationalJournal.WriteWindow` | src/hedp/operations/operational_metrics.py:392-407 | Writing appends the record to the window and keeps every file within the limit or at one record. |
| `OperationalJournal.AppendedWindow` | src/hedp/operations/operational_metrics.py:300-304 | What one whole append does to the window: when it rotates, exactly the oldest generation is lost, otherwise nothing, and the record is the new end. |
| `OperationalJournal.AppendLosesExactly` | src/hedp/operations/operational_metrics.py:300-390 | Records are lost only when a present active file and the record together exceed `maximum_bytes`, and then exactly those of the oldest generation; otherwise no generation changes and the window only gains the record. |
| `OperationalJournal.RotationMovesUp` | src/hedp/operations/operational_metrics.py:383-390 | A rotation moves every generation up by one and the active file to generation 1. |
| `OperationalJournal.DropOnlyWhenFull` | src/hedp/operations/operational_metrics.py:381-384 | In runs with uninterrupted recoveries a generation is unlinked only while the record being appended does not fit beside the active file. |
| `OperationalJournal.Isolation` | src/hedp/operations/operational_metrics.py:300-304 | While a process holds the lock, no step of another process touches the files or the history. |
| `OperationalJournal.StepKeepsFinished` | src/hedp/operations/operational_metrics.py:300-304 | While a process is in the section, no step of anyone changes what its append will have done to the files. |
| `OperationalJournal.SectionRefinesAppend` | src/hedp/operations/operational_metrics.py:300-304 | In every such run, whoever is in the section acquired the lock at some point `i`, stayed in, and finishing leaves exactly what one whole append makes of the files of `i`. |
| `OperationalJournal.CompletedAppendsAreSerial` | src/hedp/operations/operational_metrics.py:300-304 | Refinement: every completed append of every such run equals one atomic append to the files it found on acquiring, and adds exactly that record to the history. |
| `OperationalJournal.UndisturbedAppend` | src/hedp/operations/operational_metrics.py:300-304 | An append that nobody disturbs goes from a free lock to a free lock without any time passing: the files and history are those of one append, and nothing else has changed. |
| `OperationalJournal.FailureReleases` | src/hedp/operations/operational_metrics.py:440-464 | Whoever holds the lock can give up at once, whatever fails: the lock is free again and nothing else has changed. |
| `OperationalJournal.SectionIsNamed` | src/hedp/operations/operational_metrics.py:445-464 | In runs with uninterrupted recoveries the lock directory names the process in the section. |
| `OperationalJournal.LockChanges` | src/hedp/operations/operational_metrics.py:416-556 | Only making the directory lets a lock appear; only the creator of the owner file names itself in it; the directory's time is that of the last change of its entries. |
| `OperationalJournal.OwnerFileIsExclusive` | src/hedp/operations/operational_metrics.py:447-452 | Whoever made the directory either creates the owner file or finds it there. |
| `OperationalJournal.OnlyCrashesKill` | src/hedp/operations/operational_metrics.py:416-443 | Giving up, failing and releasing leave a process alive and idle; only a crash kills one. |
| `OperationalJournal.SectionsDoNotOverlap` | src/hedp/operations/operational_metrics.py:416-443 | Serialisation: of two completed appends of such a run, the later one acquires the lock only after the earlier one has written. |
| `OperationalJournal.Journal.RotateIfNeeded` | src/hedp/operations/operational_metrics.py:375-390 | The rotation loop turns the files into `Rotated`: unchanged when the record fits, else the oldest dropped and every generation moved up by one. |
| `OperationalJournal.Journal.AppendBytes` | src/hedp/operations/operational_metrics.py:392-407 | Opens or creates the active file and adds the record at its end; nothing else changes. |
| `OperationalJournal.Journal.Append` | src/hedp/operations/operational_metrics.py:287-304 | One append is rotation followed by the write, the function that the interleaved protocol is shown to refine. |
| `SmartLedzFraming.AcceptedPayloads` | src/hedp/adapters/smartledz/framing.py:33-64 | Encoding accepts exactly 6-bit ids and payloads of up to 255*65493 bytes; a fragmented payload has 2 to 255 fragments. |
| `SmartLedzFraming.ChunksCut` | src/hedp/adapters/smartledz/framing.py:52-55 | Cutting loses nothing: the pieces join to the payload, each has 1 to 65493 bytes, and their number is the rounded-up quotient. |
| `SmartLedzFraming.FramesSent` | src/hedp/adapters/smartledz/framing.py:38-57 | One short frame below 65501 bytes, else one fragment for every 65493 bytes begun; refused exactly for ids outside 6 bits and over 255 fragments. |
| `SmartLedzFraming.ShortFrameBytes` | src/hedp/adapters/smartledz/framing.py:43-50 | A short frame byte by byte: start, flags, big-endian length, payload, end. |
| `SmartLedzFraming.FragmentBytes` | src/hedp/adapters/smartledz/framing.py:58-64 | A fragment byte by byte: start, flags, position, count, big-endian total, chunk, end. |
| `SmartLedzFraming.DecodeShortFrame` | src/hedp/adapters/smartledz/framing.py:43-50 | A short frame decodes to its payload, id and notification flag. |
| `SmartLedzFraming.DecodeFragmentFrame` | src/hedp/adapters/smartledz/framing.py:58-64 | A fragment decodes to its chunk, id, flag, position, count and total length. |
| `SmartLedzFraming.DecodeIsInjective` | src/hedp/adapters/smartledz/framing.py:67-99 | Every accepted byte string is the one encoding of the frame it decodes to. |
| `SmartLedzFraming.FrameErrors` | src/hedp/adapters/smartledz/framing.py:67-98 | A frame is refused for its size, boundaries or short length exactly when these are wrong. |
| `SmartLedzFraming.FragmentErrors` | src/hedp/adapters/smartledz/framing.py:77-86 | A fragment is refused for its position or lengths exactly when these are wrong. |
| `SmartLedzFraming.CompleteOrderIsUnique` | src/hedp/adapters/smartledz/framing.py:120-122 | A complete set of fragments has only one order sorted by index. |
| `SmartLedzFraming.ArrivalOrderIsIrrelevant` | src/hedp/adapters/smartledz/framing.py:102-127 | For any frames, reassembling a permutation gives the same payload or the same error. |
| `SmartLedzFraming.MessagesExactly` | src/hedp/adapters/smartledz/framing.py:102-127 | Fragments are accepted exactly when they agree in id, flag, count and total, are as many as declared, have every index from 0 on, and the declared length together. |
| `SmartLedzFraming.ReassemblyErrors` | src/hedp/adapters/smartledz/framing.py:109-118 | Of several disagreements the first in the source's order is reported. |
| `SmartLedzFraming.ShortOrMixed` | src/hedp/adapters/smartledz/framing.py:102-108 | Frames that are not all fragments are accepted only as one single short frame. |
| `SmartLedzFraming.EncodedFramesDecode` | src/hedp/adapters/smartledz/framing.py:33-99 | Each encoded frame decodes to the frame sent at that position. |
| `SmartLedzFraming.SentFramesReassemble` | src/hedp/adapters/smartledz/framing.py:33-127 | The sent frames reassemble to the payload. |
| `SmartLedzFraming.RoundTripInAnyOrder` | src/hedp/adapters/smartledz/framing.py:33-127 | For every accepted payload and any order of arrival, each frame decodes with id and flag intact and together they give the payload. |
| `SmartLedzFraming.LengthIsCheckedExactly` | src/hedp/adapters/smartledz/framing.py:83-126 | Acceptance guarantees the declared total length if and only if at least two fragments are declared. |
| `SmartLedzFraming.SingleFragmentLengthIsNotChecked` | src/hedp/adapters/smartledz/framing.py:83-107 | The counterexample: a frame that declares itself the only fragment, 7 bytes declared and none present, is accepted. |
| `CompactDatabase.NeighboursSuffice` | scripts/build_compact_database.py:153-157 | For sorted non-empty ranges, no overlap between neighbours if and only if all ranges of one source are pairwise disjoint. |
| `CompactDatabase.LaterStartsAfter` | scripts/build_compact_database.py:153-157 | Without overlapping neighbours, a range ends no later than any later range of its source starts. |
| `CompactDatabase.RangeOrder` | scripts/build_compact_database.py:153 | The tuple order the sort uses is total and transitive. |
| `CompactDatabase.Partition` | scripts/build_compact_database.py:113-181 | Pairwise disjoint ranges cut any table into the remaining rows and the rows of each range, each row in exactly one part (as multisets). |
| `CompactDatabase.RowInExactlyOnePart` | scripts/build_compact_database.py:160-181 | Row by row: a row is copied exactly when no range takes it, and no two ranges take it. |
| `CompactDatabase.CompactionIsLossless` | scripts/build_compact_database.py:135-181 | Accepted archives: compact and archived counts add up to the source count, and compact table and archives together hold every source row as often as the source. |
| `CompactDatabase.ArchivesHoldTheirRows` | scripts/build_compact_database.py:141-152 | The accepted archives hold, archive after archive, exactly the source rows of their selections. |
| `CompactDatabase.CountsAddUp` | scripts/build_compact_database.py:229 | The summed record counts of the manifests are the number of archived rows. |
| `CompactDatabase.ReadSelections` | scripts/build_compact_database.py:139-152 | Succeeds exactly when every archive is sound, has a usable selection and holds exactly the source rows of it, in order. |
| `CompactDatabase.SelectExactly` | scripts/build_compact_database.py:113-132 | A row is selected if and only if it is in the table, has the range's source, is not earlier than its start and is earlier than its end, by the first differing character. |
| `CompactDatabase.SelectionExactly` | scripts/build_compact_database.py:99-110 | A manifest's selection is usable exactly when it is of observations, present, and starts before it ends; what it then says, and which defect is reported. |
| `CompactDatabase.RangesSplit` | scripts/build_compact_database.py:125-126 | A range cut in two takes what its halves take, each row in one half only: the start belongs to a range and the end does not. |
| `CompactDatabase.PartsInOrder` | scripts/build_compact_database.py:113-181 | Selecting and copying keep the order of the table. |
| `CompactDatabase.TakenExactly` | scripts/build_compact_database.py:99-110 | The ranges taken from accepted archives are exactly the selections their manifests declare. |
| `Common.TextLessExactly` | scripts/build_compact_database.py:108-109 | Text order is decided by the first differing character, or by the shorter text. |
| `CompactDatabase.NeighboursOverlap` | scripts/build_compact_database.py:154-156 | The pairwise loop finds an overlap exactly when some neighbours overlap. |
| `CompactDatabase.ValidateArchives` | scripts/build_compact_database.py:135-157 | Accepts exactly when all archives match the source and their ranges are pairwise disjoint; returns the sorted ranges. |
| `CompactDatabase.CopyObservations` | scripts/build_compact_database.py:160-181 | Copies, in order, exactly the rows that no range matches. |
| `CompactDatabase.Build` | scripts/build_compact_database.py:197-246 | Succeeds exactly when there are archives and validation accepts; the reconciliation failure is unreachable; the result is lossless, the reported counts are the true ones, and a row is copied if and only if it is in the source and falls in no archive's selection, start included and end excluded. |
| `ModbusQualification.Evaluate` | src/hedp/adapters/fusionsolar/modbus_qualification.py:61-148 | Qualified if and only if the epoch reaches back 24 hours, at most 2 of the last 288 slots lack a snapshot, no gap exceeds 15 minutes, every snapshot of the window decodes, the latest is 0 to 15 minutes old and every recorded reason is trusted; each reason is listed exactly when its condition fails. |
| `ModbusQualification.ReasonsInFigures` | src/hedp/adapters/fusionsolar/modbus_qualification.py:123-136 | The reasons in numbers: under 86400 s observed, over 2 of 288 slots missing, neighbours over 900 s apart, latest in the future or over 900 s old, a run without boot marker or known reason. |
| `ModbusQualification.QualifiedInFigures` | src/hedp/adapters/fusionsolar/modbus_qualification.py:123-138 | A qualified verdict in numbers: no neighbours over 900 s apart, latest 0 to 900 s old, a snapshot of the epoch 86400 s before it, at most 2 slots missing. |
| `ModbusQualification.MissingInFigures` | src/hedp/adapters/fusionsolar/modbus_qualification.py:88-101 | The slots looked at are the latest snapshot's and the 287 before it, 300 s each; missing are those without a snapshot of the window. |
| `ModbusQualification.WindowInFigures` | src/hedp/adapters/fusionsolar/modbus_qualification.py:74-93 | The window holds exactly the snapshots of the source with the latest one's identifier from the last 86400 s. |
| `ModbusQualification.IdExactly` | src/hedp/adapters/fusionsolar/modbus_qualification.py:150-161 | An identifier counts exactly when it has 32 lower-case hexadecimal digits. |
| `ModbusQualification.LeadingEdge` | src/hedp/adapters/fusionsolar/modbus_qualification.py:88-100 | Though no check looks at it, the first snapshot of the window comes less than 1200 s after the window opens. |
| `ModbusQualification.QualifiedHasNoLongHole` | src/hedp/adapters/fusionsolar/modbus_qualification.py:83-136 | From any instant of the last 24 hours the next decodable, trusted snapshot of the epoch is less than 1200 s away. |
| `ModbusQualification.QualifiedMeansUninterrupted` | src/hedp/adapters/fusionsolar/modbus_qualification.py:61-176 | With identifiers issued by the sentinel, a qualified verdict proves that between any two runs that stamped snapshots of the epoch the boot marker was known and constant and no pause exceeded the limit. |
| `ModbusQualification.FirstFilledSlot` | src/hedp/adapters/fusionsolar/modbus_qualification.py:88-100 | With at most 2 slots missing, one of the first three required slots holds a snapshot. |
| `ModbusQualification.EpochFacts` | src/hedp/adapters/fusionsolar/modbus_qualification.py:74-85 | The epoch is sorted, ends in the latest snapshot and holds exactly the snapshots with its identifier. |
| `ModbusQualification.LatestIsLastGiven` | src/hedp/adapters/fusionsolar/modbus_qualification.py:72-79 | Of several snapshots of the latest instant, the last one given counts. |
| `ModbusQualification.CurrentFacts` | src/hedp/adapters/fusionsolar/modbus_qualification.py:90-93 | The window is sorted, ends in the latest snapshot and holds exactly the epoch's snapshots of the last 24 hours. |
| `ModbusQualification.EarliestDecides` | src/hedp/adapters/fusionsolar/modbus_qualification.py:84-87 | The age of the epoch's first snapshot decides whether any snapshot is 24 hours old. |
| `ModbusQualification.LatestGivesBootEvidence` | src/hedp/adapters/fusionsolar/modbus_qualification.py:163-176 | The first half of the boot-evidence test always holds here: only an untrusted reason can fail it. |
| `ModbusQualification.GroupRecords` | src/hedp/adapters/fusionsolar/modbus_qualification.py:106-109 | The one-pass table holds, for every instant, exactly the source's records of that instant in order. |
| `ModbusQualification.RecordsExactly` | src/hedp/adapters/fusionsolar/modbus_qualification.py:106-109 | The records of an instant are those of this source stored for it, in stored order. |
| `ModbusQualification.BootEvidenceExactly` | src/hedp/adapters/fusionsolar/modbus_qualification.py:163-176 | There is boot evidence exactly when some run left metadata and none was without marker or known reason. |
| `ModbusQualification.CountComplete` | src/hedp/adapters/fusionsolar/modbus_qualification.py:110-117 | The count reaches the number of snapshots exactly when every one decodes. |
| `ModbusQualification.CollectReasons` | src/hedp/adapters/fusionsolar/modbus_qualification.py:123-136 | The list of reasons is empty exactly when every check passes. |
| `ModbusQualification.NextSnapshot` | src/hedp/adapters/fusionsolar/modbus_qualification.py:118-121 | In a sequence without long gaps every instant is followed by a snapshot within 15 minutes. |
| `Echonet.ParsePrint` | src/hedp/adapters/ecocute/echonet.py:136-168 | Parsing inverts printing for every frame of up to 255 properties of up to 255 bytes. |
| `Echonet.PrintParse` | src/hedp/adapters/ecocute/echonet.py:136-168 | Every accepted byte string is exactly the printing of the frame it parses to. |
| `Echonet.ParsedFields` | src/hedp/adapters/ecocute/echonet.py:136-168 | What an accepted byte string says, byte by byte: header, transaction, objects, service and count. |
| `Echonet.HeaderErrors` | src/hedp/adapters/ecocute/echonet.py:139-142 | The two header errors have their exact causes, and otherwise the body decides. |
| `Echonet.BodyErrors` | src/hedp/adapters/ecocute/echonet.py:153-161 | A refused body fails at one point: after some whole properties it has bytes left over, lacks a header, or lacks announced data, as reported. |
| `Echonet.PropertiesRoundTrip` | src/hedp/adapters/ecocute/echonet.py:152-160 | Any printed property list parses back. |
| `Echonet.PropertiesReprint` | src/hedp/adapters/ecocute/echonet.py:152-160 | Any accepted body re-prints to itself and has the declared number of properties. |
| `Echonet.ParseBody` | src/hedp/adapters/ecocute/echonet.py:149-161 | The offset loop computes the recursive parse, errors included. |
| `Echonet.ParseFrame` | src/hedp/adapters/ecocute/echonet.py:136-168 | The method computes `Parse`, about which the two bijection lemmas speak. |
| `Echonet.GetRequestParses` | src/hedp/adapters/ecocute/echonet.py:92-133 | A Get request parses to the requested EPCs, in order, with empty data, from the controller to the given instance. |
| `Echonet.RequestsExactly` | src/hedp/adapters/ecocute/echonet.py:104-124 | Requests are built for exactly the 16-bit transactions, instances 1 to 255 and 1 to 255 different one-byte EPCs. |
| `Echonet.RequestErrors` | src/hedp/adapters/ecocute/echonet.py:104-124 | A refused request is refused for the first defect in the source's order. |
| `Echonet.RequestBytes` | src/hedp/adapters/ecocute/echonet.py:126-133 | A request byte by byte: header, transaction, controller, water heater, Get, count, and for each EPC the EPC and a zero. |
| `EchonetPropertyMaps.PositionsAreEpcs` | src/hedp/adapters/ecocute/echonet.py:184-189 | Bitmap positions and the EPCs 80..FF correspond one to one. |
| `EchonetPropertyMaps.SetEpcsFacts` | src/hedp/adapters/ecocute/echonet.py:184-189 | The bitmap loop yields exactly the EPCs whose bit is set, each once. |
| `EchonetPropertyMaps.BitmapHolds` | src/hedp/adapters/ecocute/echonet.py:184-191 | For every set of device EPCs the bitmap yields exactly the set, so the count of bits is its size. |
| `EchonetPropertyMaps.BitmapMeans` | src/hedp/adapters/ecocute/echonet.py:184-189 | Bit j of byte i of an accepted bitmap stands for the EPC with high nibble 8 + j and low nibble i. |
| `EchonetPropertyMaps.MapsExactly` | src/hedp/adapters/ecocute/echonet.py:171-197 | Accepted are exactly the maps 9D to 9F that are a list of as many different EPCs as announced, under 16, or a bitmap with as many bits as announced. |
| `EchonetPropertyMaps.MapErrors` | src/hedp/adapters/ecocute/echonet.py:173-193 | Each other error has its exact cause. |
| `EchonetPropertyMaps.MapEpcsExactly` | src/hedp/adapters/ecocute/echonet.py:173-174 | Only 9D, 9E and 9F are property maps. |
| `EchonetPropertyMaps.ListRoundTrip` | src/hedp/adapters/ecocute/echonet.py:178-181 | Every list of up to 15 different EPCs decodes to its set. |
| `EchonetPropertyMaps.BitmapRoundTrip` | src/hedp/adapters/ecocute/echonet.py:182-197 | Every set of 16 or more EPCs in 80..FF survives the bitmap. |
| `EchonetPropertyMaps.AcceptedBitmapIsCanonical` | src/hedp/adapters/ecocute/echonet.py:182-197 | An accepted bitmap is the one encoding of the set it decodes to. |
| `EchonetPropertyMaps.DuplicatesOnlyInLists` | src/hedp/adapters/ecocute/echonet.py:195-196 | The duplicate error arises only for the list form, and only with a repeated EPC. |
| `EchonetPropertyMaps.DeviceEpcsFit` | src/hedp/adapters/ecocute/echonet.py:176-193 | A set of device EPCs has at most 128 elements, so its count fits the first byte. |
| `EchonetPropertyMaps.DecodePropertyMaps` | src/hedp/adapters/ecocute/echonet.py:200-209 | Succeeds exactly when every map property decodes and none repeats; the result holds the decoded set of each map present. |
| `WaremaStream.FrameStream.Feed` | src/hedp/adapters/warema/protocol.py:117-133 | A call leaves and answers what draining buffer plus chunk gives, or clears the buffer when the limit is passed. |
| `WaremaStream.FedExactly` | src/hedp/adapters/warema/protocol.py:117-133 | A call that would overfill the buffer empties it and fails; any other drains what was left and then what came. |
| `WaremaStream.KindExactly` | src/hedp/adapters/warema/protocol.py:40-61 | The kind of a frame by its second character, and when it is refused. |
| `WaremaStream.RadioExactly` | src/hedp/adapters/warema/protocol.py:63-108 | Which command each kind of radio frame has, what its payload needs, and that all others with a hexadecimal command are unknown radio frames. |
| `WaremaStream.DrainComposes` | src/hedp/adapters/warema/protocol.py:123-133 | Draining may be interrupted anywhere: later bytes continue with the residue; a whole that drains without error has only prefixes that do. |
| `WaremaStream.ChunksAgreeWithWhole` | src/hedp/adapters/warema/protocol.py:117-133 | However the input is cut, as long as no call fails frames and residue are those of the whole input. |
| `WaremaStream.ChunkingIsIrrelevant` | src/hedp/adapters/warema/protocol.py:117-133 | An input that fits the buffer and whose candidates all decode never fails in any chunking, and every chunking ends like one single call. |
| `WaremaStream.ResidueFollowsLastClose` | src/hedp/adapters/warema/protocol.py:125-133 | A normal return leaves exactly the bytes after the last `}`. |
| `WaremaStream.CandidatesCut` | src/hedp/adapters/warema/protocol.py:123-127 | The candidates of an input are its bytes up to the last `}`, cut after each `}`. |
| `WaremaStream.DrainsExactly` | src/hedp/adapters/warema/protocol.py:123-133 | Draining an input succeeds if and only if all its candidates decode, and then gives their frames. |
| `WaremaStream.DrainCandidate` | src/hedp/adapters/warema/protocol.py:126-132 | The candidate at the front is cut off and decoded before anything after it. |
| `WaremaStream.NoiseIsSkipped` | src/hedp/adapters/warema/protocol.py:130-132 | The decoder gets a candidate from its first `{` on, and a candidate without one is no frame and no error. |
| `WaremaStream.ErrorConsumesOneCandidate` | src/hedp/adapters/warema/protocol.py:126-132 | A decode error consumes the candidates before the first bad one, whose frames are lost, and exactly that one; all later bytes stay buffered. |
| `WaremaStream.ChunkingMattersExactly` | src/hedp/adapters/warema/protocol.py:117-133 | For every input, all chunkings deliver the same frames up to the first failing call, if and only if the input fits the buffer and all its candidates decode, or no candidate before the first that does not decode or does not fit contains a `{`. |
| `WaremaStream.DeliveredComeFirst` | src/hedp/adapters/warema/protocol.py:117-133 | In any chunking, with any failing call, the delivered frames are the first of those before the first candidate that does not decode or does not fit. |
| `WaremaStream.SuccessfulCallsFit` | src/hedp/adapters/warema/protocol.py:117-133 | Calls that all succeed have seen only candidates that fit the buffer. |
| `WaremaStream.CutAfterUsable` | src/hedp/adapters/warema/protocol.py:117-133 | Cut after each of the candidates before that one, every input delivers all frames in them. |
| `WaremaStream.LostWithBadOne` | src/hedp/adapters/warema/protocol.py:117-133 | Any good candidate is delivered by a call of its own and lost in one call with a bad one. |
| `WaremaStream.AckThenShortRadio` | src/hedp/adapters/warema/protocol.py:40-61 | The source's decoder accepts `{a}` as an acknowledgement and refuses `{r}` as too short. |
| `WaremaStream.FrameIsLost` | src/hedp/adapters/warema/protocol.py:40-133 | A concrete input for the source's own decoder and buffer limit, `{a}{r}`: one call for everything delivers nothing, two calls deliver the acknowledgement. |
| `GasQueueImporter.RunEffect` | src/hedp/adapters/fusionsolar/gas_queue_importer.py:86-137 | For any two states of the database, a run completes exactly when it is no dry run and no candidate conflicts, before or under the lock; it then adds exactly `ready` raw rows, gives every candidate a receipt, and keeps receipts that point at a raw row of their source, day and payload pointing there. Every other run leaves the tables as found; the in-loop conflict is unreachable. |
| `GasQueueImporter.RunExactly` | src/hedp/adapters/fusionsolar/gas_queue_importer.py:86-137 | By the rows in the tables: a run fails exactly on a candidate whose payload was imported under another name or content, is blocked exactly on one whose day is held with other payloads only, and is otherwise a dry run or completes. |
| `GasQueueImporter.OneRowPerDayAdded` | src/hedp/adapters/fusionsolar/gas_queue_importer.py:103-117 | A completed run never adds a raw row to a source and day that already had one. |
| `GasQueueImporter.ReportExactly` | src/hedp/adapters/fusionsolar/gas_queue_importer.py:343-355 | The report counts the candidates held and contradicted by the rows, the rest as ready, and lists every file. |
| `GasQueueImporter.StandingExactly` | src/hedp/adapters/fusionsolar/gas_queue_importer.py:303-342 | How a candidate stands, read off receipts and raw rows: conflict exactly when no receipt is for it, its day has a row, and none with its payload; new exactly when there is neither receipt nor row of its day. |
| `GasQueueImporter.CompareExactly` | src/hedp/adapters/fusionsolar/gas_queue_importer.py:319-330 | The comparison fails exactly on a mislabelled candidate, and otherwise counts those held and those contradicted. |
| `GasQueueImporter.SecondRunIsIdle` | src/hedp/adapters/fusionsolar/gas_queue_importer.py:86-137 | After a completed run on any database the same candidates change nothing and are all reported as duplicates. |
| `GasQueueImporter.ImportSucceeds` | src/hedp/adapters/fusionsolar/gas_queue_importer.py:103-132 | Once the comparison shows no conflict, whatever the tables hold, the import loop runs to its end, adds exactly the new rows and keeps consistent tables consistent. |
| `GasQueueImporter.ImportOneFrame` | src/hedp/adapters/fusionsolar/gas_queue_importer.py:103-132 | Importing a candidate gives it its receipt and leaves the standing of every other source or day unchanged. |
| `GasQueueImporter.ImportOneConsistent` | src/hedp/adapters/fusionsolar/gas_queue_importer.py:103-132 | One import keeps receipts pointing at matching rows, and the receipts unique. |
| `GasQueueImporter.ClearExactly` | src/hedp/adapters/fusionsolar/gas_queue_importer.py:319-330 | The comparison reports no error and no conflict exactly when no single candidate has one. |
| `GasQueueImporter.ReadyCount` | src/hedp/adapters/fusionsolar/gas_queue_importer.py:344-348 | `ready_to_import` is the number of candidates the database does not know. |
| `GasQueueImporter.KeysAreDistinct` | src/hedp/adapters/fusionsolar/gas_queue_importer.py:139-155 | With one file per name, accepting the queue means that no source and day comes twice, and every candidate agrees with its name and digest. |
| `GasQueueImporter.ReadExactly` | src/hedp/adapters/fusionsolar/gas_queue_importer.py:157-222 | Which files are read, what the candidate carries, and which mismatch is reported. |
| `GasQueueImporter.CheckIdentities` | src/hedp/adapters/fusionsolar/gas_queue_importer.py:149-154 | The dictionary loop accepts exactly when equal source and day imply equal payload digests. |
| `GasQueueImporter.Candidates` | src/hedp/adapters/fusionsolar/gas_queue_importer.py:139-155 | Accepts exactly the queues of 1 to 100 readable files with different source and day. |
| `GasQueueImporter.Importer.CompareAll` | src/hedp/adapters/fusionsolar/gas_queue_importer.py:319-330 | The counting loop computes `Compare`, stopping at the first receipt conflict. |
| `GasQueueImporter.Importer.ImportInOrder` | src/hedp/adapters/fusionsolar/gas_queue_importer.py:103-132 | The import loop computes `ImportAll`, stopping at the first error. |
| `GasQueueImporter.Importer.Run` | src/hedp/adapters/fusionsolar/gas_queue_importer.py:86-137 | The whole run, report and listed files included, equals `RunOn` on the accepted candidates; a refused queue changes nothing. |
| `JsonlArchive.Scan` | src/hedp/storage/jsonl_archive.py:107-139 | The streaming loop succeeds exactly when every record has a valid timestamp, and yields count, bytes, digest and the first-occurring strings of the earliest and latest instant. |
| `JsonlArchive.SummaryIsUnique` | src/hedp/storage/jsonl_archive.py:107-139 | The records determine the summary. |
| `JsonlArchive.BytesDetermineRecords` | src/hedp/storage/jsonl_archive.py:38-47 | The byte stream of lines determines the sequence of records. |
| `JsonlArchive.BytesExactly` | src/hedp/storage/jsonl_archive.py:38-47 | The bytes are the lines in order, each followed by one line feed. |
| `JsonlArchive.Verify` | src/hedp/storage/jsonl_archive.py:210-278 | Accepts exactly the sound archives; every other outcome has its exact cause, and of an invalid line and a bad timestamp the first in the file decides. |
| `JsonlArchive.SoundExactly` | src/hedp/storage/jsonl_archive.py:210-278 | Soundness field by field: version 1, gzip, untouched data of objects only, valid timestamps, and the right count, digest, size when recorded, and first and last timestamps. |
| `JsonlArchive.MatchRecords` | src/hedp/storage/jsonl_archive.py:281-326 | Succeeds for exactly the archived records in the archived order. |
| `JsonlArchive.MatchesExactly` | src/hedp/storage/jsonl_archive.py:296-326 | A sound manifest describes no other sequence of records than the archived one. |
| `JsonlArchive.CheckDecides` | src/hedp/storage/jsonl_archive.py:262-277 | Comparing the recomputed summary with the manifest decides whether the manifest describes the records. |
| `JsonlArchive.Create` | src/hedp/storage/jsonl_archive.py:72-170 | Succeeds for exactly the non-empty sequences with valid timestamps; its own verification accepts the result, which holds exactly those records. |
| `ModbusContinuity.Sentinel.Prepare` | scripts/modbus_continuity.py:107-141 | One call decides and saves as `Decide` and `SavedBy`; bad parameters fail and leave the state alone. |
| `ModbusContinuity.SameIdExactly` | scripts/modbus_continuity.py:107-141 | Two calls return the same id if and only if every call after the first up to the second saw the known marker of its predecessor within the limit; then all calls between return it too. |
| `ModbusContinuity.ContinuesExactly` | scripts/modbus_continuity.py:113-136 | A call keeps its predecessor's id, and reports `continuous`, exactly when it follows it. |
| `ModbusContinuity.ReasonsExactly` | scripts/modbus_continuity.py:115-136 | Each of the other five reasons is reported exactly in its own situation. |
| `ModbusContinuity.DecideExactly` | scripts/modbus_continuity.py:113-136 | For any state file, also a damaged one: each reason has its exact cause, a kept identifier is the saved one of 32 characters or else a fresh token, and a replaced one is fresh. |
| `ModbusContinuity.Origin` | scripts/modbus_continuity.py:107-141 | Every id was drawn at one earlier call and answered by every call since. |
| `ModbusContinuity.EpochSeesOneBoot` | scripts/modbus_continuity.py:107-141 | Within an epoch the boot marker is known and never changes. |
| `ModbusContinuity.DiscardedIdNeverReturns` | scripts/modbus_continuity.py:107-141 | An id given up never comes back. |
| `ModbusContinuity.UnprovenIdIsUsedOnce` | scripts/modbus_continuity.py:120-125 | An id issued without a boot marker is used by that one call only. |
| `ModbusTcp.Client.ReadRegisters` | src/hedp/adapters/fusionsolar/modbus_tcp.py:68-157 | Invalid arguments and targets that do not resolve or are not private are refused and change nothing. Any other read sends exactly its request and accepts a response exactly when the stream starts, byte for byte, with the encoding of some vector of `count` registers for this transaction, unit and function, and returns that vector. |
| `ModbusTcp.RequestAsks` | src/hedp/adapters/fusionsolar/modbus_tcp.py:82-89 | Read field by field as a server does, the bytes sent name the transaction, protocol 0, their length, unit, function, start address and count of the read. |
| `ModbusTcp.ResponseCarries` | src/hedp/adapters/fusionsolar/modbus_tcp.py:95-134 | The encoding of a register vector is the only byte string that reads, field by field, as an answer with it. |
| `ModbusTcp.ValidReadExactly` | src/hedp/adapters/fusionsolar/modbus_tcp.py:71-78 | A read is valid exactly when it is function 3 or 4, of 1 to 125 registers, all of which exist. |
| `ModbusTcp.TargetsExactly` | src/hedp/adapters/fusionsolar/modbus_tcp.py:136-157 | A target is accepted exactly when it has an address and all are private or link-local. |
| `ModbusTcp.FramingErrors` | src/hedp/adapters/fusionsolar/modbus_tcp.py:95-115 | Each error of length, connection, transaction, protocol and unit has its exact cause in the bytes that arrive. |
| `ModbusTcp.MessageErrors` | src/hedp/adapters/fusionsolar/modbus_tcp.py:116-129 | Each error about the message itself has its exact cause. |
| `ModbusTcp.AcceptsExactly` | src/hedp/adapters/fusionsolar/modbus_tcp.py:95-134 | A stream decodes to a register vector if and only if it starts with the encoding of that vector. |
| `ModbusTcp.AnswersDecode` | src/hedp/adapters/fusionsolar/modbus_tcp.py:95-134 | The encoding of every register vector is accepted. |
| `ModbusTcp.DecodedAnswers` | src/hedp/adapters/fusionsolar/modbus_tcp.py:95-134 | Whatever is accepted is such an encoding. |
| `ModbusTcp.ReceiveExact` | src/hedp/adapters/fusionsolar/modbus_tcp.py:159-167 | However `recv` cuts the bytes, the result is the first `size` of them, or the error the end of the connection calls for. |
| `ModbusTcp.ReceiveResponse` | src/hedp/adapters/fusionsolar/modbus_tcp.py:95-134 | Header and PDU as received give `Decode` of the stream. |
| `ModbusTcp.IdClosedForm` | src/hedp/adapters/fusionsolar/modbus_tcp.py:81 | The id of request k is (k-1) mod 65535 + 1, so it stays in 1..65535. |
| `ModbusTcp.IdsRepeatExactly` | src/hedp/adapters/fusionsolar/modbus_tcp.py:81 | Any 65535 consecutive requests have different ids, and the next one repeats the first. |
| `SwitchBotStorage.ConflictAccounting` | src/hedp/adapters/switchbot/storage.py:319-361 | After any inserts: keys are unique and exactly those inserted, and rows = distinct (device, time, kind) + conflicts. |
| `SwitchBotStorage.ConflictsAreReal` | src/hedp/adapters/switchbot/storage.py:328-345 | Every conflict row names the first stored observation of that device, time and kind and a later, different one, both kept. |
| `SwitchBotStorage.OrderIsIrrelevant` | src/hedp/adapters/switchbot/storage.py:319-361 | Stored keys and numbers of rows and conflicts depend only on which observations were inserted. |
| `SwitchBotStorage.ReinsertIsNoOp` | src/hedp/adapters/switchbot/storage.py:322-326 | Inserting anything already present changes nothing and reports a duplicate. |
| `SwitchBotStorage.StatusExactly` | src/hedp/adapters/switchbot/storage.py:319-361 | What an insert answers: duplicate of something inserted before, conflict with another measurement of its device, time and kind, or inserted. |
| `SwitchBotStorage.SameKeyExactly` | src/hedp/adapters/switchbot/storage.py:292-317 | Two observations share a key exactly when device, time, kind and every measurement agree, the sign of zero aside. |
| `SwitchBotStorage.KeyOfPlain` | src/hedp/adapters/switchbot/storage.py:292-317 | Without a negative zero the key is over device, time, kind and measurements as they are. |
| `SwitchBotStorage.InsertReflects` | src/hedp/adapters/switchbot/storage.py:319-361 | One insert keeps the accounting. |
| `SwitchBotStorage.Database.InsertObservation` | src/hedp/adapters/switchbot/storage.py:319-361 | The method computes `Inserting` on the two tables. |
| `ShadowExecution.Gate.Assess` | src/hedp/operations/shadow_execution.py:199-309 | Every completed assessment answers `Assessed` on the ids recorded before, and records its own id unless it is a duplicate; a negative cooldown fails and changes nothing. |
| `ShadowExecution.Gate.AssessState` | src/hedp/operations/shadow_execution.py:258-309 | The checks from the state quality on decide as `DecideOnState`, record likewise and show the state's time and quality. |
| `ShadowExecution.ThreeEventsNoDispatch` | src/hedp/operations/shadow_execution.py:199-371 | Every assessment emits exactly received, gate_checking and finished, about the intent and without dispatch; only the last carries status, reason and result; it would dispatch exactly on a pass; state time and quality are shown exactly when the state was looked at. |
| `ShadowExecution.AssessAll` | src/hedp/operations/shadow_execution.py:172-309 | Any sequence of assessments on any gates sharing one registry takes the decisions of the run and leaves the registry of the run. |
| `ShadowExecution.RegistryIsAssessed` | src/hedp/operations/shadow_execution.py:172-182 | Although duplicates are not recorded, the registry is exactly the set of ids assessed so far. |
| `ShadowExecution.PassesExactly` | src/hedp/operations/shadow_execution.py:199-309 | In such a run a call passes if and only if the intent is for a known capability, target, owner and state, in time, with accepted, fresh evidence and no recent override, and its id was never assessed before. |
| `ShadowExecution.IntentVerdicts` | src/hedp/operations/shadow_execution.py:217-255 | Each verdict about the intent, with its status, exactly when the checks before it hold and its own fails. |
| `ShadowExecution.StateVerdicts` | src/hedp/operations/shadow_execution.py:256-309 | Likewise for the verdicts about state, override and operation id, and the pass. |
| `ShadowExecution.AtMostOnePass` | src/hedp/operations/shadow_execution.py:172-309 | Of two calls with one id the later never passes; an otherwise acceptable one is reported as a duplicate. |
| `AlarmCollector.CollectPages` | src/hedp/adapters/fusionsolar/alarm_collector.py:99-167 | Against any server at most 1000 requests are made; the result is pages 1..n if and only if the answers end normally at some n, which is then the number of requests; each error has its exact cause. |
| `AlarmCollector.EndIsUnique` | src/hedp/adapters/fusionsolar/alarm_collector.py:99-210 | The answers determine the number of pages. |
| `AlarmCollector.FailureExcludesEnd` | src/hedp/adapters/fusionsolar/alarm_collector.py:121-139 | A refused, repeated or excess request leaves no normal end, at any page. |
| `AlarmCollector.EarlierPagesAreFull` | src/hedp/adapters/fusionsolar/alarm_collector.py:178-210 | Every page before the last has at least `page_size` hits and does not satisfy the stop test. |
| `AlarmCollector.LastPageExactly` | src/hedp/adapters/fusionsolar/alarm_collector.py:178-210 | The stop test: nothing to read, the total of alarms or pages reached, the offset with limit or hits reaching the total, or a page that is not full. |
| `AlarmCollector.EndsOnceComplete` | src/hedp/adapters/fusionsolar/alarm_collector.py:99-210 | Against an honest server that tells how much there is, the collection ends at the first page after which no alarm is missing. |
| `AlarmCollector.EndsAtShortPage` | src/hedp/adapters/fusionsolar/alarm_collector.py:99-210 | Against one that tells nothing, it ends at the first page that is not full. |
| `AlarmCollector.HonestStopIsComplete` | src/hedp/adapters/fusionsolar/alarm_collector.py:178-210 | Against an honest server the stop test fires only once no alarm is missing. |
| `AlarmCollector.HonestServerIsCollectedCompletely` | src/hedp/adapters/fusionsolar/alarm_collector.py:99-210 | An honest server with fewer than 1000 full pages of different alarms is always collected completely, in order. |
| `SseParser.ParseSse` | src/hedp/adapters/miele/sse.py:16-60 | The one-pass loop computes `Parse`, events before an error included. |
| `SseParser.ParseComposes` | src/hedp/adapters/miele/sse.py:28-60 | Parsing two transcripts joined by a blank line equals parsing one after the other, errors included. |
| `SseParser.ParsesBlockByBlock` | src/hedp/adapters/miele/sse.py:28-60 | The parser judges the transcript block by block between blank lines: each block by its own data lines and last event name, up to the first that breaks a limit, reported as the limit broken first, or does not decode. |
| `SseParser.EventsExactly` | src/hedp/adapters/miele/sse.py:28-60 | The events are exactly one for each block with data before the first bad block, in order; there is an error if and only if there is a bad block. |
| `SseParser.FirstExcess` | src/hedp/adapters/miele/sse.py:50-57 | Whichever limit the first excessive data line breaks is the one reported, whatever follows. |
| `SseParser.EventsRespectLimits` | src/hedp/adapters/miele/sse.py:50-60 | Every emitted event comes from a block of the transcript with at least one data line, at most `maximumLines` lines and `maximumBytes` bytes, whose joined data decodes to its payload and whose name it bears. |
| `SseParser.PrintedEventParses` | src/hedp/adapters/miele/sse.py:37-60 | A printed message is judged by exactly its own name and data. |
| `SseParser.PrintedEventExactly` | src/hedp/adapters/miele/sse.py:37-60 | A printed message is accepted exactly when it respects both limits and its joined data decodes. |
| `SseParser.PrintedMessagesParse` | src/hedp/adapters/miele/sse.py:16-60 | Printing any list of acceptable messages and parsing gives them back, in order. |
| `SseParser.PrintedFields` | src/hedp/adapters/miele/sse.py:45-53 | The printed lines are read as the name and the data they were printed from, whatever characters these hold. |
| `SseParser.FieldsExactly` | src/hedp/adapters/miele/sse.py:40-52 | A line is data or event by the name before its first colon, one leading space dropped; comments, other fields and lines without a colon are ignored. |
| `SseParser.JoinExactly` | src/hedp/adapters/miele/sse.py:63-65 | Data lines are joined with one line feed between neighbours. |
| `SseParser.Utf8WidthIsLeast` | src/hedp/adapters/miele/sse.py:55 | Each character counts the fewest bytes of UTF-8 that hold it. |

## Left out

- OperationalJournal.AtomicRunsExclude: holds for runs in which a recovery's check and rename are adjacent; the code does not enforce this, and `LockInPlaceExactly` gives the exact condition without it.
- OperationalJournal.WedgedForever: speaks of processes that follow the protocol; a human who removes the lock is not modelled.
- OperationalJournal.Journal.Append: directory creation, permission bits, symbolic-link checks and partial writes of a record are not modelled; a record is one text, its size its number of characters, and the limits (2 generations, 1 MiB in the source) are parameters.
- JsonlArchive.Verify: missing manifest fields and file-system checks are not modelled, and all mismatches of the summary are one error.
- JsonlArchive.Scan: the three streaming loops of the source are the same code three times and are modelled once; the compressed file is identified with the lines it decompresses to.
- CompactDatabase.Build: the copies and counts of the preserved tables, schema validation, the integrity check and the final rename are not modelled; an archive's JSON values are reduced to the fields used.
- ModbusQualification.Evaluate: the success rate in percent and the bucket of observed hours are rounded display values; the exact decode of a snapshot (`_records_match_raw`) is a parameter; instants before 1970 are not modelled.
- GasQueueImporter.Candidates: which of several errors is raised is not fixed; the content checks of an envelope (size, encoding, JSON shape, request, timestamps, secrets) are one outcome, valid or not; a queue of files from one directory has distinct names.
- GasQueueImporter.Importer.Run: collection and import times and the constraint declarations of the receipt table are not modelled; rows of one source and day are looked at in the order they were inserted.
- SwitchBotStorage.Database.InsertObservation: `LIMIT 1` without an order may return any row; the model takes the earliest. Columns outside the identity are one opaque field.
- ShadowExecution.Gate.Assess: the name and time-zone checks of the value classes are not modelled; the method is split in two where the checks of the state evidence begin; capabilities are a map, so their names are unique by construction.
- AlarmCollector.CollectPages: the metadata stored with each page is reduced to its number; booleans, which Python counts as integers, do not occur as counts.
- ModbusContinuity.Sentinel.Prepare: the state path, its permissions, reading the boot time, and a state file that is not a JSON object (an error in the source) are not modelled.
- ModbusTcp.Client.ReadRegisters: the addresses the target's name resolves to are a parameter, and a failed resolution is no address; a refused connection is a connection that cannot be written.
- WaremaStream.FrameStream.Feed: the decoder is a parameter; of the source's own (`FrameDecoder`) acceptance and the kind of frame are modelled, the fields (heights and angles with rounding, tails) are not.
- SseParser.ParseSse: the events are collected instead of yielded one by one; a line is text already decoded from UTF-8.
- Command lines, printing, configuration and `.env` handling, launchd and shell scripts: input and output.
- Sessions, login, encryption and sockets of the FusionSolar, SwitchBot and Miele clients: libraries that are not part of this model.
- Normalizers, device profiles, error vocabularies, spreadsheet importers, daily reports and database metrics: field-by-field cases that would only add easy members.
