# Telephony data storage: a verified model

The service keeps messages, conversations, SIM data, APN profiles and network parameters in SQLite
databases. Its logic sits in statement sequences over linked tables, in triggers that keep a derived
count, and in migrations of files, schemas and configuration that must survive failures and crashes.
This project models those machines in Dafny and proves what each of them keeps.

| file | machine |
|---|---|
| `SmsMmsTables.dfy` | the tables of `sms_mms.db` and the effect of each statement, triggers included |
| `SessionDelete.dfy` | the seven statements that delete conversations, resuming them, and the query that predicts the files they free |
| `UnreadCount.dfy` | `session.unread_count` as an index over two message tables |
| `SmsMmsHelper.dfy`, `StoreEffects.dfy` | the operations of the helper on a store whose statements may fail, and what they do to the rows, column by column |
| `El2Move.dfy`, `StoreHandles.dfy` | moving the database from EL1 to EL2 under crashes, and the handles a process works on |
| `MergeCopy.dfy` | copying conversations row by row from one store into another |
| `MergeRelations.dfy`, `MergeFailures.dfy`, `MergeSteps.dfy`, `MergeTurns.dfy`, `ConversationAccounts.dfy` | what that copy keeps, what failed in it, its steps, its turns, and its accounts |
| `Schema.dfy`, `SchemaVersions.dfy`, `SchemaScripts.dfy`, `SchemaUpgrade.dfy`, `OpenRepair.dfy`, `UpgradeThenOpen.dfy` | what each schema version looks like, the steps from one to the next, the version chains, and the repair pass on opening |
| `Dedup.dfy`, `ApnLoad.dfy`, `DigestReload.dfy` | configuration loads that a checksum guards |
| `Recipients.dfy` | finding a conversation by its set of recipients |
| `ApnPassword.dfy` | APN passwords, encrypted when written and decrypted when read |
| `Common.dfy`, `Sums.dfy` | result codes and optional values; sums over finite maps |

A table is a map from id to row with a counter that never gives an id twice. A statement is one atomic
step that may fail and then leaves the store as it was; `ghost` out-parameters and fields such as
`done`, `faults` or `failed` say how far a call got and what failed in it. A crash is the end of a run
after any prefix of the durable steps. Where the source changes state step by step, a class with the same
fields does so here, and its methods are proved against functions on values, about which the lemmas then
speak. What an operation is for is also said apart from those functions, on ids, columns, versions and the
answers of the environment: `TakesConversations`, `Inserts`, `MarksRead`, `Moves`, `StartsOn`, `Gains`,
`Restores`, `RowsLoaded`, `Travels` and the like.

## What is not true of the code

These are proved with the exact condition under which the code does what it promises.

- Marking messages read by number and time repairs the count of one session only, that of the first
  row that matches (`MarkSmsReadIff`, `MarkRcsReadIff`).
- A session delete disturbs the count of another session exactly when it removes an unread rcs row that
  sits in a session that stays (`DeleteSessionsIff`).
- A session delete can be resumed exactly when each part it reaches that is shared has two references
  and is reached through both keys (`ResumableIff`).
- The path query misses a file whose part has two references and is released through both keys
  (`QueryMissesDoublyReleased`).
- A crash between deleting EL1 and replacing a recorded "fail" leaves the only copy to be overwritten by
  the next start (`BootKeepsMessagesIff`, `ExposedCrashLosesMessages`).
- Messages written on the temporary store, by a process that has moved but cannot open EL2, stay there:
  no start reads that file, and the merge that would is never called
  (`BootKeepsMessagesIff`, `NothingReadsTemp`).
- The merge deletes a url record although its insert failed (`RecordLostIff`), leaves messages and rcs
  rows behind in a conversation that it reports as copied and deletes (`CopySmsMmsInfo`, `CopyRcs`,
  `CopyOneSession`), and loses the count of a conversation whose update failed (`SettledTotal`).
- A message that the merge takes along with an rcs row goes without the parts that are stored under its own
  id only: exactly those of the rcs row in the message's group are copied; and an rcs row of group 0 takes
  every message of its conversation along (`CopyOneMessage`, `CopySmsMmsInfo`).
- A blocked message or rcs row whose sender has no conversation in the destination keeps the session number
  of the source, which names another conversation there or none (`CopyOneBlocked`, `CopyOneRcsBlocked`).
- A conversation that the merge inserts brings its unread count along, which is too low if unread rows of
  the destination name its new id already (`InsertSessionNeverBelowIff`).
- A failed delete, insert or save while loading an operator's APN profiles, and a reset of one operator
  that does not get to load, can make a later load be skipped although the rows are gone or old
  (`LoadIsSoundIff`, `OperatorResetKeepsSoundIff`).
- The number-match and emergency-number tables end with rows that are not the file's when the delete or
  an insert failed (`ReloadKeepsTrustIff`, `FailedDeleteBreaksTrust`), and lose their rows unnoticed when
  a file version comes back after a failed load of another one (`ReturningVersionIff`).
- Opening does not restore an index whose table lacks one of its columns (`OpenRepairsIff`).
- A password of 1008 bytes or more is stored as nothing (`PasswordComesBackIff`).

Where code and comments disagree, the code is modelled: the guard that should keep EL2 closed while EL1
exists compares the EL2 path with itself (sms_mms/src/rdb_sms_mms_helper.cpp:178-196) and never fires; and
`ResultSetToBucketRcs` takes the start time by value, so rcs rows are recognised by `msg_id` and an empty
time (sms_mms/src/rdb_sms_mms_helper.cpp:1884-1896).

## Model

| member | source | states |
|---|---|---|
| SessionDelete.PartPrefix | sms_mms/src/rdb_sms_mms_helper.cpp:834-920 | until the messages go, the part statements give every part the count that its own two keys and initial messages determine |
| SessionDelete.DeleteIsSimultaneous | sms_mms/src/rdb_sms_mms_helper.cpp:793-832 | the seven statements together are one deletion judged on the initial store: a counted part loses one reference per key that a selected message reaches it through and goes at zero, a part with -1 goes with an uncollected message, and messages, rcs rows and sessions go by their initial-state predicates |
| StoreEffects.DeleteTakesConversations | sms_mms/src/rdb_sms_mms_helper.cpp:793-998 | on ids and columns: with a list exactly the sessions in it go, without one exactly those outside it, with a column test only those that exist and have that value; their messages go unless blocked; an rcs row goes if such a message names it and it is not blocked; a counted part loses one reference for its message and one for its rcs row and goes with the last, a part with -1 goes with a message that is not a favourite, and no other row changes |
| SessionDelete.CountOutcome | sms_mms/src/rdb_sms_mms_helper.cpp:846-908 | for any count and any answers of the sub-selects, the four part statements in sequence release a part by the number of its keys |
| SessionDelete.ResumableIff | sms_mms/src/rdb_sms_mms_helper.cpp:793-832 | wherever the delete stops, a complete second run reaches the state of an undisturbed one, for all stopping points exactly if every reached part with more than one reference has two and both keys |
| SessionDelete.SharedPartBreaksResume | sms_mms/src/rdb_sms_mms_helper.cpp:846-908 | any other shared part comes with a stopping point after which the second run ends elsewhere |
| SessionDelete.ResumesWhenRepeatable | sms_mms/src/rdb_sms_mms_helper.cpp:793-832 | without such a part every prefix followed by the whole delete equals the whole delete |
| SessionDelete.DeleteIsResumable | sms_mms/src/rdb_sms_mms_helper.cpp:1013-1043 | the same after any number of interrupted runs |
| SessionDelete.PrefixStaysRepeatable | sms_mms/src/rdb_sms_mms_helper.cpp:793-832 | an interrupted delete leaves a store from which it can be interrupted and resumed again |
| SessionDelete.PathQueryPredictsDelete | sms_mms/src/rdb_sms_mms_helper.cpp:1078-1175 | the paths returned before a delete are exactly those of the parts it removes, if none of the parts with two references is released through both keys |
| SessionDelete.QueryMissesDoublyReleased | sms_mms/src/rdb_sms_mms_helper.cpp:1095-1175 | in general the parts the delete removes are those the query predicts and the doubly released ones, which it never predicts |
| SmsMmsHelper.RdbSmsMmsHelper.StatisticsDeleteSessionExe | sms_mms/src/rdb_sms_mms_helper.cpp:793-832 | stops at the first failing statement, leaving a prefix; success means that exactly the conversations named are gone, with their unblocked messages and what only these held; without a limit nothing happens |
| SmsMmsHelper.RdbSmsMmsHelper.ExecuteLimited | sms_mms/src/rdb_sms_mms_helper.cpp:834-844 | each delete function refuses to run without a limit |
| UnreadCount.SmsTriggerStep | sms_mms/src/sms_mms_tables.cpp:370-382 | inserting or updating one sms row with its trigger keeps the count exact where it was, if the row is unread, and never lets it fall below the truth |
| UnreadCount.RcsTriggerStep | sms_mms/src/sms_mms_tables.cpp:384-396 | the same for one rcs row |
| UnreadCount.InsertBatchKeeps | sms_mms/src/rdb_sms_mms_helper.cpp:246-265 | a committed batch keeps the index exact |
| StoreEffects.BatchInserts | sms_mms/src/rdb_sms_mms_helper.cpp:246-265 | a committed batch: the ids grow by its length, row i is the i-th item, every old row stays, and a conversation has its true count if it got an unread one and else its old count |
| UnreadCount.UpdateSmsKeeps | sms_mms/src/sms_mms_tables.cpp:398-412 | updating any rows of sms_mms_info in any order keeps the lower bound |
| UnreadCount.UpdateRcsKeeps | sms_mms/src/sms_mms_tables.cpp:414-428 | updating any rows of rcs_info in any order keeps the lower bound |
| UnreadCount.MarkingFiresNoTrigger | sms_mms/src/sms_mms_tables.cpp:398-412 | setting is_read row by row fires no trigger in any order, so the counts stay what they were |
| UnreadCount.MarkingRcsFiresNoTrigger | sms_mms/src/sms_mms_tables.cpp:398-412 | the same for rcs rows |
| UnreadCount.MarkReadPrefix | sms_mms/src/rdb_sms_mms_helper.cpp:458-624 | the three statements of a mark-read operation end exact; every prefix of them keeps the lower bound |
| StoreEffects.MarkReadMarks | sms_mms/src/rdb_sms_mms_helper.cpp:458-624 | which messages and rcs rows a mark reads, which conversations it sets to 0, and that nothing else changes |
| UnreadCount.MarkSmsReadIff | sms_mms/src/rdb_sms_mms_helper.cpp:626-726 | marking sms rows read and recounting keeps the index exactly if every unread row that matches is in the session of the first match, as marking by id always is |
| UnreadCount.MarkRcsReadIff | sms_mms/src/rdb_sms_mms_helper.cpp:626-726 | the same for rcs rows |
| UnreadCount.DeleteSessionsIff | sms_mms/src/rdb_sms_mms_helper.cpp:922-998 | a session delete keeps the index exactly if no unread rcs row it removes is in a session that stays; so it does if each rcs row is in the session of its message |
| UnreadCount.UnreadIndexExact | sms_mms/src/sms_mms_tables.cpp:370-428 | after every run of inserts, batches, mark-read operations and deletes, each session counts exactly its unread sms and rcs rows |
| UnreadCount.UnreadNeverBelow | sms_mms/src/sms_mms_tables.cpp:370-428 | after every run that also updates and deletes messages freely and in which operations fail part way, no count is below the true number |
| UnreadCount.TotalsCountUnread | sms_mms/src/rdb_sms_mms_helper.cpp:289-297 | each total, for all sessions or for one type, equals the number of unread messages in the existing sessions of that type if the index is exact, and is never below it otherwise |
| UnreadCount.StatisticsAreExact | sms_mms/src/rdb_sms_mms_helper.cpp:289-297 | after every maintaining run the totals shown are the numbers of unread messages in existing sessions: of all, of type 0, of type 2 and of type 1 |
| SmsMmsHelper.RdbSmsMmsHelper.InsertSmsMmsInfo | sms_mms/src/rdb_sms_mms_helper.cpp:241-244 | an insert that works puts the row under the next id, with its trigger, and changes no other row; one that fails changes nothing |
| SmsMmsHelper.RdbSmsMmsHelper.BatchInsertSmsMmsInfo | sms_mms/src/rdb_sms_mms_helper.cpp:246-274 | a batch that works puts each row under the next ids in order, recounts the conversations that got unread ones and changes no other row; otherwise nothing has changed, whichever insert or commit failed |
| SmsMmsHelper.RdbSmsMmsHelper.MarkedAsRead | sms_mms/src/rdb_sms_mms_helper.cpp:506-624 | the three statements run in order until one fails; with all of them the messages of one conversation, of those of type 1 and 2, or all unread ones are read, and the same conversations count 0 |
| SmsMmsHelper.RdbSmsMmsHelper.ProcessSmsUnread | sms_mms/src/rdb_sms_mms_helper.cpp:773-791 | marking and recounting run in order until one fails; with both the messages named by id, or by number and time, are read and the conversation of the first has its true count, and nothing else changes |
| SmsMmsHelper.RdbSmsMmsHelper.ProcessRcsUnread | sms_mms/src/rdb_sms_mms_helper.cpp:773-791 | the same for rcs rows |
| El2Move.InitKeepsMessages | sms_mms/src/rdb_sms_mms_helper.cpp:1286-1321 | between any two steps of a start the record points at a file with the latest messages, except right after deleting EL1 with "fail" recorded; a completed start always ends that way |
| El2Move.MoveEnds | sms_mms/src/rdb_sms_mms_helper.cpp:1286-1321 | the move goes on with EL2 exactly if success is recorded, there was nothing to move, or the backup it makes works; a backup that works leaves the messages of EL1 in EL2, one that fails leaves EL1 as it was, and the record says which |
| El2Move.InitSelectsHolder | sms_mms/src/rdb_sms_mms_helper.cpp:73-122 | the family a start selects holds the latest messages, and EL2 is selected exactly if success is recorded |
| El2Move.BootKeepsMessagesIff | sms_mms/src/rdb_sms_mms_helper.cpp:73-122 | one process, crashing anywhere or writing to whichever stores it works on, also to the temporary one first and to EL2 once that is mounted, leaves the record right exactly if it neither crashes in that one place nor adds messages to the temporary store; the latest messages are then in EL1 or EL2, and otherwise only if an old EL1 file happens to hold the same |
| El2Move.ExposedIff | sms_mms/src/rdb_sms_mms_helper.cpp:1275-1313 | a crash leaves the only copy in EL2 under a recorded fail exactly if it comes right after the delete of EL1, the record said fail when the process started, the backup worked and there are messages |
| El2Move.MoveIsCrashSafe | sms_mms/src/rdb_sms_mms_helper.cpp:1231-1321 | over all runs of processes that crash between any steps but that one and do not write on the temporary store, the latest messages are in EL1 or EL2 and any next start selects the file that holds them |
| El2Move.TemporaryProcessWrites | sms_mms/src/rdb_sms_mms_helper.cpp:1399-1422 | a moved process that cannot open EL2 adds to the temporary file and leaves EL1 and EL2 alone until EL2 is mounted, and then writes to EL2 |
| El2Move.NothingReadsTemp | sms_mms/src/rdb_sms_mms_helper.cpp:73-122 | what a start does to everything else does not depend on the temporary file, so messages written there stay there |
| El2Move.ExposedCrashLosesMessages | sms_mms/src/rdb_sms_mms_helper.cpp:1305-1307 | from every state with "fail" recorded, that crash followed by an undisturbed start destroys the only copy |
| StoreHandles.HandlesStayConsistent | sms_mms/src/sms_mms_ability.cpp:182-212 | over any events of a process: success means a store to work on, EL2 mode once entered is never left, and in it the store differs from the temporary one |
| StoreHandles.EventKeepsConsistent | sms_mms/src/sms_mms_ability.cpp:1063-1079 | one start or mount event keeps each handle on its own database, EL2 mode, and success once reported |
| StoreHandles.FreshInitSelects | sms_mms/src/rdb_sms_mms_helper.cpp:73-122 | after a start that moved, the store is EL2 if that opens, else the temporary one if that opens, else none; before the move it is EL1 if that opens; EL1 or EL2, if selected, holds exactly the latest messages, and the start succeeds exactly with a store |
| StoreHandles.InitStartsOn | sms_mms/src/rdb_sms_mms_helper.cpp:73-122 | the same for every start that is made again: what was open before stays usable, and EL2 goes before the temporary store |
| StoreHandles.MountBringsEl2Up | sms_mms/src/rdb_sms_mms_helper.cpp:1399-1422 | the mount event puts a moved process in EL2 mode if EL2 is or can be opened, and otherwise changes nothing |
| StoreHandles.RdbSmsMmsHelper.ForceCreateEl1RdbStore | sms_mms/src/rdb_sms_mms_helper.cpp:124-149 | opening EL1 creates its file |
| StoreHandles.RdbSmsMmsHelper.BackupEl1ToEl2 | sms_mms/src/rdb_sms_mms_helper.cpp:2500-2525 | the disk passes through opening EL1, a partial backup, the backup and the delete, in this order |
| StoreHandles.RdbSmsMmsHelper.HandleFile | sms_mms/src/rdb_sms_mms_helper.cpp:1275-1284 | the backup, then the record of its result |
| StoreHandles.RdbSmsMmsHelper.HandleDirJudgement | sms_mms/src/rdb_sms_mms_helper.cpp:1231-1264 | only where it finds nothing to move may success be recorded without losing the latest messages; otherwise, if the move was not tried before, they are in EL1 |
| StoreHandles.RdbSmsMmsHelper.MoveDbFileToEl2 | sms_mms/src/rdb_sms_mms_helper.cpp:1286-1321 | the result and every disk state of the move, for each recorded result |
| StoreHandles.RdbSmsMmsHelper.CreatSql | sms_mms/src/rdb_sms_mms_helper.cpp:178-227 | EL2 is opened once |
| StoreHandles.RdbSmsMmsHelper.Init | sms_mms/src/rdb_sms_mms_helper.cpp:73-122 | a start in a fresh process goes through exactly the disk states that the crash theorem ranges over; it works on EL1 before the move, on EL2 after it if that is or can be opened, else on the temporary store, and fails only if none of these opens |
| StoreHandles.RdbSmsMmsHelper.ChangeRdbStoreToLT | sms_mms/src/rdb_sms_mms_base_helper.cpp:311-318 | with the temporary store open in a moved process, the handles stay consistent and the process works on the temporary store |
| StoreHandles.RdbSmsMmsHelper.OpenMoved | sms_mms/src/rdb_sms_mms_helper.cpp:96-121 | after the move, EL2 is worked on if it is or can be opened, else the temporary store if that is or can be opened; else the call fails and nothing changes; the disk states in a fresh process |
| StoreHandles.RdbSmsMmsHelper.ChangeRdbStoreToEl1 | sms_mms/src/rdb_sms_mms_base_helper.cpp:320-328 | with EL1 open in a process that has not moved, success can be reported: the handles are then consistent and the process works on EL1 |
| StoreHandles.RdbSmsMmsHelper.ChangeRdbStoreToEl2 | sms_mms/src/rdb_sms_mms_base_helper.cpp:330-336 | with EL2 open, the handles stay consistent and the process is in EL2 mode |
| StoreHandles.RdbSmsMmsHelper.ChangeStoreToEl5AndMoveData | sms_mms/src/rdb_sms_mms_helper.cpp:1399-1422 | the mount event: only after a move, and then the process works on EL2 if that is or can be opened |
| StoreHandles.RdbSmsMmsHelper.DoInit | sms_mms/src/sms_mms_ability.cpp:182-212 | a start runs, with the outcome of Init, whenever the EL1 directory is there and none has succeeded yet, and otherwise nothing happens |
| MergeRelations.CarriedThen | sms_mms/src/rdb_sms_mms_helper.cpp:1755-1817 | two copies in sequence lose nothing: every message, rcs row and part file that left the source is in the destination |
| MergeRelations.OnlyCopiesThen | sms_mms/src/rdb_sms_mms_helper.cpp:1755-1774 | two copies in sequence only add to the destination, and every message they add has an original |
| MergeRelations.CopiedThen | sms_mms/src/rdb_sms_mms_helper.cpp:2190-2234 | both of these together |
| MergeSteps.ReachesThen | sms_mms/src/rdb_sms_mms_helper.cpp:2190-2234 | the same with url records, and with what failed: a statement failed on the way exactly if it failed in one of the two parts, and so for what keeps rows behind or ends a pass |
| MergeSteps.TravelsThen | sms_mms/src/rdb_sms_mms_helper.cpp:1776-1817 | two copies in sequence: every message that left in either took with it the parts and url records that name it or the rcs row that took it along |
| MergeSteps.OwnPartsTravel | sms_mms/src/rdb_sms_mms_helper.cpp:1776-1817 | a message that no rcs row can have taken along took with it every part of its own group and id, and every url record with its session and id |
| MergeRelations.RecordLostIff | sms_mms/src/rdb_sms_mms_helper.cpp:1630-1661 | a url record that left the source is missing from the destination exactly if its insert failed, no other record saying the same got there, and none was there before |
| MergeCopy.Merger.CalcGroupId | sms_mms/src/rdb_sms_mms_helper.cpp:2404-2419 | a new group number is one more than the largest in use, if the query works and there is one |
| MergeCopy.Merger.MmsPartCheckE | sms_mms/src/rdb_sms_mms_helper.cpp:1498-1527 | a part is recognised exactly if the destination has one with the same file and, as it is in the source, the same message, group and rcs row, unless the query failed |
| MergeCopy.Merger.CopyOnePart | sms_mms/src/rdb_sms_mms_helper.cpp:1529-1567 | a part leaves the source only when the destination has its file, recognised there or inserted under the new message, rcs row and group, and then stays only if its delete failed; it is inserted only if it is not recognised; the copy fails exactly if the insert did |
| MergeCopy.Merger.CopyMmsPart | sms_mms/src/rdb_sms_mms_helper.cpp:1529-1567 | the parts it is asked for are those with the group and the rcs row, or else the message, of the source: it fails exactly if the query or an insert of this call failed, otherwise each of them has its file in the destination, recognised or under the new ids, and parts are left exactly if a delete of this call failed; no other part leaves |
| MergeCopy.Merger.RiskUrlRecordCheckE | sms_mms/src/rdb_sms_mms_helper.cpp:1605-1628 | a record is recognised exactly if the destination has it with the ids of the source, unless the query failed |
| MergeCopy.Merger.RecordUrl | sms_mms/src/rdb_sms_mms_helper.cpp:1605-1661 | a record is recognised and not inserted again, or inserted with the new ids, and then counted as arrived, or counted as lost exactly if its own insert failed, and only then the destination lacks it |
| MergeCopy.Merger.CopyOneUrl | sms_mms/src/rdb_sms_mms_helper.cpp:1630-1661 | the record leaves the source in any case; afterwards the destination has it exactly if it was recognised or inserted or there before |
| MergeCopy.Merger.CopyRiskUrlRecord | sms_mms/src/rdb_sms_mms_helper.cpp:1630-1661 | every record of the message is counted as arrived or lost; the call fails exactly if its query did, and otherwise records are left exactly if a delete of this call failed; a new record is attached to the new session, message and rcs row |
| MergeCopy.Merger.SmsMmsInfoCheckE | sms_mms/src/rdb_sms_mms_helper.cpp:1726-1753 | a message is recognised exactly if the destination has one with the same type, title, content, numbers and start time, unless the query failed |
| MergeCopy.Merger.InsertSmsMmsToE | sms_mms/src/rdb_sms_mms_helper.cpp:1755-1774 | a recognised message is reused, any other inserted with the new session, rcs row and group; no account changes, no conversation drops below its unread rows, and the call fails exactly if its insert did |
| MergeCopy.Merger.CopyOneMessage | sms_mms/src/rdb_sms_mms_helper.cpp:1776-1817 | one message is deleted only after its row is in the destination, and each part of its group with its rcs row, or else its message, has its file there, recognised or under the copy of the message, and each url record that names it is counted as arrived or lost; whatever failed before, it stays exactly if one of the part or record statements or its delete failed in this call; no other part leaves; the copy keeps its rcs id if no rcs row took it along, its group is the one given or one nobody is in, and new records are attached to it |
| MergeCopy.Merger.CopySmsMmsInfo | sms_mms/src/rdb_sms_mms_helper.cpp:1776-1817 | one pass over the messages of a conversation, or those of an rcs row in its group: every message that left took its parts and records with it as in CopyOneMessage, and new messages have the rcs row and group given, or keep their rcs id and get a group nobody is in; it ends early exactly if its query or an insert of a message failed in it, and otherwise messages are left in the source exactly if a part or record statement or a delete failed in it, whatever failed before; messages of other conversations are spared |
| MergeCopy.Merger.RcsInfoChecKE | sms_mms/src/rdb_sms_mms_helper.cpp:1937-1956 | an rcs row is recognised exactly if the destination has one with its msg_id and an empty start time, unless the query failed |
| MergeCopy.Merger.InsertRcsInfoToE | sms_mms/src/rdb_sms_mms_helper.cpp:1958-1971 | a recognised rcs row is reused with its group, any other inserted with the next group; the call fails exactly if its insert did |
| MergeCopy.Merger.CopyOneRcs | sms_mms/src/rdb_sms_mms_helper.cpp:1973-2011 | an rcs row is deleted only when the destination has its msg_id and its messages were gone through: it stays exactly if the pass over them ended early or its delete failed in this call; the new messages belong to the row with its msg_id in the destination and to its group |
| MergeCopy.Merger.CopyRcs | sms_mms/src/rdb_sms_mms_helper.cpp:1973-2011 | one pass over the rcs rows of a conversation: it ends early exactly if its query or an insert of an rcs row failed in it, and otherwise rcs rows are left exactly if a pass over messages within it ended early or a delete of an rcs row failed in it, whatever failed before; the messages that left took the parts and records of the rcs row along, and new messages have the new rcs row and its group |
| MergeCopy.Merger.CopyOneRcsBlocked | sms_mms/src/rdb_sms_mms_helper.cpp:2029-2058 | the copies of a blocked rcs row and its messages belong to a conversation of its sender, or keep the session number of the source if there is none or the query failed; they are linked exactly if that number is one of the destination or nothing new was inserted; the row stays exactly as in CopyOneRcs |
| MergeCopy.Merger.CopyRcsBlocked | sms_mms/src/rdb_sms_mms_helper.cpp:2019-2062 | the pass over blocked rcs rows ends early, or leaves some, exactly if one of the statements for that failed in it; new messages have an rcs row in the destination and its group |
| MergeCopy.Merger.CopyOneBlocked | sms_mms/src/rdb_sms_mms_helper.cpp:1835-1866 | a blocked message, with its parts but not its records: which conversation its copy belongs to, and when it is linked, as for rcs rows; it stays exactly if a part statement or its delete failed in this call; the copy keeps its rcs id and gets a group nobody is in, or none |
| MergeCopy.Merger.CopySmsMmsInfoBlocked | sms_mms/src/rdb_sms_mms_helper.cpp:1825-1870 | the pass over blocked messages ends early, or leaves some, exactly if one of the statements for that failed in it |
| MergeCopy.Merger.SessionCheckE | sms_mms/src/rdb_sms_mms_helper.cpp:2109-2150 | a conversation is recognised by a number that ends alike and has the same normal form; none is found only if there is none or the query failed |
| MergeCopy.Merger.UpdateSessionE | sms_mms/src/rdb_sms_mms_helper.cpp:2152-2188 | the count is added and the time and preview of the newer conversation win, or nothing changes; no conversation drops below its unread rows by it |
| MergeCopy.Merger.FindOrInsertSession | sms_mms/src/rdb_sms_mms_helper.cpp:2204-2215 | the account of the source is credited to a conversation with the same number, exactly unless the insert or the update of the one found failed; the destination's unread counts stay at or above its unread rows exactly if they were and a new conversation's copied count covers the rows that name its id already |
| MergeSteps.InsertSessionNeverBelowIff | sms_mms/src/rdb_sms_mms_helper.cpp:2076-2102 | inserting a conversation with its copied unread count keeps the counts from being too low exactly if it covers the unread rows with that id, of which there are none while no row names an id not handed out yet |
| MergeCopy.Merger.CopyRows | sms_mms/src/rdb_sms_mms_helper.cpp:2217-2228 | the two passes of a conversation: rows of it are left exactly if the first left rcs rows or the second left messages by what failed in each; the messages of the first have an rcs row in the destination, those of the second keep the rcs id they had and get a group nobody is in |
| MergeCopy.Merger.CopyOneSession | sms_mms/src/rdb_sms_mms_helper.cpp:2190-2234 | one conversation: nothing lost, every message that left took its parts and records along, new rows linked; whatever failed before, its account is credited exactly unless the insert or update failed in its turn, messages or rcs rows of it are left exactly if a statement for that failed in one of the two passes of its turn, and its own row is left exactly if the turn ended the copy or that delete failed |
| MergeCopy.Merger.CopySession | sms_mms/src/rdb_sms_mms_helper.cpp:2190-2234 | with any statements failing nothing is lost, every message that left took its parts and records along, every new message, rcs row and part points at an existing session or message, every account credited is right, and the unread counts of the destination stay at or above its unread rows if they were, no row names an id not handed out yet and no source count is negative; the run ends early exactly if its query failed or a turn ended it; otherwise each conversation had one turn, what is missing, left or kept of it is exactly what failed in that turn, and the total lacks exactly the counts of those whose update failed; with nothing failing all is merged |
| MergeTurns.RanStep | sms_mms/src/rdb_sms_mms_helper.cpp:2190-2234 | one more turn keeps a run's outcome equal to what failed in its turns and to what the stores show |
| MergeTurns.SettledTotal | sms_mms/src/rdb_sms_mms_helper.cpp:2152-2188 | the destination total is the old one plus the source total minus the counts of the conversations whose update failed |
| MergeTurns.BooksStep | sms_mms/src/rdb_sms_mms_helper.cpp:2190-2234 | one more conversation keeps the outcome exact about counts, leftovers and session rows |
| MergeCopy.Merger.CopySqlFromCToE | sms_mms/src/rdb_sms_mms_helper.cpp:1425-1460 | the whole merge loses nothing but url records whose insert failed, whatever its passes return, every message that left took its parts along, and no unread count is left too low under the condition above; if nothing fails, no conversation, row of one or blocked row is left and the totals add up |
| ConversationAccounts.AccountedStep | sms_mms/src/rdb_sms_mms_helper.cpp:2152-2188 | crediting one more conversation keeps: each count is the old one plus those merged into it, each time is the latest of them with the preview that came with it, and the totals add up |
| ConversationAccounts.AccountedSame | sms_mms/src/rdb_sms_mms_helper.cpp:2152-2188 | a failed update and copied messages keep the same |
| ConversationAccounts.TimeStep | sms_mms/src/rdb_sms_mms_helper.cpp:2152-2188 | the time of a conversation stays the maximum over all merged into it |
| SchemaUpgrade.UpgradePathIndependence | sms_mms/src/rdb_sms_mms_callback.cpp:1041-1084 | for every a <= b <= c and any schema, upgrading in two goes equals upgrading in one, for the message chain and any chain without favourites |
| SchemaUpgrade.SimPathIndependence | sim/src/rdb_sim_callback.cpp:27-84 | the same for the SIM database |
| SchemaUpgrade.PdpPathIndependence | pdp_profile/src/rdb_pdp_profile_callback.cpp:28-58 | the same for the APN database |
| SchemaUpgrade.SimAndPdpOutcome | sim/src/rdb_sim_callback.cpp:27-66 | the SIM database reaches exactly the versions from 2 to 5 and the APN database those from 2 to 4, through as many steps as lie between |
| SchemaUpgrade.ForceCommutesWithSteps | sms_mms/src/rdb_sms_mms_callback.cpp:1278-1315 | creating rcs_info before the early steps commutes with all of them |
| SchemaUpgrade.RunStepsSplit | sms_mms/src/rdb_sms_mms_callback.cpp:1041-1084 | running steps up to a version and on from there is running them all |
| SchemaUpgrade.ChainOutcome | sms_mms/src/rdb_sms_mms_callback.cpp:29-77 | whatever fails, exactly the steps in (old, new] run, in order, and the version reached is new exactly if the chain has that step and it succeeded |
| SchemaUpgrade.ChainRunsSteps | sms_mms/src/rdb_sms_mms_callback.cpp:1041-1084 | when the favourites steps succeed the guarded chain is the plain sequence of steps |
| SchemaScripts.StepsAddFreshColumns | sms_mms/src/sms_mms_tables.cpp:106-291 | a step adds, creates and drops only what its version is to bring, no column that a fresh database lacks, and drops no column |
| SchemaVersions.LastIsFresh | sms_mms/src/sms_mms_tables.cpp:22-291 | the columns listed for the first version and those listed for the versions up to 35 are those with which a fresh install creates the tables |
| SchemaScripts.StepGains | sms_mms/src/rdb_sms_mms_callback.cpp:29-68 | each step of each of the three databases turns the columns of a table into those of its version, whether it is skipped or its favourites fail |
| SchemaScripts.StepTables | sms_mms/src/rdb_sms_mms_callback.cpp:950-998 | each step creates exactly the tables of its version, the favourites if that works |
| SchemaScripts.StepComponents | sms_mms/src/rdb_sms_mms_callback.cpp:862-948 | each step builds anew the view, triggers and indexes of its version where their tables and columns are there, drops the retired triggers, and leaves the others |
| SchemaUpgrade.UpgradeGains | sms_mms/src/rdb_sms_mms_callback.cpp:29-77 | an upgrade between any two versions, from any schema and with any favourites step failing, gives each altered table of the three databases exactly the columns listed for the versions in between |
| SchemaUpgrade.UpgradeReachesVersion | sms_mms/src/rdb_sms_mms_callback.cpp:29-77 | a table with the columns listed for the old version has those listed for the new one |
| SchemaUpgrade.UpgradeTables | sms_mms/src/rdb_sms_mms_callback.cpp:103-120 | the tables there afterwards are those there before and those listed for the versions in between, the favourites if creating them worked |
| SchemaUpgrade.UpgradeComponents | sms_mms/src/rdb_sms_mms_callback.cpp:862-948 | the same for the view, triggers and indexes |
| SchemaUpgrade.LastStepSucceedsIff | sms_mms/src/rdb_sms_mms_callback.cpp:950-982 | the step to the new version fails exactly if it is 23 or 34, the favourites table is not there before or since version 23, and creating or filling it fails |
| SchemaUpgrade.UpgradeReachesFreshColumns | sms_mms/src/sms_mms_tables.cpp:22-77 | a message, rcs, part or session table with at least the columns listed for the first version and no others than those of a fresh one, upgraded to version 35, has exactly those of a fresh one, even if rcs_info was missing |
| SchemaUpgrade.UpgradeCallback.VersionUpTo | sms_mms/src/rdb_sms_mms_callback.cpp:950-982 | one guarded step; a failing favourites step keeps the old version |
| SchemaUpgrade.UpgradeCallback.OnUpgrade | sms_mms/src/rdb_sms_mms_callback.cpp:29-77 | the steps executed and the schema reached: columns, tables, view, triggers and indexes are those listed for the versions in between, for the SIM database from 2 to 5 and the APN database from 2 to 4 as well; OK exactly if the new version is one of the chain and a favourites step to it worked |
| OpenRepair.OpenRepairsIff | sms_mms/src/rdb_sms_mms_callback.cpp:1188-1260 | from any schema, opening ends with all checked tables, repaired columns, triggers, view and indexes and without the retired triggers, exactly if every index fits its table or is there in a complete database |
| OpenRepair.OpenRestores | sms_mms/src/rdb_sms_mms_callback.cpp:1188-1260 | opening ends with the nine tables, the six late columns, the four triggers and the view, without the two retired triggers, with the whole script if a table was missing, and with each index exactly if its table had its columns or it was there in a complete database |
| OpenRepair.OpenIsIdempotent | sms_mms/src/rdb_sms_mms_callback.cpp:288-387 | a second opening changes no schema, repaired or not |
| OpenRepair.OpenedTable | sms_mms/src/rdb_sms_mms_callback.cpp:1211-1230 | every table keeps its columns and gains the repaired ones; a missing table appears with the columns of a fresh one |
| OpenRepair.OpenedComponent | sms_mms/src/rdb_sms_mms_callback.cpp:330-387 | which triggers, view and indexes are there afterwards |
| OpenRepair.RestoredIndex | sms_mms/src/sms_mms_tables.cpp:79-88 | after the script an index is there exactly if its table was missing or had its columns |
| OpenRepair.FailedOpensHeal | sms_mms/src/rdb_sms_mms_callback.cpp:1188-1209 | after openings that failed in any way, of a schema that one opening would have repaired, a clean opening repairs everything exactly if no index that cannot be built again was dropped; always if every index could be built |
| OpenRepair.RdbSmsMmsCallback.RestoreAllInfo | sms_mms/src/rdb_sms_mms_callback.cpp:1211-1230 | the whole script runs whatever fails, and no table or column is lost |
| OpenRepair.RdbSmsMmsCallback.CompleteField | sms_mms/src/rdb_sms_mms_callback.cpp:288-328 | a missing column is added, for messages with a new view, and a backup is asked for |
| OpenRepair.RdbSmsMmsCallback.CheckAndCompleteFields | sms_mms/src/rdb_sms_mms_callback.cpp:288-328 | the six columns in order |
| OpenRepair.RdbSmsMmsCallback.CheckAndCompleteTrigger | sms_mms/src/rdb_sms_mms_callback.cpp:330-364 | the four triggers created and the two retired ones dropped; in a repaired database nothing |
| OpenRepair.RdbSmsMmsCallback.CheckAndCompleteComponent | sms_mms/src/rdb_sms_mms_callback.cpp:366-387 | triggers, then the view and the indexes; in a repaired database nothing |
| OpenRepair.RdbSmsMmsCallback.OnOpen | sms_mms/src/rdb_sms_mms_callback.cpp:1188-1209 | with nothing failing the opened schema, with everything that opening restores; a repaired database is left alone and asks for no backup; no table or column is ever lost |
| UpgradeThenOpen.UpgradedOpensRepaired | sms_mms/src/rdb_sms_mms_callback.cpp:29-77 | a database of the first version, with the columns listed for it, upgraded in one go and then opened, has the altered tables with exactly the columns of a fresh install, and all checked tables, repaired columns, triggers, view and indexes, whatever triggers, views and indexes it had before |
| Dedup.LastWinsMeaning | pdp_profile/src/rdb_pdp_profile_helper.cpp:218-225 | replacing inserts keep the last entry of each key |
| Dedup.FirstWinsMeaning | pdp_profile/src/rdb_pdp_profile_helper.cpp:148-153 | plain inserts under a unique key keep the first entry of each key |
| Dedup.SurvivorsMeaning | global_params/src/rdb_global_params_callback.cpp:88-93 | if some inserts fail, each key keeps the first entry whose insert worked |
| Dedup.MakeUpDecided | global_params/src/rdb_global_params_callback.cpp:88-93 | rows left from before and the inserts that worked give the rows of all entries exactly if the former are among those and each other key is decided as by all entries |
| ApnLoad.LoadTouchesOnlyItsOwn | pdp_profile/src/rdb_pdp_profile_helper.cpp:183-232 | a load changes no row of another operator, and an edited row exactly if the last profile with its key that got in differs from it |
| ApnLoad.LoadBringsRows | pdp_profile/src/rdb_pdp_profile_helper.cpp:183-232 | row by row: for the operator the last profile with the same columns that got in; without one an unedited row is gone if the delete worked and any other row is as before; rows of other operators are as before |
| ApnLoad.LoadIsSoundIff | pdp_profile/src/rdb_pdp_profile_helper.cpp:183-232 | after a load whose delete, inserts and save each work or fail, the recorded checksums are truthful exactly if the rows that stayed and got in are those of the file recorded |
| ApnLoad.LoadKeepsSoundIff | pdp_profile/src/rdb_pdp_profile_helper.cpp:183-232 | a call keeps recorded checksums truthful exactly if it did not load or that holds; with the inserts working it comes to: no row stayed that the file lacks, or the recorded file has the same rows |
| ApnLoad.SkipEqualsReload | pdp_profile/src/rdb_pdp_profile_helper.cpp:246-256 | with a truthful checksum, skipping a load and doing it leave the same unedited rows, and the same table if the file has no edited profiles |
| ApnLoad.ResetKeepsSoundIff | pdp_profile/src/rdb_pdp_profile_helper.cpp:122-172 | a reset keeps checksums truthful exactly if it deleted them, did not replace the table, or the recorded files have no rows |
| ApnLoad.ResetBringsRows | pdp_profile/src/rdb_pdp_profile_helper.cpp:122-172 | row by row: after a reset the table holds, without operator, the first default profile with the same columns that got in, and nothing else |
| ApnLoad.OperatorResetBringsRows | pdp_profile/src/pdp_profile_ability.cpp:663-690 | row by row: after a reset of one operator that gets to load, the operator has only what the file brings, edited rows included, and the others are as before |
| ApnLoad.OperatorResetKeepsSoundIff | pdp_profile/src/pdp_profile_ability.cpp:663-690 | a reset of one operator keeps checksums truthful exactly if a load that it reached describes the rows, or it ended earlier without having deleted rows that a checksum vouches for |
| ApnLoad.StepKeepsSoundIff | pdp_profile/src/rdb_pdp_profile_helper.cpp:183-266 | one load, reset or edit, with anything failing, keeps checksums truthful exactly if it is harmless |
| ApnLoad.GuardStaysSound | pdp_profile/src/rdb_pdp_profile_helper.cpp:183-266 | over every run of harmless steps a checksum match means that the unedited rows are those of a fresh load |
| ApnLoad.RegularStepsAreHarmless | pdp_profile/src/rdb_pdp_profile_helper.cpp:183-266 | steps in which parsing, beginning and committing fail at will but deletes, inserts and saves work are harmless, and so are edits of edited rows |
| ApnLoad.RdbPdpProfileHelper.InitAPNDatabase | pdp_profile/src/rdb_pdp_profile_helper.cpp:183-232 | when a call is refused or skipped, each row and checksum after each outcome, and that a skipped call or a load in which nothing failed leaves the rows of the file |
| ApnLoad.RdbPdpProfileHelper.InsertProfiles | pdp_profile/src/rdb_pdp_profile_helper.cpp:218-225 | the last profile of each key wins among those whose insert did not fail |
| ApnLoad.RdbPdpProfileHelper.ResetApn | pdp_profile/src/rdb_pdp_profile_helper.cpp:122-172 | the whole table is replaced by the default profiles, the first of each key, or not at all, and the checksums are gone if their delete worked |
| DigestReload.ReloadKeepsTrustIff | global_params/src/rdb_global_params_callback.cpp:66-136 | wherever an opening fails or crashes, what is recorded can be trusted exactly if it ended before the digest is promoted, or every row that a failed delete left is the file's and of each other key the first entry whose insert worked says what the first entry says; with all inserts working only the rows left count, with the delete working only the inserts |
| DigestReload.WorkingReloadIsHarmless | global_params/src/rdb_global_params_callback.cpp:66-136 | a reload whose delete and inserts work is harmless wherever it stops |
| DigestReload.FailedDeleteBreaksTrust | global_params/src/rdb_global_params_callback.cpp:80-98 | a failed delete that leaves a row the file does not have ends with a digest that vouches for it |
| DigestReload.OpenLeavesCurrentRowsIff | global_params/src/rdb_global_params_callback.cpp:66-100 | an opening that reports no error leaves the rows of the current file exactly if it found them loaded already or meets that condition |
| DigestReload.LifetimeKeepsTrust | common/src/parser_util.cpp:622-666 | the same over any run of harmless openings, failing or crashing anywhere, with versions that never repeat |
| DigestReload.EveryFinishedOpenIsCurrent | global_params/src/rdb_global_params_callback.cpp:66-136 | the same after any run of harmless openings, for versions that do not come back |
| DigestReload.ReturningVersionIff | global_params/src/rdb_global_params_callback.cpp:80-86 | after a failed load of another version, a finished opening has the rows of its file exactly if it is not the version recorded and its working inserts decide every key, or it is and has no rows |
| DigestReload.CreateIsTrustedIff | global_params/src/rdb_global_params_callback.cpp:49-56 | what creating a database leaves can be trusted exactly if the digest it ends with is not the file's, or of each key the first entry whose insert worked says what the first entry says, or nothing was committed and the file has no rows |
| DigestReload.GuardedTable.InitData | global_params/src/rdb_global_params_callback.cpp:66-100 | the reload passes through the durable states that the crash theorems range over |
| DigestReload.GuardedTable.Replace | global_params/src/rdb_global_params_callback.cpp:80-98 | delete, transaction, inserts, commit and promotion, with the digest untouched when the commit fails |
| DigestReload.GuardedTable.InsertAll | global_params/src/rdb_global_params_callback.cpp:88-93 | rows in conflict with earlier ones or with rows that stayed are dropped, and so are those whose insert failed otherwise |
| DigestReload.GuardedTable.RefreshDigest | common/src/parser_util.cpp:642-655 | the temporary digest is promoted if there is one, then removed |
| DigestReload.RdbGlobalParamsCallback.InitAll | global_params/src/rdb_global_params_callback.cpp:49-64 | both tables are reloaded and failures are not reported: a reload that commits leaves, for each code and name or each number, the row that a failed delete left or the first entry whose insert worked, and records the digest; one that does not keeps the digest |
| Recipients.QuotingsAgreeIff | sms_mms/src/rdb_sms_mms_helper.cpp:362-382 | the loop and the query quote alike exactly on strings with no empty number |
| Recipients.AddQuotes | sms_mms/src/rdb_sms_mms_helper.cpp:362-382 | the loop computes its quoting, which is that of the query exactly if no number is empty |
| Recipients.CountIsSplitLength | sms_mms/src/rdb_sms_mms_helper.cpp:348-353 | the difference of the two lengths plus one is the number of values |
| Recipients.QuotedText | sms_mms/src/rdb_sms_mms_helper.cpp:354-358 | the text read as an array is the numbers, each in quotes, with commas between them |
| Recipients.SplitJoin | sms_mms/src/rdb_sms_mms_helper.cpp:354-358 | joining numbers without commas and splitting gives them back |
| Recipients.JoinSplit | sms_mms/src/rdb_sms_mms_helper.cpp:354-358 | splitting any string and joining gives it back |
| Recipients.SortSorts | sms_mms/src/rdb_sms_mms_helper.cpp:354-358 | ordering gives a sorted permutation |
| Recipients.SortedIsUnique | sms_mms/src/rdb_sms_mms_helper.cpp:354-358 | there is one sorted order of a multiset of values |
| Recipients.MatchIsPermutation | sms_mms/src/rdb_sms_mms_helper.cpp:341-360 | for non-empty numbers without commas the query matches exactly if stored and given ones are equal as multisets |
| ApnPassword.UnpadPad | pdp_profile/src/apn_encryption_util.cpp:65-113 | removing the padding of section 6.3 of RFC 5652 undoes adding it |
| ApnPassword.EncryptedIsEmptyIff | pdp_profile/src/apn_encryption_util.cpp:103-113 | the result is empty exactly for an empty password or one of more than 1007 bytes |
| ApnPassword.DecryptEncrypt | pdp_profile/src/apn_encryption_util.cpp:141-232 | up to 1007 bytes decryption undoes encryption |
| ApnPassword.DecryptsUpToVector | pdp_profile/src/apn_encryption_util.cpp:215-232 | all but the last sixteen bytes are decrypted, with those as initialisation vector, and unpadded |
| ApnPassword.AesCbcPkcs7Encrypt | pdp_profile/src/apn_encryption_util.cpp:65-113 | the buffer holds the ciphertext and then the initialisation vector, or the call fails for lack of space |
| ApnPassword.EncryptData | pdp_profile/src/apn_encryption_util.cpp:193-213 | what is stored decrypts to the password, or is empty; with a working key store empty exactly at the bound |
| ApnPassword.DecryptData | pdp_profile/src/apn_encryption_util.cpp:215-232 | the initialisation vector is taken from the end; failures give the empty string |
| ApnPassword.NeedUpdateValuesBucket | pdp_profile/src/pdp_profile_ability.cpp:301-329 | only a password that is not empty is replaced, by its ciphertext, and no other value changes |
| ApnPassword.ToNativeRecord | pdp_profile/src/pdp_profile_ability.cpp:198-246 | a row is copied cell by cell by column name, faithfully if the names are distinct |
| ApnPassword.NeedUpdatePdpSharedPtrResult | pdp_profile/src/pdp_profile_ability.cpp:248-299 | rows are changed only if both columns are selected, and then only the passwords of edited rows |
| ApnPassword.PasswordComesBackIff | pdp_profile/src/pdp_profile_ability.cpp:248-329 | a written row read back shows every other cell as written, and the password exactly if the row is edited and it has at most 1007 bytes |

## Left out

- MergeCopy.Merger.CalcGroupId: with both message tables empty the source's query has no value to read, and the group number stays what it was.
- SchemaUpgrade.UpgradeCallback.OnUpgrade: models the thirty-four guarded calls of the message chain as one loop over the step number; what steps 12, 13, 23, 26 and 34 and step 4 of the APN chain do to rows is not modelled, only their effect on the schema and whether the favourites are filled; `needBackup` belongs to the message database alone.
- No crash or second writer during the merge; result sets are snapshots and the two stores are different databases.
- The copies of `sms_subsection` and `mms_pdu`, which are flat loops, and the columns that a copy only passes on.
- Columns of tables that no upgrade alters; a table dropped or renamed by hand.
- SQL text, NULL comparison, enforced foreign keys, nested transactions (a reset or reload that leaves its transaction open is taken to have ended it), corruption, rebuilding and restoring a backup, `DoBackUpDB`.
- The phone number library: the normal form of a number is an arbitrary function, and LIKE is a plain suffix comparison.
- json_each is an arbitrary function that reads the quoted form of a list as its values.
- The block cipher, the key store, checksums and hashes: a cipher with an inverse, calls that may fail, and a hash that identifies the contents of a file. Preferences are persistent and their writes are atomic.
- Profile ids, which change when profiles are loaded again, and the preferred profile; the table of pseudo base stations and its trigger that keeps ninety rows.
- Threads, locks, sleeps and retries; the database handles are changed by one caller at a time.
- Permissions, URIs, inter-process calls, logging, audit, notification, file zipping, operator-key rules, simple statistics and conversation-list queries.
