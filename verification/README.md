# Verification of the MQTT-to-SQLite ingest service

The service takes JSON messages from MQTT, validates them, keeps them in a ring that overwrites its
oldest entry when full, and has a reader thread drain the ring into one SQLite database per channel with
one table per day. A reboot request makes the callback wait until the reader has flushed. This project
models that pipeline in Dafny and proves what it guarantees over whole runs. Check it with
`dafny verify dfyconfig.toml`.

## How it is organised

| file | what it models |
|---|---|
| Order, Sequences, Messages, Numerals | byte order of strings and sorted listings; facts about sequences; the message; `std::stoi` and decimal printing |
| Tables | one database as a value, the effect of one write on it, and which SQLite calls fail (`Faults`) |
| Retention, Interleaving, Lookup | one channel: whole histories of writes, a writer's statements mixed with drops, lookup after write |
| Paths, Database, Channels | database file names, the class `DataBaseManager`, the channels side by side |
| Safety, RoundTrip | what any calls keep, and lookup after a successful write, whatever fails |
| Calendar | day names as dates and numbers, and what retention and lookup mean by date |
| MessageQueue | the ring, as a class over an array |
| Parser | `parseModbusMsg` as loops over a JSON tree, its declarative meaning, and the sender's encoding |
| Pipeline, Conservation, Handshake, EndToEnd | the two threads as an interleaved step relation, and what every run guarantees |
| Sending | from the messages that were sent, through their encodings, to tables and lookups |
| Threads | the two threads' own code, each run alone, over the classes |
| LogManager | log rotation, as a class over an abstract directory, and runs of it |

## Main results

- **Retention.** Creating a day table and dropping the smallest names as messages arrive leaves, from any
  start and after any history with a new day, exactly the newest days ever seen, each with all rows ever
  written for it, in order (`Retention.RetentionIsTopOfHistory`). No evicted day is later, as a date, than a
  kept one (`Calendar.EvictedDaysAreEarlier`), and none comes back with part of its rows.
- **Any interleaving.** With drops between the single statements of a write, there is never more than one
  table too many (`Interleaving.NeverOverLimit`). Each table's rows, with those the write under way has yet
  to insert into it, are exactly the flattened messages of its day from the one whose write last created it
  on, or since the start (`Interleaving.RowsAreThoseSinceCreation`).
- **End to end.** After any interleaving of the threads without database failures, each channel's tables are
  that retention applied to the accepted messages that were neither overwritten nor still queued
  (`EndToEnd.PayloadsToTables`), and such a message can be looked up again (`EndToEnd.PayloadToLookup`). Of
  the messages sent, exactly those that the encoding can carry take that way (`Sending.SentToTables`,
  `Sending.SentToLookup`).
  Whatever fails, no table holds a row too many, twice or out of order (`EndToEnd.AnyRunIsSafe`), and a
  message whose write reported success can be looked up while its day stays (`EndToEnd.SuccessToLookup`).
- **Reboot reply.** README.md:110-111 of the repository asks that all queued messages are stored before
  the reply. The code does not guarantee this. A drain started by the 60-second timeout can have made its
  last, failing read when a message arrives and then a request; its reset of the flags is taken for the
  answer (`Handshake.ReplyCanComeTooEarly`, with an input in `Handshake.EarlyReplyExample`). `Handshake.ReplyExactly` says what may remain,
  `Handshake.ReplyKeepsPromiseIff` exactly when nothing does, and `Handshake.ServingOnlyKeepsPromise` that
  the promise holds if only a drain that saw the request at its start resets the flags.
  `EndToEnd.ReplyMeansStored` says what such a reply means for the databases.
- **Path buffer.** Channels have files of their own exactly when the 256-byte buffer holds the longest
  channel number (`Paths.PathsDistinctIff`, `Channels.IsolationIff`).
- **Parser.** `Parser.ParseModbusMsg` accepts exactly the well-formed trees, and parsing undoes the
  sender's encoding exactly when no part of a register looks like an absent one
  (`Parser.EncodeThenParse`): -1 for the address, the mapped address or the value, and an empty
  description, are refused.
- **Log rotation.** A file is rotated before a line exactly when it has reached its size or an interval has
  passed since it was opened (`Logging.RotatedIff`), so while rotating works no line lands in an older file
  (`Logging.LinesLandInFreshFiles`). Whatever fails and however the clock jumps, rotated segments and live file are together
  everything logged while the file was open, in order (`Logging.NothingLostOverRuns`), and a cleanup never
  prefers an older archive to a newer one (`Logging.RotationsRemoveOlder`). Archives stay within the limit
  from any start (`Logging.ArchivesOverRuns`), and while the clock goes forward they are the newest ever
  made (`Logging.NewestOverRuns`). A live file that cannot be reopened ends logging for good
  (`Logging.ClosedStaysClosed`).

## Model

| member | source | states |
|---|---|---|
| Retention.RetentionIsTopOfHistory | src/dbManager.cpp:86-234 | from any database, also one above its limit: a history of writes without a new day leaves the days it found, any other the greatest `limit` days of start and history; each holds its initial rows and then all rows of its day in order |
| Retention.RetentionWithinLimit | src/dbManager.cpp:86-175 | from a database within its limit, the days are always the greatest `limit` among those of the start and the history |
| Calendar.EvictedDaysAreEarlier | src/dbManager.cpp:86-125 | after a history with a new day, every evicted day is, as a number YYYYMMDD, less than every kept one |
| Calendar.DroppedDaysAreEarlier | src/dbManager.cpp:107-125 | so is every day a cleanup without failures drops |
| Calendar.EarlierIffLess | src/dbManager.cpp:90-91 | of two day names the smaller in byte order is the smaller number |
| Calendar.IsDayNameIff | src/dbManager.cpp:90 | a day name is eight digits whose number starts with 20, with a tens digit of the month up to 1 and of the day up to 3 |
| Calendar.DatesAreDayNames | src/dbManager.cpp:90 | every date from 2000 to 2099 is a day name |
| Order.LessIff | src/dbManager.cpp:90-91 | byte order: a proper prefix comes first, otherwise the first difference decides |
| Retention.KeysAfterOneMore | src/dbManager.cpp:107-173 | one more day changes the names as the create-then-drop policy does, and a day that joins was never seen before |
| Retention.RetainedCount | src/dbManager.cpp:109-114 | the policy keeps min(limit, n) of n day names |
| Retention.EvictedAreOlder | src/dbManager.cpp:112-114 | every evicted day is smaller than every kept one |
| Retention.RetainedAllIffWithin | src/dbManager.cpp:110 | the policy changes nothing exactly when the day tables are within the limit |
| Retention.RetainedAbsorbs | src/dbManager.cpp:169-173 | evicting after each creation gives the same names as evicting once at the end |
| Retention.CleanupIsSafe | src/dbManager.cpp:107-125 | however listing and drops fail, a cleanup never removes one of the newest `limit` days and alters no surviving row |
| Retention.CleanupHeals | src/dbManager.cpp:107-125 | one cleanup with a complete listing and successful drops leaves exactly the newest `limit` days, whatever the excess |
| Retention.EnsuredKeys | src/dbManager.cpp:150-175 | ensuring a missing day leaves exactly the days the policy retains, and no row is lost from them |
| Retention.CreatedAndEvictedAtOnce | src/dbManager.cpp:169-174 | a day older than all of a full set is created and evicted by one call, which still succeeds and changes nothing |
| Retention.TooOldIffEvicted | src/dbManager.cpp:107-125 | within the limit, a new day is evicted on the spot exactly when the set is full and all its days are newer |
| Retention.WriteFailsIffEvicted | src/dbManager.cpp:208-234 | whatever the database holds, a write for a day fails exactly when it has a row and its day is new with `limit` or more newer ones |
| Retention.WriteFailsIff | src/dbManager.cpp:208-234 | within the limit, a write for a day fails exactly when it has a row and its day is new and too old; it then changes nothing |
| Retention.WrittenRows | src/dbManager.cpp:224-231 | each table after a write is the table before it, plus the message's rows if it is the message's day |
| Retention.JoinsOnlyIfNew | src/dbManager.cpp:169-173 | a day that joins the tables was in neither the initial tables nor the history |
| Interleaving.NeverOverLimit | src/dbManager.cpp:107-251 | wherever drops come between the statements of writes: at most one table too many, and only between a writer's create and its last drop |
| Interleaving.AloneIsWritten | src/dbManager.cpp:107-234 | the statements of a write that nobody interrupts amount to `Written` |
| Interleaving.RowsAreThoseSinceCreation | src/dbManager.cpp:127-251 | wherever drops come between the statements of writes: a table's rows and those pending for it are exactly the flattened messages of its day begun since its latest creation, or its initial rows and all of them since the start |
| Interleaving.StepRows | src/dbManager.cpp:150-251 | no statement of a write and no drop changes, for a table that stays, its rows together with those pending for it; a new message adds its own |
| Interleaving.StepCreates | src/dbManager.cpp:169-173 | a table appears only by the create of the write under way, all of whose rows are then still pending |
| Interleaving.NothingIsRefused | src/dbManager.cpp:150-251 | an idle writer takes any message, one at work its next statement, and a drop happens at any time |
| Lookup.WriteThenSelect | src/dbManager.cpp:177-312 | from any database, without failures: a written message is what a lookup reports, through later writes, until its day is evicted or a retained day holds a later message of its id; exactly equal if and only if no string holds a NUL |
| RoundTrip.SuccessIsWhole | src/dbManager.cpp:222-233 | whatever failed in it, a write that reports success has put all its rows at the end of the table named by the first eight characters of its timestamp |
| RoundTrip.RowsStay | src/dbManager.cpp:107-251 | whatever fails in later calls, a table that stays keeps its rows in front of what they add |
| RoundTrip.SuccessThenSelect | src/dbManager.cpp:177-312 | whatever fails in the write and in later writes and drops: after a reported success, while the day stays and nothing else in the retained days has the id, a lookup that reads the table reports the message, cut at NULs |
| RoundTrip.PutThenSelect | src/dbManager.cpp:177-312 | the same for any call inside a run of calls on a channel |
| Calendar.DateIsFound | src/dbManager.cpp:208-312 | with room for one more day, a message sent on any date is written and found |
| Calendar.DateIsFoundAgain | src/dbManager.cpp:208-312 | whatever fails, after a reported success a message sent on any date is found while its day stays |
| Tables.WritesToItsDay | src/dbManager.cpp:78-84 | a write adds or changes no table but the one named by the first eight characters of the timestamp |
| Tables.ShortTimestampFails | src/dbManager.cpp:216-220 | a timestamp of fewer than eight characters makes a write fail and change nothing |
| Calendar.LongTimestampIsWritten | src/dbManager.cpp:78-84 | any longer timestamp names a table by its first eight characters, and the message's rows end up there, if no limit keeps them out |
| Lookup.SelectsDetermines | src/dbManager.cpp:264-311 | tables and failures determine the outcome of a lookup |
| Lookup.NotFoundIsBlank | src/dbManager.cpp:264-266 | a lookup in vain clears the caller's message, unless there is no day table |
| Lookup.OnlyHoldsSelects | src/dbManager.cpp:268-309 | a lookup of an id that only one message's rows have reports that message, whatever else fails, if it reads the table of its day |
| Lookup.StoredIsSameIff | src/dbManager.cpp:194-199 | a message survives binding as C strings exactly when it is free of NULs |
| Tables.CleanedIsDropEach | src/dbManager.cpp:112-124 | dropping the head of the sorted listing removes exactly the day tables with too few older ones to be kept |
| Tables.DroppedIffListedEarly | src/dbManager.cpp:90-114 | a table is among those dropped exactly when fewer than length less limit listed day names precede it |
| Tables.RowsWithIdConcat | src/dbManager.cpp:285-306 | selecting by id distributes over appended rows |
| Database.DataBaseManager.constructor | src/dbManager.cpp:24-34 | no connection is open |
| Database.DataBaseManager.GetDbHandle | src/dbManager.cpp:44-76 | a connection for every channel in range that is open or opens, to that channel's file; no file's tables change |
| Database.DataBaseManager.OpenFile | src/dbManager.cpp:55-63 | a missing file comes into being without tables; the others stay |
| Database.DataBaseManager.GetAllTableNames | src/dbManager.cpp:86-105 | taking name after name from the query gives the ascending listing of the day tables, as far as the query got |
| Database.DataBaseManager.CleanOldTables | src/dbManager.cpp:107-125 | the loop of drops removes exactly the day tables that at least `limit` listed ones follow, except where the drop fails |
| Database.DataBaseManager.CreateTable | src/dbManager.cpp:127-148 | an existing table keeps its rows, a missing one appears empty |
| Database.DataBaseManager.EnsureTableExists | src/dbManager.cpp:150-175 | create and clean up only when the day is found missing |
| Database.DataBaseManager.InsertRow | src/dbManager.cpp:177-206 | one row at the end of the table, or failure and no change |
| Database.DataBaseManager.InsertRows | src/dbManager.cpp:224-233 | every register's row is tried, in order; success exactly when all succeed |
| Database.DataBaseManager.WriteToTables | src/dbManager.cpp:216-233 | the tables and the result of one write are those of `Written` and `WriteOk`; no table is added or changed but the one named by the first eight characters of the timestamp; a shorter one fails without a trace |
| Database.DataBaseManager.WriteMessage | src/dbManager.cpp:208-234 | one channel's file changes as by one write, all others stay; success exactly as stated for tables |
| Database.DataBaseManager.DropTable | src/dbManager.cpp:236-251 | that table goes from that channel, everything else stays; true even if there was none |
| Database.DataBaseManager.CollectRows | src/dbManager.cpp:285-306 | the cursor loop aggregates exactly the rows with the id: header of the first, items of all in order |
| Database.DataBaseManager.SelectThrough | src/dbManager.cpp:258-311 | found exactly when a listed, readable day table has the id; the result comes from the earliest such table only |
| Database.DataBaseManager.SelectByIdAndChannel | src/dbManager.cpp:253-312 | the same for the channel's file; no tables change; without a connection the caller's message is untouched |
| Database.FirstHitIsEarliest | src/dbManager.cpp:268-309 | stopping at the first listed table with the id finds the earliest one |
| Paths.PathsDistinctIff | src/dbManager.cpp:314-319 | all channels have different file names exactly when the buffer has room for the longest channel number |
| Paths.ShortPath | src/dbManager.cpp:314-319 | where the buffer has room, the name is directory, /CHANNEL, the number and .db |
| Paths.Pad2Value | src/dbManager.cpp:317 | the number has at least two digits and its value |
| Paths.TailsCollide | src/dbManager.cpp:316-317 | without that room, two concrete channels share a file name |
| Paths.TailsDiffer | src/dbManager.cpp:316-317 | with room for both numbers, two channels' names differ |
| Channels.IsolationIff | src/dbManager.cpp:44-76 | writes never touch another channel's tables exactly under the same condition |
| Channels.MainChannelsAreIsolated | src/main.cpp:137 | the configuration of `main` meets it |
| Channels.ConfiguredPath | src/dbManager.cpp:314-319 | where the files of a configuration are |
| Channels.EachChannelOnItsOwn | src/dbManager.cpp:208-251 | over any run of writes and drops on all channels, whatever fails, each database evolves as if the calls on its own channel were the only ones |
| Channels.CleanCallsAreWrites | src/dbManager.cpp:208-234 | without failures, calls of `writeMessage` are a plain history of writes |
| Channels.MessagesOfChannel | src/dbManager.cpp:208-216 | the messages written on a channel are those of the calls on it |
| Safety.TablesAreSafe | src/dbManager.cpp:107-251 | whatever fails and is dropped, a table holds its initial rows, unless dropped since, and then rows of the messages for its day, in order, each at most once |
| Safety.WrittenRowsUnderFaults | src/dbManager.cpp:208-234 | whatever fails in a write, a table it leaves has its old rows and then some of the message's, in order |
| Channels.WriteMessageFailsIff | src/dbManager.cpp:44-49 | a write for a day fails exactly when the channel is out of range, or the day is too old and there is a row to insert; no channel's tables change then |
| Queue.MessageQueue.constructor | src/ modbus_message_queue.cpp:4-7 | empty, with max(capacity, 1) slots |
| Queue.MessageQueue.Write | src/ modbus_message_queue.cpp:9-23 | the bounded sequence with the message appended, its oldest element forgotten if it was full |
| Queue.MessageQueue.Read | src/ modbus_message_queue.cpp:25-33 | the oldest element leaves; false exactly on an empty queue |
| Queue.MessageQueue.FreeSize | src/ modbus_message_queue.cpp:35-39 | slots less elements |
| Queue.MessageQueue.Size | src/ modbus_message_queue.cpp:41-45 | the number of elements |
| Queue.MessageQueue.Clear | src/ modbus_message_queue.cpp:47-54 | empty, with every slot a default message |
| Queue.TailIsHeadPlusCount | src/ modbus_message_queue.cpp:15-19 | tail is (head + count) modulo the size in every valid state |
| Numerals.StoiOfNumeral | src/main.cpp:98 | white space, a sign, digits and anything after them read as the signed value of the digits, or fail outside the 32-bit range |
| Numerals.StoiOnlyOfNumerals | src/main.cpp:98 | nothing else is accepted |
| Numerals.StoiOfDecimal | src/main.cpp:98 | every int survives printing and reading |
| Parser.ReadKeys | src/main.cpp:74-101 | after the loop over an object's keys, address and mapped address come from its last address key; it gives up only on ill-formed objects |
| Parser.LastAddressIsGreatest | src/main.cpp:78-99 | the last address key visited is the greatest |
| Parser.ParseItem | src/main.cpp:67-116 | a register exactly for well-formed objects |
| Parser.ParseItems | src/main.cpp:67-117 | one register per element, in order, if all are well-formed |
| Parser.ParseModbusMsg | src/main.cpp:21-126 | accepts exactly the well-formed trees, and yields their meaning |
| Parser.WellFormedIff | src/main.cpp:24-64 | the well-formed trees and their message fields, by the tree alone, for integers of any width |
| Parser.ItemWellFormedIff | src/main.cpp:67-105 | the well-formed elements, by the tree alone: present value and description, all other keys numerals with integers, the greatest of them not -1 |
| Parser.EncodedItem | data/modbusMasterMsg.json:9-13 | an encoded register is well-formed exactly when none of its parts looks absent, and then means itself |
| Parser.EncodeThenParse | data/modbusMasterMsg.json:1-40 | parsing an encoded message returns it exactly when all its registers can be carried, and refuses it otherwise |
| Conservation.RunConserves | src/main.cpp:235-279 | in every run the queue is the tail of the accepted stream; each earlier index was handed out or overwritten, never both; overwriting hits the index one capacity back; handed indices increase |
| Conservation.EnqueuedConserves | src/ modbus_message_queue.cpp:9-23 | an accepted message keeps that accounting |
| Conservation.TakenConserves | src/ modbus_message_queue.cpp:25-33 | so does a read |
| Handshake.FlagsDuringRequest | src/main.cpp:193-306 | from post to reply the flags are opposites; a notified reader does not sleep; the callback sleeps after a reset only while the reader is about to wake it; a reply follows a later reset |
| Handshake.ReplyExactly | src/main.cpp:193-306 | at a reply, what is queued is what was accepted between the completing drain's failing read and the request, as far as it fits, less later reads; everything before was handed to `writeMessage` or overwritten |
| Handshake.ReplyKeepsPromiseIff | src/main.cpp:200-213 | at a reply the queue is empty exactly when as many reads followed the reset as messages slipped in and fit; everything is settled exactly when, besides, the reader has none in hand |
| Handshake.WindowSettledIff | src/main.cpp:277-305 | when the reader, past its failing read, is about to reset the flags for a request, everything accepted is settled exactly if nothing was accepted between that read and the request |
| Handshake.ServingDrainSettlesAll | src/main.cpp:263-305 | a drain that began with the request posted leaves nothing behind |
| Handshake.ServingOnlyKeepsPromise | src/main.cpp:300-305 | if only such drains reset the flags, every reply means that everything accepted was handed to `writeMessage` or overwritten |
| Handshake.ReplyCanComeTooEarly | src/main.cpp:277-305 | a run of the code as it is that replies with an accepted message still queued |
| Handshake.EarlyReplyExample | src/main.cpp:277-305 | such a run for a payload written out: the encoding of an empty message |
| Handshake.PendingStep | src/main.cpp:263-306 | while a request is pending each reader step decreases the measure or is the reset, and the callback changes nothing |
| Handshake.PendingReaderCanStep | src/main.cpp:263-306 | the reader always has a step to take |
| Handshake.DrainsHaveCause | src/main.cpp:263-270 | without a request, only the timeout starts a drain, and each timeout at most one |
| Handshake.CallbackIsNotRefused | src/main.cpp:187-240 | the callback can always take its next step, idle with any payload or request |
| Handshake.ReaderIsNotRefused | src/main.cpp:263-306 | so can the reader, with any outcome of a wait or a write |
| Handshake.BoundedProgress | src/main.cpp:201-306 | at most 2 * capacity + 6 reader steps and `capacity` reads before the reset |
| Handshake.BoundedReply | src/main.cpp:201-306 | until the callback is awake and about to reply, at most 2 * capacity + 8 reader steps happen, and then it stays awake |
| Handshake.AnsweringReaderCanStep | src/main.cpp:263-306 | until then the reader always has a step to take |
| Handshake.NextTestReplies | src/main.cpp:201-204 | from then on the callback's next step is to find the flags reset |
| EndToEnd.PayloadsToTables | src/main.cpp:230-307 | over all runs without database failures and from any databases: each channel's tables are the retention of the accepted messages neither overwritten nor queued |
| EndToEnd.HandedAreKept | src/main.cpp:235-279 | the messages handed to the reader are those neither overwritten nor queued, in acceptance order |
| EndToEnd.HandedIndexes | src/main.cpp:235-279 | the indices handed to the reader are those not overwritten, in increasing order |
| EndToEnd.AnyRunIsSafe | src/main.cpp:230-307 | over all runs, whatever fails: every table's rows are initial ones and then rows of messages that left the queue for its channel and day, in order, each at most once |
| EndToEnd.ReplyMeansStored | src/main.cpp:193-213 | when a reply keeps its promise, without database failures each channel's tables are the retention of everything accepted for it and not overwritten |
| EndToEnd.PromptReplyMeansStored | src/main.cpp:193-306 | so it is if no message slipped in before the request, and always if only a drain that saw the request completes it |
| EndToEnd.OnlyOneIsHeld | src/dbManager.cpp:208-306 | for an id of one message only in the retained days, tables that retain a history hold that message's rows and no others |
| EndToEnd.PayloadToLookup | src/dbManager.cpp:253-312 | after a run without database failures: a message with registers that left the queue, whose day is retained and whose id no other message and no initial row of the retained days has, is what a lookup reports, cut at NULs |
| EndToEnd.SuccessToLookup | src/dbManager.cpp:208-312 | after any run, whatever failed: so is a message whose write reported success, whose day has been there since, and whose id nothing else in the retained days has |
| Sending.CarriedAreAccepted | src/main.cpp:230-240 | of the messages sent, exactly those that the encoding can carry are accepted, in order; text that does not parse and ill-formed trees add nothing |
| Sending.SentToTables | src/main.cpp:230-307 | over all runs without database failures: each channel's tables are the retention of the messages sent for it that can be carried and were neither overwritten nor are queued |
| Sending.SentToLookup | src/main.cpp:230-307 | a message sent that can be carried, has registers, was neither overwritten nor is queued, whose day is retained and whose id nothing else in the retained days has, is what a lookup reports, cut at NULs |
| Threads.OnData | src/main.cpp:230-248 | a payload that parses and is well-formed is enqueued as its message, any other discarded |
| Threads.Flags.PostRequest | src/main.cpp:193-197 | the flags of a posted request |
| Threads.Flags.TestCompleted | src/main.cpp:201-204 | the callback's wait ends exactly when the step relation says so |
| Threads.Flags.TestNeed | src/main.cpp:265-267 | the reader drains at once exactly when the step relation says so |
| Threads.Flags.TestNeedAgain | src/main.cpp:267-269 | woken up, likewise |
| Threads.Flags.ResetFlags | src/main.cpp:300-305 | the flags after a drain |
| Threads.DrainOne | src/main.cpp:277-279 | one turn of the drain loop, whatever fails in its write |
| Threads.DrainQueue | src/main.cpp:276-291 | without a producer, a pass makes one write per queued message, in order, and empties the queue, whatever fails |
| Logging.LogManager.Init | include/log_manager.hpp:51-97 | fails exactly on an empty path, a zero parameter, a directory that cannot be made or a file that cannot be opened; opens, measures and cleans up |
| Logging.LogManager.OpenNewLogFile | include/log_manager.hpp:169-193 | the size is the live file's length when it opens; otherwise the bookkeeping stays |
| Logging.LogManager.CheckRotateCondition | include/log_manager.hpp:196-209 | size or time exceeded, as `DueIff` says in nanoseconds |
| Logging.DueIff | include/log_manager.hpp:196-209 | an open file is due exactly when it has its size, or the interval has passed since it was opened, or the clock was set back by a second or more, but not by almost 2^64 seconds |
| Logging.RotatedIff | include/log_manager.hpp:100-122 | a line goes into the file as it is, or after a rotation, exactly by that rule |
| Logging.LinesLandInFreshFiles | include/log_manager.hpp:100-209 | while rotating works and the clock is not set back, every line lands in a file opened less than the interval before its check |
| Logging.LogManager.CompressLogFile | include/log_manager.hpp:212-239 | an archive with the file's content and no file; or, on failure, the file and whatever archive was left |
| Logging.LogManager.ScanLogFiles | include/log_manager.hpp:242-271 | all archives that can be examined once, oldest first; none if the directory cannot be opened |
| Logging.LogManager.CleanupOldLogs | include/log_manager.hpp:274-295 | all but the newest of the archives found are unlinked, except where that fails |
| Logging.LogManager.RotateLog | include/log_manager.hpp:298-322 | the live text moves to an archive, a leftover file, or stays, as rename and compression succeed or not |
| Logging.LogManager.Log | include/log_manager.hpp:100-122 | below the level nothing; otherwise rotation if due, then the line at the end of the live file if one is open |
| Logging.UnlinkingCleansUp | include/log_manager.hpp:274-295 | unlinking the surplus from the front of the listing removes the oldest archives found |
| Logging.CleanupHeals | include/log_manager.hpp:274-295 | a cleanup in which nothing fails leaves the newest archives, whatever the excess |
| Logging.NewestAreDetermined | include/log_manager.hpp:265-268 | which those are is determined if no two archives are equally old |
| Logging.RotationsRemoveOlder | include/log_manager.hpp:274-322 | in every rotation of every run, whatever fails: no removed archive is newer than a kept one that was found and could be unlinked |
| Logging.NothingLostOverRuns | include/log_manager.hpp:100-322 | in every run, whatever fails: the size kept is that of the open live file, and segments and live file are the start and every line logged while the file was open, in order |
| Logging.ClosedStaysClosed | include/log_manager.hpp:107-121 | once the live file could not be reopened, nothing is logged or rotated any more |
| Logging.SizesOverRuns | include/log_manager.hpp:196-209 | while renaming works, no segment and no live file reaches the threshold plus the longest line, or passes the live file's initial length if that was greater |
| Logging.ArchivesOverRuns | include/log_manager.hpp:274-322 | from any start, from the first rotation on the archives are within the limit while cleanups work |
| Logging.OneMoreArchive | include/log_manager.hpp:274-295 | adding the newest archive and keeping the newest of that keeps the newest of all |
| Logging.NewestOverRuns | include/log_manager.hpp:274-322 | from any start, with new stamps, a clock that is not set back between rotations and working archiving, the archives are the newest of the initial ones and all ever added |

## Modelling decisions

- A database is a map from table name to rows in rowid order; a `SELECT` without `ORDER BY` is taken to
  return rows in that order. What the C API does to text is modelled: strings are cut at the first NUL.
- Which SQLite or file calls fail is an argument of each operation (`Faults`). A name SQLite refuses is a
  run in which creating its table fails. A listing may stop early. A failing existence query reads as "absent".
- `maxTablesPerDb_` may be zero or negative; compared as `size_t`, a negative limit never evicts.
- Names that are no days are kept in the model too: they are never listed, counted or dropped by a cleanup.
- A JSON object is a map iterated in ascending key order; `get<int>` wraps to 32 bits; `Stoi` follows
  section 21.5 of ISO/IEC 14882:2011 and section 7.20.1.4 of ISO/IEC 9899:1999.
- In the step relation a critical section, with the `wait` that ends it, is one step. Waking up, by
  timeout or spuriously, can happen at any time. Messages arrive one at a time on one callback thread.
- The rotation interval is unsigned and compared modulo 2^64, so a clock set back by a second or more makes
  a rotation due. Two rotations in one second share a stamp: the second one's archive replaces the first's.
- A message counts as settled when it was handed to `writeMessage` or overwritten; that write may have failed.
- The repository's README.md:65 and README.md:101 name the topic modbusMaster/database/data; the code
  subscribes to modbusMaster/database/report/data. README.md:84 has databases created at initialisation;
  the code opens each on first use. The model follows the code.

## Left out

- MqttClient, keepAlive and token echoing: thin wrappers around a library that is not part of this model.
- JSON text: parsing starts from a tree; text that does not parse is an event that changes nothing.
- SQLite's durability, WAL mode and checkpoints; the code only logs that data was flushed.
- Table names with a double quote, with an embedded NUL, or differing only in letter case: SQL quoting
  and name folding are not modelled.
- Errors in the middle of a row cursor: a table's query either fails at once or delivers all its rows.
- Directory creation, console output, log text and time formatting.
- Shutdown: `g_running` stays true.
- Log lines written by the other components: the log is modelled on its own.
- Changes to the log directory by other programs while the service runs; what is there at the start is arbitrary.
- Log directories with 2^32 archives or more, and a log file name that itself contains `.tar.gz`.
- Writers of one channel running at the same time: the reader is the only caller of `writeMessage`.
- Handshake.BoundedProgress: bounds steps, not time; the 60-second timeout is a wake-up that may happen at any point.
