# Mini CI grading system: verified model

Mini CI is a small grading service for programming courses. Students submit C files or fetch the
week's distribution files with a command-line client; a server with a pool of worker threads grades
the submissions; an administrator's screen switches weeks and shows who has solved the assignment; a
watcher resubmits files when they are saved. This project models the parts where that can go wrong
and proves what they guarantee over all inputs, all runs and all interleavings.

| files | part of the system |
|---|---|
| `Gf2`, `Words`, `Crc32` | the checksum of both file protocols, as polynomial division over GF(2) |
| `Wire`, `Layout` | the packed big-endian packet layouts, as functions and byte for byte, and which packets the receiver takes |
| `Receiver`, `Distribution` | the receiving state machine over byte strings, the sender's byte stream, and what the one makes of the other, whole or cut off anywhere |
| `Client`, `PullServer` | both ends as imperative code over sockets, files and a directory, proved against the above |
| `Interrupted` | what the receiver makes of a transfer that breaks off in a file and goes on with an ERROR |
| `PullTheorems` | what the two ends guarantee together |
| `Submission`, `Submitting` | the framing of submissions and requests, on values and as code of both ends |
| `JobQueue`, `QueueMonitor` | the ring of accepted connections, and its mutex and condition variable |
| `GradingServer`, `GradingTheorems`, `GradingRuns`, `GradingWitness` | workers and control thread as a step machine over three locks; its theorems; what a run did, read off its turns; runs that show where promises end |
| `Tracker` | the table of students in memory, and the history it stands for |
| `StatusPrinter`, `StatusParser`, `StatusTheorems` | the status report the server prints into a fixed buffer and the screen reads back |
| `CompareOutput` | the whitespace-insensitive comparison of outputs |
| `Debounce` | the timer that waits 300 ms after the last save |
| `Bytes`, `Options` | shared types |

How the models are built:

- Code that changes state step by step is a class with a method per operation (`Client.Socket`,
  `Client.Folder`, `PullServer.Connection`, `Tracker.StudentTable`, `JobQueue.Queue`,
  `CompareOutput.File`, `Debounce.Watcher`), each method proved equal to a function on values; the
  properties are then proved of those functions.
- Concurrency is a machine: `Step` takes one turn of one thread, with explicit lock owners, and a run
  is any sequence of turns (`Play`). What threads do not decide (scheduling, the outcome of a program,
  whether a file opens) is part of the turn, so the theorems hold for every choice.
- Receives and sends move any number of bytes and may be interrupted any finite number of times. The
  network, the directory, clocks and grades are parameters.

Where the code falls short of what its documentation or its name suggests, the model keeps the code
and the project proves exactly how far the promise goes:

- README.md:44 of the repository promises that a switch of week resets the records atomically and that
  each week's results go to their own CSV file. The week, the table and the file change in three
  separate critical sections, so a submission of the new week can have its record wiped
  (`WeekIsolation`, `EarlyRecordIsWiped`), its row can go to the file of the week before
  (`RowPlacement`, `EarlyRecordIsWiped`), and, because `csv_fd` is looked at without its lock, a row
  can be lost although every open succeeds (`RowsAreLostExactlyMidSwitch`, `RowIsLost`).
- A verdict can have been compared with another week's answers if the week is switched away and back
  meanwhile (`VerdictsMatchTheirWeek`, `AwayAndBack`).
- The ring is never checked for being full: with more than a hundred waiting, a newer job is served in
  the place of an older one (`NextServed`, `ServedInOrder`, `Overfull`), however the threads interleave
  (`InterleavedInOrder`).
- README.md:58 of the repository promises that the client is told of a failing send by an ERROR packet
  and ends safely. When the send failed inside a packet, the client takes the beginning of the ERROR for
  the rest of that packet. The ERROR's text ends with the file's name, and after every break in a file
  the client reports the failure and keeps no part of the file if and only if the part of the name that
  fits the text does not read like a DONE header: "MINI", any byte, a carriage return and one more byte
  (`ReportedExactly`); otherwise it can report success with a file that holds part of the ERROR (`Misled`,
  `MisleadingName`). If the break was in a META, the beginning of the ERROR completes it, so that an older
  copy of that file, or a file of another name that begins with what had come of the name, is destroyed;
  `BrokenDelivery` says which.
- A read that fails while a file is sent ends it like the end of the file does, under a checksum of what
  was read, and the client never looks at the size in META: the truncated file counts as a success
  (`SizeIsNotChecked`, `FailedReadSucceeds`).
- A fetched file keeps the execute permission of an older file of its name (`ModeIsSendersExactly`,
  `OldModeStays`).
- A submission cut off after its first 8 bytes is not noticed: the server grades what has come
  (`LossNoticed`). Nor is a header whose receive a signal cut short: its rest is graded as source
  (`HeaderCutMisread`).
- Ids that are empty or 16 bytes long are not recognised when they come again (`RecognisedAgain`), and
  ids with a colon, or a comma before their end, garble the screen's list (`ListExact`).
- The solved count and the list on the screen are read at two moments and may disagree
  (`ReportIsOfOneWeek`, `HistoryOnScreen`).

## Model

| member | source | states |
|---|---|---|
| Crc32.Accumulate | server/server.c:488-499 | the nested loops, run on one buffer, leave the accumulator at the value of the one-shot definition continued from where it started |
| Crc32.Crc32Buf | client/client.c:37-45 | the one-shot loop computes the complemented checksum |
| Crc32.UpdateConcat | client/client.c:586-590 | the accumulator does not see how a file was cut into chunks |
| Crc32.RegisterIsRemainder | server/server.c:408-416 | after any bits, from any register, the register is the remainder of all of them on division by the generator |
| Crc32.ChecksumIs8023 | client/client.c:36-45 | the checksum is the CRC-32 of clause 3.2.9 of IEEE 802.3: complemented, it is the remainder of the frame polynomial with its first 32 bits complemented |
| Gf2.RemainderExact | server/server.c:408-416 | long division yields the one remainder that the definition by quotient and product admits |
| Crc32.CollisionExact | client/client.c:618-623 | two files of one length share a checksum if and only if the generator divides the polynomial of their differing bits |
| Crc32.BurstDetected | client/client.c:618-623 | two files that differ within any 32 consecutive bits never share a checksum |
| Crc32.FourByteBurstDetected | client/client.c:618-623 | nor do two files that differ within any four consecutive bytes |
| Wire.CommonRoundTrip | client/client.c:411-432 | the 8-byte common header is read back as written |
| Wire.MetaRoundTrip | include/protocol.h:111-123 | a META is read back as written, its name cut to 127 bytes |
| Wire.ChunkRoundTrip | include/protocol.h:128-136 | a CHUNK's size and offset are read back modulo 2^32 |
| Wire.EndRoundTrip | include/protocol.h:141-150 | an END's checksum is read back as written |
| Layout.MetaLayout | include/protocol.h:111-123 | the 144 bytes of a META: "MINI", 3, 10, 144, the name and a zero, size, permission, number, count |
| Layout.ChunkLayout | include/protocol.h:128-136 | the 16 bytes of a CHUNK's header, and its bytes after it |
| Layout.EndLayout | include/protocol.h:141-150 | the 16 bytes of an END |
| Layout.DoneLayout | server/server.c:629-637 | the 16 bytes of a DONE, with the number of files in the thirteenth |
| Layout.ErrorLayout | server/server.c:543-556 | the 136 bytes of an ERROR, with up to 127 bytes of its message and a zero |
| Layout.ListingOnTheWire | server/server.c:474-482 | file number i of a listing goes out with its name cut to 127 bytes, its size, the owner's permission, i and the number of files |
| Layout.SubmitLayout | client/client.c:296-313 | the 160 bytes of a submission's header and the source after it; the last four are the CRC-32 of the source |
| Layout.GetFilesLayout | include/protocol.h:99-106 | the 24 bytes of a request for files |
| Layout.TakenExactly | client/client.c:515-668 | which bytes take the client to the next packet, which end it in success, and that all others end it in failure |
| Layout.MetaTakenAs | client/client.c:527-564 | what such a META does, byte for byte |
| Layout.ChunkTakenAs | client/client.c:567-603 | what such a CHUNK does |
| Layout.EndTakenAs | client/client.c:606-638 | what such an END does |
| Layout.EndedAs | client/client.c:681-686 | and what is left in the directory when the client ends |
| Receiver.SafeFilenameExact | client/client.c:437-451 | the name test accepts exactly the nonempty names without a separator other than two dots; its last three tests never decide |
| Receiver.AlwaysConsistent | client/client.c:508-519 | after every packet of any stream, the state is WAIT_CHUNK if and only if a file is open, and an open file has a safe name and is in the directory |
| Receiver.OnlySafeNamesTouched | client/client.c:538-557 | whatever bytes arrive, nothing is created, changed or removed under an unsafe or refused name |
| Client.Socket.RecvAll | client/client.c:397-407 | exactly n bytes in order whatever the pieces and interrupts, or failure if and only if fewer come |
| Client.Folder.WriteAll | client/client.c:592-598 | the whole chunk is appended whatever the short writes and interrupts, or the room does not suffice |
| Client.ReceiveMeta | client/client.c:527-564 | the META branch does what the machine on byte strings does |
| Client.ReceiveChunk | client/client.c:567-603 | so does the CHUNK branch, and the running checksum is that of the bytes in the file |
| Client.ReceiveEnd | client/client.c:606-638 | so does the END branch: keep and count, or remove |
| Client.DoPull | client/client.c:458-686 | result, count and directory are those of the machine on the whole byte string, for every fragmentation |
| Distribution.RunChunks | client/client.c:567-603 | the chunks of a file, whatever their sizes up to 128 KiB, add up to its contents |
| Distribution.RunDelivery | client/client.c:606-638 | one delivery installs the file if its checksum matches and removes it if not |
| Distribution.RunAll | client/client.c:515-656 | a whole transfer installs its files in order, and succeeds if and only if it ends with DONE |
| Distribution.RefusedDelivery | client/client.c:537-598 | a file whose name is refused, or that there is no room for, ends the transfer in failure whatever follows: the directory is as before, without a file of that name if it was created |
| Distribution.CutDelivery | client/client.c:681-686 | a delivery cut off anywhere leaves no file under its name once its META has come, and changes nothing before |
| Distribution.RunPrefix | client/client.c:515-686 | a transfer cut off after any number of bytes leaves exactly the files whose END has come, without the one in progress, and succeeds if and only if 8 bytes of DONE have come |
| PullServer.Connection.SendAll | server/server.c:419-428 | the whole buffer goes out in order, or a proper part of it and failure is reported |
| PullServer.SendChunk | server/server.c:501-515 | one chunk's header and bytes, or a proper part of them |
| PullServer.SendContents | server/server.c:484-516 | the contents go out in chunks of 1 to 65536 bytes with running offsets, under the checksum of all of them |
| PullServer.SendOneFile | server/server.c:439-533 | the file's META, its contents in chunks of 1 to 65536 bytes, and END, or a proper prefix of them and failure; nothing for a file that does not open or is over 104857600 bytes |
| PullServer.CollectFiles | server/server.c:587-602 | the regular files whose names do not start with a dot, in the order of the directory, all of them or the first 64 |
| PullServer.HandleFilePull | server/server.c:560-643 | the wire gets the deliveries of these files and DONE, or those before the first failure, what went out of that one, and ERROR |
| PullTheorems.PullRoundTrip | client/client.c:507-656 | however the reads cut the files, the client ends with exactly the names, bytes and modes of those sent whole, untouched otherwise |
| PullTheorems.OffsetsAddUp | server/server.c:488-516 | every chunk is announced at the offset where the ones before it end, and the chunks add up to the size in META if and only if that many bytes could be read |
| PullTheorems.SizeIsNotChecked | client/client.c:547-561 | a whole transfer is a success, and each file has the size its META announced if and only if the server read that many bytes |
| PullTheorems.FailedReadSucceeds | server/server.c:488-533 | a file of one byte whose read fails ends as an empty file and a success |
| PullTheorems.ModeIsSendersExactly | client/client.c:551-627 | after any transfer, a file's execute permission is the sender's if and only if the sender's is set or no executable file of that name was there before |
| PullTheorems.OldModeStays | client/client.c:551-627 | a transfer in which a file without the permission ends with it |
| PullTheorems.LostConnection | client/client.c:681-686 | a connection lost after any number of bytes leaves the files whose END has come and removes the one in progress |
| PullTheorems.DamagedFileRemoved | client/client.c:618-623 | a file damaged within 32 consecutive bits, however chunked, is removed; the intact ones stay, and the result is still success |
| Interrupted.SuccessNeedsDone | client/client.c:515-656 | whatever bytes arrive, the client succeeds only if a DONE header is among them |
| Interrupted.BrokenDelivery | server/server.c:616-625 | a file broken off at any byte and followed by any part of an ERROR: without a DONE header in the message the client reports failure, and, the message being a C string, exactly one outcome is left for the directory, which the message does not influence: no part of the file |
| Interrupted.BrokenTransfer | server/server.c:616-625 | the same after any files sent before it |
| Interrupted.HarmlessNameExact | server/server.c:543-556 | the server's message about a file has no DONE header in it if and only if the first 105 bytes of the name have none of "MINI", a byte, a carriage return and another byte |
| Interrupted.Misled | client/client.c:567-603 | for a chunk cut as many bytes short as stand before a DONE header in the ERROR, the client reports success and the file ends with those bytes |
| Interrupted.ReportedExactly | server/server.c:616-625 | for a file of an acceptable name, every break in it followed by the server's message is reported as a failure, and leaves no part of it, if and only if the name has no DONE header in it |
| Interrupted.MisleadingName | server/server.c:616-625 | a name and a break in a file of that name after which the client reports success with 30 bytes of the ERROR as the file |
| PullTheorems.BrokenPull | server/server.c:510-521 | a listing broken off in a file whose name has no DONE header, or without any ERROR: failure is reported, and the client is left with the files before it, or also that one, whole; broken off in its META, without the file of the name that the ERROR has completed |
| PullTheorems.ClientStops | client/client.c:537-598 | whatever the server goes on to send, a pull ends in failure at the first file whose name is refused or that there is no room for, with exactly the files before it |
| PullTheorems.CompletePull | server/server.c:629-637 | with all files sent, the listing is there, and success depends on 8 bytes of DONE |
| PullTheorems.RefusedPull | server/server.c:446-462 | a file that does not open or is too large ends the transfer with failure and exactly the files before it |
| PullTheorems.Pull | client/client.c:458-686 | server and client run against each other: result and directory for every listing, whatever the client's directory refuses or has no room for, whether or not a send fails and whatever still goes out after it; without failures, success if and only if the client takes every file |
| Submission.BaseNameIsLast | client/client.c:307-313 | the submitted name is the part of the path after its last slash or backslash |
| Submission.GetFilesServed | server/server.c:666-674 | a request for files is taken for one whatever follows it |
| Submission.WholeFilesHeader | server/server.c:666-674 | any 24 bytes whose sixth is 3 are a request for files |
| Submission.WholeHeader | server/server.c:676-705 | any 160 bytes whose sixth is not 3 are the header of a submission: id, name and size are read from it and nothing else is looked at |
| Submission.SubmitServed | server/server.c:676-705 | a submission is taken for one, with id, name and size, and as source what has come of it and nothing after it |
| Submission.SubmissionRoundTrip | client/client.c:296-367 | a source of 1 byte to 1 MiB arrives byte for byte with its id, base name and size |
| Submission.LossNoticed | server/server.c:658-705 | a lost submission is noticed if and only if at most 8 bytes have come |
| Submission.HeaderCutMisread | server/server.c:676-705 | a header receive cut short is not noticed: the rest of the header is read as source, the missing bytes of the size count as zero |
| Submitting.ReadSource | client/client.c:273-294 | the file's bytes up to the size found at fstat; nothing if empty, over 1 MiB or shorter by now |
| Submitting.SendSource | client/client.c:257-368 | header and source go out in order, or a proper prefix of them and failure |
| Submitting.ReceiveRequest | server/server.c:658-705 | the request is the one made of the parts the receives return, short ones included; unless a signal cuts one short, the pieces in which the bytes arrive make no difference |
| Submitting.SubmitOver | client/client.c:296-367 | what the client reports as sent the server has, byte for byte |
| JobQueue.Queue.Enqueue | server/server.c:267-274 | the ring gets the job at its tail, full or not |
| JobQueue.Queue.Dequeue | server/server.c:279-283 | the ring yields the job at its head |
| JobQueue.RunTracks | server/server.c:127-130 | after any run, head, tail and count follow from the jobs accepted and served, and slot j holds the last job whose number is congruent to j modulo 100 |
| JobQueue.TailFollowsHead | server/server.c:127-130 | the tail is the head plus the count modulo 100 |
| JobQueue.NextServed | server/server.c:276-284 | the next job served is the last one accepted on the slot of the one due; it is the one due if and only if at most 100 wait |
| JobQueue.ServedInOrder | server/server.c:267-284 | jobs are served in order of acceptance if and, as long as no descriptor of a waiting connection is given out again, only if each is served while at most 100 wait |
| JobQueue.OrderExact | server/server.c:267-284 | the same, with the conditions said of the operations themselves |
| JobQueue.Overfull | server/server.c:267-284 | with 101 waiting, the last is served in the first's place |
| JobQueue.NothingLost | server/server.c:267-284 | then the served and the waiting jobs are exactly the accepted ones |
| QueueMonitor.PlayKeepsInv | server/server.c:267-284 | every interleaving, with spurious wakeups, keeps mutual exclusion and loses no wakeup |
| QueueMonitor.NoLostWakeup | server/server.c:276-278 | while a worker sleeps unsignalled and the mutex is free, there are no more jobs than signalled workers; no job waits while all sleep |
| QueueMonitor.TakingIsSafe | server/server.c:279-282 | a worker takes a job only if there is one, alone in the queue |
| QueueMonitor.ReturnsWithJob | server/server.c:276-284 | a worker comes out of dequeue_job only with a job |
| QueueMonitor.EveryJobPasses | server/server.c:267-284 | every job that arrived is put, in order, and every job served is what a worker came out with, in order, but for the one on its way in and the one on its way out |
| QueueMonitor.IdleWorkersSleep | server/server.c:278 | from every reachable state without a job and without an arrival, all workers can go to sleep |
| QueueMonitor.TurnsExact | server/server.c:267-284 | a worker waits exactly for the mutex or, asleep, for a wakeup, which may be spurious; a signal wakes any one of those asleep |
| QueueMonitor.JobsCanBeTaken | server/server.c:1010-1023 | from every reachable state with a job waiting, six turns of those inside and of one worker suffice for a worker to be about to take one |
| QueueMonitor.InterleavedInOrder | server/server.c:267-284 | in every interleaving the puts and takes form a run of the ring, a worker leaves with the job taken last, jobs are taken in the order put if and, while waiting descriptors differ, only if at most 100 wait at each, and then none is lost |
| GradingServer.StepKeepsInv | server/server_ctx.c:69-145 | every step of every thread keeps locks, records, table and rows in step |
| GradingServer.PlayKeepsInv | server/server.c:645-1005 | so does every run of any number of workers with the control thread |
| GradingTheorems.WeekIsolation | server/server_ctx.c:85-106 | from the reset to the next change of week, the table holds exactly the records made in this week after the reset, all of submissions whose copied week is this one |
| GradingTheorems.StudentsOfTheWeek | server/server_ctx.c:101-106 | then the students array is the fold of exactly these submissions, slot by slot as the tracker's theorems say |
| GradingTheorems.AttemptsTold | server/server_ctx.c:184-209 | the number that a submission since the reset was told is how often its student had tried, at most 65535, or 0 if 512 others fill the table |
| GradingTheorems.VerdictsMatchTheirWeek | server/server.c:978-983 | a recorded verdict was compared with the answers of its week if and only if that was the week when the answer path was copied; so always if the week is not switched away and back |
| GradingTheorems.RowPlacement | server/server_ctx.c:220-250 | a row goes to its week's file or to that of the week just before; to its own if and only if the file was already changed or the names are equal |
| GradingTheorems.RowsAreCounted | server/server_ctx.c:135-137 | total_records is the number of rows in the file opened last, modulo 2^32; and records, with their weeks, students and grades, are exactly the rows, what was lost, and what a worker still has in hand |
| GradingTheorems.RowsAreLostExactlyMidSwitch | server/server_ctx.c:226 | a step loses a row if and only if its worker finds the file closed; while opens succeed, if and only if it looks at csv_fd between the close and the open of a switch |
| GradingTheorems.ReportIsOfOneWeek | server/server.c:1068-1101 | count, week, record counter and students of a report are of the same week: the students are those at the count and the submissions since |
| GradingTheorems.SomeoneMoves | server/server_ctx.c:72-76 | no deadlock: with an unfinished thread some thread can step, even if waiting writers go before readers |
| GradingTheorems.StepDecreases | server/server.c:1010-1023 | every step lowers one measure of the work left |
| GradingTheorems.EveryRunFinishes | server/server.c:1010-1023 | so every run ends, exactly when all is done, with every lock free and every record in its row or lost |
| GradingRuns.WorkersLive | server/server.c:645-1005 | week, answers, verdict, student and grade of each worker are those that the turns of the run show: copied, compared, and AC if equal or without answers, WA if not |
| GradingRuns.LogIsWhatWasMade | server/server.c:376-382 | the records are, in order, those made by the turns that found a worker at the table, of the submission it was serving |
| GradingRuns.EveryPassIsRecorded | server/server.c:378-386 | every submission whose week is the current one at the final check is recorded once, with its week, student and grade; and nothing else |
| GradingRuns.ConnectionsAreServed | server/server.c:645-1005 | each connection a worker began was dropped, given its files, or compared if there was something to compare, checked and answered, or is being served |
| GradingRuns.CommandsAreCarriedOut | server/server.c:1025-1119 | the weeks are the first one and those of the commands with names of 1 to 31 bytes, in order; each switch resets the table and changes the file once, and every other command is completed |
| GradingRuns.WorkersWaitExactly | server/server_ctx.c:69-76 | a worker waits only for a connection, a writer of hw_lock, or the owner of a mutex |
| GradingRuns.ControlWaitsExactly | server/server_ctx.c:69-76 | the control thread only for a command, readers and writers of hw_lock, or the owner of a mutex |
| GradingWitness.AwayAndBack | server/server.c:378-386 | for any two weeks, a run in which a verdict compared with the one is recorded under the other |
| GradingWitness.EarlyRecordIsWiped | server/server_ctx.c:95-106 | for any two weeks, a run in which a new week's record is wiped and its row stands in the old week's file |
| GradingWitness.RowIsLost | server/server_ctx.c:112-128 | a run in which every open succeeds and a record gets no row |
| Tracker.StudentTable.constructor | server/server_ctx.c:44-61 | the table starts empty |
| Tracker.StudentTable.Reset | server/server_ctx.c:101-106 | the reset empties it and keeps the class size |
| Tracker.StudentTable.FindStudent | server/server_ctx.c:161-168 | the first slot of the id before the first unused one |
| Tracker.StudentTable.FindUnused | server/server_ctx.c:171-181 | the first unused slot |
| Tracker.StudentTable.RecordSubmission | server/server_ctx.c:152-210 | table and result are those of one recorded submission on values |
| Tracker.RecordStep | server/server_ctx.c:184-209 | one submission keeps the table in step with the history and returns the attempts, saturated, or 0 for a student the full table has no room for |
| Tracker.TableDescribesHistory | server/server_ctx.c:152-210 | after any run the used slots are a prefix with distinct ids in order of first submission; solved is sticky and counted once, otherwise the latest grade stands, attempts saturate |
| Tracker.ReportedAttempts | server/server_ctx.c:192-194 | what a client is told: its attempts since the reset saturated at 65535, or 0 |
| Tracker.RecognisedAgain | server/server_ctx.c:161-181 | after any history of proper ids, two more submissions of an id are counted on top of its attempts if and only if it has 1 to 15 bytes and the table knows it or has room for it |
| StatusPrinter.Snprintf | server/server.c:1098-1099 | as much as fits, a zero after it, and the full length as result |
| StatusPrinter.HeaderLength | server/server.c:1088-1090 | the header takes at most 85 bytes |
| StatusPrinter.PrintedFits | server/server.c:1094-1100 | the report stays under 8192 bytes whatever the table, and no entry is cut |
| StatusPrinter.PrintedExactly | server/server.c:1094-1096 | a student is printed if and only if less than 8168 bytes stand before it |
| StatusPrinter.AllPrinted | server/server.c:1094-1100 | all students are printed while they cannot fill the buffer |
| StatusPrinter.PrintTracker | server/server.c:1068-1103 | the 8192 bytes hold, in the words of the program, the counts, the week, each printed student as id, colon, name of its grade and comma, and zeros after that |
| StatusParser.Find | minici-tui.c:101-103 | the place of the first character sought, if there is one |
| StatusParser.ParseSnap | minici-tui.c:90-117 | the two loops compute the snapshot the text stands for |
| StatusTheorems.KeyExact | minici-tui.c:96-99 | the four keys set their fields, modulo their widths or cut to 31 bytes; any other sets nothing |
| StatusTheorems.FieldExact | minici-tui.c:94-101 | any field of the first line, by any printer: passed over if its key has more than 31 bytes, its value cut to 63 |
| StatusTheorems.StudentExact | minici-tui.c:106-115 | any entry: passed over if its id has more than 15 bytes, its name cut to 7 and WA if it is none of the five |
| StatusTheorems.AtoiExact | minici-tui.c:96-99 | numbers are read after blanks, with or without a sign, up to the first other character |
| StatusTheorems.HeaderRead | minici-tui.c:93-103 | any header with a valid week name is read back, whatever follows it |
| StatusTheorems.EntriesRead | minici-tui.c:104-116 | any list of students with clean ids is read back |
| StatusTheorems.ListExact | minici-tui.c:104-116 | a list comes through if no id has a colon, or a comma but at its end, and, unless it fills the screen's array, only then |
| StatusTheorems.LastMayHaveCommas | minici-tui.c:106 | a list that fills the array comes through even with commas in its last id |
| StatusTheorems.ReportRoundTrip | minici-tui.c:90-117 | counts, week and records come through whatever the ids; so does the printed list exactly when its ids are clean (or fill the array); it is a prefix of the students in order, all of them up to 405 |
| StatusTheorems.ShowTracker | server/server.c:1068-1103 | printer and parser together, through the buffer |
| StatusTheorems.HistoryOnScreen | minici-tui.c:90-117 | from submissions to screen: the number who had solved it at the count, each student at the list with AC if ever achieved and the latest grade if not; the two agree if and only if nobody solved it in between |
| CompareOutput.File.GetVisible | server/server.c:315-316 | the next character that is not whitespace |
| CompareOutput.Compare | server/server.c:305-320 | 1 if and only if the files are equal without their whitespace, 0 if not, -1 if one cannot be opened |
| CompareOutput.SpacesDoNotCount | server/server.c:313-319 | whitespace put in anywhere changes no verdict |
| CompareOutput.WhitespaceExactly | server/server.c:314-316 | a byte can be put anywhere without changing a verdict if and only if it is 32 or 9 to 13; any other stays where it is |
| Debounce.Watcher.ArmDebounce | inotify_watch.c:45-53 | the timer is set anew and an expiry not yet read is taken back |
| Debounce.Watcher.HandleBatch | inotify_watch.c:194-242 | the loop over the ready descriptors does what the steps say |
| Debounce.HandleAllIsPlayed | inotify_watch.c:194-242 | and so is part of a run |
| Debounce.BatchesExact | inotify_watch.c:186-195 | epoll_wait returns the ready descriptors, each once, in either order |
| Debounce.TakenIsRead | inotify_watch.c:198-221 | whenever changes are taken from the queue, however many, the timer is set to 300 ms from then |
| Debounce.EveryChangeIsRead | inotify_watch.c:198-221 | every change is still queued or was read after it was made |
| Debounce.EveryChangeIsServed | inotify_watch.c:194-242 | once all has come to rest, every change was followed by a run, and there were no more runs than changes |
| Debounce.ChangesArePending | inotify_watch.c:198-221 | while a change is unserved the timer runs, to 300 ms after the last change, or has expired |
| Debounce.PendingChangesAreServed | inotify_watch.c:186-242 | once 300 ms have passed, the next batch runs the client once |
| Debounce.NoRunBetweenCloseReads | inotify_watch.c:219-241 | no run starts between two changes read less than 300 ms apart unless its expiry was already in the batch |
| Debounce.StaleRunHappens | inotify_watch.c:194-242 | that exception occurs: a run between two changes read 100 ms apart |
| Debounce.NoMoreRunsThanReads | inotify_watch.c:224-241 | there are never more runs than changes read |

## Left out

- Client.DoPull: a chmod that fails only draws a warning in the program; in the model it succeeds.
- Client.DoPull: the connection set-up and the sending of the request are not modelled here; the request's bytes are those of Submission.PutGetFiles.
- PullServer.HandleFilePull: the wording of the messages about a missing or empty directory is a parameter; paths over 1023 bytes, and a directory that changes between readdir and open except through the file's size and contents, are not modelled.
- PullServer.SendOneFile: a failing fstat counts as a file that does not open; a malloc that fails after the META is not modelled, but Interrupted.BrokenDelivery says what the client makes of the bytes.
- PullTheorems.PullRoundTrip: for names that the receiver accepts and room for all files; PullTheorems.Pull covers the others.
- PullTheorems.Pull: the names in the listing are distinct after truncation to 127 bytes, as the two programs need them.
- PullTheorems.BrokenPull: when the END of a file is completed by an ERROR, both outcomes are admitted; Interrupted.BrokenTransfer says which it is.
- Submitting.ReceiveRequest: when signals come and how short they cut a receive is arbitrary (a restarted MSG_WAITALL receive still returns short once it has some bytes). Short writes of the source file and a missing working directory are not modelled.
- JobQueue.RunTracks: q_count is unbounded in the model; the program's int overflows at 2^31 waiting connections.
- QueueMonitor.JobsCanBeTaken: fairness of the scheduler is not modelled; the lemma says that a job can be reached from everywhere, not that the scheduler lets it be.
- GradingServer.PlayKeepsInv: the students a run serves and their grades are arbitrary; state_lock and ui_mutex, under which no other lock is taken, are not part of the machine, and the acceptor, which shares its thread with the control commands, is in QueueMonitor instead.
- GradingRuns.CommandsAreCarriedOut: CMD_SET_STUDENTS stands for one with a valid number; the class size is not part of the machine, and the commands under state_lock are not in it.
- GradingTheorems.EveryRunFinishes: for runs with finitely many connections and commands.
- GradingTheorems.RowsAreCounted: a write to an open CSV file succeeds in the model.
- Tracker.TableDescribesHistory: for ids of 1 to 15 bytes, as the client's login allows; what happens for the others is in Tracker.RecognisedAgain. Time stamps are dropped.
- StatusTheorems.ListExact: for a list that fills the array only one direction is claimed; its last id may have commas inside.
- StatusTheorems.ReportRoundTrip: for record counts up to 2^31-1, beyond which atoi is undefined. The week, the class size and the record counter are parameters.
- CompareOutput.Compare: whitespace is that of the C locale; a read error counts as the end of the file.
- Debounce.EveryChangeIsServed: the run of the client before the loop is not modelled.
- Debounce.ChangesArePending: setting the timer always succeeds; the file named in the message is dropped.
- The sandbox (namespaces, limits, seccomp, capabilities, the BPF monitor), the compiler and the programs run: how a program ends, and so the grade of one whose output is not compared, is an arbitrary input.
- ResultHeader and its rendering by the client: straight-line copying of values described here.
- The screens, logs, progress bars, editor launching and the file picker: user interface.
- Time stamps, directory creation and removal, and the epoll accept loop: plumbing without a property of its own.
- The older copies of client, server and protocol at the top of the repository and under backup/.
