# kakekomi: verified model

kakekomi is an anonymous drop box. A visitor submits a form with attachments,
gets a seven-word code, and comes back with it to read a reply. The server
keeps each submission sealed to the receiver, in a row of SQLite and a
directory under `blob/`, until it expires; the receiver opens it on an
air-gapped machine. This project models that path in Dafny and proves what it
promises.

`dafny verify dfyconfig.toml` checks the whole project.

The pieces, from the bottom up:

- **Steps of the store.** `StoreSteps` makes every SQL statement and every
  file-system call of CreateCase, WriteReply and GC one atomic event. Any number
  of creates and replies and one sweeper interleave freely; any call may fail,
  the process may die and the clock may advance between any two events.
  `StoreOrphans` has the invariant of all runs and what a sweep reaches,
  `StoreCauses` why a directory can be without a row, `StoreKeeping` what an
  unexpired case keeps, `StoreReplies` what its reply.bin holds, `StoreProgress`
  that undisturbed sweeps, creates and replies get done, and what can stop a
  sweep.
- **The store, sequentially.** `FileSystem` is a file tree whose every call may
  fail or tear a write; `Shred` is the recursive shredDir on it; `CaseStore` is
  the class with CreateCase, WriteReply, FindCaseByCode, GC and Wipe.
- **The archive.** `Ustar` writes and reads ustar headers, records and end
  blocks; `Tarpack` is the printer on the server, `PathNames` and `Viewer` the
  parser and its path containment on the receiver's machine, `Pipeline` the
  two together with the envelope (`Crypto`) between them.
- **The protocol.** `Ledger` is the abstract specification: a book of open
  cases and what a history of events says about one of them. `Desk` relates
  rows and files to the book, `Intake` is what a submission must pass,
  `Handlers` holds the HTTP handlers, `Sessions` the admin sessions, `Portal`
  whole runs of requests, `Promises` what visitor and receiver get out of every
  turn of a run, in terms of what was typed and sent, `EndToEnd` the way of one submission from the form to
  the receiver's disk, `Retention` the time to live and the hourly sweep.
- **Kernels.** `Codes` (uniform codes), `Pow` (tokens), `Padding` (4 KiB pages),
  `TorControl` (reply groups), `Text` (trimming), `Utf8`.

Cryptography appears only as function parameters with their laws
(`Crypto.Lawful`, `Pipeline.Age`, `Pow.IsMac`). Clocks, random draws, form
contents, JSON marshalling, image stripping and the fate of each call are
parameters too. A Go byte is a character below 256, so that string literals are
byte strings.

Where the code differs from its own comments or from what one would expect, the
model follows the code:

- A rollback whose RemoveAll fails still deletes the row
  (`internal/kakekomi/store.go:107-108`), and a create paused past its own
  expiry makes its directory after the sweep has deleted its row
  (`internal/kakekomi/store.go:241-244`). Both leave a directory that no sweep
  will ever find: `StoreOrphans.RollbackCanLeak`, `StoreOrphans.SlowCreateCanLeak`.
  `StoreCauses.OrphanHasCause` shows that nothing else does, and
  `StoreCauses.OrphanIffRollbackFailed` that the first does so exactly when
  RemoveAll ends with the directory there and the DELETE after it works.
- The rollback of a failed create can take a reply with it that was saved in
  the meantime, and leave the row behind: `StoreKeeping.AbortCanLoseReply`.
- A reply is saved by truncating the one before it
  (`internal/kakekomi/store.go:183`). When that write fails half-way,
  has_reply stays 1 over a damaged reply.bin, and the visitor is shown
  "verified" instead of the reply: `StoreReplies.SecondReplyCanDamage`.
- `default_ttl_days` above 106751 overflows: 213504 days are kept for 25
  minutes (`Retention.TooManyDays`).
- safeFilename is said to drop the original extension
  (`internal/kakekomi/tarpack.go:118`), but keeps its letters: "photo.jpg"
  becomes "photojpg.jpg" (`Tarpack.ExtensionLettersStay`).
- The padding of the archive is said to be random and PKCS#7-like
  (`internal/kakekomi/tarpack.go:49,91-96`); every byte of it is zero
  (`Tarpack.PadTo64K`).
- The viewer's second containment check never fires, unless the output
  directory is "/", where it rejects every file (`Viewer.LandsInside`).

## Model

| member | source | states |
|---|---|---|
| StoreOrphans.StepKeepsInv | internal/kakekomi/store.go:86-118 | every step of any create, reply or sweep, a crash or a clock tick keeps the invariant that ties rows, directories, running creates and the sweeper's position together |
| StoreOrphans.ReachableInv | internal/kakekomi/store.go:86-252 | that invariant holds in every state reachable from an empty store by any interleaving |
| StoreCauses.OrphanIffRollbackFailed | internal/kakekomi/store.go:102-109 | over every run of creates, replies, sweeps, crashes and clock ticks in which the create of a case is never under way after the case has expired: its directory has no row if and only if a rollback's RemoveAll ended with the directory still there and a later rollback DELETE of that case worked |
| StoreCauses.OrphanHasCause | internal/kakekomi/store.go:97-111 | in every run whatever, a directory without a row has had such a failed rollback or a create still under way after its own expiry |
| StoreCauses.EveryDirectoryHasRow | internal/kakekomi/store.go:86-252 | when every rollback's RemoveAll clears its directory and no create is under way past its expiry, every directory has a row at the end of the run, whatever else fails |
| StoreCauses.WholeSweepReachesAll | internal/kakekomi/store.go:223-252 | after such a run a sweep that gets from its SELECT to its end has removed every directory that had expired when it began, with its row, whatever interleaves |
| StoreOrphans.OnlyRollbackLeaks | internal/kakekomi/store.go:102-109 | for an id that no sweep selected while its create was running, only the rollback remains |
| StoreOrphans.OutrunRanLate | internal/kakekomi/store.go:240-246 | in every run, a case that a sweep outran had its create between INSERT and return at some moment after its own expiry |
| StoreOrphans.SweepRemovesAll | internal/kakekomi/store.go:223-252 | a sweep that gets from its SELECT to its end has removed the row of every selected case, and the directory unless the create was still running at the SELECT, whatever creates and replies interleave |
| StoreOrphans.LateReplyKeepsRow | internal/kakekomi/store.go:257-279 | a reply.bin written after shredDir listed the directory makes the rmdir fail: row and reply survive until the next sweep, whatever else happens |
| StoreOrphans.RollbackCanLeak | internal/kakekomi/store.go:102-109 | the first cause is reachable: torn write, failed RemoveAll, deleted row, ciphertext out of reach |
| StoreOrphans.SlowCreateCanLeak | internal/kakekomi/store.go:240-246 | the second cause is reachable: a sweep tolerates the missing directory of a create that is still running, and directory and blob come afterwards, with success reported |
| StoreKeeping.StepKeepsKeeping | internal/kakekomi/store.go:178-252 | no step by anyone harms an unexpired case: blob, row, and reply once flagged |
| StoreKeeping.UnexpiredCaseIntact | internal/kakekomi/store.go:101-111 | in every reachable state an unexpired case whose CreateCase returned has its row and its blob byte for byte; an unexpired row with has_reply = 1 has its reply.bin if and only if no rollback has unlinked one that was not written again since |
| StoreKeeping.OnlyAbortedLoseReplies | internal/kakekomi/store.go:179-188 | so a flagged reply is there for every case whose create did not fail to write its blob |
| StoreKeeping.AbortCanLoseReply | internal/kakekomi/store.go:106-109 | the loss is reachable: an unexpired flagged row without its reply |
| StoreReplies.ReplyIsLastTouch | internal/kakekomi/store.go:183 | while a case is unexpired its reply.bin is what the last event that touched it made of it, a whole write, a torn write or an unlink by the rollback of its own create; sweeps, crashes, other cases and every other call leave it alone |
| StoreReplies.WholeReplyKept | internal/kakekomi/store.go:179-188 | a reply once written whole is there byte for byte if and only if no later write of that case reached the file and no rollback unlinked it, or the last that did happened to leave the same bytes |
| StoreReplies.FlaggedReply | internal/kakekomi/store.go:179-188 | has_reply = 1 is only ever seen after a whole write of that case's reply; what the file holds then is what its last touch left |
| StoreReplies.SecondReplyCanDamage | internal/kakekomi/store.go:183-187 | the damage is reachable: an unexpired case whose create succeeded and whose first reply was saved and flagged has an empty reply.bin after a torn second reply |
| StoreProgress.SweepGetsThere | internal/kakekomi/store.go:223-279 | from any state, a sweep whose calls work and that nobody disturbs runs from its SELECT to its end: every expired case has lost its row and its directory, each file zeroed in its full length before its unlink, and every other row and directory is as it was |
| StoreProgress.SweepHasReasonToStop | internal/kakekomi/store.go:240-279 | in any interleaving a sweep that stops before its end was stopped by the death of the process, by a call of its own that failed, or by a file written into the directory being shredded; nothing else that runs beside it can stop it |
| StoreProgress.SweepAfterDeath | internal/kakekomi/server.go:50-65 | the process may die in any state of any creates, replies and sweep: an undisturbed sweep of the next one still gets everything expired, row and directory |
| StoreProgress.CreateGetsThere | internal/kakekomi/store.go:86-112 | an undisturbed create that draws up to four taken ids and then a free one leaves row, directory and blob under that id and changes nothing else |
| StoreProgress.CreateGivesUp | internal/kakekomi/store.go:93-117 | five taken ids end the create with everything as it was |
| StoreProgress.FailedInsertLeavesAll | internal/kakekomi/store.go:113-115 | any other error of the INSERT ends it at once, with everything as it was |
| StoreProgress.FailedMkdirLeavesNothing | internal/kakekomi/store.go:101-105 | a directory that cannot be made: the rollback restores rows and directories |
| StoreProgress.FailedWriteLeavesNothing | internal/kakekomi/store.go:106-110 | a blob write that fails, leaving nothing or anything at all: the rollback restores rows and directories |
| StoreProgress.ReplyGetsThere | internal/kakekomi/store.go:179-188 | an undisturbed reply puts its bytes into reply.bin, sets the flag, and changes nothing else |
| StoreProgress.FailedReplySetsNoFlag | internal/kakekomi/store.go:183-185 | a reply whose write fails changes no row and leaves the file as the write left it |
| StoreProgress.ReplyToNobody | internal/kakekomi/store.go:180-182 | a reply to a case without a row changes nothing |
| FileSystem.FirstChild | internal/kakekomi/store.go:258-262 | in a file tree the way down to anything below a directory starts with one of the entries that ReadDir lists |
| Shred.ShredFile | internal/kakekomi/store.go:270-276 | an entry is overwritten with zeros of its size and unlinked, errors of both dropped: it reports an error exactly when Stat fails |
| Shred.ShredDir | internal/kakekomi/store.go:257-279 | terminates on every tree; nil means the whole tree is gone; nothing outside changes; without faults it succeeds and every file it unlinked held zeros of its own length |
| CaseStore.OpenStore | internal/kakekomi/store.go:35-49 | on whatever an earlier process left, blob/ is there afterwards and rows and files are unchanged; it fails exactly when the directory or the schema cannot be made |
| CaseStore.Store.CreateCase | internal/kakekomi/store.go:86-118 | the first free of five drawn ids gets row, directory and blob; a failure leaves a row only if the DELETE of the rollback failed, and a directory only if RemoveAll did; without faults the only failure is five taken ids and changes nothing; whatever fails, no other case is touched |
| CaseStore.NewRowIs | internal/kakekomi/store.go:88-100 | the new row has the digests given, created_at on the last whole hour, expires_at the time to live later, and no mark; only that row does |
| CaseStore.Store.MakeCaseFiles | internal/kakekomi/store.go:101-111 | directory and blob are both there, or the row is gone unless its DELETE failed and the directory is as before or gone unless RemoveAll failed; nothing outside the case directory changes |
| CaseStore.Store.GetCase | internal/kakekomi/store.go:149-167 | the row of the id, or an error exactly when there is none and no fault |
| CaseStore.Store.WriteReply | internal/kakekomi/store.go:179-188 | without faults reply.bin holds the blob and has_reply is set exactly when row and directory exist; no other file changes; an error never sets the flag |
| CaseStore.Store.ReadReply | internal/kakekomi/store.go:190-192 | the contents of reply.bin, or nothing when there is none |
| CaseStore.Store.FindCaseByCode | internal/kakekomi/store.go:199-220 | one indexed SELECT and one verification find exactly the id that verifying every row would find |
| CaseStore.ScanIsLookup | internal/kakekomi/store.go:194-220 | scan, index and the code a row was made from agree when digests are injective and codes distinct |
| CaseStore.Store.SelectExpired | internal/kakekomi/store.go:224-237 | every expired id once, and nothing else |
| CaseStore.Store.SweepCase | internal/kakekomi/store.go:240-247 | the row goes only after the whole directory has, a missing directory being no error; nothing outside it changes |
| CaseStore.Store.GC | internal/kakekomi/store.go:223-252 | however a sweep ends, n is the number of rows that went, only expired rows and their directories went, and nil means that nothing expired is left |
| CaseStore.SweepStep | internal/kakekomi/store.go:240-248 | sweeping one more expired case keeps unexpired rows and directories untouched |
| CaseStore.SweepResumes | internal/kakekomi/store.go:222-252 | a sweep cut short anywhere and a later one that returns nil leave no row and no directory of anything expired; the two counts add up to the rows gone |
| CaseStore.SweepAfterRestart | internal/kakekomi/server.go:50-65 | the same when a new process opens the store on what is left and makes its start-up sweep |
| CaseStore.Store.Wipe | internal/kakekomi/store.go:282-295 | every row goes exactly if the DELETE works, whatever the shredding did; without faults blob/ is empty |
| Ustar.OctalRoundTrip | internal/kakekomi/tarpack.go:74-82 | octal digits of a header field read back as the number |
| Ustar.HeaderRoundTrip | internal/kakekomi/tarpack.go:74-82 | for every NUL-free name of up to 100 bytes and size below 8^11 the header written reads back, checksum and all, as that name, size and a regular file, and is not a zero block |
| Ustar.ChecksumIsSum | internal/kakekomi/tarpack.go:74-82 | the checksum is the sum of the header's bytes with eight blanks for the checksum field |
| Ustar.OtherFields | internal/kakekomi/tarpack.go:75-80 | the fields the viewer does not read: mode 0600, no owner, time zero, no link, no device |
| Ustar.ChangedByteIsSeen | cmd/viewer/main.go:130-136 | a header that reads does not read any more when any one byte outside its checksum field is changed |
| Ustar.OtherFormatsAreNotRead | cmd/viewer/main.go:130-136 | a header without the ustar magic and version is an error |
| Ustar.PrefixFirst | cmd/viewer/main.go:130-142 | a name with a prefix field is read as prefix, slash, name |
| Ustar.OnlyFilesHaveContents | cmd/viewer/main.go:130-178 | links, devices, directories and fifos come without contents, whatever size they claim |
| Ustar.ReadsRecord | cmd/viewer/main.go:128-136 | behind any records, the reader finds the next one with its name, contents and the place of the one after it |
| Ustar.ReadsEnd | cmd/viewer/main.go:130-133 | behind the last record the reader reports the end, whatever follows the two zero blocks |
| Ustar.WhereArchivesEnd | cmd/viewer/main.go:130-136 | for every byte string, the reader reports the end exactly where the data ends, at a zero block that is the last one, or at two zero blocks; a piece of a block, and a zero block with something else behind it, are errors |
| Tarpack.SafeFilename | internal/kakekomi/tarpack.go:109-129 | the safe bytes before the first dot that is not among the last four, sixty at most, "file" if none, and the extension of the type |
| Tarpack.NameFromFront | internal/kakekomi/tarpack.go:109-129 | for every name, what counts is what stands before the first dot with four bytes or more behind it, or the whole name: its safe bytes in order, and nothing that comes later |
| Tarpack.SafeFrontStays | internal/kakekomi/tarpack.go:111-128 | safe bytes stay as they are up to sixty, and none at all become "file" |
| Tarpack.SafeBytes | internal/kakekomi/tarpack.go:112-114 | the safe bytes are the ASCII letters, the digits, "-" and "_" |
| Tarpack.ExtensionOfType | internal/kakekomi/tarpack.go:131-145 | five types have extensions of their own, every other gets ".bin" |
| Tarpack.CutIffEarlyDot | internal/kakekomi/tarpack.go:112-120 | a name is cut if and only if it has a dot before its last four bytes |
| Tarpack.ExtensionLettersStay | internal/kakekomi/tarpack.go:114-120 | an extension of up to three letters is not dropped, only its dot |
| Tarpack.BaseNamesDistinct | internal/kakekomi/tarpack.go:59-63 | different indices give different member names for any original names and types |
| Tarpack.BaseNameShape | internal/kakekomi/tarpack.go:109-145 | a member name has at most 97 bytes, all letters, digits, "_", "-", "." and one "/", for any index of up to nineteen digits |
| Tarpack.ListMembers | internal/kakekomi/tarpack.go:58-64 | members and their descriptions, numbered from one in upload order |
| Tarpack.MetaOfIs | internal/kakekomi/tarpack.go:51-62 | the metadata of a submission is the one with version 1, its code, all its fields, the last whole hour before it came in, and for each attachment in turn its number from one, its name as uploaded, its type and its length |
| Tarpack.WriteTar | internal/kakekomi/tarpack.go:71-89 | for members that fit ustar headers all records in order and two zero blocks, a whole number of 512-byte blocks |
| Tarpack.PadTo64K | internal/kakekomi/tarpack.go:91-101 | any text is brought to a multiple of 65536 by bytes that hold the count modulo 256; a whole number of tar blocks gets 512 to 65536 of them, all zero |
| Tarpack.PackSubmission | internal/kakekomi/tarpack.go:51-102 | an error exactly when the metadata cannot be marshalled, otherwise a positive multiple of 65536; members and metadata below 8^11 bytes give their ustar archive, padded |
| PathNames.JoinStaysBelow | cmd/viewer/main.go:145-146 | Clean then Join of a name without ".." elements appends exactly its own elements to the base directory |
| PathNames.DotDotTakesBack | cmd/viewer/main.go:145-146 | in Clean, ".." takes back the element before it, and at the front goes in a rooted path and stays in a relative one |
| PathNames.SplitIsSegments | cmd/viewer/main.go:202 | for every text, the first part is what it reads up to a slash or its end, and the others are exactly what it reads from behind a slash up to the next one or its end |
| Viewer.AcceptedNames | cmd/viewer/main.go:182-209 | the names accepted are exactly those that are not empty, without NUL and line breaks, not beginning with a drive letter, a slash or two backslashes, and with no two dots anywhere between separators of either kind or an end |
| Viewer.FinerSplit | cmd/viewer/main.go:202-207 | reading backslashes as slashes hides no segment that has no backslash, so the ".." test covers the real segments |
| Viewer.LandsInside | cmd/viewer/main.go:142-150 | every accepted name lands on the output directory or below it element by element; the second check rejects an accepted name exactly when the directory is "/" and the name has an element |
| Viewer.ExtractEntry | cmd/viewer/main.go:142-178 | whatever a member says, nothing outside the output directory changes; names that are not accepted, links and devices are refused with the disk unchanged; a directory is made; a regular file with a free place is created with the contents that are there, with an error exactly when they are cut short |
| Viewer.ExtractTar | cmd/viewer/main.go:123-180 | for every byte string nothing outside the output directory changes; an archive of well-named files, whatever follows its end, extracts without error to exactly those files |
| Viewer.PlacedAt | cmd/viewer/main.go:156-168 | each file's place holds that file's contents, no later member overwriting it |
| Crypto.WrapEnvelope | internal/kakekomi/crypto.go:224-231 | magic, version, two zero bytes, payload |
| Crypto.EnvelopeRoundTrip | internal/kakekomi/crypto.go:224-243 | unwrapping inverts wrapping, and a blob unwraps to a version and payload exactly when it is their wrapping up to the two reserved bytes |
| Crypto.SymmetricRoundTrip | internal/kakekomi/crypto.go:188-220 | a reply sealed under a key opens under it to the same text |
| Crypto.OpensIffSealed | internal/kakekomi/crypto.go:203-220 | a blob opens to a text if and only if it is KKK1, version 1, two bytes of anything, a nonce of 24 bytes and a box that opens under key and nonce to that text |
| Pipeline.MemberIsSafe | cmd/viewer/main.go:182-209 | every generated member name passes the viewer's check and has the two elements attachments/ and the file name |
| Pipeline.Decrypt | cmd/viewer/main.go:89-112 | a bad envelope, a wrong version or an undecryptable payload changes nothing on disk; a sealed archive is extracted completely |
| Pipeline.FilesWellNamed | internal/kakekomi/tarpack.go:58-69 | meta.json and the members are accepted, fit the header and have pairwise different places |
| Pipeline.PackThenExtract | internal/kakekomi/tarpack.go:51-102 | pack, seal, open, extract is the identity: meta.json, one file per attachment with its exact bytes, nothing else, and all other files stay |
| Ledger.OpenIsBooked | internal/kakekomi/handlers.go:270-300 | an open case of a history is in the book with its code, expiry, blob and the text of the last reply that carried its id and code |
| Ledger.BookedIsOpen | internal/kakekomi/handlers.go:270-300 | nothing is in the book but open cases |
| Ledger.ExpiryFromTheHour | internal/kakekomi/store.go:88-90 | a case expires its time to live after the last whole hour before it was submitted |
| Ledger.LatestReplyIsShown | internal/kakekomi/handlers.go:328-365 | over all histories where no submission drew the code of a case then open: "no-match" exactly when no open case has the typed code, otherwise the trimmed text of the latest admin reply for it, or "verified" if none |
| Ledger.NoCodeSurvivesWipe | internal/kakekomi/handlers.go:425-429 | a code issued before a wipe shows "no-match" ever after |
| Desk.SubmittedRepresents | internal/kakekomi/handlers.go:270-298 | a new case keeps rows and files a faithful copy of the book |
| Desk.RepliedRepresents | internal/kakekomi/store.go:183-187 | so does a saved reply |
| Desk.SweptRepresents | internal/kakekomi/store.go:223-252 | so does a sweep, and the book loses exactly the expired entries |
| Desk.RepresentedRows | internal/kakekomi/handlers.go:270-271 | in every represented store each row's digests come from one code and codes are distinct, which is what the indexed lookup needs |
| Desk.BlobIffBooked | internal/kakekomi/store.go:169-171 | a blob file exists exactly for the cases of the book and is the one submitted |
| Intake.CollectFields | internal/kakekomi/handlers.go:196-210 | succeeds exactly when every configured field passes its required and length checks; the values are exactly the trimmed non-empty entries of configured fields |
| Intake.PassesIffInOrder | internal/kakekomi/handlers.go:197-206 | a field passes if and only if what was entered, without the white space around it, is there when required and has no more UTF-8 bytes than allowed |
| Intake.EntriesAreFields | internal/kakekomi/handlers.go:207-209 | the values kept are, for every configured field that was filled in, what was entered without the white space around it, and nothing else |
| Intake.AcceptOne | internal/kakekomi/handlers.go:221-253 | one upload is taken exactly when its size, the running total, its type and its stripping allow it, with the sniffed or stripped type and bytes |
| Intake.AcceptedIsTaken | internal/kakekomi/handlers.go:236-252 | an accepted upload goes on under its own name with the bytes and type of the stripped image if it is one that gets stripped, otherwise with its own bytes and the sniffed type |
| Intake.CollectAttachments | internal/kakekomi/handlers.go:213-255 | succeeds exactly when number, each size, the total, every type and every stripping are in order; the list is the uploads in order |
| Handlers.App.CheckSubmit | internal/kakekomi/handlers.go:172-255 | honeypot, CSRF, proof of work, fields and attachments let a form through exactly when all of them pass; a trapped bot sees a success page |
| Handlers.App.Prepare | internal/kakekomi/handlers.go:258-289 | code, envelope, archive and seal, failing exactly when the random source or the marshalling does |
| Handlers.App.OpenCase | internal/kakekomi/handlers.go:269-298 | the digests of the code and the time to live reach the store, and the book gains the entry |
| Handlers.CapMakesPackable | internal/kakekomi/handlers.go:220-253 | with a cap below eight gibibytes per file, an accepted form whose stripped images and metadata stay below it has a plain ustar archive |
| Handlers.App.ProcessSubmit | internal/kakekomi/handlers.go:147-301 | a case is opened if and only if every check passes and neither random source, metadata nor id draws hinder it; its blob is the sealed archive of exactly what was entered; otherwise the history is unchanged |
| Handlers.App.FindCode | internal/kakekomi/handlers.go:332-333 | finds the only case of the book with the code, or none |
| Handlers.App.HandleReply | internal/kakekomi/handlers.go:314-365 | 403 without CSRF, 400 for a blank code, otherwise the view that the book calls for |
| Handlers.App.RequireAuth | internal/kakekomi/handlers.go:446-462 | lets a request through exactly when its session is alive and, for a POST, its CSRF token is the session's own |
| Handlers.App.HandleAdminReply | internal/kakekomi/handlers.go:550-597 | an authorised receiver with the case's own code and a reply changes exactly that reply; with a wrong or another case's code, blank input or no such case nothing changes, and the page says which |
| Handlers.App.StoreReply | internal/kakekomi/handlers.go:578-593 | the reply is sealed under the key of code and case id so that the visitor's read opens it |
| Handlers.App.HandleAdminLogin | internal/kakekomi/handlers.go:410-442 | a session is created exactly for the right password and one-time code; rows and blob/ are emptied exactly for the right password and the duress code, with the session table unchanged and the page of a failed login; a wrong password changes neither rows, files, history nor sessions |
| Handlers.App.HandleAdminLogout | internal/kakekomi/handlers.go:464-470 | an authorised logout destroys that session and no other and leads to the login; anyone else is turned away |
| Handlers.App.HandleAdminDownload | internal/kakekomi/handlers.go:525-540 | an authorised download gives the blob of the case as submitted, 404 exactly when it is not in the book; the read mark changes nothing else |
| Handlers.App.HandleAdminRoot | internal/kakekomi/handlers.go:382-392 | sends to the inbox exactly when the session is alive, otherwise to the login page; asking refreshes the session |
| Handlers.App.HandleAdminInbox | internal/kakekomi/handlers.go:484-498 | an authorised request gets one entry for every case of the book and no other, with a reply mark exactly where the book has a reply; listing changes nothing |
| Handlers.App.HandleAdminCase | internal/kakekomi/handlers.go:508-523 | an authorised request for the page of a case, or for its reply form, gets its reply mark as booked, and 404 exactly when the id is ill-formed or not in the book |
| Handlers.App.SweepOnce | internal/kakekomi/gc.go:40-46 | a turn of the sweeper removes exactly the expired entries from book and store |
| Portal.StartServer | internal/kakekomi/server.go:50-75 | on an empty disk the server opens to an app that is sound with no history and whose store, book and sessions agree, so the theorems about runs have a beginning |
| Portal.ServeTurn | internal/kakekomi/handlers.go:24-37 | one request of any kind, /admin, inbox, case and reply pages included, keeps the store a faithful copy of the book and gets the page the book and the sessions call for |
| Portal.Serve | internal/kakekomi/handlers.go:24-37 | every run of any requests and sweeps in any order does; the turns chain up to the two histories, of the book and of the sessions, and nothing but an opened case, an authorised reply, a sweep and a wipe under duress enters the history |
| Promises.VisitorSees | internal/kakekomi/handlers.go:328-365 | in any turn of any run a visitor who types a code with any white space around it sees "no-match" exactly when no open case has it, "verified" exactly when its case was never answered, and otherwise the text of the last reply in the history with that case's id and code, each without the white space around it |
| Promises.AskIsChecked | internal/kakekomi/handlers.go:322-332 | 403 exactly when cookie and form token are not both there and equal up to white space around them, 400 exactly for a blank code, otherwise a view |
| Promises.OnlyLiveSessionsReply | internal/kakekomi/handlers.go:446-462 | over whole runs, a reply enters the history exactly when its session was created, not destroyed since, never idle for more than fifteen minutes, and the form carried, up to white space around it, the MAC of that very session for a case id of sixteen hexadecimal digits |
| Promises.ForeignTokenRefused | internal/kakekomi/session.go:84-96 | with an injective MAC, a form with the token of another session changes nothing but the time of last use and gets 403, or the login page if the session it came with is no longer alive |
| Promises.OnlyOwnSessionEnds | internal/kakekomi/handlers.go:464-470 | a logout destroys the caller's session exactly when it is alive and, for a POST, the form carries its token, and never another one |
| Promises.StrangersAreSentAway | internal/kakekomi/handlers.go:446-462 | without a live session every request of the receiver's side but /admin itself is sent to the login and changes nothing |
| Promises.WipedIffDuress | internal/kakekomi/handlers.go:420-429 | over whole runs everything is wiped exactly by a login with matching tokens, the right password and the duress code, when one is configured; the page is then that of a failed login and no session begins |
| Promises.OnlyCredentialsBeginSessions | internal/kakekomi/handlers.go:430-442 | a session begins exactly with matching tokens, the right password, the one-time code and no duress code |
| Promises.WrongPasswordChangesNothing | internal/kakekomi/handlers.go:426-433 | a login with a wrong password adds nothing to either history, and with matching tokens gets the page that duress gets |
| Promises.DownloadGives | internal/kakekomi/handlers.go:525-540 | for a live session, the blob of the submission that is open under the id, and 404 exactly when there is none or the id is ill-formed |
| Promises.InboxShows | internal/kakekomi/handlers.go:484-498 | for a live session, one entry for every open submission of the history and no other, marked exactly if it has been answered |
| Promises.RootLeadsOn | internal/kakekomi/handlers.go:382-392 | /admin leads to the inbox with a live session and to the login without |
| Promises.CasePageShows | internal/kakekomi/handlers.go:508-523 | likewise for the page of one case and the form for its reply |
| Promises.ReplyPageTells | internal/kakekomi/handlers.go:556-596 | for a live session with its token: 404 without an open case, otherwise that code or text is blank, that the code is another one, or that the reply is saved |
| Promises.OnlyFormsInOrderOpenCases | internal/kakekomi/handlers.go:169-301 | over whole runs a case is opened only by a form whose hidden field is blank, whose tokens match, whose proof-of-work token is fresh and whose fields and files are in order, and the page shows the words drawn for it; such a form that opens none met a failed draw, five taken ids or metadata that could not be written |
| Promises.DuressSilencesCodes | internal/kakekomi/handlers.go:425-429 | after a login under duress every earlier code, with any white space around it, gets "no-match" |
| Promises.GoneFromDisk | internal/kakekomi/server.go:60-69 | an hour after its time to live, with the sweeper on time, a case has no row, no directory and no file |
| EndToEnd.SubmissionReachesReceiver | internal/kakekomi/handlers.go:147-301 | submit, any requests, download, decrypt: while the case is open the download works exactly when the receiver's session is alive; the receiver's disk then gains meta.json and one file per upload and nothing else; what meta.json decodes to has the code on the visitor's page, the last whole hour before the submission, exactly the configured fields that were filled in, and for each upload its number, name, accepted type and the length of its file, which holds the bytes that were accepted |
| Sessions.SessionStore.NewSession | internal/kakekomi/session.go:43-55 | the table gains the token with both times set |
| Sessions.SessionStore.TouchSession | internal/kakekomi/session.go:58-74 | accepts a known token at most fifteen minutes idle and refreshes it, removes an idle one, leaves other tokens alone |
| Sessions.SessionStore.DestroySession | internal/kakekomi/session.go:76-80 | the token is gone, others stay |
| Sessions.SessionStore.VerifyCSRF | internal/kakekomi/session.go:84-96 | a form token verifies if and only if it is the session's own MAC with nothing but white space around it |
| Sessions.VerifyAnonCSRF | internal/kakekomi/session.go:113-119 | cookie and form token verify if and only if neither is empty and both are the same text up to white space around it |
| Sessions.TableIsHistory | internal/kakekomi/session.go:43-80 | the table holds exactly the tokens that the history kept, each with the time of its last use |
| Sessions.TouchIffAlive | internal/kakekomi/session.go:58-74 | Touch succeeds exactly when the token was created, not destroyed since, and no two consecutive uses up to now are more than fifteen minutes apart |
| Sessions.RefusedForever | internal/kakekomi/session.go:68-71 | once refused, a token is refused forever |
| Retention.DaysAreKept | internal/kakekomi/handlers.go:291-294 | in int64 arithmetic the time to live is the configured days exactly for 1 to 106751; 0 down to -106751 mean ninety days |
| Retention.TooManyDays | internal/kakekomi/handlers.go:291-294 | 213504 days give 1526 seconds, 106752 days give ninety |
| Retention.NeverEarly | internal/kakekomi/store.go:89-90 | without a wipe a case submitted at s is in the book as long as no sweep ran later than s + ttl - 3600 |
| Retention.GoneAfterSweep | internal/kakekomi/store.go:224 | one sweep at any time after s + ttl removes it |
| Retention.BookedUntilSwept | internal/kakekomi/store.go:88-90 | without a wipe a case is in the book if and only if no sweep after it ran later than the hour of its submission plus its time to live |
| Retention.GoneInTime | internal/kakekomi/server.go:60-69 | with a start-up sweep and sweeps at most an hour apart no case outlives its time to live by more than an hour |
| Codes.GenerateCode | internal/kakekomi/crypto.go:69-84 | seven words at the indices drawn, failing exactly on a wrong list or a failed read; of a proper list the code is trimmed and not empty |
| Codes.PairsAreIndex | internal/kakekomi/crypto.go:80 | exactly the 32 listed byte pairs have a given index |
| Codes.PreimagesCount | internal/kakekomi/crypto.go:74-82 | an index vector of length n has exactly 32^n preimages among the random bytes |
| Codes.PhraseInjective | internal/kakekomi/crypto.go:83 | joined words of a proper list can be told apart again |
| Codes.EachPhraseEquallyLikely | internal/kakekomi/crypto.go:69-84 | every phrase of seven list words is drawn by exactly 32^7 of the 14-byte random inputs |
| Pow.IssuePoWToken | internal/kakekomi/pow.go:33-51 | the token of the current second and the nonce, or empty when the random source fails |
| Pow.DecodeIffEncoding | internal/kakekomi/pow.go:54 | a text decodes to given bytes exactly when it is their encoding in either letter case |
| Pow.CaseDoesNotMatter | internal/kakekomi/pow.go:54 | texts that differ in the case of the letters A to F at most decode alike |
| Pow.SpelledVerifies | internal/kakekomi/pow.go:53-75 | a token in any spelling verifies exactly from its second to 300 seconds later |
| Pow.GoodIffFreshToken | internal/kakekomi/pow.go:53-75 | a string verifies if and only if it spells a token of 8, 16 and 16 bytes whose last part is the truncated MAC of the rest, within its five minutes |
| Pow.IssueThenVerify | internal/kakekomi/pow.go:33-75 | issued at t, a token verifies at t' exactly when ts <= t' <= ts + 300 s with ts the second of t |
| Padding.PadIsLeast | internal/kakekomi/padding.go:53-66 | the padded size is the least multiple of 4096 that equals the body's or leaves room for the 14-byte comment frame |
| Padding.PaddedWriter.Flush | internal/kakekomi/padding.go:36-48 | sends the body with its comment or, on a broken connection, a prefix of that |
| Padding.Respond | internal/kakekomi/padding.go:29-48 | any number of writes and one flush send their concatenation, alone or with one well-formed comment, in the least whole number of blocks |
| TorControl.Atoi3 | internal/kakekomi/tor.go:81-87 | the value of the code points as digits, for any bytes |
| Utf8.ReadsEncoded | internal/kakekomi/tor.go:81-87 | ranging over the UTF-8 bytes of any text, whatever follows them, yields its code points |
| Utf8.ReadsOnlyEncodings | internal/kakekomi/tor.go:81-87 | whatever is read as a character is that character's encoding, so no overlong form and no surrogate is |
| Utf8.StrayBytes | internal/kakekomi/tor.go:81-87 | a byte at which no character's encoding begins is read alone, as U+FFFD |
| Utf8.LengthCounts | internal/kakekomi/handlers.go:203 | the length that limits a field is the number of bytes of its UTF-8 encoding |
| Text.WhiteSpace | internal/kakekomi/handlers.go:328 | the white space that trimming takes away is what Unicode calls White_Space |
| Text.TrimIffSurrounds | internal/kakekomi/handlers.go:328 | trimming a text gives `core` if and only if the text is `core` with white space around it and `core` has none at its ends |
| TorControl.Control.ReadReply | internal/kakekomi/tor.go:56-79 | reads one group as specified, with an error for a short line, the end of the stream or a code that is not 2xx |
| TorControl.ParsePrinted | internal/kakekomi/tor.go:56-79 | a printed group followed by anything parses to its bodies and final code, and the rest is left |
| TorControl.ReadGroups | internal/kakekomi/tor.go:56-79 | repeated calls return the groups of a stream in order and consume exactly them |
| TorControl.OneLineEach | internal/kakekomi/tor.go:58-78 | on any stream a group takes exactly as many lines as it returns |

## Left out

- Two sweepers at once (the `gc` command beside the server) and Wipe beside a running CreateCase: the row-for-every-directory invariant does not hold there; Wipe is sequential.
- StoreSteps: a case directory holds plain files only, whole-file writes and unlinks are single events, and ids are not reused by later creates.
- StoreKeeping.UnexpiredCaseIntact: says when a flagged reply.bin exists, not what it holds; that is `StoreReplies.ReplyIsLastTouch` and `StoreReplies.WholeReplyKept`.
- Desk.Represents: the refinement of the book is for runs without faults; what the store does under faults is in `CaseStore` and the step system.
- Ledger.LatestReplyIsShown: assumes that no submission draws the seven words of a case still open; the index on code_lookup is not unique, so the code relies on it too.
- Ledger.NoCodeSurvivesWipe: assumes that no two submissions ever draw the same words, since a code drawn again after the wipe would match its new case.
- Handlers.App.ProcessSubmit: bodies larger than the cap, form parse errors, the exact text and status among the 4xx and 5xx refusals, and the fixed waiting time are not modelled; NewID is taken not to fail and integer sizes not to overflow.
- Tarpack.WriteTar: an archive with a member of 8 GiB or more, or a name that no ustar header holds, is in a format that is a parameter here; PAX, GNU and V7 headers and signed checksums are not part of the reader either.
- Retention.SweptOnTime: ticks that the ticker drops and sweeps that fail are not on time.
- Power loss, SQLite's journal, VACUUM and what an SSD keeps: only process crashes between whole calls.
- Symbolic links on disk, file permissions and Windows paths.
- The inside of age, argon2id, HMAC, HKDF, XChaCha20-Poly1305 and TOTP; injectivity of the digests is assumed.
- Timing: dummy verification and dummy decryption do no observable work here.
- Single use of proof-of-work tokens and the hash chain: the code keeps no record of used tokens, and the chain returns nothing.
- Pow.VerifyPoWToken: time differences are unbounded integers; a saturated difference gives the same verdict.
- Tor "+" data blocks, which readReply does not parse, and AUTHENTICATE and ADD_ONION commands.
- Text of invalid UTF-8 in forms; forms are sequences of code points, while archives, headers and Tor replies are bytes.
- Viewer.ExtractTar: `prettyPrintMeta` only prints; output directories with symbolic links in them are not considered.
- Portal.Serve: pages that touch neither store nor session (the forms at /, /reply and /admin/login, style sheets) are no requests of a run.
- Order, times and size buckets on the inbox and case pages, templates, HTTP headers and cookies, MIME sniffing, image re-encoding, configuration, key rotation and secrets files: library calls or straight-line code.
