# A verified model of the distributed document system

The system keeps text documents on storage servers and finds them through a name server. This project
models, in Dafny, the parts of it where state is shared and order matters, and proves what they keep.

**The collaborative edit engine** of a storage server. A file is parsed into a linked list of
sentences. A client locks one sentence (WRITE), queues insertions for it (updates), and commits them
(ETIRW), or disconnects. A commit splices the queued text into the sentence's words, splits the result
again at the delimiters `.`, `!`, `?` and newline, and swaps the resulting run of sentences for the old
one in the shared list. The server is one `select` loop, so a run is any interleaving of handler calls.

- `wrappers.dfy`, `text.dfy`, `document.dfy`, `tidy.dfy`, `stats.dfy`: characters and tokens, the file parser
  and the flusher, what both do to a text, the word scanner.
- `rebuild.dfy`: splicing, the commit's own splitter, and the two word counters.
- `edit_engine.dfy`: the handlers as steps of a state machine over values, with a node's address as an id.
- `edit_invariant.dfy`, `edit_runs.dfy`: what every step keeps in memory, exactly when, and what follows
  over whole runs, whatever text is queued.
- `edit_disk.dfy`: exactly when the documents in memory agree with their files. `edit_words.dfy`: no
  commit loses words.
- `confluence.dfy`: the order of concurrent sessions does not matter. `edit_sessions.dfy`: what a client gets
  for its messages, from WRITE to the file on disk.
- `edit_limits.dfy`: inputs on which the promises fail.
- `sentence_list.dfy`, `active_doc.dfy`, `storage_server.dfy`: the same handlers in place, over linked
  nodes, arrays and tables. Each method is proved to do to the tables what the state machine does, so
  the theorems about the state machine are theorems about these methods.

**The lookup index** of the name server (`djb2.dfy`, `name_index.dfy`, `name_effects.dfy`,
`name_limits.dfy`, `name_server.dfy`): a small cache before a chained hash map before the catalog, kept up
by create, delete, move, registration and disconnect. **Access lists and requests** (`access.dfy`,
`requests.dfy`, `access_runs.dfy`). **Undo, redo and revert** of a file through reserved checkpoint tags
(`history.dfy`). **The `.metadata` text store** (`metadata.dfy`).

`dafny verify dfyconfig.toml` verifies everything.

## What the theorems assume

Each assumption is a predicate a caller can evaluate before the call. What the code does when it does not
hold is modelled as far as C defines it. The guards of the three invariants are proved exact: a step keeps
the invariant if and only if its guard holds.

- `EditInvariant.Guard` keeps locks, sessions and documents in order (`EditRuns.StepInvIff`). A WRITE that
  is granted comes from a connection without a session and finds a free lock slot, and a commit without
  any token does not cut off a sentence another session holds. Nothing is assumed about text.
- `EditDisk.SyncGuard` also keeps every open document in agreement with its file (`EditDisk.SyncStepIff`).
  If somebody else still has the document, what a commit queued is harmless for it: accepted, and without
  a vertical tab or form feed in the text the splitter keeps, or one token that only repeats the
  sentence's end. And an accepted commit does not find its own backup file open as a different document.
- `EditWords.WordsGuard`, for the words of one file: no accepted commit takes the file for its backup, and
  no commit cuts off words of it while somebody else has it open.
- `Confluence.Undisturbed` and `AllWrites`, for the outcome of one document: no WRITE for it in the run, no
  commit that cuts off its sentences, and for its file, commits that are accepted. `SafeRun` is a
  condition on each session alone that implies them in every interleaving.
- `NameIndex.Guard` keeps the index (`NameIndex.StepInvIff`). A CREATE that goes through finds a free slot,
  a MOVE that goes through has a name no other file has, and registered names are new.
- `AccessRuns.Guard` adds that storage servers announce access lists without duplicates.

## Where the code differs from its documentation

- The cache is called least-recently-used; a hit does not reorder it, so it evicts in order of insertion.
- A comment in `storage/document.h` calls an edit's index relative to the original sentence. The code
  applies each index to the array as the earlier edits left it, and the model does the same.
- A commit whose word counts disagree is announced as rejected, but the in-memory list is already
  changed, and a closing OK follows the error. The model keeps both.
- An ETIRW without edits on an empty sentence cuts off everything after it (`EmptyCommitCutsDocument`).
- A commit overwrites its backup file even when that file is open itself (`OpenBackupDisagrees`).
- The storage server appends a repeated grant instead of replacing it, and revokes only the first entry,
  so its access list can disagree with the name server's (`StoredGrantIff`, `StoredRevokeIff`).
- CREATE does not look whether the catalog has a free slot. On a full catalog it maps the name to slot -1,
  and `NameIsHidden` shows a file that stays hidden behind that entry.
- A new record in the `.metadata` store keeps only 50 characters of its file name, without an end mark; the
  buffer is for 100 (`SaveIsReliableIff`).
- A commit does not clear a pending undo marker, so an undo after it may restore something older.

## Model

| member | source | states |
|---|---|---|
| Text.TokensAreTokens | storage/document.c:283 | what `strtok_r` yields is never empty and holds no separator |
| Text.TokensKeepText | storage/document.c:283-299 | tokenising loses and reorders nothing but separators |
| Text.TokensOfJoin | storage/document.c:283-299 | tokens joined by spaces are tokenised back into the same tokens |
| Document.ParseFlush | storage/document.c:126-153 | writing a well-formed document and parsing the file gives it back, plus the closing empty sentence when it ended in a delimiter |
| Document.ParseFlushShaped | storage/document.c:30-153 | any document of commits is read back with its words split where the parser sees white space |
| Document.ParseFlushIff | storage/document.c:30-153 | reading a written document back only adds the closing sentence, exactly for well-formed documents |
| Document.ParseIsNormal | storage/document.c:30-106 | the parser always yields a normal form: real words, real delimiters, one closing ' ' sentence |
| Document.RoundTripIffNormal | storage/document.c:30-153 | parse after flush is the identity exactly on normal forms |
| Document.ParseFlushParse | storage/document.c:30-153 | re-flushing a parsed file does not change what it parses to |
| Document.ParseKeepsText | storage/document.c:55-101 | the parser keeps every visible character of the file, in order |
| Tidy.LoadThenWrite | storage/document.c:30-153 | loading a file and writing it gives its text with white space tidied, character by character, and nothing else |
| Tidy.WrittenIsTidy | storage/document.c:126-153 | what is written for a well-formed document is tidy already |
| Stats.Scan | storage/metadata.c:181-201 | the scanner loop counts characters and transitions from white space into a word |
| Stats.ScanOfFlush | storage/metadata.c:191-201 | the word count reported for a flushed document is its words plus its sentences that are only a punctuation mark |
| Rebuild.KeptIffWellShaped | storage/document.c:315-351 | the splitter keeps a prefix of a token, and all of it exactly when the token is text followed by delimiters |
| Rebuild.KeptIsLongest | storage/document.c:315-351 | of any token the splitter keeps the longest prefix that is text followed by delimiters |
| Rebuild.SplitterAgreesIffWellShaped | storage/document.c:304-365 | the commit's splitter and the file parser agree, up to the closing sentence, exactly on well-shaped tokens |
| Rebuild.SplitterKeepsText | storage/document.c:304-365 | the split carries the kept prefix of every token and nothing else, in order |
| Rebuild.SplitDelimiter | storage/document.c:309-365 | the old delimiter of the rebuilt sentence only reaches the last sentence, and only when it was left open |
| Rebuild.SplitWords | storage/document.c:308-365 | the words of the new sentences are the token texts in array order |
| Rebuild.SplitIsWellFormed | storage/document.c:308-365 | the split has real words and delimiters, and is empty only for an empty array |
| Rebuild.SplitIsShaped | storage/document.c:308-365 | whatever was queued, the new sentences have words without delimiters and real ends, and there are none only for an empty array |
| Rebuild.SplitSameIff | storage/document.c:308-365 | a rebuild with a token the counters disagree on gives the same sentence exactly when that token, at the end, only repeats the sentence's delimiter |
| Rebuild.AcceptedSnoc | storage/handlers.c:795-816 | the update handler's bound is exactly acceptance of the longer queue |
| Rebuild.AcceptedEditsReplay | storage/document.c:271-279 | indices accepted against the virtual count stay inside the growing array, so a replay never fails |
| Rebuild.EditLands | storage/document.c:271-300 | an edit lands at its index in the array the earlier edits left, with its own tokens in between and everything else where it was |
| Rebuild.ApplyEditsTokens | storage/document.c:271-302 | all queued tokens land in the array, with the old words and nothing else |
| Rebuild.ApplyEditsOrder | storage/document.c:291-300 | the old words stay in order in the array |
| Rebuild.CountersAgreeIffCountable | storage/document.c:226-247 | the words added across a rebuild equal the queued count exactly when every token starts with text or has none; otherwise fewer are added |
| Rebuild.RebuildKeepsWords | storage/document.c:262-365 | a sentence's words survive its rebuild in order, whatever was queued |
| EditInvariant.WriteInv | storage/handlers.c:713-770 | a guarded WRITE keeps the invariant: loading, refusing and granting |
| EditInvariant.UpdateInv | storage/handlers.c:773-824 | every update keeps the invariant, whatever its text, accepted or not |
| EditInvariant.CloseInv | storage/handlers.c:909-913 | ending a session keeps the invariant |
| EditInvariant.CloseSessions | storage/document.c:427-435 | a document is given up only when no session is left on it |
| EditInvariant.CommitReplays | storage/handlers.c:839-880 | at a commit the sentence has the word count it had at the lock, and every queued index is valid |
| EditInvariant.OthersKeptIff | storage/document.c:381-384 | the list surgery keeps every other node exactly when there is a run or nothing behind the target |
| EditInvariant.CommitRun | storage/document.c:250-365 | the run a commit builds is in shape whatever was queued, and empty only for an empty sentence without tokens |
| EditRuns.EtirwIs | storage/handlers.c:827-920 | an ETIRW of a live session always gets to its last step; the count check alone decides on file and reply |
| EditRuns.CommitKeepsOthersIff | storage/document.c:367-386 | a commit keeps all other sentences exactly when it cuts nothing off |
| EditRuns.StepInvIff | storage/storage_server.c:205-243 | a handler call keeps the invariant exactly when its guard holds |
| EditRuns.MutualExclusion | storage/handlers.c:740-763 | over every guarded run from start-up no two sessions hold the same sentence |
| EditRuns.SessionIsWhole | storage/handlers.c:753-766 | over every guarded run a session has exactly one lock, on its own sentence, which is in its document with the word count it had at the lock; the document's users are its sessions |
| EditRuns.LockBelongsToSession | storage/locks.c:40-46 | over every guarded run a lock is the one lock of a live session: nothing stays locked when its session is over |
| EditRuns.TargetIsAlwaysFound | storage/handlers.c:846-860 | the branch for a lost sentence is never reached and the word offset is always 0 |
| EditRuns.LockedSentenceIsFrozen | storage/handlers.c:753-763 | a locked sentence keeps its words, delimiter and node over every run of the other sockets |
| EditDisk.CommitAcceptedIff | storage/handlers.c:899-906 | in every reachable state ETIRW is accepted exactly when every token is countable and an empty commit has no words behind it |
| EditDisk.SaveFileFrame | storage/handlers.c:904-905 | a save changes the file and its backup only, and the backup holds the previous text |
| EditDisk.DiskAgreesIff | storage/handlers.c:880-906 | after a commit, accepted or rejected, the file parses to the document in memory exactly when it was accepted with plain text or changed nothing |
| EditDisk.OtherAgreesIff | storage/handlers.c:904-905 | a commit keeps another open document in agreement with its file exactly unless it overwrites that file with a backup that reads differently |
| EditDisk.SyncStepIff | storage/storage_server.c:205-243 | a handler call keeps all documents in agreement with their files exactly when its guard holds |
| EditDisk.MemoryAndDiskAgree | storage/document.c:395-424 | over every guarded run a file on disk parses to its document in memory, up to the closing sentence, and no file is loaded twice |
| EditDisk.WriteLocksNth | storage/handlers.c:727-766 | a granted WRITE holds the sentence with that index in the file; a negative index means the first |
| EditWords.CommitKeepsWords | storage/document.c:262-392 | a commit keeps the words of its document, in order, whatever was queued |
| EditWords.NoWordIsLost | storage/handlers.c:880-906 | over every guarded run, whatever is queued, the words a file had are still in it, in order |
| EditWords.NoWordIsLostFromStart | storage/handlers.c:880-906 | so from start-up, for every file on disk |
| Confluence.ExpandStep | storage/handlers.c:827-920 | the expected final document is the same before and after any event |
| Confluence.RunOutcome | storage/handlers.c:773-920 | every interleaving, with any messages for other documents in between, ends in the original with each locked sentence replaced in place by what its session alone makes of it, whatever was queued; the document is given up exactly when all its sessions end; and the file is exactly that text once a commit was made, if the commits are accepted |
| Confluence.InterleavingsAgree | storage/handlers.c:773-920 | two runs in which the document's sessions send the same messages hold the document both or neither, with the same text, and leave the same file, whatever happens in other documents |
| Confluence.SafeRunIsUndisturbed | storage/handlers.c:773-920 | messages that are safe for each session alone meet all conditions in every interleaving |
| Confluence.SafeInterleavingsAgree | storage/handlers.c:773-920 | so all interleavings of such messages agree on every open document |
| Confluence.CommitMovesIndexIff | storage/handlers.c:727-730 | a commit leaves an index naming the same sentence exactly before the committed one, or behind it when the run is one sentence long |
| EditSessions.UpdateIs | storage/handlers.c:773-824 | an update is answered OK exactly for an index within the words seen or sent; then its tokens stand at that index in what the session would commit, otherwise nothing changes |
| EditSessions.UpdatesAre | storage/handlers.c:773-824 | a list of updates makes of the sentence exactly what its messages say, and touches nothing but the session |
| EditSessions.AnswersAre | storage/handlers.c:788-824 | the answers to a list of updates follow from the word count and the messages |
| EditSessions.EtirwText | storage/handlers.c:827-920 | reply, file, backup and document after a commit, by the tokens it commits |
| EditSessions.SessionWrites | storage/handlers.c:773-920 | from lock to commit: all answers, the file, its backup and the document are functions of the sentence and the messages |
| EditSessions.WholeSession | storage/handlers.c:713-920 | from start-up, for every file, sentence and list of updates: WRITE, updates and ETIRW leave exactly the edited file and its old text as `.bak`, or are rejected and leave all files alone |
| EditSessions.OutcomeOfMessages | storage/handlers.c:773-920 | in any interleaving, a session's part of the outcome is the sentence edited as its messages say |
| EditSessions.WriteReplyIs | storage/handlers.c:713-770 | which answer a WRITE gets: no document, past its end, held by somebody, or locked |
| EditSessions.IdleSocket | storage/handlers.c:773-837 | messages of a socket without a session are not answered and change nothing |
| EditLimits.SecondWriterRefusedIff | storage/locks.c:23-37 | a second WRITE for a sentence just granted is refused exactly when a lock slot was free for the first |
| EditLimits.SplitterDropsText | storage/document.c:333-351 | "a.b" parses to two sentences but is committed as one |
| EditLimits.CountersDisagree | storage/document.c:321-331 | ".b" counts as one word when queued and adds none when committed |
| EditLimits.EmptyCommitCutsDocument | storage/document.c:381-384 | from start-up, on any file: two WRITEs on an empty sentence and the next one, then an ETIRW of the first, and the rest of the list is gone, with the other session's sentence |
| EditLimits.OpenBackupDisagrees | storage/handlers.c:904-905 | from start-up, on any file whose backup reads differently: WRITE of both and ETIRW of the file, and the backup in memory differs from the backup on disk |
| SentenceList.FeedChar | storage/document.c:55-101 | one character does to the list and the word buffer what it does to the parser's state |
| SentenceList.ParseFileToList | storage/document.c:30-106 | the parser loop builds an acyclic list of new nodes that carries exactly the parse |
| SentenceList.FlushList | storage/document.c:126-153 | the walk along the list writes exactly the flushed text |
| SentenceList.CountDocWords | storage/handlers.c:864-873 | the nested walk counts the words of the document |
| SentenceList.Nth | storage/handlers.c:727-730 | the walk to a sentence by index, null past the end |
| SentenceList.CountWordsInString | storage/document.c:226-247 | the counter loop counts the tokens with a non-delimiter |
| SentenceList.ShiftRight | storage/document.c:291-293 | the shift loop moves the tail by one and keeps the head |
| SentenceList.InsertTokens | storage/document.c:285-300 | token by token, with the array doubled when full, the loop is one splice at the requested index |
| SentenceList.SpliceEdits | storage/document.c:255-302 | the array after all edits, or failure exactly on a bad index; no access is out of bounds |
| SentenceList.CloseSentence | storage/document.c:317-351 | one sentence closed at the first mark and one empty sentence per further mark |
| SentenceList.FillWords | storage/document.c:313-360 | the inner loop takes tokens without a mark as words of the sentence being filled, up to a marked one |
| SentenceList.AddMarks | storage/document.c:335-348 | the loop over the further marks adds one empty sentence for each |
| SentenceList.BuildRun | storage/document.c:304-365 | the splitting loops build an acyclic run of new nodes that carries exactly the split |
| ActiveDocument.ActiveDoc.Link | storage/document.c:381-386 | relinking gives an acyclic list: the same prefix nodes, the run, the same suffix nodes |
| ActiveDocument.ActiveDoc.Splice | storage/document.c:367-386 | the search finds the target exactly when it is in the list; no node's words or delimiter change |
| ActiveDocument.ActiveDoc.ApplySessionEdits | storage/document.c:250-392 | the whole commit on the heap refines the engine's list surgery; on a bad index nothing changes |
| StorageServer.Server.constructor | storage/storage_server.c:180-187 | start-up: all tables empty, the invariant holds |
| StorageServer.Server.FindActiveDoc | storage/storage_server.c:80-87 | the scan returns the first active slot with the name |
| StorageServer.Server.FindLock | storage/locks.c:13-20 | the scan by pointer equality finds the lock the engine finds by id |
| StorageServer.Server.CreateLock | storage/locks.c:23-37 | 0 when locked already, 1 when a slot was taken, -1 when none was free, and the table in each case |
| StorageServer.Server.ReleaseLock | storage/locks.c:40-46 | the lock's slot is freed, all others stay |
| StorageServer.Server.FindOrLoadActiveDoc | storage/document.c:395-424 | the document's slot, loaded from disk if it was not in memory |
| StorageServer.Server.ReleaseActiveDoc | storage/document.c:427-435 | one user less, and the slot freed with the last |
| StorageServer.Server.HandleClientWrite | storage/handlers.c:713-770 | the in-place handler does and answers what the engine's WRITE step says |
| StorageServer.Server.HandleWriteUpdate | storage/handlers.c:773-824 | the in-place handler does and answers what the engine's update step says |
| StorageServer.Server.HandleEtirw | storage/handlers.c:827-920 | the in-place handler, from list surgery to file and replies, does what the engine's ETIRW step says |
| StorageServer.Server.HandleClientDisconnect | storage/metadata.c:365-390 | a lost connection closes its session and leaves text alone |
| StorageServer.Server.Dispatch | storage/storage_server.c:205-243 | one turn of the event loop on the heap is one step of the engine, and keeps the invariant, and agreement with the files, exactly under their guards |
| Djb2.HashFunc | name/hash_cache.c:11-16 | the hash computed with 64-bit wrap-around falls in the bucket of the unbounded polynomial, for names of any length |
| Djb2.PolynomialOfTwo | name/hash_cache.c:11-16 | the recurrence of the hash, from 5381 with factor 33 |
| NameIndex.LookupIsScan | name/catalog.c:12-33 | whatever the cache holds, a lookup returns what a linear scan of the catalog returns, and changes only the cache |
| NameIndex.IndexIsTransparent | name/catalog.c:12-33 | the same after every guarded run from start-up |
| NameIndex.StepInv | name/handlers.c:20-78 | create, delete, move, register, disconnect and lookup keep hash keys unique and in their bucket, the map complete, and cache entries distinct and right |
| NameIndex.CreateKeepsInvIff | name/handlers.c:25-73 | CREATE keeps the index exactly when it is refused or finds a free slot |
| NameIndex.MoveKeepsInvIff | name/handlers.c:519-565 | MOVE keeps the index exactly when it is refused or no other file has the new name |
| NameIndex.RegisterKeepsInvIff | name/name_server.c:83-117 | a registration keeps the index exactly when every name it enters is new |
| NameIndex.StepInvIff | name/handlers.c:983-1091 | every request, registration or disconnect keeps the index exactly when its guard holds |
| NameLimits.FullCatalogHidesName | name/handlers.c:53-72 | after CREATE on a full catalog, deleting some file and creating the name again gives a file the scan finds and the lookup does not |
| NameLimits.NameIsHidden | name/handlers.c:53-72 | such a run from start-up |
| NameIndex.DelistInv | name/handlers.c:198-201 | removing a name from map, cache and catalog keeps the index, and the name is gone |
| NameIndex.CreateEntersName | name/handlers.c:25-73 | after CREATE the name is found in the free slot and every other name where it was |
| NameIndex.DeleteRemovesName | name/handlers.c:163-202 | after DELETE by the owner the name is gone and every other name is where it was |
| NameIndex.MoveMovesName | name/handlers.c:519-565 | after a confirmed MOVE the file is found under its new path in the same slot, no longer under the old |
| NameIndex.DisconnectDelists | name/catalog.c:66-77 | a storage server that disconnects takes exactly its own files out of the index |
| NameIndex.RenameKeepsInvIff | name/handlers.c:558-562 | a move keeps the index exactly when no other file has the new name |
| NameIndex.CatalogKeepsInvIff | name/name_server.c:89-112 | cataloguing a file keeps the index exactly when its name is new or there is no slot |
| NameIndex.BaseNameIsLastPart | name/handlers.c:548-553 | the base name is what follows the last slash |
| NameEffects.CreatorOwns | name/handlers.c:52-73 | after CREATE its user may change the file, and nobody else |
| NameEffects.CreatedOnFirst | name/handlers.c:31-57 | a created file goes when the first active storage server disconnects, and stays when another does |
| NameEffects.RegisteredAre | name/name_server.c:83-117 | a registered file is found with the owner announced for it, on its storage server, and all are found while slots are left |
| NameEffects.NewPathIs | name/handlers.c:548-556 | a moved file is named folder, slash, base name |
| NameEffects.MoveKeepsOwner | name/handlers.c:558-562 | a moved file keeps owner and storage server |
| NameEffects.ChangedIff | name/handlers.c:163-203 | a file is deleted exactly at its owner's request while its storage server is active, and moved exactly when that one also confirms |
| NameEffects.OtherFilesStay | name/handlers.c:20-570 | every request leaves the files it is not about as they are |
| NameEffects.ServersAfter | name/catalog.c:62-82 | a storage server is active from registration to disconnect, and nothing else changes that |
| NameEffects.CacheIsFifo | name/hash_cache.c:19-34 | after lookups of names it does not hold, the cache has them, latest first, before its older entries, as far as there is room |
| NameEffects.HitChangesNothing | name/catalog.c:13-18 | a hit does not reorder the cache, and an unknown name does not enter it |
| NameEffects.InvalidateOnly | name/hash_cache.c:37-43 | forgetting a name leaves all other names cached |
| NameServer.Server.constructor | name/name_server.c:173-190 | start-up: empty catalog, map and cache |
| NameServer.Server.FindFileSlot | name/catalog.c:12-33 | the two scanning loops return the linear scan's answer whenever the index is sound |
| NameServer.Server.AddToCache | name/hash_cache.c:19-34 | the shifting loop puts a new name in front and drops the oldest entry |
| NameServer.Server.InvalidateCache | name/hash_cache.c:37-43 | every entry of the name is invalid, all others stay |
| NameServer.Server.RemoveFromHashmap | name/hash_cache.c:58-74 | the first entry of the name leaves its chain |
| NameServer.Server.HandleReqCreate | name/handlers.c:20-78 | the in-place handler does what the index's create step says, on a full catalog too |
| NameServer.Server.HandleReqDelete | name/handlers.c:158-203 | the in-place handler does what the index's delete step says |
| NameServer.Server.HandleReqMove | name/handlers.c:514-570 | the in-place handler does what the index's move step says |
| NameServer.Server.HandleSsRegister | name/name_server.c:83-117 | the registration loop enters the announced files one by one |
| NameServer.Server.HandleDisconnect | name/catalog.c:62-82 | the delisting loop frees the slots of the server and forgets their names |
| NameServer.Server.Dispatch | name/handlers.c:983-1091 | every request, registration or disconnect in place is one step of the index, and keeps it exactly under the guard |
| AccessLists.GrantRefinesMap | name/handlers.c:340-361 | a grant keeps users distinct and at most 50, and sets that user's permission and no other |
| AccessLists.RevokeRefinesMap | name/handlers.c:393-404 | a revocation takes that user's permission away and no other |
| AccessLists.RevokeKeepsOrder | name/handlers.c:393-404 | the entries of other users stay, all of them and in order |
| AccessLists.AccessList.Add | name/handlers.c:340-361 | the in-place grant, refused exactly when a new user finds the list full |
| AccessLists.AccessList.Remove | name/handlers.c:393-404 | the nested removal loop ends and leaves the other entries in order |
| AccessLists.StoredGrantIff | storage/handlers.c:189-195 | a stored grant takes effect exactly for users without an entry or with the same permission |
| AccessLists.StoredRevokeIff | storage/handlers.c:207-220 | a stored revocation leaves no entry of the user exactly when there was at most one |
| AccessLists.RepeatedGrantSurvives | storage/handlers.c:182-221 | a grant repeated on the storage server still counts after a revocation |
| AccessLists.StoredAgrees | storage/handlers.c:182-221 | on lists without duplicates both servers revoke alike, and grant new users alike |
| AccessRequests.IdsStayUnique | name/handlers.c:791-826 | ids of pending requests are unique over every run |
| AccessRequests.SubmitAdds | name/handlers.c:791-826 | a request for a known file waits, as it was asked, beside all that waited before; without room or file nothing changes |
| AccessRequests.ShownIff | name/handlers.c:829-868 | an owner is shown the waiting requests for his files, all and no others |
| AccessRequests.ShownInOrder | name/handlers.c:829-868 | in queue order |
| AccessRequests.SettleIsExact | name/handlers.c:942-971 | settling removes that request only, and settling twice does nothing more |
| AccessRequests.CheckRequests | name/handlers.c:829-868 | the number announced is the number sent, though each pass's lookups change the cache; the items are the requests for the owner's files in queue order |
| AccessRequests.ApproveIsExact | name/handlers.c:871-939 | an approval succeeds exactly for a pending request about a file of the user whose list has room; it then sets that permission on that file and no other and settles the request, and otherwise changes nothing |
| AccessRequests.RequestTable.HandleRequestAccess | name/handlers.c:791-826 | a request for a file the index finds takes the first free slot under the next id |
| AccessRequests.RequestTable.HandleApprove | name/handlers.c:871-939 | the in-place handler does to queue and access lists what the approval step says, with the list of the slot the lookup finds |
| AccessRequests.RequestTable.HandleDeny | name/handlers.c:942-971 | exactly the owner's denial settles the request |
| AccessRuns.ListsStayOk | name/handlers.c:20-971 | over every guarded run of all requests the access lists of all catalog slots stay duplicate-free and within their bound |
| AccessRuns.StepPerm | name/handlers.c:20-971 | every event changes what a user may do with a file exactly as the map from files and users to permissions says; a created file starts without permissions, a moved one keeps them |
| AccessRuns.AskThenApprove | name/handlers.c:791-939 | a request waits for the owner of its file, is shown to him alone, and his approval gives that user exactly the permission asked for |
| AccessRuns.WaitingAfter | name/handlers.c:791-971 | which requests wait after any event |
| AccessRuns.ApproveIsStep | name/handlers.c:871-939 | the approval proved in place is the step of this machine |
| AccessRuns.RightsStay | name/handlers.c:323-418 | what others may do with a file stays over every run without a request of its owner |
| AccessRuns.HandleReqCreate | name/handlers.c:53-58 | CREATE in place empties the access list of its slot |
| AccessRuns.HandleAddAccess | name/handlers.c:323-372 | only the owner grants, in the list of the slot the lookup finds; the reply is exact |
| AccessRuns.HandleRemAccess | name/handlers.c:375-418 | only the owner revokes, in the list of the slot the lookup finds |
| History.TwoUndosIff | storage/handlers.c:53-179 | two undos restore the contents exactly when there is a file or no pending marker |
| History.TwoUndosRestore | storage/handlers.c:53-179 | so they do in every reachable state |
| History.RevertThenUndosIff | storage/handlers.c:428-492 | after a revert any number of undos alternates by parity between checkpoint and earlier text (empty for a missing file), exactly unless the tag is the undo marker with another text |
| History.UndoAfterCommitIff | storage/handlers.c:167-178 | undo after a commit restores the file before it exactly when no marker with another text is pending and, without a marker, there was a file or no backup |
| History.CheckpointsStay | storage/handlers.c:332-385 | no run changes a checkpoint under a tag of its own |
| History.RevertGivesCheckpoint | storage/handlers.c:332-492 | reverting to a checkpoint after any run gives the text the file had when it was taken |
| History.RefusedIsIdle | storage/handlers.c:342-353 | a checkpoint without a file or under a taken tag, and a revert to a missing one, change nothing |
| History.CommitThenUndos | storage/handlers.c:904-905 | a commit's text comes back with the second of two undos, the text before it is the backup |
| History.RestoredIsBackup | storage/handlers.c:70-110 | what a marker or a checkpoint brings back is the new backup, too; without a marker, file and backup swap |
| History.FileHistory.HandleUndo | storage/handlers.c:53-179 | the three branches of undo, step by step on the files |
| History.FileHistory.HandleRevert | storage/handlers.c:428-492 | the current text is marked before the checkpoint is read |
| Metadata.StoreRoundTrip | storage/metadata.c:69-75 | printing the records and reading the text back gives the same records |
| Metadata.StoreLooksLike | storage/metadata.c:69-75 | the text of a store, line by line |
| Metadata.FullLineLeavesNewline | storage/metadata.c:28-31 | a name that fills the buffer leaves its newline for the next line, which is then empty |
| Metadata.SaveIsUpdate | storage/metadata.c:41-62 | for a file that has a record or a name of less than 50 characters, load after save gives the saved record, unless the store was full, and any other file as it was |
| Metadata.SaveIsReliableIff | storage/metadata.c:54-62 | load after save gives the saved record, whatever the buffer held, exactly when the file has a record, or a name of less than 50 characters and room |
| Metadata.DeleteIsRemoval | storage/metadata.c:151-169 | load after delete gives the default, and any other file as it was |
| Metadata.MetadataFile.SaveFileMetadata | storage/metadata.c:20-78 | the file is the print of the updated records, and they can be read back when the name can be stored |
| Metadata.MetadataFile.LoadFileMetadata | storage/metadata.c:81-127 | owner and access list as the store has them, or the default |
| Metadata.MetadataFile.DeleteFileMetadata | storage/metadata.c:130-171 | the file holds the other records |

## Left out

- Sockets, `select`, headers, partial receives, logging and timestamps: a handler is one step with its decoded request, and its replies are values.
- A storage server's answer to a relayed request is a parameter (`confirmed`), and the current time is not modelled.
- Word nodes: a sentence's words are one sequence inside its node, not a second linked list; freed nodes are unreachable rather than deallocated.
- The edit array's own growth in a session: queued edits are a sequence.
- Hash chains: a bucket is a sequence changed by loops, not linked nodes.
- File and directory paths: a path is its file name, so names that reach one file under two spellings are not covered; NUL bytes and bytes above 127 in documents, and content or names longer than their message fields, are not modelled either.
- `handle_write_update_list` (storage/document.c:156-223), which nothing calls.
- Undo, revert, move or delete on a storage server while the file is open for editing: the code does not synchronise the loaded document.
- Heartbeat failure, recovery and replication (name/fault_tolerance.c, name/name_server.c:61-80, name/name_server.c:144-170): they bypass the index. A registration that would start recovery is modelled as an ordinary one.
- What CREATE on a full catalog overwrites: the C code writes a file before the start of the catalog. The model has the entry in the hash map, not the overwritten memory.
- Access lists that a registering storage server announces are entered on values only, not in place.
- Deleting and re-creating a file in the undo machine: the checkpoint directory outlives both.
- Text held back by `strncpy` into fixed fields.
- Metadata.StoreRoundTrip: file names and owners are single lines, two shorter than their buffers; file names do not start with white space, user names have none; at most 100 records. Other lines are read back differently or overrun the table.
- Confluence.RunOutcome: no WRITE for the same document occurs in the run, because which sentence an index names depends on what was committed before (`CommitMovesIndexIff`), and no commit cuts off sentences of it.
- The client, streaming, EXEC, viewing of checkpoints, folders and directory listings.
