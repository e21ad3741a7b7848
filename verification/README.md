# PeachDB in Dafny

PeachDB is a small log-structured key/value engine: an in-memory map, a write-ahead log
(`.wal`), an append-only data file (`.db`) whose records are deleted in place, and an index
of byte offsets (`.dbidx`). This project models the engine, its three file formats, the typed
values in them, the wire protocol and the connection loop, and proves how they stay in step
over whole runs, crashes included.

`dafny verify dfyconfig.toml` checks everything.

## What is modelled

- `Bytes`, `Dtypes`: fixed-width integers with Rust's `as u16`/`as u32` truncation, and typed
  fields. A decoder returns `Ok`, `Err` or `Panic`; out-of-range slices panic as in the source.
- `Format`: the three formats as functions of bytes, positions and cursors included.
  `FileImage`, `RecordMaps`: the data file as a sequence of whole records, and an index over it.
- `Layouts`, `Messages`, `Appending`, `Streams`: the same formats from the reader's side, in
  plain byte positions and numerals and without the encoders: what every decoder makes of every
  buffer, what one more piece makes of a file or a stream, where each failure comes from.
  `Opening`: which name and which three files open, for all of them, damaged ones included.
- `Codec`, `Files`, `Database`, `Protocol`, `Server`: the source's objects as classes with
  methods that update buffers, cursors, maps and files in place; each is proved against the
  functions above.
- `Engine`: the engine as a state machine with one step per file command and per in-memory
  update between two of them. `Next` is a function; whatever the code leaves open (which key a
  hash map yields next) is part of the action, so a run is a list of actions and `Exec` replays
  it. `Database.SetKey`, `DeleteKey` and `Flush` are proved to *be* such runs, command by command:
  every file records what it is made to do in one `Journal`, every change of `fields` is recorded
  there too, and the methods' contracts say which events they add in which order. So the theorems
  about runs hold of them, also when they are cut off half-way (`Journals`).
- `Concurrency`: set and delete split into a log step and a later map step, any interleaving,
  over the log file they write; one task alone is proved to be the engine.

Two invariants carry the engine. **S** (`Engine.Inv`): the data file is a header and whole
well-formed records, and every entry of every index names a whole record with exactly its
lengths, live under that key or already a tombstone. **I** (`Engine.Synced`): `fields` is the
decoded log replayed over the decoded data file.

Library behaviour is a parameter `Lib`, so all theorems hold for any CRC function, any UTF-8
predicate and any lossy decoding. Floats are 64-bit patterns, strings are byte sequences.

## What the code does that its documentation does not say

- A key that is on disk, set again, flushed, deleted and flushed is gone from memory but still
  in the data file, so the next opening brings it back with its older value, whatever order the
  flushes work in (`Copies.OverwrittenThenDeletedComesBack`; `Copies.DeletedKeyReturns` is a
  run from fresh files in which it happens). A completed flush keeps memory and files in
  agreement if and only if each net-deleted key has no live record but the one its index entry
  names (`FlushLaw.FlushKeepsSync`); without that condition `FlushLaw.ExactFlush` says what is
  left. The condition can be evaluated by scanning the data file before the flush. Over runs,
  the files stand for all operations in order at every moment if and only if each flush that
  reached the log truncation began so (`Refinement.RefinesExactly`).
- An empty key can be set and flushed but not indexed by the scanner. When the data file is
  whole, the log is readable and the index file is empty or readable, opening fails exactly when
  the index file is empty and a live record has an empty key (`Recovery.OpensExactly`). Runs
  meet those hypotheses at every moment, so over runs the condition is exact
  (`Recovery.AlwaysRecoverable`, written `Engine.Opens`), and it is reached
  (`EmptyKeys.EmptyKeyBlocksReopening`). A flush can be crashed at every one of its commands and
  reopened if and only if it leaves no live empty key (`EmptyKeys.EmptyKeyDecidesCrashes`), and
  runs that never set the empty key always open (`EmptyKeys.NamedRunsOpen`). On files that no
  run leaves, `Opening.OpensIf` says which open and how the others fail.
- Deleting an absent key answers Ok, a tombstone keeps both lengths, and
  `pop_uncommited_entries` removes nothing; README.md:225 and README.md:130 of the source say
  otherwise of the first two. The model follows the code.
- Two concurrent operations on one key can leave memory and log in disagreement
  (`Concurrency.SameKeyCanDisagree`). A run of concurrent tasks is safe at all its moments if
  and only if no append meets an operation of another effect on its key in flight
  (`Concurrency.SafeExactly`).

## Hypotheses that recur

- Keys below 2^16 bytes, payloads below 2^32 (`WfPair`, `WfEntry`): beyond that the code
  truncates lengths. Requests decoded from the wire always satisfy it (`Protocol.DecodedRequest`).
- A file stays below 2^64 bytes, as `u64` file positions demand (src/db/file.rs:20-30).

## Model

| member | source | states |
|---|---|---|
| Dtypes.BytesFromField | src/dtypes.rs:192-218 | the encoding loop appends exactly the specified bytes of the field |
| Dtypes.ReadItems | src/dtypes.rs:245-249 | the element loop, with its moving offset, reads what reading element after element from suffixes gives, errors and panics included |
| Dtypes.FieldFromBytes | src/dtypes.rs:220-254 | decoding equals the specification on every buffer: value and count, error, or panic |
| Dtypes.FieldRoundTrip | src/dtypes.rs:192-254 | encoding followed by any suffix decodes to the field and its exact length; Raw needs an empty suffix |
| Dtypes.ItemsRoundTrip | src/dtypes.rs:207-252 | arrays of variable-width elements round-trip before any suffix |
| Dtypes.RawFieldSwallowsSuffix | src/dtypes.rs:233-236 | why Raw is the exception: it takes trailing bytes into its value |
| Dtypes.FieldCanonical | src/dtypes.rs:156-254 | whatever decodes is well formed, consumed at most the buffer, re-encodes to as many bytes that decode to it again, and to the same bytes except that a boolean above 1 becomes 1: in the payload byte of a Boolean or among the elements of a Boolean array, nowhere else |
| Layouts.ByteOrder | src/db/codec.rs:49-57 | disk integers are least significant byte first, wire integers most significant first, as sums of the bytes |
| Layouts.CutToWidth | src/db/codec.rs:49-57 | writing a number keeps it modulo the width, as `as u16` and `as u32` do |
| Layouts.PrimitiveByBytes | src/dtypes.rs:156-190 | each type, on every buffer: value, width, two's complement, BufferTooShort, CorruptedRecord or panic |
| Layouts.FieldByBytes | src/dtypes.rs:31-46 | on every buffer the first byte decides the type, by number; any other byte is an unknown type |
| FileImage.ReadLayout | src/db/codec.rs:228-275 | the field-by-field reads of a record return the parts it was laid out with |
| FileImage.ImageDecodes | src/db/codec.rs:348-354 | a header followed by any live records and tombstones decodes to the last-wins map of the live ones |
| FileImage.ImageIndexes | src/db/codec.rs:647-660 | the index scanner finds the last live record of every key, or rejects the file exactly when a live key is empty |
| FileImage.AppendImage | src/db/db.rs:208-214 | appending an encoded record adds one record at the old end of the file and changes no other |
| FileImage.TombstoneImage | src/db/codec.rs:734-774 | writing a tombstone of a record's lengths at its offset replaces that record and no other |
| FileImage.ImageRecords | src/db/codec.rs:348-354 | a file is the image of one record sequence only, recovered from its bytes |
| Header.HeaderRoundTrip | src/db/codec.rs:119-137 | names up to 64 bytes without NULs at the ends round-trip with the count |
| Header.CountPatch | src/db/db.rs:257-263 | on every readable file the patch at offset 34 changes the decoded count and nothing else in header, map or scanned index |
| Layouts.HeaderByBytes | src/db/codec.rs:311-346 | on every buffer of 114 bytes or more the header is read exactly if each label place holds one of the four labels, else InvalidMagicBytes; version, count and name come from their positions |
| Layouts.ShortHeader | src/db/codec.rs:326-347 | any shorter buffer is refused, and when as a wrong label |
| Layouts.TrimIs | src/db/codec.rs:338-345 | the name loses exactly the zero bytes at its two ends |
| Layouts.HeaderLayout | src/db/codec.rs:119-137 | every byte of a new header: labels, magic, version 1.0, count, padded or cut name |
| Layouts.RecordByBytes | src/db/codec.rs:228-309 | one record on every buffer: cut short Io, strange magic InvalidMagicBytes, wrong checksum CorruptedRecord, tombstone passed unchecked, else its pair |
| Layouts.ScannedByBytes | src/db/codec.rs:564-660 | one turn of the index scanner on every buffer: checksum and payload unread, live empty key refused |
| Layouts.TombstoneByBytes | src/db/codec.rs:734-774 | a tombstone is zero but for its two lengths |
| Appending.DataAppended | src/db/codec.rs:348-354 | a readable data file with something appended: one good record adds its pair, a tombstone nothing, anything else makes the whole file fail as that piece does |
| Appending.ReadableOrFirstBad | src/db/codec.rs:348-354 | every file with a readable header is readable, or readable up to a first bad record and failing as that record does |
| Codec.PatchedRecord | src/db/codec.rs:66-83 | back-patching the checksum of the bytes hashed with a zero slot gives the finished record, after any earlier buffer contents |
| Codec.DBEncoder.EncodeDbKeyFieldPair | src/db/codec.rs:74-83 | appends one whole record to whatever the buffer holds |
| Codec.DBEncoder.EncodeDbFile | src/db/codec.rs:139-146 | header, then each map entry once in some iteration order |
| Codec.DbFileRoundTrip | src/db/codec.rs:139-146 | such a file decodes to the same map, count and name, for any checksum and any order |
| Codec.RecordRoundTrip | src/db/codec.rs:165-190 | one encoded record decodes to its pair |
| Codec.DBDecoder.DecodeDbKeyFieldPair | src/db/codec.rs:295-309 | the cursor decoder reads one record, skips checks on tombstones, and inserts the pair |
| Codec.DBDecoder.DecodeDbFile | src/db/codec.rs:348-354 | the decoder object finds exactly the specified map and metadata, or the same error or panic |
| Codec.IndexFromDBDecoder.DecodeIndexFromFile | src/db/codec.rs:647-660 | the skipping scanner object finds exactly the specified index, running past the end as the source does |
| Codec.IndexEncoder.EncodeIndexFile | src/db/codec.rs:695-700 | writes each entry once in some iteration order |
| Codec.IndexDecoder.DecodeIndexFile | src/db/codec.rs:533-538 | reads the entries back, or fails where the specification does |
| Codec.WalEncoder.EncodeWalEntry | src/db/codec.rs:408-413 | appends one tagged log entry |
| Codec.WalDecoder.DecodeWalEntries | src/db/codec.rs:467-472 | collects the entries in order, or fails where the specification does |
| Codec.DBDeleter.GetDeletedField | src/db/codec.rs:734-741 | produces the tombstone of the recorded lengths |
| IndexFile.IndexRoundTrip | src/db/codec.rs:519-538 | an index written in any order decodes to itself |
| Layouts.IndexEntryByBytes | src/db/codec.rs:499-532 | one index entry on every buffer |
| Appending.IndexAppended | src/db/codec.rs:519-538 | a readable index file with one more entry, or with a cut one |
| LogFile.LogRoundTrip | src/db/codec.rs:408-472 | an encoded log decodes to its entries |
| LogFile.LogPrefix | src/db/codec.rs:443-472 | a prefix of an encoded log decodes if and only if it ends between entries, then to exactly the entries before the cut; otherwise it is an I/O error |
| Layouts.EntryByBytes | src/db/codec.rs:443-466 | one log entry on every buffer: tag 1 or 2 and the parts behind it, any other tag UnknownDtype, cut short Io |
| Appending.LogAppended | src/db/codec.rs:467-472 | a readable log with one more good entry is one longer; with anything else it fails as that entry does |
| Appending.LogReadableOrFirstBad | src/db/codec.rs:467-472 | every log is readable, or readable up to a first bad entry and failing as that entry does |
| Scanners.ScannersAgree | src/db/codec.rs:647-660 | on every file the data decoder accepts, the index scanner accepts it exactly when no live key is empty, finds the same keys, and its offsets decode to each key and its value |
| Replay.ReplayAt | src/db/db.rs:98-103 | after replay a logged key shows its last operation and every other key is untouched |
| Replay.ReplayForgets | src/db/db.rs:98-103 | replay over maps that differ only on logged keys gives one result |
| Replay.ReplayTwice | src/db/db.rs:98-103 | replaying a log again changes nothing |
| Replay.NetInAnyOrder | src/db/db.rs:184-191 | the deduplicated operations in any order equal the whole log |
| RecordMaps.ScanSound | src/db/codec.rs:631-646 | the index a scan builds names whole live records of its own keys |
| EngineSteps.OpenRecovers | src/db/db.rs:77-118 | opening a good disk is refused exactly when the name exceeds 64 bytes, or the index must be scanned and a live key is empty; otherwise it gives the log replayed over the data file and a sound index |
| Opening.OpensIf | src/db/db.rs:77-146 | for every name and every three files: they open exactly if the name has at most 64 bytes and log, data and index are readable; the first that is not decides the failure |
| Opening.OpensTo | src/db/db.rs:51-118 | what any opening gives, key by key; a new data file starts empty without replaying the log |
| Opening.DamageIsSeen | src/db/codec.rs:276-305 | behind any readable data, a live record whose checksum does not hold makes the files fail with CorruptedRecord, and a record cut short with Io |
| Opening.NothingUnchecked | src/db/codec.rs:295-309 | every key and value taken from the data file stands there in a whole record whose checksum holds |
| Opening.BadLogIsSeen | src/db/codec.rs:460-472 | behind any readable log, an unknown tag or a cut entry keeps the files from opening |
| EngineSteps.DrainInv | src/db/db.rs:206-240 | visiting one net operation appends one record, kills one record, or does nothing, and keeps S |
| EngineSteps.WriteInv | src/db/db.rs:269-280 | rewriting the index file keeps S and leaves it decoding to the index in memory |
| EngineSteps.StepInv | src/db/db.rs:157-280 | S is kept by every step: set and delete of any key, each command of flush, crash, reopen, refused or not |
| Recovery.StepDurable | src/db/db.rs:157-280 | what the files stand for changes only when an operation is logged or the log is truncated |
| Recovery.StepSynced | src/db/db.rs:157-255 | I is kept by every step but the log truncation |
| Recovery.LoggingRun | src/db/db.rs:157-175 | sets and deletes cut off anywhere change the log file only, keep S and I, and the files stand for the operations logged so far |
| Recovery.AlwaysRecoverable | src/db/db.rs:77-118 | in every run from fresh files, with any keys and crashed anywhere, S holds; under a name of at most 64 bytes the files open if and only if nothing was written yet, there is an index file, or no live key is empty, and then to the replayed map, else with InvalidIndexEntry; a longer name is DbNameTooLong |
| Recovery.WhatCanHappen | src/db/db.rs:122-280 | at every moment of every run a crash can come, then an opening under any name; an idle engine takes any well-formed operation or a flush; a flush takes the step that is due |
| Recovery.TombstoneHitsItsOwn | src/db/db.rs:224-238 | in every run a tombstone overwrites exactly one whole record, of its own key or already dead |
| Recovery.CrashRecovery | src/db/db.rs:177-255 | from any running state with S and I, any sequence of flush commands, crashes and reopenings before the truncation leaves files that open exactly under that condition, and then to exactly the visible fields |
| Recovery.OpensExactly | src/db/db.rs:88-96 | with a whole data file, a readable log and an index file that is empty or readable, opening fails exactly on a name over 64 bytes or on an empty index file with a live empty key |
| EmptyKeys.EmptyKeyBlocksReopening | src/db/codec.rs:635-637 | a legal run from fresh files - open, set the empty key, crash inside the flush - leaves files that no opening accepts, though they still stand for the value set |
| EmptyKeys.EmptyKeyDecidesCrashes | src/db/db.rs:177-280 | a flush from a state that opens can be crashed at each of its commands and reopened if and only if the flush law leaves nothing at the empty key |
| EmptyKeys.NamedRunsOpen | src/db/db.rs:77-118 | every run from fresh files that never sets the empty key, crashed and retried anywhere, leaves files that open to what they stand for |
| EmptyKeys.NamedCrashRecovery | src/db/db.rs:177-255 | if neither records nor log set the empty key, any sequence of flush commands, crashes, reopenings and retries before the truncation leaves files that open to exactly the visible fields |
| FlushLaw.ExactFlush | src/db/db.rs:184-240 | with no hypothesis on duplicates: set keys map to their new value, untouched keys to their old one, deleted keys to their last live record other than the indexed one; the log is empty, the index file holds the index, and `fields` loses just the deleted keys that the index knew |
| FlushLaw.FlushKeepsSync | src/db/db.rs:177-255 | a completed flush keeps fields, and keeps I if and only if every deleted key had no live record but the indexed one |
| FlushLaw.FlushCounts | src/db/db.rs:257-263 | after a flush the header counts the keys of `fields`, and it counts the keys a reader of the file finds if and only if the deletions were clean; the reader then finds `fields` |
| FlushLaw.EveryCrashPointRecovers | src/db/db.rs:177-252 | whichever command of a flush was the last before the truncation, the files open unless an empty key is live without an index file, and then to the fields it started from |
| FlushRuns.FlushNeverStuck | src/db/db.rs:205-255 | from every sound idle state, every order that lists the net operations once is a legal flush, given room below 2^64 bytes, and the file grows by the records set |
| FlushIndex.FlushNames | src/db/db.rs:242-249 | after a flush the index names, per key, the new record, the old one, or none |
| FlushIndex.OrderDoesNotMatter | src/db/db.rs:205-249 | any two orders give equal decoded maps, equal fields and indexes naming equal records |
| FlushIndex.ThreeIndexesAgree | src/db/db.rs:242-280 | starting from a scanned index, a flush leaves memory and index file with one index; the scan finds it too if and only if the deletions were clean and the empty key is not set, and is refused if and only if a value is left at the empty key |
| Copies.FlushAddsCopy | src/db/db.rs:208-223 | flushing a set adds one live copy of its key and removes none |
| Copies.FlushHidesOlder | src/db/db.rs:208-249 | after a flush that sets a key, deleting it through the index would uncover exactly what the data file showed for it before |
| Copies.OverwrittenThenDeletedComesBack | src/db/db.rs:224-238 | set, flush, delete, flush, in any orders: the key is gone from memory, and the files, if they open, show for it exactly what they showed before it was set |
| Copies.DeletedKeyReturns | src/db/db.rs:157-255 | for every non-empty key and two values a legal run from fresh files - set, flush, set, flush, delete, flush - after which memory is empty and reopening gives the first value back |
| Refinement.RunRefines | src/db/db.rs:157-255 | in every run whose completed flushes began clean, whatever became of abandoned ones, files and memory always stand for the plain map of all operations in order |
| Refinement.RefinesExactly | src/db/db.rs:157-255 | in every run from fresh files, the files stand for that plain map at every moment if and only if each flush that truncated the log began with clean deletions |
| Refinement.ReopenGivesPlainMap | src/db/db.rs:98-103 | reopening after any such run, crashed anywhere, opens exactly under the condition above and returns that plain map; so does memory while it runs |
| Refinement.DeleteRevivesOlderCopy | src/db/db.rs:224-238 | the smallest file on which a deletion is not clean |
| Database.Wal.AppendEntry | src/db/wal.rs:39-49 | the entry goes to the end of the file and of the list |
| Database.Wal.ReadBack | src/db/wal.rs:50-58 | the list becomes the decoded file |
| Database.Wal.Checkpoint | src/db/wal.rs:59-64 | list and file become empty |
| Database.Wal.PopUncommittedEntries | src/db/wal.rs:65-67 | returns all entries and keeps them |
| Database.Database.Open | src/db/db.rs:122-146 | opening equals the machine's opening, errors included, writing nothing but the header of a new data file; a name over 64 bytes is refused with nothing touched |
| Database.Database.ReplayOver | src/db/db.rs:98-103 | the replay loop computes the replayed map |
| Database.Database.Get | src/db/db.rs:148-155 | returns the visible value or KeyNotFound |
| Database.Database.SetKey | src/db/db.rs:157-165 | is the run log-then-apply, legal for a well-formed operation; the log file is written before the new map is shown |
| Database.Database.DeleteKey | src/db/db.rs:167-175 | likewise; deleting an absent key is no error |
| Database.Database.Keys | src/db/db.rs:265-267 | all keys, each once, in some order |
| Database.Database.NetOf | src/db/db.rs:184-191 | the deduplication loop keeps each key's last operation |
| Database.Database.PlanDeletes | src/db/db.rs:193-204 | the plan is the index on the net deletions it knows |
| Database.Database.Flush | src/db/db.rs:177-255 | is one undisturbed flush run of the machine, its file commands one by one and in that order; from a state with S and I it keeps fields, and I exactly when its deletions were clean |
| Database.Database.RebuildIndex | src/db/db.rs:269-280 | truncates and rewrites the index file with the index in some order |
| Journals.DiskOnTheWay | src/db/db.rs:205-280 | wherever the file commands of a run without reopening are cut off, the disk is that of a beginning of the run |
| Journals.CrashInsideFlush | src/db/db.rs:177-280 | a flush cut off between any two of its file commands, before the last, leaves files that open unless a live key is empty without an index file, and then to the fields it started from |
| Journals.LoggedBeforeShown | src/db/db.rs:157-175 | sets and deletes cut off between any two events leave files that open to the map last shown, or to that with the one operation logged and not shown yet |
| Concurrency.VisibleWasLogged | src/db/db.rs:157-175 | in every interleaving, what is visible at a key was there at the start or is the effect of a logged operation on it |
| Concurrency.FieldsAreFinished | src/db/db.rs:157-175 | at every moment `fields` is the base map with the finished operations applied in the order of their updates, the log holds the appended ones, and in flight is what a task appended and did not finish |
| Concurrency.LoggedIsNotVisible | src/db/db.rs:157-163 | a key none of whose operations has finished shows its value at the start, whatever is logged |
| Concurrency.TakingTurns | src/db/db.rs:157-175 | the interleavings are exactly those in which each task appends and updates in turn |
| Concurrency.SingleTask | src/db/db.rs:157-175 | one task, cut off anywhere, is the engine: same fields, log, files and pending operation |
| Concurrency.QuiescentAgrees | src/db/db.rs:157-175 | if every append meets only operations of its own effect on its key in flight (none at all, say), then with none in flight `fields` is the replayed log |
| Concurrency.AgreesExactly | src/db/db.rs:157-175 | at any moment of any interleaving, all ways to finish the operations in flight end in agreement if and only if each leaves at its key what the log replays to there and every other key agrees already |
| Concurrency.SafeExactly | src/db/db.rs:157-175 | an interleaving is so at all of its moments if and only if each append met no operation of another effect on its key in flight |
| Concurrency.SameKeyCanDisagree | src/db/db.rs:158-163 | two tasks on one key for which they do not agree |
| Concurrency.CrashDuringTasks | src/db/db.rs:98-175 | a crash at any moment of an interleaving leaves files that open when those before it did, to the log replayed over the map the tasks started from |
| Concurrency.QuietCrash | src/db/db.rs:98-175 | with compatible appends and nothing in flight, reopening gives what memory showed |
| Protocol.RequestRoundTrip | src/server/protocol.rs:264-283 | every request within bounds decodes to itself |
| Protocol.ResponseRoundTrip | src/server/protocol.rs:285-323 | every response within bounds decodes to itself, key lists and Ok with or without value included |
| Protocol.DecodedRequest | src/server/protocol.rs:249-283 | a decoded request is within bounds, so it can be logged and its value sent back |
| Messages.RequestByBytes | src/server/protocol.rs:264-283 | every message, by number: version byte 1, command bytes 1 to 5 and what stands behind them, and each failure |
| Messages.ResponseByBytes | src/server/protocol.rs:285-323 | every message, by number: status bytes 0 to 5 and the sized payload, and each failure |
| Messages.KeyListByBytes | src/server/protocol.rs:311-322 | every key list payload: first key, then the rest, or Io |
| Protocol.FramesSplit | src/server/protocol.rs:207-213 | any concatenation of frames splits back into its messages |
| Protocol.FramesUnique | src/server/protocol.rs:207-213 | no two message lists give the same bytes |
| Protocol.ProtocolEncoder.EncodeRequest | src/server/protocol.rs:133-155 | appends the specified request |
| Protocol.ProtocolEncoder.EncodeResponse | src/server/protocol.rs:157-201 | appends the specified response |
| Protocol.ProtocolDecoder.DecodeRequestBytes | src/server/protocol.rs:264-283 | the cursor decoder returns what the specification does, on every message |
| Protocol.ProtocolDecoder.DecodeResponseBytes | src/server/protocol.rs:285-323 | likewise, with its loop over key lists |
| Server.HandleRequest | src/server/server.rs:84-106 | answers as the plain map does, changes it as the request says, and does so by engine steps |
| Server.HandleConnection | src/server/server.rs:35-76 | for every byte stream: one reply per complete frame in order, InvalidRequest for a malformed one with the map unchanged, a final ServerError for a cut body, nothing for a cut prefix, and stops at a panic; the map and the engine end where the requests lead |
| Streams.StreamByBytes | src/server/server.rs:35-76 | one turn of the loop on every stream: the four-byte length, the message, and how the loop goes on or ends |
| Streams.StreamOfFrames | src/server/server.rs:35-76 | every message of a concatenation of frames is served, in order, before whatever follows |
| Streams.StreamEnds | src/server/server.rs:35-62 | frames alone or with up to three stray bytes close quietly, an announced and cut message is CutBody, a panicking one stops the loop |
| Streams.ClientServed | src/server/server.rs:35-76 | well-formed requests sent one after the other get one reply each, in order |
| Streams.LastWriteWins | src/server/server.rs:84-106 | in every conversation a read answers with the last earlier write of its key, key lists name exactly the readable keys, each once, and writes answer Ok |
| Streams.CutBodyReply | src/server/server.rs:51-55 | a cut body is answered with one ServerError of that text |
| Server.ClientReads | src/server/server.rs:67-70 | the bytes sent split into exactly those replies and each decodes to itself |
| Server.ConnectionSurvivesCrash | src/server/server.rs:35-106 | from a state with S and I whose files open, a connection cut off after any of its log and map steps keeps S and I, and the files open to the map of the operations logged so far; the whole connection leads to the map its requests build |

## Left out

- Flush running beside set, delete or another flush: the truncation would drop entries logged after the snapshot (src/db/db.rs:179-253). Flush runs alone here, apart from crashes; the server never calls it.
- Torn writes inside one file command, fsync reordering, disk errors and channel failures: each file command is one successful atomic step.
- Runs that start with an empty data file beside a non-empty log: `Database::new` replays nothing then (src/db/db.rs:51-75), as `Opening.OpensTo` says. Runs start from three fresh files.
- Server.ClientReads: needs the values stored at the start, and the keys of the map whenever they are asked for, to fit a frame of less than 2^32 bytes, since the code truncates the length prefix; requests keep stored values so.
- Header.HeaderRoundTrip: assumes that lossy decoding leaves the padded name alone, as it does for valid UTF-8.
- Cursor positions past 2^64 and `Vec` allocation failure on huge announced lengths.
- Tokio channels, sockets, task scheduling, `main.rs`, the command-line client and the benchmark.
- The CRC polynomial, UTF-8 validation and the meaning of floats: arbitrary library functions.
- Error message texts (but for the one the server sends on a cut body), `Display`, `is_retryable`, `is_protocol_error`, `Default`, capacity hints and most `reset` methods.
