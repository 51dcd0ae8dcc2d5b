# ParaQL: a verified model

ParaQL runs libSQL on a custom VFS. A file is a sequence of 4096-byte pages in an ordered
key/value store, and the database is replicated by replaying an operation log. This project
models five parts of it in Dafny and proves what they guarantee over whole runs.

- **Page store** (`Pages`, `PageTheorems`, `PageStore`, `Encryption`). `PageStore.ParaVFS` is
  the class of the VFS callbacks over byte arrays, stores and per-file batches, with the
  compression and encryption layers. Each callback is proved to act on the decoded pages as a
  function of `Pages` says, and `PageTheorems` proves what those functions mean.
- **Operation log** (`Codecs`, `Oplog`, `OplogTheorems`, `BatchFlush`, `LogOnPages`). The binary
  codec over a cursor, `_apply` as a class that interprets encoded nodes with the statements of the
  cache, and the queue of a statement. `LogOnPages` puts the log on top of the page store.
- **Native statements** (`Statements`, `Exec`). The intrusive list with its pointers rewritten
  in place, the callbacks that share it, and the loop over the statements of a script.
- **Parameter binding** (`Parameters`). Which calls are accepted, and every block that a request
  allocates, over both of its phases.
- **Handshake and statement cache** (`Handshake`, `StatementCache`).

## What the proofs found

- A sub-page write to a page with a pending write starts from the committed page, so it drops
  the pending one. `FlatExactlyWhenSuperseded` gives the exact condition on the ranges of a run
  of writes for the result to be a flat file; whole aligned pages always meet it. In a run with
  any number of syncs the committed bytes are then those of the flat file (`RunRefinesFlatFile`);
  the size is its end, rounded up, exactly when no write without bytes points beyond (`SizeExactly`).
- A growing truncate writes zero pages over pages that are pending beyond the committed end
  (`GrownPages`), so it keeps the bytes of the file exactly when those are absent or zero
  (`GrowKeepsBytesExactlyWhen`), and it ends where it should exactly when nothing is pending
  beyond the new size (`GrowEndsExactlyWhen`). A delete commits such pages (`DeleteExactly`). The
  shrinking branch always fails and changes nothing. `_xSync` and `_xDelete` fail when there is
  nothing to flush.
- Writing whole pages to an encrypted, uncompressed temporary file encrypts them in the buffer
  of the caller; `ParaVFS.XWrite` states the exact bytes that are left there.
- A cut of the log between two calls of `_apply` can do harm in three ways, each with its exact
  condition on the nodes after the cut. A `BATCH` may lose its statement: not if its `STMT` comes
  with it (`CutHarmlessExactly`). A `STMT` prepares on the view from before its call, so after an
  `EXEC` that creates what it needs it throws in the same call and not in the next
  (`CutDecides`): not if its text prepares on both views or on none (`StmtOnBothViewsExactly`). A
  cached text is not prepared again, so between replicas, whose caches differ, a `RUN` that does
  not prepare may take the place of the statement that a later `BATCH` is meant for: not if the
  `BATCH` belongs to its `STMT` with no `RUN` of another text between them
  (`CutOnEveryCacheExactly`, `FramedExactly`). Without any of these, only nodes with no `STMT` and
  no `BATCH` that can run may be cut off (`CutOnEveryViewExactly`).
- All that `flush` and `run` append is framed in that sense (`FlushFramed`), so a flush may be cut
  off from what is before it exactly if its text is cached or prepares in both calls, or in none
  (`FlushCutExactly`); it does what its runs would do exactly if it is (`FlushEqualsRunsExactly`).
- A `STMT` throws exactly if its text is neither cached nor prepares, so if it does not prepare,
  one replica may go on where another stops (`StmtOnEveryCacheExactly`).
- While a call of `_apply` writes to one view, no other view changes (`OtherViewsKept`): the view
  that a `STMT` prepares on is the same in the whole call.
- The run of the `STMT` node of a flush always fails and counts one error (`FlushEqualsRuns`).
  The promise of a local caller is settled by the first `EXEC`, `RUN` or `FLUSH` node of the call
  of `_apply`, whoever appended it (`FirstNodeSettles`). Once a batch is left open, no node is
  executed on that replica any more (`LeftoverBlocks`).
- `flush` on a statement that is not batching throws, and leaves it batching
  (`ParaQLStatement.Flush`).
- A bind that is refused never deletes the two references to its arguments, and loses one more
  block if a value is of an unsupported type (`Parameters.Bind`). All other paths free everything.
- The one semaphore of the VFS is safe exactly for at most one call in flight
  (`SafeExactlyForOneCall`). Closing a database leaves its list as it is: every statement with a
  handle still reaches a connection exactly if the database is open or all handles are finalized
  (`ReachesConnection`); `ParaQL.Close` finalizes them first.
- `prepare` returns an open statement exactly if `cacheSize` is at least 1 (`ParaQL.Prepare`).

Where the comment or the README of the repository and the code differ, the model follows the code:
the README calls `prepare` twice with the same text a cache hit, which needs `cacheSize` of 1 or more.

## What is assumed

Libraries are parameters, functions with a stated contract that nothing else is known about:

- keys of the page store are injective and ordered by name, then index, so the range of a name
  holds its pages and no others; a batch applies its operations in order; `tryPut` copies its
  value and `get` returns a fresh buffer; a put, a get or a flush of a store does not fail;
- `inflate` undoes `deflate`; the keystream depends on key, nonce and length and has that length;
  UTF-8 of the file names in use is injective, and a 64-bit integer has eight bytes;
- a `compact-encoding` codec reads back what it wrote and stops there; `any` reads undefined as
  null;
- the SQL engine is a function of text, parameters and view, where the view is everything a
  statement can read or change; time functions are excluded; a statement that no longer prepares
  fails when it is run, without changing the view, also if it was taken from the cache;
- during a call of `_apply` no other caller prepares or finalizes; between calls the cache may
  change at will;
- the texts of parameters and the names of named ones are their UTF-8 bytes, one char each;
- sqlite uses at least one character of a text that is not empty to prepare a statement.

Each work callback on the thread pool is one atomic step, and one local caller at a time uses
`_interactive`.

## Model

| member | source | states |
|---|---|---|
| PageStore.Layer.OpenSeal | lib/vfs.js:329-386 | what `_tryPut` stores, `_get` reads back, for all four settings of compression and encryption and for main and temporary files |
| PageStore.Layer.FlushDecodes | lib/vfs.js:399-410 | flushing stored values and decoding commute, and every value still decodes to one page |
| PageStore.ParaVFS.Abs | lib/vfs.js:329-410 | the decoded state of any consistent store holds whole pages, and each batch only operations of its file |
| PageStore.ParaVFS.SetView | lib/vfs.js:187-193 | the view changes only while no batch is open; otherwise nothing changes and it fails |
| PageStore.ParaVFS.Get | lib/vfs.js:329-351 | null exactly if the page is not committed, else a fresh copy of the decoded page |
| PageStore.ParaVFS.Last | lib/vfs.js:353-367 | the greatest committed index of the file, -1 if there is none |
| PageStore.ParaVFS.TryPut | lib/vfs.js:369-386 | appends one put to the batch of the file; what value it stores, packed or not, plain for the database and XORed for a temporary file of an encrypted one; exactly which bytes of the caller's buffer it overwrites |
| PageStore.ParaVFS.TryDelete | lib/vfs.js:388-397 | appends one delete to the batch of the file |
| PageStore.ParaVFS.Flush | lib/vfs.js:399-410 | commits exactly the batch of that file to the store it was opened on; fails if there is none |
| PageStore.ParaVFS.FlushedSide | lib/vfs.js:399-410 | a flush into the view or into the temporary store is a flush of their union, and keeps their files apart |
| PageStore.ParaVFS.XDelete | lib/vfs.js:412-428 | refines the delete of `Pages`, error case included |
| PageStore.ParaVFS.XAccess | lib/vfs.js:430-438 | true exactly if some page of the file is committed |
| PageStore.ParaVFS.XRead | lib/vfs.js:440-467 | for any offset and length the buffer holds the committed bytes, zeros where there is no page |
| PageStore.ParaVFS.XWrite | lib/vfs.js:469-499 | for any offset and length, one put per touched page over its committed content; the exact bytes left in the caller's buffer |
| PageStore.ParaVFS.XTruncate | lib/vfs.js:501-537 | refines the truncate of `Pages`: growth, equality, and failure without a change for shrinking |
| PageStore.ParaVFS.XSync | lib/vfs.js:539-546 | refines the sync of `Pages`, error case included |
| PageStore.ParaVFS.XSize | lib/vfs.js:548-557 | the committed size, rounded up to a page |
| PageStore.ParaVFS.Serve | lib/vfs.js:412-557 | any run of writes, syncs, deletes and truncates keeps the stored page invariant and does what the run on decoded pages says |
| PageStore.ParaVFS.ServeAll | lib/vfs.js:187-193 | any run of them and of changes of the view, over any set of views, keeps the invariant of each view and does what the run on their decoded pages says; a change is refused while a batch is open |
| PageStore.ParaVFS.OtherViewsKept | lib/vfs.js:137-193 | in such a run a view that is not pointed at keeps its pages |
| PageStore.ParaVFS.SeenRuns | lib/vfs.js:412-557 | between two changes of the view the callbacks act on the pages seen there as the run of `PageTheorems` says |
| PageStore.ParaVFS.PointSees | lib/vfs.js:187-193 | after any run, pointing at a view shows the pages of that view if no batch is open, and else does nothing |
| Encryption.ApplyTwice | lib/encryption.js:30-38 | decrypting with the same name and index undoes encrypting |
| Encryption.NonceInputsDiffer | lib/encryption.js:20-28 | two pages hash the same nonce input exactly if name and index agree |
| Encryption.ParaQLEncryption.Encrypt | lib/encryption.js:20-33 | XORs each byte of the slice with the keystream of the hashed key, name and index, in place, and leaves the rest of the buffer alone |
| Encryption.ParaQLEncryption.Decrypt | lib/encryption.js:20-38 | XORs each byte of the whole buffer with that keystream, in place |
| PageTheorems.FlushedResolves | lib/vfs.js:399-410 | after a flush each page is what the last operation on its key left |
| PageTheorems.RunKeepsOthers | lib/vfs.js:369-557 | in every run of writes, syncs, deletes and truncates a file that none of them names keeps its pages and its batch |
| PageTheorems.WritesAccumulate | lib/vfs.js:469-499 | a run of writes commits nothing and its batches hold all puts in order, all taken from the pages before the run |
| PageTheorems.LastWriteWins | lib/vfs.js:329-410 | after any run of writes to any files and a sync, each page is its old content overlaid with the slice of the last write that touched it |
| PageTheorems.FlatExactlyWhenSuperseded | lib/vfs.js:469-499 | writes of given ranges refine the flat file, for all contents, if and only if the last write of each page rewrites what earlier ones wrote there |
| PageTheorems.SyncRefinesFlatFile | lib/vfs.js:469-499 | the same in a run over many files: under that condition every byte of the synced file is the flat one |
| PageTheorems.RunRefinesFlatFile | lib/vfs.js:399-557 | at any time in a run with any number of syncs, other files seeing any callbacks, the committed bytes are the flat file of the writes synced so far, if each sync meets that condition |
| PageTheorems.SyncedAndSince | lib/vfs.js:469-546 | all writes to a file are those synced so far, then those since, in order |
| PageTheorems.RunLast | lib/vfs.js:353-367 | in such a run the last page is the old one or the last that a synced write touches |
| PageTheorems.SizeExactly | lib/vfs.js:548-557 | the size is the end of the flat file, rounded up, if and only if no unaligned write without bytes points beyond that |
| PageTheorems.NoPartialRewriteIsSuperseded | lib/vfs.js:484-491 | it is enough that every write fills a page that an earlier one touched |
| PageTheorems.AlignedIsFlat | lib/vfs.js:484-485 | runs of whole aligned pages always refine the flat file |
| PageTheorems.WriteSyncRead | lib/vfs.js:440-499 | on a clean file a write, a sync and a read return the data; every other byte and file is unchanged |
| PageTheorems.DeleteExactly | lib/vfs.js:412-428 | a delete leaves of the file just what was pending beyond its last page, touches no other file, and fails exactly if there is nothing |
| PageTheorems.DeletedExactlyWhen | lib/vfs.js:412-428 | the file is gone if and only if nothing was pending beyond its last page |
| PageTheorems.GrownPages | lib/vfs.js:501-511 | growing and syncing zeroes all pages after the last committed one, pending or not |
| PageTheorems.GrowKeepsBytesExactlyWhen | lib/vfs.js:501-511 | with anything pending, growing and syncing keeps every byte of the file if and only if the pages from the committed end to the new one are absent or zero |
| PageTheorems.GrowEndsExactlyWhen | lib/vfs.js:501-511 | the file ends at the new size, rounded up, if and only if no page is pending beyond it |
| PageTheorems.GrowThenSync | lib/vfs.js:501-511 | on a clean file growing rounds the size up to a page, keeps every byte, and the new ones are zero |
| PageTheorems.NotGrowing | lib/vfs.js:512-536 | truncating to less fails, to the same size succeeds, and neither changes anything |
| PageTheorems.LastCallback | lib/vfs.js:412-537 | after any run, what a delete, or a growing truncate and a sync, leave of each page |
| Codecs.Layout | lib/codecs.js:39-69 | the bytes of each operation: its tag in figures, then its fields in order |
| Codecs.RoundTrip | lib/codecs.js:39-105 | decoding an encoded operation followed by anything gives it back, undefined as null, and stops at its end |
| Codecs.UndecodableExactly | lib/codecs.js:70-104 | decoding fails exactly if the input ends before the fields of its tag do |
| Codecs.EncodingInjective | lib/codecs.js:39-69 | equal encodings come from operations that differ in undefined against null at most |
| Codecs.Preencode | lib/codecs.js:8-38 | reserves exactly the bytes of the encoding, through the fall-through cases |
| Codecs.Encode | lib/codecs.js:39-69 | writes exactly those bytes at the cursor, and nothing else |
| Codecs.EncodeOperation | lib/codecs.js:109-112 | what is reserved is filled exactly |
| Codecs.Decode | lib/codecs.js:70-104 | reads what the format says and leaves the cursor after it; None for truncated input |
| Oplog.Interpreter.Apply | lib/vfs.js:115-185 | the loop over encoded nodes leaves the view, writers, open files, promise and cached texts that the step function gives, and throws exactly then |
| Oplog.Interpreter.ApplyNode | lib/vfs.js:121-183 | one node through the switch with its fall-through; the statement it holds is open and was not evicted |
| Oplog.Interpreter.Prepare | index.js:117-143 | a statement, open, exactly if the text is cached or prepares; the cache moves on as its LRU order says |
| Oplog.Interpreter.Write | lib/vfs.js:187-193 | fails exactly if files are open |
| Oplog.Wire.DecodedEncoded | lib/vfs.js:122 | a node decodes to the operation it was made from, compressed or not |
| OplogTheorems.ExecReports | lib/vfs.js:137-147 | an EXEC that is first in its call leaves its effect, and resolves the promise if it succeeded, else rejects it |
| OplogTheorems.QuietNodes | lib/vfs.js:125-136 | nodes that execute nothing leave pages and batches alone and never throw; unknown ones change nothing |
| OplogTheorems.UndecodableStops | lib/vfs.js:121-122 | a node that cannot be decoded stops the call, with what was done before it |
| OplogTheorems.EveryNodeStartsClean | lib/vfs.js:137-178 | from any clean replica each node starts with no open batch and `_view` unset, and so the call ends unless it throws |
| OplogTheorems.LeftoverBlocks | lib/vfs.js:187-193 | with a batch left open no call changes the view any more, and it throws exactly if it has a node that executes |
| OplogTheorems.LastWordDecides | lib/vfs.js:125-136 | after a call that does not throw, the last node about a key decides whether it is a writer |
| OplogTheorems.JoinedSelfContained | lib/vfs.js:297-314 | self-contained units can be grouped at will |
| OplogTheorems.JoinedFramed | lib/vfs.js:297-314 | so can framed ones |
| OplogTheorems.LocalsDoNotMatter | lib/vfs.js:115-185 | on a self-contained list and the same cache the local variables and the promise have no effect on what a replica keeps |
| OplogTheorems.CacheDoesNotMatter | index.js:117-131 | on a framed list neither they nor the cached statements have, if the text of each STMT prepares on both replicas, or on none and is in no cache and no RUN |
| OplogTheorems.FramedExactly | index.js:117-131 | for all engines (over integer views), local variables, caches and views of prepare, a list has one result if and only if it is framed |
| OplogTheorems.StmtOnEveryCacheExactly | lib/vfs.js:160-166 | a STMT does the same with every cache if and only if its text prepares |
| OplogTheorems.LogCutIndependence | lib/vfs.js:115-185 | any cut into framed chunks gives every replica the view, writers and failure of the uncut log, on caches of any size and content, if the text of each STMT prepares everywhere, or nowhere and is in no cache and no RUN |
| OplogTheorems.CutHarmlessExactly | lib/vfs.js:160-178 | on one replica, with views of prepare on which the same STMT texts prepare, a cut is harmless for all coherent engines (over integer views), logs, caches and replicas if and only if the part after it is self-contained |
| OplogTheorems.StmtOnBothViewsExactly | lib/vfs.js:160-166 | a STMT does the same on the views before two calls, whatever is cached, if and only if its text prepares on both or none |
| OplogTheorems.CutOnEveryCacheExactly | index.js:117-131 | when all STMT texts prepare, a cut is harmless whatever the second call finds cached if and only if the part after it is framed |
| OplogTheorems.CutOnEveryViewExactly | lib/vfs.js:160-178 | a cut is harmless whatever the views of prepare if and only if the part after it has no STMT and no BATCH that can run |
| BatchFlush.OneMoreRun | lib/vfs.js:167-178 | the sequential reference: each run starts on the view that the one before left; sums, failures and the last rowid |
| BatchFlush.RunsTally | lib/vfs.js:148-159 | a RUN per element leaves the view of the sequential reference |
| BatchFlush.BatchesTally | lib/vfs.js:167-178 | BATCH nodes leave the same view, and count its changes, failures and last rowid |
| BatchFlush.FlushEqualsRuns | lib/vfs.js:160-182 | a flushed queue, after any nodes of its call, leaves what its runs leave, and reports their sums plus one error |
| BatchFlush.FlushUnprepared | lib/vfs.js:160-166 | if the STMT is neither cached nor prepares the call throws there, with nothing changed |
| BatchFlush.FlushEqualsRunsExactly | lib/vfs.js:148-182 | a flushed queue leaves what its runs leave if and only if its text is cached or prepares |
| BatchFlush.FlushCutExactly | lib/vfs.js:160-166 | a cut between any log and a flush is harmless if and only if the text of the flush is cached or prepares in both calls, or in none |
| BatchFlush.CutDecides | lib/vfs.js:160-166 | an input where it is not: a flush after the EXEC that creates what it needs |
| BatchFlush.FlushFramed | lib/vfs.js:297-314 | what `flush` and `run` append is framed, and so self-contained, also once it is decoded |
| BatchFlush.NodesAreOperations | lib/vfs.js:121-122 | interpreting encoded nodes is interpreting the operations |
| BatchFlush.FlushedNodesEqualRunNodes | lib/vfs.js:273-314 | the same from the bytes that `flush` and `run` append |
| BatchFlush.RunReports | lib/vfs.js:148-159 | a RUN that is first in its call reports its changes and rowid, or that it failed |
| BatchFlush.FirstNodeSettles | lib/vfs.js:137-182 | the promise is still open exactly if no EXEC, RUN or FLUSH node came before in the call |
| BatchFlush.SettledStays | lib/vfs.js:141-180 | a settled promise keeps its result |
| BatchFlush.SessionEqualsRuns | lib/statement.js:46-126 | whatever calls of batch, run and flush are made, the log leaves the view of the executed items run one by one |
| BatchFlush.SessionNodesEqualRunNodes | lib/statement.js:46-126 | the same from the encoded nodes: they leave what one encoded RUN for each executed item leaves |
| BatchFlush.ParaQLStatement.AppendedEqualsRuns | lib/vfs.js:273-314 | the same of the bytes that a statement has appended to the log so far, on any replica |
| BatchFlush.ExecutedInOrder | lib/statement.js:46-126 | executed and queued items come from the calls of run, in their order, none twice |
| BatchFlush.NothingLost | lib/statement.js:46-126 | unless batching is turned off, every item run is executed or still queued, in order |
| BatchFlush.FlushExecutesAll | lib/statement.js:58-62 | so after a flush all of them are executed and the queue is empty |
| BatchFlush.FlushNodes | lib/vfs.js:273-314 | the nodes of a flush, one by one, and their bytes |
| BatchFlush.ParaQLStatement.SetBatching | lib/statement.js:46-52 | opens the queue if there is none, or drops it; the log is left alone |
| BatchFlush.ParaQLStatement.Run | lib/statement.js:115-126 | while batching queues the item and leaves the log alone, else appends the bytes of one RUN node |
| BatchFlush.ParaQLStatement.Flush | lib/statement.js:58-62 | appends the encoded group of the queue and leaves it open and empty; not batching, it fails and appends nothing |
| LogOnPages.LogIsItsCalls | lib/vfs.js:115-193 | the pages after any nodes are the pages after their VFS callbacks in order, so no write of one node is committed by another |
| LogOnPages.OneNodeOnPages | lib/vfs.js:137-159 | an EXEC or a RUN makes the callbacks of its statement on the pages it found, and leaves what they leave |
| Statements.Db.InsertStatement | binding.c:1051-1060 | prepends, and keeps the list linked both ways |
| Statements.RemoveStatement | binding.c:1062-1074 | takes out exactly that record, keeps the order of the rest, and does nothing the second time |
| Statements.Db.FinalizeStatements | binding.c:1076-1096 | ends, detaches every record and finalizes the handles that are left, each once, in list order |
| Statements.OnceCounts | binding.c:1076-1096 | the log of finalized handles holds each closed handle exactly once |
| Statements.Binding.Prepare | binding.c:1576-1600 | a new record at the front of the list, or an error: then a handle that sqlite left is finalized, exactly once |
| Statements.Binding.Finalize | binding.c:1676-1688 | closes the handle if it is open, unlinks the record, and keeps the invariant |
| Statements.Binding.Collect | binding.c:1192-1201 | the same, and the record is freed and in no list |
| Statements.Binding.CollectDb | binding.c:1158-1167 | every record is detached, no handle is open |
| Statements.Binding.Follow | binding.c:2552-2576 | a record with a handle has a database that is not freed, and reaches a connection unless that was closed |
| Statements.Binding.Close | binding.c:1356-1371 | only the connection goes, and stays if sqlite refuses; the list and its handles are kept |
| Statements.Binding.ReachesConnection | binding.c:2552-2576 | every record with a handle reaches a connection if and only if the database is not closed or no handle is open |
| Statements.Binding.ListOwns | binding.c:1076-1096 | in every valid state the list holds all open handles, each once |
| Statements.Binding.HandleFate | binding.c:1192-1201 | a handle was finalized exactly once, or not at all while its record holds it |
| Statements.Binding.Serve | binding.c:1192-1201 | one callback of a schedule; after a finalize or a collection of a live record its handle is finalized exactly once, and a collected record is gone |
| Statements.Binding.RunAll | binding.c:1158-1201 | any schedule of the callbacks leaves the statements as the schedule on values says; each handle that is not open there was finalized exactly once, an open one never |
| Statements.OpenExactly | binding.c:1158-1201 | in every schedule a handle is open if and only if prepare gave it and no finalize or collection of the statement or the database came since, and a record is there if and only if it was not collected since |
| Statements.AfterSchedule | binding.c:1356-1600 | after any schedule, when one more callback makes a statement, frees the database or takes its connection |
| Exec.OnBeforeExec | binding.c:1445-1487 | runs the statements up to and including the first that fails; takes one handle at each turn where prepare gives one, and finalizes each exactly once; frees the text |
| Exec.EndsExactly | binding.c:1451-1484 | how a script ends, from prepare and step alone: each statement runs on the view that the one before left, the first failure ends it |
| Exec.OneStatement | binding.c:1468-1476 | a script of one statement that succeeds ends on the view that it left |
| Exec.RunIsUnique | binding.c:1451-1484 | the same text on the same view runs the same statements to the same end |
| Parameters.FindSlot | binding.c:2120-2162 | the value of a parameter, the key with the sigil first, or why it lacks one |
| Parameters.ConvertedExactly | binding.c:1814-1916 | what a value is bound as: null, an integer if it is one of 64 bits, else a double, text, a blob, or not at all |
| Parameters.AcceptableExactly | binding.c:2110-2220 | which calls are accepted: as many positional values as slots without a name, supported types, a value for each name, no unknown key |
| Parameters.WhyRefused | binding.c:2110-2220 | the reason given for a refusal is true of the call |
| Parameters.PositionalInOrder | binding.c:2124-2140 | without names, parameter i is bound to the value at index i |
| Parameters.AllKnown | binding.c:2190-2220 | true exactly if every key names a parameter, with or without its sigil |
| Parameters.AfterParse | binding.c:2073-2235 | accepts exactly the acceptable calls, fills each slot as asked, else names the first reason and frees all but what is stated |
| Parameters.ParseValue | binding.c:1814-1916 | the parameter that each type of value becomes; allocates just its blocks, and loses one for an unsupported value |
| Parameters.Cancel | binding.c:1918-1951 | frees the parsed values, both arrays and the request, each once |
| Parameters.FreeValues | binding.c:1953-1964 | frees every value of a range and its text exactly once |
| Parameters.BeforeBind | binding.c:2006-2070 | frees every value once, whether all are bound, one is refused, or the statement is finalized |
| Parameters.Bind | binding.c:1918-2311 | a whole request: the unnamed slots are bound to the positional values in order and the named ones to their keys; why a call is refused; and what stays allocated, on every path |
| Handshake.RunKeepsOne | binding.c:321-393 | with at most one call in flight the semaphore is up exactly when that call is answered, in every run |
| Handshake.SafeExactlyForOneCall | binding.c:321-467 | own statuses, no overlap and a semaphore of at most 1 hold in all interleavings if and only if at most one call is in flight |
| Handshake.OneCallReturns | binding.c:372-393 | progress: in any run with one call in flight, the steps left to a call take it home with the status of its own callback, and leave the semaphore down |
| StatementCache.RecencyOrder | index.js:117-143 | in every run of prepare and finalize the Map is ordered by last use, without repeats, within `cacheSize` |
| StatementCache.CacheIsLastTexts | index.js:117-143 | without finalize it holds exactly the last `cacheSize` distinct texts |
| StatementCache.ParaQL.KeysByLastUse | index.js:117-143 | the keys of the Map itself are in that order at any time, and not more than `cacheSize` |
| StatementCache.ParaQL.Prepare | index.js:117-143 | the statement has the text asked for, is the cached one on a hit, is open exactly if `cacheSize` is at least 1; just the first key is evicted |
| StatementCache.ParaQL.EvictFirst | index.js:136-140 | closes the least recently used statement and no other |
| StatementCache.ParaQL.Finalize | lib/statement.js:25-36 | closes once and drops its text |
| StatementCache.ParaQL.Close | index.js:64-78 | leaves no statement open |

## Left out

- Autobee, Corestore, RocksDB, Hyperbee, libSQL, zlib, libsodium and compact-encoding: not part of this model, beyond the contracts above.
- Failures of a store or of the disk: a put, get or flush that throws is not modelled.
- The loops of a shrinking `_xTruncate`: they are never reached.
- Bigint parameters, inherited properties of the object of named parameters, and keys of 256 bytes or more or with a zero byte.
- A double outside the range of int64: its cast is undefined in C; the model binds it as a double.
- Overlapping callers of `exec`, `run` and `flush`, and the timing of promises.
- Data races on the thread pool, and a prepare that outlives its database.
- The record that a failing prepare allocates and never frees: it is in no list and holds no handle.
- What sqlite does with the null handle of a closed database: `ReachesConnection` says when none is passed.
- Opening files, delete on close and temporary names, `info`, `compact`, `replicate`, key getters and error codes: plumbing.
- Reading rows with `step`, and `all`, `get` and `iterate`.
- Arrays among the parameters, which are turned into JSON text before binding.
- Oplog.Interpreter.Apply: needs a `cacheSize` of at least 1, because with less `prepare` returns a statement without a handle, and what binding to that does is not modelled.
- Exec.OnBeforeExec: one statement is stepped to its end in one go, its rows are not counted.
- Handshake.SafeExactlyForOneCall: the queue of the thread-safe functions is unbounded and unordered.
