# A verified model of the postgres-rs core

postgres-rs is a PostgreSQL-compatible server in Rust. This project models its
concurrency, storage, indexing, transaction and wire-format core in Dafny and
proves what each part promises. `dafny verify dfyconfig.toml` checks everything.

The pattern is the same throughout. An operation is a function on values, and its
meaning is stated by lemmas over every input or every run. Where the program updates
an object or loops over a buffer, a class method or a method with a loop is proved
equal to that function.

**Locks.** `CycleDetection` proves the depth-first search right for every graph.
`LockTable` is the lock manager; `LockProtocol` interleaves any number of backends
that try, wait, retry, give up and release, and proves an invariant of every
reachable state.

**Buffer pool.** `BufferPool` shows that the LRU pool refines a plain page map, holds
exactly the most recently touched pages, and never does worse when it is larger.
`UnmarkedEdits` adds callers that forget `mark_dirty` and decides, over every run, which
of their edits are lost.

**Tables.** `Values`, `Numerals`, `Postings`, `ArrayText`, `IndexStore`,
`IndexLookup`, `Toast` and `PageStore` are the parts of a table. `TableState` puts them
together and proves, over every run of inserts, updates, deletes, truncates, vacuums
and index builds, that indexes, side store, pages and row positions agree with the
logical rows; `TableRuns` adds sizes, ids and kept rows. `Table` is the object. `Planner`
and `Routes` turn a WHERE filter into one of seven routes over plain, partial, expression,
multi-column and GIN indexes, and say which rows a route yields; `IndexScan` executes it,
and `ScanCases` has runs on which the result is not that of a full scan.

**Transactions.** `Transactions` follows one block through savepoints, `CommitHistory`
follows many sessions through commits, `Session` has the objects. The executor is any
deterministic function, which need not undo a statement that fails; what the WAL can
restore of a database is its logged part. It is assumed that the logged part decides what a
statement does to it and that the settings of a block are not logged.

**Parsing.** `Lexer` and `Tokenizer` are the tokenizer, `Rendering` renders a statement
tail, `Rereading` decides when it is lexed back to itself, `Spelling` says from the outside
how blanks, comments and tokens are spelled, `Precedence` is the expression
parser, and `Parentheses` shows that every printed pair is needed.

**Wire formats.** `Splitting`, `BigEndian`, `CopyText`, `CopyBinary`, `Base64`, `Scram`
and `ScramServer` cover COPY in text and binary format and SCRAM-SHA-256 (RFC 5802)
with Base64 (RFC 4648).

## Properties that turned out false

Each is kept as the code has it, with a concrete case and the exact condition.

- The one recorded lock mode of a backend covers everything it was granted, exactly
  when it does not mix SHARE with ROW EXCLUSIVE or SHARE UPDATE EXCLUSIVE while nothing
  above SHARE was granted (`RecordedModeCovers`; case `ShareHidesRowExclusive`).
- The pool shows what callers wrote exactly when no page's last edit was made unmarked in
  a clean frame, differed from the heap, and was not marked before the page left the most
  recently touched ones (`ShowsMeantExactly`; case `EditIsLost`).
- TOAST reads a row back exactly when no cell looks like a TOAST pointer
  (`ReadsBackExactly`; case `PointerShapedTextFreesChunk`).
- An array the executor writes as text is parsed back to its elements exactly when no text
  among them spells NULL, which is written without quotes (`ArrayIsReadBack`).
- An index built over existing rows, of any method, agrees with the logical rows exactly
  when it files each stored row as it would file the logical one, because the build reads
  stored cells. A B-tree files by key, a hash index by bucket and not at all when the key
  holds a NULL, BRIN by the first column, GIN by its tokens (`CreateIndexExactly`; case
  `ToastedIndexDiffers`, a toasted cell in the key; `NullHidesToast` is a hash index that
  agrees even so).
- The comments at `crates/engine/src/executor.rs:2092-2095` say an index plan can never
  give wrong rows because the filter is re-checked. It gives none that are wrong, but it
  can miss rows, miss an error or panic:
  - a comparison with a constant through a B-tree misses a kept row exactly when the index
    order does not accept what the comparison accepts, which of unlike kinds is decided by
    rank alone (`CompareYieldsExactly`, `UnlikeExactly`; cases `QuotedNumberMisses`,
    `QuotedBoundMisses`, `NumberOnTextMisses`); hash equality, IN, BETWEEN, and leading keys
    through a B-tree, miss it exactly when its value is none of those looked up
    (`PlanExactly`, `MeetsUnlike`, `LeadingExactly`);
  - comparing like with like, a kept row is missed exactly when a whole partial hash index
    answers and its key holds a NULL (`LikeYieldsExactly`; case `NullKeyDropped`);
  - the error of a filter that cannot be evaluated on some row is met exactly when such a row
    is reached (`Scan`; case `ErrorNotMet`);
  - a scan panics, by the documented contract of `BTreeMap::range`, exactly when it walks a
    B-tree range that starts after its end, or is open at both ends of one value (`Scan`;
    case `EmptyRangesPanic`: `BETWEEN 5 AND 1` and `> NULL`).
- A block accounts for its buffered statements in every run exactly when only mutations that
  succeed change the logged state, because SAVEPOINT is allowed in a failed block and other
  statements are not buffered (`BlocksAccountExactly`; cases `RevivedBlock`,
  `UnbufferedBlock`).
- The WAL restores the shared database at every moment exactly when every block that is
  published does to the shared database what it did to its own copy, because a commit
  publishes the copy whole, and no statement outside a block that fails or is no mutation
  changes the logged state, because nothing undoes or logs it (`WalRestoresExactly`; cases
  `OverlapLoses`, `UnloggedLost`). An INSERT that fails in an AFTER trigger leaves its rows
  (`crates/engine/src/executor.rs:7551-7554`), and one refused by NOT NULL or a
  `SELECT nextval` advances a sequence (`crates/engine/src/executor.rs:7857-7877`, `9746`).
- The comment at `crates/sql/src/parser.rs:4345-4349` says a rendered statement tail
  re-parses identically. It is lexed back exactly when no number runs into a dot and it
  has no quoted identifier, whose quotes are dropped (`TailRoundTrip`; cases
  `NumberSwallowsDot`, `QuotesLost`).
- NOT is parsed at the power of AND, so it takes in every operator to its right but OR; a
  sign takes in sums and products and nothing looser (`NotTakesAllButOr`,
  `SignTakesSums`, `PrefixBeforeIs`). The comment at `crates/sql/src/parser.rs:5180` calls
  NOT a prefix at that power.
- COPY text gives rows back exactly when no field is written with the delimiter, no value
  is written as the NULL marker, and each row has one line of its own that is not empty,
  not the end marker and does not end in a carriage return (`CopyTextExactly`,
  `DefaultSurvives`; cases `CopyTextLoses`).
- COPY binary gives rows back exactly when none has more than 32767 fields or a field of
  2 GiB and every value fits its column (`CopyBinaryExactly`; case `MisfitComesBack`,
  70000 becomes 4464).

## Model

| member | source | states |
|---|---|---|
| `CycleDetection.HasCycle` | crates/engine/src/lock.rs:305-344 | true exactly when the adjacency map has a directed cycle, for every map; it terminates although nodes are pushed repeatedly |
| `CycleDetection.SearchFrom` | crates/engine/src/lock.rs:312-341 | one search ends with a cycle found, or with the start black and every finished node ranked above its targets |
| `CycleDetection.RankedIsAcyclic` | crates/engine/src/lock.rs:305-344 | edges that always go down in rank form no cycle; the certificate the search leaves behind |
| `LockTable.ConflictSymmetric` | crates/engine/src/lock.rs:104-124 | the conflict table is symmetric |
| `LockTable.ConflictsExactly` | crates/engine/src/lock.rs:104-124 | which modes conflict, by number: those that add up to seven or more except SHARE with itself, SHARE UPDATE EXCLUSIVE with itself, and ROW EXCLUSIVE with SHARE |
| `LockTable.IndexOrderCovers` | crates/engine/src/lock.rs:54-124 | of two modes the one with the higher number conflicts with all the other does, except SHARE over ROW EXCLUSIVE or SHARE UPDATE EXCLUSIVE |
| `LockTable.RecordClaims` | crates/engine/src/lock.rs:224-235 | recording a grant keeps one entry per backend and leaves the entries of others alone |
| `LockTable.RecordHolder` | crates/engine/src/lock.rs:224-235 | the loop over holders computes that record |
| `LockTable.LockManager.constructor` | crates/engine/src/lock.rs:182-185 | starts with no locks |
| `LockTable.LockManager.GrantLock` | crates/engine/src/lock.rs:224-235 | the table after a grant, waiter entry removed |
| `LockTable.LockManager.Park` | crates/engine/src/lock.rs:237-242 | the table with the waiter added once |
| `LockTable.LockManager.Unpark` | crates/engine/src/lock.rs:244-252 | the table with the waiter and an empty object removed |
| `LockTable.LockManager.WaitForGraph` | crates/engine/src/lock.rs:283-299 | an edge from a waiter to each holder it conflicts with, and no other |
| `LockTable.LockManager.TryAcquireLock` | crates/engine/src/lock.rs:193-222 | grant, conflict or deadlock, and the table after each |
| `LockTable.GrantedExactly` | crates/engine/src/lock.rs:193-222 | a lock is granted exactly when no other backend holds the object in a mode whose number conflicts by that rule |
| `LockTable.LockManager.ReleaseAllLocks` | crates/engine/src/lock.rs:256-271 | every entry of the backend gone, and whether there was one |
| `LockTable.LockManager.IsLockedByOther` | crates/engine/src/lock.rs:273-281 | true exactly when another backend holds a conflicting mode |
| `LockProtocol.AcquireTurn` | crates/server/src/server.rs:1570-1612 | one turn of the acquire loop: the outcome, and the table it leaves, with NOWAIT and cancel |
| `LockProtocol.StepKeepsInv` | crates/engine/src/lock.rs:193-271 | every step of every backend keeps the invariant: consistent bookkeeping and no cycle of waits |
| `LockProtocol.RunsKeepInv` | crates/server/src/server.rs:1570-1620 | so every interleaving of any number of backends does |
| `LockProtocol.OneWaitEach` | crates/server/src/server.rs:1570-1612 | in every reachable state a backend waits at most once, and only while inside the acquire loop |
| `LockProtocol.ChainsEnd` | crates/engine/src/lock.rs:193-222 | every chain of waits ends at a backend that is not waiting or whose retry is granted |
| `LockProtocol.DeadlockExactly` | crates/engine/src/lock.rs:193-222 | deadlock is answered exactly when a blocker reaches the requester over waits, and then the table is unchanged |
| `LockProtocol.RetryNeverDeadlocks` | crates/engine/src/lock.rs:193-222 | a parked backend that retries is never told deadlock, and a conflict leaves the table unchanged |
| `LockProtocol.FanCycle` | crates/engine/src/lock.rs:305-344 | edges from one node close a cycle in an acyclic graph exactly when a target reaches that node |
| `LockProtocol.RecordedModeCovers` | crates/engine/src/lock.rs:224-235 | the recorded mode covers every mode granted since the last release exactly when SHARE was not mixed with ROW EXCLUSIVE or SHARE UPDATE EXCLUSIVE while nothing above SHARE was granted |
| `LockProtocol.GrantsExclude` | crates/engine/src/lock.rs:193-235 | without such mixing, grants held by different backends on one object never conflict, in every reachable state |
| `LockProtocol.ShareHidesRowExclusive` | crates/engine/src/lock.rs:224-235 | with it they can: a run in which two backends hold conflicting modes |
| `LockProtocol.ReleaseLeavesNothing` | crates/server/src/server.rs:1614-1620 | after release nothing in the table mentions the backend |
| `LockProtocol.SkipLockedExactly` | crates/server/src/server.rs:2101-2116 | SKIP LOCKED changes nothing when another backend holds the row in a conflicting mode, and otherwise takes the lock and nothing else |
| `BufferPool.GetPageKeeps` | crates/engine/src/disk/buffer.rs:74-85 | a hit or a miss, with any eviction, changes no page's contents and keeps the pool valid |
| `BufferPool.NewPageKeeps` | crates/engine/src/disk/buffer.rs:89-96 | a new page adds one blank page and changes no other |
| `BufferPool.MarkedEditKeeps` | crates/engine/src/disk/buffer.rs:125-129 | an edit followed by mark_dirty changes exactly that page |
| `BufferPool.FlushKeeps` | crates/engine/src/disk/buffer.rs:132-145 | flushing changes no contents and leaves the heap equal to them |
| `BufferPool.Run` | crates/engine/src/disk/buffer.rs:74-145 | after any trace the pool is valid and shows what a plain page map would hold |
| `BufferPool.FlushedHeap` | crates/engine/src/disk/buffer.rs:132-145 | a trace that ends in a flush leaves the heap equal to the plain page map |
| `BufferPool.HoldsMostRecent` | crates/engine/src/disk/buffer.rs:74-122 | after any trace the pool holds exactly the most recently touched distinct pages, as many as fit, ordered by tick |
| `BufferPool.RecencyExactly` | crates/engine/src/disk/buffer.rs:74-122 | the recency list is the pages touched, in the order of their last touches |
| `BufferPool.HitsExactly` | crates/engine/src/disk/buffer.rs:74-85 | hits and misses together count the lookups; the hits are those of a page among the `capacity` touched last |
| `BufferPool.LargerHoldsSmaller` | crates/engine/src/disk/buffer.rs:98-122 | a larger pool contains a smaller one on the same trace |
| `BufferPool.LargerHitsMore` | crates/engine/src/disk/buffer.rs:74-85 | and never has fewer hits, with the same number of accesses |
| `BufferPool.BufferManager.constructor` | crates/engine/src/disk/buffer.rs:40-49 | an empty pool of at least one page |
| `BufferPool.BufferManager.FindVictim` | crates/engine/src/disk/buffer.rs:110-114 | the frame with the smallest tick |
| `BufferPool.BufferManager.EvictOne` | crates/engine/src/disk/buffer.rs:109-122 | that frame dropped, written back first if dirty |
| `BufferPool.BufferManager.AdmitPage` | crates/engine/src/disk/buffer.rs:99-106 | the page in, one frame evicted first when full |
| `BufferPool.BufferManager.Fetch` | crates/engine/src/disk/buffer.rs:74-85 | the page asked for, the state after the access, or an error out of range |
| `BufferPool.BufferManager.Allocate` | crates/engine/src/disk/buffer.rs:89-96 | the number of a fresh page and the state with it |
| `BufferPool.BufferManager.SetDirty` | crates/engine/src/disk/buffer.rs:125-129 | the frame marked, if resident |
| `BufferPool.BufferManager.Sync` | crates/engine/src/disk/buffer.rs:132-145 | the loop over dirty frames gives the flushed state |
| `BufferPool.BufferManager.Modify` | crates/engine/src/disk/buffer.rs:74-129 | a page fetched, edited in place, and marked or not; whether it exists |
| `UnmarkedEdits.RunSteps` | crates/engine/src/disk/buffer.rs:74-145 | with unmarked edits the same pages are resident, with the same ticks, as with the touches alone |
| `UnmarkedEdits.Followed` | crates/engine/src/disk/buffer.rs:98-145 | after every run what is shown, stored and marked of each page is decided by the order of touches, without pool, tick or victim |
| `UnmarkedEdits.ShowsMeantExactly` | crates/engine/src/disk/buffer.rs:109-129 | for every run and capacity, the pool shows the meant pages exactly when no page's last edit was lost |
| `UnmarkedEdits.EditIsLost` | crates/engine/src/disk/buffer.rs:109-122 | two pages, room for one: an unmarked edit of the first is gone after reading the second |
| `PageStore.FirstFit` | crates/engine/src/storage.rs:1315-1326 | the first page with room, or the number of pages |
| `PageStore.AssignKeeps` | crates/engine/src/storage.rs:1295-1326 | placing a row keeps live counters exact, any two pages over one page size together, and an overfull page to one version |
| `PageStore.NoSaturation` | crates/engine/src/storage.rs:357-362 | the saturating subtractions never saturate |
| `PageStore.MarkDeadKeeps` | crates/engine/src/storage.rs:1302-1313 | killing a version keeps all of that |
| `PageStore.RebuildKeeps` | crates/engine/src/storage.rs:1333-1364 | a rebuild holds every live row and nothing dead |
| `PageStore.HalfFull` | crates/engine/src/storage.rs:1315-1326 | n pages, n at least two, use more than floor(n/2) page sizes |
| `Numerals.DigitsRoundTrip` | crates/engine/src/storage.rs:700-719 | a decimal number is parsed back |
| `Values.ToTextExactly` | crates/types/src/types.rs:303-312 | the text of an integer is its digits without leading zeros, after a minus sign when negative; of a boolean one letter |
| `Values.CmpEqual` | crates/engine/src/index.rs:91-141 | the index order is antisymmetric and its equality is equality |
| `Values.CmpTransitive` | crates/engine/src/index.rs:91-141 | and transitive |
| `Values.CmpTextExactly` | crates/engine/src/index.rs:91-141 | text is ordered lexicographically: a proper prefix first, or the smaller character where the texts first differ |
| `Values.CmpExactly` | crates/engine/src/index.rs:91-141 | booleans, integers, texts, NULL in this order, and each kind by its own: false before true, by size, lexicographically |
| `Values.CmpKeyEqual` | crates/engine/src/index.rs:163-179 | the same for keys of several columns |
| `Values.CmpKeyTransitive` | crates/engine/src/index.rs:163-179 | and transitive |
| `Values.CmpKeyExactly` | crates/engine/src/index.rs:163-179 | keys are ordered lexicographically, column by column |
| `ArrayText.GinTokens` | crates/engine/src/index.rs:650-701 | the tokenizer loop yields the parser's elements without NULLs, or the text itself |
| `ArrayText.ContainedIsFiled` | crates/engine/src/executor.rs:11291-11310 | an array that contains another is filed under each of its elements |
| `ArrayText.LiteralIsRead` | crates/engine/src/executor.rs:8718-8768 | a quoted array literal is parsed back to its elements |
| `ArrayText.ArrayIsReadBack` | crates/engine/src/executor.rs:8700-8768 | what the executor writes for an array, quoted or not, it parses back to the elements, exactly when no text among them spells NULL |
| `IndexStore.EmptyRepresents` | crates/engine/src/index.rs:628-640 | an empty store of each method holds no entry |
| `IndexStore.BlockOf` | crates/engine/src/index.rs:356 | a BRIN block is a run of sixteen row ids |
| `IndexStore.InsertRepresents` | crates/engine/src/index.rs:339-372 | inserting adds exactly that entry, in B-tree, hash, BRIN and GIN |
| `IndexStore.RemoveRepresents` | crates/engine/src/index.rs:374-432 | removing takes exactly that entry out |
| `IndexStore.RepresentsExactly` | crates/engine/src/index.rs:339-372 | a store that holds some entries holds others exactly when it files them alike: by key, by bucket, by first column or by tokens |
| `IndexLookup.HashKeyInjective` | crates/engine/src/index.rs:181-225 | on one column equal hash keys mean equal values |
| `IndexLookup.HashKeysCollide` | crates/engine/src/index.rs:181-225 | on two columns they need not |
| `IndexLookup.MinMax` | crates/engine/src/index.rs:242-261 | bounds attained by members that bound them all, or nothing when all are NULL |
| `IndexLookup.OverlapsNeverMisses` | crates/engine/src/index.rs:603-626 | a block range with a matching value always overlaps the query |
| `IndexLookup.InRangeExactly` | crates/engine/src/index.rs:550-601 | which values a range takes in, by the order of values and whether its ends count |
| `IndexLookup.LookupRange` | crates/engine/src/index.rs:550-601 | B-tree exact and in key order; BRIN exactly the non-NULL rows of block ranges that reach both bounds, by whichever rows; a panic, as documented for the map, exactly on an inverted B-tree range |
| `IndexLookup.LookupEq` | crates/engine/src/index.rs:440-476 | B-tree exact; hash by hash key, and so exact on one column without NULL; BRIN exactly the block ranges that straddle the value; every store without misses on keys without NULL |
| `IndexLookup.LookupPrefix` | crates/engine/src/index.rs:527-548 | exactly the rows whose key starts with the prefix, in key order |
| `IndexLookup.LookupContains` | crates/engine/src/index.rs:478-500 | exactly the rows filed under every needle |
| `IndexLookup.AllRowIds` | crates/engine/src/index.rs:502-525 | every entry, except that a hash store has none whose key holds a NULL |
| `Toast.ToastReadsBack` | crates/engine/src/storage.rs:686-736 | a row without pointer-shaped text is read back through the side store |
| `Toast.ReadsBackExactly` | crates/engine/src/storage.rs:686-736 | and only such a row |
| `Toast.StoredExactly` | crates/engine/src/storage.rs:680-702 | a text of more than 2048 bytes leaves its pointer, spelled out, and is the chunk of that id; every other cell is stored as it is |
| `Toast.PointerIdExactly` | crates/engine/src/storage.rs:715-731 | a number between the marks is a pointer exactly when it fits 64 bits, leading zeros and a plus sign allowed; without its chunk it reads as the empty text |
| `Toast.Utf8Exactly` | crates/engine/src/storage.rs:686-702 | the length of a text is one byte per character and one more from each of the codes 0x80, 0x800 and 0x10000 on |
| `Toast.ToastExtends` | crates/engine/src/storage.rs:686-702 | toasting adds fresh chunks, one per pointer it leaves, and touches no other |
| `Toast.ToastCells` | crates/engine/src/storage.rs:686-702 | the loop over cells does that |
| `Toast.FreeChunks` | crates/engine/src/storage.rs:706-712 | the loop frees exactly the chunks the row points to |
| `Toast.PointerShapedTextFreesChunk` | crates/engine/src/storage.rs:706-719 | text shaped like a pointer frees the chunk it names |
| `TableState.PushHolds` | crates/engine/src/storage.rs:748-760 | insert: indexes, side store, pages, ids and positions agree with the logical rows plus the new one |
| `TableState.UpdateHolds` | crates/engine/src/storage.rs:763-782 | update: the same with one logical row replaced |
| `TableState.DeleteHolds` | crates/engine/src/storage.rs:785-824 | delete: the same with the listed rows gone |
| `TableState.TruncateHolds` | crates/engine/src/storage.rs:826-837 | truncate: no rows, and nothing left over |
| `TableState.VacuumHolds` | crates/engine/src/storage.rs:1274-1364 | vacuum: the same rows, no dead version |
| `TableState.CreateIndexHolds` | crates/engine/src/storage.rs:1030-1046 | building an index files exactly the qualifying rows when every stored row has its logical row's key |
| `TableState.CreateIndexPlain` | crates/engine/src/storage.rs:1030-1046 | as it does while nothing is toasted |
| `TableState.CreateIndexExactly` | crates/engine/src/storage.rs:1030-1046 | for every index method, exactly when the index files each stored row as it would file the logical row |
| `TableState.ToastedIndexDiffers` | crates/engine/src/storage.rs:715-719 | a run that inserts an oversized cell and then indexes it by B-tree, hash or BRIN files the pointer |
| `TableState.NullHidesToast` | crates/engine/src/index.rs:346-350 | a hash index on that cell and a NULL one agrees all the same, since neither key is filed |
| `TableState.RunHolds` | crates/engine/src/storage.rs:617-842 | all of it after every run of these operations, partial and expression indexes included |
| `TableState.RunHalfFull` | crates/engine/src/storage.rs:1315-1326 | the first-fit bound after every run, for pages of 8192 bytes |
| `TableState.RowBytesExactly` | crates/engine/src/storage.rs:1344-1364 | the size of a row: what each kind of cell adds, the header and bitmap, rounded up to eight |
| `TableRuns.RunSized` | crates/engine/src/storage.rs:748-782 | after every run the page counters hold each row with its own size, as written or, since a vacuum, as stored |
| `TableRuns.IdsCountInserts` | crates/engine/src/storage.rs:748-760 | after every run rows are numbered from zero in the order they were inserted |
| `TableRuns.KeepExactly` | crates/engine/src/storage.rs:785-824 | a deletion keeps exactly the rows at other positions, in their order |
| `TableRuns.KindsOfStores` | crates/engine/src/index.rs:628-640 | which store each index method has; truncating keeps it |
| `TableState.IdsNotReused` | crates/engine/src/storage.rs:748-824 | a row id that is gone never comes back, however the run goes on |
| `Table.Table.constructor` | crates/engine/src/storage.rs:398-440 | an empty table |
| `Table.Table.AddToIndexes` | crates/engine/src/storage.rs:644-659 | every index with the row's entry, where the row qualifies and has a key |
| `Table.Table.RemoveFromIndexes` | crates/engine/src/storage.rs:662-675 | every index without it |
| `Table.Table.AssignLiveStorage` | crates/engine/src/storage.rs:1295-1326 | the row placed by first fit |
| `Table.Table.MarkDeadStorage` | crates/engine/src/storage.rs:1302-1313 | its version dead, its page and size forgotten |
| `Table.Table.PushRow` | crates/engine/src/storage.rs:748-760 | the state after an insert |
| `Table.Table.UpdateRow` | crates/engine/src/storage.rs:763-782 | the state after an update |
| `Table.Table.DeleteRows` | crates/engine/src/storage.rs:785-824 | the state after a delete; positions in any order, possibly repeated or none |
| `Table.Unmasked` | crates/engine/src/storage.rs:808-823 | the compaction loop keeps the other rows in order and maps each id to its new place |
| `Table.Table.Truncate` | crates/engine/src/storage.rs:826-837 | the state after a truncate |
| `Table.Table.VacuumStorage` | crates/engine/src/storage.rs:1333-1364 | the rebuilt pages, all else unchanged |
| `Planner.LikeCompares` | crates/engine/src/executor.rs:12488-12537 | on values of one kind the comparison is the index order, and flips with its operands |
| `Planner.CmpTrueExactly` | crates/engine/src/executor.rs:12488-12537 | each comparison operator by what is smaller: like kinds in the index order, text against integer by the number it spells or else as text, other kinds not at all; it flips with its operands for all kinds |
| `Planner.JudgeKeeps` | crates/engine/src/executor.rs:11015-11026 | a row is kept exactly when evaluating the filter, with NULL, short-circuiting and errors, gives TRUE |
| `Planner.JudgeExactly` | crates/engine/src/executor.rs:11015-11026 | when evaluating a filter is an error and when it gives FALSE, each said on its own |
| `Planner.PlanCovers` | crates/engine/src/executor.rs:2096-2172 | a row the filter keeps has a value its plan looks up, through AND, swapped operands, IN and BETWEEN |
| `Planner.ComparePlanned` | crates/engine/src/executor.rs:2096-2172 | a comparison of a column with a constant, either way round, has a plan that looks up exactly the values of that kind it accepts |
| `Planner.BetweenPlanned` | crates/engine/src/executor.rs:2096-2172 | so has BETWEEN |
| `Planner.InPlanned` | crates/engine/src/executor.rs:2096-2172 | IN a list of constants has a plan that looks up exactly the list |
| `Planner.ConjunctKept` | crates/engine/src/executor.rs:2297-2311 | each conjunct of a filter that is TRUE is TRUE |
| `Planner.CollectEqFacts` | crates/engine/src/executor.rs:2320-2342 | the loop collects a constant for each equated column, the first one winning |
| `Planner.FactsExactly` | crates/engine/src/executor.rs:2320-2342 | the facts are those of the first equality with a constant on each column that has one |
| `Planner.FactHolds` | crates/engine/src/executor.rs:2320-2342 | a row the filter keeps has the collected constant in that column, when it compares like with like |
| `Routes.ChoiceYields` | crates/engine/src/executor.rs:2251-2294 | for filters that compare like with like the chosen route yields a kept row exactly when it is not a whole partial hash index whose key for that row holds a NULL |
| `Routes.IndexIsUsed` | crates/engine/src/executor.rs:2251-2294 | a filter with a plan is answered by an index whenever a plain ordered or BRIN index is on its column, a containment whenever a GIN index is |
| `Routes.AdvancedIsUsed` | crates/engine/src/executor.rs:2346-2430 | so is one with the predicate of a partial index, an equality on an indexed expression, or one on the first column of a multi-column B-tree |
| `Routes.UniqueIsPreferred` | crates/engine/src/storage.rs:896-930 | a single-column plan uses a unique index when there is one, of any store for an equality and an ordered one for a range |
| `Routes.GinYields` | crates/engine/src/executor.rs:2439-2477 | a GIN route yields every row that contains the probed array |
| `Routes.AdvancedYields` | crates/engine/src/executor.rs:2346-2430 | partial, expression and multi-column routes yield every kept row, with that one exception |
| `Routes.PlanYields` | crates/engine/src/executor.rs:2266-2293 | a single-column plan yields every kept row |
| `Routes.CompareExactly` | crates/engine/src/executor.rs:2096-2172 | whatever the kinds, a B-tree yields a row that a comparison with a constant keeps exactly when the index order accepts it |
| `Routes.UnlikeExactly` | crates/engine/src/index.rs:91-141 | and of unlike kinds exactly when the ranks of the two kinds, Bool below Int below Text, are in the order the comparison asks for |
| `Routes.PlanExactly` | crates/engine/src/executor.rs:2096-2172 | comparisons, IN and BETWEEN, alone or in a conjunction: through a B-tree or a hash store the plan yields a kept row exactly when its value is one of those looked up |
| `Routes.MeetsUnlike` | crates/engine/src/executor.rs:2096-2172 | of unlike kinds equality and IN look up nothing, and a range is decided by rank |
| `Routes.LeadingExactly` | crates/engine/src/executor.rs:2411-2429 | leading equalities through a B-tree yield an indexed row exactly when it has those values in those columns |
| `IndexScan.IndexOn` | crates/engine/src/storage.rs:896-930 | the loop picks the last suitable index, or the first unique one |
| `IndexScan.FindAdvancedRoute` | crates/engine/src/executor.rs:2357-2430 | the loop over indexes takes the first that a partial predicate, an expression or leading columns match |
| `IndexScan.ChooseRoute` | crates/engine/src/executor.rs:2251-2294 | GIN containment first, then those, then the single-column plan |
| `IndexScan.LookupIds` | crates/engine/src/storage.rs:1164-1218 | exactly the ids a route lists in each store, among them every entry it finds; a panic exactly on a refused range |
| `IndexScan.IdsToPositions` | crates/engine/src/storage.rs:1291-1293 | exactly the positions of the listed rows |
| `IndexScan.Scan` | crates/engine/src/executor.rs:2251-2294 | a panic exactly when the route does, an error exactly when the filter fails on a row the route reaches, and otherwise, none twice, exactly the kept rows it reaches, those it yields among them; it is the full scan exactly when it does not panic and reaches a failing row or, when there is none, every kept row |
| `IndexScan.ReachesExactly` | crates/engine/src/executor.rs:2251-2294 | away from BRIN, every kept row is reached exactly when the route yields every kept row |
| `IndexScan.LikeYieldsExactly` | crates/engine/src/executor.rs:2346-2430 | comparing like with like, that is exactly when no kept row has a NULL in the key of a whole partial hash index |
| `IndexScan.CompareYieldsExactly` | crates/engine/src/executor.rs:2096-2172 | for a comparison with a constant through a B-tree, exactly when the index order accepts every kept row |
| `ScanCases.QuotedNumberMisses` | crates/engine/src/executor.rs:12512-12519 | after CREATE INDEX and INSERT 5, `= '5'` keeps the row and the scan misses it |
| `ScanCases.QuotedBoundMisses` | crates/engine/src/executor.rs:12512-12519 | the same for 7 and `> '5'` |
| `ScanCases.NumberOnTextMisses` | crates/engine/src/executor.rs:12512-12528 | the same for the text '5' and `= 5` |
| `ScanCases.ErrorNotMet` | crates/engine/src/executor.rs:11232-11234 | a boolean column with a B-tree, compared with 5: reading the row is an error, and the scan does not meet it |
| `ScanCases.EmptyRangesPanic` | crates/engine/src/index.rs:550-601 | on the same table `BETWEEN 5 AND 1` and `> NULL` panic |
| `ScanCases.NullKeyDropped` | crates/engine/src/index.rs:502-525 | a partial hash index answers its own predicate without the row whose key is NULL |
| `Transactions.RunConsistent` | crates/server/src/server.rs:2001-2033 | a statement keeps the block equal to its snapshot plus its buffered statements, unless it succeeds unbuffered and changes the logged state |
| `Transactions.SaveConsistent` | crates/server/src/server.rs:1915-1928 | so does a savepoint, names reused or not |
| `Transactions.BackConsistent` | crates/server/src/server.rs:1941-1958 | so does rolling back to one |
| `Transactions.BlockConsistent` | crates/server/src/server.rs:1915-1958 | so does every run of a block that takes no savepoint while failed and in which no statement that succeeds unbuffered changes the logged state |
| `Transactions.CommitReplays` | crates/server/src/server.rs:1791-1835 | for every such block, what COMMIT appends to the WAL replays from the BEGIN snapshot to what it publishes, and the write set is the union of the statements' tables |
| `Transactions.RollbackUndoes` | crates/server/src/server.rs:1915-1958 | rolling back to a savepoint that is still there restores working copy, buffer and write set, whatever came between |
| `Transactions.StackAfter` | crates/server/src/server.rs:1915-1958 | in every block, a savepoint survives ROLLBACK TO it with those before it and no later one; after RELEASE it is gone with the later ones and nothing else changes |
| `Transactions.LevelIsLast` | crates/server/src/server.rs:1667-1674 | the isolation level of a block is that of its last SET TRANSACTION that names one, or of its start |
| `Transactions.ModeIsLast` | crates/server/src/server.rs:1667-1674 | so is the access mode |
| `Transactions.ReadOnlyBuffers` | crates/server/src/server.rs:2011-2015 | a block that stays READ ONLY buffers no data mutation |
| `Transactions.BlockWritten` | crates/server/src/server.rs:2001-2033 | in every block, whatever fails or is rolled back, the write set is the tables of the buffered statements |
| `Transactions.RevivedBlock` | crates/server/src/server.rs:1915-1958 | a savepoint taken after a failure and rolled back to revives the block with what the failed statement left |
| `Transactions.UnbufferedBlock` | crates/server/src/server.rs:2001-2033 | a statement in a block that succeeds and is no mutation changes the working copy and is not buffered |
| `Transactions.BlocksAccountExactly` | crates/server/src/server.rs:1915-1958 | every block of every run, READ WRITE or READ ONLY, accounts for itself exactly when only mutations that succeed change the logged state |
| `CommitHistory.VersionsNumberCommits` | crates/engine/src/storage.rs:1962-1999 | in every run a table's version is the number of the last block commit that wrote it |
| `CommitHistory.ConflictsExactly` | crates/engine/src/storage.rs:1973-1980 | the conflict check is true exactly when a commit after the snapshot wrote one of the tables |
| `CommitHistory.BlockSince` | crates/server/src/server.rs:1667-1674 | in every run an open block is what its BEGIN made of the shared database and version at that event, taken through the commands its session sent since |
| `CommitHistory.HistoryIsEvents` | crates/server/src/server.rs:1791-1835 | the commits recorded from some moment on are the publications since |
| `CommitHistory.CommitRefusedExactly` | crates/server/src/server.rs:1791-1835 | a commit of a block that is not failed is refused exactly when its level, from its BEGIN or last SET TRANSACTION, is REPEATABLE READ or SERIALIZABLE and, since the event that began it, a block was published that wrote a table of its buffered statements |
| `CommitHistory.FirstCommitterWins` | crates/server/src/server.rs:1791-1835 | in every run no serializing commit overlaps an earlier commit that wrote one of its tables |
| `CommitHistory.ReplayWal` | crates/server/src/server.rs:2224-2240 | the replay loop skips statements that fail and counts the others; all are counted exactly when none fails, and then it replays as a block does |
| `CommitHistory.AloneRestoresExactly` | crates/server/src/server.rs:2188-2211 | after a statement outside a block the WAL still restores the database exactly when the statement is a mutation that succeeds or leaves the logged state alone |
| `CommitHistory.PublishRestoresExactly` | crates/server/src/server.rs:1819-1830 | the WAL restores a published working copy exactly when its statements, those that fail skipped, do to the shared database what they did to the snapshot |
| `CommitHistory.WalRestoresExactly` | crates/server/src/server.rs:2188-2211 | in every run the WAL restores the shared database at every moment exactly when every published block's statements do to the shared database what they did to its copy and no statement outside a block that fails or is no mutation changes the logged state |
| `CommitHistory.WalRestores` | crates/server/src/server.rs:2188-2211 | a condition that needs no replay: the WAL restores the database in every run in which nothing reaches the WAL between a BEGIN and its COMMIT, no savepoint is taken in a failed block and no statement that is not logged changes the logged state |
| `CommitHistory.OverlapLoses` | crates/server/src/server.rs:1819-1830 | two overlapping blocks: the first to commit is in the WAL and not in the database, and the WAL restores the database exactly when running the second statement after the first, failing or not, leaves the same logged state as running it by itself |
| `CommitHistory.UnloggedLost` | crates/server/src/server.rs:2188-2211 | one statement that fails or is no mutation: nothing is logged or undone, and the WAL restores the database exactly when nothing changed |
| `Session.Shared.HasConflictingCommit` | crates/engine/src/storage.rs:1973-1980 | the loop decides the conflict check |
| `Session.Shared.RecordCommit` | crates/engine/src/storage.rs:1992-1999 | the version bumped and every table of the write set stamped, no other |
| `Session.Session.BeginBlock` | crates/server/src/server.rs:1663-1704 | a block on the shared state of that moment; a nested BEGIN changes nothing |
| `Session.Session.RunInBlock` | crates/server/src/server.rs:2001-2033 | the block after a statement; the reply is an error exactly when it is then failed |
| `Session.Session.SavepointBlock` | crates/server/src/server.rs:1915-1928 | the stack with older savepoints of the name dropped and one pushed |
| `Session.Session.ReleaseBlock` | crates/server/src/server.rs:1929-1940 | the stack cut at the last savepoint of the name, or an error |
| `Session.Session.RollbackToBlock` | crates/server/src/server.rs:1941-1958 | the block as the savepoint had it, or an error |
| `Session.Session.CommitBlock` | crates/server/src/server.rs:1791-1843 | published or not, and the shared state after each |
| `Rendering.LexIsLexed` | crates/sql/src/lexer.rs:110-370 | every token the lexer produces has the expected form |
| `Rendering.CollectStatementTail` | crates/sql/src/parser.rs:4350-4368 | the tokens up to the next semicolon, joined by the spacing rule |
| `Rereading.TokenBackExactly` | crates/sql/src/parser.rs:5262-5302 | a token is lexed back from its text, when what follows does not extend it, exactly when it is not a quoted identifier |
| `Rereading.ReadTakes` | crates/sql/src/lexer.rs:110-275 | dollar quotes aside, a token takes at least as many characters to lex as to write, a quoted identifier two more, and never ends in a space |
| `Rereading.Drifts` | crates/sql/src/parser.rs:4350-4368 | a lexer that has fallen behind the rendered tokens, or has a quoted identifier to come, never reads them all |
| `Rereading.TailRoundTrip` | crates/sql/src/parser.rs:4350-4368 | lexing a rendered tail gives its tokens back exactly when no two neighbours merge and none is a quoted identifier |
| `Rereading.LexRenderLex` | crates/sql/src/lexer.rs:86-92 | the same for the tokens of any text |
| `Rendering.NumberSwallowsDot` | crates/sql/src/lexer.rs:336-360 | a digit, a dot and a word: a case where they merge |
| `Rereading.QuotesLost` | crates/sql/src/parser.rs:5262-5302 | a lone quoted identifier is rendered as its bare name, which is not lexed back |
| `Tokenizer.SkipEnd` | crates/sql/src/lexer.rs:277-319 | the loop skips white space, line comments and nested block comments |
| `Spelling.BlockExactly` | crates/sql/src/lexer.rs:293-315 | a block comment ends where its nesting closes, by a grammar of nested comments, or at the end of the text when it does not close |
| `Spelling.SkipExactly` | crates/sql/src/lexer.rs:277-319 | every text is blanks and a rest that starts with none; exactly the blanks are skipped, and a comment that is not closed |
| `Spelling.WordExactly` | crates/sql/src/lexer.rs:321-334 | a word is a letter or underscore, then letters, digits, underscores and dollar signs |
| `Spelling.NumberExactly` | crates/sql/src/lexer.rs:336-360 | a number is digits with at most one point and at most one exponent, by a grammar |
| `Spelling.EscapedIsRead` | crates/sql/src/lexer.rs:438-468 | an escape string is read back for every value, with the escapes of newline, tab, return, backspace and form feed |
| `Spelling.ParamExactly` | crates/sql/src/lexer.rs:362-370 | a parameter has the number its digits spell, or zero when that does not fit 32 bits |
| `Spelling.LexSpelled` | crates/sql/src/lexer.rs:86-275 | tokens in any of their spellings, apart by white space and then any blanks and comments, are lexed as those tokens |
| `Tokenizer.NumberEnd` | crates/sql/src/lexer.rs:336-360 | the loop ends where the number does |
| `Tokenizer.QuotedEnd` | crates/sql/src/lexer.rs:415-491 | doubled quotes stand for themselves; an unterminated literal is found out |
| `Tokenizer.EscapedEnd` | crates/sql/src/lexer.rs:438-468 | the same with backslash escapes |
| `Tokenizer.DollarEnd` | crates/sql/src/lexer.rs:393-413 | the text up to the delimiter's next occurrence |
| `Tokenizer.Tokenizer.NextToken` | crates/sql/src/lexer.rs:110-275 | the next token and the position after it |
| `Tokenizer.Tokenizer.Tokenize` | crates/sql/src/lexer.rs:86-92 | all tokens, or an error |
| `Precedence.PrintParse` | crates/sql/src/parser.rs:4399-4482 | parsing a printed tree gives the tree and goes on with what follows, at every level |
| `Precedence.ParseInvertsPrint` | crates/sql/src/parser.rs:4399-4482 | for every tree, printing with only the parentheses the powers require and parsing gives it back and consumes all tokens |
| `Precedence.TighterFirst` | crates/sql/src/parser.rs:5176-5201 | of two operators in a row the tighter class goes first, the left one within a class |
| `Precedence.PrefixTakes` | crates/sql/src/parser.rs:4511-4534 | for any operands and operator, a prefix takes the operator in exactly when it binds at least as tightly as the prefix is parsed |
| `Precedence.NotTakesAllButOr` | crates/sql/src/parser.rs:4511-4534 | NOT a op b is NOT (a op b) for every operator but OR, and (NOT a) OR b for that |
| `Precedence.SignTakesSums` | crates/sql/src/parser.rs:4511-4534 | a sign takes in +, -, *, / and %, and no other operator |
| `Precedence.PlusTakesSums` | crates/sql/src/parser.rs:4528-4531 | a leading plus gives its operand and takes in sums and products, also where only tighter operators are asked for |
| `Precedence.PrefixBeforeIs` | crates/sql/src/parser.rs:4511-4534 | NOT takes in IS NULL and IS DISTINCT FROM, negated or not; a sign takes in neither |
| `Precedence.IsAfter` | crates/sql/src/parser.rs:4399-4482 | sums, products, concatenation and JSON arrows are tested whole by IS NULL after them; of a comparison, AND or OR the right operand is |
| `Precedence.IsBefore` | crates/sql/src/parser.rs:4399-4482 | IS DISTINCT FROM takes in the former operators to its right and not the latter |
| `Parentheses.BareExactly` | crates/sql/src/parser.rs:4399-4482 | without an outer pair of parentheses an operand is parsed where it belongs exactly when it is not below the level and what follows is out of its reach |
| `Parentheses.RightPairNeeded` | crates/sql/src/parser.rs:4399-4482 | without the pair printed around a right operand another tree is parsed |
| `Parentheses.LeftPairNeeded` | crates/sql/src/parser.rs:4399-4482 | the same for a left operand |
| `Parentheses.PrefixPairNeeded` | crates/sql/src/parser.rs:4511-4534 | the same for the operand of NOT or of a sign |
| `Precedence.ParseExprBp` | crates/sql/src/parser.rs:4399-4482 | the loop with recursion computes that parse |
| `Precedence.ParsePrefixAt` | crates/sql/src/parser.rs:4511-4633 | prefix operators, literals and groups |
| `CopyText.ChainIsEscape` | crates/server/src/server.rs:1022-1026 | the four replacements in sequence escape each character once |
| `CopyText.UnescapeTextField` | crates/server/src/server.rs:1043-1061 | the loop undoes escapes |
| `CopyText.UnescapeEscape` | crates/server/src/server.rs:1010-1061 | unescaping undoes escaping |
| `CopyText.EscapesMean` | crates/server/src/server.rs:1010-1061 | which characters the escapes stand for, written and read |
| `CopyText.RowBackExactly` | crates/server/src/server.rs:1031-1041 | for any delimiter and NULL marker, a row is read back from its line exactly when no field is written with the delimiter and no value as the marker |
| `CopyText.CopyFrom` | crates/server/src/server.rs:938-973 | the loop over lines, with the end marker, carriage returns and empty lines |
| `CopyText.CopyTextExactly` | crates/server/src/server.rs:823-973 | for any delimiter, marker and rows, the payload gives the rows back exactly when each survives: clean, no value read as NULL, one line, not empty, not the end marker, no carriage return at its end |
| `CopyText.DefaultSurvives` | crates/server/src/server.rs:720-727 | with the default marker, exactly when a row has a field, is not one empty field, holds no delimiter unescaped, and is none of three shapes a line break, a carriage return or a backslash as delimiter spoils |
| `CopyText.CopyTextRoundTrip` | crates/server/src/server.rs:823-973 | with the default tab and marker, any rows of two or more nullable columns |
| `CopyText.CopyTextLoses` | crates/server/src/server.rs:823-973 | four payloads that do not come back: one empty column, a comma delimiter, a backslash delimiter, an empty marker |
| `BigEndian.SignedBytes` | crates/server/src/server.rs:2441-2460 | the bytes of an integer give it back exactly when it fits the width |
| `BigEndian.ByteAt` | crates/server/src/server.rs:1112-1133 | the most significant byte comes first |
| `CopyBinary.ValueBackExactly` | crates/server/src/server.rs:1191-1218 | a value that is not NULL is read back exactly when it fits its column |
| `CopyBinary.HeaderForm` | crates/server/src/server.rs:1108-1117 | the file starts with the signature, no flags and no extension |
| `CopyBinary.ValueForm` | crates/server/src/server.rs:2441-2460 | a boolean is one byte, an integer the bytes of its column's width, the high one first |
| `CopyBinary.RowForm` | crates/server/src/server.rs:1112-1133 | a row is its field count in two bytes, the high one first, then its fields |
| `CopyBinary.FieldForm` | crates/server/src/server.rs:1112-1133 | a field is its length in four bytes and its bytes; only NULL is the length minus one |
| `CopyBinary.TrailerForm` | crates/server/src/server.rs:1112-1133 | the file ends with a count of minus one |
| `CopyBinary.CopyBinaryExactly` | crates/server/src/server.rs:1112-1187 | rows under 32768 fields, each under 2 GiB, are always decoded, each value as it comes back; any rows come back as they were exactly when they are such rows and every value fits |
| `CopyBinary.MisfitComesBack` | crates/server/src/server.rs:1191-1218 | 70000 in a two-byte column comes back as 4464 |
| `CopyBinary.BoolComesBack` | crates/server/src/server.rs:1191-1218 | a boolean in an integer column comes back as one or zero |
| `CopyBinary.DecodeCopyBinary` | crates/server/src/server.rs:1137-1187 | the decoder's loops over the buffer, with every length check |
| `Base64.DecodeEncode` | crates/auth/src/crypto.rs:238-293 | decoding undoes encoding for every byte string |
| `Base64.EncodedForm` | crates/auth/src/crypto.rs:238-261 | four characters for every three bytes begun, with two, one or no padding characters, at the end only |
| `Base64.EncodedBits` | crates/auth/src/crypto.rs:238-261 | every group of characters is the same 24 bits as its bytes |
| `Base64.AlphabetExactly` | crates/auth/src/crypto.rs:238-261 | the alphabet |
| `Base64.DecodeAccepts` | crates/auth/src/crypto.rs:263-293 | exactly texts of alphabet characters, padding and white space are decoded, and the latter two make no difference anywhere |
| `Base64.NoComma` | crates/auth/src/crypto.rs:238-261 | Base64 text holds no comma |
| `Base64.EncodeLoop` | crates/auth/src/crypto.rs:238-261 | the loop over three-byte chunks, with padding |
| `Base64.DecodeLoop` | crates/auth/src/crypto.rs:263-293 | the loops that filter and gather digits, or an error |
| `Scram.AttrHit` | crates/auth/src/auth.rs:118-123 | an attribute is found with its whole value |
| `Scram.BareExactly` | crates/auth/src/auth.rs:45-49 | the bare part of a message is what follows its second comma, and there is none without two |
| `Scram.XorExactly` | crates/auth/src/auth.rs:90-93 | exclusive or is the one byte whose bits are set where those of the operands differ |
| `Scram.AttrSkip` | crates/auth/src/auth.rs:118-123 | attributes of other keys are passed over |
| `Scram.ProofMarked` | crates/auth/src/auth.rs:77 | the last `,p=` is the one before the proof |
| `Scram.ExchangeCompletes` | crates/auth/src/auth.rs:45-101 | whatever the hash, MAC and derivation, a client with the right password, a comma-free name and nonce is accepted and gets the signature it computed |
| `Scram.AcceptedExactly` | crates/auth/src/auth.rs:64-101 | with a collision-free hash a message is accepted exactly when it has this exchange's nonce and the one proof the password gives |
| `ScramServer.Recover` | crates/auth/src/auth.rs:90-93 | the loop computes the exclusive or |
| `ScramServer.ScramServer.constructor` | crates/auth/src/auth.rs:32-42 | a server whose nonce holds no comma |
| `ScramServer.ScramServer.First` | crates/auth/src/auth.rs:45-59 | the server-first message and the state that remembers it |
| `ScramServer.ScramServer.Final` | crates/auth/src/auth.rs:64-101 | the server-final message, or a refusal |

## Left out

- Integer widths of row ids, ticks, versions and counters: they are unbounded here. Widths that matter to a format (COPY binary, parameters, TOAST pointers) are explicit; a table is followed while its 64-bit TOAST counter has room.
- Text is a sequence of characters, not UTF-8 bytes; UTF-8 encoding and lossy decoding are parameters of COPY binary. A quoted identifier with non-ASCII bytes is lexed byte by byte in the source.
- Float and Numeric values, and mixed numeric index keys, which compare through floating point.
- Planner.CompareValues: a text is compared with an integer through a real number, without floating-point rounding. Texts such as 'nan' and 'inf', which parse as floating-point numbers, have no real number; with NaN the source's comparison is an error.
- jsonb containment over a GIN index.
- IndexScan.Scan: the panic is the one `BTreeMap::range` documents; a map that never held a key gives an empty range instead, and the model does not tell it from an emptied one.
- add_column, drop_column, constraints, uniqueness checks, sequences, grants, catalogs and settings.
- I/O errors other than a page number out of range, file formats, fsync, WAL files and torn tails.
- Sockets, startup, condition variables, timeouts: parking is retrying at any later step.
- Transactions.CommitReplays: the WAL holds statements, not their text; that serializing and parsing a statement gives it back is not part of this model.
- Statements whose effect depends on the clock or on random numbers, which replay differently.
- Two-phase commit, which publishes as COMMIT does.
- SELECT FOR UPDATE, LISTEN, NOTIFY and COPY inside a block.
- Precedence: LIKE, IN, BETWEEN, OPERATOR(), ANY and ALL, casts, subscripts, function calls, subqueries and rows.
- COPY in CSV format, COPY headers and the COPY sub-protocol messages.
- CopyBinary.DecodeCopyBinary: a panic, on a negative field count or a negative field length other than -1, counts as a failure. Of UTF-8 it is assumed that a text is read back and that one cut short by more than a character is another text.
- SHA-256, HMAC, PBKDF2 and MD5 themselves, random number generation, and host-based access rules.
- Scram: messages that are not valid UTF-8.
- Error messages: an error is the absence of a result.
