# NanaFS, verified

A Dafny model of the parts of NanaFS that are hardest to get right, with proofs about them.

- **Chunk files** (`pkg/bio`). A file is a sequence of 64 MiB chunks, and each chunk is a list of
  segments in the order they were appended. A binary tree of intervals, edited in place, is built from
  that list and asked which segment owns which bytes. Reads assemble pages from its answer, writes append
  segments, and compaction replaces a chunk's segments by one.
- **The entry tree** (`pkg/core`, `pkg/metastore`). Two tables hold entries with link counts and child
  rows; a cache of child rows with arbitrary eviction stands in front of them. Paths are resolved, entries
  are created, hard linked, renamed (with overwriting) and removed recursively.
- **The page index** (`pkg/bio/pagecache.go`). A 64-way radix tree that grows at the root.
- **The filter compiler** (`pkg/cel`, `pkg/metastore/filters`). CEL expressions become SQLite text and a
  list of arguments.
- **Two protocols** (`pkg/metastore/sql.go`). Version-checked writes of an entry's row, and workers that
  claim jobs, under every interleaving.

`dafny verify dfyconfig.toml` checks everything.

## How the proofs are built

| files | content |
|---|---|
| `Common` | what several modules share |
| `Overlay`, `SegmentTree` | last-writer-wins as a function of the list; the tree with `Cut`, `Add`, `Build`, `Query`; a closed form (`Answer`) of what the built tree says about each byte |
| `Forgetting`, `ChunkIndex` | which bytes the tree forgets, in terms of the list alone; soundness and exactness of queries |
| `RepairedTree` | the same tree with one assignment of `cut` changed, which forgets nothing; as a value, and edited in place |
| `MemCache`, `ChunkReader`, `ChunkFile` | memory blocks as sparse files; reading; writing and compaction |
| `CompactionLoss`, `CompactionRuns` | which bytes compaction may change, and two runs in which one does |
| `Paths`, `EntryTables` | Go's path functions; the tables, link counts and path resolution |
| `MetaStore`, `TreeInvariant`, `RowPaths` | the transactions; what each one keeps; the rows under a path |
| `EntryCore` | the operations on URIs, through the cache |
| `PageIndex` | the radix tree as a map |
| `CelFilter`, `FilterMeaning`, `FilterDatabase` | leaves and templates; what an expression means by itself, and what is expected of a database |
| `SqlCondition`, `FilterSql`, `FilterCompiler` | lexing, reading and meaning of conditions; the compiler |
| `VersionProtocol`, `JobClaim` | state machines over runs |

Objects that the Go code updates in place are classes. Their methods are proved against functions of a
pure snapshot (`Snapshot` of a set of nodes, the two maps of the store, the `File` of a chunk file), and
the properties are proved about those.

Some promises turn out not to hold for every input. Each is stated with the condition under which it does.

- `cut` throws away the right half of a node that ends where it cuts, with everything below it. So the
  tree can forget bytes: with segments [0,100), [10,20), [50,60), [20,30) a query of [30,50) is empty.
  `QueryExactIff` says exactly when a query is complete; `QueryExact` shows that it is for every list
  appended with non-decreasing offsets. Whatever a query does return is right for every list
  (`QuerySound`), and what was just written is always read back (`ReadBack`). One assignment is to blame:
  with the dropped half kept, the nodes stay unshared and the tree is exact for every list
  (`BuildInPlace`).
- Compaction copies what a read returns, through one buffer for all chunks. `FileKeepsIff` says for which
  segment lists it keeps every byte whatever is stored: those without a byte at risk, that is one that was
  written and forgotten, or a forgotten one that nobody wrote, behind which nothing is known of its page,
  and in whose place the buffer holds a written byte of the chunk rebuilt before. `CompactionRun` and
  `StaleRun` are a run of each kind. For a single chunk, with the zeros that the buffer is made with, only
  the first kind is left (`FreshBufferKeepsIff`); with any buffer, all of the second kind count
  (`CompactionKeepsIff`).
- A rename that passes the prefix test on clean URIs breaks the tree if the new parent is the target or a
  file, or if the new name is none, and in no other case (`TestedRenameKeepsTreeIff`, from
  `RenameKeepsTreeIff`, which needs no test). If the target's URI ends with a slash the test catches
  nothing at all (`SlashedTestMisses`).
- Creating an entry under a file, or with a name that is none, is accepted and breaks the tree;
  `CreateKeepsTreeIff` says that nothing else does. So is a hard link with a name that is none
  (`MirrorKeepsTreeIff`).
- Removing a group by a path that ends with a slash takes the group for its own parent: it removes
  everything below and then fails. `Core.RemoveEntry` says for every path what is removed and when it
  succeeds.
- A filter on `is_group`, an empty list and a function that the compiler does not know are accepted but
  leave a hole in the text. `FilterMeans` says that the text is a condition exactly when none occurs.
- Arithmetic in a filter wraps at 64 bits. `OverflowIff` says exactly when some cell can tell the argument
  from the exact value.
- The version of a row restarts at 1024 after the largest 64-bit integer, and a copy that old is then
  accepted. Below that bound no stale copy ever is.

## Model

| member | source | states |
|---|---|---|
| SegmentTree.Cut | pkg/bio/chunk.go:920-955 | after the in-place cut, what the left and right trees and every other node answer for each byte, which bytes were dropped, and that the nodes are still ordered |
| SegmentTree.Add | pkg/bio/chunk.go:960-965 | inserting one segment turns a tree that answers for a list into one that answers for the list with the segment appended |
| SegmentTree.Build | pkg/bio/chunk.go:957-967 | the tree of a list, over a hole, answers every byte as `Answer` says |
| SegmentTree.QueryShows | pkg/bio/chunk.go:893-918 | the pieces of a query are in order, disjoint, inside the window, and cover exactly the bytes that the tree answers, each with its owner and position |
| SegmentTree.QueryAnswers | pkg/bio/chunk.go:893-967 | for every list and window the pieces of a query on the built tree are exactly `Answer` |
| Forgetting.GapIff | pkg/bio/chunk.go:920-955 | the bytes that an insertion drops, found by recursion over the list, are those described by two positions in the list |
| Forgetting.AnswerUnlessForgotten | pkg/bio/chunk.go:957-967 | the tree answers each byte with its last writer, except for forgotten bytes, which it misses |
| Forgetting.NothingForgotten | pkg/bio/chunk.go:957-967 | lists with non-decreasing offsets forget nothing |
| Forgetting.LastWriterIsNewest | pkg/bio/chunk.go:957-967 | last writer means the newest listed segment that covers the byte, with the distance from its start |
| Forgetting.KnownToTheRight | pkg/bio/chunk.go:920-967 | on the way from a forgotten byte right to a known one that is not newer lies a known byte of a newer segment |
| Forgetting.KnownToTheLeft | pkg/bio/chunk.go:920-967 | and on the way left |
| ChunkIndex.QuerySound | pkg/bio/chunk.go:893-967 | for every list and window, pieces ascend, are disjoint and inside the window, and every byte of a piece carries the newest covering segment and its position in it |
| ChunkIndex.QueryExactIff | pkg/bio/chunk.go:893-967 | inside the chunk's data a query equals the last-writer overlay if and only if no byte of the window is forgotten |
| ChunkIndex.QueryExact | pkg/bio/chunk.go:893-967 | with non-decreasing offsets a query equals the overlay |
| ChunkIndex.QueryMisses | pkg/bio/chunk.go:920-955 | for a list of four segments the query of a written window is empty |
| RepairedTree.BuildIsExact | pkg/bio/chunk.go:925-928 | as a value: with the right half stored back in the node's left side, the tree names the last writer of every byte for every list |
| RepairedTree.CutInPlace | pkg/bio/chunk.go:920-955 | the repaired cut on nodes that are edited in place: the two halves share no node and are the halves of the value |
| RepairedTree.BuildInPlace | pkg/bio/chunk.go:957-967 | the loop over that cut, in place, names the last writer of every byte for every list |
| MemCache.LastWriteWins | pkg/storage/cache.go:499-511 | over every sequence of writes a byte of the sparse file is the one of the last write that covers it |
| MemCache.GapsAreZero | pkg/storage/cache.go:499-511 | bytes that no write covers are zero |
| MemCache.SizeIsLargestEnd | pkg/storage/cache.go:519-521 | the size is the largest end of a write |
| MemCache.RunWrites | pkg/storage/cache.go:482-511 | a new node after any run of writes that end within 16 MiB has exactly the contents of those three laws, and a run fails exactly if one does not |
| MemCache.ReadAfter | pkg/storage/cache.go:490-511 | reading a byte of that node returns the last write over it, or zero |
| MemCache.NewMemoryBlock | utils/memblk.go:37-45 | whichever pool is picked, the block is large enough and zero, and there is none above 16 MiB |
| MemCache.ExtendMemoryBlock | utils/memblk.go:62-82 | growth keeps the contents and fills up with zeros; beyond 16 MiB there is no block |
| MemCache.MemCacheNode.WriteAt | pkg/storage/cache.go:499-511 | the contents become those of a sparse file after the write; a write that ends beyond 16 MiB fails and loses the data |
| MemCache.MemCacheNode.ReadAt | pkg/storage/cache.go:490-497 | copies what there is from the offset on and touches nothing else; end of file at or behind the size |
| ChunkReader.SinglePiece | pkg/bio/chunk.go:311-320 | when one segment owns all that is known of the page, its stored page holds the piece, as the merged page would |
| ChunkReader.MergePage | pkg/bio/chunk.go:339-380 | the merged page holds every piece, the stored bytes of its segment or zeros for a hole; it is zero elsewhere and ends with its last piece |
| ChunkReader.LoadPage | pkg/bio/chunk.go:310-323 | a single segment's page is loaded as it is stored, any other is merged; both hold all pieces of the query |
| ChunkReader.LostBytes | pkg/bio/chunk.go:297-380 | what a read makes of a forgotten byte: zero if something is known behind it in the page, otherwise what the buffer held, or what the single segment of the page holds there |
| ChunkReader.ReadPage | pkg/bio/chunk.go:297-337 | fills its part of the buffer with the bytes of the file, and forgotten ones as `LostBytes` says; touches nothing else |
| ChunkReader.ReadChunkRange | pkg/bio/chunk.go:205-268 | the page loop does so for the whole request, once and in order |
| ChunkReader.ReadAt | pkg/bio/chunk.go:99-146 | for every segment list, returns min(len, size - off) bytes: each that is not forgotten as its last writer left it, zero where nobody wrote, and each forgotten one as `LostBytes` says; end of file at or behind the size |
| ChunkFile.AppendByte | pkg/metastore/sql.go:846-890 | appending a segment changes the bytes it covers, to its data, and no others |
| ChunkFile.SplitPages | pkg/bio/chunk.go:484-503 | the page loop puts every byte of the request into its page at its place |
| ChunkFile.SegmentFile.WriteSegData | pkg/bio/chunk.go:462-511 | one chunk's part of a write becomes one appended segment; its bytes change and no others |
| ChunkFile.SegmentFile.WriteAt | pkg/bio/chunk.go:415-460 | a write of any size at any offset changes exactly its bytes; the size becomes the larger of the old one and its end; none of its bytes is forgotten; within one chunk it appends one segment |
| ChunkFile.NewlyRemembered | pkg/bio/chunk.go:957-967 | a byte that the newest segment of its chunk covers is never forgotten |
| ChunkFile.SegmentFile.ReadBack | pkg/bio/chunk.go:99-146 | a read after a write of the same range returns what was written, for every segment list before it |
| ChunkFile.SpannedOwner | pkg/bio/chunk.go:1002-1008 | below a newest segment that spans the chunk no byte belongs to another segment |
| ChunkFile.SpannedRemembers | pkg/bio/chunk.go:1002-1008 | and the tree forgets no byte |
| ChunkFile.DropDataKeeps | pkg/bio/chunk.go:1056-1059 | deleting the data of a covered segment leaves every byte and every needed page |
| ChunkFile.DropSegKeeps | pkg/bio/chunk.go:1060-1063 | deleting its row leaves every byte, and the newest segment still spans the chunk |
| ChunkFile.SegmentFile.DeleteSegmentAndData | pkg/bio/chunk.go:1054-1066 | for any sets of segments whose data or row cannot be deleted: it succeeds exactly if no victim is in one; the list afterwards is the victims that failed, in order, and the newest; the data of every other victim is gone and no other page has changed; every byte of the file is what it was |
| ChunkFile.SegmentFile.Rebuild | pkg/bio/chunk.go:1010-1028 | appends a segment that spans the chunk and holds what a read makes of each byte |
| ChunkFile.SegmentFile.CompactChunk | pkg/bio/chunk.go:984-1033 | every byte of the chunk becomes what a read makes of it, with the buffer as it was; the buffer then holds the chunk if it was rebuilt; other chunks and their pages stay; afterwards no byte of the chunk is forgotten, and it lists what could not be deleted and one segment; it succeeds exactly if everything could be |
| ChunkFile.SegmentFile.CompactChunksData | pkg/bio/chunk.go:976-1041 | the same for the whole file, the buffer starting with zeros and keeping the chunk rebuilt last, so that no byte changes that was not forgotten; it succeeds exactly if no segment to be deleted fails, as when nothing fails at all, and then no chunk has more than one segment; each chunk ends with the failed ones and one segment |
| CompactionLoss.SoleIsNotOwner | pkg/bio/chunk.go:297-323 | the owner of a forgotten byte never owns all that is known of its page, so loading its stored page does not hide the loss |
| CompactionLoss.UnexposedKeeps | pkg/bio/chunk.go:984-1033 | without an exposed byte every outcome of compaction has every byte, for all contents and buffers |
| CompactionLoss.ExposedChanges | pkg/bio/chunk.go:984-1033 | for an exposed byte there are contents and a buffer with which every outcome changes it |
| CompactionLoss.CompactionKeepsIff | pkg/bio/chunk.go:984-1033 | for a given segment list compaction of a chunk keeps every byte for all contents and buffers if and only if no byte is exposed |
| CompactionLoss.FreshBufferKeepsIff | pkg/bio/chunk.go:1010-1032 | with the zeros that the buffer is made with: if and only if no byte was written and forgotten |
| CompactionLoss.FileKeepsIff | pkg/bio/chunk.go:976-1041 | for given segment lists CompactChunksData keeps every byte of the file for all contents if and only if no byte is at risk, with the buffer as the code has it |
| CompactionLoss.CompactSafely | pkg/bio/chunk.go:976-1041 | run on a file without a byte at risk, it changes none |
| CompactionRuns.CompactionRun | pkg/bio/chunk.go:976-1041 | after four writes of ones the byte at 30 is one, and after compaction it is zero |
| CompactionRuns.StaleRun | pkg/bio/chunk.go:976-1041 | a byte of the second chunk that nobody wrote is zero, and after compaction it is the one that the first chunk left in the buffer |
| Paths.PartsOfUri | pkg/core/core.go:264-307 | splitting a clean URI at slashes and skipping empty parts gives back its names |
| Paths.UriInjective | pkg/core/core.go:526-535 | different names give different URIs |
| Paths.DirNames | pkg/core/core.go:414-418 | for a path of names: path.Dir is the path above, or the path itself if it ends with a slash, or "." for a single relative name |
| Paths.BaseIsLast | pkg/core/core.go:500-503 | path.Base is the last name of any path |
| Paths.JoinNames | pkg/core/core.go:430-435 | path.Join with a name adds it, whatever slashes the path has |
| Paths.PrefixIsDescendant | pkg/core/core.go:547-550 | the string prefix test is exactly the strict-descendant test |
| Paths.JoinAllIsUri | pkg/core/fs.go:533-563 | joining the reversed names gives the clean URI |
| EntryTables.ZeroCountIff | pkg/metastore/sql.go:900-918 | a link count is zero exactly when no child row names the entry, so the orphan scan selects only such entries |
| EntryTables.FileCountIsLinks | pkg/metastore/sql.go:397-419 | a file's link count is the number of its hard links, in every reachable state |
| EntryTables.PathResolves | pkg/core/core.go:264-307 | the path of rows above a linked group leads back to it |
| EntryTables.PathIsOnly | pkg/core/core.go:264-307 | and it is the only path to it |
| MetaStore.SqlMetaStore.CreateEntry | pkg/metastore/sql.go:282-334 | when the transaction succeeds and the tables it leaves; of the old entries only the parent is written, and gets the next version; unchanged tables otherwise |
| MetaStore.SqlMetaStore.RemoveEntry | pkg/metastore/sql.go:352-426 | when it succeeds (a group must be empty, and the entry not its own parent) and the tables it leaves; parent and entry get the next version, no other entry changes |
| MetaStore.SqlMetaStore.MirrorEntry | pkg/metastore/sql.go:589-654 | when it succeeds and the tables it leaves; entry and new parent get the next version, no other entry changes |
| MetaStore.SqlMetaStore.ChangeEntryParent | pkg/metastore/sql.go:656-750 | when it succeeds and the tables it leaves, with the link counts of both parents; an empty new name means the old one; the target carries the new name, and it and the parents written get the next version, no other entry changes |
| TreeInvariant.CreateKeepsShape | pkg/metastore/sql.go:282-334 | creating keeps the groups a tree below the root |
| TreeInvariant.CreateKeepsCount | pkg/metastore/sql.go:282-334 | creating keeps every link count equal to the links in the rows |
| TreeInvariant.MirrorKeepsCount | pkg/metastore/sql.go:589-654 | so does hard linking |
| TreeInvariant.RemoveNotBelowZero | pkg/metastore/sql.go:397-419 | the clamp at zero is never reached |
| TreeInvariant.RemoveKeepsCount | pkg/metastore/sql.go:352-426 | removing keeps the link counts right |
| TreeInvariant.MoveGroupKeepsShape | pkg/metastore/sql.go:656-750 | moving a group to outside itself keeps the groups a tree, with the depths of its whole subtree shifted |
| TreeInvariant.MoveFileKeepsShape | pkg/metastore/sql.go:656-750 | moving a file does |
| TreeInvariant.MoveKeepsCount | pkg/metastore/sql.go:656-750 | moving keeps the link counts right, even of a group into itself |
| EntryCore.Core.FindEntry | pkg/core/core.go:643-656 | with arbitrary eviction the cached answer is the row in the table |
| EntryCore.Core.GetEntryByPath | pkg/core/core.go:264-307 | for every path, resolution through the cache equals resolution over the rows, for the entry and its parent, and fails exactly when that does |
| EntryCore.Core.CreateEntry | pkg/core/core.go:309-356 | for every parent path, exactly when it succeeds; one new row and one new entry with that name and version 1, the parent's version raised and no other entry changed; cache right, and invariants kept under a group and with a proper name |
| EntryCore.CreateKeepsTreeIff | pkg/core/core.go:309-337 | a create leaves well-formed tables if and only if the parent is a group and the name a name |
| EntryCore.Core.MirrorEntry | pkg/core/core.go:482-513 | for all paths, exactly when it succeeds and the rows it leaves; versions of the file and the new parent raised and no other entry changed; cache right, and invariants kept with a proper name |
| EntryCore.MirrorKeepsTreeIff | pkg/core/core.go:482-513 | a hard link leaves well-formed tables if and only if its name is a name |
| EntryCore.Core.RemoveEntry | pkg/core/core.go:402-448 | for every path: ends on every well-formed tree; succeeds exactly for an existing entry whose parent path.Dir gives, and that is empty or removed with all its contents; then deletes the rows under the path and no others; a failure changes nothing, unless the path ends with a slash, when all below it is deleted; link counts of files linked from elsewhere stay right |
| EntryCore.Core.ChangeEntryParent | pkg/core/core.go:515-611 | on clean URIs, for every new parent and name: exactly when a rename succeeds, with and without overwriting, and the rows it leaves; the target carries the new name; cache right, and tree and counts kept when the new parent is a group other than the target and the name is a name |
| EntryCore.RenameKeepsTreeIff | pkg/metastore/sql.go:656-750 | the transaction of a rename leaves a tree if and only if the new parent is a group neither at nor below the target and the new name is a name |
| EntryCore.TestedRenameKeepsTreeIff | pkg/core/core.go:547-606 | on clean URIs a rename that passes the prefix test goes through, and leaves a tree if and only if the new parent is a group other than the target and the new name is a name |
| EntryCore.SlashedTestMisses | pkg/core/core.go:547-550 | if the target's URI ends with a slash, the test never holds, while the path still leads to the target |
| EntryCore.SelfMoveBreaks | pkg/core/core.go:547-606 | with the target as new parent the transaction goes through and no path leads to the group any more |
| EntryCore.SelfMoveCounts | pkg/metastore/sql.go:656-750 | and the link counts stay right all the same |
| EntryCore.OverwriteKeepsPath | pkg/core/core.go:562-601 | removing the entry in the way changes neither the path of the target nor that of the new parent |
| EntryCore.Core.CreateNamespace | pkg/core/core.go:187-226 | exactly when it succeeds; keeps all rows and the invariants; on success exactly the root group and the two built-in groups are new |
| EntryCore.Core.ProbableEntryPath | pkg/core/fs.go:533-563 | the walk up ends, and for a linked entry and any choice of parent rows the path it prints resolves to the entry |
| PageIndex.ParentFinds | pkg/bio/pagecache.go:191-200 | a new root over the old one changes no lookup |
| PageIndex.LookHung | pkg/bio/pagecache.go:117-131 | a new inner node changes no lookup; a new page is found under its own index and no other |
| PageIndex.PageCache.FindPage | pkg/bio/pagecache.go:153-178 | finds the page of the map, or nothing |
| PageIndex.PageCache.MaxShift | pkg/bio/pagecache.go:186-190 | the smallest level that reaches the index |
| PageIndex.PageCache.ExtendPageTree | pkg/bio/pagecache.go:180-201 | every lookup is kept, the index is in reach, and the root is at most one level higher than it must be |
| PageIndex.PageCache.InsertPage | pkg/bio/pagecache.go:102-135 | the map gains the page and keeps all others; the count is the size of the map |
| PageIndex.PageCache.GetPage | pkg/bio/pagecache.go:75-85 | find-then-insert returns the page of the index, made at most once |
| PageIndex.Visit | pkg/bio/pagecache.go:218-228 | lists the pages below a node in the order of their indexes, each once |
| PageIndex.PageCache.VisitAll | pkg/bio/pagecache.go:214-228 | visits every page of the map exactly once, totalCount in all |
| PageIndex.ShiftBound | pkg/bio/pagecache.go:180-201 | for page numbers below 2^42 the root's shift is at most 42, so no shift overflows 64 bits |
| SqlCondition.LexRender | pkg/metastore/filters/sqlite.go:28-85 | lexing the written text gives back the pieces that were written |
| FilterSql.SqlWhole | pkg/cel/templates.go:113-148 | every template of every column is one unit for the lexer, with one placeholder where it takes an argument |
| FilterSql.ParseCompiled | pkg/metastore/filters/sqlite.go:28-259 | in every place of a larger text, a supported expression is read as its own tree with NOT over AND over OR, and any other makes reading fail |
| FilterSql.CompareAgrees | pkg/metastore/filters/sqlite.go:69-158 | the text and argument of a comparison select as the CEL comparison of that column, or of the length of that list, with the value that the right side has in CEL |
| FilterSql.ListAgrees | pkg/metastore/filters/sqlite.go:184-220 | the conditions for a list select when the column has one of its elements |
| FilterSql.TreeAgrees | pkg/metastore/filters/sqlite.go:28-259 | the tree takes all arguments in order and, on a database that reads each template faithfully, holds exactly when the expression is true |
| FilterDatabase.EveryRecordHasOne | pkg/cel/templates.go:24-107 | the hypothesis on the database is no contradiction: for every record there is one that reads all templates faithfully, since their texts tell column, operator and kind apart |
| CelFilter.PlainTexts | pkg/cel/templates.go:29-113 | the SQL of every template for every table column, and that four templates have none |
| CelFilter.KeyTexts | pkg/cel/templates.go:34-107 | the SQL of every template for every property key |
| FilterSql.ArithExact | pkg/cel/expr.go:56-115 | a difference, product or sum of 64-bit values has the bits of the exact result |
| FilterSql.ArgumentIsValue | pkg/cel/expr.go:119-127 | the argument is the exact integer that the expression has in CEL, modulo 2^64 where arithmetic does not fit, and exists exactly when that does |
| FilterSql.OverflowIff | pkg/cel/expr.go:56-115 | for which values and operators some 64-bit cell compares otherwise with the exact value than with its 64 bits |
| FilterSql.AcceptedIff | pkg/metastore/filters/sqlite.go:28-259 | the compiler accepts exactly the expressions with the right number of operands of the right types |
| FilterCompiler.WantedName | pkg/metastore/filters/sqlite_test.go:34-40 | the text that the test wants, for every value |
| FilterCompiler.WantedSource | pkg/metastore/filters/sqlite_test.go:48-54 | likewise for a key of a group |
| FilterCompiler.WantedElement | pkg/metastore/filters/sqlite_test.go:55-61 | likewise for an element of a list |
| FilterCompiler.WantedEither | pkg/metastore/filters/sqlite_test.go:62-68 | likewise for one of two elements |
| CelFilter.OperatorMeans | pkg/metastore/filters/sqlite.go:261-278 | the SQL operator of each comparison compares any two values as the CEL function does |
| FilterCompiler.FilterMeans | pkg/metastore/filters/sqlite.go:28-259 | an expression is accepted if and only if it is well typed; the emitted text is a condition if and only if the expression is supported; it has as many placeholders as there are arguments, and with the i-th bound to the i-th a faithful database selects by it exactly the entries of which the expression, by its own meaning, is true |
| FilterCompiler.GroupFilterIsLost | pkg/cel/templates.go:76-86 | a comparison of is_group is accepted with no text and one argument |
| FilterCompiler.ConvertContext.Convert | pkg/metastore/filters/sqlite.go:28-259 | accepts exactly the expressions that compile, and appends their text and arguments to what was there |
| FilterCompiler.ConvertContext.WriteList | pkg/metastore/filters/sqlite.go:194-220 | one condition and one quoted argument for each list element, joined by OR |
| VersionProtocol.RunConserves | pkg/metastore/sql.go:1437-1452 | over every run, the version is the start plus the accepted writes and the link count is the start plus their changes: no stale copy takes a change back |
| VersionProtocol.AcceptedIsFresh | pkg/metastore/sql.go:336-350 | an accepted write has no other between it and the load of its copy |
| VersionProtocol.AcceptedIffFresh | pkg/metastore/sql.go:336-350 | over every run, a write is accepted if and only if nothing wrote the row since its copy was loaded |
| VersionProtocol.HeldIsMeant | pkg/core/core.go:366-398 | a held copy was loaded, and holds the last edit since that load, or else what the row had then |
| VersionProtocol.RowIsLastWritten | pkg/metastore/sql.go:1437-1452 | over every run, the row's fields are those of the latest accepted write: its holder's last edit since its load, or else what the row had at that load |
| VersionProtocol.RowIsFirst | pkg/metastore/sql.go:336-350 | without an accepted write the row is what it was |
| VersionProtocol.TransactionIsRun | pkg/metastore/sql.go:683-689 | a transaction that writes a row does to it what a load, an edit and an accepted write do |
| VersionProtocol.StaleAfterTransaction | pkg/metastore/sql.go:683-689 | a copy loaded before a transaction is accepted after it exactly if the transaction did not write that entry and the copy was acceptable |
| MetaStore.MoveIsWritten | pkg/metastore/sql.go:656-750 | the target gets the new name; it and the parents that the move writes get the next version for each write, all other entries stay |
| MetaStore.RemoveWrites | pkg/metastore/sql.go:352-426 | the same for a removal |
| MetaStore.MirrorWrites | pkg/metastore/sql.go:589-654 | the same for a hard link |
| MetaStore.BumpedRises | pkg/metastore/sql.go:1437-1442 | short of the wrap each write raises the version by one |
| VersionProtocol.WrapRollsBack | pkg/metastore/sql.go:1438-1442 | after the version wraps a copy of version 1024 is accepted and takes back the link count |
| JobClaim.HandedAtMostReadied | pkg/metastore/sql.go:1284-1314 | over every interleaving a job is handed out at most as often as it was set to initializing |
| JobClaim.HandedOncePerReady | workflow/jobrun/controller.go:65-85 | two hand-outs of a job have a set to initializing between them |
| JobClaim.OtherwiseUnchanged | pkg/metastore/sql.go:1303-1308 | over every run, a job's status changes only by a save of that job or a hand-out of it |
| JobClaim.StatusIsLastGiven | pkg/metastore/sql.go:1303-1308 | after such an event the job has the saved status, or is running, until the next one |
| JobClaim.SelectedIsHanded | pkg/metastore/sql.go:1284-1314 | a worker's update hands out the job it selected if and only if that is still waiting, and no other; a waiting job that is neither saved nor handed out in between is handed to the worker that selected it, and is then running |

## Left out

- EntryCore.Core.ChangeEntryParent: takes clean URIs, for which its test is meant; `SlashedTestMisses` shows one that is not.
- EntryCore.Core.CreateEntry: takes the new id as a parameter.
- ChunkFile.SegmentFile.WriteSegData: a write is committed at once as one segment; dirty pages, flushing and overlapping committers are not modelled.
- ChunkFile.SegmentFile.WriteAt: commits each chunk's part at once, for the same reason.
- ChunkFile.SegmentFile.ReadBack: reads through no page that was cached before the write.
- PageIndex.PageCache.GetPage: loading the page, its invalid bit, reference counts, the page counter and LFU eviction are not modelled; the slots of a node are a sequence that is reassigned, and the links to parent nodes, which nothing reads, are absent.
- FilterCompiler.FilterMeans: that a database reads a template faithfully is a hypothesis; what LIKE and JSON functions do with odd values, and nulls, is not modelled. The lexer takes a whole leaf as one unit.
- FilterCompiler.ConvertContext.Convert: refuses an `in` whose right side is neither an identifier nor a list, where the code dereferences a nil list and panics.
- Errors of the stores during a read, and the error that ReadAt drops when a request fails; goroutines are run one after the other, and each io.CopyN is one write.
- 64-bit overflow of offsets and sizes; that of versions, page shifts and filter arithmetic is modelled.
- The entry cache, the disk cache, returning memory blocks to their pools, and the destruction of entries after their last link is gone.
- The Postgres converter, formatting of non-string values into patterns, and unsigned constants.
- The order in which jobs are selected: any job may be.
- Storage back ends, encryption and compression, FUSE, WebDAV, REST, smart groups, workflows and authentication.
