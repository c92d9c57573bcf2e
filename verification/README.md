# A verified model of captn-cog

captn-cog keeps observations about code in one text file per workspace, finds code through tree-sitter grammars and
language servers, and draws an overlay under a child terminal program. This project models its stateful and
protocol parts in Dafny 4.11 and proves what they promise, over every input, every chunking and every interleaving.

Run `dafny verify dfyconfig.toml` in this directory.

## What is modelled

**The observation store** (`Bytes`, `FilePos`, `Hash`, `Flatten`, `Metadata`, `Records`, `Keys`, `ObservationStore`,
`Codec`, `RoundTrip`, `Unreadable`, `RecordShape`, `Workspace`, `Persistence`). Texts are sequences of bytes. Decimal numbers with
Go's 64-bit `Atoi` limits, hex, and the unpadded base64url alphabet of section 5 of RFC 4648 are written out; so are
positions, ranges, records and whole files. The class `Workspace.Workspace` has the source's fields and methods; its methods are
proved to compute the functions of module `ObservationStore`, about which the theorems speak. `Persistence` runs any
number of processes over one file.

**Three protocols** (`SingleFlight`, `Cancellation` and `LoadOutcomes`; `ParallelCollect` and `WorkOutcomes`;
`Multiplexer` and `Delivery`). Each is a state machine over any number of threads, where a step is one critical section,
one channel operation or one write to shared state. The invariants hold in every state of every run. The second module
of each protocol follows what enters a run, a parse's result, a call's result or a server's message, to where it ends.

**The stream rewriter** (`ScrollRegion`, `ScrollTheorems`, `RegionRows`). Region sequences have the control sequence shape of section
5.4 of ECMA-48 with the private final byte `r`. `Rewrite` says token by token what one call does; the loop of
`ClampScrollRegions` is proved to compute it.

**Traversals and the tree** (`Dfs`, `DfsTheorems`, `DfsOrder`, `Walker`, `AstTree`). The explicit-stack search is proved against a
recursive traversal of its stack, and that against graph reachability; the cursor walk, on a mutable context, against a
recursive fold; and the memoised hash, on linked nodes, against the sum over the ancestor chain.

**Positions** (`SourceText`, `Utf8`, `DefinitionRange`, `ResolvedRange`, `WidenedRange`, `Utf16`, `Framing`). Lines,
columns, byte offsets and UTF-16 columns, the repairs of language-server ranges, and message framing. `SourceText.PointAt` is the
one definition of the line and column of an offset, and `Utf16.IsColumn` the one of a UTF-16 column; the conversions
in both directions are proved against them.

## Where a promise has a condition

- `ReplaceNewlines` panics exactly when the input has a line break and the replacement brings one in
  (`FlatIsOneLine`); the one caller passes `" - "`.
- An anchor survives its text form exactly when its lines and columns are non-negative and their successors are ints
  (`RangeRoundTrip`).
- A comment says that a persist overwrites every unreadable file, so that a broken merge cannot block it for ever. The
  code panics, and leaves the file as it is, exactly when the first unreadable record has a length header above half
  the largest int, which overflows when doubled, or a key field that goes on after 43 symbols, which Go decodes beyond
  the end of its array (`PersistHeals`, `PanicsExactly`, `TwoUnrepairableFiles`).
- A persist that cannot read the file at all overwrites it, and keeps its keys exactly when the process holds them all
  (`UnreadPersist`).
- Offsets inside a CRLF have a line and column, but `BytePositionForLineColumn` does not find them again. A column
  whose offset is no int gives a negative offset instead of an error, exactly when `Overflows` holds.
- Chunk independence of the rewriter fails exactly when a chunk ends in more than 16 bytes of a region sequence that
  the next chunk completes to one that is not already its own clamped form (`TwoChunks`); `LongRegionEscapes` gives
  such a stream. With fewer than two rows to keep,
  confinement and idempotence fail for every `bottom` (`DroppedRegionJoins`, `ConfinedExactly`, `IdempotentExactly`).
- The client reads a server's message id as a float and truncates it. A request gets a message with its own id exactly
  when the id is integral, as section 5 of JSON-RPC 2.0 asks for (`OwnIdExactly`); `FractionalAnswer` is a run in which
  a message with id 1.5 answers request 1.
- A Swift name in backticks may span lines, although a comment says it never does; exactly then the widened end is
  inconsistent (`SwiftRepairIsConsistent`, `NameWithLineFeed`).
- The Python and TypeScript repairs panic on a reply at a negative offset exactly when they find an identifier to narrow
  it to (`PythonPanicsExactly`, `TypescriptPanicsExactly`). A language server's overflowing column reaches this panic,
  because the offset computed for it goes straight into the repair (`ResolvePython`, `ResolveTypescript`);
  `OverflowingReplies` and `OverflowReachesPanic` show a reply that does it.
- The comparator that sorts children in the search compares indices, not keys. The claims hold for any enumeration.
- An empty snippet is found at offset 0 with an empty range at line 0, column 0.

## Model

| member | source | states |
|---|---|---|
| Bytes.AtoiDecimal | pkg/cog/workspace.go:353 | The decimal text of an int is read back as that int, and the text of every larger number is refused. |
| Bytes.HexRoundTrip | pkg/cog/workspace.go:338 | Hex decoding undoes hex encoding for every byte string. |
| Bytes.HexDigitsExactly | pkg/cog/workspace.go:338 | The digits written are those of lower-case hexadecimal, and both cases are read. |
| Bytes.BigEndianExactly | pkg/common/hash.go:21-24 | Byte k of a word counts 256 to the power of the number of bytes behind it. |
| FilePos.RangeRoundTrip | pkg/common/filepos.go:135-217 | A range's text restores its path, lines and columns, whatever separators the path holds, if and only if every line and column and its successor is a non-negative int. |
| FilePos.RangeIsParsed | pkg/common/filepos.go:144-217 | In a range's text the line comes before the column, both count from 1, and the path may hold any bytes; a zero or a number that is no int is refused. |
| FilePos.StoredPrintsTheSame | pkg/common/filepos.go:135-139 | What a text restores prints the same text again. |
| Hash.Base64RoundTrip | pkg/common/hash.go:19-44 | The base64url decoder undoes the encoder on every byte string, of every length modulo 3. |
| Hash.SymbolsExactly | pkg/common/hash.go:27 | The symbols written and read are those of the URL-safe alphabet, in its order. |
| Hash.EncodesExactly | pkg/common/hash.go:27 | Each three bytes are written as the four base-64 digits of their number, the last one or two with zero bits added (section 4 of RFC 4648). |
| Hash.BreaksInKey | pkg/common/hash.go:33 | Line breaks inside a key field are passed over. |
| Hash.StringRoundTrip | pkg/common/hash.go:31-49 | Every 256-bit hash prints 43 symbols that are read back as the same hash. |
| Hash.StringInjective | pkg/common/hash.go:46-49 | Two hashes with the same text are the same hash. |
| Hash.AddIsModular | pkg/common/hash.go:93-100 | Adding hashes is addition modulo 2^64 in each of the four words. |
| Flatten.FlatIsOneLine | pkg/cog/utils.go:59-64 | The output has no line break, so the closing assertion passes, if and only if the input or the replacement has none. |
| Flatten.FlatIdempotent | pkg/cog/utils.go:40-67 | Flattening a flattened text changes nothing. |
| Flatten.FlatSplitsAtBreak | pkg/cog/utils.go:43-57 | The first line break, a CRLF counting once, becomes one replacement; the bytes before it stay and the rest is flattened in the same way. |
| Flatten.ReplaceNewlines | pkg/cog/utils.go:40-67 | The loop computes the flattened text. |
| Metadata.MetadataRoundTrip | pkg/cog/workspace.go:321-394 | Decoding an encoded metadata segment, whatever follows it, gives the anchors as stored, the answer length and exactly what follows. |
| Metadata.SegmentTruncated | pkg/cog/workspace.go:345-368 | Every proper prefix of a segment and its separator is rejected. |
| Metadata.WireRoundTrip | pkg/cog/workspace.go:321-376 | The payload codec restores every list of anchor texts and the answer length. |
| Records.ParsePrinted | pkg/cog/workspace.go:445 | Parsing a record restores its key, flattened answer, anchors and author stamp, and stops right behind the answer. |
| Records.TruncatedRecord | pkg/cog/workspace.go:494-527 | A record cut anywhere before the end of its answer is an error. |
| Records.RestoredPrintsTheSame | pkg/cog/workspace.go:431-446 | A restored observation prints the same record under any active author and can be restored again unchanged. |
| Records.RecordIsOneLine | pkg/cog/workspace.go:244-249 | The text of a record holds no line feed, so a record is one line. |
| RecordShape.ParsesExactly | pkg/cog/workspace.go:494-540 | A text is parsed as a record with given fields if and only if it is a stamp of eight hex digits, a key text, and a metadata segment of just the length it says, each before one space, then exactly as many answer bytes as the metadata says, and then the end of the text or of the line. |
| Keys.SortedUnique | pkg/cog/workspace.go:419-429 | Two lists of the same keys sorted by the same strict order are equal, so sorting a map's keys leaves no choice. |
| Keys.TextLessExactly | pkg/cog/workspace.go:419-421 | The order of the keys' texts: a text comes before its continuations, and before a text with a larger byte at the first difference. |
| Keys.SortKeys | pkg/cog/workspace.go:419-421 | Sorting gives each key once, in order. |
| Codec.UnmarshalLines | pkg/cog/workspace.go:486-544 | Reading record lines followed by anything is merging the lines in order and then reading the rest: reading a concatenation composes the two reads. |
| Codec.ReplayIsUnion | pkg/cog/workspace.go:531-540 | Merging lines in any order with any repetition gives the union of the keys; known keys keep their observation, new keys take that of their first line. |
| Codec.SpaceAtEnd | pkg/cog/workspace.go:489-490 | White space of any kind at the end of a file changes nothing. |
| Codec.CutFile | pkg/cog/workspace.go:486-544 | A file cut strictly inside a record is rejected at every cut point with all earlier records read; cut between records or before a line feed it reads in full. |
| Codec.CutPoint | pkg/cog/workspace.go:431-448 | Every cut of a written file lies between two records or inside one, so the previous row covers all cuts. |
| RoundTrip.MarshalRoundTrip | pkg/cog/workspace.go:402-544 | A fresh workspace that reads a written file holds every key in order, with flattened answer, anchors' paths, lines and columns, and author stamp, and nothing else. |
| RoundTrip.FieldsAreRestored | pkg/cog/workspace.go:431-540 | Field by field: what is read back has the key's text, the answer with each line break as a dash between spaces, the author the record was first written with and the active author if it had none, and each anchor's path, lines and columns. |
| RoundTrip.MarshalAgain | pkg/cog/workspace.go:402-449 | Writing what was read gives byte for byte the same file, whoever is the active author. |
| RoundTrip.MarshalAppends | pkg/cog/workspace.go:130-143 | After a write, setting observations under new keys only appends to the file. |
| RoundTrip.OneRecordPerLine | pkg/cog/workspace.go:244-249 | Splitting a written file at line feeds gives its records, one each, in order. |
| RoundTrip.UnionMerge | pkg/cog/workspace.go:244-249 | Any selection, reordering, interleaving or duplication of lines of any number of written files is read without error, to the union of keys with the first occurrence winning over a base store. |
| RoundTrip.FullMergeKeepsEveryKey | pkg/cog/workspace.go:244-249 | When no line is lost in the merge, no key of any file is. |
| Workspace.Workspace.SetObservationLocked | pkg/cog/workspace.go:130-143 | Sets the observation, gives a new key the next index and leaves a known key's index alone. |
| Workspace.Workspace.UnmarshalLocked | pkg/cog/workspace.go:486-544 | The loop computes the recursive reader: the store as read up to the first error or panic, and which of the two it was. |
| Workspace.Workspace.UnindexedKeys | pkg/cog/workspace.go:406-421 | The keys without an index, in the order of their texts. |
| Workspace.Workspace.KeysInOrder | pkg/cog/workspace.go:427-429 | Sorting the cache's keys by their index gives the order in which they were first set. |
| Workspace.Workspace.MarshalLocked | pkg/cog/workspace.go:402-449 | Indexes every key and returns the file of the store, one line per key in index order. |
| Workspace.Workspace.Persist | pkg/cog/workspace.go:546-576 | Merges what is on disk, its own records winning, up to the first record that cannot be read, and replaces the file by the result; when that record makes it panic, the file stays as it is. |
| Persistence.PersistIsUnion | pkg/cog/workspace.go:546-576 | After a persist over a file of record lines, the file decodes; its keys are those on disk and the process's; the process's records win and all others are unchanged. |
| Persistence.SetThenPersist | pkg/cog/workspace.go:130-143 | An observation that is set and persisted is what the disk holds under its key, over what was set or stored before; all other keys keep what they had. |
| Persistence.SetKeepsPlaces | pkg/cog/workspace.go:130-143 | A key that is set again keeps its place in the order; a new one becomes the last. |
| Persistence.PersistHeals | pkg/cog/workspace.go:558-575 | Over any bytes at all, a persist leaves a file that decodes, with the process's records and every old record before the first unreadable one, if and only if that one is not of the two kinds that panic; otherwise the file is unchanged. |
| Persistence.UnreadPersist | pkg/cog/workspace.go:562-575 | A file that cannot be read at all is overwritten; its keys are kept if and only if the process holds them all. |
| Unreadable.PanicsExactly | pkg/cog/workspace.go:492-522 | Parsing a record panics if and only if it starts with a stamp and either a key field whose first 44 symbols are valid, or a key and a length header above half the largest int. |
| Unreadable.ReadingStops | pkg/cog/workspace.go:486-544 | Whatever records are held, reading a file panics if and only if its first unreadable record is of these two kinds, fails if there is another unreadable record first, and succeeds otherwise. |
| Unreadable.TwoUnrepairableFiles | pkg/cog/workspace.go:359-361 | One record of either kind makes a file from which nothing is read and which no persist repairs. |
| Persistence.UnmarshalOver | pkg/cog/workspace.go:531-540 | Reading any bytes over held records adds exactly what reading them alone gives, with the same error. |
| Persistence.MergedRecords | pkg/cog/workspace.go:562-569 | Records merged from disk under other keys would print exactly as they were read. |
| Persistence.StepKeepsInv | pkg/cog/workspace.go:546-576 | Every set, load, persist or pulled union merge keeps the file readable by every process and loses no key on disk. |
| Persistence.KeysNeverShrink | pkg/cog/workspace.go:546-576 | In every run of any number of processes, from every point on, the file stays decodable and its key set never shrinks. |
| SingleFlight.StepKeepsInv | pkg/cog/workspace.go:578-628 | Every step of every caller keeps the invariant, and a loaded file is never replaced. |
| SingleFlight.RunIsSafe | pkg/cog/workspace.go:578-628 | In every interleaving: at most one parse of a file is in flight, no loaded file is parsed again, closed calls and finished callers hold exactly one of the loaded file and an error, and a leader deletes only its own call. |
| SingleFlight.SameFileForAll | pkg/cog/workspace.go:587-599 | Any two callers that are given a file under one name, at any two points of a run, are given the same one. |
| SingleFlight.LeaderCanStep | pkg/cog/workspace.go:604-627 | A leader always has a next step, and it brings the close of its call nearer. |
| SingleFlight.StepsBringClose | pkg/cog/workspace.go:604-627 | Whichever way a leader goes it gets nearer to the close, and no other thread moves it. |
| SingleFlight.WaiterIsReleased | pkg/cog/workspace.go:592-610 | No waiter is stuck: its call is closed, or running the call's leader alone closes it within four steps. |
| SingleFlight.WaiterReturns | pkg/cog/workspace.go:592-602 | And then one step of the waiter itself returns the file and the error that the closed call holds. |
| Cancellation.OnlyOwnCancellation | pkg/cog/workspace.go:592-619 | In every run, a caller gets a cancellation error if and only if it gave up waiting with its own context cancelled; a caller whose context is live never gets one, whoever else is cancelled. |
| Cancellation.CallersShareResult | pkg/cog/workspace.go:592-627 | In every run, a caller that did not give up has exactly the file and the error of the closed call it took its result from, a call for the file it asked for. |
| LoadOutcomes.CallersGetParses | pkg/cog/workspace.go:578-628 | In every run, a file that a caller is given is one that an earlier parse of the file it asked for gave, and the error it is given, unless it gave up, is the one in which the parse of its own call ended. |
| LoadOutcomes.ParsesAreLoaded | pkg/cog/workspace.go:615-627 | An object that a parse gave is loaded under its name, or about to be, at every later point of the run. |
| ParallelCollect.StepKeepsInv | pkg/common/utils.go:23-61 | Every step of a worker, of the collector or of the parent's cancellation keeps the invariant. |
| ParallelCollect.WorkerNeverBlocks | pkg/common/utils.go:23-45 | A worker that has not ended can always take its next step, also after the collector has returned. |
| ParallelCollect.StepsBringEnd | pkg/common/utils.go:31-45 | Whichever way a worker goes it gets nearer to its end, and no step of another worker or of the collector moves it. |
| ParallelCollect.WorkerEnds | pkg/common/utils.go:31-45 | So every worker ends within three steps of its own. |
| ParallelCollect.CollectorNeverDeadlocks | pkg/common/utils.go:46-60 | Once all workers have ended, a collector that still waits has a case to take. |
| ParallelCollect.GatheredIsPermutation | pkg/common/utils.go:46-60 | One item of each worker, in any order, is a permutation of the workers' outputs. |
| ParallelCollect.AllResultsOrError | pkg/common/utils.go:23-61 | In every run, a return without error gives a permutation of the outputs of all workers, each of which has succeeded. |
| WorkOutcomes.ResultsWereGiven | pkg/common/utils.go:23-61 | In every run, the values returned without error are, up to order, one for each worker: the one its call gave at an earlier step. |
| ParallelCollect.RootCauseIsReturned | pkg/common/utils.go:23-61 | In every run, a returned error was raised before any cancel of the call's own; without a parent cancellation the context was live when it was raised. |
| WorkOutcomes.ErrorWasRaised | pkg/common/utils.go:31-60 | In every run, a returned error is the one in which a worker's call ended at an earlier step, at which the call had not cancelled itself. |
| Multiplexer.StepKeepsInv | pkg/lsp/lsp.go:458-572 | Every step of a request or of the reader keeps the invariant, whatever ids the server sends. |
| Multiplexer.ReaderNeverBlocks | pkg/lsp/lsp.go:560-570 | Each channel is sent to at most once, and the reader can always make the send it is about to make. |
| Multiplexer.OwnAnswer | pkg/lsp/lsp.go:458-501 | In every run, a request that returns a server's message got one whose id truncates to its own, and no channel was sent to twice. |
| Delivery.AnswersWereReceived | pkg/lsp/lsp.go:545-572 | In every run, a server's message that a request returns is, whole, one that the reader received at an earlier step, and no two requests return the message of one step. |
| Delivery.ResponseReachesRequest | pkg/lsp/lsp.go:545-572 | The converse: a response that is received while the request of its id waits is handed to that request unchanged and is never lost; at every later point it is on its way there, in its channel, or what it returned. |
| Delivery.HeldCanBeReturned | pkg/lsp/lsp.go:480-491 | A waiting request can return the message in its channel, whole. |
| Delivery.RunHasLabels | pkg/lsp/lsp.go:520-572 | Every run is the run of a list of received messages, so the previous rows speak of all of them. |
| Multiplexer.OwnIdExactly | pkg/lsp/lsp.go:545-560 | In every run, the message a request returns bears the request's own id if and only if the message's id is integral. |
| Multiplexer.FractionalAnswer | pkg/lsp/lsp.go:545-560 | A run in which request 1 returns a message with id 1.5. |
| Multiplexer.RequestCanReturn | pkg/lsp/lsp.go:458-501 | Once the reader has exited, every request that has not returned, begun before or after, has a step that brings its return nearer. |
| Multiplexer.RequestReturns | pkg/lsp/lsp.go:458-501 | And it returns within four steps, all of them its own. |
| Multiplexer.FailAllCanStep | pkg/lsp/lsp.go:612-620 | After a read error the reader never blocks and gets nearer to its exit with every step. |
| Multiplexer.FailAllProgress | pkg/lsp/lsp.go:612-620 | From the read error on, every step of the reader brings its exit nearer, and no step of any request takes it away from there. |
| ScrollRegion.ClampScrollRegions | pkg/tui/region.go:19-55 | The loop terminates and computes the token-by-token rewriting. |
| RegionRows.ClampsToCommonRows | pkg/tui/region.go:57-81 | With at least two rows, a region sequence becomes the one that names exactly the asked rows that exist, if these are at least two, and all rows otherwise; a number that is missing, zero or no int counts as the first or the last row, and further parameters are dropped. |
| RegionRows.ClampsNumbers | pkg/tui/region.go:57-81 | The same for the decimal texts of any two numbers. |
| RegionRows.ClampsTopOnly | pkg/tui/region.go:57-81 | A sequence with the top row only asks for all rows from there on. |
| RegionRows.ResetKeepsAllRows | pkg/tui/region.go:57-81 | A sequence without parameters becomes the one from row 1 to the last row, for every last row. |
| RegionRows.RegionIsDropped | pkg/tui/region.go:58-60 | With fewer than two rows a region sequence vanishes. |
| RegionRows.TextIsPassedOn | pkg/tui/region.go:21-30 | Text without an escape is passed on as it is. |
| RegionRows.OtherSequenceIsPassedOn | pkg/tui/region.go:32-53 | So is an escape that starts no region sequence, with its parameters. |
| RegionRows.EndIsHeldBack | pkg/tui/region.go:45-50 | A sequence that is cut at the end of the input is held back if it has at most 16 bytes, and passed on otherwise. |
| ScrollTheorems.TwoChunks | pkg/tui/region.go:19-55 | Two calls on two chunks give the bytes of one call on the whole if and only if the cut does not let an over-long partial sequence through that the second chunk completes. |
| ScrollTheorems.ChunksAreOneCall | pkg/tui/overlay.go:435-453 | For every list of chunks of which none but the last leaves a partial sequence over the limit, the concatenated outputs and the final held bytes are those of one call. |
| ScrollTheorems.ChildWriter.Write | pkg/tui/overlay.go:435-453 | A write passes on and holds back what one call on the held bytes and the chunk gives. |
| ScrollTheorems.ChildWriter.WriteAll | pkg/tui/overlay.go:435-453 | Writing chunk after chunk passes on what the previous rows speak of. |
| ScrollTheorems.ChildWriter.WriteEach | pkg/tui/overlay.go:435-453 | When the rows to keep change between writes, what each write passes on is still confined to the rows in force at that write, whatever was held back before. |
| ScrollTheorems.LongRegionEscapes | pkg/tui/region.go:10-12 | A region sequence of 18 bytes cut behind its parameters is let through unclamped, while one call clamps it. |
| ScrollTheorems.OutputIsConfined | pkg/tui/region.go:57-81 | With at least two rows to keep, every region sequence anywhere in a call's output has 1 <= top < bottom row <= bottom, including overflowing and missing parameters. |
| ScrollTheorems.DroppedRegionJoins | pkg/tui/region.go:57-60 | With fewer, the bytes around a dropped sequence can join to a new one. |
| ScrollTheorems.ConfinedExactly | pkg/tui/region.go:57-81 | The output of every call is confined if and only if bottom is at least two. |
| ScrollTheorems.AllRegionsEverywhere | pkg/tui/region.go:21-54 | Scanning sequence by sequence misses no region sequence, at whatever index it stands. |
| ScrollTheorems.IdempotentExactly | pkg/tui/region.go:19-81 | Running the rewriter on its output and held bytes gives both back unchanged, for all inputs, if and only if there are at least two rows to keep. |
| ScrollTheorems.NoRegionPassesThrough | pkg/tui/region.go:19-55 | A stream with no complete region sequence is its output followed by the held bytes. |
| Dfs.DetailedDFS | pkg/cgraph/graph.go:89-148 | The loop over the marked set and the stack shows its caller the traversal, up to where the caller stops it or a vertex is missing. |
| Dfs.MarkChildren | pkg/cgraph/graph.go:125-133 | Marks and lists the unmarked children in enumeration order. |
| DfsTheorems.SearchVisitsReachable | pkg/cgraph/graph.go:89-148 | Whatever the child order, a search fails if and only if its start is no vertex, before any visit; otherwise it visits exactly the vertices reachable from its start, each once. |
| DfsTheorems.SearchIsPreorder | pkg/cgraph/graph.go:89-148 | The visits are the preorder of one tree rooted at the start, in which each child hangs on its parent by the named edge, one deeper. |
| DfsTheorems.ParentComesFirst | pkg/cgraph/graph.go:89-148 | Every visit but the first has its parent among the visits before it. |
| DfsOrder.SearchOrder | pkg/cgraph/graph.go:112-145 | A vertex is discovered from the earliest visited vertex with an edge to it, and what is discovered from one vertex is visited in the order of its children. |
| DfsTheorems.ObservedIsPrefix | pkg/cgraph/graph.go:117-123 | What a caller sees is a prefix that ends with the first visit it stops at, or the whole search. |
| Walker.TransformContext.Walk | pkg/parsers/walker.go:228-287 | Appends to the given node what the recursive fold over the children gives, in order, changes no other node, and restores cursor and parent, also after an error. |
| Walker.TransformContext.Transform | pkg/parsers/walker.go:211-226 | Running a transformer's actions grows the current parent by what the actions mean and restores cursor and parent. |
| Walker.WalkTransformTree | pkg/parsers/walker.go:228-287 | The program tree of a walk is the fold over the grammar tree, and holds what is emitted at the depth at which it is emitted, complete or up to the first error. |
| Walker.FoldIsDocumentOrder | pkg/parsers/walker.go:211-287 | The preorder of the program tree with depths is the list of what is emitted, in order, each node as deep as it is emitted; only emit-and-descend goes one deeper. |
| Walker.DepthsDetermine | pkg/parsers/walker.go:211-287 | Trees with the same preorder with depths are the same, so the previous row leaves nothing of the tree open. |
| Walker.GrownInto | pkg/parsers/walker.go:219-226 | Growing under a node just emitted is growing its parent by the node's whole subtree. |
| AstTree.AttachParents | pkg/ast/tree.go:172-186 | Every node's parent becomes its tree parent, and the root has none. |
| AstTree.GetHash | pkg/ast/tree.go:31-58 | Returns the unmemoised wrapping sum along the ancestor chain; every memo agrees with it, and no memo changes once set. |
| AstTree.AttachAndHash | pkg/ast/tree.go:31-58 | On a fresh tree, any sequence of hash calls in any order gives the unmemoised identities. |
| AstTree.IdentityUnfold | pkg/ast/tree.go:31-58 | A node's identity is its own hash plus its parent's identity, and the root's is its own hash. |
| AstTree.IdentityIsModular | pkg/ast/tree.go:31-58 | Each word of an identity is the sum of that word over the node and all its ancestors, modulo 2^64. |
| AstTree.Nearest | pkg/ast/tree.go:154-162 | The first ancestor that passes the filter, and none if no ancestor does; the chain ends at the root. |
| SourceText.BytePositionForLineColumn | pkg/common/source.go:25-79 | A non-negative result has the asked line and column and does not split a CRLF; every offset is found from its line and column if and only if it does not split one; the result is negative if and only if the line exists and its start plus the column is no int. |
| SourceText.OffsetToLineColumn | pkg/cog/parse_file.go:38-59 | The line and column of the offset, clamped to the buffer. |
| SourceText.PointInjective | pkg/cog/parse_file.go:38-59 | No two offsets have the same line and column. |
| SourceText.PointMonotone | pkg/cog/parse_file.go:38-59 | Lines grow with offsets, and on one line columns count the bytes between. |
| SourceText.PointCounts | pkg/cog/parse_file.go:38-59 | The line of an offset is the number of line feeds in front of it, and the column the number of bytes behind the last one. |
| SourceText.LastLineColumnBytePosition | pkg/common/filepos.go:56-72 | The line and column of the end of the buffer. |
| SourceText.NewFileRangeAutoBytePosition | pkg/common/filepos.go:39-54 | For the lines and columns of two offsets, the range of those offsets, or none if one splits a CRLF; in general, offsets that fit their lines and columns or are negative because a column overflows. |
| SourceText.FindSnippetRange | pkg/cog/parse_file.go:61-77 | The range covers exactly the first occurrence, with its lines and columns; there is none only if the snippet is absent or a boundary of that occurrence splits a CRLF. |
| DefinitionRange.FirstIdentifier | pkg/languages/python/python_pyright.go:96-123 | The loops find the first maximal identifier run of the window. |
| DefinitionRange.Advance | pkg/languages/python/python_pyright.go:134-147 | The loop counts lines and columns up to the given offset. |
| DefinitionRange.NormalizePython | pkg/languages/python/python_pyright.go:78-93 | The guards, the search and the counting compute the repair of the next rows, for every reply. |
| DefinitionRange.PythonRepairIsFirstRun | pkg/languages/python/python_pyright.go:78-123 | The reply is unchanged without a source, when empty, and when no rune from its start to its end is an identifier rune; otherwise it is narrowed to exactly its first maximal identifier run, or the repair panics if it starts at a negative offset. |
| DefinitionRange.PythonRepairIsConsistent | pkg/languages/python/python_pyright.go:78-147 | A reply whose start is consistent is repaired without a panic, and what it is narrowed to is consistent at both ends. |
| DefinitionRange.IdentsExactly | pkg/languages/python/python_pyright.go:125-127 | Which ASCII runes an identifier has, in Python and in TypeScript. |
| DefinitionRange.PythonReplyTwice | pkg/languages/python/python_pyright.go:78-93 | Repairing a repaired range changes nothing. |
| DefinitionRange.PythonPanicsExactly | pkg/languages/python/python_pyright.go:89-90 | The repair panics if and only if a non-empty reply starts at a negative offset and there is an identifier in front of its end. |
| DefinitionRange.NarrowIsConsistent | pkg/languages/python/python_pyright.go:134-147 | Counting on from a consistent start keeps line and column consistent with the offset. |
| DefinitionRange.AdvanceCounts | pkg/languages/python/python_pyright.go:134-147 | Counting on from any position adds one line for each line feed passed; the column counts the bytes behind the last one, or goes on if there is none. |
| DefinitionRange.NormalizeTypescript | pkg/languages/typescript/typescript_tsserver.go:159-190 | The keyword-skipping loop terminates and computes the repair of the next rows, for every reply. |
| DefinitionRange.TypescriptRepairIsFirstName | pkg/languages/typescript/typescript_tsserver.go:159-230 | The reply is unchanged without a source, when empty, and when it holds only whole identifiers that are keywords; otherwise it is narrowed to its first identifier that is no keyword, whole, or the repair panics if it starts at a negative offset. |
| DefinitionRange.TypescriptRepairIsConsistent | pkg/languages/typescript/typescript_tsserver.go:159-190 | A reply whose start is consistent is repaired without a panic, and what it is narrowed to is consistent at both ends. |
| DefinitionRange.TypescriptReplyTwice | pkg/languages/typescript/typescript_tsserver.go:159-190 | Repairing a repaired range changes nothing. |
| DefinitionRange.OnlyKeywordsNoName | pkg/languages/typescript/typescript_tsserver.go:167-179 | Where all whole identifiers are keywords, the loop finds no name. |
| DefinitionRange.TypescriptPanicsExactly | pkg/languages/typescript/typescript_tsserver.go:186-187 | The repair panics if and only if a non-empty reply starts at a negative offset and a name that is no keyword stands in front of its end. |
| ResolvedRange.ResolvePython | pkg/common/imports.go:63-72 | A server's lines and columns give a range if and only if both ends are located; its Python repair panics if and only if the start column overflows and an identifier stands in front of the end. |
| ResolvedRange.ResolveTypescript | pkg/common/imports.go:63-72 | The same for the TypeScript repair, with a name that is no keyword in front of the end. |
| ResolvedRange.OverflowingReplies | pkg/common/source.go:57-61 | A file and a reply of which all this holds: the largest int as start column on the second line of three bytes. |
| ResolvedRange.OverflowReachesPanic | pkg/languages/python/python_pyright.go:89-90 | The range of that reply makes the Python and the TypeScript repair panic. |
| WidenedRange.SwiftRepairIsName | pkg/languages/swift/swift_sourcekit.go:28-84 | An empty reply is widened, by as many columns as bytes, to the whole name at it: all runes of an identifier, or everything up to the first closing backtick; it is left as it is if and only if no name starts there, as is every other reply. |
| WidenedRange.MeasureSwiftIdentifier | pkg/languages/swift/swift_sourcekit.go:52-84 | The loop measures the identifier at an offset, in backticks or not. |
| WidenedRange.SwiftRepairTwice | pkg/languages/swift/swift_sourcekit.go:28-47 | Repairing a repaired range changes nothing. |
| WidenedRange.SwiftRepairIsConsistent | pkg/languages/swift/swift_sourcekit.go:28-84 | The widened end is consistent if and only if the reply does not stand at an opening backtick with a line feed before its closing one. |
| WidenedRange.NameWithLineFeed | pkg/languages/swift/swift_sourcekit.go:39-44 | A line feed in backticks is widened to an end that is not consistent. |
| WidenedRange.RubyRepairExactly | pkg/languages/ruby/ruby_rubylsp.go:65-86 | A reply in a .rbs file collapses to its start; in any other file a start right behind a colon that no other colon precedes, on the same line, takes the colon in; the end and every other reply stay. |
| WidenedRange.RubyRepairTwice | pkg/languages/ruby/ruby_rubylsp.go:65-86 | Repairing a repaired range changes nothing, also behind several colons. |
| WidenedRange.RubyRepairIsConsistent | pkg/languages/ruby/ruby_rubylsp.go:65-86 | The moved start is consistent with its offset. |
| Utf8.DecodePrefix | pkg/languages/python/python_pyright.go:96-123 | Decoding a rune looks no further than the rune, so a run found in a reply is found again in the narrowed one. |
| Utf8.DecodesExactly | pkg/lsp/utils.go:76-127 | A text that starts with the encoding of a rune (section 3 of RFC 3629) decodes to it, and any other to the replacement rune, one byte wide. |
| Utf8.DecodeEncoded | pkg/lsp/utils.go:76-127 | Decoding undoes encoding, whatever follows. |
| Utf8.SpacesExactly | pkg/cog/workspace.go:489 | The white space that is trimmed is exactly the encodings of the runes with the Unicode property White_Space. |
| Utf16.ByteOffsetForUTF16Column | pkg/lsp/utils.go:76-101 | Finds the offset of a column if and only if a rune boundary has that column. |
| Utf16.Utf16ColumnAtByteOffset | pkg/lsp/utils.go:103-127 | Finds the column of an offset if and only if the offset is a rune boundary. |
| Utf16.ConversionsAreInverse | pkg/lsp/utils.go:76-127 | Each conversion undoes the other wherever it succeeds, and each fails only where there is no column or no boundary. |
| Utf16.ColumnOfRune | pkg/lsp/utils.go:76-145 | In a text of runes, the boundary behind k of them has as its column the number of UTF-16 code units of these runes. |
| Utf16.UnitsDecode | pkg/lsp/utils.go:129-145 | The one or two units of a rune are the rune or its surrogate pair (section 2.1 of RFC 2781). |
| Utf16.ColumnOrInsidePair | pkg/lsp/utils.go:76-101 | Every column up to the length is that of a boundary or lies inside a surrogate pair (section 2.1 of RFC 2781). |
| Utf16.InsidePairIsNoColumn | pkg/lsp/utils.go:86-96 | A column inside a surrogate pair is no boundary's, so it is rejected. |
| Utf16.PositionInsideRange | pkg/lsp/lsp.go:311-378 | The first non-ignored rune of the rows in order, or the start of the range when every rune in it is ignored, or an error for the first bad column or row. |
| Utf16.LinesExactly | pkg/lsp/lsp.go:311-378 | The lines of a text hold no line feed, and joined by line feeds they are the text. |
| Utf16.TrimCRExactly | pkg/lsp/lsp.go:311-378 | One carriage return at the end of a line is taken off, and nothing else. |
| Utf16.IgnoredExactly | pkg/lsp/utils.go:147-154 | The runes a position passes over are the three quotes, space, tab, carriage return and line feed. |
| Framing.ReadWire | pkg/lsp/utils.go:156-190 | Reading a message gives its body and leaves the rest of the stream, with any other header lines before and after its length and with the name of the length in any case. |
| Framing.OtherLines | pkg/lsp/utils.go:165-180 | The lines passed over are exactly those that hold more than carriage returns and do not name Content-Length, up to the case of its letters, in front of their first colon. |
| Framing.ContentTypeIsOther | pkg/lsp/utils.go:170-176 | Every Content-Type line is one of them. |
| Framing.LengthLinesParse | pkg/lsp/utils.go:175-180 | A length line in any case gives the number behind its spaces, signed or not and whatever follows it, and an error if that is no int. |
| Framing.NoNumberIsBad | pkg/lsp/utils.go:175-180 | A length line with anything but a number behind its spaces is an error. |
| Framing.LastLengthCounts | pkg/lsp/utils.go:157-180 | Of two length lines the last one counts. |
| Framing.NoLengthIsError | pkg/lsp/utils.go:183-185 | A message without a length is an error. |
| Framing.BadLengthIsError | pkg/lsp/utils.go:176-185 | A negative length, or one that is no int, is an error. |
| Framing.CutMessage | pkg/lsp/utils.go:160-190 | A message that ends early is an error wherever it is cut, and a cut behind its end does not matter. |
| Framing.ReadStream | pkg/lsp/utils.go:156-190 | Reading a stream of any messages gives exactly their bodies in order and leaves what follows. |
| Framing.HugeContentLength | pkg/lsp/utils.go:187 | A length above the longest slice makes the reader panic. |
| Framing.Pipe.ReadFramedMessage | pkg/lsp/utils.go:156-190 | The loop over header lines computes the reader, consuming what the reader consumes. |
| Framing.Pipe.Write | pkg/lsp/lsp.go:503-518 | Appends one framed message to the stream. |
| Framing.Exchange | pkg/lsp/lsp.go:503-518 | Any bodies written one after the other are read back in order, and nothing is left. |

## Left out

- Metadata.MetadataRoundTrip: the msgpack payload is replaced by a concrete length-prefixed codec with the same fields.
- Metadata.WireRoundTrip: is about this codec, not about msgpack.
- Checksums: xxhash values of authors and nodes are arbitrary values; nothing is said about collisions.
- Hash arrays: `Marshal` and `UnmarshalHashType` fill fixed arrays in place; the model works on sequences. The text form with colons that `UnmarshalText` also takes is not modelled.
- Persistence.PersistHeals: assumes that no flattened text is longer than an int can count, because a file of unreadable bytes is not known to have been written by this program.
- Persistence.KeysNeverShrink: every persist of the run can read the file if there is one. One that cannot overwrites it, with the effect that `UnreadPersist` states.
- Persistence: the file lock makes a load or a persist one atomic step; a crash in the middle of a write is not modelled. Answers of one key can alternate between processes, so only keys are claimed to be monotone.
- SingleFlight: `ParseFile` gives any file or any error of its own. It is assumed to return; a panic in it would give the waiters neither a file nor an error. `LoadFiles` only combines it with the fan-out.
- Cancellation.OnlyOwnCancellation: a parse never ends in the cancellation of its context, because nothing between `ParseFile` and the walk of the grammar tree reads it; one that did would hand its cancellation on to the callers that wait for it.
- Multiplexer: a write to the server is assumed to return. JSON decoding, `respondToServerRequest`, the wrap-around of the 64-bit request counter and ids outside the range of an int64 are not modelled. A reader that panics ends the program.
- Multiplexer.OwnIdExactly: speaks of the id as the client holds it, a float; an integral id above 2^53 in the server's text may have been rounded before.
- ParallelCollect: `work` is an arbitrary result or error; that it returns is assumed.
- ScrollTheorems.ChildWriter.Write: errors and partial writes of the terminal are not modelled.
- ScrollTheorems.ChildWriter.WriteAll: the rows to keep do not change while the chunks are written, because chunk independence is a claim about one value.
- Dfs: the graph library is a finite map of vertices and edges, and its errors other than a missing vertex are not modelled. A visitor depends on the visit only.
- Walker: a transformer is a function from a grammar node to a list of actions (emit, descend, emit and descend into, fail). Program nodes live in an arena in the model of the walk; `AstTree` models them as linked objects, and the walk's closing call of `AttachParents` is proved there.
- SourceText: no buffer is longer than an int can count.
- AstTree: a tree's nodes own distinct containers and every call is made by one thread; the debug text of a node is not modelled.
- DefinitionRange and WidenedRange: which runes above ASCII are letters or digits is a parameter. Nil ranges are not modelled.
- Framing: the number behind Content-Length is scanned as a decimal; partial reads of the underlying stream are not modelled, nor is running out of memory for a length below the limit of a slice.
- Language transformers, the interval tree and `FindNodesWithinRange`, server location, process spawning, HTTP, environment handling and the drawing of the overlay rest on unseen libraries or are plumbing.
- `ContainedBy`, `Contains` and the comparisons of ranges, `NearestOrSelf` and the accessors of a container are single expressions over what is modelled.
- `queryWithDepth` marks vertices outside its mutex and combines a depth limit with a visited set, so it has no completeness to prove.
