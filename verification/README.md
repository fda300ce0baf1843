# KSSQL storage and transaction kernel, verified

KSSQL keeps rows in a paged B+tree behind an in-memory tier, logs every change
to a write-ahead log, and lets connections commit optimistically. This project
models those four parts in Dafny and proves what they keep, over every input,
every run and every schedule. `dafny verify dfyconfig.toml` checks all of it.

| part | modules |
|---|---|
| shared sizes, keys as byte strings in lexicographic order | `Limits`, `Keys` |
| the byte formats of nodes and log entries, and their bytes one by one | `Codec`, `Layouts` |
| checksummed pages | `Pagers` |
| the B+tree as a value: operations, search order, ranges, page ownership and links, page fit, whole runs, exact conditions, doubled separators | `Trees`, `TreeOrder`, `TreeRange`, `TreePages`, `TreeFit`, `TreeRuns`, `TreeExact`, `TreeTies` |
| insertions that fail: the tree they leave, what search answers after runs of them, where answers come from | `TreeFailure`, `TreeAnswers`, `TreeOrigin` |
| what the leaf chain lists, also of leaves that search cannot reach | `TreeScan`, `TreeLeaves`, `TreeChain` |
| concrete runs that go wrong | `TreeDeviations`, `ScanDeviations`, `DrainDeviations` |
| the B+tree as the code has it: a pager, a log and nodes rewritten in pages | `NodePages`, `TreeStores`, `ChainStores`, `BPlusTrees` |
| the memory tier | `MemoryTiers` |
| the log file, the recovery loop, what it recovers, the queue and the two buffers | `WalLog`, `WalShift`, `WalRecovery`, `Wals` |
| the pipeline under every interleaving, and what reads find while it drains into that tree | `Pipeline`, `Reads` |
| transactions as a state machine, what whole runs of it do, and the engine's statements | `Occ`, `OccRuns`, `Engines` |
| the scan over both tiers | `OverlayScans`, `TableScans` |
| start-up on an existing log | `Restarts` |

How the parts hang together. A `Tree` is what the page graph under page 0
unfolds to; each node carries its page number. `BPlusTree.Insert` works on pages,
as the code does, and its contract says which tree and which chain of leaves the
file then holds, whether the insertion goes well or fails; what that tree means to
a search, and the chain to a scan, is proved by the lemmas about them. The recovery loop, the flush loop, the eviction loops, the scan loops
and the statements of the engine are methods proved against functions or
predicates in the same way. `Pipeline` and `Occ` are state machines whose
theorems quantify over every sequence of steps that can happen; in `Reads` the
drainer of `Pipeline` applies its records to the same tree, dropping those that fail.

## Where the code differs from its promises

Each deviation is kept in the model, shown on a concrete input, and bounded by an
exact condition.

- **An equal key goes left after a split** (`src/storage/btree.rs:203`), although
  search sends it right. Re-inserting a key that the split has just promoted stores
  a dead copy that search never finds (`TreeDeviations.SecondValueLost`). As written,
  an insertion is a map update if and only if it meets no promoted copy of its own
  key, or stores the value that is there already (`TreeRuns.WrittenInsertIsUpdateIff`);
  over a run the last value of a key is found if and only if this holds of its last
  insertion (`TreeExact.LastValueFoundIff`). Fresh keys never meet a promoted copy.
  With `>=` on that line, the variant `EqualGoesRight`, there is no exception.
- **Two equal separators.** A split can promote a key that its parent already has
  next to the child, when a leaf is full with a single entry of cost over 3039 bytes
  (`16 + |key| + |value|`) or when a dead copy is promoted. Two insertions into the
  empty tree are enough (`TreeDeviations.OversizedEntryBreaksOrder`). Then a node is
  not sorted any more, and which of the two the library's binary search finds in it is
  unspecified: a search is a relation then, and depends on the choice for the doubled
  key only (`TreeTies.UndoubledAnswer`, `TreeDeviations.DoubledKeyMayBeMissed`). `TreeExact.InsertStaysTidyIff`, `TreeExact.InsertKeepsOrderIff` and
  `TreeExact.RunsOrderedIff` say exactly which insertions and runs avoid this.
- **A page-fit bound of threshold plus one entry is not enough**, because the half
  entered after a split is not tested for fullness again
  (`TreeDeviations.ThresholdPlusEntryDoesNotSuffice`, after eight insertions of cost at
  most 1020). An insertion fits if and only if its descent meets no parent and no leaf
  that outgrows its page (`TreeFit.InsertFitsIff`); entries of cost at most 240 with
  keys of at most 204 bytes always fit.
- **A failed insertion loses other entries.** The splits of its descent are saved, the
  parents are not, so the right halves are cut off (`TreeDeviations.FailedInsertLosesKeys`).
  `TreeFailure.AttemptInsertAnswers` gives every answer after an attempt, its own key's
  included; over a run of attempts search finds the last value given to a key if and only
  if its attempt left it to be found and no later one cut it off (`TreeAnswers.LastFoundIff`).
- **A scan and a search find different things.** A scan takes the first copy in the leaf
  chain that shows something, search the last copy listed (`TreeScan.LastIsFound`), so
  with a dead copy the scan shows the value that search never finds
  (`ScanDeviations.ScanShowsWhatSearchMisses`). While no insertion fails, the chain lists
  what search answers, in key order, if and only if there are no dead copies
  (`TreeScan.ScanIsContentsIff`). After a failed insertion the chain still leads past what
  search has lost (`ScanDeviations.ScanShowsWhatSearchLost`): a key is listed if and only if
  its leaf was ever saved (`TreeChain.ListedForever`), and from a tree on which the two agree
  they disagree about another key exactly when it was cut off and its entry shows something
  (`TableScans.ScanAfterFailureIff`). In every state `OverlayScans.ScanIsIff` is the exact
  condition under which a scan answers what search would.
- **Eviction can change a read.** The drainer applies records with the insertion as
  written and ignores its failures. Evicting a key whose latest record was drained can
  bring back its former value (`DrainDeviations.EvictionLosesValue`) or lose it
  (`DrainDeviations.EvictionLosesRecord`). `Reads.EvictionIff` and
  `Reads.CacheTransparencyIff` are the exact conditions, whether or not records were
  refused, as long as nodes stay sorted.
- **One to three bytes of padding** make the recovery loop read a length that
  straddles two batches (`WalRecovery.ThreePadBytesLoseABatch`). Recovery returns
  what was written if and only if at every batch boundary that length is zero
  (`WalRecovery.RoundTripIffClean`), with no bound on the log or on what the
  entries contain. Batches of size 4093, 4094 or 4095 modulo 4096 are the only ones
  after which it can be nonzero.
- **Two flushers can send batches out of order** (`Pipeline.TwoFlushersReorder`). With any
  number of flushers, what was sent is in enqueue order if and only if no batch was sent
  after one that starts behind it (`Pipeline.SentInOrderIff`).
- **A second statement on a row in one transaction rereads the stored record**, so the
  first one's image is lost, be it an UPDATE (`Occ.FirstUpdateLost`) or a DELETE
  (`Occ.DeleteLost`). `Occ.SecondWriteSufficesIff` is the exact condition for any two
  statements under which nothing is lost.
- **A tombstone in memory is not marked as processed by the scan**, so a live tree
  copy reappears (`DrainDeviations.DeletedRowComesBack`); `OverlayScans.AnswerIsMeaningIff`
  and `OverlayScans.ScanMeaning` say exactly when. With tombstones marked, the variant
  `AlsoTombstones`, there is no exception.
- **A restart forgets the version counter.** It is read from a record that no statement
  writes (`src/parser/engine.rs:76`), so it starts at 0 again. A record that survives is
  returned by a scan after n more versions if and only if it was stored when at most n
  had been given out (`OccRuns.VisibleAfterRestartIff`); a row that was inserted and then
  updated is hidden at first (`OccRuns.UpdatedRowHidden`).
- The branch that multiplies the batch limit by four cannot be taken, since the
  queue holds at most the number of entries it asks to exceed (`Wals.AdaptiveLimit`).
- The repository's own description promises snapshot isolation over old versions; the
  code keeps one version per key in each tier, so for a row updated since, a scan at an
  old snapshot finds nothing, or the older copy if the tree still holds one. A statement
  that found such a copy then modifies the newer record. The eviction is called least
  recently used, but the time of an entry is set by insertions only.

## Model

| member | source | states |
|---|---|---|
| Keys.BinarySearch | src/storage/btree.rs:130 | on sorted keys the search finds a key iff it is there, at the position of the first key not below it, and the child search derives from either outcome is the routing child |
| Codec.NodeRoundTrip | src/storage/btree.rs:52-65 | a node reads back from its encoding whatever bytes follow it |
| Codec.EntryRoundTrip | src/storage/wal.rs:10-31 | a log entry reads back from its encoding |
| Codec.DecodedIsPrefix | src/storage/wal.rs:69 | any payload that decodes begins with the encoding of the entry it decodes to, so no two encodings share an entry |
| Layouts.Digits | src/storage/wal.rs:171-173 | each byte of a stored number is its digit to base 256, the lowest first |
| Layouts.PageEntry | src/storage/wal.rs:12-15 | a page entry as it stands in the log, byte by byte |
| Layouts.RecordEntry | src/storage/wal.rs:16-19 | a record entry byte by byte |
| Layouts.CommitEntry | src/storage/wal.rs:23-27 | a commit entry byte by byte |
| Layouts.RollbackFrame | src/storage/wal.rs:169-173 | a whole frame byte by byte: the entry's length in four bytes, then the entry |
| Layouts.LeafLayout | src/storage/btree.rs:8-21 | a leaf with a link byte by byte |
| Layouts.InternalLayout | src/storage/btree.rs:8-21 | an internal node byte by byte |
| Layouts.LiveRecord | src/storage/btree.rs:23-29 | a stored record byte by byte |
| Pagers.Pager.ReadPage | src/storage/pager.rs:105-120 | a page past the end is zeros; a page is returned iff its stored checksum is zero or right |
| Pagers.Pager.WritePage | src/storage/pager.rs:122-140 | exactly the page written changes, the file grows to hold it with zero pages before it, the bytes behind the first four are those given, and the first four hold their checksum |
| Pagers.ReadDamaged | src/storage/pager.rs:105-127 | a page whose bytes behind the checksum are changed after it was written is refused iff its checksum is not zero and the changed bytes have another |
| NodePages.PageRoundTrip | src/storage/btree.rs:52-65 | a node that fits reads back from its zero-padded page, also after a checksum was put in front |
| NodePages.EncodedSize | src/storage/btree.rs:67-70 | the length the fullness test compares is 29, plus 4 with a next leaf, plus 8 and the length for each key and value, plus 4 for each child |
| NodePages.LastPageKept | src/storage/btree.rs:91-95 | after replay every logged page holds its last logged image, cut or filled with zeros to a page, behind its checksum |
| NodePages.UnloggedPageKept | src/storage/btree.rs:91-95 | and every other page is as before, or zeros where the file has grown |
| TreeOrder.LookupFindsKeys | src/storage/btree.rs:121-147 | in an ordered tree, with or without dead copies, search finds exactly the keys stored in its leaves |
| TreeOrder.SplitKidKeeps | src/storage/btree.rs:215-249 | a split that promotes a new separator keeps the search order, the key set and the answer to every search |
| TreeOrder.InsertNonFullOrdered | src/storage/btree.rs:174-213 | below a node with room, insertion adds exactly its key to the stored keys and keeps every separator the least key to its right |
| TreeOrder.InsertNonFullLookup | src/storage/btree.rs:174-213 | after it, every key is answered as before, and the inserted one with its new value unless the promoted copy was met |
| TreeRange.SmallNeverClashes | src/storage/btree.rs:67-70 | with entries of cost at most 3039 and no dead copies no split promotes a separator that is there already |
| TreeRuns.InsertMeans | src/storage/btree.rs:149-249 | any insertion into an ordered tree of any height, unless two equal separators arise, updates the abstract map, or leaves it unchanged when it meets its promoted copy |
| TreeRuns.InsertRefinesMapUpdate | src/storage/btree.rs:149-249 | when it meets none, the abstract map becomes exactly the old one with the key updated |
| TreeRuns.WrittenInsertIsUpdateIff | src/storage/btree.rs:200-206 | as written, and unless two equal separators arise, an insertion is a map update iff the descent meets no promoted copy of the key or the value was stored already |
| TreeRuns.FreshKeyIsNeverMet | src/storage/btree.rs:200-206 | a key that is not stored never meets a promoted copy |
| TreeRuns.InsertPages | src/storage/btree.rs:149-256 | uniform depth, one more child than keys, no page reached twice, only fresh pages added, at most height + 3 of them, and the leaf chain in tree order |
| TreeRuns.RunsAreLaid | src/storage/btree.rs:149-256 | the same over every run, whatever it meets: the tree reaches every page of the file once, and its leaves form one chain to the end |
| TreeRuns.InsertStepSound | src/storage/btree.rs:149-256 | one insertion keeps every invariant of the stored tree |
| TreeRuns.RunsKeep | src/storage/btree.rs:149-256 | after every run without equal separators the tree is sound and its map is what remains when the insertions that met their promoted copy are left out |
| TreeRuns.RunsAreRight | src/storage/btree.rs:149-256 | if none did, there are no dead copies and the map holds the last value given to each key |
| TreeRuns.SmallFreshRuns | src/storage/btree.rs:149-213 | a run of new keys with entries of cost at most 3039 meets neither, so it is right as written |
| TreeRuns.SmallRunsNeverClash | src/storage/btree.rs:67-70 | with entries of that cost a run that meets no promoted copy never gets equal separators |
| TreeRuns.RunsFitIff | src/storage/btree.rs:52-71 | every node fits its page throughout a run iff no insertion meets an overfull parent or leaf |
| TreeRuns.RunsFit | src/storage/btree.rs:52-71 | in every run with entries of cost at most 240 and keys of at most 204 bytes every node fits its page, whichever way ties go |
| TreeFit.InsertFitsIff | src/storage/btree.rs:52-71 | from any fitting tree, all nodes fit after an insertion iff its descent meets no parent that outgrows its page by the promoted key and no leaf that does by the entry |
| TreeFit.InsertFits | src/storage/btree.rs:189-248 | one insertion keeps every node within its page under the bound 240 and 204 |
| TreeFit.SplitRoomy | src/storage/btree.rs:215-249 | after the split of a fitting node both halves have room for one more entry, though neither is tested for it |
| TreeExact.InsertStaysTidyIff | src/storage/btree.rs:149-249 | every node is still sorted after an insertion iff no split on its way promotes a separator that is there already |
| TreeExact.InsertKeepsOrderIff | src/storage/btree.rs:149-249 | an insertion keeps the search order iff this holds and, where dead copies are excluded, it meets no promoted copy of its key as written |
| TreeExact.RunsOrderedIff | src/storage/btree.rs:149-249 | a run stays ordered throughout iff this holds of each of its insertions |
| TreeExact.LastValueFoundIff | src/storage/btree.rs:200-206 | after a run without equal separators, search finds the last value given to a key iff its last insertion met no promoted copy or found the value there |
| TreeTies.UndoubledAnswer | src/storage/btree.rs:130-143 | in nodes with equal separators, wherever each binary search stops, a key that no node has twice has one answer, and it is the one of the search as modelled |
| TreeFailure.AttemptInsertIsInsertion | src/storage/btree.rs:149-213 | an attempt succeeds iff every node of the intended tree fits, and then yields that tree; it takes the same pages either way |
| TreeFailure.AttemptInsertKeeps | src/storage/btree.rs:149-266 | whether it succeeds or fails, the reachable tree keeps its shape, fits its pages and reaches none twice |
| TreeFailure.AttemptInsertRanged | src/storage/btree.rs:149-249 | whether it succeeds or fails, unless two equal separators arise, every node stays sorted and every subtree between its separators |
| TreeFailure.AttemptInsertAnswers | src/storage/btree.rs:149-249 | every answer after an attempt, with or without dead copies: the new value if it was saved where search arrives, for keys cut off what the left half holds, and the old answer otherwise |
| TreeFailure.FailureLosesRightHalves | src/storage/btree.rs:200-210 | without dead copies every key, the failed one included, is answered with its new value if that was saved, not at all if it was cut off, and as before otherwise |
| TreeAnswers.DrainedAnswers | src/parser/engine.rs:112-116 | after any run of attempts without equal separators, every answer of search |
| TreeAnswers.LastFoundIff | src/parser/engine.rs:112-116 | after such a run, if none failed over a dead copy, search finds the last value given to a key iff its attempt left it to be found and no later one cut it off |
| TreeAnswers.SmallDrainNeverClashes | src/parser/engine.rs:112-116 | with entries of cost at most 3039 a run of attempts that meets no promoted copy never gets equal separators, whatever fails |
| TreeOrigin.AnswersWereGiven | src/storage/btree.rs:121-249 | after any run of attempts an answer for a key is a value that was given to it |
| TreePages.ChainIsInOrder | src/storage/btree.rs:225-245 | following the leaf links visits every leaf of the tree once, in tree order, and ends |
| TreePages.InsertNonFullChained | src/storage/btree.rs:225-245 | insertion keeps the links in order |
| TreeScan.ScanIsContents | src/parser/engine.rs:902-934 | without dead copies walking the leaves lists entries in key order and lists exactly what search answers |
| TreeScan.ScanIsContentsIff | src/parser/engine.rs:902-934 | of ordered trees with or without dead copies, it does so iff there are none |
| TreeScan.LastIsFound | src/parser/engine.rs:902-934 | with or without dead copies, search answers the last copy that the leaves list |
| TreeLeaves.MadeLeaves | src/storage/btree.rs:174-249 | an attempt replaces the leaf it arrives at by one or two new ones in the pages, and no other leaf |
| TreeLeaves.AttemptIsPart | src/storage/btree.rs:200-210 | what search can reach after an attempt is part of what the attempt wrote |
| TreeChain.InsertKeepsChain | src/storage/btree.rs:225-245 | after every attempt, successful or not, the links from the leftmost leaf form one chain without repetition that ends and leads past every leaf of the tree; further leaves are in pages the tree does not reach |
| TreeChain.InsertListing | src/storage/btree.rs:174-249 | an attempt changes what the chain lists by one entry under its own key, put in or overwritten, iff its leaf was saved, and otherwise not at all |
| TreeChain.CutOffStaysListed | src/storage/btree.rs:200-210 | an entry that search loses by a failed attempt is still listed |
| TreeChain.ListedForever | src/storage/btree.rs:200-249 | after any run of attempts a key is listed iff one of its leaves was ever saved |
| TreeChain.WholeChainIsLeaves | src/storage/btree.rs:225-245 | while the tree reaches every page, the chain is exactly its leaves in order |
| TreeChain.FittingScanIff | src/parser/engine.rs:902-934 | after a run in which everything fits and no equal separators arise, the chain lists what search answers, in key order, iff no dead copy was made |
| TreeDeviations.SecondValueLost | src/storage/btree.rs:203 | a reachable fitting tree on which a new value for a stored key is never found, while the corrected comparison finds it |
| TreeDeviations.OversizedEntryBreaksOrder | src/storage/btree.rs:215-249 | two insertions after which two equal separators enclose an empty leaf |
| TreeDeviations.ThresholdPlusEntryDoesNotSuffice | src/storage/btree.rs:189-213 | nine insertions of cost at most 1020, the last of which overflows a page although 3072 + 1020 does not |
| TreeDeviations.FailedInsertLosesKeys | src/storage/btree.rs:200-210 | that last insertion is refused, and an entry stored before is not found any more |
| TreeDeviations.DoubledKeyMayBeMissed | src/storage/btree.rs:134-142 | with two equal separators a search for that key may find its value or nothing, while another key has one answer |
| ScanDeviations.ScanShowsWhatSearchMisses | src/parser/engine.rs:902-934 | a reachable fitting tree whose chain lists a second value for a key before the first, which is all that search finds |
| ScanDeviations.ScanAndSearchDisagree | src/parser/engine.rs:905-925 | there the second version of a row is what a scan shows, and search never returns it |
| ScanDeviations.ScanShowsWhatSearchLost | src/parser/engine.rs:902-934 | after a refused insertion the chain still lists an entry that search does not find any more |
| ChainStores.InsertStoresChain | src/storage/btree.rs:149-266 | after an attempt the pages hold every leaf of the next chain, those beyond the tree included |
| BPlusTrees.BPlusTree.Open | src/storage/btree.rs:81-119 | the file is the old one with the logged page images replayed, a root page is made if there is none; on any log, over the tier's limit or not, the record logged last is cached, every cached key that was logged holds its last logged value and any other what it held, and if time goes on the logged keys that stay are those logged latest; below the limit the cache gains the last logged value of each record |
| BPlusTrees.BPlusTree.ReplayEntry | src/storage/btree.rs:90-100 | a logged record is always stored, whatever is evicted before, and what is evicted is no younger than what stays |
| BPlusTrees.BPlusTree.Get | src/storage/btree.rs:121-147 | the cached value if there is one, else the search result of the stored tree; no page read fails |
| BPlusTrees.BPlusTree.SaveNode | src/storage/btree.rs:258-266 | a node that fits is logged, then written and readable; one that does not changes nothing |
| BPlusTrees.BPlusTree.SplitChild | src/storage/btree.rs:215-249 | the pages hold both halves, the node in memory has the promoted key and the new child, no other page changes, and saving never fails |
| BPlusTrees.BPlusTree.InsertNonFull | src/storage/btree.rs:174-213 | the pages below hold exactly the attempted tree, also after a failure, and only its own and new pages change |
| BPlusTrees.BPlusTree.Insert | src/storage/btree.rs:149-172 | the file holds exactly the attempted tree, which is the intended one iff that fits, and exactly the next chain of leaves, which lists one entry more or another value or the same; replaying the images logged meanwhile on the old file gives the new one; nodes stay sorted and the map is updated under the exact conditions; small entries never fail |
| MemoryTiers.MemoryTier.Insert | src/storage/mod.rs:55-66 | over the limit a tenth is evicted first; then the entry is stored with its time |
| MemoryTiers.InsertEvictsTenth | src/storage/mod.rs:55-75 | in numbers: if 256 bytes for each entry exceed the limit in megabytes, exactly a tenth of the entries go, none of them younger than one that stays, and otherwise none |
| MemoryTiers.MemoryTier.EvictLru | src/storage/mod.rs:68-75 | exactly the smaller of count and size many keys go, from both maps, none inserted later than a survivor |
| MemoryTiers.SortByTime | src/storage/mod.rs:70 | the stamps in time order, the same keys, each once |
| MemoryTiers.OldestGone | src/storage/mod.rs:71-74 | the first stamps in time order are no later than any other |
| MemoryTiers.MemoryTier.Get | src/storage/mod.rs:39-53 | the cached value, with no time refreshed |
| MemoryTiers.MemoryTier.Remove | src/storage/mod.rs:77-80 | the key leaves both maps |
| MemoryTiers.MemoryTier.Clear | src/storage/mod.rs:82-85 | both maps are empty |
| MemoryTiers.OccupancyBound | src/storage/mod.rs:55-75 | every run of insertions from empty keeps at most max(4096 * limit + 1, 10) entries, and both maps the same keys |
| MemoryTiers.OccupancyAfterLowering | src/storage/mod.rs:55-75 | after the limit was lowered each insertion shrinks the tier until max(4096 * limit + 1, 19) is met, and it stays met |
| MemoryTiers.EnoughInsertsReachBound | src/storage/mod.rs:55-75 | as many insertions as there were entries always meet that bound |
| WalLog.Recover | src/storage/wal.rs:58-76 | the cursor loop computes the recovered entries of the file, and ends |
| WalLog.FrameRecovered | src/storage/wal.rs:60-72 | a whole frame at the cursor yields its entry and moves the cursor behind it |
| WalLog.StraddlingRead | src/storage/wal.rs:61-62 | the length read over one to three pad bytes is the low bytes of the next frame's length, shifted |
| WalShift.AheadLoses | src/storage/wal.rs:58-76 | a cursor that is ahead of the frames never returns all entries in order, whatever bytes the entries contain |
| WalShift.PhantomLoses | src/storage/wal.rs:58-76 | nor does one that met a straddling nonzero length |
| WalRecovery.TornTail | src/storage/wal.rs:59-75 | from any byte prefix of a clean log exactly the entries lying wholly in it are recovered |
| WalRecovery.TornTailMonotone | src/storage/wal.rs:59-75 | always a prefix of what was written, and a longer file never yields less |
| WalRecovery.RoundTrip | src/storage/wal.rs:58-112 | a clean log is recovered entry for entry |
| WalRecovery.RoundTripIffClean | src/storage/wal.rs:58-112 | and only a clean one |
| WalRecovery.TornTailIffClean | src/storage/wal.rs:58-112 | exactly the clean logs survive being cut off at every point |
| WalRecovery.WholePaddingIsClean | src/storage/wal.rs:97-112 | a log whose batches, the last excepted, avoid three sizes modulo 4096 is clean |
| WalRecovery.ThreePadBytesLoseABatch | src/storage/wal.rs:58-112 | two batches, the first of 4093 bytes, that are not recovered |
| WalRecovery.TornThenAppended | src/storage/wal.rs:58-93 | of a log torn inside a frame and appended to, the entries before are recovered, the torn frame takes the bytes it lacks from what follows, and recovery goes on behind them, or stops if there are too few |
| Wals.Wal.Open | src/storage/wal.rs:48-128 | the recovered entries of the file, an empty queue, the 32 MiB limit |
| Wals.Wal.ReadAll | src/storage/wal.rs:190-193 | recovered entries are handed out once |
| Wals.Wal.Enqueue | src/storage/wal.rs:135-149 | appended at the end by the first of 1002 attempts that finds room in what others left of the queue, refused iff none does |
| Wals.Wal.PopEntry | src/storage/wal.rs:195-197 | the oldest entry leaves the queue |
| Wals.Wal.FlushPipeline | src/storage/wal.rs:151-188 | the frames of a prefix of the queue go to the writer, nonempty iff the queue was, all of it if its frames stay below the limit, the buffers change roles and both are left empty |
| Wals.OneFlush | src/storage/wal.rs:126-188 | one flush of a new log sends any queue of less than 33554432 bytes of frames in one batch and leaves nothing |
| Wals.Wal.FillBuffer | src/storage/wal.rs:167-176 | the pop loop stops after the entry with which the buffer reaches the limit |
| Wals.Wal.WriteNext | src/storage/wal.rs:97-112 | the oldest batch is appended, zero-padded to whole blocks |
| Wals.Wal.FlushAll | src/storage/wal.rs:97-188 | flushing until the queue is empty and writing until the channel is appends what was sent before and then the log file of the batches that repeated flushes make |
| Wals.AdaptiveLimit | src/storage/wal.rs:164-165 | for every length the queue can have, the limit is not raised |
| Wals.BatchBelowLimitPlusFrame | src/storage/wal.rs:164-176 | a batch is nonempty and smaller than the limit plus its last frame |
| Wals.FlushesDrain | src/storage/wal.rs:151-188 | repeated flushes drain the queue in order into nonempty batches |
| Wals.FlushWriteRecover | src/storage/wal.rs:58-188 | the log file of those batches is recovered as the queue was, iff it is clean |
| Wals.Reopened | src/storage/wal.rs:48-197 | entries queued in a new log, flushed and written are what the next start reads, iff the log is clean |
| Pipeline.Conservation | src/storage/wal.rs:135-197 | in every schedule each accepted entry is in exactly one of queue, buffer, sent batch, channel, log, drain batch, applied, discarded, exactly once, and nothing else is anywhere |
| Pipeline.BuffersAlwaysOwned | src/storage/wal.rs:157-162 | in every schedule a buffer has at most one owner, and holds entries only while its owner fills it |
| Pipeline.LogAndDrainKeepOrder | src/storage/wal.rs:151-188 | with one flusher the log and the applied sequence both follow enqueue order |
| Pipeline.SentInOrderIff | src/storage/wal.rs:151-188 | with any number of flushers, log and channel together follow enqueue order iff no batch was sent after one that starts behind it |
| Pipeline.DrainedInOrder | src/parser/engine.rs:95-119 | with any number of flushers, what was applied, then collected, then still queued is in enqueue order |
| Pipeline.DrainsInBatches | src/parser/engine.rs:98-117 | the drainer applies each batch whole before it collects again, and turns to applying with a thousand entries or an empty queue |
| Pipeline.CollectsAThousand | src/parser/engine.rs:98-105 | schedules in which it collects any number of entries up to a thousand, and at a thousand no more |
| Pipeline.QueuesBounded | src/storage/wal.rs:120 | in every schedule the queue holds at most a million entries and a drain batch at most a thousand |
| Pipeline.QueueTakesAMillion | src/storage/wal.rs:120 | a schedule that fills the queue with a million entries, and then it takes no more |
| Pipeline.CanAlwaysFinish | src/storage/wal.rs:151-188 | no deadlock: from any point of any schedule, flushers, writer and drainer can go on until everything accepted is logged, applied or discarded and nobody is at work |
| Pipeline.TwoFlushersReorder | src/storage/wal.rs:178-186 | a schedule of two flushers that logs two entries in the wrong order |
| Reads.TreeHasLatestIff | src/parser/engine.rs:112-116 | once the latest record of a key was applied, whatever was refused, and while nodes stay sorted and nothing fails over a dead copy, search finds it iff its attempt left it to be found and no later one cut it off |
| Reads.MemoryAlwaysCached | src/parser/engine.rs:457-466 | in every schedule the memory tier holds under a key the latest of the records that were written to it, and none that was only enqueued |
| Reads.MemoryAlwaysLatest | src/parser/engine.rs:457-466 | so of rows, whose records are always written to it too, nothing but the latest record |
| Reads.EvictionIff | src/storage/btree.rs:121-147 | in every schedule whose drained attempts leave nodes sorted, evicting keys changes no read iff under each of them the attempts left what memory holds |
| Reads.CacheTransparencyIff | src/storage/btree.rs:121-147 | if moreover nothing failed over a dead copy, evicting rows whose latest records were applied changes no read iff each of those attempts left its value to be found and no later one cut it off |
| Reads.SmallRecordsTransparent | src/storage/btree.rs:121-147 | with records of cost at most 240 under keys of at most 204 bytes, evicting such keys changes no read if equal keys go right or no promoted copy was met |
| Reads.ScheduleOf | src/parser/engine.rs:95-119 | every run of insertions is what some schedule drains, with the latest values in memory |
| DrainDeviations.EvictionLosesValue | src/parser/engine.rs:112-116 | a schedule after which evicting an applied key changes its read to a former value |
| DrainDeviations.EvictionLosesRecord | src/parser/engine.rs:112-116 | a schedule after which evicting applied keys loses them: one was refused, the other cut off by the refusal |
| DrainDeviations.DeletedRowComesBack | src/parser/engine.rs:874-934 | a schedule after which a scan returns a deleted row, and would not with tombstones marked |
| DrainDeviations.TreeNeverNewer | src/parser/engine.rs:95-119 | if the versions of a key never decrease, in every schedule its tree copy is no newer than its memory copy, whatever the tree lost |
| Occ.SerialEquivalence | src/parser/engine.rs:185-234 | after every interleaving of transactions the store is what re-executing the commits one by one leaves, each statement recomputed on the record then current |
| Occ.CommitIsRedo | src/parser/engine.rs:215-224 | without conflict, storing the pending images is re-executing their statements now |
| Occ.FirstCommitterWins | src/parser/engine.rs:200-224 | of two commits that wrote a common key, the earlier is no newer than the snapshot of the later transaction |
| Occ.RunHistory | src/parser/engine.rs:185-229 | in every run commits are in version order and every written key's version is at least its last writer's |
| Occ.AssignIsAssigned | src/parser/engine.rs:447-451 | of the assignments of an UPDATE the last one that names a column is what the column holds, and columns that none names are as before |
| Occ.AssignedIsOne | src/parser/engine.rs:447-451 | which determines the row |
| OccRuns.CommitRefusedIff | src/parser/engine.rs:185-214 | in every run a commit is refused iff since its BEGIN a key that it wrote was stored, by a modification or a commit or, once a version had been given out, an insertion of others: if nobody stored any of them it goes through |
| OccRuns.CommitStores | src/parser/engine.rs:200-229 | a refused commit stores nothing; any other gives out one version and stores at it exactly the keys written since BEGIN, each as its last statement made it: inserted rows live with their row and time, updated ones column by column, deleted ones as tombstones |
| OccRuns.AloneStores | src/parser/engine.rs:457-588 | outside a transaction a statement stores one key at once, a modification at a new version, an inserted row live at the current one |
| OccRuns.PendingStoresNothing | src/parser/engine.rs:456-457 | inside one nothing is stored before COMMIT |
| OccRuns.VersionCounts | src/parser/engine.rs:216 | the database version is the number of modifications outside transactions and of commits that went through |
| OccRuns.EndedWithoutTrace | src/parser/engine.rs:200-234 | in every run a transaction rolled back, or refused at its commit, leaves the database as the run without it does |
| OccRuns.VisibleAfterRestartIff | src/parser/engine.rs:67-81 | after a restart and n more versions a scan returns a surviving live record iff at most n versions had been given out when it was stored |
| OccRuns.UpdatedRowHidden | src/parser/engine.rs:67-81 | a run after which a visible row is not returned once the engine was restarted |
| Occ.SecondWriteReplaces | src/parser/engine.rs:436-457 | of two statements on a key in a transaction the second one's image of the stored record is what stays pending |
| Occ.SecondWriteSufficesIff | src/parser/engine.rs:436-521 | it is the image both would have made iff the first was redundant: it changed nothing that the second does not overwrite |
| Occ.LastStatementWinsIff | src/parser/engine.rs:447-451 | for two UPDATEs, iff every column only the first assigns had that value already |
| Occ.FirstUpdateLost | src/parser/engine.rs:436-457 | a committed transaction of two UPDATEs whose first left nothing |
| Occ.DeleteLost | src/parser/engine.rs:436-521 | a committed transaction that deletes and then updates a row, which is still there |
| Engines.StatementDoes | src/parser/engine.rs:435-528 | a statement over the keys a scan returned makes of each stored record what it says, pending or at versions of their own in order, and touches no other key |
| Engines.Engine.AssignAll | src/parser/engine.rs:447-451 | the loop over the assignments leaves in each column what the last one that names it says, and the other columns as they were |
| Engines.Engine.Begin | src/parser/engine.rs:185-199 | the begin step: an empty transaction at the current version |
| Engines.Engine.Rollback | src/parser/engine.rs:231-234 | the rollback step |
| Engines.Engine.Update | src/parser/engine.rs:435-472 | the loop over the matching rows is the sequence of single-key update steps, up to the first row that is gone, which is an error, and does to each row before that what the assignments say, and to no other |
| Engines.Engine.Delete | src/parser/engine.rs:502-531 | the loop over the matching rows is the sequence of single-key delete steps, up to the first row that is gone, which is an error, and makes each row before that a tombstone with its row and time, and no other |
| Engines.Engine.InsertRow | src/parser/engine.rs:574-588 | the insert step, pending in a transaction and stored at the current version outside |
| Engines.Engine.HasConflict | src/parser/engine.rs:202-214 | a conflict is found iff some written key has a stored version above the snapshot |
| Engines.Engine.Commit | src/parser/engine.rs:200-229 | the commit step; the outcome is a conflict iff one exists, and the transaction ends either way |
| Engines.StatementIsLegalSteps | src/parser/engine.rs:435-528 | a statement over any stored rows, stale, deleted or newer than the snapshot, is a sequence of legal steps and keeps every invariant the theorems rest on |
| OverlayScans.StoredRoundTrip | src/storage/btree.rs:23-29 | a stored record reads back from its encoding |
| OverlayScans.AnswerIsMeaningIff | src/parser/engine.rs:868-934 | the scan's answer for a key is the newest visible copy unless deleted, iff no unmarked visible tombstone in memory shadows a live tree copy |
| OverlayScans.ScanMeaning | src/parser/engine.rs:868-934 | the same for the rows of a whole scan, in both directions |
| OverlayScans.RepairedScanIsMeaning | src/parser/engine.rs:874-885 | a scan that also marks tombstones always returns exactly the newest visible live copies |
| OverlayScans.TreeRowsMember | src/parser/engine.rs:902-927 | from any list of entries, ordered or not, the tree part takes for each unprocessed key the first copy that shows something |
| OverlayScans.ScanIsIff | src/parser/engine.rs:868-934 | a scan over any list of entries answers what search would iff, wherever memory does not answer, the first copy listed that shows something shows what the found one does |
| TableScans.ScanMemory | src/parser/engine.rs:868-886 | one row for each visible live copy in memory, whatever order the map is iterated in, and the marked keys processed |
| TableScans.LeftmostLeaf | src/parser/engine.rs:888-900 | the descent ends in the leftmost leaf |
| TableScans.ScanChain | src/parser/engine.rs:902-934 | the loop over the chain ends, after failed insertions too, and adds for each unprocessed key the first visible live copy the chain lists |
| TableScans.ScanTable | src/parser/engine.rs:868-936 | in every state of the tree, one row per key under the prefix that memory or else the chain answers, with either kind of marking, exactly the overlay of memory and search where the chain lists what search answers, and no error if every record deserialises |
| TableScans.WholeListing | src/parser/engine.rs:902-934 | as long as no insertion failed the chain is the leaves of the tree, and it lists what search answers, in key order, iff there are no dead copies |
| TableScans.WeakScanIff | src/parser/engine.rs:868-934 | with dead copies a scan answers what search does iff, under each key that memory leaves to the tree, the first copy shown is what the last one listed shows |
| TableScans.ScanAfterFailureIff | src/parser/engine.rs:902-934 | from a tree on which scan and search agree, after an attempt on another key, they disagree about a key iff it was cut off and its entry shows something |
| Restarts.LastRecordKept | src/storage/btree.rs:88-101 | replay keeps the last logged value of every key |
| Restarts.Restart | src/storage/btree.rs:81-119 | start-up on any prefix of a clean log, with any number of records, caches the last surviving one, under every other cached key its last surviving value, and if time goes on those logged latest; within the tier's limit all of them |
| Restarts.ReadAfterRestart | src/storage/btree.rs:81-124 | after start-up a read of any logged key returns its last logged value, within the tier's limit, and over it still that of the key logged last |

## Left out

- BPlusTrees.BPlusTree.Insert: requires fewer than 2^32 pages, because the page count is truncated to 32 bits; and it starts from sorted nodes, because what the library's binary search finds in others is unspecified.
- BPlusTrees.BPlusTree.SaveNode: does not model a saturated log queue or a failing disk, which the code reports as errors.
- BPlusTrees.BPlusTree.SplitChild: takes and returns the parent's node as a value instead of changing it through a reference; the pages and the log are updated in place.
- BPlusTrees.BPlusTree.Open: starts with an empty log field; the log being recovered is its argument, and the background threads it starts are the steps of `Pipeline`.
- TreeRuns.WrittenInsertIsUpdateIff: says nothing of an insertion that leaves two equal separators: what a search in that node answers for the doubled key is a choice of the library, and insertions after that follow one such choice.
- Reads.CacheTransparencyIff: takes the write to the memory tier and the enqueueing of its log entry as one step; of a failure while there are dead copies, which can bring an older value back, `Reads.EvictionIff` says what is read.
- Reads.MemoryAlwaysLatest: speaks of rows; an index entry that CREATE INDEX wrote to memory (`src/parser/engine.rs:285`) is not overwritten there by the later ones that INSERT only enqueues (`:598`), nor is the schema record (`:628`).
- CREATE TABLE inserts the schema record into the tree itself, beside the drainer (`src/parser/engine.rs:323`); two insertions at the same time are not modelled.
- WalRecovery.TornThenAppended: covers logs torn behind the length of a frame, not inside it.
- Restarts.ReadAfterRestart: over the memory tier's limit covers the key logged last only, since an evicted key is answered by replayed pages, about which the code promises nothing.
- Crash consistency of the tree pages: the drain thread discards logged page images, so replay of a partial log need not give a tree.
- Wals.Wal.FlushPipeline: describes a sole consumer of the queue; interleaved consumers are in `Pipeline`, where a flusher may stop filling at any point.
- Wals.Wal.WriteNext: appends to the end of the file; an existing file whose length is not a multiple of 4096 is not extended.
- Occ.SerialEquivalence: takes each statement for one row and each commit as atomic, inserted keys as unique, and the store as one map, so it assumes that nothing is evicted or purged before it can be read again; the counter moves of `undo` and `redo` are left out.
- Engines.Engine.Update: starts from the keys its scan returned; evaluating WHERE is not modelled, and records are values instead of encoded bytes.
- Engines.Engine.InsertRow: covers one row; the index entries, the auto-increment counter and the schema record are not modelled.
- TableScans.ScanTable: has no index lookup, starts from sorted nodes, compares prefixes on bytes where the code compares decoded text, and returns the record instead of its decoded columns.
- The memory tier's limit is fixed during one call, `lru` times are parameters, and the occupancy theorems assume that the code's 64-bit size estimates do not overflow.
- Checksums are an arbitrary function; io_uring, aligned buffers, threads, channels and sleeps are not modelled.
- Network server, dashboard, SQL parsing, views, aggregates, WASM calls, vector search, hardware scan, hit-ratio and turbo-mode counters: interfaces and bookkeeping around this kernel.
