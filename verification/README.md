# A verified model of smolvfs

smolvfs is a content-addressed store: typed objects addressed by the BLAKE2b
hash of their type and plaintext, directories in two encodings that share one
address, a paged object map, packfiles, a mark-and-sweep collector, refs with
logs, signed version chains, and an in-memory filesystem that is snapshotted
into the store and restored from it. This project models that code in Dafny and
proves what it promises. `dafny verify dfyconfig.toml` checks all of it.

The code mostly works by changing buffers, arrays and records in place, and the
model does too: builders fill byte arrays, the object map shifts its directory
and writes pages back, the filesystem swap-removes nodes, the hasher buffers
blocks. Each such method is proved against a specification function on values,
and lemmas then prove what matters about that function. The formats on disk and
the codes each call answers are stated a second time without those functions, in
numbers: where every field lies, known answers, when exactly a call succeeds.

| file | models |
|---|---|
| `Bytes`, `Names`, `Entries`, `Objects` | integers in buffers, names and UTF-8, entries and hex, the object store |
| `TreeText`, `Htree`, `HtreeRead`, `HtreeFormat`, `Directory` | both directory encodings, their layout, storing, admission, lookup |
| `OmapSpec`, `Omap`, `OmapFormat` | the object map and the layout of its snapshots |
| `Depots`, `Gc`, `Tour`, `MarkFails`, `Preserve` | loose and packed objects as one depot, reachability, mark and sweep, the order of marking, when marking fails, what a collection keeps |
| `Refs`, `History` | ref files and logs as bytes, commits stopped anywhere, truncations, lines that do not read |
| `Pack`, `Packer`, `PackFormat`, `Compact`, `Spelling` | stored objects and packfiles as bytes, packing, reclaiming, compaction, upper-case addresses |
| `Runs` | whole runs of commits, truncations, stores, collections and compactions over one store |
| `Blake2b`, `Blake2bExample` | the streaming hash, and the worked example of RFC 7693 |
| `Sign`, `Topic`, `TopicGc` | version records, succession, publishing, walking a chain, what a record does to the collector |
| `VfsPath`, `VfsTree`, `Vfs`, `VfsLaws`, `VfsShort` | paths, the tree each call makes, the node array, when each call succeeds and what it changes, how long paths can get |
| `SnapSpec`, `Snap`, `Restore`, `SnapLaws`, `SnapFsck`, `SnapLimits`, `SnapEndless` | snapshots, restoring, what a snapshot lists, comparing, paths that do not fit, recursion without end |

## Assumptions

- The object hash, the packfile checksum, the codec table and the signature
  scheme are parameters, and every statement holds for all of them. No hash of
  fixed width is free of collisions, so a lemma that needs two objects not to
  collide says which: a pair of texts (`NoCollision`), the objects one history
  brings together (`Omap.Honest`, `Snap.NoClash`, `Snap.Trusted`), the record
  being published (`Topic.Unclashed`). `Packer` asks that a codec decode what it
  encoded (`Faithful`).
- Clocks, directory read order, modification times and the readability of files
  are parameters. Allocation and file operations succeed, except where a commit,
  a sweep or a compaction is stopped between two of its steps.
- Strings are byte sequences. Where the code takes a C string the model's string
  has no NUL, or is cut at its first NUL.

## Where the code does less than it says

- `cas_omap_alloc` can answer 0 for a range at the end of the id space: the page
  after the last one is computed in 64 bits (`Omap.AllocIsLeastFree` has the
  exact condition, `Omap.AllocWraps` an instance).
- `cas_tree_store` accepts upper-case child addresses and keeps them in the text
  that fixes the object's address; the table form loses the case, and its own
  verifier then refuses the object (`Directory.StoredHtreeIsAdmissible`).
- The mark tests whether an address is marked before it descends, so a tree also
  used as a file can hide what it lists: exactly when it is met as a file first
  (`Tour.ReadsAllIff`). What the first such tree alone leads to is lost
  (`Tour.FirstUnreadLoses`; `Preserve.DualUseLosesAnObject` is an instance).
- The collector ignores the result of reading a log, so one unreadable line hides
  every later commit from it (`Refs.CommitIsVisible`). A commit makes such a line
  exactly when its first line is too long for the read buffer or its comment has a
  newline and some later line of it is not a log line itself
  (`Refs.CommittedLineReadsIff`, `Refs.NewlineBreaksTheLog`); the next tree
  committed is then swept while the root file names it
  (`History.HiddenTreeIsSwept`, `History.NewlineLosesTheNextCommit`). Where every
  later line is a log line it reads as a commit nobody made
  (`Refs.NewlineForgesAnEntry`), and a leading space is dropped
  (`Refs.AppendedEntryReadsBack`).
- A grace period that reaches back to the epoch spares nothing
  (`Preserve.GraceSpares`).
- Log truncation takes the newest entry for the root; after an interrupted commit
  it can drop the entry that protects the live tree
  (`History.TruncationAfterInterruptedCommit` is an instance,
  `History.TruncationRecoverableIff` the exact condition).
- `cas_topic_publish` commits a version record as the root of a ref. The mark takes
  every log entry for a directory, so from then on no collection and no compaction
  of that store gets past its mark, unless some directory names the record as a
  file (`TopicGc.LoggedRecordStopsMarking`, `TopicGc.PublishedRecordStopsMarking`).
- Packing may compress an object beyond what the decoder accepts, and the pack is
  read before the loose file, so the object becomes unreadable although its loose
  copy is still there: exactly when its packed form is out of bounds
  (`Compact.ReloadReadsIff`; `Packer.PackingCanMakeUnreadable` is an instance). Without compression this cannot happen
  (`Compact.NeverCompressing`).
- `cas_put_object` writes files the readers refuse for their size
  (`Pack.PutReadsBack`).
- A packed object referred to by an upper-case address is readable until a
  compaction drops it (`Compact.MarkedSurvivesCompaction` has the condition for
  one address, `Compact.CompactionPreservesIff` for all, `Spelling.UpperCaseIsLost`
  is an instance).
- A topic whose head record is gone accepts any record
  (`Topic.MissingHeadAcceptsAnything`, `Topic.MissingHeadAcceptsSeventh`).
- cas-pack.h:185 says that filtering everything out writes an empty pack; the
  code leaves the pack in place (cas-pack.c:765-796), and the model follows the code.
- `vfs_rename` does not bound the length of a descendant's new path, so nodes
  can end up at paths that no call accepts: exactly when the subtree is not given
  room (`VfsShort.RenameStaysShort`, `VfsShort.RenameHides`,
  `VfsShort.RenameMakesOverlong`). A snapshot of such a tree is refused
  (`Snap.SnapStore`), except that a subdirectory's path, cut to the buffer, can name
  the directory being listed or its parent (`Snap.CutLeadsBack`). Such a directory
  is never stored, so if nothing else is refused the code recurses without end
  (`Snap.StoringEndsIff`; `SnapEndless.StoringMayNeverEnd` is an instance); if
  something met before it is refused, the call ends there.
- `restore_dir` can recurse without end in a depot with a directory inside itself,
  because at the longest path length the path of an entry is that of its own
  directory; whether it does depends on what else is listed
  (`SnapEndless.RestoringItself`).
- `fsck_dir` knows children by their cut paths too, so an overlong directory can
  pass for a missing one (`SnapLimits.OverlongIsMissed`); with short paths it
  cannot (`SnapFsck.NoDifferenceIffSame`); `SnapLimits.SilentIff` says in general
  when nothing is reported. It also passes over a directory that
  does not load (`SnapFsck.Errors`), so `SnapFsck.FsckCountsDifferences` is about
  snapshots whose objects are all stored.

## Model

| member | source | states |
|---|---|---|
| `Bytes.LeOfFromLe` | cas-tree.c:218-251 | every byte string is the little-endian encoding of the number it denotes, which fits its width |
| `Bytes.Le32RoundTrip` | cas-tree.c:218-234 | reading a stored 32-bit field gives the value modulo 2^32, and the value itself when it fits |
| `Bytes.Le64RoundTrip` | cas-tree.c:236-251 | the same for 64-bit fields |
| `Bytes.StoreLe32` | cas-tree.c:218-225 | the four stores change exactly the four bytes at the position, to the little-endian encoding |
| `Bytes.StoreLe64` | cas-tree.c:236-241 | the store loop changes exactly the eight bytes at the position |
| `Names.NameCmpIsLess` | cas-tree.c:104-117 | name_cmp is negative, positive or zero exactly for lexicographically smaller, greater or equal byte strings |
| `Names.RangeTestsAreTheGrammar` | cas-tree.c:133-178 | the overlong, surrogate and maximum tests on the accumulated value accept exactly the productions of section 4 of RFC 3629 |
| `Names.ScanSequence` | cas-tree.c:133-178 | one multi-byte sequence is accepted, with its length, exactly when a production of the grammar starts there |
| `Names.ValidUtf8` | cas-tree.c:133-178 | accepts exactly the strings of section 4 of RFC 3629 |
| `Names.ByteOrderIsCodePointOrder` | cas-tree.c:104-178 | on well-formed names the unsigned byte order is the lexicographic order of the code points |
| `Names.AcceptedIsSpelled` | cas-tree.c:133-178 | what is accepted spells a sequence of Unicode scalar values, each in its shortest form |
| `Names.SpelledIsAccepted` | cas-tree.c:133-178 | and every such spelling is accepted and gives those values back |
| `Names.NameIff` | cas-tree.c:181-191 | a name is admitted exactly when it has 1 to 255 bytes, none of them a NUL, a newline or a separator, and spells text |
| `Entries.HexDecodeOfEncode` | cas.c:1657-1688 | decoding an encoded digest gives it back |
| `Entries.HexEncodeOfDecode` | cas.c:1657-1688 | encoding a decoded address gives its lower-case spelling, so the address itself exactly when it was lower case |
| `Entries.HexDigitsOf` | cas.c:1657-1688 | each byte of a digest is two digits of its address, the high one first, letters in lower case |
| `Objects.Store.PutAt` | cas.c:1117-1203 | an address already present is left alone, a free one gets the object |
| `Objects.Store.Put` | cas.c:1004-1115 | stores at the hash of type and plaintext, and never replaces |
| `TreeText.TreeSerialize` | cas-tree.c:289-330 | measuring and printing in place fills the buffer exactly, with the canonical text |
| `TreeText.NumberAnswers` | cas-tree.c:289-330 | known numbers as the format prints them: modes in octal with six digits at least, the others in decimal, negative ones with a sign |
| `TreeText.LineAnswer` | cas-tree.c:289-330 | the whole line of a file, field by field, and the first byte of a directory text |
| `TreeText.ParsePrintedEntry` | cas-tree.c:728-764 | parse_entry of a printed line gives the entry back, whatever bytes follow the line |
| `TreeText.TreeTextLoad` | cas-tree.c:766-810 | the line loop computes the specified listing, or refuses it |
| `TreeText.TextRoundTrip` | cas-tree.c:766-810 | loading a printed directory gives it back entry for entry |
| `TreeText.SerializeInjective` | cas-tree.c:289-330 | two directories with the same text are equal |
| `TreeText.TreeTextLookup` | cas-tree.c:605-658 | the early-exit scan computes the specified lookup |
| `TreeText.TextLookupIsListing` | cas-tree.c:605-658 | on a text that loads, lookup finds exactly the entry the listing has under the name and misses exactly when it has none |
| `TreeText.VerifiedTextsAreThePrintedOnes` | cas-tree.c:1447-1466 | verification accepts a byte string if and only if it is the printed text of some directory |
| `Htree.DjbHash` | cas-tree.c:265-273 | the loop computes the 32-bit name hash |
| `Htree.Adler32` | cas-tree.c:253-263 | the loop computes the checksum of a prefix of the buffer |
| `Htree.DjbAnswers` | cas-tree.c:265-273 | the name hashes of nothing, of a and of abc |
| `Htree.AdlerIs` | cas-tree.c:253-263 | the checksum is the sum of sums above the sum, both modulo 65521 |
| `Htree.HashNames` | cas-tree.c:356-367 | the first pass gives each entry its hash, each bucket its count, and the total record size |
| `Htree.WriteRecord` | cas-tree.c:394-415 | the field stores write exactly one record |
| `Htree.WriteRecords` | cas-tree.c:387-416 | the record loop writes all records and remembers where each starts |
| `Htree.PlaceSlot` | cas-tree.c:428-441 | the probe loop ends, and claims the first empty slot at or after the home slot |
| `Htree.FillBucket` | cas-tree.c:424-442 | one bucket: every entry of it is placed; twice as many slots as entries always leave room |
| `Htree.WriteTables` | cas-tree.c:418-445 | the table loop writes every header entry and table in place |
| `Htree.Build` | cas-tree.c:332-458 | the in-place builder produces exactly the specified encoding of the directory |
| `HtreeRead.ParseDir` | cas-tree.c:460-529 | the record scan computes the specified listing, or refuses it |
| `HtreeRead.LookupEntry` | cas-tree.c:531-600 | the probe loop computes the specified lookup |
| `HtreeRead.EncodedLength` | cas-tree.c:369-377 | a built object is 2048 + 8 bytes plus 80 bytes and its name for each entry |
| `HtreeRead.UnpackData` | cas-tree.c:275-287 | unpacking a packed entry changes only the case of its address |
| `HtreeRead.ParseOfEncode` | cas-tree.c:460-529 | parsing what the builder wrote gives the directory back, its addresses in lower case |
| `HtreeRead.EveryEntryIsPlaced` | cas-tree.c:420-445 | every entry has a slot in its bucket with all slots from its home to it in use, colliding hashes included |
| `HtreeRead.UsedSlotsHoldEntries` | cas-tree.c:420-445 | every used slot names some entry of the bucket, with its hash and record offset |
| `HtreeRead.ProbeOfEncode` | cas-tree.c:531-600 | on a built object the probe returns, for every name, exactly the entry listed under it, and absence exactly when none is |
| `HtreeFormat.FooterFormat` | cas-tree.c:446-458 | a built object ends in the checksum of everything before it and the four letters of its format |
| `HtreeFormat.ReadsOnlyFramed` | cas-tree.c:460-480 | nothing is listed from, or found in, bytes without that ending, and a listing needs the right checksum |
| `HtreeFormat.HeaderFormat` | cas-tree.c:418-426 | header entry b holds where the table of bucket b starts and that it has two slots for each entry whose hash is b modulo 256 |
| `HtreeFormat.RecordFormat` | cas-tree.c:394-404 | where the record of an entry starts, and its two lengths and its key |
| `HtreeFormat.FieldsFormat` | cas-tree.c:405-415 | where each field of an entry lies in the record, and how it is coded |
| `HtreeFormat.EntryIsFound` | cas-tree.c:428-441 | a reader that starts at slot hash / 256 of bucket hash % 256 and goes on while slots are in use comes to the slot with the hash and the record of the entry |
| `Directory.SortByName` | cas-tree.c:676-678 | some arrangement in name order with the same entries |
| `Directory.SortDistinct` | cas-tree.c:673-686 | sorting succeeds exactly when no two entries share a name, and then ascends strictly |
| `Directory.StoredForms` | cas-tree.c:673-722 | the types and bytes of the two forms, and that the address is the hash of the text form |
| `Directory.TreeStore` | cas-tree.c:673-722 | stores either form at the address of the text form of the sorted directory; refuses exactly repeated names, changing nothing |
| `Directory.AscendingIsUnique` | cas-tree.c:673-686 | a set of entries has at most one ascending arrangement |
| `Directory.AddressIgnoresOrder` | cas-tree.c:673-722 | the address depends on the set of entries alone |
| `Directory.VerifiedHtreesAreTheBuiltOnes` | cas-tree.c:1487-1529 | htree_verify accepts bytes at an address if and only if they are what htree_build writes for a canonical lower-case directory with that address |
| `Directory.AdmittedHtreeAgrees` | cas-tree.c:1487-1529 | on a verified table, lookup by probing and listing by scanning agree on every name |
| `Directory.PutChecked` | cas-tree.c:1594-1604 | stores exactly when the object is admissible at the address, and refuses without a change |
| `Directory.AdmissibleIff` | cas-tree.c:1567-1592 | an object is admitted at its hash alone; a directory text also only if it is the one its listing prints; a table exactly if it is built from a canonical lower-case directory with that address |
| `Directory.LoadsIff` | cas-tree.c:812-835 | what each type of object loads as; a listing ascends strictly and has valid names only |
| `Directory.StoredTextIsAdmissible` | cas-tree.c:1567-1592 | what cas_tree_store writes as text always passes verification |
| `Directory.StoredHtreeIsAdmissible` | cas-tree.c:1487-1529 | what it writes as a table passes exactly when every child address is spelled in lower case |
| `Directory.UpperCaseHtreeIsRefused` | cas-tree.c:1487-1529 | a one-entry directory the store accepts and whose table its own verifier refuses |
| `Directory.LookupIsListing` | cas-tree.c:837-859 | in a depot filled through admission, lookup in any directory is finding in its listing |
| `Directory.FormsAgree` | cas-tree.c:1487-1529 | a text and a table admitted at one address hold the same listing |
| `OmapSpec.CountIsSize` | cas-omap.c:596-604 | under the invariant the population counts add up to the size of the map |
| `OmapSpec.DecodeOfRoot` | cas-omap.c:299-362 | reading a written root gives its entries back |
| `OmapSpec.SnapshotsArePermanent` | cas-omap.c:299-423 | a stored snapshot keeps denoting the same map while the depot grows |
| `OmapSpec.EditSlot` | cas-omap.c:468-524 | changing one slot of one page changes the denoted map at that id alone |
| `OmapSpec.InsertEmpty` | cas-omap.c:118-150 | inserting an empty page changes nothing the directory denotes |
| `OmapSpec.LiveIsCanon` | cas-omap.c:368-423 | once every page is clean, the stored entries are the canonical ones of the map |
| `OmapFormat.PageFormat` | cas-omap.c:372-391 | a page object is 8192 bytes, 32 for each of its 256 ids, zeros where the map has none |
| `OmapFormat.EntriesFormat` | cas-omap.c:368-423 | the entries of a snapshot are those of the pages that hold some id, ascending, each with the address of the page and the number of its ids |
| `OmapFormat.RootFormat` | cas-omap.c:397-423 | the root starts with its four letters and the number of entries |
| `OmapFormat.RootEntryFormat` | cas-omap.c:397-423 | where page number, address and population of an entry lie among its 48 bytes |
| `OmapFormat.RootReadsIff` | cas-omap.c:299-362 | which objects load as a snapshot root, and which are refused for their type |
| `Omap.ObjectMap.constructor` | cas-omap.c:267-276 | the new object stands for the empty map |
| `Omap.ObjectMap.DirFind` | cas-omap.c:102-116 | binary search: the number of entries before the page, and whether it is there |
| `Omap.ObjectMap.DirInsert` | cas-omap.c:118-150 | the shifted directory stays sorted and denotes the same map |
| `Omap.ObjectMap.PageLoad` | cas-omap.c:156-224 | makes a page resident without changing what is denoted |
| `Omap.ObjectMap.PageEnsure` | cas-omap.c:229-261 | makes the entry exist and its page resident without changing the map |
| `Omap.ObjectMap.Get` | cas-omap.c:429-454 | answers the map, whatever is cached, dirty or evicted |
| `Omap.ObjectMap.Exists` | cas-omap.c:456-462 | true exactly for mapped ids |
| `Omap.ObjectMap.Put` | cas-omap.c:468-495 | a map update; the invariant survives exactly when the digest is not all zero |
| `Omap.ObjectMap.Del` | cas-omap.c:497-524 | a map removal, or not-found without a change |
| `Omap.ObjectMap.Clear` | cas-omap.c:526-535 | the empty map |
| `Omap.ObjectMap.Count` | cas-omap.c:596-604 | the size of the map |
| `Omap.ObjectMap.FlushPages` | cas-omap.c:368-395 | writes every dirty page back without changing the map |
| `Omap.ObjectMap.StoreSnapshot` | cas-omap.c:368-423 | the root address is a function of the map alone, and the depot then holds a snapshot of it there |
| `Omap.ObjectMap.Load` | cas-omap.c:299-362 | a root that holds a snapshot of m makes the object stand for m; a refused root changes nothing |
| `Omap.ObjectMap.Alloc` | cas-omap.c:541-590 | while some id is free the page-skipping scan ends and answers the specified id |
| `Omap.AllocIsLeastFree` | cas-omap.c:541-590 | while some id is free that answer is the least free id of the range, full when there is none, exactly when the scan does not run off the last page |
| `Omap.AllocWraps` | cas-omap.c:541-590 | a map of exactly the last page for which the scan wraps and answers 0 |
| `Omap.ObjectMap.Foreach` | cas-omap.c:617-651 | visits every mapped id once, in ascending order, with its digest |
| `Omap.Step` | cas-omap.c:267-651 | one call on the paged object answers and changes as the plain map does |
| `Omap.Run` | cas-omap.c:267-651 | any sequence of put, del, get, exists, count, clear, alloc, foreach, store and load of a stored root behaves as a plain map with remembered snapshots |
| `Gc.HashSet.Contains` | cas-gc.c:36-43 | membership |
| `Gc.HashSet.Add` | cas-gc.c:45-62 | adds one element and no other |
| `Gc.MarkTree` | cas-gc.c:64-106 | the recursive mark ends on any graph and computes the specified marks and result |
| `Depots.DirEntryIff` | cas-gc.c:86-92 | what sort of entry it is lies in bits 12 to 15 of its mode |
| `Gc.MarkRefs` | cas-gc.c:114-139 | the loops over refs and log entries compute the marks of all roots in turn, up to the first failure |
| `Gc.MarkedIsReachable` | cas-gc.c:64-139 | a successful mark finds only what the log entries reach, and all of it exactly when nothing first marked as a file is also a directory with unmarked children |
| `Tour.OrderReaches` | cas-gc.c:64-139 | the order of a depot meets as directories exactly what can be walked to from the roots |
| `Tour.ReadsAllIff` | cas-gc.c:64-106 | the mark reads every directory that can be walked to if and only if none of them is met as a file before it is met as a directory, a condition on the depot and the order of roots and entries alone |
| `Tour.ReadsAllMarks` | cas-gc.c:64-139 | it then marks exactly what the log entries reach |
| `Tour.MarkedIsAround` | cas-gc.c:64-106 | in every depot the marked addresses are exactly those reachable without passing through a directory first met as a file |
| `Tour.FirstUnreadLoses` | cas-gc.c:64-106 | in every depot the first directory met as a file before leaves unmarked, though reachable, whatever is led to by it alone |
| `Tour.NoDualUseReadsAll` | cas-gc.c:64-106 | the condition holds when no directory is named as a file at all |
| `MarkFails.CanMarkIff` | cas-gc.c:64-139 | where every directory is read, the mark succeeds exactly when every address met as a directory before anything else loads as a listing or is missing |
| `MarkFails.FailingMark` | cas-gc.c:64-106 | in every depot an address met as a directory before anything else, at which something else is stored, makes the mark fail, if no directory before it was met as a file first |
| `MarkFails.RootMustBeTree` | cas-gc.c:75-80 | in every depot a log entry of something that is no directory, and that no directory names as a file, makes the mark fail |
| `Preserve.DualUseLosesAnObject` | cas-gc.c:64-106 | a stored graph, with one tree used both ways, of which a reachable object is left unmarked |
| `Gc.Sweep` | cas-gc.c:150-172 | stopped after any number of visits it has removed exactly the visited objects that are neither marked nor spared by age, and counted them |
| `Gc.SweptToTheEnd` | cas-gc.c:150-172 | a walk to its end leaves exactly the marked and the spared |
| `Gc.SweptIff` | cas-gc.c:174-210 | what a sweep leaves is what is marked and, with a grace period that stays after the epoch, what is not older than it; without one only what is marked |
| `Gc.Collector.Gc` | cas-gc.c:174-210 | a failed mark leaves the depot alone; a successful one is followed by the sweep of exactly its marks, up to the visit where it is stopped; run to its end it leaves a loose object exactly when it is marked or not older than a positive grace period |
| `Preserve.CollectionPreserves` | cas-gc.c:174-210 | when every directory is read, everything reachable from a log entry opens to the same object after a collection |
| `Preserve.StoppedCollectionPreserves` | cas-gc.c:174-210 | and after a collection stopped between any two visits of its sweep |
| `Preserve.FirstUnreadIsSwept` | cas-gc.c:150-172 | what only the first unread directory leads to is swept, unless spared by age |
| `Preserve.SweptIsGarbage` | cas-gc.c:150-172 | a loose object goes exactly when nothing reaches it and it is not spared by age |
| `Preserve.GraceSpares` | cas-gc.c:158-164 | an unmarked object within the grace period is spared exactly when the period does not reach back to the epoch |
| `Preserve.PreservedReachability` | cas-gc.c:174-210 | a depot that answers the same for what is reachable reaches the same addresses |
| `Preserve.WalksSurvive` | vfs-snap.c:363-416 | every path resolved from a log entry leads to the same object after a collection |
| `Refs.LogRead` | cas-tree.c:1084-1153 | the fgets loop delivers the specified entries and result, torn and broken lines included |
| `Refs.LogLineAnswer` | cas-tree.c:1024-1038 | the line a commit appends, field by field |
| `Refs.TornTailIsIgnored` | cas-tree.c:1084-1153 | what a commit cut off in mid-line leaves does not change how the log reads |
| `Refs.CommitFits` | cas-tree.c:1024-1038 | with an acceptable comment the committed line reads back exactly when it has at most 1023 bytes |
| `Refs.AppendedEntryReadsBack` | cas-tree.c:1024-1038 | a committed line reads back as its entry after all earlier ones exactly when its comment has no newline and no leading space and the line fits the buffer |
| `Refs.TextReads` | cas-tree.c:1084-1153 | a log text without NULs reads line by line, up to the first line that is too long or does not parse |
| `Refs.CommittedLineReadsIff` | cas-tree.c:1024-1038 | a commit leaves a readable log readable exactly when its first line fits and every further line of its comment is itself a log line; each of those is then delivered as an entry of its own |
| `Refs.NewlineBreaksTheLog` | cas-tree.c:1084-1153 | a two-line comment after which the log no longer reads |
| `Refs.NewlineForgesAnEntry` | cas-tree.c:1084-1153 | for every well-formed entry, a comment that makes the reader deliver it although nobody committed it |
| `Refs.CommitIsVisible` | cas-tree.c:1084-1153 | a reader sees a new commit exactly when every earlier line is readable |
| `Refs.RootReadsBack` | cas-tree.c:942-977 | the root file a commit writes reads back as its address |
| `Refs.RootTextIff` | cas-tree.c:942-977 | a root file of one line is read exactly when the line has 64 bytes |
| `Refs.CountGone` | cas-tree.c:1293-1306 | counts exactly the lines neither bound keeps |
| `Refs.Rewrite` | cas-tree.c:1332-1345 | writes exactly the kept lines, in order |
| `Refs.Ref.LogTruncate` | cas-tree.c:1173-1380 | the file changes to the specified log, or stays |
| `Refs.TruncationFilters` | cas-tree.c:1173-1380 | on a readable log truncation keeps exactly the entries either bound allows plus the newest, in order, and the result is readable |
| `Refs.KeptIff` | cas-tree.c:1286-1306 | an entry survives exactly when the filter allows some place of it |
| `Refs.CountKeepsNewest` | cas-tree.c:1286-1306 | keeping n by count alone keeps exactly the newest n, or all when there are no more |
| `Refs.SurvivesIff` | cas-tree.c:1286-1306 | with either bound or both an entry survives exactly when it is the newest, among the newest keepCount, or no older than keepSince |
| `Refs.AgeKeepsYoung` | cas-tree.c:1286-1306 | with a bound on age alone one that occurs once survives exactly when it is the newest or young enough |
| `Refs.TruncatedByCount` | cas-tree.c:1173-1380 | a log that reads, truncated by count, then delivers exactly its newest entries, and counts the others as removed |
| `Refs.TruncateCodes` | cas-tree.c:1173-1230 | it is refused exactly without a positive bound, finds no log exactly when there is none, and fails only on one that does not read |
| `Refs.NewestIsKept` | cas-tree.c:1286-1298 | the newest entry always survives, as the newest |
| `Refs.Ref.Commit` | cas-tree.c:979-1082 | stopped after any number of its file changes it leaves the files of that step; a root that is not 64 hex digits is refused without a change |
| `Refs.CommittedFiles` | cas-tree.c:979-1082 | what the log, the root, the previous root and the temporary file hold after each of the five file changes |
| `Refs.CommitDelivers` | cas-tree.c:979-1082 | a completed commit is the last entry a reader is given, after all earlier ones, and the root that is read |
| `History.CommitIsAtomic` | cas-tree.c:979-1082 | a commit stopped anywhere leaves the root at the old or the new value with that value in a log that reads; a finished one makes it root and newest entry and keeps the old root as previous |
| `History.TruncationSettles` | cas-tree.c:1173-1380 | truncation keeps the root equal to the newest entry |
| `History.TruncationRecoverableIff` | cas-tree.c:1173-1380 | truncating any recoverable log, settled or not, leaves it recoverable exactly when some entry of the address of the root is the newest or within a bound |
| `History.TruncationAfterInterruptedCommit` | cas-tree.c:1286-1306 | after a commit stopped between log and rename, keeping one entry drops the entry of the tree the root still names |
| `History.UnreadableLineHidesTheNext` | cas-tree.c:979-1153 | after a commit whose line does not read, the next commit is the root and no reader of the log sees it |
| `History.HiddenTreeIsSwept` | cas-gc.c:114-172 | a collection then sweeps the tree just committed, unless something else reaches it or its age spares it |
| `History.NewlineLosesTheNextCommit` | cas-gc.c:114-172 | two commits, the first with a newline in its comment, and a collection that removes what the root file names |
| `Runs.RunSettles` | cas-tree.c:979-1380 | in every run of commits, truncations, stores, collections and compactions, these stopped anywhere, each root stays its newest log entry and the committed pack in order |
| `Runs.CompactingPreserves` | cas-gc.c:218-288 | a compaction stopped anywhere, and the store then opened again, answers for everything reachable as the store did before |
| `Runs.RunKeepsTree` | cas-gc.c:174-288 | a tree that is complete while it is a root stays complete, object for object, through any such run until that ref is committed again |
| `Runs.RunKeepsPaths` | vfs-snap.c:363-416 | and every path in it keeps leading to the object it led to |
| `Pack.HeaderRoundTrip` | cas-pack.c:85-128 | a stored type and length header parses back when the first 32 bytes hold it |
| `Pack.PutReadsBack` | cas.c:780-903 | a stored object reads back exactly when its file is at most 1 GiB, a bound the writer does not check |
| `PackFormat.HeaderAnswer` | cas.c:645-664 | the header text of an object: type, a space, its length in decimal, a NUL |
| `PackFormat.KindIff` | cas.c:645-664 | a type has 1 to 16 bytes, none of them a space or a NUL |
| `PackFormat.LooseFormat` | cas.c:780-903 | a loose file is the bytes of the object, eight of magic, the header, and NULs up to 64 |
| `PackFormat.LooseLimit` | cas.c:780-903 | it reads back exactly when it has at most 2^30 bytes |
| `PackFormat.ParsedHeader` | cas-pack.c:85-128 | what is taken for a header: a type of 1 to 16 bytes, a space, a number, and a NUL among the first 32 bytes |
| `PackFormat.RegionIff` | cas-codec.c:173-238 | when a stored region gives an object: the exact lengths, the bound of 100 MiB and the ratio of 256 |
| `PackFormat.DecodeIff` | cas-pack.c:332-416 | the two magic numbers of a trailer, and that any other is refused |
| `PackFormat.FooterFormat` | cas-pack.c:172-245 | a packfile ends in its index and in magic, count and checksum |
| `PackFormat.OpensIff` | cas-pack.c:172-245 | which files open as packfiles, and with how many entries |
| `PackFormat.IndexFormat` | cas-pack.c:945-953 | where address, trailer offset and stored size lie in an index entry, and what they are |
| `PackFormat.BodyFormat` | cas-pack.c:905-944 | the region of each object comes just before its trailer |
| `Pack.FindEntry` | cas-pack.c:261-280 | the loop computes the specified search |
| `Pack.SearchFinds` | cas-pack.c:261-280 | in a strictly ascending index the search finds a hash wherever it is |
| `Pack.PackOpens` | cas-pack.c:172-245 | a written packfile passes every check on opening, with as many entries as objects |
| `Pack.PackedIndexAscends` | cas-pack.c:945-953 | its index is strictly ascending |
| `Pack.PackedIsFound` | cas-pack.c:288-324 | searching it finds exactly the packed hashes, each well-stored object with the region and trailer written for it, whatever the others are |
| `Pack.PackedLookup` | cas-pack.c:332-416 | looking up a packed address finds it, and decodes exactly what was packed if that was well stored |
| `Pack.UnpackedLookup` | cas-pack.c:332-416 | any other address is not found |
| `Packer.SortHashes` | cas-pack.c:750-750 | some arrangement in order |
| `Packer.Dedup` | cas-pack.c:752-763 | in place, leaves the first of each run of equal hashes |
| `Packer.UniqueIsStrict` | cas-pack.c:750-763 | after sorting that is strictly ascending with the same hashes |
| `Packer.Retain` | cas-pack.c:774-788 | in place, leaves exactly the hashes the filter keeps, in order |
| `Packer.FillEntry` | cas-pack.c:945-953 | the stores for one object extend the index by exactly its entry |
| `Packer.WritePack` | cas-pack.c:825-1000 | the write loop produces the specified packfile, and fails exactly when some object cannot be copied |
| `Packer.PackCreate` | cas-pack.c:730-1025 | packs every wanted loose or packed object once, in hash order; with none wanted, or one that cannot be copied, the pack on disk stays |
| `Packer.CreatedPackReads` | cas-pack.c:730-1025 | the created pack has exactly the objects packed, and gives back each that decoded before as its emitted form decodes |
| `PackFormat.EmitIff` | cas-pack.c:880-925 | a bare region is compressed exactly when the policy names a codec whose result, tag included, saves more than an eighth |
| `Packer.EmittedReadsBack` | cas-codec.c:173-238 | compressing an object keeps it readable exactly when the payload is inside the decode bounds |
| `Packer.PackingCanMakeUnreadable` | cas-codec.c:216-219 | an object as any store keeps it, and a codec that decodes what it encodes, that reads before packing and is refused after |
| `Compact.SourceReads` | cas-pack.c:832-858 | what a repack copies for an address that reads, the same from every copy, decodes to what the store reads there, whatever else the store holds |
| `Compact.NewPackReads` | cas-pack.c:730-1025 | the new pack has exactly the selected addresses, and reads one that read before as the store did exactly when its packed form is in bounds |
| `Compact.ReloadReadsIff` | cas-pack.c:1094-1098 | once the new pack is mapped a packed address that read before reads as before exactly when its packed form is in bounds; a surviving loose copy does not help |
| `Compact.RepackKeepsReads` | cas-pack.c:1078-1144 | after the rename, after the reload and after unlinking any loose files, a selected address that read before and is in bounds reads the same type and plaintext, and one not selected its loose copy |
| `Compact.RepackStaysSane` | cas-pack.c:1078-1144 | the pack is then mapped and in order, and an address in bounds that read, the same from every copy, still does: the store is fit for the next repack |
| `Compact.FullRepackKeepsEverything` | cas-pack.c:1027-1039 | an unfiltered repack and reclaim leaves an address that read as it was exactly when its packed form is in bounds |
| `Compact.NeverCompressing` | cas-pack.c:1027-1032 | without compression every repack that can be written is in bounds |
| `Compact.PackedStore.Repack` | cas-pack.c:1041-1046 | the packfile becomes the pack of exactly the wanted stored addresses, or stays when there are none or one of them cannot be copied |
| `Compact.PackedStore.Reclaim` | cas-pack.c:1078-1144 | stopped after any number of candidates: the committed pack is mapped first, and exactly the verified loose copies met so far are gone, and counted; what went has a packed copy that is a table or hashes to its address |
| `Compact.UnlinkedIff` | cas-pack.c:1047-1076 | a loose copy goes exactly when it is met and its packed copy is a table or hashes to its address |
| `Compact.ReclaimKeepsReads` | cas-pack.c:1078-1144 | a reclaim stopped between any two unlinks has changed no read |
| `Compact.PackedStore.GcPack` | cas-gc.c:218-288 | on any store it fails exactly when the mark fails or a wanted object cannot be copied, and then nothing changes; else, stopped after any number of steps, the pack, mapping, unlinks and sweep visits of exactly those marks, with their counts; run to its end, a loose copy stays exactly when no packed copy stands in for it and it is marked or not older than a positive grace period |
| `Compact.StoppedAtTheEnd` | cas-gc.c:218-288 | with steps enough it has run to its end |
| `Compact.NewPackHoldsMarked` | cas-gc.c:240-259 | with something marked and stored, the mapped pack holds exactly the marked stored addresses, and each that read before reads as before exactly when it is in bounds |
| `Compact.MarkedSurvivesCompaction` | cas-gc.c:212-259 | a marked text keeps opening to the same object exactly when nothing was packed, or its lower-case spelling is marked too and its packed form is in bounds |
| `Compact.OpensAlikeIff` | cas-gc.c:212-259 | one marked address, whatever else the store holds: it opens to what it did, or to nothing as before, exactly when its packed form is in bounds, if it is packed, and it is in lower case, or nothing is packed, or it was in a pack exactly when it is now |
| `Compact.CompactionStaysSane` | cas-gc.c:218-288 | the store is fit for the next compaction: pack mapped and in order, and an address in bounds that read, the same from every copy, still does |
| `Compact.CompactionPreservesIff` | cas-gc.c:218-288 | when every directory and everything packed reads, a compaction keeps what every reachable address opens to, or that it opens to nothing, if and only if each is in bounds when packed, and in lower case, or nothing is packed, or its packed copy is there exactly when it was; unreachable objects may be unreadable |
| `Compact.CompactionPreserves` | cas-gc.c:218-288 | in particular when every address in use is in lower case and every packed form in bounds |
| `Compact.StoppedCompactionPreserves` | cas-gc.c:218-288 | and so does one stopped after the rename, after the mapping, between any two unlinks or in mid-sweep |
| `Spelling.UpperCaseIsLost` | cas-gc.c:240-259 | a directory that lists a packed object by its upper-case address: the mark succeeds, reads everything and marks the address, which opens before the compaction and to nothing after it |
| `Compact.PackHoldsOnlyReachable` | cas-gc.c:240-259 | afterwards the pack holds only reachable objects, whenever a marked one is stored |
| `Blake2b.TableIsSchedule` | cas.c:199-212 | the twelve-row table is the ten-row schedule indexed modulo ten |
| `Blake2b.InitialValues` | cas.c:192-197 | the initial values are the fractions of the square roots of the first eight primes, as section 2.6 of RFC 7693 defines them |
| `Blake2b.ScheduleRows` | cas.c:199-212 | the rows of section 2.7, each as a number of sixteen hexadecimal digits |
| `Blake2b.ParametersFor` | cas.c:290-298 | the parameter block of section 2.5: the digest length, no key, one level |
| `Blake2b.WordAt` | cas.c:256-264 | the message words are the eight-byte parts of a block, least significant byte first |
| `Blake2bExample.AbcDigest` | cas.c:256-349 | the digest of abc is the one of Appendix A of RFC 7693 |
| `Blake2b.Mix` | cas.c:242-254 | the in-place mixing is the function G of section 3.1 |
| `Blake2b.Compress` | cas.c:256-288 | the in-place compression is the function F of section 3.2, counter and flag words included |
| `Blake2b.Hasher.constructor` | cas.c:290-298 | starts from the parameter block with nothing fed |
| `Blake2b.Hasher.Count` | cas.c:312-341 | the two-word counter advances modulo 2^128 |
| `Blake2b.Hasher.Update` | cas.c:300-332 | keeps the buffering invariant and appends the data to the message fed so far |
| `Blake2b.Hasher.Final` | cas.c:334-349 | returns the hash of section 3.3 of RFC 7693 of everything fed |
| `Blake2b.HashChunks` | cas.c:300-349 | however a message is split into updates, empty ones included, the digest is that of the whole |
| `Blake2b.DigestObject` | cas.c:1638-1655 | an object digest is the hash of its header text followed by its plaintext, and nothing is computed exactly when the header text does not fit 32 bytes |
| `Blake2b.HeaderFits` | cas.c:1638-1655 | with an accepted type it fits for every length below 10^14 |
| `Sign.EncodeRecord` | cas-sign.c:132-173 | succeeds exactly on well-formed fields, fills in the topic id and writes the 216 bytes in place |
| `Sign.RecordLayout` | cas-sign.c:132-173 | where each of the fields lies in the 216 bytes, and how it is coded |
| `Sign.DecodesIff` | cas-sign.c:175-225 | a record decodes exactly with the right length, magic, zeros, topic and signature, and is refused for the first of these that fails |
| `Sign.RecordRoundTrip` | cas-sign.c:175-225 | a record signed by its key decodes to itself exactly when its addresses are lower case and its predecessor is not all zero |
| `Sign.DecodedBytes` | cas-sign.c:175-225 | a record that decodes has exactly the signed bytes its fields encode to, under the key its topic names |
| `Sign.AcceptedLinks` | cas-sign.c:239-276 | over a head, a candidate is accepted exactly when it has the topic, the next number and the link |
| `Sign.RefusedFor` | cas-sign.c:239-276 | which refusal a candidate gets: wrong topic, stale, fork, broken chain or gap |
| `Sign.LoadCodes` | cas-sign.c:279-297 | loading a record fails before decoding it for a bad address, a missing object or another type |
| `Topic.TopicStore.PublishRecord` | cas-topic.c:113-161 | changes store and ref exactly as specified, or not at all |
| `Topic.PublishOutcome` | cas-topic.c:113-161 | a publish succeeds exactly for a record that decodes and follows the head; a refusal leaves ref and store unchanged |
| `Topic.PublishCodes` | cas-topic.c:113-161 | what a publish answers in each case, and the log line a success commits |
| `Topic.HeadCodes` | cas-topic.c:81-111 | what the head of a topic is for each state of its root file |
| `Topic.PublishExtends` | cas-topic.c:113-161 | a success extends the chain of published records by its own |
| `Topic.RunKeepsChain` | cas-topic.c:113-161 | over any run the published records form one chain that only grows, a link at a time |
| `Topic.TopicStore.Walk` | cas-sign.c:299-342 | the loop ends, by sequence number, and computes the specified visits and result |
| `Topic.WalkEnds` | cas-sign.c:299-342 | on every store: a walk starts at the head, goes on from each record to the one it follows, ends well only at the number asked for or where the chain begins, and as incomplete exactly where the record before is missing |
| `Topic.WalkVisitsWhatWasPublished` | cas-sign.c:299-342 | from the head down to the first published number the walk visits exactly what the run published, newest first |
| `Topic.MissingHeadAcceptsAnything` | cas-topic.c:127-140 | a ref whose record is gone counts as having no head: any record that decodes is then accepted |
| `Topic.MissingHeadAcceptsSeventh` | cas-topic.c:127-140 | a store in which record number 7 with no predecessor is accepted over a head |
| `TopicGc.LoggedRecordStopsMarking` | cas-gc.c:75-80 | while some log has an entry of a stored version record, which no directory names as a file, no mark succeeds |
| `TopicGc.PublishedRecordStopsMarking` | cas-topic.c:140-161 | so it is after every successful publish to a ref whose log reads |
| `VfsPath.ResolveTokens` | vfs.c:86-113 | the tokenizing loop leaves the specified stack of components |
| `VfsPath.Normalize` | vfs.c:74-135 | fills the buffer with the specified path and its terminator, and fails exactly for bad paths and too small buffers |
| `VfsPath.NormalizedIsNormal` | vfs.c:74-135 | the result is normalized and never longer than the input, so the rebuild bound of an equally long buffer never fails |
| `VfsPath.NormalIsFixed` | vfs.c:74-135 | a normalized path is its own normalization |
| `VfsPath.NormalizeTwice` | vfs.c:74-135 | normalization is idempotent |
| `VfsPath.NormalizedIff` | vfs.c:74-85 | exactly the absolute paths below 4096 bytes normalize, the root to itself |
| `VfsPath.NormalizedAppend` | vfs.c:86-135 | a path with one more component normalizes to what the component makes of the rest |
| `VfsPath.AllowedIff` | vfs.c:208-248 | which characters a path may hold |
| `VfsPath.DotsGoBack` | vfs.c:86-113 | a dot after a normalized path leads to it, two dots to its parent |
| `VfsPath.ValidateComponents` | vfs.c:208-248 | on a normalized path the scan refuses exactly the forbidden characters |
| `Vfs.Vfs.constructor` | vfs.c:373-392 | the empty tree |
| `Vfs.Vfs.FindNode` | vfs.c:254-262 | the index of the node at the path, or none |
| `Vfs.Vfs.AddNode` | vfs.c:277-299 | adds exactly one node |
| `Vfs.Vfs.RemoveNode` | vfs.c:310-321 | swap-removal removes exactly the node and its bytes from the usage |
| `Vfs.Vfs.MakeParents` | vfs.c:531-559 | creates exactly the missing ancestors, or nothing; never anything when the parent exists |
| `VfsTree.ParentsMade` | vfs.c:531-559 | all-or-nothing: what is made are the missing directories above the path, and the tree stays well formed |
| `Vfs.Vfs.WriteFile` | vfs.c:565-648 | the tree changes as specified, usage stays the sum of sizes, and a quota is kept while sums do not wrap; the saved index survives parent creation |
| `VfsTree.WriteKeeps` | vfs.c:565-648 | a failed write changes nothing; a successful one leaves exactly the bytes at the path, every other node, and new directories only above it |
| `VfsLaws.WriteIff` | vfs.c:565-648 | a write succeeds exactly where a file is, or where nothing is and there is room, within the quota; and which error it answers otherwise |
| `VfsLaws.WriteLeaves` | vfs.c:565-648 | the node a write leaves: its bytes, and the mode, owner and times of the old file or of a new one |
| `VfsLaws.WriteElsewhere` | vfs.c:565-648 | every other node stays, and what else is new are directories above the path |
| `VfsLaws.QuotaIff` | vfs.c:582-597 | the quota test refuses exactly what would leave more than the quota, as long as the sums do not wrap |
| `Vfs.Vfs.MakeDir` | vfs.c:654-699 | the tree changes as specified |
| `VfsTree.MkdirKeeps` | vfs.c:654-699 | a failed mkdir changes nothing; a successful one adds the directory and missing ancestors only |
| `VfsLaws.MkdirIff` | vfs.c:654-699 | a mkdir succeeds exactly at the root, on a directory that may be there, or where nothing is and there is room; and which error it answers otherwise |
| `VfsLaws.MkdirLeaves` | vfs.c:654-699 | every node stays, the directory is there, and the new ones have the mode, owner and times of a new directory |
| `Vfs.Vfs.CountChildren` | vfs.c:706-726 | the number of nodes below the path, so positive exactly when there is one |
| `Vfs.Vfs.Remove` | vfs.c:728-752 | removes exactly a file or an empty directory |
| `VfsLaws.DeleteIff` | vfs.c:728-752 | a delete succeeds exactly for a file or a directory with nothing below it; and which error it answers otherwise, changing nothing |
| `VfsLaws.DeleteRemoves` | vfs.c:728-752 | the node at the path is gone and every other is found as before |
| `Vfs.Vfs.RemoveUnder` | vfs.c:778-785 | the backward scan with swap-removal removes exactly the nodes below the path |
| `Vfs.Vfs.RemoveRecursive` | vfs.c:754-792 | the tree changes as specified |
| `VfsLaws.DeleteRecursiveIff` | vfs.c:754-792 | a recursive delete succeeds exactly on a node that is there; and which error it answers otherwise, changing nothing |
| `VfsTree.DeleteRecursiveRemoves` | vfs.c:754-792 | exactly the node and its descendants are gone, and every other node is found as before |
| `Vfs.Vfs.MoveUnder` | vfs.c:857-878 | the in-place loop renames every descendant once and no other node |
| `Vfs.Vfs.Move` | vfs.c:798-888 | the tree changes as specified |
| `VfsTree.RenameKeeps` | vfs.c:798-888 | every error leaves the tree unchanged, although the destination is removed before its parent is checked |
| `VfsTree.RenameMoves` | vfs.c:798-888 | a success moves exactly the source subtree, name for name, and leaves everything but a replaced destination alone |
| `VfsLaws.RenameIff` | vfs.c:798-888 | a rename succeeds exactly when the source is there, the destination is neither below it nor a directory in use, and its parent is a directory; and which error it answers otherwise |
| `VfsLaws.RenameAddsNothing` | vfs.c:798-888 | every node afterwards is one from before, in its place or moved with the source |
| `VfsTree.MovedApart` | vfs.c:857-886 | no two nodes end up at one path |
| `Vfs.Vfs.CopyFile` | vfs.c:894-926 | writes the source bytes at the destination, or fails as specified |
| `VfsLaws.CopyIff` | vfs.c:894-926 | a copy succeeds exactly from a file to where a write would; and which error it answers otherwise |
| `VfsLaws.CopyLeaves` | vfs.c:894-926 | the bytes of the source are at the destination, and every other node is as before |
| `Vfs.Vfs.ChangeMode` | vfs.c:932-951 | changes the mode of exactly one node |
| `VfsLaws.ChmodIff` | vfs.c:932-951 | a mode change succeeds exactly on a node that is there |
| `VfsLaws.ChmodChanges` | vfs.c:932-951 | it sets the nine permission bits and the modification time of that node, and changes nothing else |
| `Vfs.Vfs.ListDir` | vfs.c:445-499 | the direct children in array order, or the error |
| `VfsLaws.ListIff` | vfs.c:445-499 | which error a listing answers, and when it succeeds |
| `VfsLaws.ListedIff` | vfs.c:462-496 | it holds exactly the nodes one component below the directory |
| `Vfs.Vfs.ReadFile` | vfs.c:505-525 | the contents, or the error |
| `VfsLaws.ReadIff` | vfs.c:505-525 | which error a read answers, and when it succeeds |
| `Vfs.Vfs.RunCalls` | vfs.c:373-951 | any sequence of calls passes through the specified trees; paths are distinct and normalized, parents are directories, usage is the sum of sizes, and a quota holds |
| `VfsShort.CallStaysShort` | vfs.c:565-951 | write, mkdir, copy, chmod, delete and recursive delete keep every path below 4096 bytes |
| `VfsShort.RenameStaysShort` | vfs.c:798-888 | a rename to another path does so if and only if everything at or below the source still fits with the change in length |
| `VfsShort.RunStaysShort` | vfs.c:373-951 | over any run every tree has short paths exactly when each rename is given room |
| `VfsShort.RenameHides` | vfs.c:857-878 | a node that is not given room is still in the tree, at a path that no argument of a call normalizes to |
| `VfsShort.RenameMakesOverlong` | vfs.c:857-878 | a tree of two nodes and a rename that makes such a node |
| `Snap.CutLeadsBack` | vfs-snap.c:51-59 | where a path cut to the buffer does not stay in its directory it names that directory or its parent |
| `Snap.SnapChild` | vfs-snap.c:105-163 | one child: its entry is made exactly as the specification of one child says, by the name and object of the node when its path fits |
| `Snap.SnapDir` | vfs-snap.c:87-170 | over every tree, whenever its recursion ends: it succeeds exactly when the path is a directory, every name below is accepted and every path fits; the address is then a function of the tree alone and the whole snapshot is stored, nothing else replaced |
| `Snap.SnapsAnswer` | vfs-snap.c:87-170 | whenever the recursion ends the answer is success exactly for a directory below which every name is accepted and every path fits |
| `Snap.StoringEnds` | vfs-snap.c:87-170 | it ends on every tree in which no cut path leads back |
| `Snap.StoringEndsIff` | vfs-snap.c:87-170 | on a tree whose nodes are all accepted, or directories that lead back, it ends exactly when none leads back |
| `Snap.SnapStore` | vfs-snap.c:172-178 | the same from the root: one name refused or one path too long, and no snapshot is taken |
| `SnapLaws.SnapshotLists` | vfs-snap.c:105-163 | a stored directory loads as one entry for each child and no others: its name, sort and permission bits, owner, modification time, and the address of its bytes or its listing |
| `Restore.RestoreDir` | vfs-snap.c:193-251 | whenever its recursion ends, of any depot and under any quota, what it restores and answers is what the specification says |
| `SnapLaws.RestoredIsWhole` | vfs-snap.c:193-251 | a restore that reports success has found a blob for every file and a listing for every directory named, at every level |
| `SnapLaws.OtherSortsPass` | vfs-snap.c:215-245 | an entry of any other sort restores nothing and is no failure |
| `Restore.AcyclicEnds` | vfs-snap.c:193-251 | a restore of any depot in which no directory contains itself ends |
| `Restore.RestoreGivesBack` | vfs-snap.c:253-259 | restoring a stored snapshot into an empty filesystem ends, gives back the same paths, kinds and contents, and succeeds exactly when the quota is at least their bytes, or there is none |
| `Restore.StoreThenRestore` | vfs-snap.c:172-259 | a store followed by a restore of what it stored: whenever the store ends it refuses exactly the trees with a node that is not accepted, and otherwise the restore gives the tree back, exactly when the quota has room |
| `SnapFsck.FsckDir` | vfs-snap.c:459-597 | whenever its recursion ends, of any depot and any filesystem, it counts exactly what the specified comparison counts |
| `SnapFsck.ShortFsckEnds` | vfs-snap.c:459-597 | against any depot, one with a directory inside itself included, the comparison of a filesystem with short paths ends |
| `SnapFsck.AcyclicFsckEnds` | vfs-snap.c:459-597 | and against a depot with no directory inside itself the comparison of any filesystem ends |
| `SnapFsck.FsckCountsDifferences` | vfs-snap.c:459-608 | fsck of any filesystem against a stored snapshot ends and counts one error for every node it lost from a directory it has, and one for every node added to a directory of the snapshot |
| `SnapFsck.NoDifferenceIffSame` | vfs-snap.c:459-608 | between trees with short paths there is nothing to count exactly when they have the same paths, kinds and contents |
| `SnapFsck.FsckIffSame` | vfs-snap.c:599-608 | so fsck of a filesystem with short paths reports nothing if and only if it holds what was stored |
| `SnapFsck.StoreThenFsck` | vfs-snap.c:172-608 | a store, if it ends, followed by fsck of any filesystem, the same one included, against the resulting store |
| `SnapLimits.OverlongIsMissed` | vfs-snap.c:51-59 | a directory missing at the longest path is not reported when one whose cut path equals it is there |
| `SnapLimits.FsckMissesAnOverlongDirectory` | vfs-snap.c:459-597 | a tree that can be stored and a filesystem that differs from it on which nothing is counted |
| `SnapLimits.SilentIff` | vfs-snap.c:459-597 | a comparison with any filesystem reports nothing exactly when it has every node of the snapshot below the longest path length, takes something of the same kind and contents for each of that length, and has in directories whose children can be printed only paths that, cut to the buffer, are paths of the snapshot |
| `SnapEndless.StoringMayNeverEnd` | vfs-snap.c:87-170 | a tree whose only path that does not fit is that of a directory .x at the deepest level, of which storing never ends |
| `SnapEndless.RestoringItself` | vfs-snap.c:193-251 | restoring a directory that lists only itself never ends; with a file listed first it always ends with a failure |

## Left out

- cas-codec-miniz.c, cas-sign-monocypher.c and the choice a compression policy makes: codecs and signatures are parameters.
- castool.c, sample_main.c, examples/cas-fetch.c, key files in cas-sign.c: command line, network and entropy.
- File locks, fsync, mkstemp, mmap and path building: files are values changed by atomic steps; the temporary `.prev.tmp` link of a commit is not a step of its own.
- Allocation failure: every allocation succeeds.
- vfs_fnmatch, permission bits, error strings, logging, looks_text, cas_tree_fsck, cas_fsck, cas_pack_fsck and cas_pack_import: they would add easy members, or restate verification already proved here.
- vfs_snap_restore_at, vfs_snap_commit, vfs_snap_checkout and vfs_snap_checkfile: compositions of what is modelled.
- TreeText.TreeTextLoad: a number too long for its field is read as glibc reads it (clamped, then truncated); C leaves it undefined.
- HtreeRead.ParseOfEncode: does not cover objects of 2^32 bytes or more, because record offsets are 32-bit.
- HtreeRead.LookupEntry: names looked up hold no NUL, as C strings.
- Omap.ObjectMap.Foreach: the callback never stops the iteration.
- Omap.ObjectMap.Alloc: a limit of 0 excludes the last id, as in the code; the end of the range wraps as the code's does; with all 2^64 ids mapped the code would search without end.
- Omap.ObjectMap.Put: the invariant is not kept for an all-zero digest, which marks an empty slot; the contract says exactly that.
- Gc.Collector.Gc: the removal callback never stops the sweep, and no object is removed by anyone else meanwhile.
- Gc.MarkTree: an object that exists but cannot be read at all is not modelled apart from a corrupt one.
- Refs.Ref.Commit: the append of a log line is one step; a partly written line is modelled only for readers.
- Runs.RunKeepsTree: collections and compactions along the run read every directory, compactions pack what reads and keep what is reachable, and commits are not stopped and write readable lines, as `Enabled` states.
- Pack.PackOpens: a footer count of 2^58 or more in a corrupt file, where the code's multiplication wraps, is taken as too large; the same for offsets near 2^64.
- Pack.FindEntry: the index is read as the file's bytes; concurrent change of a mapped file is not modelled.
- Compact.CompactionPreservesIff: everything the compaction packs reads, and the same from every copy; `Compact.OpensAlikeIff` asks that of one address only.
- Blake2b.Compress: words are loaded and stored through their little-endian values, not by shifts.
- Sign.EncodeRecord: the signing backend always signs; builds without a backend are left out.
- Topic.PublishOutcome: the ref commit that ends a publish is not interrupted, and is not refused by the file system.
- Vfs.Vfs.WriteFile: the credential passes every permission check, and all nodes a call makes carry the one time given to it.
- Vfs.Vfs.RunCalls: the quota is kept when no single write could wrap the 64-bit sums, as `NeverWraps` states.
- Snap.SnapDir: speaks of calls whose recursion ends, which is what its precondition says (`Snap.Snaps` is then not None); compression of blobs is left out, because a stored blob reads the same.
- Restore.RestoreDir: speaks of calls whose recursion ends (`Restore.RestoreTree` is then not None).
- Restore.RestoreGivesBack: modes, owners and times are not restored by the code and not compared.
- SnapFsck.FsckDir: the callback never stops the comparison; speaks of calls whose recursion ends (`SnapFsck.Errors` is then not None).
- SnapFsck.FsckIffSame: asks for short paths in the filesystem compared; `SnapFsck.FsckCountsDifferences` has none of that.
- Gc.MarkRefs: the refs are given as the logs of those with a root file; a refs directory that cannot be opened counts as having none, as in the code, and ref names are not checked.
