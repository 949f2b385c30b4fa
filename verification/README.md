# Verified models of the caches, trees, locks and codecs

This project models the parts of the system whose correctness does not show in any single function, and
proves what they promise. Everything is checked by `dafny verify dfyconfig.toml` (Dafny 4.11).

| files | what they model |
|---|---|
| `LruModel`, `LruOrder`, `BlockCache` | the write-back cache of disk blocks: recency list, free list and 256 hash chains over one pool, proved to compute a value-level cache, which is proved invisible in front of the disk and exactly LRU over whole runs |
| `Semaphore`, `Mutex` | the kernel's semaphore with direct hand-off and the recursive mutex on top, as protocols of any number of threads |
| `Bits`, `Huffman`, `LengthTables`, `CodeLengths`, `DynamicTrees`, `TreeHeader`, `InflateSpec`, `DeflateCode`, `DynamicBlock`, `Crc32`, `InflateDrain`, `Inflate`, `DeflateSource`, `Deflate`, `GzipRoundTrip` | both directions of deflate with their streams: `Inflate` computes what a bit string means, `Deflate` writes bits that mean the file, and together they are the identity |
| `PathLookup`, `PathTree` | the prefix tree of paths as linked nodes, against a map from component lists to data |
| `RingBuffer` | the ring buffer with overwrite mode and block moves |
| `DnsName` | host names in DNS messages, written backwards in place |
| `EscapeCodes` | the incremental parser for terminal escape codes |
| `Bytes` | shared value types |

Main results, each over all inputs or all runs:

- Over every legal run of the block cache, "buffer if cached, else disk" is the plain map of blocks, and a
  block is cached exactly if fewer than `capacity` distinct blocks were requested since it was.
- In every interleaving at most one thread is inside the mutex and no assertion fails, exactly as long as the
  16-bit depth can tell the nestings apart; `tryDown` never waits; the semaphore grants in arrival order.
- What gzip writes behind its header is read by gunzip as the file, with the checksum found right behind the data
  and found right, for every file but the empty one.
- For all code lengths that ask for no more codes than fit, the tree that inflate builds decodes the canonical
  code of section 3.2.2 of RFC 1951, and every dynamic block that is written as section 3.2.7 has it is inflated to
  what its symbols mean, whichever code lengths it brings along and however it sends them.
- Insert, remove, find and clone on the path tree refine a map from paths to data and keep it pruned.
- Ring buffers hold exactly the last elements that are unread; DNS names are read back, and exactly which ones is
  proved; every text has a proved answer from the escape code parser.

Where the code does not do what its documentation or its callers expect, the code is modelled as it is and
the exact condition is proved:

- `Deflate::compress` writes nothing at all for an empty file, and inflate refuses that (`RoundTrip`). With the
  level for dynamic codes it ends exactly if the file is empty (`CompressEndsExactly`).
- A failed block read renumbers an entry to 0 and leaves it on the chain of the requested number. A request for
  block 0 then finds the stale buffer exactly if that is chain 0 and the entry comes first among those numbered 0
  there; all other blocks show what they did, as the victim is dirty or equals the disk (`LoadFails`).
- A cache of one block dereferences null at the first eviction (`GetBlock`, `EvictTheOnlyEntry`). The assertion on
  the victim's references holds exactly if all held blocks were requested recently enough (`HeldIsNeverEvicted`,
  `HeldIsEvicted`).
- `find`, `insert` and `remove` do not climb for ".." at the end of a path whose other components exist, so
  "/a/.." addresses "/a" (`AddressedExact`, `RemainingExact`, `TrailingDotsMislead`).
- After `replaceWith` the root has no parent. `find` then dereferences null exactly if it climbs more than one level
  above the root, or one level and goes on from there (`Find`, `FindAboveClone`); `insert` also if it climbs above
  the root behind the existing nodes (`Insert`). `remove` does where `find` does, and if nothing but the removed
  binding and the nodes above it was left; without ".." in a pruned tree, exactly if it was the last binding
  (`Remove`; `RemoveLastOfClone` is the smallest case). Clones of mount spaces are unmounted this way.
- With ".." in its path `insert` may leave nodes behind that lead to no data: those it creates that are not on the
  way to the addressed path (`Insert`, `InsertLeavesNode`).
- The drain's assertion refuses the distance 32768, which deflate allows. Of the streams that have a meaning by the
  format, exactly those fail it in which decoding comes to such a match; all others are inflated to their meaning
  (`Uncompress`, `RefusedExactly`, `RefuseLargestDistance`).
- `crc32()` of the deflate source misses a block that has just been used up (`FileDeflateSource.FinishCrc`;
  `MissingBlock` is a file whose checksum is wrong).
- Lengths of stored blocks are byte-swapped on big-endian machines (`SwappedHeader`).
- `RingBuffer::move` ends exactly if the destination overwrites or has room for all that is moved
  (`MoveEndsExactly`); otherwise it fills the destination and goes on for ever (`MoveGetsStuck`).
- Host names are read back exactly if no label is empty and all fit their length byte (`DecodeExactly`,
  `NameRoundTrip`).
- The mutex is sound exactly if every `up` is called at a nesting n with 1 <= n % 65536 <= 32767, other than 65537,
  131073 and so on (`SoundExactly`). Down never checks; at the other nestings `up` fails its assertion
  (`FailingRun`, first at 32768) or gives the mutex away while it is held (`TwoInside`, first at 65537).
- Arguments of escape codes are read as they are written exactly if an int can hold them (`ReadExactly`).
- One letter of an escape code is enough, and exactly six letters are accepted (`KnownCodes`, `Abbreviations`).

## Model

| member | source | states |
|---|---|---|
| LruModel.StepTransparent | source/lib/fs/blockcache.cc:62-212 | every legal client step keeps all changes safe, acts on the visible blocks as on a plain map, and a request shows that map's contents |
| LruModel.RunTransparent | source/lib/fs/blockcache.cc:62-212 | over every legal run, buffer if cached and disk otherwise is the plain map |
| LruModel.FlushPersists | source/lib/fs/blockcache.cc:62-75 | after flush nothing is dirty and the disk is the map, except exactly where a client still holds an unmarked change |
| LruModel.AdmittedContents | source/lib/fs/blockcache.cc:149-212 | admitting a block, with or without evicting another, changes the contents of no other block |
| LruModel.RefsCounted | source/lib/fs/blockcache.cc:77-147 | over every legal run the references of a block are its requests less its releases, and one that is not cached has none |
| LruOrder.RecentPosition | source/lib/fs/blockcache.cc:102-118 | a block stands in the recency list behind exactly the blocks requested since |
| LruOrder.LruExact | source/lib/fs/blockcache.cc:102-198 | after every legal run a block is cached iff it was requested and fewer than capacity distinct blocks were since, and that number is its place |
| LruOrder.HeldIsNeverEvicted | source/lib/fs/blockcache.cc:172-175 | the assertion that the victim is not held passes iff fewer than capacity distinct blocks were requested since each held one, counting the one now asked for |
| LruOrder.HeldIsEvicted | source/lib/fs/blockcache.cc:172-175 | a run of two requests after which it fails |
| BlockCaches.BlockCache.constructor | source/lib/fs/blockcache.cc:31-54 | all entries are free in reverse pool order and the cache stands for the empty one, with a pool of any size |
| BlockCaches.BlockCache.MoveToFront | source/lib/fs/blockcache.cc:105-118 | relinking keeps the list doubly linked and moves exactly one entry to the front |
| BlockCaches.BlockCache.Unchain | source/lib/fs/blockcache.cc:179-191 | the entry leaves its own chain, the other chains stay |
| BlockCaches.BlockCache.AdmitFree | source/lib/fs/blockcache.cc:150-168 | the first free entry becomes the newest used one, on the chain of the new number; all list and chain invariants hold |
| BlockCaches.BlockCache.AdmitOldest | source/lib/fs/blockcache.cc:171-204 | the oldest entry becomes the newest and changes chains, unless old and new number share one; all list and chain invariants hold |
| BlockCaches.BlockCache.Lookup | source/lib/fs/blockcache.cc:100-124 | walking one chain finds the entry of the number iff the block is cached |
| BlockCaches.BlockCache.GetBlock | source/lib/fs/blockcache.cc:149-204 | hands out the first free or the oldest entry as the newest, on the chain of the new number; dereferences null iff no entry is free and fewer than two are used |
| BlockCaches.EvictTheOnlyEntry | source/lib/fs/blockcache.cc:171-177 | in a pool of one entry the first eviction dereferences null |
| BlockCaches.BlockCache.Admit | source/lib/fs/blockcache.cc:149-212 | getBlock refines the value-level admission, the victim written back first under its old number |
| BlockCaches.BlockCache.FailedFill | source/lib/fs/blockcache.cc:127-139 | a failed read leaves the lists intact and renumbers the new entry to 0 on the chain of the requested number |
| BlockCaches.BlockCache.LoadFails | source/lib/fs/blockcache.cc:100-139 | after a failed read a chain walk finds under every number what it did, less the victim, and under 0 the renumbered entry iff it comes first among those numbered 0 on chain 0; all blocks show what they did, but 0 then the stale buffer; and when the index stays consistent |
| BlockCaches.BlockCache.DoRequest | source/lib/fs/blockcache.cc:93-147 | request and create keep the cache well formed and take the value-level step for a hit, a miss and a failed read |
| BlockCaches.BlockCache.MarkDirty | source/include/fs/blockcache.h:90-92 | takes the value-level step for its block: marks that entry and nothing else |
| BlockCaches.BlockCache.DoRelease | source/lib/fs/blockcache.cc:84-91 | takes the value-level step for its block: gives up one reference and nothing else |
| BlockCaches.BlockCache.Flush | source/lib/fs/blockcache.cc:62-75 | writes every dirty entry and takes the value-level flush step |
| Semaphores.BaseSem.DownEnter | source/kernel/src/semaphore.cc:25-34 | the locked part of down: the value drops, and the thread queues at the end iff it must block |
| Semaphores.BaseSem.TryEnter | source/kernel/include/semaphore.h:58-65 | takes a permit iff there is one and nobody waits |
| Semaphores.BaseSem.Leave | source/kernel/include/semaphore.h:70-73 | hands a permit over to the longest-waiting thread, if any |
| Semaphores.BlockedList.Wakeup | source/kernel/src/blockedlist.cc:35-39 | takes the first thread off the list, if any |
| Semaphores.BlockedList.WakeupAll | source/kernel/src/blockedlist.cc:41-46 | empties the list in order |
| Semaphores.RunConserves | source/kernel/src/semaphore.cc:25-43 | in every run the value accounts for all downs and ups, the queue is as long as the value is negative, grants follow arrivals, and no more permits are out than there are |
| Semaphores.WaiterMovesUp | source/kernel/src/blockedlist.cc:25-39 | the waiter at place k moves up once per up and is woken by exactly the (k+1)-th |
| Semaphores.TryDownNeverOvertakes | source/kernel/include/semaphore.h:58-65 | in every reachable state tryDown succeeds iff the value is positive, then everyone who came has been granted; a failing one changes nothing |
| Semaphores.QueueLawExactly | source/kernel/include/semaphore.h:32-33 | the queue is as long as the value is negative in every run iff the semaphore does not start below zero |
| MutexProtocol.StepKeeps | source/kernel/src/mutex.cc:26-67 | every step of every thread that neither fails an assertion nor gives the mutex away early keeps the invariant that ties holder, depth, semaphore and queue to one owner |
| MutexProtocol.FailsExactly | source/kernel/src/mutex.cc:33-61 | the assertion after the grant never fails; those of up fail iff it is called at a nesting that 16 bits do not show as positive |
| MutexProtocol.SoundExactly | source/kernel/src/mutex.cc:26-67 | over every run whose ups have decremented: no assertion fails and nobody gives away a mutex it still holds iff every up was called at an allowed nesting |
| MutexProtocol.MutualExclusion | source/kernel/src/mutex.cc:26-67 | in every interleaving with ups at allowed nestings at most one thread is inside, no assertion fails, and depth counts the owner's nesting |
| MutexProtocol.TryDownReturns | source/kernel/src/mutex.cc:39-56 | in every run tryDown never waits and is back after at most four steps of its own; it returns true iff its thread was the holder or found the semaphore free, and has then entered once more; otherwise it changes neither semaphore nor holder nor depth |
| MutexProtocol.DownReturns | source/kernel/src/mutex.cc:26-37 | down returns only when the thread has entered once more, after at most five steps of its own |
| MutexProtocol.UpReturns | source/kernel/src/mutex.cc:58-67 | up never waits, is back after at most four steps of its own and takes one level off |
| MutexProtocol.WaitersHaveAnOwner | source/kernel/src/mutex.cc:58-67 | while threads wait, one that can move is inside, and its release hands over to the first of them |
| MutexProtocol.FailingRun | source/kernel/src/mutex.cc:58-62 | every nesting that 16 bits do not show as positive is reached by a run, and up fails there |
| MutexProtocol.TwoInside | source/kernel/src/mutex.cc:62-66 | at every nesting above 1 that 16 bits take for 1 a run goes on to have two threads inside, with no assertion failing |
| Huffman.DecodeCanonical | source/lib/z/inflate.cc:169-184 | for every table, decoding the r-th code of a length yields the r-th symbol of that length and consumes just the code |
| Huffman.DecodeLit | source/lib/z/deflate.cc:192-208 | the encoder's literal codes decode to their symbols in the tree inflate builds |
| Huffman.DecodeDist | source/lib/z/deflate.cc:210-215 | the same for distances |
| CodeLengths.BuildTree | source/lib/z/inflate.cc:103-128 | the counting sort orders the symbols by code length and then by number |
| CodeLengths.DecodeTreeOf | source/lib/z/inflate.cc:103-184 | for all code lengths that do not ask for too many codes, the tree decodes every symbol's canonical code to the symbol |
| CodeLengths.FixedLitIsTree | source/lib/z/inflate.cc:72-100 | the fixed tree written down in the program is the tree of the code lengths in section 3.2.6 of RFC 1951 |
| CodeLengths.FixedDistIsTree | source/lib/z/inflate.cc:72-100 | the fixed distance tree has 32 codes of five bits |
| CodeLengths.LitCodeIsCanonical | source/lib/z/deflate.cc:192-208 | what the encoder writes for a symbol is its canonical code under these lengths |
| LengthTables.BuildBitsBase | source/lib/z/deflatebase.cc:35-49 | the tables hold the extra bits and the running sums of the slot sizes |
| LengthTables.BuildTables | source/lib/z/deflatebase.cc:24-32 | the loops build the tables of both directions, with length 258 as a slot of its own |
| LengthTables.TablesOfStandard | source/lib/z/deflatebase.cc:24-49 | both tables are those of section 3.2.5 of RFC 1951, number by number |
| LengthTables.EverySlotIsLength | source/lib/z/deflatebase.cc:24-49 | every length symbol means a length from 3 to 258 whatever its extra bits are, and belongs to the slot of that length iff it is not slot 27 expressing 258 |
| LengthTables.EverySlotIsDistance | source/lib/z/deflatebase.cc:24-49 | every distance symbol means a distance from 1 to 32768 of its own slot, whatever its extra bits are |
| LengthTables.LengthSplits | source/lib/z/deflatebase.cc:24-49 | every length from 3 to 258 falls into exactly one slot and its extra bits |
| LengthTables.DistSplits | source/lib/z/deflatebase.cc:24-49 | every distance from 1 to 32768 falls into exactly one slot and its extra bits |
| DeflateCode.ReadMatchCode | source/lib/z/deflate.cc:73-91 | what write_symbol_chain writes is read back as the same length and distance |
| DeflateCode.FixedBlockAdds | source/lib/z/deflate.cc:97-162 | a fixed block behind others adds exactly its data, and ends the stream iff marked final |
| DeflateCode.StoredBlockAdds | source/lib/z/deflate.cc:164-186 | a stored block at a byte boundary adds exactly its data, and ends the stream iff marked final |
| DeflateCode.StoredLayout | source/lib/z/deflate.cc:164-186 | a stored block begins with its header byte, its length and the complement as 16-bit numbers, low bit first, and its data follow |
| DeflateCode.SwappedHeader | source/lib/z/deflate.cc:176-181 | on a big-endian machine a stored block is read back iff both bytes of its length are equal, whatever follows |
| DeflateCode.FarMatch | source/include/z/inflate.h:115-118 | a stream with a match at distance 32768 that has a meaning by the format and is refused |
| InflateSpec.RefusedExactly | source/lib/z/inflate.cc:256-285 | for all streams: refused iff decoding comes to a match at distance 32768, else the meaning is that of the format |
| TreeHeader.ReadTreesOf | source/lib/z/inflate.cc:187-249 | for all code lengths, all codes for them, all orders of runs and repeats: inflate reads exactly their trees from a header written after section 3.2.7 of RFC 1951, and stops behind it |
| TreeHeader.EveryTreeIsSent | source/lib/z/inflate.cc:187-249 | every two lists of code lengths of up to 15 bits can be sent so |
| DynamicBlock.DynamicBlockAdds | source/lib/z/inflate.cc:256-285 | a dynamic block with any trees adds what its literals and matches mean, and ends the stream iff it is marked final |
| Crc.TableStep | source/lib/z/crc32.cc:40-47 | one table look-up is eight steps of the bitwise polynomial division |
| Crc.BuildTable | source/lib/z/crc32.cc:26-38 | every entry is its index divided bit by bit, and entry 128 has exactly the bits of the polynomial of RFC 1952 |
| Crc.FeedbackIs | source/lib/z/crc32.cc:31-35 | eight steps from a single bit 7 leave exactly x^26 + x^23 + x^22 + x^16 + x^12 + x^11 + x^10 + x^8 + x^7 + x^5 + x^4 + x^2 + x + 1, reflected |
| Crc.CheckValue | source/lib/z/crc32.cc:40-47 | the checksum of the byte 0x7f, bit by bit |
| Crc.Update | source/lib/z/crc32.cc:40-47 | the table-driven loop computes the bitwise CRC of the buffer |
| Crc.ChecksumConcat | source/include/z/crc32.h:46-58 | continuing a checksum over a second part gives the checksum of both parts |
| InflateDrains.FileInflateDrain.Put | source/include/z/inflate.h:119-125 | appends a byte and keeps window and checksum in step with everything written |
| InflateDrains.FileInflateDrain.Get | source/include/z/inflate.h:115-118 | the assertion fails iff the offset reaches the window size; otherwise the byte written off bytes ago, with the unsigned wrap-around of the index |
| InflateDrains.UnsignedIndex | source/include/z/inflate.h:117 | the wrapped unsigned subtraction finds the right place in the window |
| InflateDrains.FileInflateDrain.FinishCrc | source/include/z/inflate.h:107-113 | the checksum pieced together per window is the CRC of the whole output, for every length; afterwards the window is lost |
| Inflation.BitReader.ReadBits | source/lib/z/inflate.cc:153-166 | reads a field of the remaining bits, least significant first, and leaves the rest |
| Inflation.BitReader.DecodeSymbol | source/lib/z/inflate.cc:169-184 | the loop computes the decoding function on the remaining bits |
| Inflation.CopyMatch | source/lib/z/inflate.cc:280-282 | copies from the output so far, byte by byte, so that source and copy may overlap |
| Inflation.InflateBlockData | source/lib/z/inflate.cc:256-285 | outputs what the symbols mean up to the end of the block |
| Inflation.InflateStored | source/lib/z/inflate.cc:288-312 | fails iff length and complement disagree, else outputs the data and ends at a byte boundary |
| Inflation.BuildFixedTrees | source/lib/z/inflate.cc:72-100 | the fixed trees of section 3.2.6 of RFC 1951 |
| Inflation.DecodeTrees | source/lib/z/inflate.cc:187-249 | reads the code lengths with their repetitions and builds the trees they stand for |
| Inflation.Uncompress | source/lib/z/inflate.cc:340-385 | every stream with a meaning, of all three kinds of block, is inflated to that meaning or rejected as it demands, and the drain's assertion fails iff decoding comes to a match at distance 32768 |
| DeflateSources.FileDeflateSource.Load | source/include/z/deflate.h:136-150 | keeps the two buffers consecutive parts of the file; the current one is empty only at its end |
| DeflateSources.FileDeflateSource.More | source/include/z/deflate.h:115-118 | true iff the file goes on behind the current block |
| DeflateSources.FileDeflateSource.Peek | source/include/z/deflate.h:123-127 | a byte of the current block by its position in the file |
| DeflateSources.FileDeflateSource.Get | source/include/z/deflate.h:128-133 | the gets yield the file in order, whatever else is called in between |
| DeflateSources.MissingBlock | source/include/z/deflate.h:105-111 | the checksum of a file of one byte, taken right after that byte, is that of no bytes |
| DeflateSources.FileDeflateSource.FinishCrc | source/include/z/deflate.h:105-111 | the CRC of the bytes returned so far, except exactly when a whole block was used up since the last load |
| Deflation.BitWriter.WriteBits | source/lib/z/deflate.cc:47-52 | appends a field to the bits written, least significant first |
| Deflation.BitWriter.WriteBitsReverse | source/lib/z/deflate.cc:54-57 | appends a code, most significant bit first |
| Deflation.BitWriter.Flush | source/lib/z/deflate.cc:31-37 | pads with zero bits to whole bytes |
| Deflation.WriteSymbol | source/lib/z/deflate.cc:59-71 | appends the canonical code of the symbol |
| Deflation.WriteInt | source/lib/z/deflate.cc:73-86 | finds the one slot of the value and appends its code and extra bits |
| Deflation.WriteMatch | source/lib/z/deflate.cc:88-91 | appends bits that make inflate copy the match, whatever follows |
| Deflation.CopyReproduces | source/lib/z/inflate.cc:280-282 | copying a repetition reproduces the data, even where source and copy overlap |
| Deflation.MatchLength | source/lib/z/deflate.cc:111-118 | the longest repetition from that far back that is shorter than distance and limit |
| Deflation.FindMatch | source/lib/z/deflate.cc:103-125 | the longest repetition within the block from at most 29 bytes back, from the farthest place if there are several |
| Deflation.RunLength | source/lib/z/deflate.cc:136-143 | the whole run of the current byte up to the limit |
| Deflation.EncodeNext | source/lib/z/deflate.cc:101-152 | the bits sent for the next bytes mean exactly these bytes, and are the longest match if one has three bytes, else the literal and its run if that has three |
| Deflation.DeflateFixedBlock | source/lib/z/deflate.cc:97-162 | the bits of a block mean the block's part of the file |
| Deflation.DeflateStoredBlock | source/lib/z/deflate.cc:164-186 | writes length, complement and the block's part of the file on byte boundaries |
| Deflation.Compress | source/lib/z/deflate.cc:218-247 | what is written for a non-empty file means the file, whatever follows it, in complete blocks, only the last one final; nothing is written for an empty file |
| Deflation.CompressEndsExactly | source/lib/z/deflate.cc:225-243 | the rounds of compress come to an end iff the level is implemented or the file is empty |
| GzipRoundTrip.NoInputFails | source/lib/z/inflate.cc:340-385 | inflating end bytes of either convention fails, whatever follows |
| GzipRoundTrip.OneLetter | source/lib/z/inflate.cc:340-385 | a known stream of three bytes is inflated to the letter it holds |
| GzipRoundTrip.SizeIsRead | source/user/gzip/gzip.cc:57-59 | the size behind the checksum is the size of the file modulo 2^32, low byte first |
| GzipRoundTrip.Gzip | source/user/gzip/gzip.cc:47-61 | the deflated data, which mean the file, then its checksum and its size |
| GzipRoundTrip.Gunzip | source/user/gunzip/gunzip.cc:60-73 | behind any such data and trailer the file comes out, the reader stands at the checksum and it is valid; the empty file is rejected |
| GzipRoundTrip.RoundTrip | source/lib/z/deflate.cc:218-247 | gzip then gunzip succeeds iff the file is not empty, and yields the file with a valid checksum |
| GzipRoundTrip.RefuseLargestDistance | source/include/z/inflate.h:115-118 | a stream of two blocks on which the assertion fails, whatever its data |
| PathStrings.CompsSlack | source/include/ask/pathtree.h:394-415 | repeated slashes and "." make no difference to the components |
| PathLookup.AddressedExact | source/include/ask/pathtree.h:189-231 | insert and remove address what the components name, except exactly when the path ends in ".." behind an existing node below the root |
| PathLookup.RemainingExact | source/include/ask/pathtree.h:299-331 | find's match and rest lead where the path leads, with the exact exception for trailing ".." |
| PathLookup.TrailingDotsMislead | source/include/ask/pathtree.h:305-313 | the smallest example of that exception |
| PathLookup.LookupIsLongest | source/include/ask/pathtree.h:234-249 | without ".." the match is the longest prefix that carries data, and what is left is the rest |
| PathTrees.PathTree.FindAt | source/include/ask/pathtree.h:371-379 | finds the child of a name iff the extended path is in the tree |
| PathTrees.PathTree.ToNext | source/include/ask/pathtree.h:394-415 | skips to the next component and climbs once per ".." on the way; dereferences null iff that leads more than one level above a root without parent |
| PathTrees.PathTree.FindNode | source/include/ask/pathtree.h:299-331 | match, last node and remaining path are those of the abstract walk over the components; dereferences null iff the walk falls off a root without parent |
| PathTrees.PathTree.Find | source/include/ask/pathtree.h:243-249 | without ".." the longest prefix with data, whose path and the rest make up the whole path; dereferences null as FindNode does |
| PathTrees.FindAboveClone | source/include/ask/pathtree.h:394-415 | in a clone "/.." is answered and "/../.." dereferences null |
| PathTrees.PathTree.Insert | source/include/ask/pathtree.h:189-231 | fails with EEXIST iff the addressed path is bound and then binds nothing; otherwise it is map update; the nodes afterwards are exactly those visited, and the tree stays pruned iff all created ones are on the way to the addressed path; dereferences null iff the path climbs off a root without parent |
| PathTrees.InsertLeavesNode | source/include/ask/pathtree.h:205-227 | inserting "x/../y" leaves the node "x" without data below it |
| PathTrees.PathTree.Remove | source/include/ask/pathtree.h:257-296 | deletes exactly the binding of the path, returns its data, and keeps the tree well formed and pruned; dereferences null iff the root has no parent and either find falls off it or nothing else is left |
| PathTrees.RemoveLastOfClone | source/include/ask/pathtree.h:265-287 | the smallest case: removing the only binding of a clone |
| PathTrees.PathTree.Prune | source/include/ask/pathtree.h:265-293 | the upward loop ends, deletes no binding and leaves no leaf without data |
| PathTrees.PathTree.RootIffBound | source/include/ask/pathtree.h:284-291 | a pruned tree has a root iff something is bound |
| PathTrees.PathTree.CloneRec | source/include/ask/pathtree.h:333-357 | a fresh node for every node below, with the same name and data and the children in opposite order; the root's copy has no parent |
| PathTrees.PathTree.ReplaceWith | source/include/ask/pathtree.h:172-179 | the tree becomes a well formed copy with the same paths and bindings, and the source stays as it is |
| RingBuffers.RingBuffer.Write | source/include/ask/ringbuffer.h:76-87 | appends, or drops the oldest element for the new one, or refuses iff full without overwriting |
| RingBuffers.RingBuffer.Writen | source/include/ask/ringbuffer.h:96-103 | stores what single writes would, and counts what was accepted |
| RingBuffers.RingBuffer.Read | source/include/ask/ringbuffer.h:112-119 | takes the oldest unread element, if any |
| RingBuffers.RingBuffer.Readn | source/include/ask/ringbuffer.h:128-140 | copies and takes out the oldest elements in order across the wrap-around, as repeated reads would |
| RingBuffers.RingBuffer.MovePiece | source/include/ask/ringbuffer.h:151-158 | one round of move makes progress iff the destination overwrites or is not full |
| RingBuffers.RingBuffer.Move | source/include/ask/ringbuffer.h:149-161 | moves exactly the first elements of the source in order and loses none but what overwriting drops |
| RingBuffers.MoveEndsExactly | source/include/ask/ringbuffer.h:149-161 | the rounds of move come to an end iff the destination overwrites or has room for all that is to be moved |
| RingBuffers.MoveGetsStuck | source/include/ask/ringbuffer.h:149-161 | otherwise they reach a full destination, which every further round leaves as it is |
| RingBuffers.StoredConcat | source/include/ask/ringbuffer.h:96-103 | storing two parts one after the other is storing them at once |
| RingBuffers.RunKeepsLast | source/include/ask/ringbuffer.h:76-119 | in every run of writes and reads the buffer holds exactly the last elements behind the last one read; without overwriting nothing is lost |
| DnsNames.ConvertHostname | source/lib/ask/dns.cc:198-216 | the backward pass writes the labels of the name, each behind its length byte, and a zero, and nothing behind that |
| DnsNames.ShortName | source/lib/ask/dns.cc:198-216 | the bytes of the name "a.bc" |
| DnsNames.QuestionLength | source/lib/ask/dns.cc:218-228 | the number of bytes up to and including the first zero length |
| DnsNames.DecodeExactly | source/lib/ask/dns.cc:198-216 | for all labels: a reader finds the written labels again iff none is empty and all fit their length byte |
| DnsNames.ReadsBad | source/lib/ask/dns.cc:203-215 | a label that does not fit is read as the end of the name, or as its own beginning |
| DnsNames.NameRoundTrip | source/lib/ask/dns.cc:198-228 | every name takes two bytes more; it is read back whole iff no label is empty and all fit their length byte, and then it is measured whole |
| EscapeCodes.EsccGet | source/lib/basic/esccodes.c:26-123 | the scanning loops compute the parse of the text, with the limit of 19 characters |
| EscapeCodes.AnswerIs | source/lib/basic/esccodes.c:26-123 | the exact answer, cursor and arguments for every text that begins with a bracket, by the code, the arguments and the character behind them |
| EscapeCodes.EveryTextSplits | source/lib/basic/esccodes.c:35-49 | every such text consists of a code of at most two characters, at most three arguments, and a rest that continues neither |
| EscapeCodes.InvalidMovesCursor | source/lib/basic/esccodes.c:62-64 | after an invalid code the cursor stays iff the text does not begin with a bracket or exceeds the limit of 19, else it stands behind the first character that fits neither code nor arguments |
| EscapeCodes.ForeignColour | source/lib/basic/esccodes.c:62-64 | an unknown colour code is answered as invalid and skipped |
| EscapeCodes.ParseStable | source/lib/basic/esccodes.c:26-123 | once an answer is given, more text does not change it |
| EscapeCodes.Completable | source/lib/basic/esccodes.c:58-60 | text that is called incomplete is answered after a closing bracket, and with a command iff it then is a known code with arguments |
| EscapeCodes.ReadExactly | source/lib/basic/esccodes.c:43-49 | the 32-bit value read is the number written iff an int can hold that |
| EscapeCodes.CodeRead | source/lib/basic/esccodes.c:26-123 | every known code, in full or as one letter, with up to three arguments is read with its defaults and the cursor behind it iff it keeps the limit, whatever follows |
| EscapeCodes.AcceptsExactly | source/lib/basic/esccodes.c:26-123 | text is answered with a command iff it begins with a known code and its arguments within the limit |
| EscapeCodes.KnownCodes | source/lib/basic/esccodes.c:65-90 | exactly thirteen pairs of letters are known, and the six letters they begin with |
| EscapeCodes.KnownDefaults | source/lib/basic/esccodes.c:92-120 | for each known code the arguments it keeps and the defaults of those it lacks |
| EscapeCodes.Abbreviations | source/lib/basic/esccodes.c:65-90 | which code each single letter stands for |
| EscapeCodes.PrefixIncomplete | source/lib/basic/esccodes.c:58-60 | every proper prefix of such a code is incomplete and leaves the cursor |

## Left out

Block cache:
- Locks (`locks.cc`) and the lock and unlock calls do nothing in this cache and are not modelled; the hit and miss counters, `printStats` and `print` only report.
- BlockCaches.BlockCache.Acquire: `refs` is unbounded, so that the 16-bit reference count cannot wrap.
- BlockCaches.BlockCache.WriteOut: the temporary reference around a write is not modelled, and a failing write is not noticed by the code either.
- BlockCaches.BlockCache.constructor: shared memory is a parameter; beyond `GetBlock` the operations are modelled for pools of two or more entries, since an eviction in a smaller one dereferences null.
- LruModel.StepTransparent: clients hold what they change, mark it before the last release, and fill a created block; this is what the callers in the file system do.

Semaphore and mutex:
- Semaphores.BaseSem.DownEnter: interruptible downs, spurious wake-ups, thread switching and spin locks; a locked section is one step.
- MutexProtocol.StepKeeps: the mutex is a step function and not a class, because other threads run between the accesses to its fields.
- The semaphore's value is unbounded; the panic mode of `DEBUG_LOCKS` builds is not modelled.

Deflate and inflate:
- Inflation.Uncompress: streams without a meaning by the format (which end early, refer to output that does not exist, or overrun the tables) are left undefined.
- Deflation.Compress: dynamic codes are not implemented in the program either; on a non-empty file its loop does not end (CompressEndsExactly).
- DeflateSources.FileDeflateSource.Load: reads are full until the file ends.
- DeflateCode.SwappedHeader: the programs are modelled on a little-endian machine; this lemma says what differs.
- Gzip headers, and memory sources and drains.

Path tree:
- Allocation failure, the destructor, iterators and printing; deleted nodes only leave the tree.
- PathTrees.PathTree.Insert: after a null dereference, here as in `FindNode`, `Find` and `Remove`, only the bindings up to that point are described.
- Components are Dafny strings without a terminating zero.

Others:
- RingBuffers.RingBuffer.Move: source and destination are different buffers, and the destination has room or overwrites, since the loop does not end otherwise (MoveEndsExactly).
- RingBuffers.RingBuffer.Writen: the elements do not come from the buffer's own array.
- Printing of ring buffers.
- DnsNames.Decode: length bytes above 63, which RFC 1035 reserves, are read as lengths, as questionLength does.
- DnsNames.QuestionLength: the data contains the zero that ends the name; resolving and the rest of the message are not modelled.
- EscapeCodes.EsccGet: the program's int is taken to wrap around at 32 bits, which C leaves undefined.
- User interface, drivers, file devices and the other libraries.
