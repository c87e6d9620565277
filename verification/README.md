# Verified models of the native cores

Dafny models of five native components, with proofs of what they are for. `dafny verify dfyconfig.toml`
checks everything.

| files | component |
|---|---|
| `Bits`, `BinMap`, `TreeIndex`, `Trie`, `Heap`, `TreeLinks`, `Bins`, `Tiling`, `BestFit`, `Arena`, `Malloc` | dlmalloc 2.8.3: boundary tags, small bins, bitwise tries, dv and top |
| `Varints`, `Coded`, `MiniPB`, `LogFormat`, `MapCoder`, `Checksum`, `Compaction`, `Sized`, `Store`, `Runs`, `Recovery`, `Sharing` | MMKV's plain-text store: coding, log replay, in-place compaction, runs with crashes, several processes |
| `FileLock` | the recursive shared and exclusive lock between processes |
| `CryptReader` | the buffered, block-aligned decrypting reader |
| `Md5`, `ElfLookup` | MD5 over pieces; symbol lookup by hash tables |

## How the models are built

**dlmalloc.** `Malloc.MallocState` has the fields of `malloc_state`; its methods follow the code branch by branch
and change a record of the heap's words: heads (size, cinuse, pinuse), feet, ring links and tree links. Ghost fields
name the chunks, the content of each small bin and the trie of each tree bin. `Valid` says what the source's own
debug checks assert: the chunks tile the segment, tags agree with neighbours, no two free chunks touch, rings and trees
are well linked, and every free chunk is top, dv or a member of the one bin for its size. A small bin's links mean
something only while its bit is set, as in the code. Trees are described twice, as pure tries (`Trie`) and as linked
nodes in the heap (`Heap`, `TreeLinks`); every insertion and removal in the heap is proved to be the one on tries.
A run is told by its history: for every call the segment, the chunks in use and the blocks held before and after, and
its result. A request may fail only when no stretch of so many bytes is free (`Malloc.NoRoom`).

**MMKV.** A log is a sequence of bytes: a 4-byte placeholder and records of a key and a value, each behind its
length. `LogFormat.Replay` is what the map decoder computes; an index agrees with a log when it is its replay.
`Store.MMKV` is the store of one process: mapped file, output cursor, index, sizes, checksum, meta record in memory and
in the shared file. The stored map is the value bytes that the index points to. A parameter `disk` says how large the
file may become. Keys and values are below 2^31 bytes and files below 2^32. A record fits its holder when key and
length prefixes are below 2^16 bytes together (`LogFormat.Fits`, proved to be exactly when a holder is right); putting
another is allowed, and the store is in order afterwards exactly when the record fits. `Sized` describes a store by its
map, the bytes used and the file size alone; every call of the class is proved to be the one of that machine, so when
it succeeds can be told from the map and the sizes.

**Crashes and processes.** `Recovery` cuts an append after any single store and loads the result. From version 3 on a
store need not have the right size word in its file, because a crash can leave a wrong one: `Store.MMKV.Valid` asks for
it in old versions only. The store loaded after a crash is valid again, and `Runs` has crashes inside and between
calls. `Sharing` is a state machine of N processes over one file and meta record, each step under the lock as the code
takes it; its steps are proved to be those of store objects. The checksum is a fold over bytes (`Checksum.Crc32`), and
where the code trusts it the theorem says "but for a collision".

**FileLock.** One class for the counts and the OS lock of a process, whose methods take the kernel's answers as
parameters, and a state machine of N processes whose steps are the single `flock` calls; every call of the class that
ends in order is proved to be a run of such steps. A conversion of an OS lock lets go of the old lock first, as Linux
documents.

**CryptReader.** The cipher is a stream: `Decrypter` holds the plain text and the place up to which it has decrypted.
The reader's buffer, positions and discard position are the code's; what it returns is proved equal to the plain
reader's result over the plain text.

**MD5.** The 64 calls of the compression function are written out and proved to be the 64 steps that four tables
describe; buffering, counting and padding are proved against a fold over the padded message.

**ElfLookup.** A table that fits is described from the format: chains that end, symbols in the bucket of their hash,
filter bits set. Names are unique among the symbols a table indexes.

## Where the code decides otherwise than one would expect

- A key whose record head does not fit 16 bits is stored with a wrapped holder (`LogFormat.LongKeyBreaksHolder`);
  `LogFormat.HolderIsExact` gives the exact bound.
- A string is stored behind its own length, so the empty string is a value, while a zero-length record deletes.
- Removing a single key by the multiple removal needs room for a record and may therefore leave the key; removing
  several keys rewrites the log and does not.
- A small request takes a chunk of its own bin or the next one before dv, but not a chunk that is 16 or 24 bytes larger
  although that would leave no remainder either; `Arena.BinsChoose` states the rule.
- While the meta checksum is new and the meta size old, a crash is recovered only because the size word of the file was
  written before; `Recovery.CrashRecovers` names the collision that would defeat it.

## Model

| member | source | states |
|---|---|---|
| Malloc.MallocState.Dlmalloc | il2cppTrace/src/main/cpp/libffi/dlmalloc.c:4131-4261 | the state stays valid; on success exactly one new chunk is in use, with nb <= size < nb + MIN_CHUNK_SIZE for the padded request, and it comes from where the code says: a smallest fitting chunk of all bins (no better than dv needs it), else dv, else top; on failure nothing in use changed and no free chunk had room, even after the system extended the segment |
| Malloc.MallocState.Dlfree | il2cppTrace/src/main/cpp/libffi/dlmalloc.c:4263-4357 | the state stays valid and the chunks in use are the old ones without exactly the one freed, through every way of joining it with its neighbours, dv or top; null is ignored |
| Malloc.Run | il2cppTrace/src/main/cpp/libffi/dlmalloc.c:4131-4361 | every run of malloc and free calls from the first region on is, call by call, what was asked for: a request that gets null means that no stretch of so many bytes is free, even after the system was asked for more; any other gets a pointer not held before to a new chunk of the right size; a release takes out exactly its block; and at the end the chunks in use are exactly the blocks held |
| Malloc.Step | il2cppTrace/src/main/cpp/libffi/dlmalloc.c:4131-4361 | one call does to the segment, the chunks in use and the blocks held exactly what Served says of that call and its result, and the system is asked for memory only when no stretch of bytes is free |
| Malloc.FullIsNoRoom | il2cppTrace/src/main/cpp/libffi/dlmalloc.c:4131-4261 | the free chunks all being too small is the same as every stretch of so many bytes being in use somewhere: no room is lost between chunks |
| Malloc.AllFreeIsOneChunk | il2cppTrace/src/main/cpp/libffi/dlmalloc.c:4316-4349 | when nothing is in use every free chunk has been joined: the segment is the one chunk top |
| Malloc.MallocState.PayloadIsPrivate | il2cppTrace/src/main/cpp/libffi/dlmalloc.c:2658-2690 | a live payload lies inside the segment, overlaps no other payload and covers no head word of any chunk |
| Malloc.MallocState.constructor | il2cppTrace/src/main/cpp/libffi/dlmalloc.c:3555-3568 | the first region becomes top; all bins, dv and both bitmaps are empty and the state is valid |
| Malloc.MallocState.Shape | il2cppTrace/src/main/cpp/libffi/dlmalloc.c:2859-2886 | in every valid state top is a free chunk with its pinuse bit that ends the segment, and bitmaps and bins agree |
| Malloc.MallocState.Chunk | il2cppTrace/src/main/cpp/libffi/dlmalloc.c:2624-2690 | every chunk is aligned and inside the segment, at least MIN_CHUNK_SIZE unless it is top, followed by a chunk whose pinuse bit is its cinuse bit; two free chunks are never neighbours |
| Malloc.MallocState.FreeInOnePlace | il2cppTrace/src/main/cpp/libffi/dlmalloc.c:2828-2886 | in every valid state each free chunk is exactly one of top, dv or a member of the one bin for its size |
| Malloc.MallocState.SysAlloc | il2cppTrace/src/main/cpp/libffi/dlmalloc.c:3429-3592 | when the system extends the segment by grant bytes (0 for failure) top grows by them and serves the request if it is then larger, else nothing else changes |
| Malloc.MallocState.GrowTop | il2cppTrace/src/main/cpp/libffi/dlmalloc.c:3287-3300 | init_top: top ends at the new end of the segment, all other chunks are as before |
| Malloc.MallocState.FromSmallBins | il2cppTrace/src/main/cpp/libffi/dlmalloc.c:4158-4210 | a small request takes a smallest fitting chunk of all bins, while dv has room only one from the two bins tried first; it declines, changing nothing, exactly when the bins have none worth taking |
| Malloc.MallocState.FromTrees | il2cppTrace/src/main/cpp/libffi/dlmalloc.c:4211-4219 | a large request takes a smallest fitting chunk of all bins that fits better than dv, or declines without a change |
| Malloc.MallocState.FromDvOrTop | il2cppTrace/src/main/cpp/libffi/dlmalloc.c:4221-4253 | dv serves the request if it is large enough, else top, else the system; failure means that no free chunk has room |
| Malloc.MallocState.TmallocLarge | il2cppTrace/src/main/cpp/libffi/dlmalloc.c:3729-3799 | exact best fit over all trees, unless dv fits at least as well or no tree chunk fits; the remainder goes to a bin |
| Malloc.MallocState.TmallocSmall | il2cppTrace/src/main/cpp/libffi/dlmalloc.c:3801-3832 | the smallest chunk of the lowest non-empty tree serves a small request: the best fit over all trees |
| Malloc.MallocState.TakeDv | il2cppTrace/src/main/cpp/libffi/dlmalloc.c:4221-4239 | dv is used whole when less than MIN_CHUNK_SIZE would be left, else its front is, and the rest is dv |
| Malloc.MallocState.TakeTop | il2cppTrace/src/main/cpp/libffi/dlmalloc.c:4241-4251 | the front of top is used and the rest stays top with a valid head |
| Malloc.MallocState.TakeSmall | il2cppTrace/src/main/cpp/libffi/dlmalloc.c:4165-4176 | the first chunk of a small bin that fits without a remainder is handed out whole |
| Malloc.MallocState.SplitSmall | il2cppTrace/src/main/cpp/libffi/dlmalloc.c:4178-4203 | the first chunk of the next non-empty small bin is handed out, a remainder of MIN_CHUNK_SIZE or more becoming dv |
| Malloc.MallocState.ReplaceDv | il2cppTrace/src/main/cpp/libffi/dlmalloc.c:3029-3036 | the old dv goes to its small bin and the new chunk becomes dv |
| Malloc.MallocState.InsertLargeChunk | il2cppTrace/src/main/cpp/libffi/dlmalloc.c:3043-3092 | afterwards the bin of the chunk's size holds the trie with exactly this chunk added, all tree bins are well-formed linked tries, the bitmap marks the non-empty ones, and no link outside that tree changed |
| Malloc.MallocState.UnlinkLargeChunk | il2cppTrace/src/main/cpp/libffi/dlmalloc.c:3111-3180 | afterwards exactly this chunk is gone from its tree, all tree bins are well-formed linked tries, the bitmap marks the non-empty ones, and no link outside that tree changed |
| Malloc.MallocState.FindPlace | il2cppTrace/src/main/cpp/libffi/dlmalloc.c:3057-3090 | the walk down by the bits of the size ends at the node of that size or at an open child; it ends because two sizes of one bin differ in a remaining bit |
| Malloc.MallocState.FindLeaf | il2cppTrace/src/main/cpp/libffi/dlmalloc.c:3126-3133 | the walk to a replacement, right before left, ends at a leaf below the node |
| Malloc.MallocState.UnlinkHalf | il2cppTrace/src/main/cpp/libffi/dlmalloc.c:3111-3140 | a chained chunk, or the deepest leaf found, takes the place of the chunk that is unlinked |
| Malloc.MallocState.AdoptChildren | il2cppTrace/src/main/cpp/libffi/dlmalloc.c:3155-3175 | the replacement takes over both children and their parent links |
| Malloc.MallocState.InsertSmallChunk | il2cppTrace/src/main/cpp/libffi/dlmalloc.c:2972-2987 | the chunk joins the front of the ring of its small bin, whose stale header links are overwritten when the bit is off |
| Malloc.MallocState.UnlinkSmallChunk | il2cppTrace/src/main/cpp/libffi/dlmalloc.c:2991-3008 | the chunk leaves the ring of its small bin, and the bit is cleared exactly when the ring was one chunk |
| Malloc.MallocState.UnlinkFirstSmallChunk | il2cppTrace/src/main/cpp/libffi/dlmalloc.c:3011-3024 | the first chunk of a marked small bin leaves it; its size is the bin's |
| Malloc.MallocState.FreeIntoTop | il2cppTrace/src/main/cpp/libffi/dlmalloc.c:4316-4327 | a freed chunk below top joins it, and dv is dropped if it was part of the joined space |
| Malloc.MallocState.FreeIntoDv | il2cppTrace/src/main/cpp/libffi/dlmalloc.c:4328-4333 | a freed chunk below dv joins it |
| Malloc.MallocState.FreeWithNext | il2cppTrace/src/main/cpp/libffi/dlmalloc.c:4334-4349 | a freed chunk joins the free chunk above it, which leaves its bin; the joined chunk goes to its bin or is dv |
| Malloc.MallocState.FreeBackward | il2cppTrace/src/main/cpp/libffi/dlmalloc.c:4286-4312 | a freed chunk joins the free chunk below it, which leaves its bin unless it is dv |
| Tiling.ChunkHolding | il2cppTrace/src/main/cpp/libffi/dlmalloc.c:2624-2690 | every address of the segment is in exactly one chunk |
| Tiling.ChunksApart | il2cppTrace/src/main/cpp/libffi/dlmalloc.c:2624-2690 | two chunks never overlap |
| Tiling.PrevByFoot | il2cppTrace/src/main/cpp/libffi/dlmalloc.c:1745 | a clear pinuse bit means that the foot below is the size of a free chunk that ends here |
| Tiling.CutFree | il2cppTrace/src/main/cpp/libffi/dlmalloc.c:3789-3791 | cutting a free chunk in two keeps the segment tiled with right tags |
| Tiling.Merge | il2cppTrace/src/main/cpp/libffi/dlmalloc.c:1755-1761 | turning a run of chunks into one free chunk keeps the segment tiled with right tags |
| Tiling.MergeTop | il2cppTrace/src/main/cpp/libffi/dlmalloc.c:4316-4319 | turning the last chunks into top keeps the segment tiled with right tags |
| Arena.ArenaInsertTree | il2cppTrace/src/main/cpp/libffi/dlmalloc.c:3043-3092 | inserting a loose chunk into its tree bin keeps every free chunk in exactly one place |
| Arena.ArenaRemoveTree | il2cppTrace/src/main/cpp/libffi/dlmalloc.c:3111-3180 | taking a chunk out of its tree bin leaves all other free chunks in their bins |
| Arena.ArenaInsertSmall | il2cppTrace/src/main/cpp/libffi/dlmalloc.c:2972-2987 | inserting a loose chunk into its small bin keeps every free chunk in exactly one place |
| Arena.ArenaRemoveSmall | il2cppTrace/src/main/cpp/libffi/dlmalloc.c:2991-3008 | taking a chunk out of its small bin leaves all other free chunks in their bins |
| Arena.SmallLeast | il2cppTrace/src/main/cpp/libffi/dlmalloc.c:4163-4203 | the first chunk of the first non-empty small bin from the size of the request on is a smallest fitting chunk of all bins |
| Arena.TreeLeast | il2cppTrace/src/main/cpp/libffi/dlmalloc.c:3729-3832 | the best of the trees is a smallest fitting chunk of all bins when no small chunk fits |
| Trie.InsertKeepsTrie | il2cppTrace/src/main/cpp/libffi/dlmalloc.c:2706-2755 | insertion keeps a trie: sizes unique, every subtree agreeing on its bits; the sizes are the old ones and the new one |
| Trie.InsertAddsOne | il2cppTrace/src/main/cpp/libffi/dlmalloc.c:3043-3092 | insertion adds exactly the chunk, with its size |
| Trie.RemoveKeepsTrie | il2cppTrace/src/main/cpp/libffi/dlmalloc.c:2706-2755 | removal keeps a trie |
| Trie.RemoveLosesOne | il2cppTrace/src/main/cpp/libffi/dlmalloc.c:3111-3180 | removal drops exactly the chunk |
| TreeLinks.JoinRing | il2cppTrace/src/main/cpp/libffi/dlmalloc.c:3078-3085 | the five stores that put a chunk into the ring of the node of its size leave the linked tree the trie with the chunk in that node |
| TreeLinks.HangLeaf | il2cppTrace/src/main/cpp/libffi/dlmalloc.c:3062-3072 | the stores that hang a chunk below an open child leave the linked tree the trie with the chunk as a leaf there |
| TreeLinks.UnlinkDone | il2cppTrace/src/main/cpp/libffi/dlmalloc.c:3111-3180 | the stores of an unlink make the linked tree the trie with the chunk removed |
| BestFit.FindBest | il2cppTrace/src/main/cpp/libffi/dlmalloc.c:3729-3777 | v is a tree chunk with size nb + rsize and no tree chunk that fits is smaller; v is null exactly when none fits |
| BestFit.SearchBin | il2cppTrace/src/main/cpp/libffi/dlmalloc.c:3736-3758 | after the walk along the bits of nb every size that fits is at least the best so far or in, or above, the deepest untaken right subtree |
| BestFit.SmallestBelow | il2cppTrace/src/main/cpp/libffi/dlmalloc.c:3770-3777 | the leftmost walk ends with the smallest fitting size; the unsigned wrap of a size that is too small never wins |
| BestFit.FindSmall | il2cppTrace/src/main/cpp/libffi/dlmalloc.c:3801-3818 | the leftmost walk in the lowest marked tree finds the smallest tree chunk |
| TreeIndex.ComputeTreeIndex | il2cppTrace/src/main/cpp/libffi/dlmalloc.c:2317-2333 | the branch-free index is the bin whose size range holds the size, the last bin being open above, and 0 below 256 |
| TreeIndex.TreeBinsOrdered | il2cppTrace/src/main/cpp/libffi/dlmalloc.c:2346-2348 | sizes of a lower bin are smaller than those of a higher one, and a size has one bin |
| TreeIndex.TreeBinPrefix | il2cppTrace/src/main/cpp/libffi/dlmalloc.c:2336-2343 | all sizes of a bin agree on the bits above those that its trie branches on |
| TreeIndex.MinSizeIs | il2cppTrace/src/main/cpp/libffi/dlmalloc.c:2346-2348 | minsize_for_tree_index in closed form; successive bins meet |
| TreeIndex.RequestToSize | il2cppTrace/src/main/cpp/libffi/dlmalloc.c:1706-1711 | the padded size is aligned, has room for the request and overhead, and is small exactly for small requests |
| BinMap.ComputeBitToIdx | il2cppTrace/src/main/cpp/libffi/dlmalloc.c:2380-2389 | compute_bit2idx inverts idx2bit on all 32 bits |
| BinMap.LowestBin | il2cppTrace/src/main/cpp/libffi/dlmalloc.c:2395 | least_bit and compute_bit2idx find the lowest marked bin |
| BinMap.NextBin | il2cppTrace/src/main/cpp/libffi/dlmalloc.c:2398 | left_bits, least_bit and compute_bit2idx find the first marked bin to the left, or that there is none |
| BinMap.NextSmallBin | il2cppTrace/src/main/cpp/libffi/dlmalloc.c:4183-4186 | the bitmap search of a small request finds the first marked bin from its own on |
| BinMap.RemainderlessFit | il2cppTrace/src/main/cpp/libffi/dlmalloc.c:4163-4168 | the two-bit test and the index correction find a bin that fits without a remainder whenever there is one |
| Bits.LeastBitIsLowest | il2cppTrace/src/main/cpp/libffi/dlmalloc.c:2395 | x & -x is the lowest bit of x |
| Varints.RoundTripInt32 | nativeLib/src/main/cpp/mmkv/CodedOutputData.cpp:60-66 | every int32 is read back, negatives from 10 bytes |
| Varints.RoundTripUInt32 | nativeLib/src/main/cpp/mmkv/CodedInputData.cpp:159-191 | every uint32 is read back from the bytes written for it |
| Varints.RoundTripInt64 | nativeLib/src/main/cpp/mmkv/CodedInputData.cpp:55-67 | every int64 is read back |
| Varints.RoundTripUInt64 | nativeLib/src/main/cpp/mmkv/CodedOutputData.cpp:144-154 | every uint64 is read back from the bytes written for it |
| Varints.RawVarint32SizeIsLength | nativeLib/src/main/cpp/mmkv/PBUtility.cpp:25-36 | the size of a uint32 is the number of bytes written |
| Varints.UInt64SizeIsLength | nativeLib/src/main/cpp/mmkv/PBUtility.cpp:38-59 | the size of a uint64 is the number of bytes written |
| Varints.Int32SizeIsLength | nativeLib/src/main/cpp/mmkv/PBUtility.h:138-144 | the size of an int32 is the number of bytes written |
| Coded.ReadBackData | nativeLib/src/main/cpp/mmkv/CodedInputData.cpp:126-140 | length-delimited bytes below 2^31 are read back where they were written |
| Coded.CodedInputData.ReadRawVarint32 | nativeLib/src/main/cpp/mmkv/CodedInputData.cpp:159-191 | reads the varint at the position, with the five discarded bytes of a negative number, and throws as specified |
| Coded.CodedInputData.ReadInt64 | nativeLib/src/main/cpp/mmkv/CodedInputData.cpp:55-67 | reads the 64-bit varint at the position or throws |
| Coded.CodedInputData.ReadData | nativeLib/src/main/cpp/mmkv/CodedInputData.cpp:126-140 | reads length-delimited bytes, with the code's errors for negative lengths and missing bytes |
| Coded.CodedInputData.Seek | nativeLib/src/main/cpp/mmkv/CodedInputData.cpp:40-45 | moves on, or throws and stays |
| Coded.CodedOutputData.WriteRawVarint | nativeLib/src/main/cpp/mmkv/CodedOutputData.cpp:132-154 | writes exactly the varint at the position and nothing else, and succeeds exactly when it fits |
| Coded.CodedOutputData.WriteInt32 | nativeLib/src/main/cpp/mmkv/CodedOutputData.cpp:60-66 | writes the 32-bit or, for negatives, the 64-bit varint |
| Coded.CodedOutputData.WriteInt64 | nativeLib/src/main/cpp/mmkv/CodedOutputData.cpp:52-54 | writes the varint of the 64-bit word |
| Coded.CodedOutputData.WriteRawData | nativeLib/src/main/cpp/mmkv/CodedOutputData.cpp:121-130 | copies the bytes, or throws without a change when they do not fit |
| Coded.CodedOutputData.WriteData | nativeLib/src/main/cpp/mmkv/CodedOutputData.cpp:76-81 | writes length and bytes |
| Coded.CodedOutputData.Seek | nativeLib/src/main/cpp/mmkv/CodedOutputData.cpp:104-110 | moves the position on, or throws |
| Coded.CodedOutputData.SpaceLeft | nativeLib/src/main/cpp/mmkv/CodedOutputData.cpp:97-102 | the bytes behind the position |
| MiniPB.Prepare | nativeLib/src/main/cpp/mmkv/MiniPBCoder.cpp:200-234 | the item sizes worked out beforehand are those of the encoding |
| MiniPB.EncodeVector | nativeLib/src/main/cpp/mmkv/MiniPBCoder.cpp:172-182 | the buffer is filled exactly with the encoding of the vector |
| MiniPB.WriteItems | nativeLib/src/main/cpp/mmkv/MiniPBCoder.cpp:66-114 | the items are written one behind the other |
| MiniPB.DecodeVector | nativeLib/src/main/cpp/mmkv/MiniPBCoder.cpp:236-247 | the strings are read until the end of the bytes |
| MiniPB.VectorRoundTrip | nativeLib/src/main/cpp/mmkv/MiniPBCoder.cpp:200-247 | decoding the encoding of any vector of strings returns it |
| LogFormat.HolderIsExact | nativeLib/src/main/cpp/mmkv/KeyValueHolder.cpp:30-34 | the 16- and 32-bit fields of a holder record the true sizes if and only if the key's size and the head's size are below 2^16 |
| LogFormat.LongKeyBreaksHolder | nativeLib/src/main/cpp/mmkv/KeyValueHolder.cpp:30-34 | with a value of one byte, a key of 65531 bytes has an exact holder, and for a key of 65532 bytes computedKVSize wraps to 0 |
| LogFormat.ReadBackRecord | nativeLib/src/main/cpp/mmkv/CodedInputData.cpp:103-157 | a record is read back with key, holder and end |
| LogFormat.ReplayExtends | nativeLib/src/main/cpp/mmkv/MiniPBCoder.cpp:249-288 | replaying a longer log is replaying its front and then its end on the result |
| LogFormat.RecordMoves | nativeLib/src/main/cpp/mmkv/MMKV_IO.cpp:751-803 | a record moved to another offset reads as the same record but for the offset |
| LogFormat.AppendAgrees | nativeLib/src/main/cpp/mmkv/MMKV_IO.cpp:619-678 | appending a record keeps the index equal to the replay of the log |
| LogFormat.AppendSound | nativeLib/src/main/cpp/mmkv/MMKV_IO.cpp:619-678 | appending a record keeps all records whole and apart and changes the stored map at its key only; an empty value deletes |
| LogFormat.EmptyLog | nativeLib/src/main/cpp/mmkv/MMKV_IO.cpp:793-795 | the header alone replays to the empty map |
| LogFormat.HeaderIsHolder | nativeLib/src/main/cpp/mmkv/MMKV_IO.cpp:299-300 | the four header bytes are the varint of the item size holder |
| MapCoder.DecodeOneMap | nativeLib/src/main/cpp/mmkv/MiniPBCoder.cpp:249-288 | the loop with its holder-filling reads computes the replay of the log, greedy or not, dropping everything on an exception only when not greedy |
| MapCoder.ReadEntry | nativeLib/src/main/cpp/mmkv/CodedInputData.cpp:103-157 | one record is read with its holder; an empty key has no value |
| Checksum.CrcChains | nativeLib/src/main/cpp/mmkv/MMKV.cpp:409-416 | the running checksum over an appended piece is the checksum of the whole |
| Checksum.Fixed32RoundTrip | nativeLib/src/main/cpp/mmkv/MMKV_IO.cpp:403-414 | the size word is read back |
| Compaction.CompactionPreserves | nativeLib/src/main/cpp/mmkv/MMKV_IO.cpp:751-803 | the records of all keys, packed behind the header in order of offset, replay to the new index, which holds the same value for every key; the new log is not longer and its length is the one precomputed |
| Compaction.MemmoveDictionary | nativeLib/src/main/cpp/mmkv/MMKV_IO.cpp:751-803 | after sorting, merging and moving in place the log bytes are exactly the header and the packed records, no byte behind them changed, and the index has the new offsets |
| Compaction.SortByOffset | nativeLib/src/main/cpp/mmkv/MMKV_IO.cpp:757-763 | all keys in order of their offsets |
| Compaction.MergeSections | nativeLib/src/main/cpp/mmkv/MMKV_IO.cpp:765-776 | adjacent records merge into sections that cover exactly the records |
| Compaction.MoveSections | nativeLib/src/main/cpp/mmkv/MMKV_IO.cpp:777-783 | forward moves never overwrite a byte still to be moved: the result is the concatenation of the old sections |
| Compaction.Memmove | nativeLib/src/main/cpp/mmkv/MMKV_IO.cpp:781 | an overlapping move to a lower address leaves the old bytes of its source at its target |
| Compaction.UpdateOffsets | nativeLib/src/main/cpp/mmkv/MMKV_IO.cpp:784-791 | the new offsets lie one behind the other from 4 on |
| Compaction.SameTotal | nativeLib/src/main/cpp/mmkv/MMKV_IO.cpp:302-310 | the size of the rewritten log does not depend on the order of the keys |
| Runs.Run | nativeLib/src/main/cpp/mmkv/MMKV_IO.cpp:496-713 | every run of set, remove, multiple remove, clear and reload calls on a new store, and of sets and removals that a crash cuts off after any store of their append, goes call by call as the machine on maps, bytes used and file sizes: each call succeeds exactly when the machine's does, the stored map, the log's length and the file's size are the machine's, and index and log stay in agreement |
| Runs.Step | nativeLib/src/main/cpp/mmkv/MMKV_IO.cpp:496-713 | one call succeeds and changes map, bytes used and file size exactly as the machine says; only a crash leaves open whether its record is there |
| Runs.OnlyWhatWasAsked | nativeLib/src/main/cpp/mmkv/MMKV_IO.cpp:496-617 | a call that fails changes nothing that is stored, and one that succeeds makes the stored map what it was asked to |
| Store.MMKV.SetDataForKey | nativeLib/src/main/cpp/mmkv/MMKV_IO.cpp:496-568 | succeeds exactly when the key is not empty, there is a value and room for the record can be made; afterwards the store is in order if and only if nothing was put or the record fits its holder, and then map, bytes used and file size are those of the put, or unchanged on failure |
| Store.MMKV.RemoveDataForKey | nativeLib/src/main/cpp/mmkv/MMKV_IO.cpp:570-617 | succeeds exactly when the key is stored and room for the record can be made; then the key is gone and map, bytes used and file size are those of the put of an empty value, else nothing changed |
| Store.MMKV.GetDataForKey | nativeLib/src/main/cpp/mmkv/MMKV_IO.cpp:465-494 | finds exactly the stored keys, with their value bytes |
| Store.MMKV.SetString | nativeLib/src/main/cpp/mmkv/MMKV.cpp:514-519 | stores the string behind its length, so an empty string is a stored value; in order afterwards exactly when the record fits its holder |
| Store.MMKV.GetString | nativeLib/src/main/cpp/mmkv/MMKV.cpp:538-554 | reads back every string that was set, the empty one too, and nothing for an absent key |
| Store.MMKV.RemoveValuesForKeys | nativeLib/src/main/cpp/mmkv/MMKV.cpp:930-967 | removes exactly the keys given, by a rewrite of the log whose length is that of the records left, or for a single key by an append that needs room |
| Store.MMKV.Reload | nativeLib/src/main/cpp/mmkv/MMKV.cpp:284-311 | dropping the cache and loading again gives the same index, the same map and the same file bytes |
| Store.MMKV.ClearMemoryCache | nativeLib/src/main/cpp/mmkv/MMKV.cpp:284-311 | the cache is dropped unless it has been already |
| Store.MMKV.constructor | nativeLib/src/main/cpp/mmkv/MMKV_IO.cpp:59-135 | a new file loads as the empty map |
| Store.MMKV.LoadFromFile | nativeLib/src/main/cpp/mmkv/MMKV_IO.cpp:59-135 | file, meta record and index after a load are those of the decision of checkDataValid: replay of the judged log, or a store reset to nothing |
| Store.MMKV.CheckData | nativeLib/src/main/cpp/mmkv/MMKV_IO.cpp:181-254 | decides by checksum between the recorded size, the size word of the file, the last confirmed size and discarding, in this order |
| Store.MMKV.CheckLastConfirmed | nativeLib/src/main/cpp/mmkv/MMKV_IO.cpp:187-213 | the recovery by size word or last confirmed size, with the repair it writes |
| Store.ValidReloads | nativeLib/src/main/cpp/mmkv/MMKV_IO.cpp:59-135 | a valid state is judged good and loads as itself |
| Store.MMKV.WriteActualSize | nativeLib/src/main/cpp/mmkv/MMKV_IO.cpp:403-463 | the size word, the fields and the shared meta record after the write, whole or checksum and size only |
| Store.PartialWriteSuffices | nativeLib/src/main/cpp/mmkv/MMKVMetaInfo.hpp:58-68 | writing only checksum and size leaves the shared record equal to the one in memory |
| Store.MMKV.EnsureMemorySize | nativeLib/src/main/cpp/mmkv/MMKV_IO.cpp:344-383 | it fails exactly when neither the free space nor the disk has room, and then nothing changes; after success n < spaceLeft, the map is unchanged, and log length and file size are as before when there was room, else those of a rewrite of the live records in a file extended as far as needed |
| Store.MMKV.ExtendFile | nativeLib/src/main/cpp/mmkv/MMKV_IO.cpp:352-379 | the file is extended to the doubled and rounded size if needed, keeping the log, or stays when the disk is full |
| Sized.Doubled | nativeLib/src/main/cpp/mmkv/MMKV_IO.cpp:361-365 | the doubling loop ends, with the first size above the need |
| Sized.PageRounded | nativeLib/src/main/cpp/mmkv/MemoryFile.cpp:141-146 | the rounded size is a positive multiple of the page size, less than a page and a byte larger |
| Sized.RewrittenIsLive | nativeLib/src/main/cpp/mmkv/MMKV_IO.cpp:302-310 | the size of a rewrite as worked out from the holders is that of a header and one record for each key of the stored map |
| Store.MMKV.Truncate | nativeLib/src/main/cpp/mmkv/MemoryFile.cpp:123-171 | the file gets the rounded size and keeps its bytes, or stays as it is |
| Store.MMKV.DoFullWriteBack | nativeLib/src/main/cpp/mmkv/MMKV_IO.cpp:894-938 | the log is compacted in place to the live records in order of their offsets: same map, precomputed size, next sequence number |
| Store.MMKV.PrepareEncode | nativeLib/src/main/cpp/mmkv/MMKV_IO.cpp:302-310 | all keys once, and the size that the rewritten log will have |
| Store.MMKV.RecalculateCrc | nativeLib/src/main/cpp/mmkv/MMKV.cpp:400-407 | checksum, size words and sequence number of the rewritten log |
| Store.MMKV.FullWriteback | nativeLib/src/main/cpp/mmkv/MMKV_IO.cpp:715-749 | a rewrite of the log of the keys left, or a reset when none is |
| Store.MMKV.ClearAll | nativeLib/src/main/cpp/mmkv/MMKV_IO.cpp:1046-1073 | the store is empty, in one page, with the next sequence number, or was so already and is untouched |
| Store.MMKV.DoAppendDataWithKey | nativeLib/src/main/cpp/mmkv/MMKV_IO.cpp:619-678 | appends exactly one record whose size was computed before, for a raw or an already encoded key, once room has been made, and fails exactly when none can be; log and index are then those before with one record more |
| Store.MMKV.AppendWithHolder | nativeLib/src/main/cpp/mmkv/MMKV_IO.cpp:690-713 | an append for a stored key: its encoding is read from the log after the room has been made, so a rewrite does not spoil it |
| Store.MMKV.AppendRecord | nativeLib/src/main/cpp/mmkv/MMKV_IO.cpp:652-677 | the append changes file, checksum, size words and meta record exactly as the specification of an append |
| Store.MMKV.WriteRecord | nativeLib/src/main/cpp/mmkv/MMKV_IO.cpp:652-661 | key, holder length and value are written behind the log and nowhere else, without running out of space |
| Store.MMKV.GrowLog | nativeLib/src/main/cpp/mmkv/MMKV.cpp:409-416 | the running checksum and the size words follow the record just written |
| Recovery.CrashRecovers | nativeLib/src/main/cpp/mmkv/MMKV_IO.cpp:652-677 | a crash after any number of stores of an append, from any good log whatever the size word of the file, loads exactly the log before it, up to the size word; exactly the log after it once the meta record is complete; and between the two meta stores the log after it by the size word, but for a checksum collision |
| Recovery.CrashLeavesOrder | nativeLib/src/main/cpp/mmkv/MMKV_IO.cpp:181-254 | the load after a crash at any store leaves file and meta record good again, so that the next append may crash as well |
| Recovery.DieAndReopen | nativeLib/src/main/cpp/mmkv/MMKV_IO.cpp:59-135 | a running store that dies in an append and is opened again is valid, with the map before or after it: before up to the size word, after with the last store |
| Recovery.PartOfAppend | nativeLib/src/main/cpp/mmkv/MMKV_IO.cpp:652-677 | the first k stores of an append, made one by one in the shared memory |
| Recovery.CrashInPut | nativeLib/src/main/cpp/mmkv/MMKV_IO.cpp:619-678 | a put or removal cut off by a crash leaves a valid store with the record or without it, in the room made for it |
| Recovery.CrashMaps | nativeLib/src/main/cpp/mmkv/MMKV_IO.cpp:181-254 | the two logs stand for the map before and the map after the append |
| Recovery.AllStoresAppend | nativeLib/src/main/cpp/mmkv/MMKVMetaInfo.hpp:63-68 | all stores together are the append |
| Recovery.ValidHolds | nativeLib/src/main/cpp/mmkv/MMKV_IO.cpp:403-463 | every valid store that has a log is a state from which an append may crash |
| Sharing.CheckLoadDataSyncs | nativeLib/src/main/cpp/mmkv/MMKV_IO.cpp:256-297 | after checkLoadData, with the lock held, the index of the process is the replay of the whole shared log, by full load or suffix, but for a checksum collision |
| Sharing.PartialLoadSyncs | nativeLib/src/main/cpp/mmkv/MMKV_IO.cpp:137-179 | checking and replaying only the new end of the log gives the replay of the whole |
| Sharing.FullLoadSyncs | nativeLib/src/main/cpp/mmkv/MMKV_IO.cpp:59-135 | a full load gives the replay of the whole shared log |
| Sharing.StepKeepsInv | nativeLib/src/main/cpp/mmkv/MMKV_IO.cpp:256-297 | every locked read check, append, rewrite or cache clearing by any process keeps the invariant: equal sequence numbers imply that the cached log is a prefix of the shared one |
| Sharing.RunKeepsInv | nativeLib/src/main/cpp/mmkv/MMKV_IO.cpp:256-297 | the invariant holds in every state of every run of N processes, and every check in it ends with the whole log |
| Sharing.AppendKeepsShared | nativeLib/src/main/cpp/mmkv/MMKV_IO.cpp:652-677 | an append by a synced process keeps the shared log in order, its older prefixes and its sequence number |
| Sharing.RewriteKeepsShared | nativeLib/src/main/cpp/mmkv/MMKV_IO.cpp:894-938 | a rewrite by a synced process keeps the shared map and raises the sequence number |
| Sharing.CheckLoad | nativeLib/src/main/cpp/mmkv/MMKV_IO.cpp:256-297 | checkLoadData on a store object takes the process where the machine's step takes it, and on a shared store in order ends with a valid store that has the shared map, but for a collision |
| Sharing.PartialLoadFromFile | nativeLib/src/main/cpp/mmkv/MMKV_IO.cpp:137-179 | the method on a store object is the partial load of the machine |
| Sharing.RewriteLog | nativeLib/src/main/cpp/mmkv/MMKV_IO.cpp:894-938 | doFullWriteBack of a synced store object is the rewrite of the machine: the live records packed in order of their offsets, same map, next sequence number |
| Sharing.AppendIsShared | nativeLib/src/main/cpp/mmkv/MMKV_IO.cpp:652-677 | the append of a store object is the append of the machine |
| Sharing.ValidIsSynced | nativeLib/src/main/cpp/mmkv/MMKV_IO.cpp:256-297 | a valid store object with a log is a shared store in order whose own process has the whole log |
| Sharing.SyncedIsValid | nativeLib/src/main/cpp/mmkv/MMKV_IO.cpp:256-297 | and a process that has the whole log of a shared store in order is a valid store object with its map |
| FileLock.Lock.DoLock | nativeLib/src/main/cpp/mmkv/InterProcessLock.cpp:38-71 | for any answers of the kernel: success adds one to the right count, failure leaves both counts and means that the kernel refused; tryAgain says whether it would have blocked; the OS lock is afterwards the one the counts call for, unless the recovery of a shared lock failed, and then not; the call is a run of steps of the machine of many processes |
| FileLock.Lock.PlatformLock | nativeLib/src/main/cpp/mmkv/InterProcessLock.cpp:85-126 | an upgrade tries, lets go, asks again and recovers the shared lock; the OS lock afterwards is the one asked for, or the old one, or none exactly when the recovery failed |
| FileLock.Lock.Unlock | nativeLib/src/main/cpp/mmkv/InterProcessLock.cpp:146-184 | it succeeds exactly when there is a count and the kernel, where it is needed, agrees; then the count goes down, with a downgrade to the shared lock while shared counts remain; a failure leaves the counts, and the lock in order unless a failed downgrade has lost it |
| FileLock.Lock.PlatformUnLock | nativeLib/src/main/cpp/mmkv/InterProcessLock.cpp:128-142 | gives up the lock or takes the shared one instead; a refusal leaves the lock or, in a downgrade, may lose it |
| FileLock.StepKeepsInv | nativeLib/src/main/cpp/mmkv/InterProcessLock.cpp:38-184 | every step of any process keeps counts, OS locks and kernel exclusion consistent |
| FileLock.RunKeepsInv | nativeLib/src/main/cpp/mmkv/InterProcessLock.cpp:38-184 | so does every run |
| FileLock.MutualExclusion | nativeLib/src/main/cpp/mmkv/InterProcessLock.cpp:38-184 | in every reachable state, while a process counts an exclusive lock outside a call, every other process counts none or is in the middle of an upgrade or downgrade without an OS lock |
| FileLock.NoDeadlock | nativeLib/src/main/cpp/mmkv/InterProcessLock.cpp:93-106 | in every reachable state in which all holders are inside calls, such as shared holders that all want the exclusive lock, some call can go on |
| FileLock.EveryCallCanFinish | nativeLib/src/main/cpp/mmkv/InterProcessLock.cpp:85-142 | in every such state and for every call in progress there is a run of call steps, at most two longer than the number of processes, after which that call has got its lock, or its shared lock back |
| FileLock.GoingOnIsAStep | nativeLib/src/main/cpp/mmkv/InterProcessLock.cpp:85-142 | a call that can go on has a step, and for a request it is the grant |
| FileLock.WaitingWhileHolding | nativeLib/src/main/cpp/mmkv/InterProcessLock.cpp:93-106 | two holders that waited without letting go would wait for ever |
| CryptReader.DecodeOneMap | nativeLib/src/main/cpp/mmkv/MiniPBCoder.cpp:292-331 | over any log, from any position where the cipher stands, the decrypting reader computes what its specification over the plain bytes does, greedy or not |
| CryptReader.SameReplay | nativeLib/src/main/cpp/mmkv/MiniPBCoder.cpp:292-331 | replay with and without a cipher give the same keys and values and fail alike, when the record heads fit 16 bits |
| CryptReader.SameDecoded | nativeLib/src/main/cpp/mmkv/MiniPBCoder.cpp:249-331 | decoding a map with a cipher is decoding it without, greedy or not, from any position, header and exceptions included: same keys and value sizes for any bytes, and same values when the record heads fit 16 bits |
| CryptReader.ReplayFindsSame | nativeLib/src/main/cpp/mmkv/MiniPBCoder.cpp:249-331 | over any bytes both replays find the same keys with values of the same size, and fail alike |
| CryptReader.RollbackFits | nativeLib/src/main/cpp/mmkv/CodedInputDataCrypt.cpp:247-276 | the cipher state kept for an offset value is never rolled back past the bytes buffered, and stands at the record when its lengths are encoded shortest |
| CryptReader.CodedInputDataCrypt.ConsumeBytes | nativeLib/src/main/cpp/mmkv/CodedInputDataCrypt.cpp:70-125 | afterwards the bytes asked for, or all that are left, are buffered plain text; decryption goes on at a block boundary or the end |
| CryptReader.CodedInputDataCrypt.MakeSpace | nativeLib/src/main/cpp/mmkv/CodedInputDataCrypt.cpp:98-120 | shifting by whole blocks or growing the buffer keeps the buffered plain text and makes the room asked for |
| CryptReader.CodedInputDataCrypt.SkipBytes | nativeLib/src/main/cpp/mmkv/CodedInputDataCrypt.cpp:127-159 | the position moves on by length while whole blocks are decrypted over one another; the buffer ends with the last of them |
| CryptReader.CodedInputDataCrypt.StatusBeforeDecrypt | nativeLib/src/main/cpp/mmkv/CodedInputDataCrypt.cpp:161-165 | the cipher state so many bytes before the position |
| CryptReader.CodedInputDataCrypt.ReadRawVarint32 | nativeLib/src/main/cpp/mmkv/CodedInputDataCrypt.cpp:180-214 | reads what the plain reader reads over the plain text |
| CryptReader.CodedInputDataCrypt.ReadString | nativeLib/src/main/cpp/mmkv/CodedInputDataCrypt.cpp:222-245 | reads what the plain reader reads, and the key's bytes |
| CryptReader.CodedInputDataCrypt.ReadData | nativeLib/src/main/cpp/mmkv/CodedInputDataCrypt.cpp:247-276 | reads what the plain reader reads; the holder is the offset with the cipher state, or the value itself |
| CryptReader.CodedInputDataCrypt.ReadRawByte | nativeLib/src/main/cpp/mmkv/CodedInputDataCrypt.cpp:167-178 | the byte of the plain text at the position, or an exception at its end |
| CryptReader.CodedInputDataCrypt.Seek | nativeLib/src/main/cpp/mmkv/CodedInputDataCrypt.cpp:60-68 | a reader set up where the cipher stands is valid |
| CryptReader.ToDecryptAligned | nativeLib/src/main/cpp/mmkv/CodedInputDataCrypt.cpp:78-96 | the number of bytes to decrypt covers the need and ends at a block boundary or at the end |
| Md5.DigestOf | JniTrace/src/main/cpp/sec/Md5Utils.cpp:222-301 | however a message is cut into pieces, finalize yields the digest: the fold of transform over the message padded as in sections 3.1 and 3.2 of RFC 1321 |
| Md5.Md5Utils.Update | JniTrace/src/main/cpp/sec/Md5Utils.cpp:222-255 | buffer, state and count words are those of the message with the piece behind it |
| Md5.Md5Utils.Finalize | JniTrace/src/main/cpp/sec/Md5Utils.cpp:269-301 | the digest is that of all that was put in; on an object that has been finalized nothing changes |
| Md5.Md5Utils.Transform | JniTrace/src/main/cpp/sec/Md5Utils.cpp:132-218 | the 64 unrolled calls, with their constants, shifts and word numbers and the registers in turn, are the 64 steps that the tables of section 3.4 of RFC 1321 describe, added to the state |
| Md5.FourSteps | JniTrace/src/main/cpp/sec/Md5Utils.cpp:139-211 | four assignments to a, d, c and b in turn, each from the registers as they are then, are four steps of the machine that rotates its registers |
| Md5.Md5Utils.TransformBlocks | JniTrace/src/main/cpp/sec/Md5Utils.cpp:244-246 | all whole blocks of the input are worked in |
| Md5.Md5Utils.AddBits | JniTrace/src/main/cpp/sec/Md5Utils.cpp:227-231 | with the carry found by wrap-around, the count words go from 8 times the bytes so far to 8 times all of them, modulo 2^64 |
| Md5.CountAdds | JniTrace/src/main/cpp/sec/Md5Utils.cpp:227-231 | the two count words hold 8 times the byte length modulo 2^64 |
| Md5.IndexOfCount | JniTrace/src/main/cpp/sec/Md5Utils.cpp:225 | the place in the block is the byte length modulo 64, from the low count word alone |
| Md5.Decode | JniTrace/src/main/cpp/sec/Md5Utils.cpp:108-114 | words from bytes, low byte first |
| Md5.Encode | JniTrace/src/main/cpp/sec/Md5Utils.cpp:119-127 | bytes from words, low byte first |
| Md5.PaddedParts | JniTrace/src/main/cpp/sec/Md5Utils.cpp:277-291 | padding and the encoded count make the padded message, which is whole blocks |
| ElfLookup.ElfImg.GnuLookup | nativeLib/src/main/cpp/dlfc/elf_util.cpp:146-169 | on a table that fits, filter, bucket, run and chain words find what a linear scan over the indexed symbols finds: the value of the symbol of that name, or 0 |
| ElfLookup.ElfImg.WalkRun | nativeLib/src/main/cpp/dlfc/elf_util.cpp:159-165 | the walk ends at the end bit; it finds a symbol of the name in the run or there is none |
| ElfLookup.ElfImg.ElfLookup | nativeLib/src/main/cpp/dlfc/elf_util.cpp:132-144 | on a table that fits, the chain walk ends and finds what a linear scan over the indexed symbols finds |
| ElfLookup.ElfImg.LinearLookup | nativeLib/src/main/cpp/dlfc/elf_util.cpp:187-194 | the value of the first function or object with a size of that name in the symbol table, or 0 |
| ElfLookup.ElfImg.MayInitLinearMap | nativeLib/src/main/cpp/dlfc/elf_util.cpp:171-184 | the map holds the first usable symbol of every name |
| ElfLookup.ElfImg.GetSymbOffset | nativeLib/src/main/cpp/dlfc/elf_util.cpp:219-237 | the first of the three lookups that is not 0 |
| ElfLookup.TablesAgree | nativeLib/src/main/cpp/dlfc/elf_util.cpp:132-169 | a symbol in both tables has the same value in either lookup |
| ElfLookup.MaskTest | nativeLib/src/main/cpp/dlfc/elf_util.cpp:151-155 | the test of the filter word is a test of the two bits of the hash |
| ElfLookup.HashTest | nativeLib/src/main/cpp/dlfc/elf_util.cpp:161 | the test of a chain word compares the hashes without the end bit |
| ElfLookup.HashSectionReads | nativeLib/src/main/cpp/dlfc/elf_util.cpp:108-114 | reading a System V section gives the table it was laid out from |
| ElfLookup.GnuHashSectionReads | nativeLib/src/main/cpp/dlfc/elf_util.cpp:115-127 | reading a GNU section gives the table it was laid out from, its chain beginning at symndx |
| ElfLookup.ElfHash | nativeLib/src/main/cpp/includes/elf_util.h:124-133 | the loop computes the hash of section 'Hash Table' of the System V gABI on 32-bit words: the low 28 bits with the top four folded back |
| ElfLookup.GnuHash | nativeLib/src/main/cpp/includes/elf_util.h:135-141 | the loop computes 33 h + c from 5381, modulo 2^32 |
| ElfLookup.ElfHashOf | nativeLib/src/main/cpp/includes/elf_util.h:124-133 | the System V hash is below 2^28 |
| ElfLookup.ElfImg.constructor | nativeLib/src/main/cpp/dlfc/elf_util.cpp:108-127 | the fields are those read from the sections; without a section there are no buckets |

## Left out

dlmalloc:
- Mspaces, footers, mallinfo, realloc, memalign, ialloc, direct mmap, trimming, segment merging and several segments: one segment that grows at its end.
- Malloc.MallocState.SysAlloc: the system is a parameter that grants bytes behind the segment or none; granularity, the mmap fallback and the footprint counters are not modelled.
- The heap is a record of typed words by address, not flat bytes; a payload is an address range, and what users write there is not modelled beyond its being apart from all heads.
- The checks for corrupted input (RTCHECK, usage errors) never fire in valid states; freeing a pointer that malloc did not return is outside the contract, as it is in the source.
- Malloc.MallocState.SplitSmall: when dv is replaced, the stores to the old dv and to the remainder are made in one order; the code's order differs between the branches without a difference in the result.
- The inline assembly form of the tree index and the ffs form of the bit index: the portable forms are modelled.

MMKV:
- Encrypted stores, reKey and encrypted compaction: only the decrypting reader is modelled, over an abstract stream.
- Store.MMKV.CheckData: the handlers that choose to recover a damaged file are not modelled, the default, to discard, is.
- Store.MMKV.LoadFromFile: with no recovery chosen, the branch that decodes greedily and writes the result back is not reached and is left out.
- Store.MMKV.ClearAll: the new initialisation vector that an encrypted store gets is left out.
- Store.MMKV.constructor: opening files, mapping memory and failures of them are not part of this model; nor are ashmem, iOS guards, backup and restore, trim, msync, content-change handlers.
- Store.MMKV.WriteActualSize: the initialisation vector of the meta record is left out, and with it the full write it forces on clearing.
- The cipher, CRC-32's collision odds and OpenSSL internals.
- Sharing.RunKeepsInv: starts from an initialised store; the exclusive lock is assumed around each step, the sequence number does not wrap at 2^32, and the empty-file branch, trim and values read after the lock is let go are not steps.
- Recovery.CrashRecovers: stores reach the shared mapping in program order, as for a process that dies; a power failure is not modelled, nor is a crash in the middle of a compaction, which is not meant to be atomic.
- Runs.Run: one process; the records of its sets fit their holders, since a store is out of order after any other (`Store.MMKV.SetDataForKey`); its crashes cut off appends, not rewrites.
- Sharing.CheckLoad: a file that another process has extended or shortened is mapped again by the method; when the size has changed but the meta record has not, which no call of the code leaves behind, the old mapping stays as in the code.
- Partial writes of the size in the file are single stores of 4 bytes.
- Floats, doubles and booleans as values: they are stored as bytes like any other value.

Locks:
- FileLock.Lock.PlatformLock: letting go before the second request succeeds (LOCK_UN of a lock that is held); the ashmem variant, whose recovery may not block, is left out.
- FileLock.RunKeepsInv: in the machine of many processes giving up a lock succeeds and a recovery or downgrade waits until it is granted; the class has their failures too.
- Threads of one process: they are kept apart by another lock.

Others:
- CryptReader.SameReplay: for records whose heads are longer than 16 bits allow only keys and value sizes are compared (`CryptReader.ReplayFindsSame`), since plain and encrypted holders wrap differently there.
- CryptReader.CodedInputDataCrypt.StatusBeforeDecrypt: a cipher state is its place in the stream; working it back over the bytes in the buffer is left out.
- Md5.Md5Utils.Update: pieces are shorter than 2^32 - 64 bytes, beyond which the code's loop index wraps.
- Reading MD5 input from files and hexdigest.
- ElfLookup.ElfImg.constructor: walking section headers, the module base and the map file are not modelled, only the tables read from the hash sections; the prefix lookup and the address arithmetic behind the lookups are left out.
- JNI tracing, string and linker hooks, inline hooking, unwinding, libffi's closures and call interfaces, and the APK certificate reader.
