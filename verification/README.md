# Huffman coding over a bit stream, with its heaps and arena

This project models the core of a small C Huffman compressor and proves properties of the model. The core has these parts:

- **huffman.h** — the codec. `huffman_write` counts the byte frequencies of a message and builds a code tree with a min-heap of nodes ordered by `cmp_nodes`. It derives a code table from the tree (`huffman_table_from_tree`) and writes three things:
  - the table (`write_huffman_table`): a byte `nobfel`, a byte with the entry count, then each present entry as its symbol byte, its code length in `nobfel` bits, and its code;
  - the message (`write_encoded_message`): the four-byte length, then the codes;
  - a trailer byte `0xFF`, followed by a flush.
- **huffman_read** does the reverse. It reads the table into a zeroed table, rebuilds a tree from it (`huffmantree_from_table`), reads the length, and decodes that many symbols by walking the tree (`read_encoded_message_byte`).
- **bit_writer.h / bit_reader.h** — bits are buffered eight at a time, most significant first.
  - The writer hands each completed byte to a sink. `flush` pads a partial byte with zeros.
  - The reader fetches one byte at a time. At end of input it leaves the caller's bit unchanged.
- **heapq.h** — a binary min-heap queue over a growable array:
  - `hq_from_array` builds the heap bottom-up;
  - `hq_pop` swaps the root to the end and sifts down;
  - `hq_push` grows the storage, then sifts the new element up.
- **s.h / hs.h** — array heap routines that report every swapped slot through a `write_cb` callback:
  - the min sift-down `heapify_min` and its windowed variant `heapify_min2`;
  - the build loops over them;
  - `heapsort` on a max-heap;
  - `heapifysort2`;
  - the recursive `heapifysort_impl`.
- **arena.h** — a bump allocator. It keeps an `offset`, a committed `length` and a `reserved_length`; `arena_alloc_ex` aligns, commits pages when needed, and zeroes.

## How the model is organised

- **Pure functions with lemmas** (`HuffmanTree`, `HuffmanFormat`, `Heaps`, `Bits`, `Arenas`):
  - the bit layout of the stream;
  - the tree and table walks;
  - the heap operations on sequences;
  - the arena bookkeeping.
- **Classes with fields** for the state that is updated in place:
  - `BitWriter.Writer` and `BitReader.Reader` hold the eight-bit buffer, the cursor and the sink or source;
  - `HeapQ.HeapQueue` holds its storage array, `len` and `capacity`;
  - `Arenas.Arena` holds its byte array and bookkeeping.
- **The source's loops and recursions are methods.** Each is proved equal to a specification function of its inputs, and the properties are proved about that function. Examples:
  - `Huffman.WriteHuffmanTable` writes `HeaderBits(table)`;
  - `Huffman.HuffmanRead` returns `Decompress(bits)`;
  - `HeapSort.HeapSort` leaves `HeapSorted(a)`;
  - `HeapSortSorts` proves that result sorted and a permutation.
- **Comparator callbacks** are an integer key. `Compare` is the three-way comparison.
- **`write_cb` calls** become a returned log of slot indices.

The central result is `HuffmanFormat.RoundTrip`. For any table that is proper for the message, the stream `Compressed(table, msg)` is read back as `msg`. "Proper" means:

- no entry for byte 0;
- prefix-free codes of at most 255 bits;
- an entry for every byte of the message.

`Huffman.HuffmanWrite` proves that the table it builds is proper when two conditions hold:

- the message has two different bytes;
- no byte is 0.

`Huffman.WriteThenRead` chains the writer, a byte sink and the reader, and proves that the message comes back under those conditions. The sink must also not have filled up.

Outside those conditions the source does not round-trip, and the model shows why:

- **A byte 0 in the message.** `HuffmanFormat.ZeroByteLost` covers this case. Symbol 0 marks an inner node of the tree, so it never gets a code, and no walk of the reader returns it.
- **A single repeated byte.** `Huffman.WriteThenRead` proves that such a message, if it is not 0, comes back as nothing:
  - `Huffman.BuildTree` proves that the tree is the byte's lone leaf;
  - `Huffman.HuffmanWrite` proves that the table written is empty, because that leaf gets the empty code, which counts as absent;
  - `HuffmanFormat.SingleSymbolLost` proves that the reader's walk then reaches a null child.

## Model

| member | source | states |
|---|---|---|
| Bits.ByteOfByteBits | bit_writer.h:60-72 | splitting a byte into its eight bits, most significant first, and reassembling them gives the byte back |
| Bits.ByteBitsByteOf | bit_writer.h:33-35 | assembling eight buffered bits into a byte and splitting it gives the same bits back |
| Bits.WeighSnoc | bit_writer.h:33-35 | one more buffered bit ORs in its own contribution at its own position |
| Bits.ByteOfZeros | bit_writer.h:44-48 | zero bits below the pending ones leave the flushed byte unchanged |
| Bits.PackAppend | bit_writer.h:24-40 | cutting a bit stream into bytes distributes over concatenation at a byte boundary |
| Bits.UnpackAppend | bit_reader.h:16-34 | the bits of two byte sequences are the bits of the first followed by the bits of the second |
| Bits.UnpackPack | bit_reader.h:16-34 | the bits read from the bytes the writer produced are exactly the bits written |
| Bits.PackUnpack | bit_reader.h:16-34 | packing the bits of a byte sequence gives the byte sequence back |
| Bits.TakeByteBits | bit_reader.h:36-44 | read_byte over the eight bits of a written byte returns that byte and consumes exactly those bits |
| BitWriter.TruncateSnoc | bit_writer.h:37 | one more byte reaches a sink exactly when the sink still has room; otherwise the sink is unchanged |
| BitWriter.SinkAfterByte | bit_writer.h:29-37 | completing a byte of buffered bits adds that byte to what the sink keeps |
| BitWriter.SinkAfterFlush | bit_writer.h:44-50 | flushing a partial byte adds the zero-padded byte to what the sink keeps |
| BitWriter.Writer.constructor | compress.c:40-45 | a fresh writer has an empty buffer, cursor 0 and nothing written |
| BitWriter.Writer.Put | bit_writer.h:37 | fputc succeeds exactly when the sink has room, and the byte is kept only then |
| BitWriter.Writer.Assemble | bit_writer.h:32-35 | the byte assembled from the first n buffered bits is ByteOf of those bits, the rest zero |
| BitWriter.Writer.WriteBit | bit_writer.h:24-40 | the bit is appended to the stream; the cursor advances or wraps at 8; on the eighth bit the sink holds every completed byte; success is false only when that byte is refused |
| BitWriter.Writer.Flush | bit_writer.h:42-53 | a partial byte is padded with zeros and handed to the sink; the cursor returns to 0; nothing happens when the buffer is empty |
| BitWriter.Writer.WriteByte | bit_writer.h:60-72 | the eight bits of the byte are appended, most significant first; the cursor is unchanged; success means the sink had room |
| BitReader.Reader.constructor | decompress.c:24-30 | a fresh reader over a source has all of the source's bits still to read |
| BitReader.Reader.ReadBit | bit_reader.h:16-34 | returns the next bit of the stream and consumes it; at end of input fails, leaves the caller's bit as it was and consumes nothing |
| BitReader.Reader.Refill | bit_reader.h:27-29 | buffer slot k holds bit k of the fetched byte, counted from the least significant |
| BitReader.Reader.ReadByte | bit_reader.h:36-44 | eight bits are read, the first one most significant; success means eight bits were left; at end of input the bits that were left, padded with zeros |
| BitReader.BufferOrder | bit_reader.h:27-31 | handing out slot 7 and then slots 6 down to 0 yields the byte's bits most significant first |
| SizeT.Sub | heapq.h:31 | size_t subtraction: the difference when no borrow, otherwise wraps modulo 2^64 |
| Heaps.Compare | heapq.h:4-8 | the Ordering is LessThan, Equal or GreaterThan exactly as the keys compare |
| Heaps.SwapFacts | heapq.h:125-131 | a swap exchanges the two slots, keeps every other slot and the multiset of elements |
| Heaps.MinChild | heapq.h:109-118 | the chosen minimum is slot i or one of its children below n |
| Heaps.MinChildSmallest | heapq.h:109-118 | the chosen slot's key is no greater than slot i's and those of its children below n |
| Heaps.SiftDownKeeps | heapq.h:100-123 | the recursive sift-down permutes the elements and touches only slots from i up to n |
| Heaps.SiftLogPath | s.h:67-71 | the reported slots form (parent, child) pairs along one path down the heap, all below n |
| Heaps.SiftUpKeeps | heapq.h:60-84 | the sift-up permutes the elements and touches only slots on the path from pos to the root |
| Heaps.BuildFromKeeps | heapq.h:31-33 | the build loop permutes the first n slots and leaves the others alone |
| Heaps.BuildFromHeap | heapq.h:31-33 | after the build loop the first n slots form a min-heap |
| Heaps.BuildHeap | heapq.h:28-43 | building from slot n/2 down yields a min-heap of the same elements in the first n slots, and the rest unchanged |
| Heaps.SwapMovesDefect | heapq.h:119-122 | swapping slot i with its smallest child moves the only heap defect down to that child |
| Heaps.SiftDownHeap | heapq.h:100-123 | sifting down the one defective slot restores the heap property from lo on |
| Heaps.SiftDownMends | heapq.h:100-123 | a slot whose subtrees are heaps becomes the root of a heap after the sift-down |
| Heaps.HeapFromLeaves | heapq.h:31 | slots from n/2 on have no children, so they are heaps already |
| Heaps.RootIsMin | heapq.h:45-58 | the root of a heap has the least key of the first n slots |
| Heaps.SwapUpMovesDefect | heapq.h:73-79 | moving a too-small item above its parent moves the only defect up to the parent |
| Heaps.SiftUpHeap | heapq.h:60-84 | sifting up the one defective slot restores the heap |
| Heaps.AppendedHeap | heapq.h:93-95 | an element stored just past a heap leaves at most that slot out of order |
| Heaps.SwapLastHeap | heapq.h:52-55 | swapping the root with the last slot leaves a heap of one fewer slots, apart from the root |
| Heaps.SiftUpPrefix | heapq.h:95 | the sift-up of slot pos reads and writes only the slots before n |
| HeapQ.SwapElems | heapq.h:125-131 | the array afterwards is the old one with the two slots exchanged |
| HeapQ.HeapifyMin | heapq.h:100-123 | the array afterwards is the sift-down of slot i within the first n slots |
| HeapQ.SiftUpHole | heapq.h:60-84 | moving parents into the hole and storing the item once gives the same result as swapping it up |
| HeapQ.HoleMove | heapq.h:75-78 | moving the parent into the hole is the swap of the hole's item with its parent |
| HeapQ.AppendSiftUp | heapq.h:93-95 | after storing at slot n and sifting up, the first n+1 slots are a heap of the old elements plus the new one |
| HeapQ.SwapRootDown | heapq.h:50-55 | the array afterwards is the root swapped with the last element, then sifted down within the first n-1 slots |
| HeapQ.GrownCapacity | heapq.h:87-92 | the grown capacity exceeds len+1, never shrinks, is unchanged when already enough, and is at most double what is needed |
| HeapQ.Realloc | heapq.h:91 | fresh storage of the new size that starts with the old contents |
| HeapQ.HeapQueue.Empty | huffman.h:228-232 | the queue huffman_write starts from: no storage, no elements |
| HeapQ.HeapQueue.FromArray | heapq.h:28-43 | a queue holding exactly the given elements as a heap, with len and capacity equal to their count |
| HeapQ.HeapQueue.Pop | heapq.h:45-58 | an empty queue returns nothing and is unchanged; otherwise the element returned has the least key, len drops by one and the rest stay queued |
| HeapQ.HeapQueue.Push | heapq.h:86-96 | len grows by one; the contents gain the element; the storage is the sift-up of the appended element; capacity grows as the growth loop does |
| HeapQ.HeapQueue.Grow | heapq.h:87-92 | capacity becomes GrownCapacity, the queued elements are kept, and the storage is replaced only when the capacity changes |
| HeapQ.PopFacts | heapq.h:45-58 | after hq_pop's swap and sift-down the first L-1 slots are a heap, and the removed root is no greater than any of them |
| HeapQ.PopMultiset | heapq.h:52-57 | the returned slot holds the old root, and the remaining slots hold the other elements |
| HeapQ.RootBelowMember | heapq.h:45-58 | the root's key is no greater than that of any queued element |
| HeapQ.PushFacts | heapq.h:93-95 | after the store and sift-up the first n+1 slots are a heap holding the old elements and the new one |
| HeapQ.HeapPrefix | heapq.h:95 | the heap property of the first n slots depends on them alone |
| MinHeapify.MemSwap | s.h:34-39 | the array afterwards is the old one with slots i and j exchanged |
| MinHeapify.MinChildAt | s.h:57-66 | the windowed minimum is slot i or a child of it below n |
| MinHeapify.SiftDownAtStep | s.h:67-71 | one step of the windowed sift-down reports i and the minimum, then goes on from the minimum |
| MinHeapify.HeapifyMin | s.h:46-73 | the array is sifted down within the window of n slots at off, and the log is the reported (i, minimum) pairs |
| MinHeapify.BuildTurn | s.h:84-86 | one turn of heapify_min_all's loop keeps what is left to do and to report |
| MinHeapify.HeapifyMinAll | s.h:75-88 | the array is the build loop over the window from n/2-1 down to 0, and the log is everything it reports |
| MinHeapify.ShiftAppend | s.h:114-115 | shifting reported indices by a window's start distributes over concatenation |
| MinHeapify.ShiftPair | s.h:114-115 | a reported pair is shifted slot by slot |
| MinHeapify.HeapifyMin2 | s.h:90-118 | the same sift-down as heapify_min, with every reported index counted from base |
| MinHeapify.HeapifyMinAll2 | s.h:120-134 | the same build loop as heapify_min_all, with every reported index counted from base |
| MinHeapify.SwapInWindow | s.h:68 | swapping two slots of a window is the swap of those slots in the whole array |
| MinHeapify.MinChildWindow | s.h:57-66 | the windowed minimum is the minimum of the window taken as an array of its own |
| MinHeapify.SiftDownWindow | s.h:46-73 | the windowed sift-down is the plain sift-down of the window spliced back, and reports the same slots |
| MinHeapify.BuildWindow | s.h:84-86 | the windowed build loop is the plain build loop of the window spliced back |
| MinHeapify.BuildInHeap | s.h:75-88 | after heapify_min_all the window is a min-heap of its old elements, and every slot outside it is unchanged |
| HeapSort.Heapify | hs.h:4-32 | the array is the max sift-down of slot i within n slots, and the log is the reported (i, maximum) pairs |
| HeapSort.BuildTurnSeq | hs.h:46-48 | one turn of heapsort's build loop keeps what is left to do and to report |
| HeapSort.ExtractTurn | hs.h:49-54 | one turn of the extraction loop keeps what is left to do and to report |
| HeapSort.HeapSort | hs.h:34-56 | the array afterwards is the build loop followed by the extraction loop, and the log is everything they report |
| HeapSort.RootIsMax | hs.h:49-50 | the root of a max-heap has the greatest key of its first n slots |
| HeapSort.ExtractHeap | hs.h:50-53 | after the swap and the sift-down the first i slots are a max-heap again |
| HeapSort.SwapRootBelow | hs.h:50 | the maximum swapped into slot i is no smaller than any slot before it |
| HeapSort.PermPrefix | hs.h:49-54 | a rearranged prefix keeps the sorted suffix after it and stays below it |
| HeapSort.ExtractStep | hs.h:49-54 | one extraction keeps the sorted-suffix invariant with one more slot sorted |
| HeapSort.ExtractSorts | hs.h:49-54 | the extraction loop over a max-heap leaves a sorted permutation |
| HeapSort.BuildMaxHeap | hs.h:46-48 | the build loop of heapify yields a max-heap of the same elements |
| HeapSort.HeapSortSorts | hs.h:34-56 | heapsort leaves its array sorted ascending and a permutation of the input |
| HeapSort.HeapifySort2 | hs.h:58-71 | the array afterwards is heapify_min_all on each suffix in turn, and the log is everything they report |
| HeapSort.SelectTurn | hs.h:68-70 | one turn of heapifysort2's loop keeps what is left to do and to report |
| HeapSort.SelectStepMin | hs.h:69 | after heapify_min_all on the suffix from i, slot i holds the least key of that suffix |
| HeapSort.SelectBelow | hs.h:69 | the sorted prefix stays below every slot of the rebuilt suffix |
| HeapSort.SelectStep | hs.h:69 | one turn keeps the elements and extends the sorted prefix by one slot |
| HeapSort.MinSelectSorts | hs.h:68-70 | the loop from slot i on leaves a sorted permutation |
| HeapSort.HeapifySort2Sorts | hs.h:58-71 | heapifysort2 leaves its array sorted ascending and a permutation of the input |
| HeapSort.Lower | hs.h:84-85 | the first half of a window starts where it does and, for more than one slot, is shorter |
| HeapSort.Upper | hs.h:84-86 | the rest of a window follows the first half, ends where the window ends, and is shorter |
| HeapSort.SplitSortStep | hs.h:82-87 | one level of heapifysort_impl: build, sort both halves, build again, with the reports concatenated |
| HeapSort.HeapifySortImpl | hs.h:73-88 | the array afterwards is SplitSort of the window, and the log is everything heapifysort_impl reports |
| HeapSort.SplitSortKeeps | hs.h:73-88 | heapifysort_impl keeps the elements and every slot outside its window |
| HeapSort.SplitSortHeap | hs.h:73-88 | a window of at most one slot is unchanged; otherwise the window ends as a min-heap of its old elements, and slots outside it are unchanged |
| Arenas.SingleBitIsPowerOfTwo | arena.h:96-98 | zero and every one-bit word pass the power-of-two test IsPowerOfTwo (`x & (x-1) == 0`) |
| Arenas.TwoBitsAreNotPowerOfTwo | arena.h:96-98 | no word with two set bits passes it |
| Arenas.CDiv | arena.h:238-239 | C's signed division truncates toward zero, for negative dividends too |
| Arenas.GuardPasses | arena.h:238-239 | the test `count >= avail/size` fails exactly when count+1 elements fit in avail bytes |
| Arenas.Padding | arena.h:237 | the padding is below the alignment and brings the address to a multiple of it |
| Arenas.PaddingIsLeast | arena.h:237 | no shorter skip reaches a multiple of the alignment |
| Arenas.PageRound | arena.h:243-244 | the new committed length is a page multiple, above the old one and at most one page past it |
| Arenas.AllocStepTaken | arena.h:238-249 | a request that passes the corrected reservation test moves the offset past the padding and the request, committing pages when it does not fit in the committed part |
| Arenas.AsWrittenFacts | arena.h:223-257 | AllocStepAsWritten, the source's allocation step with its reservation test as written, fails exactly for a null arena, or when count+1 elements fit neither in the committed part after the offset nor in the whole reservation; otherwise the offset moves by padding plus request and the length grows to a page multiple |
| Arenas.AsWrittenOverruns | arena.h:238-243 | two 60-byte requests on a 100-byte arena both succeed in the source, ending at offset 120; the corrected step refuses the second |
| Arenas.AllocStepFacts | arena.h:223-257 | the corrected allocation fails exactly when the arena is null or the request plus one element does not fit in the space left; otherwise the arena stays sound, the offset stays inside the reservation and the block is aligned |
| Arenas.AllocStepRefines | arena.h:238-241 | the corrected step agrees with the source whenever the request fits in the space left, and refuses it otherwise |
| Arenas.AllocatedSizeGrows | arena.h:267-269 | ReportAllocatedSize (arena_report_allocated_size) grows with each successful allocation by exactly the padding and the request, the amount the offset moves at line 249 |
| Arenas.Arena.FromAllocMemory | arena.h:85-94 | an arena over caller memory: offset 0, length and reservation the memory's size, page size 4096 |
| Arenas.Arena.Reset | arena.h:100-103 | everything handed out is given back: offset 0 |
| Arenas.Arena.Bump | arena.h:237-249 | the bookkeeping moves as AllocStep says; on success the block is aligned, and it ends at the new offset |
| Arenas.Arena.AllocEx | arena.h:223-257 | as Bump, and the bytes of the block are zeroed when FLAG_ZEROED is set; nothing else in memory changes |
| Arenas.Arena.Memset | arena.h:253-255 | the bytes from start to end become 0, and the others are unchanged |
| Arenas.Arena.Memcpy | arena.h:212 | the destination gets the source bytes, and nothing outside the destination changes |
| Arenas.Arena.Alloc | arena.h:206-208 | one zeroed block of size bytes, aligned to 16 |
| Arenas.Arena.Dup | arena.h:210-214 | a fresh block that holds a copy of the data |
| Arenas.Arena.Realloc | arena.h:216-221 | a fresh zeroed block of the new size whose first oldSize bytes copy the old block |
| HuffmanTree.Zeroed | huffman.h:252 | the zero-initialised table has an empty entry for every byte |
| HuffmanTree.CmpNodes | huffman.h:35-42 | nodes compare by frequency alone: LessThan, Equal or GreaterThan exactly as their frequencies compare |
| HuffmanTree.TableOfFull | huffman.h:203-218 | on a full tree every symbol it holds gets the route to its leaf, extending the current path by at most the depth; other entries are unchanged |
| HuffmanTree.TableOfLeaf | huffman.h:213-217 | at a leaf the only entry written is the leaf's own symbol, with the current path |
| HuffmanTree.TableOfInner | huffman.h:205-212 | at an inner node each symbol held below gets the route through its child (bit 1 for left, 0 for right) to its leaf; other entries are unchanged |
| HuffmanTree.ChildRoute | huffman.h:205-212 | an entry written through a child extends the path, and leads from the node to the symbol's leaf |
| HuffmanTree.LeafRoutesPrefixFree | huffman.h:203-218 | entries that each lead to a leaf carrying their own symbol are prefix-free |
| HuffmanTree.InsertAt | huffman.h:186-197 | inserting a code stores the symbol at its end; existing nodes stay; no other symbol changes |
| HuffmanTree.BlankSymbols | huffman.h:182 | a blank node and everything below it carry symbol 0 |
| HuffmanTree.GrowPlaces | huffman.h:181-201 | in the rebuilt tree a symbol other than 0 sits only at the end of its own present code |
| HuffmanTree.GrowFinds | huffman.h:181-201 | with prefix-free codes, every present entry other than 0 is found at the end of its code |
| HuffmanTree.DecodeAlong | huffman.h:87-102 | walking a code whose end carries s, and whose proper prefixes carry 0, returns s and consumes exactly that code |
| HuffmanTree.DecodeEntry | huffman.h:87-102 | on the tree rebuilt from a prefix-free table, the walk over an entry's code returns that entry's symbol |
| HuffmanTree.DecodeNeverZero | huffman.h:87-102 | whatever the tree and the bits, the walk never returns symbol 0, because a node carrying 0 is walked past |
| HuffmanTree.TableOfElsewhere | huffman.h:203-218 | the entry of a symbol the tree does not hold, and the entry of 0, are left as they were |
| HuffmanFormat.BitLength | huffman.h:114-117 | nobfel is the smallest n with 2^n above the longest length |
| HuffmanFormat.BitLengthAtMost | huffman.h:114-117 | a value below 2^k needs at most k bits |
| HuffmanFormat.BitLengthUnique | huffman.h:114-117 | the loop's exit condition determines nobfel uniquely |
| HuffmanFormat.ValueBinary | huffman.h:153-158 | reading back nobfel written bits gives the length modulo 2^nobfel |
| HuffmanFormat.TakeBitsPrefix | huffman.h:163-167 | reading as many bits as were written returns them and leaves the rest |
| HuffmanFormat.MaxLen | huffman.h:107-113 | maximum_entry_len is at least every entry's length and equal to one of them (0 for no entries) |
| HuffmanFormat.CountFrom | huffman.h:107-113 | entry_count never exceeds the entries scanned |
| HuffmanFormat.ParseEntryBits | huffman.h:147-168 | one written entry is read back as its symbol and code |
| HuffmanFormat.ParseEntriesStep | huffman.h:147-169 | one iteration over a written entry stores that entry |
| HuffmanFormat.EntriesRoundTrip | huffman.h:122-137 | the entry loop reads back every present entry written from slot i on |
| HuffmanFormat.HeaderRoundTrip | huffman.h:140-170 | when nobfel and the entry count fit in a byte, read_huffman_table on a zeroed table reads back exactly the table written, and leaves what follows |
| HuffmanFormat.NobfelFits | huffman.h:114-117 | nobfel bits hold the length of every entry |
| HuffmanFormat.OverlayZeroed | huffman.h:264-265 | storing every present entry over a zeroed table gives the table |
| HuffmanFormat.ParseTableStep | huffman.h:141-145 | the two header bytes are read as nobfel and the entry count |
| HuffmanFormat.NumberDigits | huffman.h:60-63 | the base-256 digits of a number, read back, give the number |
| HuffmanFormat.LengthBytes | huffman.h:60-63 | the four length bytes are the masked and shifted bytes of the length, most significant first |
| HuffmanFormat.NumberFour | huffman.h:73-85 | the four bytes read are combined as `b0<<24 \| b1<<16 \| b2<<8 \| b3` |
| HuffmanFormat.LengthRoundTrip | huffman.h:73-85 | every length below 2^32 is read back as written |
| HuffmanFormat.MessageRoundTrip | huffman.h:273-275 | with a prefix-free table covering the message (no byte 0), the decoding loop returns the message and leaves what follows |
| HuffmanFormat.RoundTrip | huffman.h:263-279 | for a proper table and a message shorter than 0xFFFFFFFF bytes, huffman_read returns the message from any stream that starts with what huffman_write writes |
| HuffmanFormat.HasNoZero | huffman.h:243-245 | no node counts as holding symbol 0 |
| HuffmanFormat.TreeTableProper | huffman.h:251-254 | a full tree of depth at most 255, more than a leaf, yields a proper table for every message whose bytes it holds |
| HuffmanFormat.GrowZeroed | huffman.h:181-201 | with no entry present the rebuilt tree is the blank root |
| HuffmanFormat.NoCodeBits | huffman.h:65-70 | with no entry present no code bits are written |
| HuffmanFormat.LeafTableEmpty | huffman.h:213-216 | a single leaf gets the empty code, so the table stays empty |
| HuffmanFormat.DecodeBlank | huffman.h:87-102 | from the blank root the first walk reaches a null child |
| HuffmanFormat.SingleSymbolLost | huffman.h:213-216 | a lone leaf gets the empty code, so its table stays empty; and a stream that starts with that empty table and a message of one repeated nonzero byte is read back as nothing |
| HuffmanFormat.DecodedHasNoZero | huffman.h:273-275 | every message the decoding loop returns is free of the byte 0 |
| HuffmanFormat.ZeroByteLost | huffman.h:263-279 | a message holding the byte 0 is not what huffman_read returns, whatever the stream |
| Huffman.WriteCode | huffman.h:132-134 | the entry's code bits are appended, in order |
| Huffman.WriteLengthBits | huffman.h:127-130 | the length's nobfel low bits are appended, the highest first |
| Huffman.ScanTable | huffman.h:105-113 | returns the longest entry and the number of present entries |
| Huffman.LengthBitsFor | huffman.h:114-117 | returns the bit length of the longest entry |
| Huffman.WriteHuffmanTable | huffman.h:104-138 | appends exactly HeaderBits(table): the two header bytes, then each present entry in ascending order |
| Huffman.HeaderStart | huffman.h:120-121 | the header starts with the nobfel byte and the entry-count byte |
| Huffman.WriteEntries | huffman.h:122-137 | appends every present entry, in ascending symbol order |
| Huffman.WriteEntry | huffman.h:124-136 | appends the symbol byte, the length bits and the code of one entry |
| Huffman.WriteEncodedMessage | huffman.h:58-71 | appends the four length bytes, then every byte's code |
| Huffman.ReadBits | huffman.h:163-167 | reads n bits, each false at end of input |
| Huffman.ReadLength | huffman.h:152-158 | reads nobfel bits as a number, the first one most significant |
| Huffman.ReadEntry | huffman.h:148-167 | reads one entry's symbol, length and code |
| Huffman.ReadHuffmanTable | huffman.h:140-170 | the table and the stream afterwards are as ParseTable says |
| Huffman.ReadEntries | huffman.h:147-169 | entry_count iterations, each storing its entry over the old one |
| Huffman.ReadEncodedMessageLength | huffman.h:73-85 | four bytes read as a number, the first one most significant |
| Huffman.ReadEncodedMessageByte | huffman.h:87-102 | the symbol and the remaining stream are as DecodeSymbol says; None where the walk reaches a null node |
| Huffman.TreeFromTable | huffman.h:181-201 | returns the tree Grow builds from the table's present entries |
| Huffman.TableFromTree | huffman.h:203-218 | the table afterwards is TableOf the tree under the current path, and the path is unchanged |
| Huffman.VisitChild | huffman.h:205-212 | the recursive call on one child with its bit appended to the path |
| Huffman.Occurrences | huffman.h:222-225 | a byte's count is at most the message length, and nonzero exactly when the byte occurs |
| Huffman.CountFrequencies | huffman.h:222-225 | 256 counts, each the number of occurrences of its byte |
| Huffman.LeavesExactly | huffman.h:233-238 | the leaves pushed for the symbols below n are, once each, the leaf of every symbol with a nonzero count, carrying that count, and nothing else |
| Huffman.LeavesNone | huffman.h:233-238 | no leaf is pushed exactly when no symbol below n is counted |
| Huffman.LeavesForest | huffman.h:233-238 | the pushed leaves are full trees of depth 0 holding counted symbols only, and cover every counted symbol below n |
| Huffman.PushLeaf | huffman.h:233-238 | pushing the leaf of a counted symbol keeps the forest and covers that symbol |
| Huffman.SkipLeaf | huffman.h:235 | skipping an uncounted symbol keeps the coverage |
| Huffman.Merge | huffman.h:240-250 | replacing two popped trees by their merge keeps every counted symbol covered, holds no uncounted one, and the depth grows by at most one |
| Huffman.PushLeaves | huffman.h:227-238 | the queue holds exactly the leaves of the counted symbols (Leaves), none when no symbol is counted |
| Huffman.MergeAll | huffman.h:240-250 | merging leaves one tree (none when the queue was empty), still covering every counted symbol; a queue of at most one tree is left as it was |
| Huffman.MergeTwo | huffman.h:240-249 | the two popped trees have the least count and the least count among the rest; they are replaced by the node with symbol 0, the two as children and their counts added |
| Huffman.PushTree | huffman.h:249 | the queue's contents gain the tree |
| Huffman.PopTree | huffman.h:241-242 | the tree returned has the least count of the queue and leaves its contents |
| Huffman.LeastOf | heapq.h:45-58 | a tree no heavier than any queued one is no heavier than any of them and itself |
| Huffman.BuildTree | huffman.h:227-251 | the root is absent exactly when nothing is counted; its depth is at most 255; it holds every counted symbol and no other; it is full when byte 0 is absent; with one counted symbol it is that symbol's leaf |
| Huffman.SingleLeaf | huffman.h:233-238 | with exactly one counted symbol the first heap loop pushes that symbol's leaf and nothing else |
| Huffman.OnlyTree | huffman.h:251 | the one tree left holds every counted symbol and no other |
| Huffman.DeriveTable | huffman.h:252-254 | the table is TableOf the root over a zeroed table with an empty path |
| Huffman.WriteStream | huffman.h:256-259 | appends the compressed stream and the zero padding of the flush, flushed to bytes |
| Huffman.HuffmanWrite | huffman.h:220-261 | always returns true; appends the compressed stream and zero padding, flushed to bytes; the table has no entry for 0 and entries only for bytes of the message, is all empty for the empty message and for a message of one repeated byte, and is proper when the message has two distinct bytes and no 0 |
| Huffman.WrittenTableCounted | huffman.h:222-254 | the table derived from the counted tree has no code for 0, codes only bytes of the message, and is all empty for the empty message |
| Huffman.StreamWritten | huffman.h:256-258 | table, message and trailer written in turn make up the compressed stream |
| Huffman.SingleByteTable | huffman.h:222-254 | for a message of one repeated byte the counts single out that byte, the tree is its leaf, and the table derived from it stays all empty |
| Huffman.WrittenTableProper | huffman.h:222-254 | the counts and tree built for a message of two distinct nonzero bytes give a proper table |
| Huffman.HuffmanRead | huffman.h:263-279 | returns what Decompress gives for the stream |
| Huffman.ReadMessage | huffman.h:273-275 | length symbols decoded in turn, None if a walk fails |
| Huffman.WriteThenRead | huffman.h:220-279 | a message of two distinct nonzero bytes, written through a sink that did not fill up, is read back unchanged; a message of one repeated nonzero byte is read back as nothing |
| Huffman.WrittenDecodes | huffman.h:220-279 | the bytes a sink with room kept of huffman_write's output decode to the message for a proper table, and to nothing for a one-byte message with its empty table |
| Huffman.SinkKeepsAll | bit_writer.h:37 | a sink that did not fill up holds every written bit |

## Left out

- Address sanitising (`ARENA_ASAN_*`), the page backends (`arena_backend_*`), `arena_init`, `arena_deinit` and `print_arena` are not modelled. They call foreign memory APIs. The modelled arena is one over caller memory, as `arena_from_alloc_memory` sets up.
- `assert` in the source is modelled in one of two ways. Where the caller must meet it (alignment, sizes, counts), it is a precondition. `assert(root)` in `read_encoded_message_byte` becomes a None result. In the `Arenas.Arena` allocators (`AllocEx`, `Alloc`, `Dup`, `Realloc`) an ARENA_OOM abort becomes a None result.
- Arenas.Padding: computed as the remainder of the negated address by the alignment, not as the mask `& (align - 1)`. The two agree for power-of-two alignments, but the model does not prove that identity.
- Arenas.Arena.AllocEx: `count*size` and the offset are unbounded naturals. A `ptrdiff_t` overflow of the product is not modelled.
- Arenas.Arena.Realloc: requires `oldSize <= newSize`. The source copies `old_size` bytes into a block of `new_size`, which overruns a smaller new block.
- Arenas.Arena.AllocEx: follows the corrected reservation test (see Findings). AllocStepAsWritten keeps the source's test.
- HeapQ.HeapQueue.Pop: returns the element itself, where the source returns a pointer into the storage.
- HeapQ.HeapQueue.FromArray: requires at least one element, because `arena_alloc` of 0 bytes fails the `size != 0` assertion of `arena_alloc_ex`. The storage comes from a fresh array, not from the arena, so an out-of-memory abort in `arena_alloc` is not modelled.
- Out-of-memory aborts of these arena allocations are not modelled:
  - `hq_pop`'s scratch `arena_alloc` (heapq.h:50-51);
  - `hq_impl_siftdown`'s two scratch `arena_alloc` calls (heapq.h:70-71);
  - `hq_push`'s `arena_realloc` (heapq.h:91);
  - `huffman_write`'s two `arena_dup` calls (huffman.h:246-247);
  - the node allocations of `huffmantree_from_table` (huffman.h:182-193);
  - `huffman_read`'s `arena_new` buffer (huffman.h:268).

  HeapQ.HeapQueue.Pop and HeapQ.HeapQueue.Push never fail for lack of memory, Huffman.HuffmanWrite always returns true, and Huffman.HuffmanRead fails only on a walk that reaches a null node.
- HeapQ.HeapQueue.Push: the storage comes from a fresh array, not from the arena. An out-of-memory abort in `arena_realloc` is not modelled.
- Huffman.CountFrequencies: the `int64_t` counts are unbounded. An overflow past 2^63 occurrences is not modelled.
- Huffman.BuildTree: states what the tree holds:
  - every counted symbol, and no other;
  - depth at most 255;
  - two children at every inner node.

  Each merge round is stated (Huffman.MergeTwo): the two trees of least count are replaced by their merge. It does not state which tree results. The pairing of equal frequencies depends on the heap's order and is not stated.
- Huffman.TreeFromTable: builds the tree as a value by path-copying insertion, where the source mutates arena nodes in place. Aliasing between nodes is not captured.
- Huffman.TableFromTree: the code buffer `code[256]` is an array of 256 bits. The table entries are sequences of any length. On the read side, a code length above 256 would overrun `new_entry.code`; the model reads it into an unbounded sequence instead.
- Huffman.ReadLength: the shift `bit << (nobfel-1-biti)` is modelled as multiplication by a power of two. For `nobfel` at 32 or more, the source's `int` shift is undefined. The same applies to `1<<nobfel` in write_huffman_table. The `|=` into a zero bit is modelled as addition.
- Huffman.HuffmanRead: a stream whose length field is 0 gives the empty message. In the source, `arena_new` with a count of 0 fails the `count != 0` assertion of `arena_alloc_ex`.
- Huffman.HuffmanRead: the `ok` flag is never written by the source. Read failures (end of input) are ignored there, as in the source. The result buffer is a sequence rather than arena memory.
- `huffman_write` and `huffman_read` do not round-trip in two cases, and the model states both:
  - a message with a byte 0, which never gets a code (`HuffmanFormat.ZeroByteLost`);
  - a message of a single byte value other than 0 (`Huffman.WriteThenRead`, through `HuffmanFormat.SingleSymbolLost`).

  The source's behaviour is modelled as written, and the round-trip properties assume neither case.
- HeapSort.HeapSort: requires a non-empty array. The extraction loop starts at `elem_len - 1` on size_t, which wraps around for an empty array.
- `heapifysort` (hs.h:100-111) calls `maxsort`, which is only declared (hs.h:90-98) and has no body. `heapifysort` is therefore not modelled; `heapifysort_impl` is.
- The heapsort test `main`, `cmp_int` and the debug printers (`print_huffman_table`, `printtree`, `write_bit_dbg`) are not modelled. They only print.
- main.c, compress.c and decompress.c are not modelled, apart from the reader and writer set-up. They open and read files.
- The `FILE*` behind the bit writer is a byte sink that accepts at most `limit` bytes. The one behind the bit reader is a byte sequence. Other I/O errors are not modelled.
- Comparator callbacks are an integer key. `userdata` and `elem_size` are dropped, and elements are whole values rather than `elem_size` bytes.
- `write_cb` is modelled as a returned log of slot indices.

## Findings

| source | as written | input that shows it | evidently intended | confidence | as-written member | corrected member |
|---|---|---|---|---|---|---|
| arena.h:238-243 | when the request does not fit in the committed part, the reservation test is `count >= (reserved_length - padding)/size`, which leaves out the offset already used | an arena over 100 bytes at address 4096 (arena_from_alloc_memory), two requests of 60 one-byte elements: both pass, and the offset ends at 120 > 100 | test against `reserved_length - offset - padding`, so the offset never passes the reservation | not executed | Arenas.AsWrittenOverruns | Arenas.AllocStepFacts |
