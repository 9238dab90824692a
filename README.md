# Huffman archiver, modelled and verified in Dafny

This project models the core of a small C archiver. The archiver packs files into a
single archive, each compressed with its own Huffman code. It models six things:

- the two 16 KiB bit buffers through which all coding goes (`binary_buffer.c`);
- the array-backed min-heap of code-tree nodes (`priority_queue.c`);
- the table-driven CRC that seals the archive (`file_processing.c`);
- building the code tree and the code table (`huffman_tree.c`);
- the coder itself: frequency count, tree serialisation, payload, decoder (`huffman_coding.c`);
- the archive format and its operations: create, append, extract, remove, the checks and the menu (`archiver.c`, `archiver.h`).

Code whose state changes in place is imperative Dafny:

- the buffers, the heap and the CRC table are classes over arrays;
- the coder works on those buffers through methods with loop invariants;
- the archive file is a `Stream` object with bytes and a position that the operations overwrite in place.

Each method is proved against value-level functions. Those functions are in turn related to
the abstract archive and the abstract code:

| module | file | what it holds |
|---|---|---|
| `Bytes` | `bytes.dfy` | bytes as `bv8`; bit order (least significant first); packing of a bit string into bytes |
| `BitCursor` | `bit_cursor.dfy` | the byte index plus one-bit mask cursor, and what the bits before it are |
| `BinaryBuffer` | `binary_buffer.dfy` | `InBuffer` / `OutBuffer` classes; `InFile` / `OutFile`, the files on either side |
| `PriorityQueue` | `priority_queue.dfy` | the `Heap` class, with heap order and multiset preservation |
| `Checksum` | `file_processing.dfy` | `CrcTable`, `Crc32`, `GetChecksum`, specified by a left fold |
| `HuffmanTypes` | `huffman_types.dfy` | `Tree`, a leaf or a node over two subtrees, and the C label it stands for |
| `HuffmanTree` | `huffman_tree.dfy` | `InitHeap`, `BuildCodeTree` and the forest invariant of its merge loop |
| `CodeTable` | `code_table.dfy` | `TreeTraversal`, `BuildCodeTable` and the prefix-free table |
| `CodingSpec` | `coding_spec.dfy` | the encoded bits as values: tree bits, tree parser, payload, decoder walk, round trip |
| `HuffmanCoding` | `huffman_coding.dfy` | the coder's methods over the buffers, and the byte-level round trip |
| `ArchiveFormat` | `archive_format.dfy` | header offsets, records, header parsing, CRC seal |
| `ArchiveSpec` | `archive_spec.dfy` | positioned writes (`Patch`); archive image; what append leaves |
| `ArchiveEdit` | `archive_edit.dfy` | name selection, what remove leaves, what extract writes |
| `Archiver` | `archiver.dfy` | the `Stream` class and the operations of `archiver.c` |
| `Menu` | `menu.dfy` | `choice_menu`, with the `MenuOption` enumeration |

Integers have fixed widths:

- `int`, `unsigned` and `uint32_t` are four bytes, little-endian;
- `time_t` is eight bytes.

The file system, the clock and the temporary file are parameters of the operations:

- the contents of the files to add;
- which names cannot be opened for writing;
- the times `time(NULL)` returns;
- whether `fopen`, `tmpfile` and the reopen succeed.

Where the program writes a file, the model returns its contents.

Two behaviours of the code are easy to miss; the model follows the code in each:

- Remove-all: the enumeration has `RemoveAll`, but `choice_menu` has no case for it. The model sends it to the "invalid option" branch, as the code does.
- Extraction: decoding a block is not bounded by the block's compressed size. `decode_file` reads as many bits as the `file_size` symbols need, from the block's start on, and the model does the same.

The checksum is the code's table formula: the inverted bit test at `file_processing.c:7`, the `^ 0xFF000000` at line 9, a start value of 0 at line 26, and no pre- or post-inversion. The model follows that formula; it is not proved equal to the textbook bitwise CRC-32.

## Model

| member | source | states |
|---|---|---|
| Bytes.BitsOfByte | binary_buffer.c:71-77 | the eight bits of a byte in the order the mask 1, 2, …, 128 visits them (least significant first) |
| Bytes.ByteOfBitsOfByte | huffman_coding.c:35-57 | assembling the eight bits of a byte gives the byte back |
| Bytes.ByteOfBits | huffman_coding.c:35-46 | the byte assembled from eight bits has exactly those bits |
| Bytes.ComposeByte | huffman_coding.c:35-46 | OR-ing mask k into a byte for every set bit k builds the byte whose bits are those bits |
| Bytes.MaskOfLog2 | binary_buffer.c:71-77 | a one-bit mask is 1 shifted by its bit index |
| Bytes.BytesToBitsAt | binary_buffer.c:81-83 | bit 8q + k of a file's bit stream is bit k of byte q |
| Bytes.BytesToBitsAppend | binary_buffer.c:17-27 | the bit stream of two files one after the other is the first's bits then the second's, so refills and flushes chunk without changing the stream |
| Bytes.BitPastEnd | binary_buffer.c:17-20 | past the end of a file every stream bit reads 0, as in the zeroed buffer after a short read |
| Bytes.Pack | binary_buffer.c:22-27 | packing a bit string gives ⌈n/8⌉ bytes; the last byte is zero-padded, as the flush of a partial byte leaves it |
| Bytes.PackBytes | binary_buffer.c:22-27 | packing the bits of whole bytes gives those bytes back |
| Bytes.PackBit | binary_buffer.c:22-27 | bit i of the packed bytes is bit i of the bit string |
| BitCursor.ShiftMask | binary_buffer.c:71-77 | shifting a mask left moves it up one bit; it becomes 0 exactly when it was 128 |
| BitCursor.OtherBits | binary_buffer.c:89-95 | setting or clearing the mask bit keeps every other bit of the byte |
| BitCursor.StreamBit | binary_buffer.c:81-83 | the masked bit of the buffered byte is the stream bit at the cursor, or 0 past the end |
| BitCursor.CursorBit | binary_buffer.c:81-83 | stream bit 8q + k is bit k of byte q |
| BitCursor.KeepOtherBits | binary_buffer.c:89-95 | changing only the cursor bit keeps the bits pending before the cursor |
| BitCursor.SetCursorBit | binary_buffer.c:89-91 | outbuf_set_bit on a clean buffer sets the cursor bit and keeps the pending bits |
| BitCursor.ClearCursorBit | binary_buffer.c:93-95 | outbuf_reset_bit on a clean buffer clears the cursor bit and keeps the pending bits |
| BitCursor.AdvanceCursor | binary_buffer.c:75-77 | moving the mask up one bit appends the cursor bit to the pending bits |
| BitCursor.WrapCursor | binary_buffer.c:62-67 | moving off bit 7 to the next byte appends bit 7 to the pending bits |
| BitCursor.FlushPending | binary_buffer.c:22-27 | the bytes write_to_file writes (pos, plus one when the mask is not 1) are the packing of the pending bits |
| BinaryBuffer.InFile.constructor | binary_buffer.c:17-20 | a file opened for reading: given bytes, position 0 |
| BinaryBuffer.InFile.Read | binary_buffer.c:17-20 | fread: up to n bytes from the position, fewer at the end; the position moves past them |
| BinaryBuffer.InFile.Seek | huffman_coding.c:30 | rewind / fseek to an absolute position |
| BinaryBuffer.OutFile.constructor | huffman_coding.c:130-142 | an empty output file |
| BinaryBuffer.OutFile.Write | binary_buffer.c:22-27 | fwrite appends the chunk |
| BinaryBuffer.InBuffer.constructor | binary_buffer.c:7-12 | the static input buffer: position 0, mask 1, all bytes zero |
| BinaryBuffer.InBuffer.Reset | binary_buffer.c:37-41 | inbuf_reset: position 0, mask 1, all 16384 bytes zero |
| BinaryBuffer.InBuffer.ReadFromFile | binary_buffer.c:17-20 | read_from_file: buffer reset, then min(16384, remaining) file bytes at the front and zeros after; returns that count |
| BinaryBuffer.InBuffer.NextByte | binary_buffer.c:55-60 | inbuf_next_byte: position + 1, mask 1, true exactly when the position reaches 16384 |
| BinaryBuffer.InBuffer.EndOfBuffer | binary_buffer.c:45-47 | end_of_inbuf holds exactly when the position is at 16384, past the last buffered byte |
| BinaryBuffer.InBuffer.NextBit | binary_buffer.c:71-73 | inbuf_next_bit: mask shifted; past 128 the next byte with mask 1; true exactly at the buffer end; the stream position advances by one bit |
| BinaryBuffer.InBuffer.GetBit | binary_buffer.c:81-83 | inbuf_get_bit is the masked current byte, nonzero exactly when the stream bit at the cursor is set |
| BinaryBuffer.InBuffer.GetByte | binary_buffer.c:85-87 | inbuf_get_byte is the current byte |
| BinaryBuffer.OutBuffer.constructor | binary_buffer.c:7-13 | the static output buffer: position 0, mask 1, all bytes zero, nothing pending |
| BinaryBuffer.OutBuffer.Reset | binary_buffer.c:31-35 | outbuf_reset: position 0, mask 1, all 16384 bytes zero |
| BinaryBuffer.OutBuffer.WriteToFile | binary_buffer.c:22-27 | write_to_file writes pos bytes, plus one when the mask is not 1; those bytes pack the pending bits; then the buffer is reset |
| BinaryBuffer.OutBuffer.NextByte | binary_buffer.c:62-67 | outbuf_next_byte: position + 1, mask 1, true exactly when the position reaches 16384 |
| BinaryBuffer.OutBuffer.EndOfBuffer | binary_buffer.c:49-51 | end_of_outbuf holds exactly when the position is at 16384, the buffer full |
| BinaryBuffer.OutBuffer.NextBit | binary_buffer.c:75-77 | outbuf_next_bit: mask shifted, wrapping to the next byte past 128; true exactly at the buffer end; the cursor bit joins the pending bits |
| BinaryBuffer.OutBuffer.SetBit | binary_buffer.c:89-91 | outbuf_set_bit ORs the mask into the current byte and changes nothing else |
| BinaryBuffer.OutBuffer.ResetBit | binary_buffer.c:93-95 | outbuf_reset_bit clears the mask bit of the current byte and changes nothing else |
| BinaryBuffer.OutBuffer.SetByte | binary_buffer.c:97-99 | outbuf_set_byte overwrites the current byte and nothing else |
| PriorityQueue.Family | priority_queue.c:44-54 | right(i) == left(i) + 1 and parent(left(i)) == parent(right(i)) == i; the parent of i > 0 lies before i |
| PriorityQueue.RootIsMin | priority_queue.c:87-89 | in heap order the first slot weighs no more than any slot |
| PriorityQueue.DropRoot | priority_queue.c:91-94 | moving the last node to the root and dropping the last slot removes exactly the root from the multiset |
| PriorityQueue.SwapPermutes | priority_queue.c:4-8 | a swap permutes the nodes |
| PriorityQueue.SwapUp | priority_queue.c:58-66 | one sift-up swap keeps heap order everywhere except around the moved node |
| PriorityQueue.SwapDown | priority_queue.c:68-83 | one sift-down swap with the lighter child keeps heap order everywhere except below the moved node |
| PriorityQueue.UpDone | priority_queue.c:58-61 | sift-up stopping at the root, or under a parent no heavier, leaves a heap |
| PriorityQueue.DownDone | priority_queue.c:79 | sift-down stopping with no lighter child leaves a heap |
| PriorityQueue.Heap.constructor | priority_queue.c:12-20 | heap_create(n): capacity n, size 0 |
| PriorityQueue.Heap.Swap | priority_queue.c:4-8 | swap exchanges two slots and nothing else |
| PriorityQueue.Heap.SiftUp | priority_queue.c:58-66 | heap_sift_up restores heap order on the first size slots, only permuting them |
| PriorityQueue.Heap.SiftDown | priority_queue.c:68-83 | heap_sift_down restores heap order on the first size slots, only permuting them |
| PriorityQueue.Heap.Top | priority_queue.c:87-89 | heap_top is the first slot, which weighs no more than any node |
| PriorityQueue.Heap.Extract | priority_queue.c:91-97 | heap_extract returns the former root, a lightest node; size drops by one; exactly that node leaves the multiset; heap order kept |
| PriorityQueue.Heap.Insert | priority_queue.c:99-107 | heap_insert on a full heap changes nothing; otherwise size + 1, the node joins the multiset, heap order kept |
| PriorityQueue.Size | priority_queue.c:34-40 | heap_size is 0 for a missing heap, otherwise size; it is 0 exactly when heap_empty |
| PriorityQueue.IsEmpty | priority_queue.c:34-36 | heap_empty holds for a missing heap and for one with no nodes |
| Checksum.RoundIs | file_processing.c:7 | one round adds the polynomial when the low bit is clear, as the inverted test of the code does |
| Checksum.Index | file_processing.c:20 | the table slot is the low byte of crc xor the data byte |
| Checksum.Table | file_processing.c:13-18 | the filled table has 256 entries |
| Checksum.FoldSnoc | file_processing.c:19-21 | one more byte is one more step `table[(crc ^ b) & 0xFF] ^ (crc >> 8)` |
| Checksum.FoldAppend | file_processing.c:19-29 | the fold is left to right: running over a then b is running over a + b, so the chunking of get_checksum does not matter |
| Checksum.ChunkStep | file_processing.c:27-29 | each 32 KiB chunk continues the fold over the file |
| Checksum.FoldNothing | file_processing.c:19-21 | no bytes leave the running value unchanged |
| Checksum.TableEntryZero | file_processing.c:13-18 | crc32_for_byte(0) is 0xD202EF8D, nonzero, so a filled table is told apart from the zeroed static one |
| Checksum.CrcForByte | file_processing.c:5-10 | crc32_for_byte: eight rounds, then the top byte inverted |
| Checksum.CrcTable.FilledFirst | file_processing.c:14 | a filled table has a nonzero first slot |
| Checksum.CrcTable.constructor | file_processing.c:13 | the static table starts all zero and not filled |
| Checksum.CrcTable.Fill | file_processing.c:15-17 | after the fill, slot i holds crc32_for_byte(i) for every i < 256 |
| Checksum.CrcTable.Crc32 | file_processing.c:12-22 | crc32 fills the table only when slot 0 is zero, then returns the fold of the table step over the data |
| Checksum.CrcTable.GetChecksum | file_processing.c:24-31 | get_checksum is the fold from 0 over every byte from the position to the end; the file is left at its end |
| HuffmanTypes.Label | huffman_tree.h:4-15 | the C label of a node; its leaf tests agree: symbol ≤ UCHAR_MAX exactly when the node has no children |
| HuffmanTypes.LeafOf | huffman_tree.c:13-25 | make_tag then tree_create on a symbol: a childless node carrying that label |
| HuffmanTypes.DistinctOfNoDup | huffman_tree.c:27-38 | a tree whose symbols each occur once has distinct leaves |
| HuffmanTypes.PermNoDup | huffman_tree.c:40-64 | a permutation of a duplicate-free symbol list is duplicate-free |
| HuffmanTypes.WeightedRoot | huffman_tree.c:57 | when every internal node weighs the sum of its children, the root weighs the sum of the leaf frequencies |
| HuffmanTypes.Shape | huffman_coding.c:96-111 | what read_tree rebuilds: same symbols and height, frequencies 0 |
| HuffmanTree.Leaves | huffman_tree.c:27-38 | the nodes init_heap inserts are leaves of nonzero frequency |
| HuffmanTree.NonZeroMembers | huffman_tree.c:30-32 | a symbol is among the nonzero symbols exactly when its frequency is nonzero |
| HuffmanTree.NonZeroIncreasing | huffman_tree.c:30 | the nonzero symbols come in strictly increasing order, so each occurs once |
| HuffmanTree.LeavesEmpty | huffman_tree.c:45-48 | there are no leaves exactly when every frequency is 0 |
| HuffmanTree.LeavesStep | huffman_tree.c:31-36 | symbol n adds its leaf exactly when its frequency is nonzero |
| HuffmanTree.LeavesSums | huffman_tree.c:27-38 | the leaves weigh the total count and carry the nonzero symbols in order |
| HuffmanTree.Without | huffman_tree.c:91-97 | the forest with one occurrence of a tree removed |
| HuffmanTree.WithoutSum | huffman_tree.c:54-55 | taking a tree out removes its weight from the forest |
| HuffmanTree.WithoutSyms | huffman_tree.c:54-55 | taking a tree out removes its symbols from the forest |
| HuffmanTree.FibDoubles | huffman_tree.c:7 | Fib(2k + 2) ≥ 2^k |
| HuffmanTree.ShallowTree | huffman_tree.c:40-68 | a tree built by merging lightest pairs whose weight fits in unsigned has height < 64, so every code fits the 65-char row |
| HuffmanTree.FibMerge | huffman_tree.c:53-61 | merging the lightest tree with the next lightest keeps every subtree at least Fib(height + 2) heavy |
| HuffmanTree.MergeSums | huffman_tree.c:53-63 | replacing the two extracted trees by their merge keeps the forest's total weight and its symbols |
| HuffmanTree.MergeFreq | huffman_tree.c:54-55 | the two extracted trees and the rest weigh what the forest weighed |
| HuffmanTree.MergeSyms | huffman_tree.c:54-55 | the two extracted trees and the rest carry the forest's symbols |
| HuffmanTree.MergeAppend | huffman_tree.c:57-62 | inserting the merged node adds both trees' weight and symbols to the rest |
| HuffmanTree.FibBelow | huffman_tree.c:7 | a Fibonacci weight that fits in unsigned has index below 66 |
| HuffmanTree.MergeGreedy | huffman_tree.c:53-63 | after a merge, no child of a tree in the forest weighs more than any tree of the forest |
| HuffmanTree.MergeKeeps | huffman_tree.c:53-63 | one merge step keeps the loop invariant: weighted trees, the table's total and symbols, greedy order |
| HuffmanTree.LightestOf | huffman_tree.c:54-55 | a node no heavier than any heap slot is a lightest tree of the forest |
| HuffmanTree.ForestSingle | huffman_tree.c:49-51 | when one tree is left it weighs the total count and carries exactly the nonzero symbols |
| HuffmanTree.CodeTreeLeaves | huffman_tree.c:40-64 | the code tree's leaves are exactly the occurring symbols, each once; height < 64 when the total fits in unsigned |
| HuffmanTree.LeavesForest | huffman_tree.c:45-46 | the leaves init_heap inserts form a forest of the table |
| HuffmanTree.GetSymFreq | huffman_coding.c:16-18 | get_sym_freq, through which init_heap reads the table, is the symbol's entry |
| HuffmanTree.InitHeap | huffman_tree.c:27-38 | init_heap leaves the heap holding exactly one leaf per nonzero symbol |
| HuffmanTree.AddLeaf | huffman_tree.c:30-36 | one turn of init_heap: symbol `sym` adds its leaf when its count is nonzero, so the heap holds the leaves of the symbols below sym + 1 |
| HuffmanTree.MergeLightest | huffman_tree.c:53-63 | one loop pass extracts two lightest trees, inserts their merge (first on the left, summed weight), and the heap shrinks by one |
| HuffmanTree.ExtractLightest | huffman_tree.c:54-55 | heap_extract takes out a lightest tree and the heap holds the rest of the forest |
| HuffmanTree.BuildCodeTree | huffman_tree.c:40-68 | build_code_tree is None exactly when no frequency is nonzero; otherwise a weighted tree of the total weight whose leaves are the nonzero symbols |
| HuffmanTree.MergeAll | huffman_tree.c:48-64 | the merge loop: None exactly when the queue starts empty; otherwise the root is a weighted tree over the forest's leaves |
| CodeTable.PathTo | huffman_tree.c:70-87 | the path to a symbol's leaf is no longer than the height, and nonempty under a node |
| CodeTable.CodeChars | huffman_tree.c:82-84 | a path written '0' per left edge and '1' per right edge |
| CodeTable.CodeBits | huffman_coding.c:59-71 | write_code_to_outbuf emits a set bit exactly for each '1' |
| CodeTable.CodeBitsOfChars | huffman_coding.c:59-71 | writing a path's characters as bits gives the path back |
| CodeTable.CodesUpToAt | huffman_tree.c:103-114 | row i of the partial table is the row of symbol i |
| CodeTable.CodesAt | huffman_tree.c:116-118 | the row of a symbol in the whole table |
| CodeTable.TableOfRows | huffman_tree.c:103-114 | rows that agree with every symbol's row are the whole table |
| CodeTable.PathsDiverge | huffman_tree.c:70-87 | the paths to two different leaves of a tree with distinct leaves are not prefixes of each other |
| CodeTable.CharsPrefix | huffman_tree.c:82-84 | writing paths as characters keeps the prefix relation |
| CodeTable.CodesPrefixFree | huffman_tree.c:99-114 | a row is nonempty exactly for the tree's symbols; "0" rows for a single leaf; rows no longer than the height; two different symbols' rows are not prefixes of each other |
| CodeTable.ResetCodeTable | huffman_tree.c:99-101 | reset_code_table empties every row |
| CodeTable.Traverse | huffman_tree.c:70-87 | the table after a traversal keeps 256 rows |
| CodeTable.TraverseRows | huffman_tree.c:70-87 | after tree_traversal, each symbol of the subtree has its path as its row and every other row is unchanged |
| CodeTable.TraverseLeaf | huffman_tree.c:76-80 | at a leaf the traversal writes the buffered path into that symbol's row only |
| CodeTable.TreeTraversal | huffman_tree.c:70-87 | tree_traversal, with the static buf/depth as a path parameter, leaves the table its spec function gives |
| CodeTable.BuildCodeTable | huffman_tree.c:103-114 | build_code_table leaves the table of the tree: all empty for no tree, "0" for a single leaf, paths otherwise |
| CodeTable.LeafRows | huffman_tree.c:108-112 | row "0" for the single leaf over cleared rows is the whole table |
| CodeTable.LeafRow | huffman_tree.c:108-112 | for a single-leaf tree, the leaf's symbol has row "0" and every other row is empty |
| CodeTable.TraversedRows | huffman_tree.c:113 | a traversal from the root over cleared rows leaves the whole table |
| CodeTable.GetCode | huffman_tree.c:116-118 | get_code is the row of the symbol |
| CodingSpec.TreeBits | huffman_coding.c:75-94 | write_tree's preorder bits: 1 and the eight symbol bits for a leaf, 0 then both subtrees for a node |
| CodingSpec.ParseAt | huffman_coding.c:96-111 | read_tree's parse: a parsed tree ends after its start and within the limit, with frequency 0 |
| CodingSpec.ParseTreeBits | huffman_coding.c:75-111 | reading back write_tree's bits, wherever they sit, gives the tree's shape and symbols and consumes exactly those bits |
| CodingSpec.SymAtHolds | huffman_coding.c:35-57 | eight bits of a byte are read back as that byte: read_char(write_char(c)) == c |
| CodingSpec.ParseLeaf | huffman_coding.c:102-106 | a set bit and a byte's bits parse as that leaf, nine bits long |
| CodingSpec.ParsedLeaf | huffman_coding.c:102-106 | a tree that starts with a set bit is the leaf of the byte after it |
| CodingSpec.ParseSubtrees | huffman_coding.c:107-110 | a tree starting with a clear bit has both its subtrees parsed after it |
| CodingSpec.ParseNode | huffman_coding.c:107-110 | a clear bit followed by two parsed subtrees parses as their node |
| CodingSpec.PackedHolds | binary_buffer.c:22-27 | bytes packed after a prefix are read from bit 8 times the prefix length on |
| CodingSpec.PackedAt | binary_buffer.c:22-27 | packing keeps every bit of a bit string |
| CodingSpec.Walk | huffman_coding.c:150-160 | decode's inner loop: a set bit goes right, a clear bit left, until a leaf |
| CodingSpec.DecodeN | huffman_coding.c:149-166 | decode's outer loop yields exactly n symbols |
| CodingSpec.WalkPath | huffman_coding.c:150-160 | following a leaf's path from the root reaches that leaf and consumes exactly the path |
| CodingSpec.WalkShape | huffman_coding.c:150-160 | the walk depends only on the tree's shape and symbols, not on frequencies |
| CodingSpec.DecodeShape | huffman_coding.c:146-168 | decoding with the rebuilt tree equals decoding with the original |
| CodingSpec.CodesRows | huffman_tree.c:103-114 | the table of a tree with more than one leaf codes each symbol by its path |
| CodingSpec.CodeOf | huffman_tree.c:103-114 | the bits of a symbol's code are its path |
| CodingSpec.PayloadPaths | huffman_coding.c:115-128 | the payload of an input is the concatenated paths of its bytes |
| CodingSpec.DecodePaths | huffman_coding.c:146-168 | walking over the paths of an input's bytes decodes the input and ends after the paths |
| CodingSpec.DecodeLast | huffman_coding.c:149-166 | one more walk after n decoded symbols decodes one more symbol |
| CodingSpec.DecodePayload | huffman_coding.c:146-168 | with more than one leaf, decoding as many symbols as the input has of the payload gives the input back and ends after the payload |
| CodingSpec.Repeat | huffman_coding.c:150 | n copies of a symbol |
| CodingSpec.DecodeSingle | huffman_coding.c:150-161 | with a single-leaf root, decode consumes no bits and repeats the symbol n times |
| CodingSpec.SingleInput | huffman_tree.c:108-112 | an input over the single leaf's symbol is that symbol repeated |
| CodingSpec.EncodedSplit | huffman_coding.c:130-142 | encode_file's bits are the tree bits followed by the payload |
| CodingSpec.ReadEncodedTree | huffman_coding.c:96-111 | the tree at the front of encode_file's output reads back as the tree's shape |
| CodingSpec.DecodeAfterTree | huffman_coding.c:146-168 | decoding the payload with the read-back tree gives the input |
| CodingSpec.DecodeEncoded | huffman_coding.c:146-168 | decoding as many symbols as the input has after the tree bits gives the input |
| HuffmanCoding.Histogram | huffman_coding.c:10 | the frequency table of a byte string has 256 entries |
| HuffmanCoding.HistogramTotal | huffman_coding.c:20-31 | the frequencies add up to the length of the input |
| HuffmanCoding.HistogramOccurs | huffman_coding.c:20-31 | a symbol's frequency is nonzero exactly when it occurs in the input |
| HuffmanCoding.HistogramEmpty | huffman_coding.c:20-31 | every frequency is zero exactly when the input is empty |
| HuffmanCoding.HistogramSnoc | huffman_coding.c:26 | counting one more byte increments that byte's entry |
| HuffmanCoding.InputTree | huffman_coding.c:130-135 | the code tree of an input of at most UINT_MAX bytes has the input's symbols as distinct leaves and height < 64 |
| HuffmanCoding.ResetFreqTable | huffman_coding.c:12-14 | reset_freq_table zeroes every entry |
| HuffmanCoding.AnalyzeFile | huffman_coding.c:20-31 | analyze_file leaves the frequency table of the bytes from the position to the end, and rewinds the file |
| HuffmanCoding.CountBuffer | huffman_coding.c:25-28 | the inner loop counts the n buffered bytes |
| HuffmanCoding.CountByte | huffman_coding.c:26-27 | one turn of the inner loop: the byte under the cursor is counted and the cursor moves on |
| HuffmanCoding.PutBit | huffman_coding.c:62-69 | a set-if-one then next_bit (flushing a full buffer) appends the bit to what the file and buffer hold |
| HuffmanCoding.WriteCharToOutbuf | huffman_coding.c:48-57 | write_char_to_outbuf appends the byte's eight bits, least significant first |
| HuffmanCoding.NextMask | huffman_coding.c:35-57 | the loop mask steps through the masks of bits 0..7, then 0 |
| HuffmanCoding.WriteCodeToOutbuf | huffman_coding.c:59-71 | write_code_to_outbuf appends a set bit per '1' and a clear bit per other character |
| HuffmanCoding.WriteTree | huffman_coding.c:75-94 | write_tree appends nothing for a missing tree, otherwise the tree's preorder bits |
| HuffmanCoding.GetStreamBit | huffman_coding.c:38 | the bit under the input cursor is nonzero exactly when the stream bit is set |
| HuffmanCoding.Advance | huffman_coding.c:41-43 | next_bit, refilling at the buffer end, moves one bit along the file's stream |
| HuffmanCoding.ReadCharFromInbuf | huffman_coding.c:35-46 | read_char_from_inbuf returns the byte of the next eight stream bits and moves past them |
| HuffmanCoding.ReadBitInto | huffman_coding.c:37-44 | one loop turn stores the stream bit at mask k into the byte |
| HuffmanCoding.StoreBit | huffman_coding.c:38-40 | OR-ing the mask when the bit is set gives that bit and keeps the others |
| HuffmanCoding.ReadTree | huffman_coding.c:96-111 | read_tree returns the tree its parse gives and ends where the parse ends |
| HuffmanCoding.ReadFlag | huffman_coding.c:98-101 | the first bit of a node is read, the cursor moves one bit, and the flag is that stream bit |
| HuffmanCoding.ReadLeaf | huffman_coding.c:102-106 | a leaf's eight symbol bits give the leaf the parse gives, ending where it ends |
| HuffmanCoding.ReadNode | huffman_coding.c:107-110 | an internal node is the left then the right subtree read, as the parse gives |
| HuffmanCoding.CodedPayload | huffman_coding.c:119-126 | the codes of a window's bytes are the payload of those bytes |
| HuffmanCoding.Encode | huffman_coding.c:115-128 | encode writes the packing of the bits so far plus each remaining byte's code, and leaves the buffer reset |
| HuffmanCoding.EncodeChunk | huffman_coding.c:119-126 | one turn of encode's loop appends the buffered bytes' codes and refills |
| HuffmanCoding.Flush | huffman_coding.c:127 | the final write_to_file writes the packed bits |
| HuffmanCoding.EncodeBuffer | huffman_coding.c:120-125 | the inner loop appends the codes of the n buffered bytes |
| HuffmanCoding.EncodeNext | huffman_coding.c:121-124 | one byte's code goes out and the buffer moves to the next byte |
| HuffmanCoding.EncodeFile | huffman_coding.c:130-142 | encode_file writes the packing of tree bits plus payload; the tree is None exactly for an empty input, else the code tree of its counts |
| HuffmanCoding.BuildCodes | huffman_coding.c:134-135 | build_code_tree then build_code_table on the counts of an input |
| HuffmanCoding.DecodedSyms | huffman_coding.c:146-168 | decode emits exactly n symbols |
| HuffmanCoding.WalkDown | huffman_coding.c:150-160 | the inner loop reads the bits of one walk from the root |
| HuffmanCoding.Decode | huffman_coding.c:146-168 | decode writes the n symbols of the walks and leaves the input cursor at their end |
| HuffmanCoding.DecodeSymbol | huffman_coding.c:150-165 | one turn of the loop: a walk, its symbol stored, flushing a full buffer |
| HuffmanCoding.Unpacked | huffman_coding.c:170-182 | decode_file emits exactly file_size symbols |
| HuffmanCoding.DecodeFile | huffman_coding.c:170-182 | decode_file reads a tree only when file_size > 0 and writes the symbols decoded with it |
| HuffmanCoding.RoundTrip | huffman_coding.c:130-182 | decode_file over encode_file's packed output, wherever it sits in a file, with the input's length, gives the input back |
| HuffmanCoding.UnpackedOf | huffman_coding.c:170-182 | decode_file of n > 0 symbols decodes with the tree read at the position |
| HuffmanCoding.DecodeHeld | huffman_coding.c:170-182 | the encoded bits held at a stream position decode to the input |
| ArchiveFormat.HeaderLayout | archiver.c:28-35 | signature at 0, checksum at 12, file count at 16, records from 20 |
| ArchiveFormat.LE | archiver.c:68-76 | a number stored in w little-endian bytes |
| ArchiveFormat.ValueOfLE | archiver.c:47-59 | reading back a stored number gives it back |
| ArchiveFormat.LEOfValue | archiver.c:47-59 | storing a read-back field gives the field back |
| ArchiveFormat.Record | archiver.c:85-92 | write_file_info's record: length byte, name with terminator, sizes and time |
| ArchiveFormat.RecordAsWritten | archiver.c:85-92 | write_file_info for any name: the length byte is strlen + 1 mod 256 and the record is that many name bytes plus the fixed fields long |
| ArchiveFormat.AsWrittenFits | archiver.c:86-88 | for names of at most 254 bytes the record as written is the record read back |
| ArchiveFormat.LongNameLost | archiver.c:86-88 | a 255-byte name gets length byte 0 and its record does not read back as the entry |
| ArchiveFormat.CString | archiver.c:124-126 | the string a name buffer holds, up to its first zero |
| ArchiveFormat.SkipLen | archiver.c:137-141 | skip_file_info moves past the length byte, the name it announces, the sizes and the time |
| ArchiveFormat.ParseRecord | archiver.c:121-133 | a record read back is a valid entry followed by the rest of the file |
| ArchiveFormat.RecordAt | archiver.c:85-141 | read_header returns what write_file_info wrote, and skip_file_info skips exactly that record |
| ArchiveFormat.CStringOf | archiver.c:124-126 | a name written with its terminator reads back as the name |
| ArchiveFormat.ParseRecords | archiver.c:121-133 | n records read back: n valid entries and the rest of the file |
| ArchiveFormat.RecordsFail | archiver.c:121-133 | once a record cannot be read, no longer run of records can |
| ArchiveFormat.ReadOneMore | archiver.c:121-133 | one more turn of the loop either fails, failing the whole header, or appends the record it reads |
| ArchiveFormat.RecordsGrow | archiver.c:121-133 | one more record extends the entries and the skipped length |
| ArchiveFormat.RecordsAt | archiver.c:106-135 | the records of a list of entries read back as that list |
| ArchiveFormat.ParseHeader | archiver.c:106-135 | read_header: as many records as the count field says, ending where the data starts |
| ArchiveFormat.HeaderAt | archiver.c:106-135 | a header holding a list's records and its count parses as that list |
| ArchiveFormat.HeaderFails | archiver.c:106-135 | when the records cannot all be read there is no header |
| ArchiveFormat.HeaderOf | archiver.c:106-135 | the parsed header is the checksum field, the records and where they end |
| ArchiveFormat.Crc | archiver.c:78-83 | the checksum of a file: the fold over the bytes from offset 16 on |
| ArchiveFormat.SealedChecks | archiver.c:429-435 | a body sealed by refresh_checksum has the signature and a checksum that checks |
| ArchiveFormat.HasMagic | archiver.c:39-45 | check_magic_num holds exactly when the file starts with the 12-byte signature |
| ArchiveFormat.ChecksumOk | archiver.c:429-435 | check_archive_checksum holds exactly when the stored checksum field equals the CRC of the bytes from offset 16 on |
| ArchiveFormat.Created | archiver.c:222-237 | create_archive writes 20 bytes that pass both checks and hold the count 0 |
| ArchiveFormat.BlockStartStep | archiver.c:256-272 | entry i + 1's block starts comp_size after entry i's |
| ArchiveSpec.Patch | archiver.c:63-92 | fwrite at a position overwrites the bytes there and extends the file past its end |
| ArchiveSpec.PatchThen | archiver.c:85-92 | two writes in a row are one write of both |
| ArchiveSpec.Refreshed | archiver.c:78-83 | refresh_checksum keeps the length, the signature and every byte from offset 16, and the checksum then checks |
| ArchiveSpec.WithCount | archiver.c:73-76 | write_num_of_files keeps the signature and checksum and all bytes past the count, and the count reads back mod 2^32 |
| ArchiveSpec.HeaderEnd | archiver.c:143-149 | skip_header ends at or past offset 20, and where read_header's data starts on a file it parses |
| ArchiveSpec.RefreshSeals | archiver.c:78-83 | refresh_checksum on signature, any checksum and a body gives the sealed body |
| ArchiveSpec.CountField | archiver.c:73-76 | write_num_of_files stores the count mod 2^32 at offset 16 and keeps the rest |
| ArchiveSpec.ImageHeader | archiver.c:106-135 | an archive image has the signature, a checksum that checks, and a header listing its entries, whose data ends the file |
| ArchiveSpec.ImageBytes | archiver.c:106-135 | the image is the header, the records, then the blocks |
| ArchiveSpec.ImageParts | archiver.c:96-135 | an image is signature, checksum, count and records, then the blocks; its header ends after the records |
| ArchiveSpec.DataTotal | archiver.c:256-272 | the blocks are as long as the comp_size fields add up to |
| ArchiveSpec.ImageBlock | archiver.c:256-272 | entry i's block in the image sits at the header end plus the earlier comp_size fields |
| ArchiveSpec.AppendImage | archiver.c:194-218 | append on an archive image gives the image of the archive with the new entries and blocks after the old |
| ArchiveSpec.AppendedBytes | archiver.c:194-218 | on a file with the signature, append_to_archive leaves the signature, a checksum that checks and the count raised by the number added mod 2^32 |
| ArchiveSpec.AppendToImage | archiver.c:194-218 | the bytes append leaves: sealed new count, old records, new records, old data, new data |
| ArchiveSpec.BodyAppend | archiver.c:194-218 | the body of the appended archive in the same order |
| ArchiveSpec.AppendedBody | archiver.c:194-218 | the old and new entries together form a consistent archive whose image is the sealed new count, old records, new records, old data, new data |
| ArchiveSpec.RecordsAppend | archiver.c:178-179 | the records of two lists of entries are the first's records then the second's |
| ArchiveSpec.DataAppend | archiver.c:204-210 | the data of two lists of blocks is the first's data then the second's |
| ArchiveSpec.ConsistentAppend | archiver.c:194-218 | appending keeps each block the length its entry records |
| ArchiveSpec.GrownOf | archiver.c:204-210 | the file before the recount: header, old records, new records, old data, new data |
| ArchiveSpec.Recount | archiver.c:214-216 | the recount stores old + added and reseals |
| ArchiveEdit.FirstNamed | archiver.c:285-291 | the search stops at the first entry with the name, or at the end when none has it |
| ArchiveEdit.Mark | archiver.c:288 | marking sets one flag |
| ArchiveEdit.MarksIff | archiver.c:284-296 | an entry is marked exactly when some requested name first matches it |
| ArchiveEdit.Marks | archiver.c:284-296 | one flag per entry |
| ArchiveEdit.All | archiver.c:309 | extract_all marks every entry |
| ArchiveEdit.Marked | archiver.c:332-335 | the count of marked entries |
| ArchiveEdit.Keep | archiver.c:321-338 | the unmarked items, in order; kept and marked add up |
| ArchiveEdit.KeepMembers | archiver.c:321-338 | an item is kept exactly when some unmarked position holds it |
| ArchiveEdit.KeptValid | archiver.c:321-326 | the kept entries are valid records |
| ArchiveEdit.RemoveImage | archiver.c:319-395 | remove on an archive image gives the image of the archive holding the unmarked entries and blocks, in order |
| ArchiveEdit.RemovedBody | archiver.c:370-378 | the staged file is the sealed image of the kept archive |
| ArchiveEdit.Removed | archiver.c:344-395 | remove_from_archive leaves a file with the signature, a checksum that checks and the count of the entries left mod 2^32 |
| ArchiveEdit.BareSignatureRemoved | archiver.c:106-135 | a file holding only the signature passes both checks, reads back as an empty header, and removing from it writes the created empty archive |
| ArchiveEdit.KeptConsistent | archiver.c:319-342 | the kept blocks keep their recorded lengths |
| ArchiveEdit.KeptBlocks | archiver.c:330-340 | the copied blocks are the kept blocks of the archive |
| ArchiveEdit.KeptStep | archiver.c:166-192 | adding an entry and a block of its comp_size keeps the archive consistent |
| ArchiveEdit.ExtractedAt | archiver.c:258-266 | what decode_file writes for entry i: file_size bytes decoded from its block's start |
| ArchiveEdit.ParsePastEnd | huffman_coding.c:96-111 | past the end of the stream no tree can be read |
| ArchiveEdit.Picks | archiver.c:259-261 | a file is written when it is marked and its output opens |
| ArchiveEdit.Extracted | archiver.c:253-274 | the files extract_files writes, in entry order |
| ArchiveEdit.Unopened | archiver.c:174 | the inputs that fail to open |
| ArchiveEdit.ListedSnoc | archiver.c:174-184 | a file that opens adds its entry, block and contents |
| ArchiveEdit.AddedSkip | archiver.c:187-189 | a file that does not open adds nothing |
| ArchiveEdit.AddedOne | archiver.c:174-186 | a file that opens adds one entry with its size, the size of its encoding and the time |
| ArchiveEdit.ExtractImage | archiver.c:253-274 | in an archive image whose blocks encode their files, entry i extracts to its file |
| ArchiveEdit.ExtractAllImage | archiver.c:253-315 | on such an archive, extract writes exactly the chosen entries' original files, in order |
| ArchiveEdit.ExtractedPrefix | archiver.c:257-272 | the files written so far are the chosen contents so far |
| ArchiveEdit.AppendCompresses | archiver.c:194-218 | appended blocks that encode their files keep the archive's blocks encoding theirs |
| ArchiveEdit.RemoveCompresses | archiver.c:319-342 | the kept blocks still encode their files |
| ArchiveEdit.KeptCompresses | archiver.c:330-340 | each kept prefix of blocks encodes its files |
| ArchiveEdit.CreatedImage | archiver.c:222-237 | the created archive is the image of the empty archive |
| Archiver.Stream.constructor | archiver.c:224 | an open file: given bytes, position 0 |
| Archiver.Stream.Seek | file_processing.c:39-41 | file_set_pos / rewind set the position and leave the bytes |
| Archiver.Stream.Shift | file_processing.c:61-63 | file_shift_pos moves the position forward |
| Archiver.Stream.Read | archiver.c:42-57 | fread: up to n bytes from the position |
| Archiver.Stream.Write | archiver.c:63-92 | fwrite overwrites at the position and moves past the bytes |
| Archiver.Stream.Truncate | archiver.c:383 | fopen with "wb" empties the file |
| Archiver.Statics.constructor | binary_buffer.c:7-13 | the program's static buffers and tables in their initial state |
| Archiver.CheckMagicNum | archiver.c:39-45 | check_magic_num is true exactly when the file starts with the signature; the file is rewound |
| Archiver.ReadChecksum | archiver.c:47-52 | read_checksum is the field at offset 12 |
| Archiver.ReadNumOfFiles | archiver.c:54-59 | read_num_of_files is the field at offset 16 |
| Archiver.WriteMagicNumber | archiver.c:63-66 | write_magic_number writes the signature at offset 0 |
| Archiver.WriteChecksum | archiver.c:68-71 | write_checksum stores the value at offset 12 |
| Archiver.WriteNumOfFiles | archiver.c:73-76 | write_num_of_files stores the count at offset 16 |
| Archiver.RefreshChecksum | archiver.c:78-83 | refresh_checksum stores the CRC of the bytes from offset 16 on at offset 12 |
| Archiver.GetChecksum | file_processing.c:24-31 | the CRC of the bytes from offset 16 on |
| Archiver.ChecksumFrom | archiver.c:78-83 | the CRC of a byte string, below 2^32 |
| Archiver.CheckArchiveChecksum | archiver.c:429-435 | check_archive_checksum is true exactly when the stored checksum is the CRC of the bytes from offset 16 on |
| Archiver.WriteFileInfo | archiver.c:85-92 | write_file_info writes the entry's record at the position |
| Archiver.RecordParts | archiver.c:86-91 | the five writes of write_file_info make up the record |
| Archiver.ReadFileInfo | archiver.c:120-133 | one turn of read_header's loop reads the record at the position, or fails exactly when it cannot be read |
| Archiver.RecordReads | archiver.c:123-132 | the five reads see the record's fields |
| Archiver.RecordParsed | archiver.c:123-132 | a record is read exactly when the time field is complete and the name is terminated |
| Archiver.ReadFields | archiver.c:126-132 | the name and number fields are the record's slices |
| Archiver.RecordFits | archiver.c:126-132 | the time field is complete exactly when the record fits in the file |
| Archiver.ReadHeader | archiver.c:106-135 | read_header returns the parsed header and leaves the file where the data starts |
| Archiver.ReadFixed | archiver.c:108-113 | the signature, checksum and count reads leave the cursor at offset 20 or the end of file, the fields zero-filled where the file ends |
| Archiver.ReadRecords | archiver.c:121-133 | the loop of read_header reads the n records |
| Archiver.ReadNext | archiver.c:121-133 | one turn reads one more record, or fails exactly when the run of records fails |
| Archiver.SkipFileInfo | archiver.c:137-141 | skip_file_info moves past one record |
| Archiver.SkipHeader | archiver.c:143-149 | skip_header moves to the end of the header |
| Archiver.ConcatFiles | file_processing.c:65-72 | concat_files writes the rest of one file at the other's position |
| Archiver.CopyChunk | file_processing.c:45-53 | one turn of file_copy_block copies a chunk, stopping early at the end of the source |
| Archiver.FileCopyBlock | file_processing.c:43-59 | file_copy_block copies block_size bytes, or fewer at the end of the source |
| Archiver.EncodeInto | archiver.c:176 | encode_file into the temporary file writes the input's packed code |
| Archiver.EncodeBlock | huffman_coding.c:130-142 | the packed code of an input, whose tree holds its symbols |
| Archiver.CompressOne | archiver.c:174-184 | one compressed file: its block in the temporary file, its record in the archive |
| Archiver.CompressFiles | archiver.c:166-192 | compress_files writes a record per file that opens, and its block; returns their count |
| Archiver.CompressNext | archiver.c:173-189 | one turn of the loop |
| Archiver.GrowRecords | archiver.c:178-179 | one more record after the records so far |
| Archiver.GrowData | archiver.c:176 | one more block after the blocks so far |
| Archiver.AppendToArchive | archiver.c:194-218 | append_to_archive adds nothing when tmpfile fails; otherwise it leaves the old records, the new ones, the old data, the new data, count old + added, resealed |
| Archiver.AppendSteps | archiver.c:214-216 | the recount and reseal complete the append |
| Archiver.GrowArchive | archiver.c:196-212 | the header and data after the copy-back, before the recount |
| Archiver.GrowSteps | archiver.c:204-210 | the copy-back lays the data after the new records |
| Archiver.CreateArchive | archiver.c:222-237 | create_archive returns 1 and writes nothing when fopen fails, else 0 and the sealed empty archive |
| Archiver.MarkFiles | archiver.c:284-296 | the mark loop marks each requested name's first match |
| Archiver.Opens | archiver.c:260-263 | which outputs fopen opens |
| Archiver.DecodeAt | archiver.c:265 | decode_file from a position |
| Archiver.ExtractFiles | archiver.c:253-274 | extract_files writes the picked files in entry order and counts them |
| Archiver.ExtractStep | archiver.c:258-271 | one turn of the loop, with the block offset as a running sum |
| Archiver.ExtractNext | archiver.c:259-270 | one entry extracted or skipped |
| Archiver.ExtractFromArchive | archiver.c:277-302 | extract_from_archive extracts the first matches of the requested names |
| Archiver.ExtractAll | archiver.c:304-315 | extract_all extracts every entry whose output opens |
| Archiver.DeleteFiles | archiver.c:319-342 | delete_files writes the kept records, then the kept blocks; returns the number deleted |
| Archiver.WriteKept | archiver.c:321-326 | the kept records, in order |
| Archiver.WriteKeptNext | archiver.c:322-325 | one record kept or skipped |
| Archiver.CopyKept | archiver.c:328-341 | the kept blocks, in order, at their running offsets |
| Archiver.CopyKeptNext | archiver.c:331-339 | one block copied or skipped |
| Archiver.RemoveFromArchive | archiver.c:344-395 | remove_from_archive returns the marked count and leaves the kept archive, sealed with count old − removed; no change when tmpfile or the reopen fails |
| Archiver.Stripped | archiver.c:370-378 | the staged file is the removed archive |
| Archiver.SealRemoved | archiver.c:374-376 | the recount and checksum refresh of the staged file make it the removed archive |
| Archiver.CopyBack | archiver.c:381-389 | the reopened archive ends up holding exactly the staged file |
| Archiver.SealCount | archiver.c:377-378 | the new count and the checksum seal the staged body |
| Archiver.RemovedIs | archiver.c:370-378 | the sealed kept records and blocks are the removed archive |
| Archiver.WritePlaceholder | archiver.c:371-373 | signature, zero checksum and zero count |
| Archiver.Reseal | archiver.c:377-378 | count then checksum over the placeholder and body seal the body |
| Menu.Dispatch | archiver.c:463-489 | the switch of choice_menu: each option's operation and result; RemoveAll and invalid options report an invalid choice and change nothing |
| Menu.OpenAndRun | archiver.c:448-492 | a failed fopen, a missing signature or a wrong checksum is reported and runs nothing; otherwise the chosen operation runs |
| Menu.ChoiceMenu | archiver.c:439-492 | choice_menu creates the archive when it is missing, failing when creation fails, then opens, checks and dispatches |

## Left out

- Console output (`print_msg`, `print_error`, `print_arch_info`, `print_code_table`) is not modelled. `print_arch_info` becomes reading the header; the compression ratio, computed in `double`, is left out.
- `main.c` and its command-line dispatch are not part of this model. The menu takes a `MenuOption` directly.
- Memory management is left out: `tree_destroy`, `destroy_header`, `heap_destroy`, allocation failure, and the heap leak on the early return of `build_code_tree`.
- `get_file_name` is not modelled; nothing uses it.
- `get_file_size` and `file_close` (`file_processing.c:74-86`) are not modelled. No modelled operation calls `get_file_size`. The model treats every write as reaching the file at once, so the buffered data an `fclose` flushes is not modelled.
- `remove_from_archive` closes the caller's stream and reopens the archive into a local pointer that it never closes (`archiver.c:382-391`). `choice_menu` then calls `file_close` on the stale pointer it passed in (`archiver.c:491`), which closes that stream twice and is undefined behaviour. The rewritten archive reaches the disk only when the C library flushes the leaked stream at exit. Archiver.RemoveFromArchive models the rewrite as complete, and Menu.ChoiceMenu does not model the second close.
- The file system is parameters: the inputs' contents, which output names cannot be opened, whether `tmpfile`, `fopen` and the reopen succeed, and the values of `time(NULL)`. Extraction returns the written files as values.
- Crash safety of the temporary-file rewrite is not modelled. When the reopen in `remove_from_archive` fails, the model leaves the archive unchanged, because a failed `fopen` does not truncate.
- The heap's `freq` and the code tree's frequencies are unbounded naturals. The 32-bit wrap of `freq_table` entries and of the merged frequency is not modelled: inputs have at most UINT_MAX bytes, so no frequency overflows.
- The `beg_pos`, `shift` and byte-count totals of `extract_files`, `delete_files`, `file_copy_block` and `concat_files` are unbounded naturals, with no 2^32 wrap. File counts are stored mod 2^32, as `write_num_of_files` does.
- The textbook bitwise CRC-32 is not proved equal to the table formula of `file_processing.c`.
- HuffmanCoding.ReadTree: on a stream holding no complete tree, `read_tree` recurses without bound until the stack overflows, because past the end every bit reads 0 and each 0 bit starts another internal node. The method requires a parsable tree below a ghost bit limit. DecodeFile, ExtractFiles, ExtractFromArchive and ExtractAll inherit this as a "decodable" precondition, and `ArchiveEdit.ExtractAllImage` proves it holds on every archive the program wrote.
- ArchiveFormat.ParseHeader: `read_header` on a truncated or malformed header reads short fields and carries on. A file shorter than 20 bytes is modelled with its missing field bytes as zero: with count 0 it reads back as an empty header, otherwise the header is `None`. The header is also `None` when a record is cut off by the end of the file or its name field holds no terminator. A length byte of 0, which a 255-byte name produces, gives an empty name field, so the model's header is `None` there, while `read_header` carries on with an unterminated name. Extraction and removal do nothing on a `None` header.
- Archiver.CompressFiles: requires `Addable`: every name at most 254 bytes with no zero byte, and every input at most UINT_MAX bytes. Longer names are the finding below.
- Archiver.CompressNext: requires `Addable`: every name at most 254 bytes with no zero byte, and every input at most UINT_MAX bytes. Longer names are the finding below.
- Archiver.AppendToArchive: requires `Addable`: every name at most 254 bytes with no zero byte, and every input at most UINT_MAX bytes. Longer names are the finding below.
- Archiver.GrowArchive: requires `Addable`: every name at most 254 bytes with no zero byte, and every input at most UINT_MAX bytes. Longer names are the finding below.
- Archiver.CompressOne: requires its name to be at most 254 bytes with no zero byte and its input at most UINT_MAX bytes, as `Addable` does for each file.
- Menu.Dispatch: for the add option only, requires `Addable` (names of at most 254 bytes with no zero byte, inputs of at most UINT_MAX bytes).
- Menu.OpenAndRun: for the add option only, requires `Addable` (names of at most 254 bytes with no zero byte, inputs of at most UINT_MAX bytes).
- Menu.ChoiceMenu: for the add option only, requires `Addable` (names of at most 254 bytes with no zero byte, inputs of at most UINT_MAX bytes).
- Archiver.EncodeInto: requires the input to be at most UINT_MAX bytes, so that no 32-bit frequency wraps.
- Archiver.EncodeBlock: requires the input to be at most UINT_MAX bytes, so that no 32-bit frequency wraps.
- HuffmanCoding.EncodeFile: requires the input to be at most UINT_MAX bytes, so that no 32-bit frequency wraps.
- HuffmanCoding.BuildCodes: requires the input to be at most UINT_MAX bytes, so that no 32-bit frequency wraps.
- HuffmanCoding.InputTree: requires the input to be at most UINT_MAX bytes, so that no 32-bit frequency wraps.
- Archiver.ExtractFiles: decoding reads from each block's start for `file_size` symbols and is not cut at `comp_size`, as in the code.
- Archiver.EncodeInto: the encoder writes through `InFile` / `OutFile` views holding the same bytes as the archive streams, not through the same object.
- The build of a Huffman tree of minimal weighted path length is not proved; only that the merge loop yields a full tree over the occurring symbols of the right weight and height.

## Findings

| source | as written | input that shows it | evidently intended | confidence | as-written member | corrected member |
|---|---|---|---|---|---|---|
| archiver.c:86-88 | the length byte is `strlen + 1` cut to `unsigned char`, and that many name bytes are written | a name of 255 bytes: the length byte is 0 and no name byte is written; `read_header` reads the entry back with no name, and the fields stay aligned | the record holds the whole name, so names are limited to 254 bytes | high (not executed) | ArchiveFormat.LongNameLost | ArchiveFormat.RecordAt |
