# Huffman archiver: a verified model of its coding core

This project models the core of a small Huffman archiver written in C++. The archiver
packs one or more files into a single bit stream. For every file it writes one entry:

- a header: a 9-bit symbol count K, K 9-bit symbols in canonical order, and one 9-bit count
  for each code length from 1 to the longest;
- the canonical codes of the filename's characters, then FILENAME_END (256);
- the codes of the file's bytes;
- ONE_MORE_FILE (257), or ARCHIVE_END (258) for the last file.

Entries follow one another with no byte alignment between them. Only the very end of the
archive is padded with zero bits to a whole byte.

The model follows the source file by file:

- `bits.dfy` (module `Bits`): bit sequences, most significant bit first, and their
  arithmetic. It has no counterpart in the source.
- `bit_handler.dfy` (module `BitHandler`): classes `BitReader`, `BitWriter` and `BitString`.
  Both 1024-slot buffers stay arrays. The reader's holds each byte as the signed `char`
  the source stores; the writer's holds plain bytes. The file behind a reader and the sink
  behind a writer become byte sequences.
- `priority_queue.dfy` (module `PriorityQueue`): a generic binary min-heap class over a
  comparator, with its sift loops.
- `trie.dfy` (module `Trie`), in two parts:
  - the encoder's tree: a datatype built by `MergeTries`, ordered by `TrieNodeLess`, with
    depths recorded by `DFS`;
  - the decoder's trie: class `CodeTrie`, an arena of nodes linked by index, grown by `Next`
    and `AddPath`.
- `canonical.dfy` (module `Canonical`): the canonical code assignment, meaning the sort on
  (length, symbol) and the code walk, and the facts about it. These include Kraft's
  inequality, codes fitting their lengths, and prefix-freedom.
- `format.dfy` (module `Format`): the sentinel and width constants and the bits of one entry
  (`EntryBits`). It is the reference definition both directions are proved against.
- `huffman_coding.dfy` (module `HuffmanCoding`): `EncodeFile` and `DecodeFile` with all their
  loops, as imperative methods.
  - `EncodeFile` appends exactly `EntryBits` to the writer's output.
  - The tree is the greedy Huffman merge of the counted frequencies (`Greedy`: the least
    tree, by frequency then symbol, merged with the least of the rest). So each entry's
    table (`HuffmanTable`) is a function of its file alone.
  - `DecodeFile`, given a stream that begins with `EntryBits` of some valid table, name and
    content, returns that name and content. It also reports whether the entry was the last
    one, and leaves the stream positioned just after the entry.
- `archiver.dfy` (module `Archiver`): the driver loop of `archiver.cpp`, which runs
  `EncodeFile` over several files with one writer and one register, and `DecodeFile` until
  ARCHIVE_END. `ArchiveRoundTrip` states the end-to-end round trip: decoding what the
  encoder wrote gives back every file, name and bytes, in order.

Two behaviours of the code at the edges of an archive are modelled as written:

- The last entry is always followed by `8 - len` zero bits and a written byte
  (`huffman_coding.h:72-73`). An archive whose bits already end on a byte boundary therefore
  gets one more, all-zero byte.
- The decoder has no framing-error path. It trusts the header and reads a byte past the end
  of a well-formed archive when the ARCHIVE_END code is already pending, so the decoder is
  specified only on well-formed input.

## Model

| member | source | states |
|---|---|---|
| `BitHandler.Signed` | bit_handler.h:48 | a byte as the signed `char` the buffer stores: in -128..127, negative exactly for bytes of 128 and above |
| `BitHandler.Unsigned` | bit_handler.h:19-23 | the conversion ReadNext applies to a buffer slot is the inverse of storing a byte as a signed `char` |
| `BitHandler.UnsignedSigned` | bit_handler.h:19-23 | reading back a stored byte gives the same byte 0..255 |
| `BitHandler.BitReader.constructor` | bit_handler.h:9-13 | a fresh reader has consumed nothing and has the whole source still to return |
| `BitHandler.BitReader.FillBuffer` | bit_handler.h:32-35 | the byte count is min(1024, bytes left in the stream); the buffer's first slots hold those bytes in order; the stream position advances by the count |
| `BitHandler.BitReader.ReadNext` | bit_handler.h:17-31 | while bytes remain, returns the next source byte (0..255) and drops it from what remains; refills the buffer transparently at 1024 |
| `BitHandler.BitReader.Reset` | bit_handler.h:36-40 | afterwards the reader returns the source again from its first byte |
| `BitHandler.BitReader.Empty` | bit_handler.h:41-43 | true exactly when every source byte has been returned |
| `BitHandler.BitWriter.constructor` | bit_handler.h:57-59 | a fresh writer has written nothing and is aligned |
| `BitHandler.BitWriter.WriteNext` | bit_handler.h:63-71 | the byte is appended to everything written; the sink receives the whole buffer exactly when the 1024th slot fills, and is untouched otherwise |
| `BitHandler.BitWriter.OutBuffer` | bit_handler.h:72-75 | the sink receives the staged bytes in order and the staged count drops to 0 |
| `BitHandler.BitWriter.Close` | bit_handler.h:80-83 | after closing, the sink holds every byte ever written, in order |
| `BitHandler.BitString.constructor` | bit_handler.h:95-97 | the register starts with the given length and value |
| `BitHandler.BitString.AddBits` | bit_handler.h:98-102 | length grows by n and value becomes old·2ⁿ + bits; the pending bits are the old ones followed by the n new bits; value < 2^length is kept |
| `BitHandler.BitString.GetBits` | bit_handler.h:103-109 | returns value >> (length − n), which is the n oldest pending bits read as a number; the value left is value mod 2^(length − n) and those bits leave the register |
| `BitHandler.BitString.AddThenGet` | bit_handler.h:98-109 | on an empty register, AddBits(n, b) then GetBits(n) returns b and leaves the register empty |
| `BitHandler.BitString.IsResidueFull` | bit_handler.h:110-112 | true exactly when at least n bits are pending |
| `BitHandler.BitString.GetLength` | bit_handler.h:113-115 | the number of pending bits |
| `BitHandler.BitString.Update` | bit_handler.h:116-122 | leaves fewer than 8 bits pending; the bytes written followed by the pending bits equal the old ones followed by the new bits |
| `BitHandler.DrainStep` | bit_handler.h:119-121 | writing the top 8 pending bits as a byte keeps "written bytes + pending bits" unchanged |
| `PriorityQueue.Swap` | priority_queue.h:36 | swapping two slots keeps the multiset and exchanges exactly those two slots |
| `PriorityQueue.RootIsMinimal` | priority_queue.h:21-23 | in a heap, no element is strictly less than the root |
| `PriorityQueue.RootIsMinimalInContents` | priority_queue.h:14-23 | no element of the heap's contents is strictly less than the root |
| `PriorityQueue.PriorityQueue.constructor` | priority_queue.h:8-9 | a new queue is empty and uses the given comparator, which must be a strict weak order |
| `PriorityQueue.PriorityQueue.Insert` | priority_queue.h:10-13 | the contents gain exactly the element, the size grows by 1 and the heap property holds again |
| `PriorityQueue.PriorityQueue.ExtractRoot` | priority_queue.h:14-20 | returns the old root, which no element is strictly less than; exactly that element leaves the contents; the size drops by 1; still a heap |
| `PriorityQueue.PriorityQueue.GetRoot` | priority_queue.h:21-23 | returns the element ExtractRoot would return, one that no element is strictly less than, and changes nothing |
| `PriorityQueue.PriorityQueue.Size` | priority_queue.h:24-26 | the number of elements held |
| `PriorityQueue.PriorityQueue.SiftUp` | priority_queue.h:32-42 | given a heap broken only at `position` upwards, restores the heap property and keeps the multiset |
| `PriorityQueue.PriorityQueue.SiftDown` | priority_queue.h:43-63 | given a heap broken only at `position` downwards, restores the heap property and keeps the multiset |
| `PriorityQueue.PriorityQueue.SiftDownStep` | priority_queue.h:44-61 | one round: either stops with a heap, or swaps with the smaller child and moves the fault strictly down; the multiset is kept |
| `PriorityQueue.RootReplaced` | priority_queue.h:15-17 | moving the last element to the root and popping removes exactly the root and leaves a heap broken only at 0 |
| `PriorityQueue.SwapUpKeeps` | priority_queue.h:33-37 | swapping a node less than its parent moves the fault to the parent |
| `PriorityQueue.ExceptDownAtLeaf` | priority_queue.h:47-49 | a fault at a node without children is no fault |
| `PriorityQueue.MinChildIsMinimal` | priority_queue.h:51-55 | the chosen child is one that no other child of the node is strictly less than |
| `PriorityQueue.StopDownKeeps` | priority_queue.h:57-58 | a node strictly less than its smaller child leaves a heap |
| `PriorityQueue.SwapDownKeeps` | priority_queue.h:60-61 | swapping with the smaller child moves the fault to that child |
| `Trie.GetEdgeIsBit` | trie.h:8-10 | GetEdge(path, i) is Right exactly when bit i of path is 1, which is bit n−1−i of its n-bit code read from the top |
| `Trie.MergeTries` | trie.h:59-65 | a non-terminal node with left = first and right = second; frequency is the sum, symbol the smaller, and its leaves are both trees' leaves |
| `Trie.WellFormedFields` | trie.h:59-65 | in a tree built by MergeTries, every node's symbol is its least leaf symbol and its frequency the sum over its leaves |
| `Trie.TrieNodeLessOrder` | trie.h:67-72 | TrieNodeLess is a strict weak order (frequency first, then symbol), total on nodes whose (frequency, symbol) differ |
| `Trie.TrieNodeGreaterOrder` | trie.h:74-79 | despite its name, TrieNodeGreater is the strict ascending order on (length, symbol), total on distinct entries |
| `Trie.DFS` | trie.h:81-93 | adds to the map, for every terminal node below, its distance from the root, and nothing for inner nodes |
| `Trie.DepthsAtLeast` | trie.h:81-93 | every recorded distance is at least the starting distance |
| `Trie.DepthsKeys` | trie.h:81-93 | DFS records a length for exactly the tree's leaf symbols |
| `Trie.DepthsOfEntries` | trie.h:81-93 | with distinct leaves, the recorded symbols are exactly the leaves, each with its depth |
| `Trie.TreeKraft` | trie.h:59-65 | the leaf depths of a tree built from MergeTries fill Kraft's sum exactly: Σ 2^(L − depth) = 2^(L − d) |
| `Trie.CodeTrie.constructor` | huffman_coding.h:126 | a new trie is one non-terminal root and holds no codes |
| `Trie.CodeTrie.Next` | trie.h:26-34 | an existing child is returned with the trie unchanged; a missing one is created fresh and non-terminal, and the node's other child is untouched |
| `Trie.CodeTrie.AddPath` | trie.h:95-101 | walking the path's bits from bit path_len−1 down to 0 from the root reaches a terminal node carrying the symbol; the trie's code map gains exactly that code |
| `Trie.GrowKeepsInvariant` | trie.h:26-34 | creating a child keeps every node's path and the codes already added |
| `Trie.MarkKeepsInvariant` | trie.h:99-100 | marking the path's last node terminal adds exactly that code |
| `Trie.CodeStep` | huffman_coding.h:141-155 | in a prefix-free trie, following a code's bits visits only non-terminal nodes until its last bit, which reaches the node carrying its symbol |
| `Canonical.InsertSorted` | huffman_coding.h:189 | insertion into a sorted sequence keeps it sorted and adds exactly the element |
| `Canonical.SortEntries` | huffman_coding.h:189 | the result is sorted by TrieNodeGreater and is a permutation of the input |
| `Canonical.SortedUnique` | huffman_coding.h:116 | two sorted permutations of the same entries are equal, so the decoder's sort and the encoder's sort agree |
| `Canonical.SortPermutation` | huffman_coding.h:189 | the sorted order depends only on which entries there are, not on the order they come in |
| `Canonical.CanonicalStep` | huffman_coding.h:190-197 | the first code is 0 and each next code is (previous + 1) shifted left by the increase in length |
| `Canonical.CanonicalCodesFit` | huffman_coding.h:190-197 | on a valid table every code is below 2^length |
| `Canonical.CanonicalPrefixFree` | huffman_coding.h:190-197 | on a valid table no code word is a prefix of another |
| `Canonical.LaterCodeAbove` | huffman_coding.h:190-197 | a later code lies at or above the earlier code plus 1, shifted to its length |
| `Canonical.KraftSumPermutation` | huffman_coding.h:189 | Kraft's sum does not depend on the order of the entries |
| `Canonical.TreeTable` | huffman_coding.h:169-198 | the Huffman tree's leaf depths, in canonical order, form a valid table whose Kraft sum is exactly full |
| `Format.SymbolFields` | huffman_coding.h:46-48 | the symbol list takes 9 bits per symbol |
| `Format.CodeBookEntries` | huffman_coding.h:187-198 | the code book maps each table symbol to its canonical code word and holds nothing else |
| `Format.WordMapPrefixFree` | huffman_coding.h:126-129 | the decoder's word-to-symbol map is prefix-free |
| `Format.BookInWordMap` | huffman_coding.h:126-129 | every symbol's code word, of length at least 1, maps back to that symbol |
| `Format.NameSymbols` | huffman_coding.h:61-63 | the filename is coded character by character as symbols 0..127 |
| `Format.FileSymbols` | huffman_coding.h:61-78 | an entry codes one symbol per name character and per byte, plus FILENAME_END and one terminator |
| `Format.FileSymbolsInAlphabet` | huffman_coding.h:32-38 | every coded symbol is a name character, a content byte or one of the three sentinels |
| `Format.AlphabetBound` | huffman_coding.h:32-38 | with 7-bit names, an entry has between 3 and 259 symbols, all in 0..258 |
| `Format.EncodeFileSymbols` | huffman_coding.h:61-78 | the coded symbols split into the name's codes, FILENAME_END's code, the bytes' codes and the terminator's code |
| `Format.SortedBelow` | huffman_coding.h:101-114 | in canonical order, the entries shorter than l are exactly the first Below(l) |
| `Format.LengthCountPermutation` | huffman_coding.h:55-57 | the number of codes of each length does not depend on the order the lengths are visited |
| `Format.BookEmitted` | huffman_coding.h:61-68 | the length and code maps filled by the encoder emit exactly the code book's words |
| `HuffmanCoding.TallyCounts` | huffman_coding.h:163-168 | counting gives each symbol its old count plus its occurrences, and adds no other key |
| `HuffmanCoding.CountFrequencies` | huffman_coding.h:163-168 | reads the file to its end and adds every byte's occurrence count to the table |
| `HuffmanCoding.CountByte` | huffman_coding.h:164-167 | one round: one more byte is read and counted |
| `HuffmanCoding.EntryKeys` | huffman_coding.h:32-38 | the final table's symbols are the bytes, the name's characters and the three sentinels |
| `HuffmanCoding.EntryCounts` | huffman_coding.h:32-38 | each sentinel counts 1, and every other symbol counts its occurrences in the bytes plus in the name |
| `HuffmanCoding.CountName` | huffman_coding.h:36-38 | adds every filename character's occurrence count |
| `HuffmanCoding.CountSymbols` | huffman_coding.h:32-38 | the frequency table is the byte counts, then the sentinels set to 1, then the name's characters added |
| `HuffmanCoding.Planted` | huffman_coding.h:172-176 | the leaves planted for a frequency table include a leaf carrying each symbol with its frequency, and there is one when the table is not empty |
| `HuffmanCoding.PlantedStep` | huffman_coding.h:173-175 | planting one more symbol adds exactly its leaf, with that symbol's frequency |
| `HuffmanCoding.PlantingStep` | huffman_coding.h:172-176 | queueing the leaf of one more unvisited symbol keeps the loop's record: the queue holds exactly the visited symbols' leaves, and trie_nodes lists those symbols once each |
| `HuffmanCoding.PlantLeaves` | huffman_coding.h:172-176 | one leaf per table symbol goes into the queue and into trie_nodes, each symbol once; the queue then holds exactly the leaves carrying each symbol with its frequency, whatever order the map is visited in |
| `HuffmanCoding.LeafAdded` | huffman_coding.h:173-175 | inserting a leaf keeps the queue a forest of well-formed trees whose leaves are the symbols planted so far |
| `HuffmanCoding.MergeKeepsForest` | huffman_coding.h:178-181 | replacing the two extracted trees by their merge keeps the trees well formed and the leaves the same |
| `HuffmanCoding.LeastExists` | huffman_coding.h:178-179 | every non-empty forest has a least tree under TrieNodeLess |
| `HuffmanCoding.LeastUnique` | huffman_coding.h:178-179 | when no two trees share a symbol, the least tree is unique, so the tree ExtractRoot returns is the greedy choice |
| `HuffmanCoding.ForestApart` | huffman_coding.h:177-182 | in a queue of well-formed trees over distinct symbols, no two trees share a symbol |
| `HuffmanCoding.GreedyStep` | huffman_coding.h:178-181 | merging the least tree with the least of the rest leaves the final greedy tree unchanged |
| `HuffmanCoding.GreedyOne` | huffman_coding.h:177 | a forest of one tree is already merged: that tree is the result |
| `HuffmanCoding.MergeRound` | huffman_coding.h:178-181 | one round of the loop: one tree fewer, the same leaves, and the same final greedy tree |
| `HuffmanCoding.MergeLeast` | huffman_coding.h:177-182 | the merge loop ends with exactly one tree in the queue, holding every leaf, and that tree is the greedy merge of the forest it started from |
| `HuffmanCoding.LastTree` | huffman_coding.h:184 | the remaining tree holds every symbol as a leaf, and has an inner root when there are several symbols |
| `HuffmanCoding.DepthKeys` | huffman_coding.h:184-185 | DFS from the root gives a length to exactly the planted symbols |
| `HuffmanCoding.SetCodeLengths` | huffman_coding.h:169-186 | the tree is the greedy merge of the leaves planted from the frequencies, so it depends on the frequencies alone; each symbol's code length is its leaf's depth in it, for exactly the table's symbols |
| `HuffmanCoding.CanonicalWalk` | huffman_coding.h:190-197 | gives each entry its canonical code and no other symbol a code |
| `HuffmanCoding.SetCodes` | huffman_coding.h:187-198 | sorts the leaves by (length, symbol) and gives each its canonical code; a code exists for exactly the table's symbols |
| `HuffmanCoding.PutField` | huffman_coding.h:44 | appends the value as one 9-bit field |
| `HuffmanCoding.WriteSymbols` | huffman_coding.h:46-48 | appends the symbols in canonical order, 9 bits each |
| `HuffmanCoding.LongestCode` | huffman_coding.h:49-53 | returns the longest code length |
| `HuffmanCoding.CountLengths` | huffman_coding.h:54-57 | in any visiting order of the map, slot l counts the codes of length l |
| `HuffmanCoding.WriteCounts` | huffman_coding.h:58-60 | appends the counts of lengths 1..max, 9 bits each |
| `HuffmanCoding.WriteHeader` | huffman_coding.h:43-60 | appends exactly the header: K, the K symbols and the length counts |
| `HuffmanCoding.PutCode` | huffman_coding.h:62 | appends the symbol's code word |
| `HuffmanCoding.WriteName` | huffman_coding.h:61-63 | appends the code words of the filename's characters |
| `HuffmanCoding.WriteContent` | huffman_coding.h:65-68 | reads the file to its end and appends every byte's code word, in order |
| `HuffmanCoding.WriteByte` | huffman_coding.h:66-67 | one round: one more byte is read and coded, and the output plus the codes still to come stay the same |
| `HuffmanCoding.WriteFileSymbols` | huffman_coding.h:61-78 | appends the codes of the name, FILENAME_END, the bytes and the terminator |
| `HuffmanCoding.FlushLast` | huffman_coding.h:72-75 | pads the pending bits with zeros to a byte, writes it and flushes; the sink then holds all the output bits followed by 8 − len zero bits |
| `HuffmanCoding.PadByte` | huffman_coding.h:72-73 | the byte taken out is the pending bits followed by 8 − len zeros, and the register is then empty |
| `HuffmanCoding.PadLast` | huffman_coding.h:72-73 | writing that byte appends exactly the pending bits and the zero padding |
| `HuffmanCoding.FinishEntry` | huffman_coding.h:69-78 | a middle entry leaves the output unchanged; the last entry pads to a whole byte (a full zero byte when already aligned) and flushes everything |
| `HuffmanCoding.CanonicalTable` | huffman_coding.h:187-198 | the table is the tree's leaves with their depths, sorted into canonical order, whatever order trie_nodes had; it is valid with full Kraft sum, and the maps' code book holds exactly the planted symbols |
| `HuffmanCoding.BuildCodes` | huffman_coding.h:39-40 | the table is the Huffman table of the frequencies (greedy tree, canonical order): valid, with full Kraft sum, and its code book covers exactly the frequency table's symbols |
| `HuffmanCoding.AlphabetCovered` | huffman_coding.h:32-40 | a table coding exactly the entry's alphabet codes every symbol the entry writes |
| `HuffmanCoding.PrepareCodes` | huffman_coding.h:32-40 | the table is the Huffman table of the entry's counted frequencies; it is valid and full, and its code book holds exactly the entry's alphabet |
| `HuffmanCoding.WriteEntry` | huffman_coding.h:42-68 | appends the header and the codes of the name, FILENAME_END and the bytes, plus the terminator, which is exactly the entry's bits |
| `HuffmanCoding.WriteCoded` | huffman_coding.h:42-78 | a middle entry appends exactly its bits; the last entry's bits are followed by zero padding to a whole byte and everything reaches the sink |
| `HuffmanCoding.EncodeFile` | huffman_coding.h:25-79 | the table is the Huffman table of the entry's own counts, valid with full Kraft sum, coding exactly the alphabet; a middle file appends exactly its entry's bits; the last file's entry is followed by zero padding, and the sink then holds every bit |
| `HuffmanCoding.Feed` | huffman_coding.h:82-83 | one byte moves from the reader into the register, and the expected bits are still ahead |
| `HuffmanCoding.ReadField` | huffman_coding.h:82-88 | returns the next 9 expected bits as a number and leaves the bits after them available |
| `HuffmanCoding.Take` | huffman_coding.h:88 | GetBits(n) returns the next n expected bits as a number |
| `HuffmanCoding.ReadValue` | huffman_coding.h:90-97 | returns the 9-bit field the encoder wrote |
| `HuffmanCoding.ReadSymbols` | huffman_coding.h:89-99 | reads the K symbols, in order, each with length −1 |
| `HuffmanCoding.ReadSymbol` | huffman_coding.h:91-98 | round i returns the encoder's i-th symbol and leaves the fields after it |
| `HuffmanCoding.SetLengths` | huffman_coding.h:110-112 | sets the length of a run of slots and leaves every other slot and every symbol alone |
| `HuffmanCoding.LengthRun` | huffman_coding.h:101-114 | in canonical order the entries of length l are exactly the slots from Below(l) to Below(l + 1), a run as long as the count for l |
| `HuffmanCoding.ReadCount` | huffman_coding.h:103-109 | returns the number of codes of the current length |
| `HuffmanCoding.SetRun` | huffman_coding.h:109-113 | after a length's run, every slot below the new index carries its encoder length |
| `HuffmanCoding.ReadLengths` | huffman_coding.h:101-114 | rebuilds exactly the encoder's (symbol, length) table |
| `HuffmanCoding.ReadRuns` | huffman_coding.h:102-114 | the run loop stops with every slot given its encoder length and the count fields read up to the stopping length |
| `HuffmanCoding.HeaderFields` | huffman_coding.h:43-60 | the header is K, then the symbol fields, then the count fields for lengths 1..max |
| `HuffmanCoding.ReadHeader` | huffman_coding.h:82-114 | reads back exactly the encoder's table and leaves the bits after the header |
| `HuffmanCoding.BuildTrie` | huffman_coding.h:126-129 | the trie holds exactly the table's canonical code words, each leading to its symbol |
| `HuffmanCoding.StepBit` | huffman_coding.h:142-143 | following the next bit of a code word reaches the node for that longer prefix, terminal exactly at the word's end and then carrying its symbol |
| `HuffmanCoding.TableReadsBook` | huffman_coding.h:116-129 | the decoder's word map reads every word of the encoder's code book back to its symbol, and is prefix-free |
| `HuffmanCoding.TableTrie` | huffman_coding.h:116-129 | the sort, code walk and AddPath loop build a trie that reads the table's code book |
| `HuffmanCoding.DecodeTrie` | huffman_coding.h:82-129 | reads the header and builds a trie reading exactly the encoder's code book |
| `HuffmanCoding.DecodeBit` | huffman_coding.h:141-155 | one bit moves one step along the current code; a terminal node is reached exactly at the code's end and carries the expected symbol |
| `HuffmanCoding.NameCode` | huffman_coding.h:61-64 | the name's symbols followed by FILENAME_END |
| `HuffmanCoding.NameStep` | huffman_coding.h:208-215 | a decoded symbol is FILENAME_END exactly at the name's end; otherwise appending it extends the name read so far |
| `HuffmanCoding.NameBit` | huffman_coding.h:206-215 | one bit advances the filename decoder; at FILENAME_END the name read is the whole name and exactly the following bits remain |
| `HuffmanCoding.NameBits` | huffman_coding.h:205-217 | the inner loop consumes at least one expected bit and keeps the filename decoder's state, ending at FILENAME_END with the whole name |
| `HuffmanCoding.NameRound` | huffman_coding.h:203-217 | one byte of bits advances the filename decoder, consuming at least one expected bit |
| `HuffmanCoding.GetFilename` | huffman_coding.h:199-219 | returns exactly the symbols before FILENAME_END and leaves the bits after its code pending |
| `HuffmanCoding.ContentCode` | huffman_coding.h:65-78 | the bytes followed by ARCHIVE_END for the last file and ONE_MORE_FILE otherwise |
| `HuffmanCoding.ContentStep` | huffman_coding.h:146-153 | ARCHIVE_END is decoded exactly at the last file's end, ONE_MORE_FILE exactly at another file's end, and any other symbol is the next byte |
| `HuffmanCoding.Emit` | huffman_coding.h:144-155 | a decoded byte is written; a sentinel ends the file and reports whether it ended the archive |
| `HuffmanCoding.ContentBit` | huffman_coding.h:142-155 | one bit advances the content decoder; at the terminator every byte has been written and exactly the following bits remain |
| `HuffmanCoding.ContentBits` | huffman_coding.h:141-156 | the inner loop consumes at least one expected bit and keeps the content decoder's state, the bytes written so far a prefix of the file |
| `HuffmanCoding.ContentRound` | huffman_coding.h:139-156 | one byte of bits advances the content decoder, consuming at least one expected bit |
| `HuffmanCoding.ContentLoop` | huffman_coding.h:138-157 | writes exactly the file's bytes and stops at its terminator, reporting ARCHIVE_END |
| `HuffmanCoding.DecodeContents` | huffman_coding.h:135-158 | the output file receives exactly the bytes and is flushed |
| `HuffmanCoding.DecodePayload` | huffman_coding.h:133-159 | returns exactly the file's bytes and true exactly for the last entry |
| `HuffmanCoding.EntrySplit` | huffman_coding.h:43-78 | an entry's bits are the header, the name's codes with FILENAME_END, then the bytes' codes with the terminator |
| `HuffmanCoding.DecodeFile` | huffman_coding.h:81-160 | on a stream starting with an entry's bits, returns its name and bytes, returns true exactly for the last entry, and leaves the stream just after the entry |
| `Archiver.FilesOf` | archiver.cpp:25-32 | the files an archive's entries stand for, one per entry in order |
| `Archiver.FilesOfArchived` | archiver.cpp:25-32 | the files the archive's entries stand for are the input files themselves, in order |
| `Archiver.ChainAppend` | archiver.cpp:25-33 | appending a file's entry after entries that are not last appends its bits to the archive's bits |
| `Archiver.EncodeOne` | archiver.cpp:26-32 | one file's entry, coded with the Huffman table of the file's own counts, is appended on the shared writer and register |
| `Archiver.EncodeArchive` | archiver.cpp:21-33 | the archive is the bits of every file's entry in order, each coded with the Huffman table of its own counts and only the last marked last, followed by the final zero padding; no files give an empty archive |
| `Archiver.DecodeOne` | archiver.cpp:39 | one DecodeFile call returns the next entry's file and reports whether it was the last |
| `Archiver.DecodeArchive` | archiver.cpp:34-40 | decoding until ARCHIVE_END returns every entry's file, in order |
| `Archiver.ArchiveRoundTrip` | archiver.cpp:21-40 | decoding the archive written for a list of files gives back exactly those files: names and bytes, in order |

## Left out

- File I/O: opening, reading, writing and closing streams. The reader's file is a byte
  sequence, the writer's sink a byte sequence, and DecodeFile's output file is returned as
  `contents`. The 1024-byte buffer staging logic is kept.
- Fixed-width integers: the `int16_t` and `int32_t` fields and codes and the `int64_t`
  register are unbounded integers. The source overflows for codes longer than 31 bits and
  for registers holding more than 63 bits, which the model does not capture.
- Filenames with characters of 128 and above: the source turns them into negative map keys.
  `EncodeFile`, `DecodeFile` and the archive members require 7-bit names.
- Iteration order of `unordered_map`: `PlantLeaves` and `CountLengths` visit the keys in an
  arbitrary order chosen with `:|`, and the order of `trieNodes` follows that choice. What is
  built from them does not depend on it. The queue holds the same leaves (`PlantLeaves`),
  the tree is their greedy merge (`SetCodeLengths`), the table is its sorted leaf depths
  (`CanonicalTable`), and the length counts do not depend on order
  (`Format.LengthCountPermutation`).
- `shared_ptr` ownership and aliasing: the encoder's tree is a datatype, and the decoder's
  trie is an index arena inside one class.
- `code_length_`, the field DFS writes into each node, is read back through the code-length
  map, which holds the same value.
- Malformed archives: `DecodeFile` and `DecodeArchive` require a stream that begins with
  well-formed entries. The source has no error handling there.
- BitHandler.BitReader.ReadNext: past the end of the source, the byte returned is left
  unspecified. The source then reads a stale buffer slot.
- BitHandler.BitWriter.WriteNext: requires that no flush has happened in the middle of the
  buffer. OutBuffer does not reset the write index, so later writes would land after a gap.
  The codec only flushes at the very end.
- Archiver.DecodeArchive: requires at least one entry. `EncodeArchive` writes an empty
  archive for an empty list of files, but `DecodeFile` reads a first byte unconditionally
  (`huffman_coding.h:82`), so the source's decoder reads past the end of such an archive.
- Archiver.ArchiveRoundTrip: requires at least one file, for the same reason.
- Command-line parsing and help text (`arg_parser.h` and the option handling in
  `archiver.cpp`). Only the two driver loops of `archiver.cpp` are modelled.
