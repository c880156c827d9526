# Huffman encoder — a verified Dafny model

This project models the Huffman encoder in `Compress/compress.cpp` and proves
properties of it. The encoder has four parts:

- **`BinaryOut`.** A bit writer that packs bits into an 8-bit buffer, most
  significant bit first. It emits a byte whenever 8 bits have accumulated,
  writes 32-bit unsigned integers big-endian, and zero-pads the last partial
  byte on `close`.
- **`buildTrie`.** Builds the Huffman trie. It seeds a min-priority queue
  ordered by frequency with one leaf per symbol, then repeatedly merges the
  two lightest trees.
- **`buildTable` and `writeTrie`.** `buildTable` gives each symbol the
  root-to-leaf path of its leaf as its code, left = 0 and right = 1.
  `writeTrie` serialises the trie in preorder.
- **`compress`.** Counts the byte frequencies and builds the trie and the
  table. It then writes, in order, the trie, the input length as a 32-bit
  number and the code of every input byte, and closes the writer.

The modules follow that structure:

| module | file | content |
|---|---|---|
| `Bits` | `Bits.dfy` | bit strings, bytes, powers of two, the big-endian layout, the writer's buffer arithmetic |
| `BitWriter` | `BinaryOut.dfy` | the class `BinaryOut` |
| `HuffmanTrie` | `HuffmanTrie.dfy` | the `Node` datatype, the priority queue as a sequence, `BuildTrie` |
| `CodeTable` | `CodeTable.dfy` | `BuildTable`, root-to-leaf paths, prefix-freeness |
| `TrieEncoding` | `TrieEncoding.dfy` | the preorder bits, a preorder parser, `WriteTrie` |
| `Compression` | `Compression.dfy` | frequencies, the payload, `Compress`, a decoder for the container |
| `Wrappers` | `Wrappers.dfy` | `Option` |

How the model represents the source:

- **The writer's state.** `BinaryOut` is a class with the source's fields:
  `buffer` (a `Byte`), `n`, and the output stream as a sequence of bytes
  `out`. A ghost field `written` records every bit written so far.
- **The writer's invariant.** `Valid()` states that the emitted bytes, as
  bits, followed by the `n` pending low bits of `buffer`, are exactly
  `written`, with `0 <= n < 8`. Every method keeps it.
- **Bits and codes.** A bit is a `bool`. A code is a `seq<bool>` rather than
  a string of `'0'` and `'1'` characters.
- **Trees.** The trie is an immutable datatype,
  `Leaf(sym, freq) | Internal(freq, left, right)`.
- **The priority queue.** It is a sequence. Extract-min removes the first
  tree of least weight.
- **The greedy shape.** Merging the two lightest trees each time leaves a
  trace in the trie. The two children of every internal node weigh at least
  as much as every node below them. The children's weights of two different
  internal nodes never interleave. `Greedy` states this. From it follows that
  a more frequent symbol never sits deeper than a less frequent one.

## Model

| member | source | states |
|---|---|---|
| BitWriter.BinaryOut.constructor | Compress/compress.cpp:80 | a new writer has nothing pending and has emitted nothing |
| BitWriter.BinaryOut.WriteBit | Compress/compress.cpp:45-52 | appends the bit to the bits written; keeps emitted bits + pending bits == bits written with 0 <= n < 8; emits nothing before the 8th pending bit; when it arrives, emits exactly the byte (buffer << 1 \| x) & 0xff, after which n is 0 |
| BitWriter.BinaryOut.WriteByte | Compress/compress.cpp:54-66 | both paths append the 8 bits of x, most significant first, and leave n unchanged; at a byte boundary the direct path appends x itself to the stream |
| BitWriter.BinaryOut.WriteUnsignedInt | Compress/compress.cpp:90-96 | appends the bits of the 4 big-endian bytes of x; at a byte boundary the stream grows by exactly those bytes |
| BitWriter.BinaryOut.ClearBuffer | Compress/compress.cpp:68-77 | with nothing pending, changes nothing; otherwise emits the pending bits shifted to the top of one byte, zero-padded on the right; afterwards n == 0 and buffer == 0 |
| BitWriter.BinaryOut.Close | Compress/compress.cpp:98-100 | the bits written become a whole number of bytes by zero padding, and the stream holds exactly ceil(bits / 8) bytes; on a closed writer it changes nothing, so a second close is a no-op |
| BitWriter.WrittenDeterminesState | Compress/compress.cpp:54-66 | two writers that took the same bits have the same stream, buffer and count; so the direct path of writeByte cannot be told apart from eight writeBit calls |
| Bits.PushBit | Compress/compress.cpp:47-48 | shifting a buffer of n < 8 pending bits left within the byte and setting bit 0 to x appends x to the pending bits, and nothing is lost to truncation |
| Bits.PushKeeps | Compress/compress.cpp:45-50 | after the shift and the new bit, the emitted bits followed by the n + 1 pending bits are the bits written plus x |
| Bits.ByteBitsStep | Compress/compress.cpp:61-63 | step i of the loop writes bit (x >> (8 - i - 1)) & 1, the next bit of x from the top |
| Bits.PadPending | Compress/compress.cpp:72 | `buffer <<= (8 - n)` on an unsigned char holds the n pending bits on top and 8 - n zeros below |
| Bits.PadFullByte | Compress/compress.cpp:51 | a full buffer is emitted unchanged |
| Bits.FlushPending | Compress/compress.cpp:72-73 | emitting the shifted buffer appends the pending bits and then the zero padding to the emitted bits |
| Bits.BigEndianShifts | Compress/compress.cpp:92-95 | the four bytes are (x >> 24) & 0xff, (x >> 16) & 0xff, (x >> 8) & 0xff and x & 0xff, in that order |
| Bits.BigEndianExample | Compress/compress.cpp:90-96 | 0x01020304 is written as the bytes 1, 2, 3, 4 |
| Bits.FromBigEndianOfBytes | Compress/compress.cpp:90-96 | the four bytes, read back most significant first, give x |
| Bits.BigEndianOfValue | Compress/compress.cpp:90-96 | every four bytes are the big-endian bytes of exactly one 32-bit value |
| Bits.ValueOfBigEndian | Compress/compress.cpp:193-194 | the 32 bits of the length field, read most significant first, are the length |
| Bits.PaddingIsZero | Compress/compress.cpp:71-72 | every padding bit is 0 |
| HuffmanTrie.LeavesOfFullTree | Compress/compress.cpp:105-118 | every internal node has two children, so a trie has one more leaf than internal nodes |
| HuffmanTrie.RootWeight | Compress/compress.cpp:145 | when each internal node weighs its children's sum, the root weighs the sum of the leaf frequencies |
| HuffmanTrie.MinIndexIsMin | Compress/compress.cpp:122-126 | the extracted tree is of least weight: no tree of the queue is lighter |
| HuffmanTrie.SeededQueue | Compress/compress.cpp:134-137 | after seeding, the queue holds one leaf per symbol of the table, weighs the total frequency and has no internal node |
| HuffmanTrie.MergeKeeps | Compress/compress.cpp:140-146 | one merge of the two lightest trees keeps each symbol at exactly one leaf of the forest and the total weight; the queue shrinks by one and the forest gains one internal node |
| HuffmanTrie.LastTree | Compress/compress.cpp:147-149 | the last tree holds the whole table |
| HuffmanTrie.MergeKeepsGreedy | Compress/compress.cpp:140-146 | merging the two lightest trees keeps the queue in the greedy shape: every tree layered and of weight at least 0, the sibling weights of any two trees apart, no node below a root heavier than any root |
| HuffmanTrie.DeeperWhenLighter | Compress/compress.cpp:140-146 | in a trie of the greedy shape a lighter node lies at least as deep as a heavier one |
| HuffmanTrie.BuildTrie | Compress/compress.cpp:133-150 | on a non-empty table: the leaves carry exactly the table's symbols, each once, with the table's frequency; each internal node weighs the sum of its children, the left one no heavier; the root weighs the total frequency; there are \|table\| - 1 internal nodes, one per merge; with no negative frequency, the trie has the greedy shape the two-lightest merges leave (siblings merged later weigh at least as much as every node below them, and sibling pairs never interleave) |
| CodeTable.BuildTable | Compress/compress.cpp:152-160 | the table gains an entry for exactly the leaf symbols of the subtree |
| CodeTable.BuildTableEntries | Compress/compress.cpp:152-160 | when no symbol repeats, a leaf's entry is the code so far followed by the path from the subtree's root to that leaf |
| CodeTable.BuildTableKeeps | Compress/compress.cpp:152-160 | entries of symbols outside the subtree are left as they were |
| CodeTable.CodesOf | Compress/compress.cpp:186-187 | the table built from the root with the empty code has one entry per leaf symbol |
| CodeTable.CodesArePaths | Compress/compress.cpp:152-160 | in a trie without repeated symbols, s has code p exactly when p is the path from the root to s's leaf; so the code's length is the leaf's depth |
| CodeTable.CodesPrefixFree | Compress/compress.cpp:184-187 | no code is a prefix of the code of another symbol |
| CodeTable.LeadsToPrefixFree | Compress/compress.cpp:152-160 | a root-to-leaf path that begins with another root-to-leaf path is that same path, to the same leaf |
| CodeTable.FrequentSymbolShorterCode | Compress/compress.cpp:184-187 | in a trie of the greedy shape, a symbol more frequent than another gets a code no longer than the other's |
| CodeTable.SingleLeafCode | Compress/compress.cpp:152-155 | a trie that is a single leaf gives its symbol the empty code |
| TrieEncoding.TrieBits | Compress/compress.cpp:162-173 | the preorder encoding of a trie has 9 * leaves + internal nodes bits |
| TrieEncoding.ParseTrieBits | Compress/compress.cpp:162-173 | a preorder parser reads back the trie's shape and leaf symbols from the encoding, whatever follows it |
| TrieEncoding.WriteTrie | Compress/compress.cpp:162-173 | writes exactly the preorder encoding of the trie |
| Compression.FrequenciesCount | Compress/compress.cpp:176-179 | a byte has a frequency exactly when it occurs in the input, and the frequency is its number of occurrences |
| Compression.FrequenciesKeys | Compress/compress.cpp:176-179 | the table's symbols are exactly the input's bytes |
| Compression.FrequenciesPositive | Compress/compress.cpp:176-179 | every counted frequency is at least 1 |
| Compression.FrequenciesTotal | Compress/compress.cpp:176-179 | the frequencies sum to the input length |
| Compression.PayloadSnoc | Compress/compress.cpp:197-205 | one more input byte appends its code to the payload |
| Compression.PayloadLength | Compress/compress.cpp:197-205 | the payload has the sum over symbols c of freq[c] * \|code(c)\| bits |
| Compression.LengthField | Compress/compress.cpp:193 | the length field is the input length modulo 2^32, equal to it for inputs under 2^32 bytes |
| Compression.ContainerLength | Compress/compress.cpp:189-205 | the output has 9 * leaves + internal nodes + 32 + the sum of freq[c] * \|code(c)\| bits before padding |
| Compression.WriteCode | Compress/compress.cpp:198-204 | writes the bits of one code in order |
| Compression.WritePayload | Compress/compress.cpp:196-205 | writes the codes of the input bytes in input order |
| Compression.Compress | Compress/compress.cpp:175-208 | the trie's leaves carry exactly the input's bytes, each once, the root weighs the input length and the trie has the greedy shape; the writer receives the trie encoding, then the 32-bit length, then the codes in input order, zero-padded to whole bytes; the stream grows to ceil(total bits / 8) bytes |
| Compression.FrequentBytesShorterCodes | Compress/compress.cpp:184-187 | of two input bytes, the one that occurs more often gets a code no longer than the other's |
| Compression.DecodePath | Compress/compress.cpp:152-160 | following a code from the root reaches its leaf and consumes exactly the code |
| Compression.DecodePayload | Compress/compress.cpp:196-205 | the payload of the input decodes back to the input, one code at a time |
| Compression.DecodeBodyOf | Compress/compress.cpp:192-205 | the length field followed by the payload decodes to the input |
| Compression.OnceEach | Compress/compress.cpp:133-150 | a trie with each input byte at exactly one leaf has no repeated symbol and holds every input byte |
| Compression.ContainerDecodes | Compress/compress.cpp:175-208 | for an input under 2^32 bytes and a trie with each input byte at exactly one leaf, the container decodes to the input whatever padding follows |
| Compression.CompressToStream | Compress/compress.cpp:175-208 | compressing a non-empty input under 2^32 bytes onto a fresh stream gives bytes that decode back to the input |

## Left out

- `main`, the console messages and the file I/O. The model's input is the
  byte sequence `bytes`. The model's output stream is the field `out` of
  `BinaryOut`.
- The ghost decoder (`DecodeContainer` and its parts). The source has no
  decoder. `Decompress/decompress.cpp` and `check.py` are not part of this
  model. The decoder exists only to state that the output can be read back.
- Heap ownership of `new Node` and its leaks. The trie is an immutable
  datatype.
- Frequency table order. The source seeds the queue in the iteration order
  of an `unordered_map`, which is unspecified. The model seeds it in
  ascending symbol order.
- Queue ties. Among equally light trees, `priority_queue` pops one in an
  unspecified order. The model pops the first one in the sequence.
- What the ties affect. Both choices above can change which tree becomes
  the left child and so change the codes. No property proved here depends
  on either choice.
- Symbol representation. The source stores symbols as `char`, which may be
  signed. The model treats every symbol as an unsigned byte 0..255, the bit
  pattern `writeByte` emits.
- Internal nodes' symbol. The source gives internal nodes the symbol 0,
  which nothing reads. The model drops it.
- Codes. The source builds codes as strings of `'0'`/`'1'` characters. The
  model builds them as sequences of bits.
- `Compress`: the model does not bound frequencies or lengths to the
  source's 32-bit `int`. With inputs over 2^31 - 1 bytes the source's
  counts would overflow. The length field is modelled as the source's
  cast modulo 2^32.
- `Compress` requires a non-empty input. With an empty input the source's
  `buildTrie` calls `top()` on an empty queue, which is undefined behaviour.
- `BuildTrie` requires a non-empty table for the same reason.
- `BuildTrie`: the greedy shape is promised only for tables without negative
  frequencies. The source's tables are counts, which are at least 1. With
  negative weights a merged tree can weigh less than its children.
- `CodeTable.FrequentSymbolShorterCode`: codes are compared only for
  symbols of different frequencies. Among equal frequencies the code
  lengths depend on the tie order, which the source leaves unspecified.
- `Compression.CodeOf`: the source's `table[byte]` inserts an empty code for
  a missing byte. Every input byte has a code, so this never happens. The
  model returns the empty code without inserting it.
- `Compress` returns the trie as a ghost out-parameter. It exists only to
  state the result. The source keeps the trie local.
