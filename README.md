# Huffman codec: a Dafny model

This project models the core of a Java Huffman text compressor and its
decompressor, and proves properties of the model with Dafny.

- The compressor reads a text file line by line. It counts every character,
  plus one `'\n'` after every line read, the last included.
- It puts one leaf per character into a minimum-priority queue ordered by
  frequency. It repeatedly merges the two lightest nodes under a node that
  carries the sentinel character `'\0'`.
- It derives the code table by a depth-first walk: `'1'` for a left edge,
  `'0'` for a right edge.
- It writes a 32-bit header holding the total number of code bits, then the
  code of every character, through a bit output stream. The stream packs
  bits into bytes, most significant bit first, and pads the last byte with
  zeros.
- The decompressor reads the bytes back through a bit input stream. It walks
  the tree from the root, 1 to the left and 0 to the right. It writes a
  character at every node that is not the sentinel and returns to the root.

## Modules

| file | module | models |
|---|---|---|
| `java_int.dfy` | `JavaInt` | Java `int` arithmetic: wrap-around modulo 2^32, unsigned reading |
| `bits.dfy` | `Bits` | bits and bytes, most significant first; packing, unpacking, zero padding |
| `node.dfy` | `HuffmanNode` | `Node.java` as a datatype: constructors, `equals`, `hashCode` |
| `huffman_tree.dfy` | `HuffmanTree` | tree shape, the code table of a tree, code bits, the encoding of a text |
| `frequency.dfy` | `Frequency` | `countCharacterFrequencies`, the text the compressor accounts for |
| `priority_queue.dfy` | `PriorityQueue` | the priority queue: `add`, `poll` (some node of least frequency), `size` |
| `header.dfy` | `Header` | `countTotalBits` and the 32-character binary header |
| `bit_output_stream.dfy` | `BitOutput` | `BitOutputStream` as a class over a byte sequence |
| `bit_input_stream.dfy` | `BitInput` | `BitInputStream` as a class over a byte sequence |
| `huffman_compression.dfy` | `HuffmanCompression` | `HuffmanCompression` as a class: queue filling, tree building, code generation, bit writing, `compress` |
| `huffman_decompression.dfy` | `HuffmanDecompression` | the decoding loop of `decompress` |
| `round_trip.dfy` | `RoundTrip` | what decoding the compressor's output gives; the two defects below, and their corrections |

### Modelling choices

- **Inputs and outputs.** The input file is the sequence of lines a line
  reader returns: the `lines` field of the compressor. The compressed file
  is the byte sequence the bit output stream writes, where a byte is an
  `int` in 0..255.
- **The static table.** The static `huffmanCodes` map is a field of the
  compressor object. It starts empty and only ever grows, as in the source.
- **The priority queue.** It is a sequence of nodes. `Poll` hands out some
  node of least frequency, so every proof holds for whatever tie-break the
  heap makes.
- **Java `int` arithmetic** is written out with `Wrap32`. This covers the
  frequency counts, the merged frequencies, the bit count and `hashCode`.
- **Bit streams.** The bit streams are classes whose fields are the source's
  `buffer` and `bufferLength`, plus ghost state. The output stream keeps the
  bits still pending and every bit given so far. The input stream keeps
  every bit still to come.
- **Exceptions** become values.
  - `IllegalArgumentException` from `writeBit` is `ok == false`, with the
    state unchanged.
  - The null dereference in `countTotalBits`, for a table key
    without a code, is the `None` result of the write.
  - The null dereference in the decoding loop, on a missing
    child or on the null root of an empty file's tree, is the `NullChild`
    outcome.
- **Characters reported on the error stream** for lacking a code are
  returned as the `skipped` string.

### Behaviour of the code that the model keeps

- **The header is never read back.** The decoding loop reads no header at
  all: it takes the 32 header bits and the padding bits as code bits
  (finding 1).
- **A lone symbol gets the empty code.** A tree of a single leaf gives its
  character the code "" (finding 2).
- **Missing codes are skipped.** A character without a code is reported
  on the error stream and skipped, not treated as fatal. The model returns
  these characters and proves that none occur unless the text contains
  `'\0'`.
- **`'\0'` fails compression.** The input character `'\0'` is the sentinel.
  Its leaf is taken for a merged node and gets no code, so `countTotalBits`
  fails. `Compress` returns `None` exactly in this case.
- **The empty file cannot be decompressed.** Its tree is null. The decoding
  loop reads the first of the 32 header bits and dereferences the null
  root (`RoundTrip.EmptyFile`).

## Model

| member | source | states |
|---|---|---|
| `HuffmanNode.Leaf` | src/main/java/huffman/Node.java:23-25 | the two-argument constructor stores c and f, with both children null |
| `HuffmanNode.MakeNode` | src/main/java/huffman/Node.java:35-40 | the four-argument constructor stores c, f, left and right unchanged |
| `HuffmanNode.EmptyNode` | src/main/java/huffman/Node.java:42-44 | the no-argument node has c = '\0', f = 0 and no children |
| `HuffmanNode.EmptyNodeNotLeaf` | src/main/java/huffman/Node.java:42-44 | the sentinel test classifies the no-argument node as a merged node |
| `HuffmanNode.Equals` | src/main/java/huffman/Node.java:66-75 | false for null; otherwise true iff c and f agree; children are ignored |
| `HuffmanNode.HashCode` | src/main/java/huffman/Node.java:77-82 | 31 * c + f in Java int arithmetic: equal to it modulo 2^32, and exactly equal when it fits |
| `HuffmanNode.EqualsHashCode` | src/main/java/huffman/Node.java:66-82 | equal nodes have equal hash codes |
| `HuffmanNode.EqualsEquivalence` | src/main/java/huffman/Node.java:66-75 | `equals` is reflexive, symmetric and transitive, and ignores children |
| `Frequency.Count` | src/main/java/huffman/HuffmanCompression.java:54-59 | one count update: the key is added if new; its count becomes the Java int successor of the old one, 1 for a new key; every other count is unchanged |
| `Frequency.CountCharacterFrequencies` | src/main/java/huffman/HuffmanCompression.java:48-72 | the table built is the histogram of the lines, each followed by '\n' |
| `Frequency.HistogramKeys` | src/main/java/huffman/HuffmanCompression.java:48-67 | the table has a key for exactly the characters of the text |
| `Frequency.HistogramCounts` | src/main/java/huffman/HuffmanCompression.java:48-67 | each count is the character's number of occurrences in the text |
| `Frequency.TextCounts` | src/main/java/huffman/HuffmanCompression.java:51-67 | a character's occurrences in the text are those inside the lines, plus one per line for '\n' |
| `Frequency.NewlinePerLine` | src/main/java/huffman/HuffmanCompression.java:61-66 | with lines as a line reader returns them, '\n' is counted once per line, the last included |
| `Frequency.CountsAddUp` | src/main/java/huffman/HuffmanCompression.java:48-67 | the counts add up to the length of the text |
| `Frequency.SumOverRemove` | src/main/java/huffman/HuffmanCompression.java:174-176 | a weighted sum over the table does not depend on the order of its keys |
| `Frequency.SumOverHistogram` | src/main/java/huffman/HuffmanCompression.java:174-176 | summing a weight over the table is summing it over the characters of the text |
| `PriorityQueue.MinHeap.Poll` | src/main/java/huffman/HuffmanCompression.java:81-82 | removes and returns some node of least frequency; null for an empty queue |
| `PriorityQueue.MinHeap.Add` | src/main/java/huffman/HuffmanCompression.java:85 | the node is added to the queue |
| `PriorityQueue.MinHeap.Size` | src/main/java/huffman/HuffmanCompression.java:80 | the number of nodes in the queue |
| `PriorityQueue.MinExists` | src/main/java/huffman/HuffmanCompression.java:35 | a non-empty queue has a node of least frequency to poll |
| `HuffmanCompression.PopulatePriorityQueue` | src/main/java/huffman/HuffmanCompression.java:204-207 | exactly one childless node per table entry, with its count, is added, and nothing else |
| `HuffmanCompression.QueueOfTable` | src/main/java/huffman/HuffmanCompression.java:204-207 | the filled queue holds well-formed childless leaves, and is empty iff the table is |
| `HuffmanCompression.QueueWeight` | src/main/java/huffman/HuffmanCompression.java:204-207 | the queue's total frequency is the sum of the table's counts |
| `HuffmanCompression.MergeLightestTwo` | src/main/java/huffman/HuffmanCompression.java:81-85 | the new queue is the old one with a node of least frequency and then a node of least frequency among the rest replaced by their merged node; it keeps the leaves and the total frequency modulo 2^32, adds one merged node, and keeps trees well formed |
| `HuffmanCompression.RunShape` | src/main/java/huffman/HuffmanCompression.java:79-90 | any root reached from a queue by least-two merges has exactly the queue's leaves, its total frequency modulo 2^32, one merged node per extra tree, and is well formed when the queue's trees are |
| `HuffmanCompression.MergeStep` | src/main/java/huffman/HuffmanCompression.java:81-85 | the same facts for polling a least node, then a least node of the rest, and adding the merged node |
| `HuffmanCompression.SecondIsFromQueue` | src/main/java/huffman/HuffmanCompression.java:81-82 | the second node polled is no lighter than the first, so the left child is never heavier than the right |
| `HuffmanCompression.MergedNode` | src/main/java/huffman/HuffmanCompression.java:84 | the merged node carries the sentinel, the Java int sum of the frequencies, the first polled on the left |
| `HuffmanCompression.HuffmanCompression.BuildHuffmanTree` | src/main/java/huffman/HuffmanCompression.java:79-90 | the queue ends empty; the root is null iff the queue was empty; the root is reached from the queue by merging, round after round, a least node with a least node of the rest; hence the root's leaves are the queue's leaves, its frequency is the queue's total modulo 2^32, one merged node per extra tree; a well-formed queue gives a well-formed tree; the codes of the root are added to the table |
| `HuffmanCompression.HuffmanCompression.GenerateHuffmanCodes` | src/main/java/huffman/HuffmanCompression.java:98-110 | the table gains the codes of the subtree after the builder's contents, and the builder is left as it was |
| `HuffmanCompression.TreeOfText` | src/main/java/huffman/HuffmanCompression.java:87-89 | the tree exists iff the text is not empty; it is well formed; its root frequency is the text length; without '\0' in the text, exactly the text's characters get a code |
| `HuffmanCompression.CodesCoverText` | src/main/java/huffman/HuffmanCompression.java:135-146 | when the tree codes the text, no table key lacks a code and nothing is skipped; a '\0' in the text has no code |
| `HuffmanCompression.HuffmanCompression.Compress` | src/main/java/huffman/HuffmanCompression.java:32-41 | fails iff the text holds '\0'; otherwise nothing is skipped, and the bytes are the padded header and code bits of the text; the tree is well formed and codes exactly the text's characters |
| `HuffmanCompression.WriteCode` | src/main/java/huffman/HuffmanCompression.java:139-142 | the bits written are the numeric values of the code's characters |
| `HuffmanCompression.HuffmanCompression.WriteChar` | src/main/java/huffman/HuffmanCompression.java:132-146 | the character's code bits are written, or the character is returned as skipped |
| `HuffmanCompression.HuffmanCompression.WriteLine` | src/main/java/huffman/HuffmanCompression.java:131-158 | the encoding of the line followed by '\n' is written; its characters without a code are returned |
| `HuffmanCompression.HuffmanCompression.WriteLines` | src/main/java/huffman/HuffmanCompression.java:130-159 | the encoding of the whole text is written; its characters without a code are returned |
| `HuffmanCompression.HuffmanCompression.WriteCompressedBits` | src/main/java/huffman/HuffmanCompression.java:117-164 | fails iff a table key has no code; otherwise the bytes unpack to the header bits, then the text's code bits, then zero padding; the skipped characters are those without a code |
| `HuffmanCompression.CodesAreCodes` | src/main/java/huffman/HuffmanCompression.java:98-110 | every code generated is made of '0' and '1' |
| `HuffmanTree.CodeIsPath` | src/main/java/huffman/HuffmanCompression.java:98-110 | a code extends the accumulated code, and following it from the start node ('1' left, '0' right) reaches the non-sentinel node of that character |
| `HuffmanTree.PrefixFree` | src/main/java/huffman/HuffmanCompression.java:98-110 | no character's code is a prefix of another character's code |
| `HuffmanTree.CodesCoverLeaves` | src/main/java/huffman/HuffmanCompression.java:98-110 | in a well-formed tree without sentinel leaves, exactly the leaf characters get a code |
| `HuffmanTree.SingleLeafCode` | src/main/java/huffman/HuffmanCompression.java:98-103 | a tree of one leaf gives its character the empty code; no tree gives no codes |
| `HuffmanTree.NumericValue` | src/main/java/huffman/HuffmanCompression.java:140 | `Character.getNumericValue` gives 0 for '0' and 1 for '1' |
| `HuffmanTree.CodeBits` | src/main/java/huffman/HuffmanCompression.java:139-142 | one bit per code character, its numeric value |
| `HuffmanTree.EncodedAppend` | src/main/java/huffman/HuffmanCompression.java:130-158 | encoding and skipping distribute over concatenation of texts |
| `HuffmanTree.NothingMissing` | src/main/java/huffman/HuffmanCompression.java:143-146 | nothing is skipped when every character has a code |
| `Header.CountTotalBits` | src/main/java/huffman/HuffmanCompression.java:172-179 | fails iff a table key has no code; otherwise the header is the 32-character binary of the Java int sum of code length times count |
| `Header.AddEntry` | src/main/java/huffman/HuffmanCompression.java:175 | adding one entry in Java int arithmetic keeps the running count plus the rest of the sum fixed modulo 2^32 |
| `Header.HeaderIsBinary` | src/main/java/huffman/HuffmanCompression.java:177-178 | the header has 32 characters of '0' and '1': the unsigned 32-bit value, most significant bit first, zero-padded on the left |
| `Header.BinaryDigitsBits` | src/main/java/huffman/HuffmanCompression.java:177 | `Integer.toBinaryString` gives the low bits of the value, without leading zeros |
| `Header.PadDigits` | src/main/java/huffman/HuffmanCompression.java:177 | formatting to 32 characters and replacing the spaces puts zero bits on the left |
| `Header.HeaderCountsPayload` | src/main/java/huffman/HuffmanCompression.java:172-179 | the bit count equals the payload length, and the header's value is that length modulo 2^32 |
| `Header.EncodedLength` | src/main/java/huffman/HuffmanCompression.java:130-158 | the payload is as long as the code lengths of its characters add up to |
| `BitOutput.BitOutputStream.constructor` | src/main/java/io/BitOutputStream.java:20-24 | an empty buffer over the given sink |
| `BitOutput.BitOutputStream.WriteBit` | src/main/java/io/BitOutputStream.java:32-45 | rejects anything but 0 or 1 and changes nothing then; otherwise appends the bit, and on the eighth pending bit writes them as one byte, first bit most significant |
| `BitOutput.BitOutputStream.WriteEndOfFileMarker` | src/main/java/io/BitOutputStream.java:53-56 | writes byte 0xFF; buffer and buffer length unchanged |
| `BitOutput.BitOutputStream.Flush` | src/main/java/io/BitOutputStream.java:63-70 | with pending bits, writes one byte with them on top and zeros below, then empties the buffer; with none, writes nothing (so a second flush writes nothing) |
| `BitOutput.BitOutputStream.Close` | src/main/java/io/BitOutputStream.java:78-81 | flushes and closes; n bits written leave ceil(n / 8) bytes |
| `BitOutput.FlushStep` | src/main/java/io/BitOutputStream.java:64-66 | the flushed byte unpacks to the pending bits followed by zeros |
| `BitOutput.CompleteByte` | src/main/java/io/BitOutputStream.java:37-41 | eight pending bits written as a byte unpack to themselves |
| `Bits.UnpackPack` | src/main/java/io/BitOutputStream.java:37-43 | packing whole bytes and unpacking them gives the bits back |
| `Bits.PackUnpack` | src/main/java/io/BitInputStream.java:32-45 | unpacking bytes and packing the bits gives the bytes back |
| `Bits.BitsOfAt` | src/main/java/io/BitInputStream.java:42 | `(buffer >> k) & 1` is the bit k places from the least significant end |
| `Bits.PadBitsBytes` | src/main/java/io/BitOutputStream.java:63-70 | padding n bits gives ceil(n / 8) bytes |
| `BitInput.BitInputStream.constructor` | src/main/java/io/BitInputStream.java:20-24 | the bits to come are the bits of the source bytes, most significant first |
| `BitInput.BitInputStream.ReadBit` | src/main/java/io/BitInputStream.java:32-45 | -1 iff no bit is left, changing nothing; otherwise the next bit, 0 or 1; a byte is fetched only when the buffer is empty and then gives 8 bits; the buffer length drops by one |
| `BitInput.NextBit` | src/main/java/io/BitInputStream.java:42-43 | the bit handed out is the first of the buffer's remaining bits |
| `HuffmanDecompression.Decompress` | src/main/java/huffman/HuffmanDecompression.java:42-61 | the loop produces the walk over all bits of the file from the root: a missing child stops it, a non-sentinel node is written and resets the cursor; a null root stops it at the first bit |
| `HuffmanDecompression.DecodeStep` | src/main/java/huffman/HuffmanDecompression.java:46-60 | one bit: 0 to the right child, 1 to the left; a leaf writes its character and resets to the root |
| `HuffmanDecompression.WalkCode` | src/main/java/huffman/HuffmanDecompression.java:45-60 | walking a character's code from the root writes that character and returns to the root |
| `HuffmanDecompression.WalkText` | src/main/java/huffman/HuffmanDecompression.java:43-61 | walking the codes of a text from a merged root writes exactly that text |
| `HuffmanDecompression.PendingPathWritesNothing` | src/main/java/huffman/HuffmanDecompression.java:45-61 | a path cut short at the end of the stream writes nothing |
| `HuffmanDecompression.SingleLeafRootStops` | src/main/java/huffman/HuffmanDecompression.java:47-53 | at a childless root, the first bit meets a missing child |
| `RoundTrip.EveryBitDecodes` | src/main/java/huffman/HuffmanDecompression.java:45-60 | below a root with two leaf children, the loop writes one character per bit |
| `RoundTrip.HeaderIsDecoded` | src/main/java/huffman/HuffmanDecompression.java:40-61 | the file of the line "a" gives 40 bits, all of them decoded: 40 characters instead of "a\n" |
| `RoundTrip.DecompressCounted` | src/main/java/huffman/HuffmanDecompression.java:40-61 | the corrected loop reads the 32-bit count and decodes only that many bits; a null root fails only when a payload bit is to be decoded |
| `RoundTrip.EmptyFile` | src/main/java/huffman/HuffmanDecompression.java:43-47 | the empty file's 32 header bits meet the null root in the loop as written; the corrected decoder reads the count 0 and gives the empty text |
| `RoundTrip.ReadCount` | src/main/java/huffman/HuffmanDecompression.java:42-45 | the 32 header bits read back are the count, most significant first; none if the stream is shorter |
| `RoundTrip.RoundTrip` | src/main/java/huffman/HuffmanCompression.java:117-164 | the corrected decoder restores the text from the compressor's bits, for a merged root whose codes the writer uses |
| `RoundTrip.CompressedRoundTrip` | src/main/java/huffman/HuffmanCompression.java:32-41 | the output of `Compress`, as it states it, decodes back to the text when the root is a merged node |
| `RoundTrip.LoneLeafLosesCount` | src/main/java/huffman/HuffmanCompression.java:98-103 | the files of one and of two empty lines compress to the same bit file (only the serialized tree's leaf frequency differs) |
| `RoundTrip.WrapLoneLeaf` | src/main/java/huffman/HuffmanCompression.java:87-89 | the corrected root is a merged node; a lone leaf under it gets the code "1" |
| `RoundTrip.LoneLeafRoundTrip` | src/main/java/huffman/HuffmanCompression.java:87-89 | with the corrected root, a text of one distinct character decodes back |
| `JavaInt.Wrap32` | src/main/java/huffman/HuffmanCompression.java:175 | Java int arithmetic: the result lies in the int range and equals the exact value when that fits |
| `JavaInt.UnsignedWrap32` | src/main/java/huffman/HuffmanCompression.java:177 | the unsigned reading of a wrapped value is the value modulo 2^32 |

## Left out

- Tree serialization (`postProcess`, `inflateHuffMetaData`): the decoder is given the compressor's root, `None` for null, as a parameter.
- File handling: opening, reading and closing files. The compressor reads its input file twice; both readings are the same `lines`, so a file changed in between is not modelled. The `.hzip` / `.hZip` file-name mismatch is not modelled.
- Character decoding by `FileReader` and line-terminator normalisation: the lines are given as the line reader returns them.
- Java `char` is a 16-bit UTF-16 code unit; here a character is a Dafny `char`, a Unicode scalar value. A character outside the Basic Multilingual Plane is two `charAt` units in the source, so two table entries, two leaves and two codes; here it is one. Lone surrogates cannot be represented. `HuffmanNode.HashCode` accepts code points above 0xFFFF, for which `31 * c` exceeds anything Java computes. For texts of Basic Multilingual Plane characters the two agree.
- `IOException` handling (`printStackTrace`) is not modelled. The text printed on the error stream is reduced to the returned skipped characters.
- `BitInputStream.close` is not modelled: nothing is read after the decoding loop ends.
- The closing of the bit output stream's underlying stream is reduced to its `closed` flag; writes after closing are not rejected.
- The internals of `java.util.PriorityQueue` and its tie-break order; `Poll` yields any node of least frequency. The order in which `HashMap` iterates its keys is likewise left open.
- `Main.java` (command line) and the stale `app/src/main/Node.java` copy are not part of this model.
- Huffman optimality (minimal weighted path length) is not stated; nothing in the code promises it.
- Node getters: the datatype's fields are the getters; `Serializable` is not modelled.
- `HuffmanTree.NumericValue`: `Character.getNumericValue` is modelled for ASCII digits and letters only; other Unicode digits give -1 here. Codes only ever hold '0' and '1'.
- `Frequency.HistogramCounts`: exact counts are stated only for texts of at most 2^31 - 1 characters; beyond that the model wraps as Java does, and the lemma says nothing.
- `HuffmanCompression.HuffmanCompression.Compress`: the root's frequency is stated only for texts of at most 2^31 - 1 characters.
- `HuffmanCompression.TreeOfText`: the root's frequency is stated only for texts of at most 2^31 - 1 characters.
- `RoundTrip.RoundTrip`: proved only for payloads shorter than 2^32 bits and texts of at most 2^31 - 1 characters, where the header counts the payload exactly.
- `RoundTrip.DecompressCounted`: a stream shorter than the 32-bit header decodes to the empty text rather than to an error.

## Findings

| source | as written | input that shows it | evidently intended | confidence | as-written member | corrected member |
|---|---|---|---|---|---|---|
| src/main/java/huffman/HuffmanDecompression.java:40-61 | the decoding loop walks every bit of the file from the first: the 32 header bits and the zero padding of the last byte are decoded as codes | the file of the single line "a" (text "a\n", codes "1" and "0"): 40 bits, 40 characters written instead of "a\n" | read the 32-bit count the compressor writes first (HuffmanCompression.java:126-129) and decode exactly that many bits | high; not executed | `RoundTrip.HeaderIsDecoded` | `RoundTrip.DecompressCounted` |
| src/main/java/huffman/HuffmanCompression.java:87-103 | a tree of one leaf gives its character the empty code: the payload is empty and the header counts 0 bits, so the bit file does not hold the number of characters (only the serialized leaf's frequency does, which the decoder never uses) | the files of one empty line and of two empty lines (texts "\n" and "\n\n") compress to the same bits | give the lone character a one-bit code, here by hanging its leaf under a merged node | high; not executed | `RoundTrip.LoneLeafLosesCount` | `RoundTrip.LoneLeafRoundTrip` |
