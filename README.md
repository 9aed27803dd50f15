# Huffman coder — a verified model

This project models the Huffman coder of `main/Huffman.java` in Dafny:

- the coding tree (`Node`) and how `builtTree` builds it from the characters of a text whose code is below 128;
- the code table `codeChars` and the encoding loop shared by `codeString` and `huffman`;
- the bit-by-bit `decode` and `decodeString`;
- the packed bit buffer `BitArray`;
- the two artifacts `huffman` writes and reads back. `tree.bin` is the pre-order tree of `saveNode`/`readNode`. `code.bin` is the bit count followed by the packed bits, written by `saveCode` and read by `readCoded`.

The Java object keeps `text` and `root` in fields between calls. Here they are parameters and results. File contents are byte sequences, and Java exceptions are `Err` values named after the exception (`IllegalArgument`, `EndOfFile`, `NegativeArraySize`, `NullPointer`).

The modules follow the program's parts:

| file | module | part of `Huffman.java` |
|---|---|---|
| basics.dfy | `Basics` | characters, bit strings, failures, the below-128 filter |
| bit_array.dfy | `BitBuffer` | `BitArray` as a class over `array<bv8>` |
| tree.dfy | `Trees` | `Node`, with and without frequencies |
| builder.dfy | `TreeBuilder` | `builtTree`: counting loop, queue of leaves, merge loop |
| codes.dfy | `CodeTable` | `codeChars` and the encoding loop |
| decoder.dfy | `Decoder` | `decode` |
| tree_codec.dfy | `TreeCodec` | `saveNode` / `readNode` / `readTree` |
| code_artifact.dfy | `CodeArtifact` | `saveCode` / `readCoded` |
| huffman.dfy | `Huffman` | `codeString`, `decodeString`, both branches of `huffman` |

The tie-break of the Java `PriorityQueue` is left open. The merge loop may poll any minimum-frequency tree, so every property of the built tree holds whatever the tie-break. The `"Engl"` test vector is checked on the concrete tree `((E, n), (l, g))`.

Where the code and its prose description differ, the model follows the code:

- `readNode` reads the marker with `readBoolean`, which takes any non-zero byte for `true`. Every marker value is therefore accepted, and the only way to fail is to run out of bytes.
- `readCoded` on a negative bit count behaves as follows. From -7 to -1 the Java division gives a zero-length buffer and an empty result. From -8 downwards it raises `NegativeArraySizeException`.
- When `code.bin` has fewer payload bytes than the count announces, the missing bytes read as zero.
- A non-empty text with no character below 128 leaves the queue empty, so `builtTree` returns null. `codeString` then returns the empty string. The compressing branch of `huffman` then writes `code.bin` and fails in `saveNode` on the null root.

## Model

| member | source | states |
|---|---|---|
| Basics.Filter | main/Huffman.java:366-371 | the kept characters are exactly those of the text whose code is below 128, and the result is no longer than the text |
| Basics.NoSymbols | main/Huffman.java:85-90 | a text without characters below 128 has nothing left to count or encode |
| Basics.SymbolsBound | main/Huffman.java:85-90 | at most 128 distinct characters are counted |
| Basics.FilterAppend | main/Huffman.java:366-371 | filtering distributes over concatenation |
| Basics.ByteOf | main/Huffman.java:174 | the byte written for a value from 0 to 255 reads back as that value |
| BitBuffer.ByteCount | main/Huffman.java:325-328 | the buffer size is ceil(n/8) bytes for positive n and zero for n from -7 to 0 |
| BitBuffer.WithBit | main/Huffman.java:335-339 | the byte `set` stores, mask `k` or-ed in or and-ed out, has the new bit at position `k` and the other seven bits of the old byte |
| BitBuffer.UpdateByte | main/Huffman.java:333-339 | or-ing or and-not-ing mask `i % 8` into byte `i / 8` changes bit `i` and no other bit |
| BitBuffer.MasksAreShifts | main/Huffman.java:321 | mask `k` is `1 << k`: bits are addressed least significant first |
| BitBuffer.BitArray.constructor | main/Huffman.java:323-330 | the buffer holds ceil(size/8) bytes, all zero, and records `size` |
| BitBuffer.BitArray.Set | main/Huffman.java:332-340 | bit `index` becomes `value != 0` and every other bit is unchanged |
| BitBuffer.BitArray.Get | main/Huffman.java:342-346 | the bit read is bit `index` of the buffer |
| BitBuffer.BitArray.SizeInBytes | main/Huffman.java:348-350 | the byte length is ceil(size/8) |
| Trees.Leaves | main/Huffman.java:282-306 | every tree has at least one leaf |
| Trees.SymbolCount | main/Huffman.java:111 | a tree with distinct leaves is a single leaf exactly when it holds one distinct character |
| Trees.Shape | main/Huffman.java:282-306 | dropping the frequencies keeps leaves as leaves and internal nodes as internal nodes |
| Trees.BagAppend | main/Huffman.java:92-103 | the characters in a queue of trees are the union of those of its parts |
| Trees.BagRemove | main/Huffman.java:98-99 | polling a tree removes exactly its characters from the queue |
| TreeBuilder.CountFrequencies | main/Huffman.java:84-90 | one entry per distinct character below 128, holding its number of occurrences |
| TreeBuilder.PollMin | main/Huffman.java:98-99 | the polled tree has the lowest frequency in the queue |
| TreeBuilder.Without | main/Huffman.java:98-99 | polling shortens the queue by one and adds nothing |
| TreeBuilder.QueueLeaves | main/Huffman.java:92-95 | the queue holds one correctly weighted leaf per counted character |
| TreeBuilder.QueueLeaf | main/Huffman.java:92-95 | queueing the leaf of one more counted character keeps the loop invariant: the queued leaves are correctly weighted and are exactly the characters visited so far, each once |
| TreeBuilder.MergeStep | main/Huffman.java:98-102 | merging the two polled trees keeps every frequency a sum and every character once |
| TreeBuilder.Merge | main/Huffman.java:97-103 | the loop ends with at most one tree, which keeps the queue invariant; the second poll never finds the queue empty |
| TreeBuilder.LastTree | main/Huffman.java:104 | the last tree holds every counted character exactly once |
| TreeBuilder.BuiltTree | main/Huffman.java:79-105 | empty text is rejected; otherwise the root is null exactly when no character is below 128, else its leaves are the distinct counted characters, each once, and every node's frequency is its count or the sum of its children's |
| CodeTable.CodeChars | main/Huffman.java:107-116 | one non-empty code per leaf, extending the path so far, and no longer than the path plus the number of leaves |
| CodeTable.Codes | main/Huffman.java:361-364 | the table `codeChars` builds from the root with an empty prefix has one code per leaf, each non-empty, no longer than the number of leaves, and none a prefix of another |
| CodeTable.PrefixOfExtension | main/Huffman.java:114-115 | codes below a child extend the path to its parent |
| CodeTable.CodesPrefixFree | main/Huffman.java:107-116 | no code is a prefix of another |
| CodeTable.CodeIsPath | main/Huffman.java:107-116 | each code is the root-to-leaf path (left 0, right 1), and a lone root leaf gets "1" |
| CodeTable.DivergentCodes | main/Huffman.java:114-115 | codes that differ at a position are not prefixes of each other |
| CodeTable.EncodingAppend | main/Huffman.java:366-371 | the encoding of a concatenation is the concatenation of the encodings |
| CodeTable.EncodingIgnoresOutOfRange | main/Huffman.java:366-371 | characters of code 128 and above contribute nothing |
| CodeTable.Encoding | main/Huffman.java:366-371 | the encode loop's output is as long as the sum of the code lengths of the in-range characters |
| CodeTable.EncodingBound | main/Huffman.java:366-371 | with codes of at most k bits the output has at most k bits per character |
| CodeTable.SingleSymbolEncoding | main/Huffman.java:112 | with a lone root leaf every occurrence encodes as one '1' |
| CodeTable.EncodeText | main/Huffman.java:366-372 | the loop appends the code of every character below 128, in order |
| CodeTable.EnglCodes | main/Huffman.java:107-116 | the tree ((E, n), (l, g)) gives E 00, n 01, l 10, g 11 |
| CodeTable.EnglVector | test/HuffmanTest.java:9-32 | "Engl" encodes as 00011110 with that tree, and "E" as "1" |
| Decoder.Walk | main/Huffman.java:249-257 | the as-written walk: no bits give the empty text, the output has at most one character per bit, stepping from a leaf fails with a null dereference, and that is the only failure, possible only when the current node or the root is a leaf |
| Decoder.Decode | main/Huffman.java:245-260 | the loop's output is the walk of the whole code from the root |
| Decoder.WalkStep | main/Huffman.java:249-257 | one bit moves to the left or right child; reaching a leaf emits its character and restarts at the root |
| Decoder.WalkPath | main/Huffman.java:249-257 | following a character's path emits it and returns to the root |
| Decoder.WalkEncoding | main/Huffman.java:245-260 | on a tree with two or more distinct leaves, decoding an encoding gives the text back |
| Decoder.WalkPaths | main/Huffman.java:245-260 | the same round trip for any table that maps every leaf to its root-to-leaf path |
| Decoder.DecodeRoundTrip | main/Huffman.java:375-378 | with two or more leaves, decoding the encoding of a text gives the text without its characters of code 128 and above |
| Decoder.SingleLeafRoundTripFails | main/Huffman.java:249-254 | as written, a lone root leaf fails on the first bit with a null dereference |
| Decoder.CorrectedRoundTrip | main/Huffman.java:245-260 | with the corrected decoder the round trip holds for every tree built from a text |
| TreeCodec.ReadChar | main/Huffman.java:203 | the character read has the first byte as its high byte and the second as its low byte |
| TreeCodec.CharBytes | main/Huffman.java:174 | a character is written as two bytes that read back as the same character |
| TreeCodec.SaveNode | main/Huffman.java:170-183 | a tree of n leaves takes 4n - 1 bytes |
| TreeCodec.ReadNode | main/Huffman.java:200-212 | a successful read leaves fewer bytes than it was given; the only failure is end of input |
| TreeCodec.ReadConsumesPrefix | main/Huffman.java:200-212 | what a successful read leaves is exactly what follows the bytes it consumed |
| TreeCodec.InnerMarker | main/Huffman.java:205-208 | after a zero marker the left subtree is read, then the right one from what the left leaves, and either failure is passed on |
| TreeCodec.ReadSaved | main/Huffman.java:170-212 | reading what `saveNode` wrote rebuilds the same tree and stops exactly at its end |
| TreeCodec.ReadSavedLeaf | main/Huffman.java:172-174 | a saved leaf reads back as the same leaf after three bytes |
| TreeCodec.ReadTree | main/Huffman.java:185-198 | `readTree` fails exactly when `readNode` does, only with end of file, always on fewer than three bytes, and reads a leaf from a non-zero marker |
| TreeCodec.TreeRoundTrip | main/Huffman.java:185-198 | `readTree` on a saved tree returns that tree, whatever follows it |
| TreeCodec.TruncatedLeaf | main/Huffman.java:202-203 | a leaf cut short, before its marker or inside its character, fails with end of file |
| TreeCodec.TruncatedLeft | main/Huffman.java:205-208 | an internal node cut inside its left subtree fails as that subtree's read does |
| TreeCodec.TruncatedRight | main/Huffman.java:205-208 | an internal node cut inside its right subtree reads the left one whole and then fails with end of file |
| TreeCodec.TruncatedFails | main/Huffman.java:200-212 | a tree artifact cut short anywhere fails with end of file, never a partial tree |
| CodeArtifact.ReadInt | main/Huffman.java:224 | four bytes read as a 32-bit two's-complement integer |
| CodeArtifact.IntBytes | main/Huffman.java:133 | the four bytes written for a 32-bit integer read back as it |
| CodeArtifact.ReadInto | main/Huffman.java:226 | the buffer holds the available bytes, then zeros |
| CodeArtifact.ParseCode | main/Huffman.java:221-242 | a successful read yields as many bits as the count says, or none when the count is not positive |
| CodeArtifact.ParsePacked | main/Huffman.java:224-241 | a count followed by bytes whose first n bits are the code reads back as that code |
| CodeArtifact.SaveCode | main/Huffman.java:126-134 | the artifact is the 4-byte count then ceil(n/8) bytes holding the bits and zero padding, and reading it back yields the code |
| CodeArtifact.ReadCoded | main/Huffman.java:214-243 | reads exactly what the artifact format defines, failures included |
| CodeArtifact.ReadBytes | main/Huffman.java:226 | the buffer is filled with the available bytes and the rest stay zero |
| CodeArtifact.ReadBits | main/Huffman.java:236-242 | the bits read are the first `size` bits of the buffer, none for a negative size |
| Huffman.Encode | main/Huffman.java:359-372 | empty text is rejected; otherwise the root suits the text and the bits are its encoding |
| Huffman.CodeString | main/Huffman.java:356-373 | null or empty strings are rejected with IllegalArgument and every other string is encoded |
| Huffman.NothingToEncode | main/Huffman.java:104-110 | with a null root there are no codes and no bits |
| Huffman.RoundTripOutcome | main/Huffman.java:375-378 | decoding the encoding gives the text without its characters of code 128 and above, or a null dereference when it has one distinct such character |
| Huffman.DecodeString | main/Huffman.java:375-378 | null or empty strings are rejected; a single distinct character fails; otherwise the characters below 128 come back |
| Huffman.CodeFits | main/Huffman.java:126-133 | a text shorter than 2^24 characters encodes to fewer than 2^31 bits |
| Huffman.Decompressed | main/Huffman.java:35-40 | an empty tree artifact, or a short code artifact after a valid tree, fails with end of file |
| Huffman.Decompress | main/Huffman.java:34-41 | reads the tree, then the code, then decodes, as the decompression pipeline defines |
| Huffman.Compress | main/Huffman.java:19-34 | empty text is rejected and a text without characters below 128 fails in `saveNode`; otherwise `tree.bin` is the saved tree built from the text, `code.bin` reads back as that tree's encoding of the text, the returned count is its length, and decompressing the artifacts gives back the characters below 128, except for one distinct character, and the corrected decoder always gives them back |

## Left out

- File I/O: `ReadText` with its line-separator handling, `saveDecoded`, `getText`, and opening, flushing and closing streams. The model works on the texts and byte sequences these would read or write.
- Path handling in `huffman`, including the null-path `IllegalArgumentException` and missing files. They concern files only.
- The `RuntimeException` that wraps every `IOException`. The model reports the underlying end of file as `EndOfFile`.
- The file `code.bin` that is written before `saveNode` fails on a null root. `Huffman.Compress` returns only the failure.
- The exact tie-break of `PriorityQueue` and `HashMap` iteration. It is library behaviour, so every result here holds for any tie-break.
- Short reads of `dis.read`, whose count is ignored. In the model one read delivers every available byte up to the buffer size.
- Java `int` overflow of frequencies and of positions. A text would need more than 2^31 characters to reach it.
- Appending `codes.get(c)` when it is null (the text "null"). This cannot happen, because every character below 128 has a code. `CodeTable.EncodeText` requires it.
- `decode` with a null root and a non-empty code. A null root arises only with an empty code.
- Huffman.Compress: requires a text shorter than 2^24 characters, so that the bit count provably fits the `int` written to `code.bin`. Java's `String` length limit bounds the bit string, but the model has no such limit.
- CodeArtifact.SaveCode: requires fewer than 2^31 bits. That is the `int` length of a Java `String`.
- BitBuffer.BitArray.constructor: requires a size above -8. Smaller sizes raise `NegativeArraySizeException`, which `CodeArtifact.ReadCoded` models before constructing.
- BitBuffer.BitArray.Set: requires an index inside the buffer. Java would throw `ArrayIndexOutOfBoundsException` otherwise, but no caller passes such an index.
- BitBuffer.BitArray.Get: requires an index inside the buffer, for the same reason.
- Decoder.DecodeRoundTrip: requires a root with two or more leaves, because a lone root leaf fails (see Findings).

## Findings

| source | as written | input that shows it | evidently intended | confidence | as-written member | corrected member |
|---|---|---|---|---|---|---|
| main/Huffman.java:249-254 | `decode` steps from the root to a child before testing for a leaf, so a root that is itself a leaf (text with one distinct character, coded "1" per occurrence) is stepped to its null right child, which is then dereferenced | `decodeString("E")`: `codeString` gives "1", then `decode("1")` reads `null.left` | every bit of a lone-leaf code stands for one occurrence of the root's character, so `decodeString("E")` gives "E" | not executed | Decoder.SingleLeafRoundTripFails | Decoder.CorrectedRoundTrip |
