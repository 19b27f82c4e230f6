# An LZW + Huffman text compressor, modelled in Dafny

`src/this.cpp` compresses a text file in three stages run one after another:

1. **`inputToLzw`** is a dictionary (LZW) coder.
   - It seeds a dictionary with the 256 one-byte strings at indices 0-255.
   - It reads the input line by line and appends `'\n'` to every line.
   - It grows the current match while `current + ch` is a key. Otherwise it emits the match's index and counts it in `occurrence`. While there is room (below 1024 entries) it also learns `current + ch` at the next free index, and then restarts the match at `ch`.
   - At the end the leftover match is emitted without being counted.
2. **`huffman`** builds a Huffman code table from the counts.
   - It makes one node per counted index, then repeatedly pops the two lightest nodes. It appends `'0'` to the code of every member of the first node and `'1'` to every member of the second, combines the two and pushes the result back.
   - Finally every code string is reversed.
3. **`bitSerialization`** writes the codes of the emitted indices into bytes, most significant bit first, and emits every full byte. At the end it writes one byte holding the number of bits left over.

The Dafny project has one module per stage plus two small ones:

- `Config`: the `Byte` type and the dictionary capacity 1024.
- `Lzw` (`lzw.dfy`):
  - a reference definition `Encode`: a coder state, `Step` over one byte, `Run` over all bytes, and the final `Flush`;
  - the imperative coder `InputToLzw`, proved to compute `Encode`. It keeps the source's loop nest: `SeedDictionary`, `ScanLine` (the loop over one line) and `ScanByte` (its body, which updates the count array in place).
- `Huffman` (`huffman.dfy`):
  - `HuffmanCodes` works on a code array that it updates in place, like the source.
  - The priority queue is a multiset of `Node` values. `PopMin` takes any lightest node.
  - The merge loop keeps the invariant `Forest`. From it the method proves that the codes are prefix-free bit strings, and how many merges happen.
- `BitPacker` (`bit_packer.dfy`):
  - `BitSerialization` keeps the source's accumulator `imprint` and counter `progress`.
  - It is proved to produce `Packed(Serialized(...))`: the full bytes of the concatenated codes, then the leftover count.
  - Lemmas state what those bytes hold and that they read back to the bits.
- `Pipeline` (`pipeline.dfy`): the three stages chained as `main` chains them, without the files.

The code behaves as follows at its edges, and the model does the same:

- **Empty input.** The final `dictionary[current]` with an empty `current` inserts the key with index 0. So the output is `[0]` and every count is 0 (`Lzw.Encode`).
- **Final index not counted.** The leftover match emitted at line 47 is not counted. The counts add up to one less than the number of emitted indices (`Lzw.Encode`).
- **One counted index.** With exactly one counted index, no merge happens and its code is the empty string. It contributes no bits to the packed output (`Huffman.HuffmanCodes`).
- **Partial byte dropped.** The bits after the last full byte are not written. Only their number is, in place of the partial byte (`BitPacker.PackedRoundTrip`).
- **Worked example.** For indices `[2, 0, 1]` with codes `0 -> "0"`, `1 -> "10"` and `2 -> "11"`, the bits are `11010`. The output is the single byte 5 (`BitPacker.PackerExample`).

## Model

| member | source | states |
|---|---|---|
| Lzw.Scanned | src/this.cpp:32-33 | the scanned bytes are the lines, each followed by a newline; a nonempty input ends in a newline |
| Lzw.SeedContents | src/this.cpp:23-25 | after seeding the first n byte values the dictionary has n keys, each a single byte mapped to its own value, and every such byte is a key |
| Lzw.SeedValid | src/this.cpp:23-25 | the seeded dictionary holds every single byte at its own value, numbers its keys 0-255 one key per index, and every entry extends an earlier one by a byte |
| Lzw.SeedDictionary | src/this.cpp:23-25 | the seeding loop builds exactly that dictionary, with 256 entries |
| Lzw.Start | src/this.cpp:20-29 | the initial coder state keeps the coder invariant: empty match, nothing emitted, all counts 0 |
| Lzw.Lookup | src/this.cpp:38-39 | `dictionary[current]`: the key's index, or 0 for a missing key (the value `operator[]` inserts). `LookupFinds` and `FlushFinds` prove when the key is present |
| Lzw.LookupFinds | src/this.cpp:35-39 | when a match cannot be extended, the match is nonempty and already a key, so the lookup at line 38 reads its assigned index, below `dictProgress`, and never inserts a default |
| Lzw.FlushFinds | src/this.cpp:32-47 | for a nonempty input the match left for line 47 is a nonempty key; with `FlushFacts` the default index 0 is read there only for an empty input |
| Lzw.Step | src/this.cpp:34-44 | one scanned byte keeps the counted index inside the 1024-entry count table, advances `dictProgress` by at most one and appends at most one index to `lzwResult`, keeping what was emitted before; the full coder invariant it keeps is `StepKeepsValid`, the decoding invariant `StepSpells` |
| Lzw.StepKeepsValid | src/this.cpp:34-44 | scanning a byte keeps the coder invariant: indices below the next free index, counts equal to occurrences, counts summing to the emitted length. The match becomes nonempty and old entries keep their index. The dictionary either stays the same or gains exactly `current + ch` at index `dictProgress`, and only while `dictProgress < 1024` |
| Lzw.StepKeepsExtends | src/this.cpp:40-41 | every learned entry is an existing key plus one byte, before and after a step |
| Lzw.Run | src/this.cpp:32-45 | scanning n bytes keeps the counts inside the table, grows `dictProgress` by at most n and only appends to `lzwResult`, at most n indices; `RunKeepsValid` and `RunSpells` carry the invariants over the run |
| Lzw.RunKeepsValid | src/this.cpp:32-45 | the coder invariant holds after any sequence of scanned bytes |
| Lzw.RunKeepsExtends | src/this.cpp:40-41 | after any run, every learned entry extends an earlier key by one byte |
| Lzw.Flush | src/this.cpp:47-48 | the final `push_back` appends exactly one index to the emitted indices, below 1024 when every dictionary index is, and leaves every count as it was |
| Lzw.FlushFacts | src/this.cpp:47 | the final emission is uncounted: counts sum to the table length minus one and count the table without its last index; all indices are below 1024 |
| Lzw.Encode | src/this.cpp:19-49 | whole coder: 1024 counts, every index below 1024, counts sum to the table length minus one, each count is the number of occurrences before the flush; empty input gives `[0]` and all-zero counts |
| Lzw.CountPositive | src/this.cpp:38-39 | an index that occurs in a table has a positive count |
| Lzw.ExtendSpells | src/this.cpp:35-36 | extending the match keeps "strings of emitted indices ++ match == bytes scanned" |
| Lzw.EmitSpells | src/this.cpp:37-43 | emitting the match's index and restarting at the byte keeps that invariant in the grown dictionary |
| Lzw.StepSpells | src/this.cpp:34-44 | one scanned byte, either branch, keeps that invariant |
| Lzw.RunSpells | src/this.cpp:32-45 | the invariant holds after any run of bytes |
| Lzw.FlushSpells | src/this.cpp:47 | after the flush the strings of the emitted indices are exactly the scanned bytes |
| Lzw.RoundTrip | src/this.cpp:32-47 | for nonempty input, every emitted index is in the final dictionary and concatenating their strings gives back every line followed by a newline |
| Lzw.ExpandStable | src/this.cpp:40-41 | learning new entries never changes what already emitted indices stand for |
| Lzw.TableNoLonger | src/this.cpp:32-47 | a nonempty input is coded into at most as many indices as it has scanned bytes |
| Lzw.RunAppend | src/this.cpp:32-45 | scanning `a + b` is scanning `a` and then `b` |
| Lzw.FullStaysFull | src/this.cpp:40-41 | with all 1024 indices assigned, no byte sequence changes the dictionary |
| Lzw.DictionaryFreezes | src/this.cpp:40-41 | once index 1023 has been assigned at some point of the input, the dictionary is final |
| Lzw.ScanByte | src/this.cpp:35-43 | the loop body, with the count array updated in place, computes `Step` |
| Lzw.ScanLine | src/this.cpp:33-45 | the loop over one line plus its newline computes `Run` over those bytes |
| Lzw.InputToLzw | src/this.cpp:19-49 | the imperative coder returns exactly `Encode(lines)` |
| Huffman.Node.Combine | src/this.cpp:57-61 | `combine` adds the weights and keeps every member of both nodes, no more and no fewer (as a multiset); `CombineWeight` proves the result still weighs its members' counts |
| Huffman.Node.Heavier | src/this.cpp:62-64 | `operator>` compares the weights only, this node strictly heavier; `HeavierOrder` states the order it gives the queue |
| Huffman.HeavierOrder | src/this.cpp:62-70 | `operator>` is what `std::greater<Node>` needs: irreflexive, transitive, and with incomparability transitive (a strict weak order) |
| Huffman.CombineWeight | src/this.cpp:57-61 | `combine` adds the weights and concatenates the members, so a node still weighs what its members count |
| Huffman.Reverse | src/this.cpp:87-88 | `std::reverse`: same length, character k is character len-1-k |
| Huffman.ReversePrefix | src/this.cpp:87-88 | reversal turns "a ends b" into "reverse(a) begins reverse(b)" and back (if and only if) |
| Huffman.PrefixFreeNonEmpty | src/this.cpp:77-88 | in a prefix-free code over two or more indices no code is empty |
| Huffman.Lightest | src/this.cpp:62-64 | a nonempty queue holds a node that is not heavier than any queued node |
| Huffman.PopMin | src/this.cpp:78-81 | `top` then `pop` removes one queued node that is not heavier than any other, and keeps the rest |
| Huffman.LeavesNext | src/this.cpp:72-75 | one step of the first loop adds a single-member leaf exactly for a nonzero count |
| Huffman.LeavesFormed | src/this.cpp:72-75 | the leaves are distinct, disjoint nodes of counted indices that weigh their count |
| Huffman.LeavesCover | src/this.cpp:72-75 | every counted index has a leaf |
| Huffman.MakeLeaves | src/this.cpp:72-75 | the first loop yields one node per counted index, and they form the merge invariant with an all-empty code table |
| Huffman.MergeParts | src/this.cpp:78-84 | the two popped nodes are different and have no member in common; the combined node is not already queued |
| Huffman.MergeFormed | src/this.cpp:78-85 | a merge keeps every node well formed (distinct counted members, weight = their counts) and the nodes disjoint, and shrinks the queue by one |
| Huffman.MergeCovers | src/this.cpp:78-85 | after a merge every counted index is still in some queued node |
| Huffman.MergeMarks | src/this.cpp:82-83 | a merge appends '0' to each member of the first node, '1' to each member of the second, and nothing to any other index |
| Huffman.MergeUntouched | src/this.cpp:82-83 | codes stay bit strings and an uncounted index keeps the empty code |
| Huffman.MergeSeparated | src/this.cpp:82-85 | within every subtree, no member's partial code ends another member's |
| Huffman.MergeKeepsForest | src/this.cpp:78-86 | one merge keeps the whole merge-loop invariant |
| Huffman.RootSuffixFree | src/this.cpp:77-86 | when one tree remains, no counted index's partial code ends another's |
| Huffman.ReversedCodes | src/this.cpp:87-88 | reversing the partial codes gives bit strings, empty for every uncounted index, with no counted code a prefix of another |
| Huffman.AppendBit | src/this.cpp:82-83 | `huffmanMap[el] += bit` for each member appends the bit to exactly those codes |
| Huffman.MergeLightest | src/this.cpp:77-86 | one loop round pops a lightest node `n1` and then a lightest remaining node `n2`, appends '0' to the code of every member of `n1` and '1' to every member of `n2`, and leaves the queue without them and with their combination; it keeps the merge invariant and leaves one node fewer |
| Huffman.MergeAll | src/this.cpp:77-86 | the merge loop keeps the merge invariant to its end, with at most one node left, having merged once per node removed; the partial codes are suffix-free; with no merge the table is unchanged |
| Huffman.ReverseEach | src/this.cpp:87-88 | the last loop reverses every code in place |
| Huffman.BuildTree | src/this.cpp:69-86 | leaves then merging: suffix-free partial codes, k-1 merges, all codes empty when at most one index is counted |
| Huffman.CountedNonEmpty | src/this.cpp:77-88 | with two or more counted indices each counted index gets a nonempty code |
| Huffman.HuffmanCodes | src/this.cpp:67-91 | 1024 bit-string codes, prefix-free over the counted indices; empty for uncounted indices; all empty when at most one index is counted; nonempty for every counted index otherwise; the merge loop runs k-1 times for k counted indices and not at all when none is counted |
| BitPacker.CleanedAt | src/this.cpp:103 | a code character counts as a set bit exactly when it is '1' |
| BitPacker.CleanedBits | src/this.cpp:103 | codes of '0' and '1' only are read as they are |
| BitPacker.ValueBound | src/this.cpp:104 | n bits spell a number below 2^n |
| BitPacker.ValueRoundTrip | src/this.cpp:103-104 | reading back the bits of the number a bit string spells gives the string |
| BitPacker.ValueZeros | src/this.cpp:104 | clear bits appended at the end shift the value left |
| BitPacker.PadRoundTrip | src/this.cpp:103-104 | bits followed by clear bits read back as those bits and the clear bits |
| BitPacker.PadSnoc | src/this.cpp:103-104 | one more bit written before m clear bits adds 2^m if it is '1' |
| BitPacker.OrClearBit | src/this.cpp:103-104 | `\|=` with `1 << k` on a value whose bit k is clear adds `1 << k` |
| BitPacker.Imprint | src/this.cpp:97-104 | the partial byte, its written bits from the top and the rest clear, fits in an unsigned char |
| BitPacker.ImprintRoundTrip | src/this.cpp:103-104 | the partial byte holds the bits written, from the top, and clear bits after them |
| BitPacker.ImprintSnoc | src/this.cpp:103-104 | writing bit `ch` at position `progress` adds `1 << (7 - progress)` when `ch == '1'` and nothing otherwise |
| BitPacker.Serialized | src/this.cpp:100-102 | the codes of the emitted indices in order: codes of '0' and '1' give a string of '0' and '1', and nonempty codes give at least one bit per emitted index |
| BitPacker.Packed | src/this.cpp:97-115 | for B code bits the output has B/8 + 1 bytes and its last byte is B % 8, which is below 8 |
| BitPacker.ChunkBits | src/this.cpp:102-111 | a full output byte holds its group of eight bits, most significant first |
| BitPacker.PackedBits | src/this.cpp:100-112 | output byte j has bit 7-i set (character i of its 8 bits, most significant first) exactly when code character 8j+i is '1' |
| BitPacker.FullBytesRoundTrip | src/this.cpp:100-112 | the full bytes of a whole number of bytes read back to the bits |
| BitPacker.PackedRoundTrip | src/this.cpp:100-115 | the bytes before the count read back to every bit but the leftover ones, which are not written |
| BitPacker.FullBytesSame | src/this.cpp:106-107 | a bit that does not complete a byte writes nothing |
| BitPacker.FullBytesGrow | src/this.cpp:107-108 | a bit that completes a byte writes exactly one byte |
| BitPacker.LastChunk | src/this.cpp:107-110 | that byte is the partial byte with the new bit in it |
| BitPacker.PendingStart | src/this.cpp:97-98 | before any code nothing is written and the partial byte is empty |
| BitPacker.PendingBitClear | src/this.cpp:103-104 | the bit the next character goes to is still clear in the partial byte |
| BitPacker.PendingFull | src/this.cpp:103-111 | a character that fills the partial byte writes it, with the bit set, and restarts with an empty byte |
| BitPacker.PendingPartial | src/this.cpp:103-106 | a character that does not fill it only sets its bit and advances `progress` |
| BitPacker.PackBit | src/this.cpp:103-111 | the inner loop body, with `\|=` as a bitwise or, keeps "bytes written = full bytes of the bits so far, partial byte = the rest" |
| BitPacker.PackCode | src/this.cpp:101-112 | the inner loop does that for a whole code |
| BitPacker.BitSerialization | src/this.cpp:93-116 | the output is `Packed` of the concatenated codes of the emitted indices |
| BitPacker.PackerExample | src/this.cpp:100-115 | indices [2, 0, 1] with codes "0", "10", "11" give the bits 11010 and the output [5] |
| Pipeline.EmittedCounted | src/this.cpp:38-39 | with counts as the coder keeps them, every index emitted before the last has a positive count |
| Pipeline.CodeAndPack | src/this.cpp:125-127 | the code table built from the coder's counts is prefix-free, gives every index emitted before the flush a nonempty code once two or more are counted, and the output packs their codes |
| Pipeline.Compress | src/this.cpp:123-127 | the three stages chained: the coder's result is `Encode(lines)`, with the properties above for the codes and the output |

## Left out

- `main`'s file handling (src/this.cpp:118-133) is left out: the fixed file names, opening and closing the streams, and text-mode output. The model takes the input as its lines and returns the output bytes.
- `std::getline` splitting is left out. The input is given as a sequence of lines without `'\n'`, and only the appended `'\n'` is modelled.
- The double weights of `Node` are natural numbers. Precision loss above 2^53 is outside the model.
- The `i64` counts in `occurrence` are unbounded natural numbers. No input that fits in memory can reach the `i64` limit.
- `std::priority_queue`'s heap and its tie-breaking are not modelled. Any lightest node may be popped, so the model promises no particular code strings.
- `Node::combine` updates `n1` in place. The model returns the combined node as a new value, which is then pushed, as the source pushes its copy.
- The source's `unordered_map` hashing, the signedness of `static_cast<char>(i)`, the `short` index type and `unique_ptr` storage are not modelled. The dictionary is a map from byte strings to natural numbers. Bytes are a 0-255 integer type rather than bit-vectors.
- `BitSerialization`: `imprint` is a natural number, proved to stay below 256, so the `unsigned char` never truncates it. `imprint |= 1 << (7 - progress)` is a bitwise or on natural numbers (`Or`). `progress` is a natural number, and the `short` cannot overflow because it stays below 8.
- Huffman optimality (minimum weighted code length) is not proved. The source does not rely on it.
- Decoding is not modelled: the program has no decoder. The round-trip properties use a specification-only reading of the indices (`Lzw.Expand`) and of the bytes (`BitPacker.Unpack`).
