# Huffman coding of byte slices, and the .hff file layout

This project models the `compress` package of huffman-coding and the
file-format functions of `file/files.go`. All definitions are in Dafny.

- **`symbolsFrequency`** counts the bytes of the input. It keeps one node per
  distinct byte, in order of first appearance, and then insertion-sorts the
  list by count.
- **`encode`** builds the Huffman tree. It repeatedly merges the two front
  nodes of the sorted list into a node with symbol 0, appends that node and
  re-sorts the list.
- **`getCodes`** and **`find`** turn the tree into the code table. A byte's
  code is the path `find` takes to it: `'0'` for a left step, `'1'` for a
  right step.
- **`HuffmanEncode`** concatenates the codes.
- **`HuffmanDecode`** builds a word from the input one byte at a time. When
  the word is a code in the reversed table, it emits that code's symbol and
  starts a new word.
- **`Encode`** (in `file/files.go`) writes a file in this order:
  - a `(symbol, code length)` byte pair for every key of the table;
  - the sentinel pair `(0, 0)`;
  - the bits of every code, in the same key order;
  - one bit per encoded byte.
- **`Decode`** reads the file back in the same order.

Module layout:

- `common.dfy` holds Go's `byte`, the Option type, the UTF-8 encoding used by
  `[]byte(string)`, and map lookup with its zero value.
- `nodes.dfy` holds `node`, `Code`, `find`, `Reverse`, `Keys` and `Values`,
  plus facts about paths in a tree.
- `frequencies.dfy` holds `sort` as an in-place insertion sort on an array,
  `contains` and `getCodes`.
- `encode.dfy` holds the merge loop of `encode` and what it preserves.
- `coding.dfy` holds `symbolsFrequency`, `HuffmanEncode` and `HuffmanDecode`.
  It also holds the round trip and its counterexamples, and the documented
  example.
- `bitio.dfy` holds the bit writer and reader that `file/files.go` drives.
- `files.dfy` holds `writeCodes`, the payload loop of `Encode`,
  `readSymSizes`, `readCode`, `readData` and `Decode`.

Loops become methods with invariants. Each method is proved against a
function that states what it computes. That function's properties are
lemmas:

| method | function it is proved against |
|---|---|
| `Sort` | `InsertionSorted` |
| `Encode` | `Step`, `Forest`, `Root` |
| `SymbolsFrequency` | `Tally`, `SymbolCounts` |
| `HuffmanEncode` | `CodeTable`, `EncodeWith` |
| `HuffmanDecode` | `Greedy` |
| `ReadSymSizes` | `ReadPairs` |
| `ReadCode` | `ReadTable` |

Other modelling choices:

- A Go panic is `None`.
- The tree is an immutable datatype. `encode` keeps pointers into its work
  slice, but a node is never changed once it is placed in the tree, so
  value semantics are faithful.
- Go's map iteration order is unspecified. `Keys` and `Values` choose keys
  with `:|`, and `Reverse` is specified by the property that every result
  it may return satisfies.

The bit writer abstracts `github.com/icza/bitio`, and so does the bit reader.
- **Writer.** The destination accepts a fixed number of bits, `limit`, and
  fails on the next one. The ghost field `requested` records every bit the
  program asked to write. The sticky `failed` flag stands for
  `TryError != nil`.
- **Reader.** The reader is a position in a finite bit sequence. A read past
  the end yields false, sets `failed` and leaves the position at the end.

Where the documentation and the code disagree, the model follows the code:

- **Empty input.** `HuffmanEncode` panics on an empty input, because `encode`
  indexes `tree[0]` of an empty slice.
- **Single-symbol input.** An input with a single distinct byte gets the
  empty code, so it encodes to nothing.
- **Byte 0x00.** The byte 0x00 gets the empty code whenever the tree has a
  merged node. Merged nodes carry symbol 0 and `find` tests the symbol
  first. So 0x00 gets a shorter code than every other byte of the input,
  even one with a larger count.
- **Round trip.** The documented round trip holds only for inputs with at
  least two distinct bytes and no 0x00 byte. With 0x00 in the input,
  decoding the encoding gives the input with every 0x00 removed. With a
  single distinct byte it gives nothing.
- **`readSymSizes`.** It discards the pairs it reads and returns nil keys
  and sizes.
- **`readData` and `Decode`.** `readData` always returns an error, so
  `Decode` always fails.
- **Type name.** `getCodes` is declared with the lower-case type name
  `code`. This model treats it as `Code`.

## Model

| member | source | states |
|---|---|---|
| Common.Utf8 | compress/huffmanCoding.go:22 | Go's `[]byte(s)` takes 1 to 4 bytes per character, and a character below 0x80 is the single byte of its code point |
| Nodes.Find | compress/node.go:27-42 | a successful search returns a string of '0' and '1'; a failed one returns "" |
| Nodes.FindSound | compress/node.go:27-42 | a successful `find` returns a path of '0'/'1' steps that ends at a node with the searched symbol; every node above it has another symbol and a count above the searched one; a failed `find` returns "" |
| Nodes.FindFirst | compress/node.go:27-42 | if any such path exists, `find` succeeds, and it returns that path or one earlier in left-before-right order |
| Nodes.FindUnique | compress/node.go:27-42 | in a well-formed tree where a nonzero symbol occurs once, `find` on its node returns exactly the path to it |
| Nodes.LeafPathMaximal | compress/node.go:53-59 | in a tree built by merging, no path leads below a node with a nonzero symbol, because such a node is a leaf |
| Nodes.Reverse | compress/node.go:67-73 | the result maps every code of the table back to a key holding that code and has no other entries; its size is at most that of the table; when codes are distinct it maps `c[k]` back to `k` |
| Nodes.Keys | compress/node.go:76-86 | returns `len(c)` keys; every key of the table appears exactly once and nothing else appears |
| Nodes.Values | compress/node.go:89-99 | returns `len(c)` codes, namely the code of each key once, in the order of some listing of the keys |
| Frequencies.Sort | compress/frequencies.go:23-34 | the array ends up equal to `InsertionSorted` of its old contents; it is non-decreasing by count and a permutation (same multiset) |
| Frequencies.ShiftIn | compress/frequencies.go:25-32 | the inner loop stops at the first slot from the right whose left neighbour has a smaller count; it shifts the entries in between one place right, puts the cursor in the gap, and leaves the rest of the array unchanged |
| Frequencies.OpenGap | compress/frequencies.go:26-31 | the `while` loop moves every entry before index `i` whose count is at least the cursor's one place right, stops at the first left neighbour with a smaller count (or at 0), and touches nothing after `i` |
| Frequencies.SortStep | compress/frequencies.go:24-33 | one pass of the outer loop extends the sorted prefix by inserting the next entry |
| Frequencies.InsertionSorted | compress/frequencies.go:23-34 | the value of the in-place sort: each entry in turn is inserted after the sorted entries with a smaller count and before those with an equal or larger one; the length is kept |
| Frequencies.InsertionSortedIsSorted | compress/frequencies.go:23-34 | the sort's result is non-decreasing by count |
| Frequencies.InsertionSortedPermutes | compress/frequencies.go:23-34 | the sort's result has the same multiset of nodes as its input |
| Frequencies.TiesReversed | compress/frequencies.go:28 | for every count, the entries with that count come out in the reverse of their input order, because the shift test is `>=` |
| Frequencies.IndexOf | compress/frequencies.go:37-44 | the first index holding the symbol, or -1 exactly when no entry holds it |
| Frequencies.Contains | compress/frequencies.go:37-44 | returns (true, i) with `freqs[i].b == b` and no earlier index holding `b`, or (false, -1) when `b` is absent |
| Frequencies.GetCodes | compress/frequencies.go:49-55 | the table equals `CodesOf`, which writes `find`'s string for each entry in list order, whatever `find`'s success flag |
| Frequencies.CodesOf | compress/frequencies.go:49-55 | the table `getCodes` builds: `find`'s string for each entry in list order, a later entry for a symbol overwriting an earlier one; its keys are exactly the list's symbols |
| Frequencies.CodesOfFacts | compress/frequencies.go:49-55 | the table's keys are exactly the list's symbols; each symbol's code is `find`'s string for its last entry, even when `find` fails |
| HuffmanTree.Merge | compress/node.go:53-58 | the node that replaces the two front entries has symbol 0 and their total count |
| HuffmanTree.MergeFacts | compress/node.go:51-58 | the merged node has symbol 0, the sum of the two counts, and the two entries as its children; the second entry goes left, except on equal counts with symbol 0 second, when the first goes left; on sorted input the left child's count is at least the right's |
| HuffmanTree.Step | compress/node.go:50-61 | one iteration shrinks the work list by exactly one |
| HuffmanTree.Forest | compress/node.go:50-61 | the loop ends with exactly one entry, or with none for an empty list |
| HuffmanTree.MergeFront | compress/node.go:51-60 | the loop body on a fresh array equals one `Step` of the list |
| HuffmanTree.Encode | compress/node.go:46-63 | panics (None) exactly on an empty list; otherwise returns `getCodes` of the list against the last remaining root; its argument is a value and is not changed |
| HuffmanTree.StepKeeps | compress/node.go:50-61 | an iteration keeps the total count, the number of nodes per nonzero symbol (and per symbol and count), and the shape of every tree |
| HuffmanTree.RootFreq | compress/node.go:50-61 | the root's count is the sum of all input counts |
| HuffmanTree.RootShape | compress/node.go:50-61 | the root is a full binary tree whose internal nodes have symbol 0 and the sum of their children's counts; each nonzero symbol occurs in it as often as in the input list |
| HuffmanTree.RootMerged | compress/node.go:53-59 | with two or more entries the root is a merged node with symbol 0 and two children |
| Coding.Bump | compress/huffmanCoding.go:52-56 | one iteration of the counting loop adds one to the count of the first entry for the byte, or appends a leaf for it with count 1; the list grows by at most one entry |
| Coding.Tally | compress/huffmanCoding.go:51-57 | the list the counting loop builds, one `Bump` per input byte in order; it has at most one entry per input byte |
| Coding.TallyFacts | compress/huffmanCoding.go:51-57 | the counting loop gives one leaf per distinct byte, holding that byte's count, and nothing else; the counts add up to the input length |
| Coding.SymbolCountsFacts | compress/huffmanCoding.go:50-60 | `symbolsFrequency` is sorted by count and lists every distinct byte exactly once with its count (at least 1); the counts sum to `len(data)`; the result is empty exactly for empty input |
| Coding.SymbolsFrequency | compress/huffmanCoding.go:50-60 | the method returns `SymbolCounts(data)`, which is sorted, tallies the input and sums to its length |
| Coding.CodeTable | compress/huffmanCoding.go:17-18 | the table `encode` builds, stated per byte: each byte of the input maps to `find`'s path to its leaf in the final root; its keys are exactly the input's bytes |
| Coding.EncodeWith | compress/huffmanCoding.go:20-23 | the output of the encoding loop: the UTF-8 bytes of each input byte's code (the zero value "" for a missing key), in input order; when every byte has a non-empty code, the output is at least as long as the input |
| Coding.EncodeBuildsCodeTable | compress/huffmanCoding.go:17-18 | the table `encode` builds from `symbolsFrequency`'s list maps each byte of the input to `find`'s path to its leaf (`CodeTable`) |
| Coding.CodeOfByte | compress/frequencies.go:49-55 | each byte of the input has an entry in the table `encode` builds, and it is `find`'s path to that byte's leaf |
| Coding.HuffmanEncode | compress/huffmanCoding.go:16-25 | panics (None) exactly on empty input; otherwise the table's keys are exactly the input's bytes, the table is `CodeTable`, and the output is the codes of the input bytes concatenated in order |
| Coding.AppendCodes | compress/huffmanCoding.go:20-23 | the output loop appends the UTF-8 bytes of each input byte's code, in input order |
| Coding.CodeReachesLeaf | compress/node.go:46-63 | a nonzero byte occurs once in the tree; its code is a '0'/'1' path that leads to the node holding it |
| Coding.CodesPrefixFree | compress/node.go:46-63 | the code of a nonzero byte is never a prefix of, or equal to, the code of another nonzero byte |
| Coding.CodesNonEmpty | compress/node.go:46-63 | with two or more distinct bytes in the input, every nonzero byte's code has at least one bit |
| Coding.ZeroGetsEmptyCode | compress/node.go:28-30 | the byte 0x00 always gets the empty code |
| Coding.SingleSymbolEmptyCode | compress/node.go:46-63 | an input of one distinct byte gets the table mapping that byte to "" |
| Coding.Greedy | compress/huffmanCoding.go:36-43 | the decoding loop emits at most one symbol per input byte, and only values of the reversed table |
| Coding.HuffmanDecode | compress/huffmanCoding.go:32-45 | the output is the greedy decoding against one reverse of the table; it is never longer than the input, and every emitted byte is a key of the table |
| Coding.GreedyNeverEmpty | compress/huffmanCoding.go:37-39 | the decoding loop appends a byte before every lookup, so an entry for the empty word never changes its output |
| Coding.TrailingWordDropped | compress/huffmanCoding.go:37-43 | trailing input that never completes a word of the table produces no output |
| Coding.DecodeEncoded | compress/huffmanCoding.go:32-45 | decoding what a prefix-free table of non-empty '0'/'1' codes encoded gives back the input |
| Coding.RoundTrip | compress/huffmanCoding.go:16-45 | with two distinct bytes and no 0x00 byte in the input, decoding the encoding gives back the input for every reverse table |
| Coding.EncodeThenDecode | compress/huffmanCoding.go:16-45 | calling `HuffmanDecode` on `HuffmanEncode`'s results returns the input, under the same conditions |
| Coding.ZeroOneTable | compress/node.go:28-30 | the input [0, 1] gets the codes 0 → "" and 1 → "0": 0x00 ends at the root |
| Coding.ZeroIsLost | compress/node.go:28-30 | the input [0, 1] gets the codes 0 → "" and 1 → "0", is encoded as "0", and decodes to [1] |
| Coding.ZeroBytesDropped | compress/huffmanCoding.go:16-45 | for every input holding 0x00 and every reverse of its table, decoding the encoding gives the input with every 0x00 removed, and so never the input itself |
| Coding.ZeroCodeShortest | compress/node.go:28-30 | 0x00 gets a strictly shorter code than every other byte of the input, whatever their counts |
| Coding.ZeroBreaksCodeLengthOrder | compress/node.go:28-30 | on [1, 1, 0], 0x00 occurs once and 0x01 twice, yet 0x00 gets the shorter code |
| Coding.SingleSymbolIsLost | compress/huffmanCoding.go:20-23 | an input of one distinct byte encodes to nothing and so decodes to nothing |
| Coding.ExampleTree | compress/node.go:50-61 | on "AAAABBBCCD" the merge loop builds the root (10: (6: B, (3: C, D)), A) |
| Coding.DocumentedExample | compress/huffmanCoding.go:6-12 | "AAAABBBCCD" gets the codes A "1", B "00", C "010", D "011" and is encoded as 1111000000010010011 |
| Files.HeaderBytes | file/files.go:74-78 | the header takes two bytes per symbol plus the two-byte sentinel |
| Files.WriteCodes | file/files.go:72-87 | writes the pairs `(k, byte(len(code)))` in `Keys` order, the sentinel (0, 0), and then the code bits in the same order, in which each character '1' becomes a one bit; the order lists each key once; returns TryError |
| Files.WritePairs | file/files.go:74-78 | the first loop and the sentinel write the header bytes of the key order |
| Files.WriteCodeBits | file/files.go:80-84 | the second loop writes the bits of every code in key order |
| Files.WriteCode | file/files.go:81-83 | one bit per code character, true iff it is '1' |
| Files.WritePayload | file/files.go:56-58 | one bit per encoded byte, true iff it is '1'; the loop stops at the first writer error; the destination holds the prefix of the stream that fits, and the error is set iff the stream does not fit |
| Files.WriteFile | file/files.go:54-60 | after the destination is open, the writer holds the prefix of header, codes and payload that fits, and the error is set iff they do not all fit |
| Files.EncodeFile | file/files.go:43-61 | panics (None) exactly on empty source; a create error is returned before anything is written; otherwise the file is header, codes and payload of `HuffmanEncode`'s results, cut at the destination's limit, and the error is set iff they do not all fit |
| Files.ReadPairs | file/files.go:92-96 | reading pairs yields as many sizes as symbols, all symbols nonzero, and stops within the input; it stops at the end of the input on failure |
| Files.ReadSymSizes | file/files.go:91-99 | the loop reads pairs up to and including the first pair whose symbol is 0, or until a read fails; it always returns nil keys and sizes, with the reader's error |
| Files.ReadPair | file/files.go:93 | one `TryRead` of the two-byte buffer: with 16 bits left it reads the symbol and the size byte and advances 16 bits; otherwise it sets the error and moves to the end |
| Files.BitChars | file/files.go:107-113 | the string built from `n` bits is made of '0' and '1' and has `n` characters (none for a negative size) |
| Files.ReadBits | file/files.go:107-113 | the inner loop reads `n` bits as '0'/'1' characters; reads past the end give '0' and set the error |
| Files.ReadCode | file/files.go:102-118 | maps each key, in order, to the string of its size's bits; the reader advances by the sizes' total and fails iff that passes the end; returns TryError |
| Files.ReadTable | file/files.go:102-117 | the table `readCode` builds: each key, in order, maps to the string of its size's bits, a repeated key keeping its last string; every value is made of '0' and '1' |
| Files.ReadTableFacts | file/files.go:102-117 | the table's keys are exactly the given keys; every value is '0'/'1'; the value for the last occurrence of a key has exactly that occurrence's size in characters |
| Files.ReadData | file/files.go:121-131 | reads every remaining bit as '1' or '0', plus a '0' for the read that fails; it ends at the end of the input and always returns an error |
| Files.Decode | file/files.go:13-38 | always returns an error and no data |
| Files.HeaderRoundTrip | file/files.go:72-99 | reading pairs from a header that `writeCodes` wrote gives back the symbols and size bytes in writing order, up to the first symbol 0, and stops right after that pair or the sentinel |
| Files.CodesRead | file/files.go:102-117 | reading codes back with each code's length as its size gives every written symbol exactly its code |
| Files.CodeRoundTrip | file/files.go:80-117 | the code bits `writeCodes` wrote, read with the size bytes it wrote, give back the table, provided codes are '0'/'1' and shorter than 256 characters |
| Files.PayloadRoundTrip | file/files.go:121-129 | payload bits of '0'/'1' bytes read back as the same bytes |

## Left out

- `String()` methods (compress/node.go:20-22, compress/frequencies.go:14-20) are left out. They only format text for `fmt`.
- The file system is left out. The model has no file names, and leaves out `os.Open`, `os.Create`, `ioutil.ReadFile` and `defer Close`. `EncodeFile` takes the source bytes, and `Decode` takes the bits of the file.
  - Open and create errors become boolean parameters.
  - A `ReadFile` that fails to open the file gives nil source bytes, which panic in `HuffmanEncode`. A read that fails later gives a prefix of the file, which `EncodeFile` takes like any other source.
- `bitio` internals are left out: packing bits into bytes, buffering, short reads, and the zero padding and flush done by `Close`. Reading and writing are on a finite bit sequence.
  - The writer fails once a fixed number of bits is exceeded, and keeps what fits.
  - `TryRead` either fills the whole slice or fails at the end of the input.
- Go slice capacity and `append` reallocation in `encode` are not modelled. The tree is a value.
- `int` overflow of node counts is not modelled, because counts are unbounded integers. An input of more than 2^63 bytes is out of reach anyway.
- Keys, Values: Go's map iteration order is not modelled as a particular order. Any order is allowed.
- Reverse: when two keys share a code, which of them wins is left open.
- Code-length order: that a nonzero byte with a lower count never gets a shorter code than another nonzero byte is not proved. It rests on the optimality of Huffman trees, which this model does not formalise. For 0x00 the order does not hold (`Coding.ZeroBreaksCodeLengthOrder`).
- Files.CodeRoundTrip: codes of 256 characters or more are excluded. Their size byte is cut to eight bits, so they do not read back.
- Files.Decode: the unreachable call of `HuffmanDecode` after `readData` is not modelled, because `readData` always fails. A reader that reaches that point does not exist.
