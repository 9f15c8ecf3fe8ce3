# Huffman file compressor: a verified model of its coder

This project models the Huffman coder at the heart of `FIleCompreseerDecompresser.py`
and proves its properties in Dafny. The coder is a pipeline:

1. `build_frequency_dict` counts each symbol of the text (`Frequency.BuildFrequencyDict`).
2. `build_huffman_tree` seeds a heap with one leaf per symbol, then repeatedly pops the two
   least-frequent nodes and pushes their merge (`HuffmanTree.BuildHuffmanTree`).
3. `generate_codes` walks the tree, appending `0` for a left step and `1` for a right step
   (`Codes.GenerateCodes`).
4. `compress_text` concatenates the codes of the symbols (`Coding.CompressText`).
5. `pad_encoded_text` prepends an 8-bit header holding the padding `8 - n % 8` and appends that
   many zeros (`Bits.PadEncodedText`).
6. `get_byte_array` packs the result into bytes, most significant bit first (`Bits.GetByteArray`).
7. Decompression expands bytes to eight bits each (`Bits.ExpandBytes`), cuts the padding
   (`Bits.RemovePadding`), and decodes greedily (`Coding.DecodeText`).

Modules: `Errors` (the exceptions as a `Result`), `Bits`, `Frequency`, `HuffmanTree`,
`Codes`, `Coding`, `Pipeline`.

Representations:
- A bit string (a Python `str` over `'0'`/`'1'`) is a `seq<bool>`, with `true` for `'1'`.
- A byte is a `newtype` over 0..255.
- The code table is a `map<char, seq<bool>>`.
- The tree is a datatype `Leaf(symbol, freq) | Internal(left, right, freq)`.
- The heap is a `seq<Node>`.

The imperative parts of the source are methods. These carry loop invariants:
- the counting loop (`Frequency.BuildFrequencyDict`);
- the seeding of the heap, one leaf per table entry (`HuffmanTree.InitialHeap`);
- the heap loop (`HuffmanTree.BuildHuffmanTree`) and the minimum search behind each pop (`HuffmanTree.ExtractMin`);
- the building of the reverse table (`Coding.ReverseCodes`);
- the decoding loop (`Coding.DecodeText`).

The recursive helper of `generate_codes` is a recursive method, `Codes.FillCodes`, that threads the dict it fills.

Each method is proved against a specification function or states its result outright.
`Pipeline.CompressThenDecompress` composes `compress_file` and `decompress_file` without the files.

The model follows the code where it departs from an idealised Huffman coder:
- The padding is `8 - n % 8`, so it ranges over 1..8. It is never 0: an aligned bit string gets a whole byte of zeros.
- A one-leaf tree gives its symbol the empty code, not a one-bit code.
- The decoder drops unmatched trailing bits silently. It raises no corruption error.
- An empty text gives an empty frequency table, and `build_huffman_tree` then raises `IndexError` at `heap[0]` instead of producing empty output.

## Model

| member | source | states |
|---|---|---|
| `Bits.BitsToNat` | FIleCompreseerDecompresser.py:89 | `int(bits, 2)` of an n-bit string is below 2^n, so an 8-bit chunk fits a byte |
| `Bits.BitsToNatOfNatToBits` | FIleCompreseerDecompresser.py:56 | reading back the `08b` header gives the padding number written into it |
| `Bits.NatToBitsOfBitsToNat` | FIleCompreseerDecompresser.py:106 | formatting the value of a bit string to its own width gives the same bit string |
| `Bits.NatToBits` | FIleCompreseerDecompresser.py:56 | `f"{n:0{width}b}"` for n below 2^width: exactly width digits, zero-filled on the left; its value is n by `BitsToNatOfNatToBits` |
| `Bits.Zeros` | FIleCompreseerDecompresser.py:57 | `"0" * n`: n bits, all of them zero |
| `Bits.ByteBits` | FIleCompreseerDecompresser.py:106 | `f"{byte:08b}"` is eight bits whose value, most significant first, is the byte |
| `Bits.PadEncodedText` | FIleCompreseerDecompresser.py:54-58 | output length is a multiple of 8. The header value p is in 1..8. Length is 8 + n + p. The input bits follow the header unchanged, then only zeros |
| `Bits.PadEmpty` | FIleCompreseerDecompresser.py:55-58 | an empty (already aligned) bit string gets a whole byte of padding: it packs to the header byte 8 and one zero byte |
| `Bits.DropLast` | FIleCompreseerDecompresser.py:91 | `s[:-k]` is a prefix of s. It is empty when k is 0 or at least len(s), and has len(s) - k items otherwise |
| `Bits.RemovePadding` | FIleCompreseerDecompresser.py:88-91 | fails with ValueError exactly on an empty stream. Otherwise the result is a prefix of the bits after the header |
| `Bits.RemovePaddingOfPad` | FIleCompreseerDecompresser.py:88-91 | `remove_padding(pad_encoded_text(e)) == e` for every bit string e |
| `Bits.RemovePaddingZeroHeader` | FIleCompreseerDecompresser.py:91 | a header of 0 makes `[:-0]` return the empty string, whatever follows |
| `Bits.GetByteArray` | FIleCompreseerDecompresser.py:60-61 | n bits pack into ceil(n / 8) bytes |
| `Bits.ExpandBytes` | FIleCompreseerDecompresser.py:106 | each byte expands to exactly eight bits |
| `Bits.ExpandGetByteArray` | FIleCompreseerDecompresser.py:60-61 | expanding the packed bytes of a bit string whose length is a multiple of 8 gives it back |
| `Bits.GetByteArrayExpand` | FIleCompreseerDecompresser.py:106 | packing the expansion of any byte sequence gives the bytes back |
| `Frequency.BuildFrequencyDict` | FIleCompreseerDecompresser.py:18-22 | keys are exactly the distinct symbols. Each count equals the symbol's occurrences and is positive. The counts sum to the text length |
| `Frequency.MapSumUpdate` | FIleCompreseerDecompresser.py:21 | incrementing one count of the table raises the sum of counts by the same amount |
| `HuffmanTree.ExtractMin` | FIleCompreseerDecompresser.py:29-30 | the popped node has the least frequency on the heap. The rest is the heap without exactly that element |
| `HuffmanTree.InitialHeap` | FIleCompreseerDecompresser.py:25-26 | one leaf per key, carrying its frequency. The leaf symbols are the keys, each once, and the weights sum to the table's total |
| `HuffmanTree.MergeStep` | FIleCompreseerDecompresser.py:28-34 | popping two nodes and pushing their merge keeps every node well formed. It keeps the multiset of leaf symbols and the total weight |
| `HuffmanTree.BuildHuffmanTree` | FIleCompreseerDecompresser.py:24-36 | an empty table fails with IndexError. Otherwise every internal node's freq is the sum of its children's, each leaf carries its symbol's frequency, there is one leaf per key, and the root's freq is the total of all frequencies |
| `HuffmanTree.LastNode` | FIleCompreseerDecompresser.py:36 | the single node left on the heap holds all the symbols and all the weight |
| `Codes.CodesOf` | FIleCompreseerDecompresser.py:40-47 | keys are the leaf symbols. Each code extends the current prefix, and following the rest of it from the node reaches that symbol's leaf |
| `Codes.LeafAtExtend` | FIleCompreseerDecompresser.py:43-45 | a path that reaches a leaf cannot be extended to reach anything |
| `Codes.CodesPrefixFree` | FIleCompreseerDecompresser.py:38-49 | the generated table of any tree is prefix-free |
| `Codes.FillCodes` | FIleCompreseerDecompresser.py:40-47 | the recursive helper adds exactly the subtree's table to the dict it fills. The right subtree's entries win |
| `Codes.RootCodes` | FIleCompreseerDecompresser.py:48 | from the root, each code is the path to its symbol's leaf, so its length is the leaf's depth. A leaf root gets the empty code, and an internal root gives only non-empty codes |
| `Codes.GenerateCodes` | FIleCompreseerDecompresser.py:38-49 | one code per leaf symbol, each the path to its leaf. The table is prefix-free. A leaf root gets `""`. With two or more leaves no code is empty |
| `Codes.GenerateCodesFixed` | FIleCompreseerDecompresser.py:43-48 | corrected generation: a leaf root gets `"0"`, so every table is prefix-free with only non-empty codes |
| `Coding.CompressText` | FIleCompreseerDecompresser.py:51-52 | succeeds exactly when every symbol has a code. Otherwise it fails with KeyError of the first symbol without one |
| `Coding.CompressTextAppend` | FIleCompreseerDecompresser.py:52 | encoding distributes over concatenation of texts, and the first failure wins |
| `Coding.CompressTextSymbol` | FIleCompreseerDecompresser.py:52 | a one-symbol text encodes to exactly its code |
| `Coding.GreedyDecode` | FIleCompreseerDecompresser.py:97-101 | the greedy scan emits at most one symbol per bit |
| `Coding.Invert` | FIleCompreseerDecompresser.py:94 | every code table has a reverse table: keys are the codes, and each maps to a symbol with that code |
| `Coding.ReverseCodes` | FIleCompreseerDecompresser.py:94 | `{v: k for k, v in codes.items()}` is a reverse table of the codes |
| `Coding.DecodeText` | FIleCompreseerDecompresser.py:93-102 | the loop's output is the greedy decoding of the whole bit string under a reverse table of the codes |
| `Coding.PrefixFreeReverse` | FIleCompreseerDecompresser.py:94 | with a prefix-free table, the reverse table maps each symbol's code back to that symbol |
| `Coding.DecodeOneCode` | FIleCompreseerDecompresser.py:97-101 | reading the rest of one code from anywhere inside it emits exactly that symbol, then resets |
| `Coding.DecodeCompressed` | FIleCompreseerDecompresser.py:93-102 | with a prefix-free table of non-empty codes, decoding an encoded text followed by any bits emits the text first |
| `Coding.DecodeCompressTextRoundTrip` | FIleCompreseerDecompresser.py:93-102 | `decode_text(compress_text(t, codes), codes) == t` for prefix-free tables of non-empty codes |
| `Coding.UniquelyDecodable` | FIleCompreseerDecompresser.py:51-52 | with a prefix-free table of non-empty codes, two texts with the same encoding are equal |
| `Coding.PartialCodeDropped` | FIleCompreseerDecompresser.py:97-102 | the bits of an unfinished code never complete a code, and they are dropped |
| `Coding.TrailingBitsDropped` | FIleCompreseerDecompresser.py:97-102 | an encoded text followed by the start of a code decodes to the text alone, with no error |
| `Coding.EmptyCodeDecodesNothing` | FIleCompreseerDecompresser.py:97-101 | with the single empty code, any bit string decodes to `""` |
| `Coding.EmptyCodeEncodesNothing` | FIleCompreseerDecompresser.py:52 | with the single empty code, a text of that symbol encodes to no bits |
| `Pipeline.TreeCoversText` | FIleCompreseerDecompresser.py:67-68 | the tree built from the text's frequencies has the text's alphabet as its leaves. It is a single leaf exactly when the text has one distinct symbol |
| `Pipeline.TreeOfText` | FIleCompreseerDecompresser.py:67-68 | an empty text fails with IndexError. Otherwise the tree's leaves are the text's distinct symbols, and the tree is a leaf exactly when there is one |
| `Pipeline.Pack` | FIleCompreseerDecompresser.py:70-72 | packing succeeds exactly when the table covers the text. Unpacking and unpadding the bytes gives back the encoded bits |
| `Pipeline.Compress` | FIleCompreseerDecompresser.py:63-84 | fails exactly on empty text. Otherwise the table covers exactly the alphabet and is prefix-free. Codes are non-empty with two or more symbols, and a lone symbol gets `""`. The bytes are the packed, padded encoding |
| `Pipeline.CompressFixed` | FIleCompreseerDecompresser.py:67-72 | as Compress, but with the corrected generation every code is non-empty |
| `Pipeline.Decompress` | FIleCompreseerDecompresser.py:104-117 | empty data fails with ValueError. Otherwise the result is the greedy decoding of the unpadded expansion of the bytes |
| `Pipeline.CompressThenDecompress` | FIleCompreseerDecompresser.py:63-117 | with two or more distinct symbols the text round-trips. A text of one repeated symbol comes back empty. An empty text fails with IndexError |
| `Pipeline.CompressThenDecompressFixed` | FIleCompreseerDecompresser.py:63-117 | with the corrected code generation every non-empty text round-trips |
| `Pipeline.SingleSymbolTextLost` | FIleCompreseerDecompresser.py:48 | as written, `"aa"` encodes to no bits and is packed into two bytes that decode to `""` |

## Left out

- The Tkinter GUI (`select_file`, `select_file_to_decompress`, `run_gui` and the call that starts it) is user interface, not coding logic.
- File I/O is left out: the text is a value, and the bytes are returned rather than written.
  - Reading in text mode (its newline translation and character encoding) is not modelled.
- The `pickle` files holding the code table are left out. The table is handed from compression to decompression as a value.
- The size statistics (`os.path.getsize(...) / 1024`) are left out: they read the file system and use floating point.
- `HuffmanTree.ExtractMin`: removes the first least-frequency node in sequence order, and a push appends. The heap layout `heapq` uses to break ties between equal frequencies is not modelled. Every proved property holds for any choice of a minimum, but when frequencies tie the exact tree shape may differ from Python's.
- `HuffmanTree.InitialHeap`: seeds the heap in an arbitrary key order, while Python seeds it in dict insertion order, the order of first occurrence in the text. Every proved property holds for any seeding order; like tie-breaking, the order only changes the tree's shape when frequencies tie.
- `Coding.DecodeText`: states the output for some reverse table consistent with the codes. When two symbols share a code, which one `{v: k ...}` keeps depends on dict iteration order, which is not modelled. Tables from `generate_codes` are prefix-free, so this case does not arise for them.
- The optimality of the Huffman code (minimal expected length) is not stated or proved.
- `Node` is a value. In the source, the `left`/`right` fields are assigned once, right after the merged node is constructed, and never changed after that.
- The `node is None` test in the helper of `generate_codes` is never true for the trees built here, because every internal node has both children. The datatype has no such case.
- Bit strings hold only `'0'` and `'1'`, so the other inputs `int(..., 2)` would accept or reject do not arise.

## Findings

| source | as written | input that shows it | evidently intended | confidence | as-written member | corrected member |
|---|---|---|---|---|---|---|
| FIleCompreseerDecompresser.py:43-48 | a tree that is a single leaf gives its symbol the empty code `""` | the text `"aa"` compresses to the header byte 8 and one zero byte, and decompresses to `""` | the lone symbol gets a one-bit code such as `"0"`, so every non-empty text round-trips | not executed | `Pipeline.SingleSymbolTextLost` | `Codes.GenerateCodesFixed` |

The as-written behaviour stays in `Pipeline.Compress` and `Pipeline.CompressThenDecompress`.
The corrected path is `Pipeline.CompressFixed` and `Pipeline.CompressThenDecompressFixed`.
