/**
 * compress_file and decompress_file without their file handling: the text is
 * given and returned as a value, and the code table is handed over directly.
 */
module Pipeline {
  import opened Errors
  import opened Bits
  import opened Frequency
  import opened HuffmanTree
  import opened Codes
  import opened Coding

  /** What compress_file writes: the packed bytes and, beside them, the code table. */
  datatype Compressed = Compressed(data: seq<byte>, codes: CodeTable)

  /** A tree with one leaf per symbol of the text has the text's alphabet, and is a leaf iff that alphabet is a singleton. */
  lemma TreeCoversText(root: Node, keys: set<char>, text: seq<char>)
    requires multiset(Symbols(root)) == multiset(keys) && keys == Alphabet(text)
    ensures (set c | c in Symbols(root)) == Alphabet(text)
    ensures root.Leaf? <==> |Alphabet(text)| == 1
  {
    forall c ensures c in Symbols(root) <==> c in keys {
      assert (c in Symbols(root)) == (c in multiset(Symbols(root)));
    }
    assert |Symbols(root)| == |keys| by {
      assert |multiset(Symbols(root))| == |multiset(keys)|;
    }
  }

  /**
   * The first steps of compress_file: frequencies and the tree. An empty text
   * fails at heap[0].
   */
  method TreeOfText(text: seq<char>) returns (r: Result<Node>)
    ensures r.Failure? <==> text == []
    ensures r.Failure? ==> r.error == IndexError
    ensures r.Success? ==> (set c | c in Symbols(r.value)) == Alphabet(text)
    ensures r.Success? ==> (r.value.Leaf? <==> |Alphabet(text)| == 1)
  {
    var freq := BuildFrequencyDict(text);
    r := BuildHuffmanTree(freq);
    if r.Success? {
      TreeCoversText(r.value, freq.Keys, text);
    }
  }

  /** The last steps of compress_file: encoding, padding and packing. */
  function Pack(text: seq<char>, codes: CodeTable): (r: Result<seq<byte>>)
    ensures r.Success? <==> Alphabet(text) <= codes.Keys
    ensures r.Success? ==> |r.value| >= 2
    ensures r.Success? ==> RemovePadding(ExpandBytes(r.value)) == CompressText(text, codes)
  {
    match CompressText(text, codes)
    case Failure(e) => Failure(e)
    case Success(bits) =>
      var padded := PadEncodedText(bits);
      ExpandGetByteArray(padded);
      RemovePaddingOfPad(bits);
      Success(GetByteArray(padded))
  }

  /** compress_file, with the code table generate_codes produces. */
  method Compress(text: seq<char>) returns (r: Result<Compressed>)
    ensures r.Failure? <==> text == []
    ensures r.Failure? ==> r.error == IndexError
    ensures r.Success? ==> r.value.codes.Keys == Alphabet(text) && PrefixFree(r.value.codes)
    ensures r.Success? && |Alphabet(text)| >= 2 ==> NonEmptyCodes(r.value.codes)
    ensures r.Success? && |Alphabet(text)| == 1 ==> r.value.codes == map[text[0] := []]
    ensures r.Success? ==> Pack(text, r.value.codes) == Success(r.value.data)
  {
    var tree := TreeOfText(text);
    if tree.Failure? {
      return Failure(tree.error);
    }
    var codes := GenerateCodes(tree.value);
    var data := Pack(text, codes);
    r := Success(Compressed(data.value, codes));
  }

  /** compress_file with the corrected code generation for a one-leaf tree. */
  method CompressFixed(text: seq<char>) returns (r: Result<Compressed>)
    ensures r.Failure? <==> text == []
    ensures r.Failure? ==> r.error == IndexError
    ensures r.Success? ==> r.value.codes.Keys == Alphabet(text)
    ensures r.Success? ==> PrefixFree(r.value.codes) && NonEmptyCodes(r.value.codes)
    ensures r.Success? ==> Pack(text, r.value.codes) == Success(r.value.data)
  {
    var tree := TreeOfText(text);
    if tree.Failure? {
      return Failure(tree.error);
    }
    var codes := GenerateCodesFixed(tree.value);
    var data := Pack(text, codes);
    r := Success(Compressed(data.value, codes));
  }

  /** decompress_file: expand the bytes, remove the padding, decode with the given table. */
  method Decompress(data: seq<byte>, codes: CodeTable) returns (r: Result<seq<char>>)
    ensures data == [] ==> r == Failure(ValueError)
    ensures data != [] ==> r.Success? && exists reverse ::
      IsReverse(reverse, codes) && r.value == GreedyDecode(reverse, [], RemovePadding(ExpandBytes(data)).value)
  {
    var bitString := ExpandBytes(data);
    var encoded := RemovePadding(bitString);
    if encoded.Failure? {
      return Failure(encoded.error);
    }
    var decoded := DecodeText(encoded.value, codes);
    r := Success(decoded);
  }

  /**
   * Compressing and then decompressing with the table compression produced:
   * the text comes back when it has two or more distinct symbols; a text of
   * one repeated symbol comes back empty; an empty text fails to compress.
   */
  method CompressThenDecompress(text: seq<char>) returns (r: Result<seq<char>>)
    ensures text == [] ==> r == Failure(IndexError)
    ensures |Alphabet(text)| >= 2 ==> r == Success(text)
    ensures |Alphabet(text)| == 1 ==> r == Success([])
  {
    var compressed := Compress(text);
    if compressed.Failure? {
      return Failure(compressed.error);
    }
    var data, codes := compressed.value.data, compressed.value.codes;
    r := Decompress(data, codes);
    ghost var bits := CompressText(text, codes).value;
    ghost var reverse :| IsReverse(reverse, codes) && r.value == GreedyDecode(reverse, [], bits);
    if |Alphabet(text)| >= 2 {
      DecodeCompressTextRoundTrip(reverse, codes, text);
    } else {
      EmptyCodeDecodesNothing(reverse, text[0], [], bits);
    }
  }

  /** With the corrected code generation every non-empty text comes back. */
  method CompressThenDecompressFixed(text: seq<char>) returns (r: Result<seq<char>>)
    ensures text == [] ==> r == Failure(IndexError)
    ensures text != [] ==> r == Success(text)
  {
    var compressed := CompressFixed(text);
    if compressed.Failure? {
      return Failure(compressed.error);
    }
    var data, codes := compressed.value.data, compressed.value.codes;
    r := Decompress(data, codes);
    ghost var bits := CompressText(text, codes).value;
    ghost var reverse :| IsReverse(reverse, codes) && r.value == GreedyDecode(reverse, [], bits);
    DecodeCompressTextRoundTrip(reverse, codes, text);
  }

  /** As written: "aa" is packed into the bytes 8 and 0, which unpack to no bits and decode to "". */
  lemma SingleSymbolTextLost()
    ensures var codes := map['a' := []];
            && CompressText("aa", codes) == Success([])
            && Pack("aa", codes) == Success([8 as byte, 0 as byte])
            && RemovePadding(ExpandBytes(Pack("aa", codes).value)) == Success([])
            && forall reverse :: IsReverse(reverse, codes) ==>
                 GreedyDecode(reverse, [], RemovePadding(ExpandBytes(Pack("aa", codes).value)).value) == []
  {
    EmptyCodeEncodesNothing('a', "aa");
    var none: seq<bool> := [];
    PadEmpty();
  }
}
