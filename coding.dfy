/** compress_text and decode_text: turning symbols into bits with a code table and back. */
module Coding {
  import opened Errors
  import opened Codes

  /**
   * compress_text: the codes of the symbols, in order; looking up a symbol
   * that has no code raises KeyError at the first such symbol.
   */
  function CompressText(text: seq<char>, codes: CodeTable): (r: Result<seq<bool>>)
    ensures r.Success? <==> forall i :: 0 <= i < |text| ==> text[i] in codes
    ensures r.Failure? ==>
      exists i :: 0 <= i < |text| && text[i] !in codes && r.error == KeyError(text[i])
                  && forall j :: 0 <= j < i ==> text[j] in codes
  {
    if text == [] then Success([])
    else if text[0] !in codes then Failure(KeyError(text[0]))
    else
      match CompressText(text[1..], codes)
      case Success(rest) => Success(codes[text[0]] + rest)
      case Failure(e) =>
        ghost var i :| 0 <= i < |text[1..]| && text[1..][i] !in codes && e == KeyError(text[1..][i])
                       && forall j :: 0 <= j < i ==> text[1..][j] in codes;
        assert text[i + 1] !in codes && forall j :: 0 <= j < i + 1 ==> text[j] in codes;
        Failure(e)
  }

  /** Encoding distributes over concatenation, and the first failure wins. */
  lemma {:induction false} CompressTextAppend(a: seq<char>, b: seq<char>, codes: CodeTable)
    ensures CompressText(a + b, codes) ==
      match (CompressText(a, codes), CompressText(b, codes))
      case (Success(x), Success(y)) => Success(x + y)
      case (Success(_), Failure(e)) => Failure(e)
      case (Failure(e), _) => Failure(e)
  {
    if a == [] {
      assert a + b == b;
      if CompressText(b, codes).Success? {
        var none: seq<bool> := [];
        assert none + CompressText(b, codes).value == CompressText(b, codes).value;
      }
    } else {
      assert (a + b)[0] == a[0] && (a + b)[1..] == a[1..] + b;
      CompressTextAppend(a[1..], b, codes);
      if a[0] in codes {
        match (CompressText(a[1..], codes), CompressText(b, codes))
        case (Success(x), Success(y)) =>
          assert codes[a[0]] + (x + y) == (codes[a[0]] + x) + y;
        case _ =>
      }
    }
  }

  /** One symbol encodes to exactly its code. */
  lemma CompressTextSymbol(c: char, codes: CodeTable)
    requires c in codes
    ensures CompressText([c], codes) == Success(codes[c])
  {
    assert [c][1..] == [];
    assert codes[c] + [] == codes[c];
  }

  /**
   * The decoding loop of decode_text from a given state: each bit is appended
   * to the current candidate, which is emitted and reset as soon as it is a
   * key of the reverse table. What is left in the candidate at the end is dropped.
   */
  function GreedyDecode(reverse: map<seq<bool>, char>, current: seq<bool>, bits: seq<bool>): (r: seq<char>)
    ensures |r| <= |bits|
    decreases |bits|
  {
    if bits == [] then []
    else
      var candidate := current + [bits[0]];
      if candidate in reverse then [reverse[candidate]] + GreedyDecode(reverse, [], bits[1..])
      else GreedyDecode(reverse, candidate, bits[1..])
  }

  /** reverse maps each code of the table back to a symbol that has that code. */
  ghost predicate IsReverse(reverse: map<seq<bool>, char>, codes: CodeTable) {
    && reverse.Keys == codes.Values
    && forall v :: v in reverse ==> reverse[v] in codes && codes[reverse[v]] == v
  }

  /** Some reverse table exists for every code table. */
  ghost function Invert(codes: CodeTable): (reverse: map<seq<bool>, char>)
    ensures IsReverse(reverse, codes)
  {
    map v | v in codes.Values :: var c :| c in codes && codes[c] == v; c
  }

  /** {v: k for k, v in codes.items()} */
  method ReverseCodes(codes: CodeTable) returns (reverse: map<seq<bool>, char>)
    ensures IsReverse(reverse, codes)
  {
    reverse := map[];
    var rest := codes.Keys;
    while rest != {}
      invariant rest <= codes.Keys
      invariant reverse.Keys == set c | c in codes.Keys - rest :: codes[c]
      invariant forall v :: v in reverse ==> reverse[v] in codes && codes[reverse[v]] == v
      decreases rest
    {
      var c :| c in rest;
      reverse := reverse[codes[c] := c];
      rest := rest - {c};
    }
  }

  /** decode_text: the greedy prefix scan over the whole bit string. */
  method DecodeText(encoded: seq<bool>, codes: CodeTable) returns (decoded: seq<char>)
    ensures exists reverse :: IsReverse(reverse, codes) && decoded == GreedyDecode(reverse, [], encoded)
  {
    var reverse := ReverseCodes(codes);
    var current := [];
    decoded := [];
    for i := 0 to |encoded|
      invariant decoded + GreedyDecode(reverse, current, encoded[i..]) == GreedyDecode(reverse, [], encoded)
    {
      assert encoded[i..][0] == encoded[i] && encoded[i..][1..] == encoded[i + 1..];
      current := current + [encoded[i]];
      if current in reverse {
        decoded := decoded + [reverse[current]];
        current := [];
      }
    }
    assert encoded[|encoded|..] == [];
  }

  /** In a prefix-free table different symbols have different codes. */
  lemma PrefixFreeReverse(reverse: map<seq<bool>, char>, codes: CodeTable, c: char)
    requires PrefixFree(codes) && IsReverse(reverse, codes) && c in codes
    ensures codes[c] in reverse && reverse[codes[c]] == c
  {
  }

  /**
   * Reading the rest of one code, from any point inside it, emits that code's
   * symbol and nothing before it.
   */
  lemma {:induction false} DecodeOneCode(reverse: map<seq<bool>, char>, codes: CodeTable,
                                         c: char, k: nat, rest: seq<bool>)
    requires PrefixFree(codes) && NonEmptyCodes(codes) && IsReverse(reverse, codes)
    requires c in codes && k < |codes[c]|
    ensures GreedyDecode(reverse, codes[c][..k], codes[c][k..] + rest)
         == [c] + GreedyDecode(reverse, [], rest)
    decreases |codes[c]| - k
  {
    var code := codes[c];
    var bits := code[k..] + rest;
    assert bits[0] == code[k] && bits[1..] == code[k + 1..] + rest;
    var candidate := code[..k] + [code[k]];
    assert candidate == code[..k + 1];
    if k + 1 == |code| {
      assert candidate == code;
      PrefixFreeReverse(reverse, codes, c);
    } else {
      assert candidate !in reverse;
      DecodeOneCode(reverse, codes, c, k + 1, rest);
    }
  }

  /** Decoding an encoded text, followed by anything, gives the text back first. */
  lemma {:induction false} DecodeCompressed(reverse: map<seq<bool>, char>, codes: CodeTable,
                                            text: seq<char>, rest: seq<bool>)
    requires PrefixFree(codes) && NonEmptyCodes(codes) && IsReverse(reverse, codes)
    requires CompressText(text, codes).Success?
    ensures GreedyDecode(reverse, [], CompressText(text, codes).value + rest)
         == text + GreedyDecode(reverse, [], rest)
  {
    if text == [] {
      assert CompressText(text, codes).value + rest == rest;
    } else {
      var c := text[0];
      var tail := CompressText(text[1..], codes).value;
      assert CompressText(text, codes).value + rest == codes[c][0..] + (tail + rest);
      assert codes[c][..0] == [];
      DecodeOneCode(reverse, codes, c, 0, tail + rest);
      DecodeCompressed(reverse, codes, text[1..], rest);
      assert text == [c] + text[1..];
    }
  }

  /** With a prefix-free table of non-empty codes, decode_text undoes compress_text. */
  lemma DecodeCompressTextRoundTrip(reverse: map<seq<bool>, char>, codes: CodeTable, text: seq<char>)
    requires PrefixFree(codes) && NonEmptyCodes(codes) && IsReverse(reverse, codes)
    requires CompressText(text, codes).Success?
    ensures GreedyDecode(reverse, [], CompressText(text, codes).value) == text
  {
    DecodeCompressed(reverse, codes, text, []);
    assert CompressText(text, codes).value + [] == CompressText(text, codes).value;
  }

  /** Two texts with the same encoding are the same text. */
  lemma UniquelyDecodable(codes: CodeTable, text1: seq<char>, text2: seq<char>)
    requires PrefixFree(codes) && NonEmptyCodes(codes)
    requires CompressText(text1, codes).Success? && CompressText(text1, codes) == CompressText(text2, codes)
    ensures text1 == text2
  {
    var reverse := Invert(codes);
    DecodeCompressTextRoundTrip(reverse, codes, text1);
    DecodeCompressTextRoundTrip(reverse, codes, text2);
  }

  /** A trailing piece of a code at the end of the stream is dropped without an error. */
  lemma {:induction false} PartialCodeDropped(reverse: map<seq<bool>, char>, codes: CodeTable,
                                              c: char, k: nat, current: seq<bool>)
    requires PrefixFree(codes) && IsReverse(reverse, codes)
    requires c in codes && current <= codes[c] && |current| + k < |codes[c]|
    ensures GreedyDecode(reverse, current, codes[c][|current|..|current| + k]) == []
    decreases k
  {
    var code := codes[c];
    if k > 0 {
      var bits := code[|current|..|current| + k];
      var candidate := current + [bits[0]];
      assert candidate == code[..|current| + 1];
      assert candidate !in reverse;
      assert bits[1..] == code[|candidate|..|candidate| + (k - 1)];
      PartialCodeDropped(reverse, codes, c, k - 1, candidate);
    }
  }

  /** An encoded text followed by an incomplete code decodes to the text alone. */
  lemma TrailingBitsDropped(reverse: map<seq<bool>, char>, codes: CodeTable,
                            text: seq<char>, c: char, k: nat)
    requires PrefixFree(codes) && NonEmptyCodes(codes) && IsReverse(reverse, codes)
    requires CompressText(text, codes).Success?
    requires c in codes && k < |codes[c]|
    ensures GreedyDecode(reverse, [], CompressText(text, codes).value + codes[c][..k]) == text
  {
    DecodeCompressed(reverse, codes, text, codes[c][..k]);
    assert codes[c][0..0 + k] == codes[c][..k];
    PartialCodeDropped(reverse, codes, c, k, []);
  }

  /** With the single empty code of a one-leaf tree no bit ever completes a code. */
  lemma {:induction false} EmptyCodeDecodesNothing(reverse: map<seq<bool>, char>, c: char,
                                                   current: seq<bool>, bits: seq<bool>)
    requires IsReverse(reverse, map[c := []])
    ensures GreedyDecode(reverse, current, bits) == []
    decreases |bits|
  {
    if bits != [] {
      assert current + [bits[0]] != [];
      EmptyCodeDecodesNothing(reverse, c, current + [bits[0]], bits[1..]);
    }
  }

  /** With the single empty code every text of that symbol encodes to no bits at all. */
  lemma {:induction false} EmptyCodeEncodesNothing(c: char, text: seq<char>)
    requires forall i :: 0 <= i < |text| ==> text[i] == c
    ensures CompressText(text, map[c := []]) == Success([])
  {
    if text != [] {
      EmptyCodeEncodesNothing(c, text[1..]);
      var none: seq<bool> := [];
      assert none + none == none;
    }
  }
}
