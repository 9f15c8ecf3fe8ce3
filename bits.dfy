/**
 * Bit strings and bytes: the padding header, byte packing (most significant
 * bit first) and the inverse expansion of bytes into eight-digit bit strings.
 * A bit string of the Python code is a str over '0' and '1'; here it is a
 * seq<bool> in which true stands for '1'.
 */
module Bits {
  import opened Errors

  type Bit = bool

  newtype byte = x: int | 0 <= x < 256

  function Pow2(n: nat): (r: nat)
    ensures r >= 1
  {
    if n == 0 then 1 else 2 * Pow2(n - 1)
  }

  function Min(a: int, b: int): int { if a <= b then a else b }

  /** int(bits, 2): the value of a bit string read most significant bit first. */
  function BitsToNat(bits: seq<Bit>): (r: nat)
    ensures r < Pow2(|bits|)
  {
    if bits == [] then 0
    else 2 * BitsToNat(bits[..|bits| - 1]) + (if bits[|bits| - 1] then 1 else 0)
  }

  /**
   * The binary form of n in exactly width digits, zeros on the left, most
   * significant bit first: Python's f"{n:0{width}b}" for n below 2^width
   * (for larger n Python prints every digit, a case the coder never formats).
   */
  function NatToBits(n: nat, width: nat): (r: seq<Bit>)
    requires n < Pow2(width)
    ensures |r| == width
  {
    if width == 0 then [] else NatToBits(n / 2, width - 1) + [n % 2 == 1]
  }

  lemma {:induction false} BitsToNatOfNatToBits(n: nat, width: nat)
    requires n < Pow2(width)
    ensures BitsToNat(NatToBits(n, width)) == n
  {
    if width > 0 {
      var s := NatToBits(n, width);
      assert s[..width - 1] == NatToBits(n / 2, width - 1);
      BitsToNatOfNatToBits(n / 2, width - 1);
    }
  }

  lemma {:induction false} NatToBitsOfBitsToNat(bits: seq<Bit>)
    ensures NatToBits(BitsToNat(bits), |bits|) == bits
  {
    if bits != [] {
      var init := bits[..|bits| - 1];
      var v := BitsToNat(bits);
      assert v / 2 == BitsToNat(init);
      assert (v % 2 == 1) == bits[|bits| - 1];
      NatToBitsOfBitsToNat(init);
    }
  }

  /** f"{byte:08b}": the eight bits of one byte, most significant first. */
  function ByteBits(b: byte): (r: seq<Bit>)
    ensures |r| == 8 && BitsToNat(r) == b as nat
  {
    assert Pow2(8) == 256;
    BitsToNatOfNatToBits(b as nat, 8);
    NatToBits(b as nat, 8)
  }

  /** "0" * n */
  function Zeros(n: nat): (r: seq<Bit>)
    ensures |r| == n && forall i :: 0 <= i < n ==> !r[i]
  {
    seq(n, _ => false)
  }

  /**
   * pad_encoded_text: the padding p = 8 - n % 8 (never 0, a whole byte when the
   * input is already aligned) as an 8-bit header, then the bits, then p zeros.
   */
  function PadEncodedText(encoded: seq<Bit>): (r: seq<Bit>)
    ensures |r| % 8 == 0 && |r| > 8
    ensures 1 <= BitsToNat(r[..8]) <= 8
    ensures |r| == 8 + |encoded| + BitsToNat(r[..8])
    ensures r[8..8 + |encoded|] == encoded
    ensures forall i :: 8 + |encoded| <= i < |r| ==> !r[i]
  {
    var extra := 8 - |encoded| % 8;
    assert Pow2(8) == 256;
    var header := NatToBits(extra, 8);
    BitsToNatOfNatToBits(extra, 8);
    var r := header + encoded + Zeros(extra);
    assert r[..8] == header;
    assert r[8..8 + |encoded|] == encoded;
    r
  }

  /** Python's s[:-k] for k >= 0: everything but the last k items, and "" when k is 0. */
  function DropLast<T>(s: seq<T>, k: nat): (r: seq<T>)
    ensures r <= s
    ensures k == 0 || k >= |s| ==> r == []
    ensures 0 < k <= |s| ==> |r| == |s| - k
  {
    if k == 0 || k >= |s| then [] else s[..|s| - k]
  }

  /**
   * remove_padding: the first eight bits give the padding, which is cut off the
   * end of the rest. int("", 2) raises ValueError, so an empty stream fails.
   */
  function RemovePadding(padded: seq<Bit>): (r: Result<seq<Bit>>)
    ensures r.Failure? <==> padded == []
    ensures r.Failure? ==> r.error == ValueError
    ensures r.Success? && |padded| >= 8 ==> r.value <= padded[8..]
    ensures r.Success? && |padded| < 8 ==> r.value == []
  {
    if padded == [] then Failure(ValueError)
    else
      var extra := BitsToNat(padded[..Min(8, |padded|)]);
      var encoded := if |padded| >= 8 then padded[8..] else [];
      Success(DropLast(encoded, extra))
  }

  /** Unpadding undoes padding, for every bit string. */
  lemma RemovePaddingOfPad(encoded: seq<Bit>)
    ensures RemovePadding(PadEncodedText(encoded)) == Success(encoded)
  {
    var padded := PadEncodedText(encoded);
    var extra := BitsToNat(padded[..8]);
    var rest := padded[8..];
    assert |rest| == |encoded| + extra;
    assert rest[..|encoded|] == encoded;
  }

  /** A header of zero makes s[:-0] return the empty string, whatever follows. */
  lemma RemovePaddingZeroHeader(padded: seq<Bit>)
    requires |padded| >= 8 && BitsToNat(padded[..8]) == 0
    ensures RemovePadding(padded) == Success([])
  {
  }

  /**
   * get_byte_array: successive chunks of eight bits, each read as a number;
   * a shorter last chunk is read as it is.
   */
  function GetByteArray(bits: seq<Bit>): (r: seq<byte>)
    ensures |r| == (|bits| + 7) / 8
  {
    if bits == [] then []
    else
      var chunk := bits[..Min(8, |bits|)];
      assert BitsToNat(chunk) < Pow2(|chunk|) <= 256 by { Pow2Monotone(|chunk|, 8); }
      [BitsToNat(chunk) as byte] + GetByteArray(bits[Min(8, |bits|)..])
  }

  lemma {:induction false} Pow2Monotone(a: nat, b: nat)
    requires a <= b
    ensures Pow2(a) <= Pow2(b)
  {
    if a < b { Pow2Monotone(a, b - 1); }
  }

  /** ''.join(f"{byte:08b}" for byte in data): each byte as eight bits, in order. */
  function ExpandBytes(data: seq<byte>): (r: seq<Bit>)
    ensures |r| == 8 * |data|
  {
    if data == [] then [] else ByteBits(data[0]) + ExpandBytes(data[1..])
  }

  /** Expanding packed bytes gives back an aligned bit string. */
  lemma {:induction false} ExpandGetByteArray(bits: seq<Bit>)
    requires |bits| % 8 == 0
    ensures ExpandBytes(GetByteArray(bits)) == bits
  {
    if bits != [] {
      var chunk := bits[..8];
      var r := GetByteArray(bits);
      assert r[0] as nat == BitsToNat(chunk);
      assert r[1..] == GetByteArray(bits[8..]);
      NatToBitsOfBitsToNat(chunk);
      ExpandGetByteArray(bits[8..]);
    }
  }

  /** Packing expanded bytes gives back the bytes. */
  lemma {:induction false} GetByteArrayExpand(data: seq<byte>)
    ensures GetByteArray(ExpandBytes(data)) == data
  {
    if data != [] {
      var bits := ExpandBytes(data);
      assert bits[..8] == ByteBits(data[0]);
      assert bits[8..] == ExpandBytes(data[1..]);
      GetByteArrayExpand(data[1..]);
    }
  }

  /** An empty bit string is padded with a whole byte: it packs to the header byte 8 and a zero byte. */
  lemma PadEmpty()
    ensures GetByteArray(PadEncodedText([])) == [8 as byte, 0 as byte]
  {
    var none: seq<Bit> := [];
    var padded := PadEncodedText(none);
    assert Pow2(8) == 256;
    assert padded == NatToBits(8, 8) + Zeros(8);
    assert padded[..8] == NatToBits(8, 8) && padded[8..] == Zeros(8);
    BitsToNatOfNatToBits(8, 8);
    BitsToNatOfNatToBits(0, 8);
    assert Zeros(8) == NatToBits(0, 8);
    var z := padded[8..];
    assert z[..Min(8, |z|)] == z && BitsToNat(z) == 0;
    assert z[Min(8, |z|)..] == [];
    assert GetByteArray(z) == [0 as byte];
  }
}
