/**
 * Base32 without padding, over the alphabet of section 6 of RFC 4648
 * ("ABCDEFGHIJKLMNOPQRSTUVWXYZ234567"): the `BASE32_NOPAD` encoding that
 * the ticket's text form uses.
 *
 * The bytes are read as one string of bits, most significant bit of each
 * byte first, and cut into groups of five; each group becomes one symbol,
 * and a last group shorter than five bits is filled up with zero bits.
 * Decoding accepts only the symbol counts that some byte count encodes to,
 * only symbols of the alphabet (upper case), and only zero fill bits.
 */
module Base32 {
  import opened Wrappers
  import opened Wire

  /** Text that is not the unpadded Base32 form of any byte string. */
  datatype Base32Error = Base32Error

  // ---------------------------------------------------------------------
  // Symbols

  /** The 32 symbols: upper-case letters and the digits 2 to 7. */
  predicate IsSymbol(c: char) {
    'A' <= c <= 'Z' || '2' <= c <= '7'
  }

  /** The symbol for a five-bit value: 0 to 25 are 'A' to 'Z', 26 to 31 are '2' to '7'. */
  function SymbolChar(v: nat): (c: char)
    requires v < 32
    ensures IsSymbol(c)
    ensures v < 26 <==> 'A' <= c <= 'Z'
  {
    if v < 26 then ('A' as int + v) as char else ('2' as int + (v - 26)) as char
  }

  /** The five-bit value of a symbol, or None for a character outside the alphabet. */
  function SymbolValue(c: char): (r: Option<nat>)
    ensures r.Some? <==> IsSymbol(c)
    ensures r.Some? ==> r.value < 32 && SymbolChar(r.value) == c
  {
    if 'A' <= c <= 'Z' then Some(c as int - 'A' as int)
    else if '2' <= c <= '7' then Some(c as int - '2' as int + 26)
    else None
  }

  lemma SymbolValueOfChar(v: nat)
    requires v < 32
    ensures SymbolValue(SymbolChar(v)) == Some(v)
  {
  }

  // ---------------------------------------------------------------------
  // Bits of bytes

  /** The eight bits of a byte, most significant first. */
  function ByteBits(b: Byte): (bits: seq<bool>)
    ensures |bits| == 8
  {
    [b & 0x80 != 0, b & 0x40 != 0, b & 0x20 != 0, b & 0x10 != 0,
     b & 0x08 != 0, b & 0x04 != 0, b & 0x02 != 0, b & 0x01 != 0]
  }

  /** The byte whose bits, most significant first, are `bits`. */
  function BitsByte(bits: seq<bool>): Byte
    requires |bits| == 8
  {
    (if bits[0] then 0x80 else 0) | (if bits[1] then 0x40 else 0) |
    (if bits[2] then 0x20 else 0) | (if bits[3] then 0x10 else 0) |
    (if bits[4] then 0x08 else 0) | (if bits[5] then 0x04 else 0) |
    (if bits[6] then 0x02 else 0) | (if bits[7] then 0x01 else 0)
  }

  lemma ByteBitsInverse(b: Byte)
    ensures BitsByte(ByteBits(b)) == b
  {
  }

  lemma BitsByteInverse(bits: seq<bool>)
    requires |bits| == 8
    ensures ByteBits(BitsByte(bits)) == bits
  {
  }

  /** The bit string of a byte string. */
  function Bits(data: seq<Byte>): (bits: seq<bool>)
    ensures |bits| == 8 * |data|
  {
    if data == [] then [] else ByteBits(data[0]) + Bits(data[1..])
  }

  /** The whole bytes of a bit string; fewer than eight bits are left over. */
  function Pack(bits: seq<bool>): (data: seq<Byte>)
    ensures 8 * |data| <= |bits| < 8 * |data| + 8
  {
    if |bits| < 8 then [] else [BitsByte(bits[..8])] + Pack(bits[8..])
  }

  lemma {:induction false} PackBits(data: seq<Byte>)
    ensures Pack(Bits(data)) == data
  {
    if data != [] {
      var bits := Bits(data);
      assert bits[..8] == ByteBits(data[0]);
      assert bits[8..] == Bits(data[1..]);
      ByteBitsInverse(data[0]);
      PackBits(data[1..]);
    }
  }

  lemma {:induction false} BitsPack(bits: seq<bool>)
    ensures Bits(Pack(bits)) == bits[..8 * |Pack(bits)|]
  {
    if |bits| >= 8 {
      var data := Pack(bits);
      assert data[0] == BitsByte(bits[..8]);
      assert data[1..] == Pack(bits[8..]);
      BitsByteInverse(bits[..8]);
      BitsPack(bits[8..]);
      assert bits[..8 * |data|] == bits[..8] + bits[8..][..8 * |data[1..]|];
    }
  }

  // ---------------------------------------------------------------------
  // Five-bit groups

  /** The value of a group of five bits, most significant first. */
  function GroupValue(g: seq<bool>): (v: nat)
    requires |g| == 5
    ensures v < 32
  {
    (if g[0] then 16 else 0) + (if g[1] then 8 else 0) + (if g[2] then 4 else 0) +
    (if g[3] then 2 else 0) + (if g[4] then 1 else 0)
  }

  /** The five bits of a value below 32, most significant first. */
  function ValueGroup(v: nat): (g: seq<bool>)
    requires v < 32
    ensures |g| == 5
  {
    var r1 := if v >= 16 then v - 16 else v;
    var r2 := if r1 >= 8 then r1 - 8 else r1;
    var r3 := if r2 >= 4 then r2 - 4 else r2;
    var r4 := if r3 >= 2 then r3 - 2 else r3;
    [v >= 16, r1 >= 8, r2 >= 4, r3 >= 2, r4 == 1]
  }

  lemma GroupValueInverse(g: seq<bool>)
    requires |g| == 5
    ensures ValueGroup(GroupValue(g)) == g
  {
  }

  lemma ValueGroupInverse(v: nat)
    requires v < 32
    ensures GroupValue(ValueGroup(v)) == v
  {
  }

  /** n fill bits. */
  function Zeros(n: nat): (z: seq<bool>)
    ensures |z| == n
    ensures forall i :: 0 <= i < n ==> !z[i]
  {
    seq(n, _ => false)
  }

  /** Number of fill bits that bring n bits up to a multiple of five. */
  function Fill(n: nat): (k: nat)
    ensures k < 5
  {
    if n == 0 then 0 else if n < 5 then 5 - n else Fill(n - 5)
  }

  // ---------------------------------------------------------------------
  // Lengths

  /** Number of symbols that encode n bytes: 8n/5 rounded up. */
  function EncodedLength(n: nat): nat {
    (8 * n + 4) / 5
  }

  /** Number of whole bytes that n symbols carry. */
  function DecodedLength(n: nat): nat {
    5 * n / 8
  }

  /** A symbol count is valid when it is the encoded length of some byte count. */
  predicate ValidLength(n: nat) {
    EncodedLength(DecodedLength(n)) == n
  }

  lemma ValidLengthResidues(n: nat)
    ensures ValidLength(n) <==> n % 8 != 1 && n % 8 != 3 && n % 8 != 6
  {
    var q, r := n / 8, n % 8;
    assert n == 8 * q + r;
    assert DecodedLength(n) == 5 * q + 5 * r / 8;
    assert EncodedLength(DecodedLength(n)) == 8 * q + (8 * (5 * r / 8) + 4) / 5;
  }

  /** A valid symbol count leaves fewer than five fill bits after its whole bytes. */
  lemma ValidLengthFill(n: nat)
    requires ValidLength(n)
    ensures 8 * DecodedLength(n) <= 5 * n < 8 * DecodedLength(n) + 5
  {
  }

  /** The encoded length of n bytes is valid and carries n bytes back. */
  lemma EncodedLengthValid(n: nat)
    ensures DecodedLength(EncodedLength(n)) == n
    ensures ValidLength(EncodedLength(n))
  {
  }

  /** A count t of five-bit groups that holds x bits and fewer than five fill bits is x/5 rounded up. */
  lemma GroupCount(x: nat, f: nat, t: nat)
    requires f < 5 && 5 * t == x + f
    ensures t == (x + 4) / 5
  {
  }

  // ---------------------------------------------------------------------
  // Encoding

  /** The symbols of a bit string, the last group filled up with zero bits. */
  function EncodeBits(bits: seq<bool>): (text: string)
    ensures 5 * |text| == |bits| + Fill(|bits|)
    ensures forall i :: 0 <= i < |text| ==> IsSymbol(text[i])
    decreases |bits|
  {
    if bits == [] then []
    else if |bits| < 5 then [SymbolChar(GroupValue(bits + Zeros(5 - |bits|)))]
    else [SymbolChar(GroupValue(bits[..5]))] + EncodeBits(bits[5..])
  }

  /**
   * The unpadded Base32 text of a byte string: only alphabet symbols, and
   * 8n/5 of them rounded up for n bytes.
   */
  function Encode(data: seq<Byte>): (text: string)
    ensures |text| == EncodedLength(|data|)
    ensures forall i :: 0 <= i < |text| ==> IsSymbol(text[i])
  {
    var text := EncodeBits(Bits(data));
    GroupCount(8 * |data|, Fill(8 * |data|), |text|);
    text
  }

  // ---------------------------------------------------------------------
  // Decoding

  /** The bits of a text, five per symbol, or None if some character is not a symbol. */
  function TextBits(text: string): (bits: Option<seq<bool>>)
    ensures bits.Some? ==> |bits.value| == 5 * |text|
  {
    if text == [] then Some([])
    else match SymbolValue(text[0])
      case None => None
      case Some(v) =>
        match TextBits(text[1..])
        case None => None
        case Some(rest) => Some(ValueGroup(v) + rest)
  }

  /** A text has bits exactly when every character is a symbol. */
  lemma {:induction false} TextBitsDefined(text: string)
    ensures TextBits(text).Some? <==> forall i :: 0 <= i < |text| ==> IsSymbol(text[i])
    decreases |text|
  {
    if text != [] {
      TextBitsDefined(text[1..]);
      assert forall i :: 1 <= i < |text| ==> text[i] == text[1..][i - 1];
    }
  }

  /**
   * The bytes of an unpadded Base32 text. Fails when the symbol count is
   * not the encoded length of any byte count, when a character is outside
   * the alphabet, or when a fill bit after the last whole byte is set.
   */
  function Decode(text: string): (r: Result<seq<Byte>, Base32Error>)
    ensures r.Success? ==> ValidLength(|text|) && |r.value| == DecodedLength(|text|)
    ensures r.Success? ==> forall i :: 0 <= i < |text| ==> IsSymbol(text[i])
  {
    if !ValidLength(|text|) then Failure(Base32Error)
    else match TextBits(text)
      case None => Failure(Base32Error)
      case Some(bits) =>
        TextBitsDefined(text);
        ValidLengthFill(|text|);
        Unfill(bits, DecodedLength(|text|))
  }

  /**
   * The first `count` bytes of a bit string, provided the fill bits after
   * them are all zero.
   */
  function Unfill(bits: seq<bool>, count: nat): (r: Result<seq<Byte>, Base32Error>)
    requires 8 * count <= |bits|
    ensures r.Success? ==> |r.value| == count
  {
    var whole := 8 * count;
    if bits[whole..] != Zeros(|bits| - whole) then Failure(Base32Error)
    else Success(Pack(bits[..whole]))
  }

  // ---------------------------------------------------------------------
  // Round trips

  /** The bits of a text that starts with a symbol: that symbol's five bits, then the rest. */
  lemma TextBitsCons(c: char, text: string)
    requires IsSymbol(c) && TextBits(text).Some?
    ensures TextBits([c] + text) == Some(ValueGroup(SymbolValue(c).value) + TextBits(text).value)
  {
    assert ([c] + text)[1..] == text;
  }

  /** The symbol of one group of bits reads back as those bits. */
  lemma SymbolOfGroup(g: seq<bool>)
    requires |g| == 5
    ensures TextBits([SymbolChar(GroupValue(g))]) == Some(g)
  {
    var c := SymbolChar(GroupValue(g));
    SymbolValueOfChar(GroupValue(g));
    GroupValueInverse(g);
    assert TextBits([]) == Some([]);
    TextBitsCons(c, []);
    assert [c] + [] == [c];
    assert ValueGroup(SymbolValue(c).value) + [] == g;
  }

  /** The symbols of at least five bits: the first group's symbol, then the rest's symbols. */
  lemma EncodeBitsCons(bits: seq<bool>)
    requires |bits| >= 5
    ensures EncodeBits(bits) == [SymbolChar(GroupValue(bits[..5]))] + EncodeBits(bits[5..])
  {
  }

  /** Reading back a group's symbol in front of a text gives the group in front of the text's bits. */
  lemma TextBitsGroupCons(g: seq<bool>, text: string)
    requires |g| == 5 && TextBits(text).Some?
    ensures TextBits([SymbolChar(GroupValue(g))] + text) == Some(g + TextBits(text).value)
  {
    SymbolValueOfChar(GroupValue(g));
    GroupValueInverse(g);
    TextBitsCons(SymbolChar(GroupValue(g)), text);
  }

  /** One step of reading back: a first full group, then the rest read back with its fill. */
  lemma TextBitsOfEncodeBitsStep(bits: seq<bool>)
    requires |bits| >= 5
    requires TextBits(EncodeBits(bits[5..])) == Some(bits[5..] + Zeros(Fill(|bits| - 5)))
    ensures TextBits(EncodeBits(bits)) == Some(bits + Zeros(Fill(|bits|)))
  {
    var g, tail := bits[..5], bits[5..];
    var z := Zeros(Fill(|bits|));
    assert Fill(|bits|) == Fill(|bits| - 5);
    calc {
      TextBits(EncodeBits(bits));
    == { EncodeBitsCons(bits); }
      TextBits([SymbolChar(GroupValue(g))] + EncodeBits(tail));
    == { TextBitsGroupCons(g, EncodeBits(tail)); }
      Some(g + TextBits(EncodeBits(tail)).value);
    ==
      Some(g + (tail + z));
    == { assert bits == g + tail; assert g + (tail + z) == (g + tail) + z; }
      Some(bits + z);
    }
  }

  /** Reading back the symbols of a bit string gives the bits and their zero fill. */
  lemma {:induction false} TextBitsOfEncodeBits(bits: seq<bool>)
    ensures TextBits(EncodeBits(bits)) == Some(bits + Zeros(Fill(|bits|)))
    decreases |bits|
  {
    if |bits| == 0 {
      assert bits + Zeros(Fill(0)) == [];
    } else if |bits| < 5 {
      var g := bits + Zeros(5 - |bits|);
      SymbolOfGroup(g);
      assert EncodeBits(bits) == [SymbolChar(GroupValue(g))];
      assert Fill(|bits|) == 5 - |bits|;
    } else {
      TextBitsOfEncodeBits(bits[5..]);
      TextBitsOfEncodeBitsStep(bits);
    }
  }

  /** Decoding the encoding of any byte string gives the byte string back. */
  lemma DecodeEncode(data: seq<Byte>)
    ensures Decode(Encode(data)) == Success(data)
  {
    var b := Bits(data);
    var text := Encode(data);
    EncodedLengthValid(|data|);
    TextBitsOfEncodeBits(b);
    var bits := b + Zeros(Fill(|b|));
    var whole := 8 * DecodedLength(|text|);
    assert whole == |b|;
    assert TextBits(text) == Some(bits);
    assert bits[..whole] == b;
    assert bits[whole..] == Zeros(|bits| - whole);
    PackBits(data);
  }

  /** If the bits of a text are a bit string plus fewer than five zero bits, the text encodes that bit string. */
  lemma {:induction false} EncodeBitsOfTextBits(text: string, x: seq<bool>, k: nat)
    requires k < 5
    requires TextBits(text) == Some(x + Zeros(k))
    ensures EncodeBits(x) == text
    decreases |text|
  {
    if text != [] {
      var v := SymbolValue(text[0]).value;
      var rest := TextBits(text[1..]).value;
      assert x + Zeros(k) == ValueGroup(v) + rest;
      ValueGroupInverse(v);
      if |x| < 5 {
        assert |rest| == 0;
        assert text[1..] == [];
        assert x + Zeros(5 - |x|) == ValueGroup(v);
        assert text == [text[0]];
      } else {
        assert x[..5] == ValueGroup(v) && x[5..] + Zeros(k) == rest by {
          assert (x + Zeros(k))[..5] == x[..5];
          assert (ValueGroup(v) + rest)[..5] == ValueGroup(v);
          assert (x + Zeros(k))[5..] == x[5..] + Zeros(k);
          assert (ValueGroup(v) + rest)[5..] == rest;
        }
        EncodeBitsOfTextBits(text[1..], x[5..], k);
        EncodeBitsCons(x);
        assert text == [text[0]] + text[1..];
      }
    }
  }

  /** Bits whose fill after `count` whole bytes is zero are those bytes' bits and the fill. */
  lemma PackFill(bits: seq<bool>, count: nat)
    requires 8 * count <= |bits|
    requires bits[8 * count..] == Zeros(|bits| - 8 * count)
    ensures |Pack(bits[..8 * count])| == count
    ensures bits == Bits(Pack(bits[..8 * count])) + Zeros(|bits| - 8 * count)
  {
    var front := bits[..8 * count];
    BitsPack(front);
    assert bits == front + bits[8 * count..];
  }

  /** A text that decodes is the encoding of what it decodes to. */
  lemma EncodeDecode(text: string, data: seq<Byte>)
    requires Decode(text) == Success(data)
    ensures Encode(data) == text
  {
    var bits := TextBits(text).value;
    ValidLengthFill(|text|);
    var count := DecodedLength(|text|);
    assert Unfill(bits, count) == Success(data);
    assert data == Pack(bits[..8 * count]) && bits[8 * count..] == Zeros(|bits| - 8 * count);
    PackFill(bits, count);
    EncodeBitsOfTextBits(text, Bits(data), |bits| - 8 * count);
  }

  /** A text decodes to a byte string exactly when it is the encoding of that byte string. */
  lemma DecodeCanonical(text: string, data: seq<Byte>)
    ensures Decode(text) == Success(data) <==> Encode(data) == text
  {
    if Decode(text) == Success(data) {
      EncodeDecode(text, data);
    }
    if Encode(data) == text {
      DecodeEncode(data);
    }
  }
}
