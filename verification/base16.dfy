/**
  The hexadecimal codec of Util: toBase16 writes two upper-case digits per byte, high
  nibble first; fromBase16 reads two digits per byte, and a lone last digit as a byte
  of its own. Bytes are Java's signed bytes.
 */
module Base16 {
  import opened JavaLang

  /** BASE16_CHARS. */
  const Base16Chars: string := "0123456789ABCDEF"

  /** `(b >> 4) & 0xf`: the shift is arithmetic (floor division), the mask keeps four bits. */
  function HighNibble(b: JByte): (n: nat)
    ensures n < 16
  {
    (b / 16) % 16
  }

  /** `b & 0xf`. */
  function LowNibble(b: JByte): (n: nat)
    ensures n < 16
  {
    b % 16
  }

  /** The two nibbles toBase16 extracts are the two hex digits of the unsigned byte. */
  lemma NibblesOfByte(b: JByte)
    ensures HighNibble(b) == Unsigned(b) / 16 && LowNibble(b) == Unsigned(b) % 16
  {
    var u: int := Unsigned(b);
    if b < 0 {
      assert b == u - 256;
      assert b / 16 == u / 16 - 16;
    }
  }

  /** A character Integer.parseInt accepts as an ASCII digit in radix 16. */
  predicate IsHexDigit(c: char)
  {
    ('0' <= c <= '9') || ('a' <= c <= 'f') || ('A' <= c <= 'F')
  }

  predicate AllHexDigits(s: string)
  {
    forall k :: 0 <= k < |s| ==> IsHexDigit(s[k])
  }

  /** The value of one hex digit. */
  function HexValue(c: char): (v: nat)
    requires IsHexDigit(c)
    ensures v < 16
  {
    if '0' <= c <= '9' then c as int - '0' as int
    else if 'a' <= c <= 'f' then c as int - 'a' as int + 10
    else c as int - 'A' as int + 10
  }

  /** Integer.parseInt(s, 16) on a string of ASCII hex digits: most significant digit first. */
  function ParseHex(s: string): (v: nat)
    requires AllHexDigits(s)
    ensures |s| == 1 ==> v == HexValue(s[0])
    ensures |s| == 2 ==> v == HexValue(s[0]) * 16 + HexValue(s[1])
  {
    if |s| == 0 then 0 else ParseHex(s[..|s| - 1]) * 16 + HexValue(s[|s| - 1])
  }

  function Min(a: int, b: int): int
  {
    if a < b then a else b
  }

  /**
    The ranges toBase16(data, offset, length) reads without throwing: an empty range
    reads nothing, wherever it starts; any other range lies inside the array.
   */
  predicate ValidRange(data: seq<JByte>, offset: int, length: nat)
  {
    length == 0 || (0 <= offset && offset + length <= |data|)
  }

  /** toBase16(data, offset, length). */
  function ToBase16Range(data: seq<JByte>, offset: int, length: nat): (r: string)
    requires ValidRange(data, offset, length)
    ensures |r| == 2 * length
    ensures forall k :: 0 <= k < |r| ==> r[k] in Base16Chars
  {
    seq(2 * length, k requires 0 <= k < 2 * length =>
      var b := data[offset + k / 2];
      if k % 2 == 0 then Base16Chars[HighNibble(b)] else Base16Chars[LowNibble(b)])
  }

  /** toBase16(data): byte `i` becomes its high hex digit at `2i` and its low one at `2i + 1`. */
  function ToBase16(data: seq<JByte>): (r: string)
    ensures |r| == 2 * |data|
    ensures forall i :: 0 <= i < |data| ==>
      r[2 * i] == Base16Chars[Unsigned(data[i]) / 16] && r[2 * i + 1] == Base16Chars[Unsigned(data[i]) % 16]
  {
    WholeRangeDigits(data);
    ToBase16Range(data, 0, |data|)
  }

  lemma WholeRangeDigits(data: seq<JByte>)
    ensures forall i :: 0 <= i < |data| ==>
      && ToBase16Range(data, 0, |data|)[2 * i] == Base16Chars[Unsigned(data[i]) / 16]
      && ToBase16Range(data, 0, |data|)[2 * i + 1] == Base16Chars[Unsigned(data[i]) % 16]
  {
    forall i | 0 <= i < |data|
      ensures ToBase16Range(data, 0, |data|)[2 * i] == Base16Chars[Unsigned(data[i]) / 16]
      ensures ToBase16Range(data, 0, |data|)[2 * i + 1] == Base16Chars[Unsigned(data[i]) % 16]
    {
      assert (2 * i) / 2 == i && (2 * i) % 2 == 0;
      assert (2 * i + 1) / 2 == i && (2 * i + 1) % 2 == 1;
      NibblesOfByte(data[i]);
    }
  }

  /**
    The range overload encodes exactly the bytes from `offset` on, `length` of them; an
    empty range gives the empty text even when `offset` lies outside the array.
   */
  lemma ToBase16RangeIsSlice(data: seq<JByte>, offset: int, length: nat)
    requires ValidRange(data, offset, length)
    ensures length == 0 ==> ToBase16Range(data, offset, length) == ""
    ensures length > 0 ==> ToBase16Range(data, offset, length) == ToBase16(data[offset..offset + length])
  {
    if length > 0 {
      var slice := data[offset..offset + length];
      var whole := ToBase16Range(data, offset, length);
      var part := ToBase16Range(slice, 0, length);
      forall k | 0 <= k < 2 * length
        ensures whole[k] == part[k]
      {
        RangeDigitsAgree(data, offset, slice, length, k);
      }
      assert whole == part;
    }
  }

  lemma RangeDigitsAgree(data: seq<JByte>, offset: nat, slice: seq<JByte>, length: nat, k: nat)
    requires offset + length <= |data|
    requires slice == data[offset..offset + length]
    requires k < 2 * length
    ensures ToBase16Range(data, offset, length)[k] == ToBase16Range(slice, 0, length)[k]
  {
    var j := k / 2;
    assert j < length;
    assert slice[j] == data[offset + j];
  }

  /** Byte `i` is written at positions `2i` (high nibble) and `2i + 1` (low nibble). */
  lemma ToBase16At(data: seq<JByte>, i: nat)
    requires i < |data|
    ensures ToBase16(data)[2 * i] == Base16Chars[HighNibble(data[i])]
    ensures ToBase16(data)[2 * i + 1] == Base16Chars[LowNibble(data[i])]
  {
    NibblesOfByte(data[i]);
  }

  /** The number of bytes fromBase16 produces: one per pair of digits, plus one for a lone last digit. */
  function DecodedLength(n: nat): nat
  {
    n / 2 + (if n % 2 == 1 then 1 else 0)
  }

  /** The value of the digits fromBase16 reads for byte `i`: a full pair, or a lone last digit. */
  function DigitsValue(data: string, i: nat): nat
    requires AllHexDigits(data) && 2 * i < |data|
  {
    if 2 * i + 1 < |data| then HexValue(data[2 * i]) * 16 + HexValue(data[2 * i + 1])
    else HexValue(data[2 * i])
  }

  /**
    fromBase16(data). Integer.parseInt would also take a sign or non-ASCII digits; the
    requires keeps to the digits toBase16 and ordinary callers use.
   */
  function FromBase16(data: string): (r: seq<JByte>)
    requires AllHexDigits(data)
    ensures |r| == DecodedLength(|data|)
    ensures forall i :: 0 <= i < |r| ==> 2 * i < |data| && Unsigned(r[i]) == DigitsValue(data, i)
  {
    var n := DecodedLength(|data|);
    ParsedDigits(data);
    seq(n, i requires 0 <= i < n => ToJByte(ParseHex(data[2 * i..Min(2 * i + 2, |data|)])))
  }

  /** Each one- or two-digit group parses to its digits' value, which survives the cast to `byte` and the mask. */
  lemma ParsedDigits(data: string)
    requires AllHexDigits(data)
    ensures forall i :: 0 <= i < DecodedLength(|data|) ==>
      2 * i < |data| && AllHexDigits(data[2 * i..Min(2 * i + 2, |data|)])
      && Unsigned(ToJByte(ParseHex(data[2 * i..Min(2 * i + 2, |data|)]))) == DigitsValue(data, i)
  {
    forall i | 0 <= i < DecodedLength(|data|)
      ensures 2 * i < |data| && AllHexDigits(data[2 * i..Min(2 * i + 2, |data|)])
      ensures Unsigned(ToJByte(ParseHex(data[2 * i..Min(2 * i + 2, |data|)]))) == DigitsValue(data, i)
    {
      ParsedGroup(data, i);
    }
  }

  lemma ParsedGroup(data: string, i: nat)
    requires AllHexDigits(data) && i < DecodedLength(|data|)
    ensures 2 * i < |data| && AllHexDigits(data[2 * i..Min(2 * i + 2, |data|)])
    ensures Unsigned(ToJByte(ParseHex(data[2 * i..Min(2 * i + 2, |data|)]))) == DigitsValue(data, i)
  {
    var g := data[2 * i..Min(2 * i + 2, |data|)];
    assert 2 * i < |data|;
    if 2 * i + 1 < |data| {
      assert g == [data[2 * i], data[2 * i + 1]];
    } else {
      assert g == [data[2 * i]];
    }
    UnsignedOfToJByte(ParseHex(g));
  }

  lemma DigitsRoundTrip(n: nat)
    requires n < 16
    ensures IsHexDigit(Base16Chars[n]) && HexValue(Base16Chars[n]) == n
  {
  }

  /** Decoding what toBase16 wrote gives the bytes back. */
  lemma DecodeEncode(data: seq<JByte>)
    ensures AllHexDigits(ToBase16(data))
    ensures FromBase16(ToBase16(data)) == data
  {
    var s := ToBase16(data);
    forall k | 0 <= k < |s|
      ensures IsHexDigit(s[k])
    {
      var b := data[k / 2];
      ToBase16At(data, k / 2);
      DigitsRoundTrip(HighNibble(b));
      DigitsRoundTrip(LowNibble(b));
      assert k == 2 * (k / 2) || k == 2 * (k / 2) + 1;
    }
    var r := FromBase16(s);
    forall i | 0 <= i < |data|
      ensures r[i] == data[i]
    {
      DecodeEncodeAt(data, i);
    }
  }

  lemma DecodeEncodeAt(data: seq<JByte>, i: nat)
    requires i < |data|
    requires AllHexDigits(ToBase16(data))
    ensures FromBase16(ToBase16(data))[i] == data[i]
  {
    var s := ToBase16(data);
    var b := data[i];
    var h, l := HighNibble(b), LowNibble(b);
    assert HexValue(s[2 * i]) == h && HexValue(s[2 * i + 1]) == l by {
      ToBase16At(data, i);
      DigitsRoundTrip(h);
      DigitsRoundTrip(l);
    }
    assert h * 16 + l == Unsigned(b) by {
      NibblesOfByte(b);
    }
    DecodeByte(s, i, b);
  }

  /** A pair of digits whose value is the unsigned value of `b` decodes to `b`. */
  lemma DecodeByte(s: string, i: nat, b: JByte)
    requires AllHexDigits(s)
    requires 2 * i + 2 <= |s|
    requires HexValue(s[2 * i]) * 16 + HexValue(s[2 * i + 1]) == Unsigned(b)
    ensures |FromBase16(s)| > i && FromBase16(s)[i] == b
  {
    FromBase16Pair(s, i);
    UnsignedToJByte(b);
  }

  /** The upper-case form of a hex digit, as toBase16 writes it. */
  function UpperDigit(c: char): char
  {
    if 'a' <= c <= 'f' then (c as int - 32) as char else c
  }

  lemma UpperDigitIsBase16Char(c: char)
    requires IsHexDigit(c)
    ensures Base16Chars[HexValue(c)] == UpperDigit(c)
  {
  }

  /** Every digit in upper case. */
  function UpperDigits(s: string): (r: string)
  {
    seq(|s|, k requires 0 <= k < |s| => UpperDigit(s[k]))
  }

  /**
    What toBase16 makes of fromBase16's bytes: the digits in upper case, and a lone last
    digit preceded by `0`.
   */
  function CanonicalHex(s: string): (r: string)
  {
    var upper := UpperDigits(s);
    if |s| % 2 == 0 then upper else upper[..|s| - 1] + ['0'] + [upper[|s| - 1]]
  }

  /** The high and low nibble of a byte whose unsigned value is `16 * h + l`. */
  lemma NibblesOfValue(b: JByte, h: nat, l: nat)
    requires h < 16 && l < 16
    requires b == ToJByte(h * 16 + l)
    ensures HighNibble(b) == h && LowNibble(b) == l
  {
    var v := h * 16 + l;
    UnsignedOfToJByte(v);
    NibblesOfByte(b);
    assert v / 16 == h && v % 16 == l;
  }

  /** The canonical form at the two positions of byte `i`. */
  lemma CanonicalHexAt(s: string, i: nat)
    requires 2 * i < |s|
    ensures 2 * i + 1 < |s| ==>
      CanonicalHex(s)[2 * i] == UpperDigit(s[2 * i]) && CanonicalHex(s)[2 * i + 1] == UpperDigit(s[2 * i + 1])
    ensures 2 * i + 1 == |s| ==>
      CanonicalHex(s)[2 * i] == '0' && CanonicalHex(s)[2 * i + 1] == UpperDigit(s[2 * i])
  {
  }

  /** A full pair of digits decodes to the byte with that two-digit value. */
  lemma FromBase16Pair(s: string, i: nat)
    requires AllHexDigits(s)
    requires 2 * i + 2 <= |s|
    ensures |FromBase16(s)| > i
    ensures FromBase16(s)[i] == ToJByte(HexValue(s[2 * i]) * 16 + HexValue(s[2 * i + 1]))
  {
    assert Min(2 * i + 2, |s|) == 2 * i + 2;
    var pair := s[2 * i..2 * i + 2];
    assert pair == [s[2 * i], s[2 * i + 1]];
  }

  /** The two characters toBase16 writes for byte `i` of fromBase16's result. */
  lemma EncodeDecodeAt(s: string, i: nat)
    requires AllHexDigits(s)
    requires 2 * i < |s|
    ensures |FromBase16(s)| > i
    ensures ToBase16(FromBase16(s))[2 * i] == CanonicalHex(s)[2 * i]
    ensures ToBase16(FromBase16(s))[2 * i + 1] == CanonicalHex(s)[2 * i + 1]
  {
    var bytes := FromBase16(s);
    var b := bytes[i];
    var h := if 2 * i + 2 <= |s| then HexValue(s[2 * i]) else 0;
    var l := if 2 * i + 2 <= |s| then HexValue(s[2 * i + 1]) else HexValue(s[2 * i]);
    if 2 * i + 2 <= |s| {
      FromBase16Pair(s, i);
      UpperDigitIsBase16Char(s[2 * i]);
      UpperDigitIsBase16Char(s[2 * i + 1]);
    } else {
      LoneLastDigit(s);
      assert 0 * 16 + l == l;
      UpperDigitIsBase16Char(s[2 * i]);
    }
    assert b == ToJByte(h * 16 + l);
    NibblesOfValue(b, h, l);
    ToBase16At(bytes, i);
    CanonicalHexAt(s, i);
  }

  /** Encoding decoded text gives its canonical upper-case, even-length form. */
  lemma EncodeDecode(s: string)
    requires AllHexDigits(s)
    ensures ToBase16(FromBase16(s)) == CanonicalHex(s)
  {
    var r := ToBase16(FromBase16(s));
    var c := CanonicalHex(s);
    assert |r| == |c|;
    forall k | 0 <= k < |r|
      ensures r[k] == c[k]
    {
      EncodeDecodeIndex(s, k);
    }
  }

  lemma EncodeDecodeIndex(s: string, k: nat)
    requires AllHexDigits(s)
    requires k < 2 * DecodedLength(|s|)
    ensures |ToBase16(FromBase16(s))| == |CanonicalHex(s)|
    ensures ToBase16(FromBase16(s))[k] == CanonicalHex(s)[k]
  {
    var i := k / 2;
    assert k == 2 * i || k == 2 * i + 1;
    EncodeDecodeAt(s, i);
  }

  /** An even-length hex string comes back from the round trip as its upper-case form. */
  lemma EncodeDecodeEven(s: string)
    requires AllHexDigits(s) && |s| % 2 == 0
    ensures ToBase16(FromBase16(s)) == UpperDigits(s)
  {
    EncodeDecode(s);
  }

  /** A lone last digit becomes a byte of its own, holding that digit's value. */
  lemma LoneLastDigit(s: string)
    requires AllHexDigits(s) && |s| % 2 == 1
    ensures FromBase16(s)[|s| / 2] == ToJByte(HexValue(s[|s| - 1]))
  {
    assert s[2 * (|s| / 2)..Min(2 * (|s| / 2) + 2, |s|)] == [s[|s| - 1]];
  }

  lemma UpperExample()
    ensures UpperDigits("0123456789abcdefedcba9876543210") == "0123456789ABCDEFEDCBA9876543210"
  {
  }

  lemma CanonicalExample()
    ensures CanonicalHex("0123456789abcdefedcba9876543210") == "0123456789ABCDEFEDCBA98765432100"
  {
    var s := "0123456789abcdefedcba9876543210";
    UpperExample();
    var upper := UpperDigits(s);
    assert CanonicalHex(s) == upper[..30] + ['0'] + [upper[30]];
  }

  lemma HexExample()
    ensures AllHexDigits("0123456789abcdefedcba9876543210")
  {
  }

  /**
    The round trip Util's own main prints: 31 mixed-case digits come back upper-cased,
    with the lone last digit written as `00`.
   */
  lemma MainExample()
    ensures AllHexDigits("0123456789abcdefedcba9876543210")
    ensures ToBase16(FromBase16("0123456789abcdefedcba9876543210")) == "0123456789ABCDEFEDCBA98765432100"
  {
    HexExample();
    CanonicalExample();
    EncodeDecode("0123456789abcdefedcba9876543210");
  }
}
