/**
  The byte assembly at the end of readInt and readShort: the buffer filled from the
  stream is read little-endian (byte 0 least significant) into a two's-complement
  `int` or `short`. The shifts and casts wrap as Java's do; `|` joins bit fields that
  do not overlap, which is written here as `+`.
 */
module ByteOrder {
  import opened JavaLang

  const Two16: int := 0x1_0000
  const Two32: int := 0x1_0000_0000

  /** A Java `int`. */
  predicate IsInt32(v: int)
  {
    -0x8000_0000 <= v < 0x8000_0000
  }

  /** A Java `short`. */
  predicate IsInt16(v: int)
  {
    -0x8000 <= v < 0x8000
  }

  /** Java's 32-bit wrap-around: the `int` with the same low 32 bits as `v`. */
  function ToInt32(v: int): (r: int)
    ensures IsInt32(r)
    ensures (r - v) % Two32 == 0
  {
    var m := v % Two32;
    if m >= 0x8000_0000 then m - Two32 else m
  }

  /** The cast `(short) v`: the `short` with the same low 16 bits as `v`. */
  function ToInt16(v: int): (r: int)
    ensures IsInt16(r)
    ensures (r - v) % Two16 == 0
  {
    var m := v % Two16;
    if m >= 0x8000 then m - Two16 else m
  }

  /** An `int` congruent to `v` modulo 2^32 is the wrap of `v`. */
  lemma ToInt32Unique(v: int, r: int)
    requires IsInt32(r) && (r - v) % Two32 == 0
    ensures ToInt32(v) == r
  {
    var w := ToInt32(v);
    assert (w - r) % Two32 == 0 by {
      assert (w - v) % Two32 == 0;
      assert w - r == (w - v) - (r - v);
    }
    assert -Two32 < w - r < Two32;
  }

  /** A `short` congruent to `v` modulo 2^16 is the wrap of `v`. */
  lemma ToInt16Unique(v: int, r: int)
    requires IsInt16(r) && (r - v) % Two16 == 0
    ensures ToInt16(v) == r
  {
    var w := ToInt16(v);
    assert (w - r) % Two16 == 0 by {
      assert w - r == (w - v) - (r - v);
    }
    assert -Two16 < w - r < Two16;
  }

  /** The unsigned value of a byte sequence read little-endian: byte 0 is least significant. */
  function LittleEndian(b: seq<JByte>): nat
  {
    if |b| == 0 then 0 else Unsigned(b[0]) + 256 * LittleEndian(b[1..])
  }

  /**
    readInt's assembly of its four-byte buffer: byte 3 shifted into the top eight bits
    (where the shift wraps), then bytes 2, 1 and 0 below it.
   */
  function ReadIntBytes(buf: seq<JByte>): (r: int)
    requires |buf| == 4
    ensures IsInt32(r)
  {
    var result := ToInt32(Unsigned(buf[3]) * 0x100_0000);
    var result := result + Unsigned(buf[2]) * 0x1_0000;
    var result := result + Unsigned(buf[1]) * 0x100;
    result + Unsigned(buf[0])
  }

  /**
    readShort's assembly of its two-byte buffer: byte 1 shifted up eight bits and cast
    to `short`, then byte 0 or-ed in; the compound assignment casts to `short` again.
   */
  function ReadShortBytes(buf: seq<JByte>): (r: int)
    requires |buf| == 2
    ensures IsInt16(r)
  {
    var result := ToInt16(Unsigned(buf[1]) * 0x100);
    ToInt16(result + Unsigned(buf[0]))
  }

  lemma LittleEndian4(buf: seq<JByte>)
    requires |buf| == 4
    ensures LittleEndian(buf)
         == Unsigned(buf[0]) + 0x100 * Unsigned(buf[1]) + 0x1_0000 * Unsigned(buf[2]) + 0x100_0000 * Unsigned(buf[3])
  {
    var t1 := buf[1..];
    var t2 := t1[1..];
    var t3 := t2[1..];
    assert t3[1..] == [];
    assert LittleEndian(t3) == Unsigned(buf[3]);
    assert LittleEndian(t2) == Unsigned(buf[2]) + 0x100 * Unsigned(buf[3]);
    assert LittleEndian(t1) == Unsigned(buf[1]) + 0x100 * Unsigned(buf[2]) + 0x1_0000 * Unsigned(buf[3]);
  }

  lemma LittleEndian2(buf: seq<JByte>)
    requires |buf| == 2
    ensures LittleEndian(buf) == Unsigned(buf[0]) + 0x100 * Unsigned(buf[1])
  {
    var t1 := buf[1..];
    assert t1[1..] == [];
    assert LittleEndian(t1) == Unsigned(buf[1]);
  }

  /** readInt returns the little-endian value of its buffer, wrapped to an `int`. */
  lemma ReadIntIsLittleEndian(buf: seq<JByte>)
    requires |buf| == 4
    ensures ReadIntBytes(buf) == ToInt32(LittleEndian(buf))
  {
    LittleEndian4(buf);
    var top := Unsigned(buf[3]) * 0x100_0000;
    var low := Unsigned(buf[0]) + 0x100 * Unsigned(buf[1]) + 0x1_0000 * Unsigned(buf[2]);
    var r := ReadIntBytes(buf);
    assert r == ToInt32(top) + low;
    assert (r - (top + low)) % Two32 == 0 by {
      assert r - (top + low) == ToInt32(top) - top;
    }
    ToInt32Unique(top + low, r);
  }

  /** A `short` cast in the middle of a sum does not change the final cast. */
  lemma ToInt16Inner(x: int, y: int)
    ensures ToInt16(ToInt16(x) + y) == ToInt16(x + y)
  {
    var r := ToInt16(ToInt16(x) + y);
    var a := r - (ToInt16(x) + y);
    var b := ToInt16(x) - x;
    assert a % Two16 == 0 && b % Two16 == 0;
    assert (a + b) % Two16 == 0 by {
      assert a == Two16 * (a / Two16) && b == Two16 * (b / Two16);
      assert a + b == Two16 * (a / Two16 + b / Two16);
    }
    assert r - (x + y) == a + b;
    ToInt16Unique(x + y, r);
  }

  /** readShort returns the little-endian value of its buffer, wrapped to a `short`. */
  lemma ReadShortIsLittleEndian(buf: seq<JByte>)
    requires |buf| == 2
    ensures ReadShortBytes(buf) == ToInt16(LittleEndian(buf))
  {
    LittleEndian2(buf);
    ToInt16Inner(Unsigned(buf[1]) * 0x100, Unsigned(buf[0]));
  }

  /** The base-256 digits of a number below 2^32, least significant first. */
  lemma Digits4(d0: int, d1: int, d2: int, d3: int)
    requires 0 <= d0 < 0x100 && 0 <= d1 < 0x100 && 0 <= d2 < 0x100 && 0 <= d3 < 0x100
    ensures var n := d0 + 0x100 * d1 + 0x1_0000 * d2 + 0x100_0000 * d3;
      && n % 0x100 == d0 && n / 0x100 % 0x100 == d1 && n / 0x1_0000 % 0x100 == d2 && n / 0x100_0000 == d3
  {
    var m2 := d2 + 0x100 * d3;
    var m1 := d1 + 0x100 * m2;
    var n := d0 + 0x100 * m1;
    assert n == d0 + 0x100 * d1 + 0x1_0000 * d2 + 0x100_0000 * d3;
    assert n % 0x100 == d0 && n / 0x100 == m1;
    assert m1 % 0x100 == d1 && m1 / 0x100 == m2;
    assert n / 0x1_0000 == m2;
    assert n / 0x100_0000 == d3;
  }

  /** The base-256 digits of a number below 2^16, least significant first. */
  lemma Digits2(d0: int, d1: int)
    requires 0 <= d0 < 0x100 && 0 <= d1 < 0x100
    ensures (d0 + 0x100 * d1) % 0x100 == d0 && (d0 + 0x100 * d1) / 0x100 == d1
  {
  }

  /** A number below 2^32 is the sum of its base-256 digits. */
  lemma Compose4(u: int)
    requires 0 <= u < Two32
    ensures u == u % 0x100 + 0x100 * (u / 0x100 % 0x100) + 0x1_0000 * (u / 0x1_0000 % 0x100) + 0x100_0000 * (u / 0x100_0000)
  {
    var m1 := u / 0x100;
    var m2 := m1 / 0x100;
    assert u == u % 0x100 + 0x100 * m1;
    assert m1 == m1 % 0x100 + 0x100 * m2;
    assert m2 == m2 % 0x100 + 0x100 * (m2 / 0x100);
    assert u / 0x1_0000 == m2;
    assert u / 0x100_0000 == m2 / 0x100;
  }

  /** The four bytes, least significant first, of a number below 2^32. */
  function Bytes32(u: int): (b: seq<JByte>)
    requires 0 <= u < Two32
    ensures |b| == 4
  {
    [ToJByte(u % 0x100), ToJByte(u / 0x100 % 0x100), ToJByte(u / 0x1_0000 % 0x100), ToJByte(u / 0x100_0000)]
  }

  /** The two bytes, least significant first, of a number below 2^16. */
  function Bytes16(u: int): (b: seq<JByte>)
    requires 0 <= u < Two16
    ensures |b| == 2
  {
    [ToJByte(u % 0x100), ToJByte(u / 0x100)]
  }

  /** The four bytes a little-endian writer emits for an `int`. */
  function IntToBytes(v: int): (b: seq<JByte>)
    requires IsInt32(v)
    ensures |b| == 4
  {
    Bytes32(v % Two32)
  }

  /** The two bytes a little-endian writer emits for a `short`. */
  function ShortToBytes(v: int): (b: seq<JByte>)
    requires IsInt16(v)
    ensures |b| == 2
  {
    Bytes16(v % Two16)
  }

  lemma LittleEndianOfBytes32(u: int)
    requires 0 <= u < Two32
    ensures LittleEndian(Bytes32(u)) == u
  {
    var b := Bytes32(u);
    UnsignedOfToJByte(u % 0x100);
    UnsignedOfToJByte(u / 0x100 % 0x100);
    UnsignedOfToJByte(u / 0x1_0000 % 0x100);
    UnsignedOfToJByte(u / 0x100_0000);
    LittleEndian4(b);
    Compose4(u);
  }

  lemma Bytes32OfLittleEndian(buf: seq<JByte>)
    requires |buf| == 4
    ensures LittleEndian(buf) < Two32
    ensures Bytes32(LittleEndian(buf)) == buf
  {
    LittleEndian4(buf);
    Digits4(Unsigned(buf[0]), Unsigned(buf[1]), Unsigned(buf[2]), Unsigned(buf[3]));
    UnsignedToJByte(buf[0]);
    UnsignedToJByte(buf[1]);
    UnsignedToJByte(buf[2]);
    UnsignedToJByte(buf[3]);
  }

  /** An `int` whose low 32 bits are `u` wraps `u`. */
  lemma WrapOfLow32(v: int, u: int)
    requires IsInt32(v) && u == v % Two32
    ensures ToInt32(u) == v
  {
    assert (v - u) % Two32 == 0 by {
      assert v - u == Two32 * (v / Two32);
    }
    ToInt32Unique(u, v);
  }

  /** A `short` whose low 16 bits are `u` wraps `u`. */
  lemma WrapOfLow16(v: int, u: int)
    requires IsInt16(v) && u == v % Two16
    ensures ToInt16(u) == v
  {
    assert (v - u) % Two16 == 0 by {
      assert v - u == Two16 * (v / Two16);
    }
    ToInt16Unique(u, v);
  }

  /** Wrapping a number below 2^32 keeps its low 32 bits. */
  lemma LowOfWrap32(n: int)
    requires 0 <= n < Two32
    ensures ToInt32(n) % Two32 == n
  {
    if n >= 0x8000_0000 {
      assert ToInt32(n) == n - Two32;
    }
  }

  /** Wrapping a number below 2^16 keeps its low 16 bits. */
  lemma LowOfWrap16(n: int)
    requires 0 <= n < Two16
    ensures ToInt16(n) % Two16 == n
  {
    if n >= 0x8000 {
      assert ToInt16(n) == n - Two16;
    }
  }

  /** readInt reads back every `int` a little-endian writer wrote. */
  lemma ReadIntOfWrite(v: int)
    requires IsInt32(v)
    ensures ReadIntBytes(IntToBytes(v)) == v
  {
    var u := v % Two32;
    var b := IntToBytes(v);
    assert LittleEndian(b) == u by {
      LittleEndianOfBytes32(u);
    }
    ReadIntIsLittleEndian(b);
    WrapOfLow32(v, u);
  }

  /** Every four-byte buffer is what the writer emits for the `int` readInt makes of it. */
  lemma WriteOfReadInt(buf: seq<JByte>)
    requires |buf| == 4
    ensures IntToBytes(ReadIntBytes(buf)) == buf
  {
    var v := ReadIntBytes(buf);
    var n := LittleEndian(buf);
    Bytes32OfLittleEndian(buf);
    assert v == ToInt32(n) by {
      ReadIntIsLittleEndian(buf);
    }
    LowOfWrap32(n);
  }

  lemma LittleEndianOfBytes16(u: int)
    requires 0 <= u < Two16
    ensures LittleEndian(Bytes16(u)) == u
  {
    var b := Bytes16(u);
    UnsignedOfToJByte(u % 0x100);
    UnsignedOfToJByte(u / 0x100);
    LittleEndian2(b);
  }

  lemma Bytes16OfLittleEndian(buf: seq<JByte>)
    requires |buf| == 2
    ensures LittleEndian(buf) < Two16
    ensures Bytes16(LittleEndian(buf)) == buf
  {
    LittleEndian2(buf);
    Digits2(Unsigned(buf[0]), Unsigned(buf[1]));
    UnsignedToJByte(buf[0]);
    UnsignedToJByte(buf[1]);
  }

  /** readShort reads back every `short` a little-endian writer wrote. */
  lemma ReadShortOfWrite(v: int)
    requires IsInt16(v)
    ensures ReadShortBytes(ShortToBytes(v)) == v
  {
    var u := v % Two16;
    var b := ShortToBytes(v);
    assert LittleEndian(b) == u by {
      LittleEndianOfBytes16(u);
    }
    ReadShortIsLittleEndian(b);
    WrapOfLow16(v, u);
  }

  /** Every two-byte buffer is what the writer emits for the `short` readShort makes of it. */
  lemma WriteOfReadShort(buf: seq<JByte>)
    requires |buf| == 2
    ensures ShortToBytes(ReadShortBytes(buf)) == buf
  {
    var v := ReadShortBytes(buf);
    var n := LittleEndian(buf);
    Bytes16OfLittleEndian(buf);
    assert v == ToInt16(n) by {
      ReadShortIsLittleEndian(buf);
    }
    LowOfWrap16(n);
  }
}
