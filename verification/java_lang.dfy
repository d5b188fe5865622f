/**
  The few pieces of java.lang behaviour that the string helpers of Util rely on:
  nullable references, signed bytes, String.lastIndexOf on one character,
  and String.trim.
 */
module JavaLang {

  /** A Java reference that may be null. */
  datatype Nullable<+T> = Null | NonNull(value: T)

  /** A Java `byte`: a signed 8-bit two's-complement value. */
  type JByte = x: int | -128 <= x < 128

  /** The bit pattern of a Java byte read as an unsigned value, i.e. `b & 0xff`. */
  function Unsigned(b: JByte): (u: nat)
    ensures u < 256
    ensures u % 256 == b % 256
  {
    if b < 0 then b + 256 else b
  }

  /** The Java cast `(byte) v`: keeps the low eight bits and reads them as signed. */
  function ToJByte(v: int): (b: JByte)
    ensures b % 256 == v % 256
  {
    var u := v % 256;
    if u >= 128 then u - 256 else u
  }

  lemma UnsignedToJByte(b: JByte)
    ensures ToJByte(Unsigned(b)) == b
  {
  }

  /** Casting a value that fits in eight unsigned bits and masking it again gives it back. */
  lemma UnsignedOfToJByte(v: int)
    requires 0 <= v < 256
    ensures Unsigned(ToJByte(v)) == v
  {
  }

  /** `s.lastIndexOf(c)`: the position of the last `c`, or -1 when there is none. */
  function LastIndexOf(s: string, c: char): (k: int)
    ensures -1 <= k < |s|
    ensures k == -1 <==> c !in s
    ensures k >= 0 ==> s[k] == c && c !in s[k + 1..]
  {
    if |s| == 0 then -1
    else if s[|s| - 1] == c then |s| - 1
    else
      var front := s[..|s| - 1];
      var k := LastIndexOf(front, c);
      assert (c in s <==> c in front) by {
        assert s == front + [s[|s| - 1]];
      }
      assert k >= 0 ==> s[k] == c && c !in s[k + 1..] by {
        if k >= 0 {
          assert s[k + 1..] == front[k + 1..] + [s[|s| - 1]];
        }
      }
      k
  }

  /** Drops leading characters at or below U+0020, as the first loop of `String.trim` does. */
  function TrimStart(s: string): string
  {
    if |s| > 0 && s[0] <= ' ' then TrimStart(s[1..]) else s
  }

  /** Drops trailing characters at or below U+0020, as the second loop of `String.trim` does. */
  function TrimEnd(s: string): string
  {
    if |s| > 0 && s[|s| - 1] <= ' ' then TrimEnd(s[..|s| - 1]) else s
  }

  /** `String.trim`. */
  function TrimWhitespace(s: string): string
  {
    TrimEnd(TrimStart(s))
  }

  /** `s.trim().length() > 0`. */
  predicate NonBlank(s: string)
  {
    |TrimWhitespace(s)| > 0
  }

  /** Some character of `s` lies above U+0020. */
  predicate HasVisible(s: string)
  {
    exists i :: 0 <= i < |s| && s[i] > ' '
  }

  lemma {:induction false} TrimStartEmptyIff(s: string)
    ensures |TrimStart(s)| == 0 <==> !HasVisible(s)
    decreases |s|
  {
    if |s| > 0 {
      if s[0] <= ' ' {
        TrimStartEmptyIff(s[1..]);
        if HasVisible(s) {
          var i :| 0 <= i < |s| && s[i] > ' ';
          assert s[1..][i - 1] > ' ';
        }
        if HasVisible(s[1..]) {
          var i :| 0 <= i < |s[1..]| && s[1..][i] > ' ';
          assert s[i + 1] > ' ';
        }
      } else {
        assert s[0] > ' ';
      }
    }
  }

  lemma {:induction false} TrimEndEmptyIff(s: string)
    ensures |TrimEnd(s)| == 0 <==> !HasVisible(s)
    decreases |s|
  {
    if |s| > 0 {
      var n := |s| - 1;
      if s[n] <= ' ' {
        TrimEndEmptyIff(s[..n]);
        if HasVisible(s) {
          var i :| 0 <= i < |s| && s[i] > ' ';
          assert s[..n][i] > ' ';
        }
        if HasVisible(s[..n]) {
          var i :| 0 <= i < |s[..n]| && s[..n][i] > ' ';
          assert s[i] > ' ';
        }
      } else {
        assert s[n] > ' ';
      }
    }
  }

  lemma {:induction false} TrimStartKeepsVisible(s: string)
    ensures HasVisible(TrimStart(s)) <==> HasVisible(s)
    decreases |s|
  {
    TrimStartEmptyIff(s);
    if |s| > 0 && s[0] <= ' ' {
      TrimStartKeepsVisible(s[1..]);
      TrimStartEmptyIff(s[1..]);
    } else if |TrimStart(s)| > 0 {
      assert TrimStart(s) == s;
    }
  }

  /** A string survives `trim()` non-empty exactly when it has a character above U+0020. */
  lemma NonBlankIffVisible(s: string)
    ensures NonBlank(s) <==> HasVisible(s)
  {
    TrimStartKeepsVisible(s);
    TrimEndEmptyIff(TrimStart(s));
  }
}
