/**
  UTF-16, the encoding JavaScript strings and the browser editor index into:
  a character of the Basic Multilingual Plane takes one code unit, any other
  a surrogate pair (RFC 2781 section 2.1).  Ruby indexes the same text by
  character, so offsets agree only while the text stays inside that plane.
 */
module Utf16 {

  /** How many UTF-16 code units a character takes (RFC 2781 section 2.1). */
  function Utf16Units(c: char): nat {
    if c as int > 0xFFFF then 2 else 1
  }

  /** The UTF-16 length of a string, the unit JavaScript offsets count in. */
  function Utf16Length(s: string): nat {
    if s == [] then 0 else Utf16Length(s[..|s| - 1]) + Utf16Units(s[|s| - 1])
  }

  /** A UTF-16 code unit. */
  type CodeUnit = u: int | 0 <= u < 0x1_0000

  /**
    A character in UTF-16: itself when it lies in the Basic Multilingual Plane,
    otherwise a high and a low surrogate (RFC 2781 section 2.1).
   */
  function CharToUtf16(c: char): (units: seq<CodeUnit>)
    ensures |units| == Utf16Units(c)
    ensures |units| == 2 ==> 0xD800 <= units[0] < 0xDC00 <= units[1] < 0xE000
  {
    if c as int > 0xFFFF then
      var v := c as int - 0x1_0000;
      [0xD800 + v / 0x400, 0xDC00 + v % 0x400]
    else [c as int]
  }

  /** A string as the UTF-16 code units JavaScript and the editor index into. */
  function ToUtf16(s: string): (units: seq<CodeUnit>)
    ensures |units| == Utf16Length(s)
  {
    if s == [] then [] else ToUtf16(s[..|s| - 1]) + CharToUtf16(s[|s| - 1])
  }

  /** Every character lies in the Basic Multilingual Plane. */
  predicate InBmp(s: string) {
    forall i :: 0 <= i < |s| ==> s[i] as int <= 0xFFFF
  }

  lemma {:induction false} Utf16LengthAgreesIffBmp(s: string)
    ensures Utf16Length(s) >= |s|
    ensures Utf16Length(s) == |s| <==> InBmp(s)
  {
    if s != [] {
      var init := s[..|s| - 1];
      Utf16LengthAgreesIffBmp(init);
      assert InBmp(s) <==> InBmp(init) && s[|s| - 1] as int <= 0xFFFF by {
        if InBmp(init) && s[|s| - 1] as int <= 0xFFFF {
          forall i | 0 <= i < |s| ensures s[i] as int <= 0xFFFF {
            if i < |s| - 1 { assert s[i] == init[i]; }
          }
        }
      }
    }
  }

  lemma {:induction false} Utf16LengthAppend(a: string, b: string)
    ensures Utf16Length(a + b) == Utf16Length(a) + Utf16Length(b)
    decreases |b|
  {
    if b == [] {
      assert a + b == a;
    } else {
      assert (a + b)[..|a + b| - 1] == a + b[..|b| - 1];
      Utf16LengthAppend(a, b[..|b| - 1]);
    }
  }

  /** Encoding works character by character, so it distributes over concatenation. */
  lemma {:induction false} ToUtf16Append(a: string, b: string)
    ensures ToUtf16(a + b) == ToUtf16(a) + ToUtf16(b)
    decreases |b|
  {
    if b == [] {
      assert a + b == a;
    } else {
      assert (a + b)[..|a + b| - 1] == a + b[..|b| - 1];
      ToUtf16Append(a, b[..|b| - 1]);
    }
  }

  /**
    In the encoding of `pre + mid + post`, with `pre` and `mid` inside the Basic
    Multilingual Plane, `mid`'s code units sit at its character offsets.
   */
  lemma EncodedMiddle(pre: string, mid: string, post: string)
    requires InBmp(pre) && InBmp(mid)
    ensures |pre| + |mid| <= |ToUtf16(pre + mid + post)|
    ensures ToUtf16(pre + mid + post)[|pre|..|pre| + |mid|] == ToUtf16(mid)
  {
    ToUtf16Append(pre + mid, post);
    ToUtf16Append(pre, mid);
    Utf16LengthAgreesIffBmp(pre);
    Utf16LengthAgreesIffBmp(mid);
    var a, b, c := ToUtf16(pre), ToUtf16(mid), ToUtf16(post);
    assert ToUtf16(pre + mid + post) == a + b + c;
    assert (a + b + c)[|a|..|a| + |b|] == b;
  }
}
