/** The two `str` methods the name pre-filter uses: `trim` and `len`.
    A Rust `String` is a sequence of Unicode scalar values stored as UTF-8;
    here it is a Dafny `string` (whose `char` is a Unicode scalar value), and
    its stored bytes are given by `Utf8`, so that `len` counts bytes, not
    characters, exactly as Rust does. */
module RustStr {

  newtype byte = x: int | 0 <= x < 256

  /** `char::is_whitespace`: the characters with the Unicode property
      White_Space, the set `str::trim` strips. */
  predicate IsWhitespace(c: char)
    ensures IsWhitespace(c) ==> 0x09 <= c as int <= 0x3000
    ensures ('a' <= c <= 'z' || 'A' <= c <= 'Z' || '0' <= c <= '9' || c == '_') ==> !IsWhitespace(c)
  {
    ('\t' <= c <= '\r') || c == ' ' || c == '\U{85}' || c == '\U{A0}' || c == '\U{1680}'
    || ('\U{2000}' <= c <= '\U{200A}') || c == '\U{2028}' || c == '\U{2029}'
    || c == '\U{202F}' || c == '\U{205F}' || c == '\U{3000}'
  }

  predicate AllWhitespace(s: string) {
    forall k :: 0 <= k < |s| ==> IsWhitespace(s[k])
  }

  /** Length of the longest all-whitespace prefix of `s`. */
  function LeadingWhitespace(s: string): (n: nat)
    ensures n <= |s|
    ensures forall k :: 0 <= k < n ==> IsWhitespace(s[k])
    ensures n < |s| ==> !IsWhitespace(s[n])
  {
    if s != [] && IsWhitespace(s[0]) then 1 + LeadingWhitespace(s[1..]) else 0
  }

  /** Length of the longest all-whitespace suffix of `s`. */
  function TrailingWhitespace(s: string): (n: nat)
    ensures n <= |s|
    ensures forall k :: |s| - n <= k < |s| ==> IsWhitespace(s[k])
    ensures n < |s| ==> !IsWhitespace(s[|s| - 1 - n])
  {
    if s != [] && IsWhitespace(s[|s| - 1]) then 1 + TrailingWhitespace(s[..|s| - 1]) else 0
  }

  /** `str::trim`: strips leading, then trailing, whitespace. The result is
      the slice of `s` that starts at its first non-whitespace character,
      everything cut off is whitespace, and the result neither starts nor
      ends with whitespace. */
  function Trim(s: string): (r: string)
    ensures var i := LeadingWhitespace(s); i + |r| <= |s| && r == s[i..i + |r|]
    ensures var i := LeadingWhitespace(s);
      forall k :: 0 <= k < |s| && !(i <= k < i + |r|) ==> IsWhitespace(s[k])
    ensures r != [] ==> !IsWhitespace(r[0]) && !IsWhitespace(r[|r| - 1])
  {
    var t := s[LeadingWhitespace(s)..];
    t[..|t| - TrailingWhitespace(t)]
  }

  /** Trimming twice is the same as trimming once. */
  lemma TrimIdempotent(s: string)
    ensures Trim(Trim(s)) == Trim(s)
  {
  }

  /** Whitespace around a string does not change what `trim` returns. */
  lemma {:induction false} TrimIgnoresPadding(a: string, s: string, b: string)
    requires AllWhitespace(a) && AllWhitespace(b)
    ensures Trim(a + s + b) == Trim(s)
  {
    var u := a + s + b;
    var r, r' := Trim(u), Trim(s);
    var i, i' := LeadingWhitespace(u), LeadingWhitespace(s);
    // r is the part of u between its first and last non-whitespace character,
    // and every such character of u lies inside s.
    if r' == [] {
      assert forall k :: 0 <= k < |u| ==> IsWhitespace(u[k]);
    } else {
      assert !IsWhitespace(s[i']);
      assert u[|a| + i'] == s[i'];
      assert !IsWhitespace(s[i' + |r'| - 1]);
      assert u[|a| + i' + |r'| - 1] == s[i' + |r'| - 1];
      assert r != [];
      // The start of r is the first non-whitespace character of u.
      assert i == |a| + i' by {
        assert u[i] == r[0];
        assert |a| <= i < |a| + |s|;
        assert s[i - |a|] == u[i];
      }
      // The end of r is the last non-whitespace character of u.
      assert |r| == |r'| by {
        var e, e' := i + |r| - 1, |a| + i' + |r'| - 1;
        assert u[e] == r[|r| - 1];
        assert |a| <= e < |a| + |s|;
        assert s[e - |a|] == u[e];
      }
      assert forall k :: 0 <= k < |r| ==> r[k] == u[i + k] == s[i' + k] == r'[k];
    }
  }

  /** UTF-8 encoding of one scalar value, as in section 3 of RFC 3629:
      one byte below U+0080, two below U+0800, three below U+10000, four
      after that. The lead byte announces the length and is never the lead
      of an overlong form; every byte after it is a continuation byte. */
  function EncodeChar(c: char): (bs: seq<byte>)
    ensures |bs| == (if c as int < 0x80 then 1 else if c as int < 0x800 then 2
                     else if c as int < 0x10000 then 3 else 4)
    ensures |bs| == 1 ==> bs[0] < 0x80
    ensures |bs| == 2 ==> 0xC2 <= bs[0] <= 0xDF
    ensures |bs| == 3 ==> 0xE0 <= bs[0] <= 0xEF
    ensures |bs| == 4 ==> 0xF0 <= bs[0] <= 0xF4
    ensures forall k :: 1 <= k < |bs| ==> 0x80 <= bs[k] < 0xC0
    ensures DecodeChar(bs) == c as int
  {
    var cp := c as int;
    var q1, r0 := cp / 64, cp % 64;
    var q2, r1 := q1 / 64, q1 % 64;
    var q3, r2 := q2 / 64, q2 % 64;
    if cp < 0x80 then [cp as byte]
    else if cp < 0x800 then [(0xC0 + q1) as byte, (0x80 + r0) as byte]
    else if cp < 0x10000 then [(0xE0 + q2) as byte, (0x80 + r1) as byte, (0x80 + r0) as byte]
    else [(0xF0 + q3) as byte, (0x80 + r2) as byte, (0x80 + r1) as byte, (0x80 + r0) as byte]
  }

  /** The scalar value a 1- to 4-byte UTF-8 sequence encodes, read off its
      lead byte's payload and the six payload bits of each continuation byte. */
  function DecodeChar(bs: seq<byte>): int
    requires 1 <= |bs| <= 4
  {
    if |bs| == 1 then bs[0] as int
    else if |bs| == 2 then (bs[0] as int - 0xC0) * 64 + (bs[1] as int - 0x80)
    else if |bs| == 3 then
      ((bs[0] as int - 0xE0) * 64 + (bs[1] as int - 0x80)) * 64 + (bs[2] as int - 0x80)
    else
      (((bs[0] as int - 0xF0) * 64 + (bs[1] as int - 0x80)) * 64 + (bs[2] as int - 0x80)) * 64
        + (bs[3] as int - 0x80)
  }

  /** The bytes a Rust `String` holding `s` stores. */
  function Utf8(s: string): (bs: seq<byte>)
    ensures |s| <= |bs| <= 4 * |s|
  {
    if s == [] then [] else EncodeChar(s[0]) + Utf8(s[1..])
  }

  /** `str::len`: the number of UTF-8 bytes. */
  function ByteLen(s: string): (n: nat)
    ensures |s| <= n <= 4 * |s|
  {
    |Utf8(s)|
  }

  predicate IsAscii(s: string) {
    forall k :: 0 <= k < |s| ==> s[k] as int < 0x80
  }

  /** Encoding distributes over concatenation. */
  lemma {:induction false} Utf8Concat(s: string, t: string)
    ensures Utf8(s + t) == Utf8(s) + Utf8(t)
  {
    if s != [] {
      assert (s + t)[1..] == s[1..] + t;
      Utf8Concat(s[1..], t);
    } else {
      assert s + t == t;
    }
  }

  /** For ASCII text, bytes and characters coincide. */
  lemma {:induction false} AsciiByteLen(s: string)
    requires IsAscii(s)
    ensures ByteLen(s) == |s|
  {
    if s != [] {
      assert IsAscii(s[1..]);
      AsciiByteLen(s[1..]);
    }
  }
}
