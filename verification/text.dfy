/** The handful of `str` operations the tic-tac-toe parser relies on:
    whitespace trimming, ASCII lowercasing, decimal digits and the UTF-8
    byte length that Rust's `str::len` reports. */
module Text {
  import opened Wrappers

  /** Rust's `char::is_whitespace`: the Unicode White_Space property. */
  predicate IsWhitespace(c: char)
  {
    || '\t' <= c <= '\r'
    || c == ' '
    || c == '\U{0085}'
    || c == '\U{00A0}'
    || c == '\U{1680}'
    || '\U{2000}' <= c <= '\U{200A}'
    || c == '\U{2028}'
    || c == '\U{2029}'
    || c == '\U{202F}'
    || c == '\U{205F}'
    || c == '\U{3000}'
  }

  /** `str::trim_start`: the suffix left after dropping leading whitespace. */
  function TrimStart(s: string): (r: string)
    ensures |r| <= |s| && r == s[|s| - |r|..]
    ensures forall i :: 0 <= i < |s| - |r| ==> IsWhitespace(s[i])
    ensures r == [] || !IsWhitespace(r[0])
  {
    if |s| > 0 && IsWhitespace(s[0]) then TrimStart(s[1..]) else s
  }

  /** `str::trim_end`: the prefix left after dropping trailing whitespace. */
  function TrimEnd(s: string): (r: string)
    ensures |r| <= |s| && r == s[..|r|]
    ensures forall i :: |r| <= i < |s| ==> IsWhitespace(s[i])
    ensures r == [] || !IsWhitespace(r[|r| - 1])
  {
    if |s| > 0 && IsWhitespace(s[|s| - 1]) then TrimEnd(s[..|s| - 1]) else s
  }

  /** `r` is the slice of `s` starting at `a`, and everything of `s`
      outside that slice is whitespace. */
  ghost predicate StrippedAt(s: string, r: string, a: nat)
  {
    && a + |r| <= |s|
    && r == s[a..a + |r|]
    && (forall i :: 0 <= i < a ==> IsWhitespace(s[i]))
    && (forall i :: a + |r| <= i < |s| ==> IsWhitespace(s[i]))
  }

  /** `str::trim`: a contiguous slice of `s` whose removed ends are all
      whitespace and whose own ends are not. */
  function Trim(s: string): (r: string)
    ensures |r| <= |s|
    ensures exists a :: StrippedAt(s, r, a)
    ensures r == [] || (!IsWhitespace(r[0]) && !IsWhitespace(r[|r| - 1]))
  {
    var t := TrimStart(s);
    var r := TrimEnd(t);
    assert StrippedAt(s, r, |s| - |t|);
    r
  }

  /** Trimming leaves a string whose ends are not whitespace unchanged. */
  lemma TrimUnpadded(s: string)
    requires |s| > 0 && !IsWhitespace(s[0]) && !IsWhitespace(s[|s| - 1])
    ensures Trim(s) == s
  {
  }

  /** `char::to_ascii_lowercase`: an upper-case ASCII letter becomes its
      lower-case letter, every other character is kept. */
  function AsciiLower(c: char): (r: char)
    ensures !('A' <= r <= 'Z')
    ensures 'A' <= c <= 'Z' ==> 'a' <= r <= 'z' && r as int - 'a' as int == c as int - 'A' as int
    ensures !('A' <= c <= 'Z') ==> r == c
  {
    if 'A' <= c <= 'Z' then (c as int - 'A' as int + 'a' as int) as char else c
  }

  /** Lowercases every character of `s` (ASCII only; see README). */
  function Lower(s: string): (r: string)
    ensures |r| == |s|
    ensures forall i :: 0 <= i < |s| ==> r[i] == AsciiLower(s[i])
    ensures forall i :: 0 <= i < |r| ==> !('A' <= r[i] <= 'Z')
  {
    seq(|s|, i requires 0 <= i < |s| => AsciiLower(s[i]))
  }

  /** Lowercasing twice is lowercasing once. */
  lemma LowerIdempotent(s: string)
    ensures Lower(Lower(s)) == Lower(s)
  {
  }

  /** `char::to_digit(10)`: only the ASCII digits have a decimal value. */
  function DigitValue(c: char): (r: Option<nat>)
    ensures r.Some? <==> '0' <= c <= '9'
    ensures r.Some? ==> r.value < 10 && '0' as int + r.value == c as int
  {
    if '0' <= c <= '9' then Some(c as int - '0' as int) else None
  }

  /** Number of bytes the UTF-8 encoding of `c` takes. */
  function Utf8Len(c: char): (n: nat)
    ensures 1 <= n <= 4
    ensures n == 1 <==> c as int < 0x80
  {
    if c as int < 0x80 then 1
    else if c as int < 0x800 then 2
    else if c as int < 0x1_0000 then 3
    else 4
  }

  /** Rust's `str::len`: the length of the UTF-8 encoding, in bytes. */
  function ByteLen(s: string): (n: nat)
    ensures |s| <= n <= 4 * |s|
  {
    if |s| == 0 then 0 else Utf8Len(s[0]) + ByteLen(s[1..])
  }

  /** A string whose encoding is `k` bytes long and whose first `k - 1`
      characters are ASCII has exactly `k` characters, all of them ASCII. */
  lemma {:induction false} ByteLenAsciiPrefix(s: string, k: nat)
    requires ByteLen(s) == k && 1 <= k <= |s| + 1
    requires forall i :: 0 <= i < k - 1 ==> s[i] as int < 0x80
    ensures |s| == k
    ensures s[k - 1] as int < 0x80
  {
    if k == 1 {
      assert ByteLen(s) == Utf8Len(s[0]) + ByteLen(s[1..]);
    } else {
      assert ByteLen(s) == 1 + ByteLen(s[1..]);
      ByteLenAsciiPrefix(s[1..], k - 1);
    }
  }
}
