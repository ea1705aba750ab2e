/** Character strings measured in UTF-8 bytes. */
module Text {
  import opened Bytes

  function Utf8Width(c: char): nat {
    if c as int < 0x80 then 1
    else if c as int < 0x800 then 2
    else if c as int < 0x1_0000 then 3
    else 4
  }

  /** The UTF-8 encoding of one character (section 3 of RFC 3629). */
  function Utf8(c: char): Bytes {
    var n := c as int;
    if n < 0x80 then [n]
    else if n < 0x800 then [0xC0 + n / 64, 0x80 + n % 64]
    else if n < 0x1_0000 then [0xE0 + n / 4096, 0x80 + n / 64 % 64, 0x80 + n % 64]
    else [0xF0 + n / 262144, 0x80 + n / 4096 % 64, 0x80 + n / 64 % 64, 0x80 + n % 64]
  }

  function Continued(b: byte): int {
    var n: int := b;
    n - 0x80
  }

  /** The number that the encoding at the start of `bytes` stands for. */
  function ReadUtf8(bytes: Bytes): int {
    if bytes == [] then -1
    else
      var first: int := bytes[0];
      if first < 0x80 then first
      else if first < 0xE0 then
        if |bytes| < 2 then -1 else (first - 0xC0) * 64 + Continued(bytes[1])
      else if first < 0xF0 then
        if |bytes| < 3 then -1 else (first - 0xE0) * 4096 + Continued(bytes[1]) * 64 + Continued(bytes[2])
      else if |bytes| < 4 then -1
      else (first - 0xF0) * 262144 + Continued(bytes[1]) * 4096 + Continued(bytes[2]) * 64 + Continued(bytes[3])
  }

  function Utf8Text(s: string): Bytes {
    if s == "" then [] else Utf8(s[0]) + Utf8Text(s[1..])
  }

  /** An encoded character is read back, whatever follows it. */
  lemma CharacterReadsBack(c: char, rest: Bytes)
    ensures ReadUtf8(Utf8(c) + rest) == c as int
  {
    var n := c as int;
    assert n / 64 == n / 4096 * 64 + n / 64 % 64;
    assert n / 4096 == n / 262144 * 64 + n / 4096 % 64;
  }

  /** The length of a text is the length of its UTF-8 encoding. */
  lemma {:induction false} ByteLenIsUtf8(s: string)
    ensures ByteLen(s) == |Utf8Text(s)|
  {
    if s != "" {
      ByteLenIsUtf8(s[1..]);
    }
  }

  function ByteLen(s: string): nat {
    if s == "" then 0 else Utf8Width(s[0]) + ByteLen(s[1..])
  }

  function TotalByteLen(words: seq<string>): nat {
    if words == [] then 0 else ByteLen(words[0]) + TotalByteLen(words[1..])
  }

  /** The Unicode control characters. */
  predicate IsControl(c: char) {
    c as int < 0x20 || 0x7F <= c as int <= 0x9F
  }

  predicate HasControl(s: string) {
    exists i :: 0 <= i < |s| && IsControl(s[i])
  }

  /** No character is below the space, and none is a delete or one of the upper control characters. */
  predicate Printable(s: string) {
    forall i :: 0 <= i < |s| ==> ' ' <= s[i] && !(0x7F <= s[i] as int <= 0x9F)
  }

  lemma {:induction false} ByteLenAppend(a: string, b: string)
    ensures ByteLen(a + b) == ByteLen(a) + ByteLen(b)
  {
    if a == "" {
      assert a + b == b;
    } else {
      assert (a + b)[1..] == a[1..] + b;
      ByteLenAppend(a[1..], b);
    }
  }

  lemma {:induction false} TotalByteLenAppend(a: seq<string>, b: seq<string>)
    ensures TotalByteLen(a + b) == TotalByteLen(a) + TotalByteLen(b)
  {
    if a == [] {
      assert a + b == b;
    } else {
      assert (a + b)[1..] == a[1..] + b;
      TotalByteLenAppend(a[1..], b);
    }
  }

  lemma {:induction false} ByteLenCovers(s: string)
    ensures |s| <= ByteLen(s)
  {
    if s != "" {
      ByteLenCovers(s[1..]);
    }
  }

  lemma {:induction false} ByteLenOfAscii(s: string)
    requires forall i :: 0 <= i < |s| ==> s[i] as int < 0x80
    ensures ByteLen(s) == |s|
  {
    if s != "" {
      ByteLenOfAscii(s[1..]);
    }
  }

  /** Printable text of a given length. */
  function PlainText(n: nat): (s: string)
    ensures |s| == n && ByteLen(s) == n && !HasControl(s)
  {
    var s := seq(n, i => 'x');
    ByteLenOfAscii(s);
    s
  }
}
