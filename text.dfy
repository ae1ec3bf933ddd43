/** Shared vocabulary: optional values, bytes, and the two text-to-bytes
    encodings the repository relies on (.NET's Encoding.ASCII for the TCP
    server, Go's UTF-8 string-to-[]byte conversion for the NTRIP client). */
module Text {

  datatype Option<+T> = None | Some(value: T)

  newtype byte = x: int | 0 <= x < 256

  type Bytes = seq<byte>

  predicate IsAscii(s: string) {
    forall i :: 0 <= i < |s| ==> s[i] as int < 128
  }

  /** One character as Encoding.ASCII.GetBytes writes it: a code point below
      128 is kept, any other becomes the replacement '?' (63). A char here
      is a Unicode scalar value, so a code point above U+FFFF (a surrogate
      pair in .NET's UTF-16 strings, which the replacement fallback takes as
      one unit) also becomes a single '?'. */
  function AsciiChar(c: char): (b: byte)
  {
    if c as int < 128 then c as int as byte else 63
  }

  /** Encoding.ASCII.GetBytes(s): one byte per character, the character
      itself when it is 7-bit and '?' otherwise. */
  function Ascii(s: string): (b: Bytes)
    ensures |b| == |s|
    ensures forall i :: 0 <= i < |s| ==> b[i] as int == if s[i] as int < 128 then s[i] as int else 63
  {
    if s == [] then [] else [AsciiChar(s[0])] + Ascii(s[1..])
  }

  /** The UTF-8 encoding of one Unicode scalar value. */
  function Utf8Char(c: char): (b: Bytes)
    ensures 1 <= |b| <= 4
    ensures c as int < 128 <==> |b| == 1
    ensures |b| == 1 ==> b[0] as int == c as int
    ensures |b| > 1 ==> forall i :: 0 <= i < |b| ==> b[i] >= 128
  {
    var n := c as int;
    if n < 0x80 then [n as byte]
    else if n < 0x800 then [(0xC0 + n / 64) as byte, (0x80 + n % 64) as byte]
    else if n < 0x1_0000 then
      [(0xE0 + n / 4096) as byte, (0x80 + (n / 64) % 64) as byte, (0x80 + n % 64) as byte]
    else
      [(0xF0 + n / 262144) as byte, (0x80 + (n / 4096) % 64) as byte,
       (0x80 + (n / 64) % 64) as byte, (0x80 + n % 64) as byte]
  }

  /** Go's []byte(s): the UTF-8 encoding of the string. */
  function Utf8(s: string): (b: Bytes)
    ensures |b| >= |s|
    ensures IsAscii(s) ==> |b| == |s| && forall i :: 0 <= i < |s| ==> b[i] as int == s[i] as int
  {
    if s == [] then [] else Utf8Char(s[0]) + Utf8(s[1..])
  }

  /** An ASCII byte occurs in the UTF-8 encoding of a string only where the
      string holds that very character: multi-byte sequences use bytes of 128
      and above only. */
  lemma {:induction false} Utf8AsciiByte(s: string, c: char)
    requires c as int < 128
    requires c !in s
    ensures c as int as byte !in Utf8(s)
  {
    if s != [] {
      Utf8AsciiByte(s[1..], c);
      assert Utf8(s) == Utf8Char(s[0]) + Utf8(s[1..]);
    }
  }

  // Sequence facts used where proving them inline would unfold the
  // encodings above.

  lemma AppendAssoc<T>(a: seq<T>, b: seq<T>, c: seq<T>)
    ensures a + b + c == a + (b + c)
  {
  }

  lemma AppendSplit<T>(a: seq<T>, b: seq<T>)
    requires a != []
    ensures (a + b)[0] == a[0] && (a + b)[1..] == a[1..] + b
  {
  }

  lemma PrefixGrow<T>(d: seq<T>, i: nat, j: nat)
    requires i <= j <= |d|
    ensures d[..i] + d[i..j] == d[..j]
  {
  }

  lemma SliceOfSuffix<T>(whole: seq<T>, k: nat, d: seq<T>, i: nat, j: nat)
    requires k <= |whole| && whole[k..] == d && i <= j <= |d|
    ensures whole[k + i..k + j] == d[i..j]
  {
    forall x | 0 <= x < j - i
      ensures whole[k + i..k + j][x] == d[i..j][x]
    {
      assert whole[k + i..k + j][x] == whole[k + i + x] == whole[k..][i + x];
    }
  }

  lemma PrefixOfAppend<T>(a: seq<T>, b: seq<T>, n: nat)
    requires n <= |b|
    ensures (a + b)[..|a| + n] == a + b[..n]
    ensures (a + b)[..|a|] == a
    ensures (a + b)[|a|..] == b
  {
  }
}
