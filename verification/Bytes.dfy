/** Bytes, the machine integers the kernel stores, and its string constants. */
module Bytes {
  type byte = x: int | 0 <= x < 0x100
  type u16 = x: int | 0 <= x < 0x1_0000
  type u32 = x: int | 0 <= x < 0x1_0000_0000

  const LINE_FEED: byte := 10
  const BACKSPACE: byte := 8

  /** The value of a C `char` holding the byte b: plain `char` is signed on the kernel's target. */
  function SignedChar(b: byte): int {
    if b < 0x80 then b else b - 0x100
  }

  /** It is the value from -128 to 127 with the same eight bits. */
  lemma SignedCharRange(b: byte)
    ensures -128 <= SignedChar(b) <= 127 && (SignedChar(b) - b) % 256 == 0
  {
  }

  /** A little-endian 16-bit word. */
  function Word(lo: byte, hi: byte): u16 {
    lo as int + 0x100 * hi as int
  }

  /** A little-endian 32-bit word. */
  function DoubleWord(a: byte, b: byte, c: byte, d: byte): u32 {
    a as int + 0x100 * (b as int + 0x100 * (c as int + 0x100 * d as int))
  }

  /** The bytes of a string constant of the source. */
  function Ascii(s: string): seq<byte> {
    seq(|s|, i requires 0 <= i < |s| => s[i] as int % 0x100)
  }

  /** A C string is the bytes before its terminating NUL. */
  predicate IsCString(s: seq<byte>) {
    0 !in s
  }

  lemma Associate(a: seq<byte>, b: seq<byte>, c: seq<byte>)
    ensures a + b + c == a + (b + c)
  {
  }

  lemma AssociateTwice(a: seq<byte>, b: seq<byte>, c: seq<byte>, d: seq<byte>)
    ensures a + b + c + d == a + (b + c + d)
  {
  }

  lemma CStringChars(s: seq<byte>)
    requires IsCString(s)
    ensures forall i :: 0 <= i < |s| ==> s[i] != 0
  {
  }

  /** The bytes of s before its first NUL, or all of s. */
  function UpToNul(s: seq<byte>): (r: seq<byte>)
    ensures r <= s && IsCString(r)
    ensures |r| < |s| ==> s[|r|] == 0
  {
    if s == [] || s[0] == 0 then [] else [s[0]] + UpToNul(s[1..])
  }

  /** A prefix that has no NUL and is followed by one, or by nothing, is the C string of s. */
  lemma UpToNulUnique(s: seq<byte>, r: seq<byte>)
    requires r <= s && IsCString(r)
    requires |r| < |s| ==> s[|r|] == 0
    ensures UpToNul(s) == r
  {
  }

  /** The first n characters of s, padded with blanks on the right. */
  function Pad(s: seq<byte>, n: nat): (r: seq<byte>)
    ensures |r| == n
  {
    seq(n, i requires 0 <= i < n => if i < |s| then s[i] else ' ' as int)
  }

  lemma PadWhole(s: seq<byte>, n: nat)
    requires |s| == n
    ensures Pad(s, n) == s
  {
  }

  lemma PadPrefix(s: seq<byte>, n: nat, ext: seq<byte>)
    ensures (Pad(s, n) + ext)[..n] == Pad(s, n) && (Pad(s, n) + ext)[n..] == ext
  {
  }

  // ----- messages

  /** A text that is handed to print in one piece. */
  type message = seq<byte>

  /** All the characters of a list of messages. */
  function Flat(ms: seq<message>): seq<byte> {
    if ms == [] then [] else ms[0] + Flat(ms[1..])
  }

  lemma FlatStep(m: message, rest: seq<message>)
    ensures Flat([m] + rest) == m + Flat(rest)
  {
    assert ([m] + rest)[1..] == rest;
  }

  /** Characters that are printed one by one. */
  function Chars(s: seq<byte>): (ms: seq<message>)
    ensures |ms| == |s|
  {
    seq(|s|, i requires 0 <= i < |s| => [s[i]])
  }

  lemma CharsConcat(a: seq<byte>, b: seq<byte>)
    ensures Chars(a + b) == Chars(a) + Chars(b)
  {
  }

  lemma MessagesAssociate(a: seq<message>, b: seq<message>, c: seq<message>)
    ensures a + b + c == a + (b + c)
  {
  }

  lemma MessagesAssociateTwice(a: seq<message>, b: seq<message>, c: seq<message>, d: seq<message>)
    ensures a + b + c + d == a + (b + c + d)
  {
  }
}
