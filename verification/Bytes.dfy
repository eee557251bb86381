/** The bytes every component works on.

The C code stores text in plain `char`, which is signed on the proxy's targets,
so a byte at or above 0x80 is negative and compares below the space character. */
module Bytes {

  newtype byte = b: int | -128 <= b <= 127

  type Text = seq<byte>

  const NUL: byte := 0
  const SPACE: byte := 32

  /** C's `tolower` in the "C" locale. */
  function Lower(b: byte): (l: byte)
    ensures IsLower(l)
  {
    if 65 <= b <= 90 then b + 32 else b
  }

  /** A byte that lower-casing leaves alone: everything but 'A' to 'Z'. */
  predicate IsLower(b: byte) {
    !(65 <= b <= 90)
  }

  function LowerText(t: Text): (l: Text)
    ensures |l| == |t|
    ensures forall i :: 0 <= i < |t| ==> l[i] == Lower(t[i])
  {
    seq(|t|, i requires 0 <= i < |t| => Lower(t[i]))
  }

  predicate IsLowerText(t: Text) {
    forall i :: 0 <= i < |t| ==> IsLower(t[i])
  }

  /** The bytes of a literal in ASCII. */
  function Ascii(s: string): (t: Text)
    ensures |t| == |s|
    ensures forall i :: 0 <= i < |s| ==> t[i] as int == s[i] as int % 128
  {
    seq(|s|, i requires 0 <= i < |s| => (s[i] as int % 128) as byte)
  }

  /** The letters that change, and that no other byte does. */
  lemma LowerSpelled(b: byte, i: nat)
    requires i < 26
    ensures Lower(('A' as int + i) as byte) == ('a' as int + i) as byte
    ensures !('A' as int <= b as int <= 'Z' as int) ==> Lower(b) == b
  {
  }
}
