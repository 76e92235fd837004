/** Bytes, and words that are stored with their lowest byte first. */
module Bytes {
  import opened Words

  type Byte = x: int | 0 <= x < 256

  function Digit(p: seq<Byte>, i: nat): nat
    requires i < |p|
  {
    p[i]
  }

  function Read32Le(p: seq<Byte>, at: nat): U32
    requires at + 4 <= |p|
  {
    Digit(p, at) + Digit(p, at + 1) * 0x100 + Digit(p, at + 2) * 0x1_0000 + Digit(p, at + 3) * 0x100_0000
  }

  function Write32Le(x: U32): (p: seq<Byte>)
    ensures |p| == 4
  {
    [x % 0x100, x / 0x100 % 0x100, x / 0x1_0000 % 0x100, x / 0x100_0000]
  }

  lemma ReadsWhatIsWritten(p: seq<Byte>, at: nat, x: U32)
    requires at + 4 <= |p| && p[at..at + 4] == Write32Le(x)
    ensures Read32Le(p, at) == x
  {
    var w := p[at..at + 4];
    assert p[at] == w[0] && p[at + 1] == w[1] && p[at + 2] == w[2] && p[at + 3] == w[3];
    WordOfDigits(x);
  }

  lemma WordOfDigits(x: int)
    ensures x % 0x100 + x / 0x100 % 0x100 * 0x100 + x / 0x1_0000 % 0x100 * 0x1_0000 + x / 0x100_0000 * 0x100_0000 == x
  {
    assert x / 0x1_0000 == x / 0x100 / 0x100 && x / 0x100_0000 == x / 0x1_0000 / 0x100;
  }
}
