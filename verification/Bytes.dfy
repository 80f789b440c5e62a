/**
 Bytes, fixed-width unsigned words and their memory images.

 The model fixes a little-endian host, which is what the source's
 reinterpret-casts assume: a 16-bit field of a header occupies two bytes, the
 low one first, and `htons`/`htonl` reverse the bytes of a word.
 */
module Bytes {

  type Byte = x: int | 0 <= x < 0x100
  type Word16 = x: int | 0 <= x < 0x1_0000
  type Word32 = x: int | 0 <= x < 0x1_0000_0000
  type Word64 = x: int | 0 <= x < 0x1_0000_0000_0000_0000

  const TWO_TO_32 := 0x1_0000_0000
  const TWO_TO_64 := 0x1_0000_0000_0000_0000

  /** The 16-bit word whose memory image on the host is `lo`, `hi`. */
  function LoadLe(lo: Byte, hi: Byte): Word16 {
    lo + 0x100 * hi
  }

  /** The 16-bit word whose image in network byte order is `hi`, `lo`. */
  function LoadBe(hi: Byte, lo: Byte): Word16 {
    0x100 * hi + lo
  }

  /** The memory image of a 16-bit field. */
  function Le16(w: Word16): (image: seq<Byte>)
    ensures |image| == 2
  {
    [w % 0x100, w / 0x100]
  }

  /** The wire image of a 16-bit quantity in network byte order. */
  function Be16(w: Word16): (image: seq<Byte>)
    ensures |image| == 2
  {
    [w / 0x100, w % 0x100]
  }

  /** `htons` and `ntohs` on the host. */
  function Swap16(w: Word16): Word16 {
    LoadBe(w % 0x100, w / 0x100)
  }

  /** The 16-bit word at offset `at` of a buffer. */
  function Load16(b: seq<Byte>, at: nat): Word16
    requires at + 2 <= |b|
  {
    LoadLe(b[at], b[at + 1])
  }

  /** The memory image of a 32-bit field. */
  function Le32(w: Word32): (image: seq<Byte>)
    ensures |image| == 4
  {
    Le16(w % 0x1_0000) + Le16(w / 0x1_0000)
  }

  /** The 32-bit word at offset `at` of a buffer. */
  function Load32(b: seq<Byte>, at: nat): Word32
    requires at + 4 <= |b|
  {
    var lo: int, hi: int := Load16(b, at), Load16(b, at + 2);
    lo + 0x1_0000 * hi
  }

  /** `htonl` and `ntohl` on the host. */
  function Swap32(w: Word32): Word32 {
    var hi: int, lo: int := Swap16(w % 0x1_0000), Swap16(w / 0x1_0000);
    0x1_0000 * hi + lo
  }

  lemma Swap16Twice(w: Word16)
    ensures Swap16(Swap16(w)) == w
  {
    var lo: int, hi: int := w % 0x100, w / 0x100;
    var v := 0x100 * lo + hi;
    assert v % 0x100 == hi && v / 0x100 == lo;
  }

  lemma Halves(lo: Word16, hi: Word16)
    ensures (lo + 0x1_0000 * (hi as int)) / 0x1_0000 == hi
    ensures (lo + 0x1_0000 * (hi as int)) % 0x1_0000 == lo
  {
  }

  /** Reversing the bytes twice gives the word back. */
  lemma Swap32Twice(w: Word32)
    ensures Swap32(Swap32(w)) == w
  {
    hide Swap16;
    var lo: Word16, hi: Word16 := Swap16(w / 0x1_0000), Swap16(w % 0x1_0000);
    var swapped := Swap32(w);
    assert swapped == lo + 0x1_0000 * (hi as int);
    assert swapped / 0x1_0000 == hi && swapped % 0x1_0000 == lo by { Halves(lo, hi); }
    assert Swap16(lo) == w / 0x1_0000 && Swap16(hi) == w % 0x1_0000 by {
      Swap16Twice(w / 0x1_0000);
      Swap16Twice(w % 0x1_0000);
    }
  }

  /** So two words with the same reversal are equal. */
  lemma Swap32Injective(v: Word32, w: Word32)
    requires Swap32(v) == Swap32(w)
    ensures v == w
  {
    Swap32Twice(v);
    Swap32Twice(w);
  }

  /** A 32-bit field read back from its memory image is the field. */
  lemma Load32OfImage(b: seq<Byte>, at: nat, w: Word32)
    requires at + 4 <= |b| && b[at..at + 4] == Le32(w)
    ensures Load32(b, at) == w
  {
    assert b[at..at + 2] == b[at..at + 4][..2] == Le16(w % 0x1_0000);
    assert b[at + 2..at + 4] == b[at..at + 4][2..] == Le16(w / 0x1_0000);
    Load16OfImage(b, at, w % 0x1_0000);
    Load16OfImage(b, at + 2, w / 0x1_0000);
  }

  /** A 16-bit field read back from its memory image is the field. */
  lemma Load16OfImage(b: seq<Byte>, at: nat, w: Word16)
    requires at + 2 <= |b| && b[at..at + 2] == Le16(w)
    ensures Load16(b, at) == w
  {
    assert b[at] == b[at..at + 2][0] && b[at + 1] == b[at..at + 2][1];
  }
}
