/** Bytes and 32-bit words.

  A word is read and written as four bytes, lowest byte first, which is what the GET and PUT
  macros of mm.c do on the 32-bit x86 target of the Makefile.  The macros that take a tag word
  apart work on its low three bits; here they are written with `%`.
 */
module Words {

  type byte = x: int | 0 <= x < 256

  const TWO_32: nat := 0x1_0000_0000
  const TWO_31: nat := 0x8000_0000

  /** The word stored at offset p: GET(p). */
  function Word(m: seq<byte>, p: nat): (w: nat)
    requires p + 4 <= |m|
    ensures w < TWO_32
  {
    m[p] as nat + 0x100 * (m[p + 1] as nat) + 0x1_0000 * (m[p + 2] as nat) + 0x100_0000 * (m[p + 3] as nat)
  }

  /** GET_SIZE of a word: clear the three low bits. */
  function SizeBits(w: nat): (s: nat)
    ensures s <= w
  {
    w - w % 8
  }

  /** GET_ALLOC of a word: the lowest bit. */
  predicate AllocBit(w: nat) {
    w % 2 == 1
  }

  /** A size_t value passed where an int is expected. */
  function AsInt(w: nat): (i: int) {
    if w < TWO_31 then w else w - TWO_32
  }

  /** m' differs from m at most in the bytes lo, ..., hi - 1. */
  ghost predicate SameOutside(m: seq<byte>, m': seq<byte>, lo: int, hi: int) {
    |m'| == |m| && forall k :: 0 <= k < |m| && !(lo <= k < hi) ==> m'[k] == m[k]
  }

  /** The four bytes of a word add up to it again. */
  lemma {:induction false} BytesOfWord(v: nat)
    requires v < TWO_32
    ensures 0 <= v / 0x100_0000 < 256
    ensures v % 0x100 + 0x100 * (v / 0x100 % 0x100) + 0x1_0000 * (v / 0x1_0000 % 0x100)
            + 0x100_0000 * (v / 0x100_0000) == v
  {
    assert v / 0x1_0000 == (v / 0x100) / 0x100;
    assert v / 0x100_0000 == (v / 0x1_0000) / 0x100;
  }
}
