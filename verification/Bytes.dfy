/** Bytes, 16-bit words and the byte orders in which packet headers store them. */
module Bytes {

  type Byte = b: int | 0 <= b < 0x100
  type Word = w: int | 0 <= w < 0x1_0000
  type DWord = d: int | 0 <= d < 0x1_0000_0000

  /** The 16-bit number made of a high and a low byte. */
  function Pair(hi: int, lo: int): int {
    0x100 * hi + lo
  }

  /** The 16-bit word that `s` holds at `i` in network order (`bpf_ntohs` of a field). */
  function Be16(s: seq<Byte>, i: nat): Word
    requires i + 2 <= |s|
  {
    Pair(s[i], s[i + 1])
  }

  /** The 16-bit word that `s` holds at `i` in the little-endian order of the host. */
  function Le16(s: seq<Byte>, i: nat): Word
    requires i + 2 <= |s|
  {
    Pair(s[i + 1], s[i])
  }

  /** The 32-bit word that `s` holds at `i` in network order. */
  function Be32(s: seq<Byte>, i: nat): DWord
    requires i + 4 <= |s|
  {
    Be16(s, i) * 0x1_0000 + Be16(s, i + 2)
  }

  /** The two bytes of `w` in network order (`bpf_htons`). */
  function PutBe16(w: Word): (s: seq<Byte>)
    ensures |s| == 2 && Be16(s, 0) == w
  {
    [w / 0x100, w % 0x100]
  }

  /** The two bytes of `w` in the little-endian order of the host. */
  function PutLe16(w: Word): (s: seq<Byte>)
    ensures |s| == 2 && Le16(s, 0) == w
  {
    [w % 0x100, w / 0x100]
  }

  /** The four bytes of `d` in network order (`bpf_htonl`). */
  function PutBe32(d: DWord): (s: seq<Byte>)
    ensures |s| == 4 && Be32(s, 0) == d
  {
    PutBe16(d / 0x1_0000) + PutBe16(d % 0x1_0000)
  }

  /** `s` with the bytes of `field` written over it from offset `i` on. */
  function Splice(s: seq<Byte>, i: nat, field: seq<Byte>): (r: seq<Byte>)
    requires i + |field| <= |s|
    ensures |r| == |s|
    ensures r[i..i + |field|] == field
    ensures forall j | 0 <= j < |s| && !(i <= j < i + |field|) :: r[j] == s[j]
  {
    s[..i] + field + s[i + |field|..]
  }
}
