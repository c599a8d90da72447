/** Byte strings as they travel over the meta-mode serial link, and the few
    ASCII literals the protocol compares against. */
module Bytes {

  /** An octet; the source's `char` / `unsigned char` elements of a `QByteArray`. */
  type Byte = x: int | 0 <= x < 256

  datatype Option<T> = None | Some(value: T)

  /** One character of `QString::toLatin1`: characters below U+0100 keep
      their code, every other character becomes '?'. */
  function Latin1Byte(c: char): Byte
  {
    if c as int < 256 then c as int else 0x3F
  }

  /** `QString::toLatin1`, character by character. */
  function Latin1(s: string): (r: seq<Byte>)
    ensures |r| == |s|
    ensures forall i :: 0 <= i < |s| ==> r[i] == Latin1Byte(s[i])
  {
    seq(|s|, i requires 0 <= i < |s| => Latin1Byte(s[i]))
  }

  /** `QByteArray::contains(char)`. */
  predicate HasByte(hay: seq<Byte>, b: Byte)
  {
    exists i :: 0 <= i < |hay| && hay[i] == b
  }

  /** `needle` occurs in `hay` at offset `i`. */
  predicate OccursAt<T(==)>(hay: seq<T>, needle: seq<T>, i: int)
  {
    0 <= i && i + |needle| <= |hay| && hay[i..i + |needle|] == needle
  }

  /** `QByteArray::contains(const char *)` (and `QString::contains`): the needle occurs somewhere. */
  predicate HasSub<T(==)>(hay: seq<T>, needle: seq<T>)
  {
    exists i :: 0 <= i <= |hay| && OccursAt(hay, needle, i)
  }

  /** An occurrence survives any bytes placed before or after the haystack. */
  lemma {:induction false} HasSubExtended<T>(pre: seq<T>, hay: seq<T>, post: seq<T>, needle: seq<T>)
    requires HasSub(hay, needle)
    ensures HasSub(pre + hay + post, needle)
  {
    var i :| 0 <= i <= |hay| && OccursAt(hay, needle, i);
    var whole := pre + hay + post;
    assert whole[|pre| + i..|pre| + i + |needle|] == hay[i..i + |needle|];
    assert OccursAt(whole, needle, |pre| + i);
  }

  // The ASCII literals of the protocol, byte by byte.
  const READY: seq<Byte> := [0x52, 0x45, 0x41, 0x44, 0x59]                    // "READY"
  const METAMETA: seq<Byte> := [0x4D, 0x45, 0x54, 0x41, 0x4D, 0x45, 0x54, 0x41] // "METAMETA"
  const ATEMATEM: seq<Byte> := [0x41, 0x54, 0x45, 0x4D, 0x41, 0x54, 0x45, 0x4D] // "ATEMATEM"
  const READYATE: seq<Byte> := [0x52, 0x45, 0x41, 0x44, 0x59, 0x41, 0x54, 0x45] // "READYATE"
  const OK: seq<Byte> := [0x4F, 0x4B]                                          // "OK"
  const ACK: Byte := 0x06

  /** The byte lists above are the Latin-1 images of the literals the source writes. */
  lemma LiteralsAreLatin1()
    ensures Latin1("READY") == READY && Latin1("METAMETA") == METAMETA
    ensures Latin1("ATEMATEM") == ATEMATEM && Latin1("READYATE") == READYATE
    ensures Latin1("OK") == OK
  {
  }
}
