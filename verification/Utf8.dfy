/** The octets of a text in UTF-8 (section 3 of RFC 3629), against which the chunker's lengths are counted. */
module Utf8 {
  import opened Chunker

  type Octet = n: nat | n < 0x100

  /** One rune: a leading octet that tells the length, and six bits in each of the others. */
  function Encode(c: Rune): seq<Octet> {
    if c < 0x80 then [c]
    else if c < 0x800 then [0xC0 + c / 0x40, 0x80 + c % 0x40]
    else if c < 0x10000 then [0xE0 + c / 0x1000, 0x80 + c / 0x40 % 0x40, 0x80 + c % 0x40]
    else [0xF0 + c / 0x40000, 0x80 + c / 0x1000 % 0x40, 0x80 + c / 0x40 % 0x40, 0x80 + c % 0x40]
  }

  /** How many octets a rune takes, by its leading octet. */
  function LengthOf(lead: Octet): nat {
    if lead < 0xC0 then 1 else if lead < 0xE0 then 2 else if lead < 0xF0 then 3 else 4
  }

  /** The number that the octets of one rune stand for. */
  function Decode(octets: seq<Octet>): int
    requires octets != [] && |octets| == LengthOf(octets[0])
  {
    if |octets| == 1 then octets[0]
    else if |octets| == 2 then Less(octets[0], 0xC0) * 0x40 + Less(octets[1], 0x80)
    else if |octets| == 3 then Less(octets[0], 0xE0) * 0x1000 + Less(octets[1], 0x80) * 0x40 + Less(octets[2], 0x80)
    else Less(octets[0], 0xF0) * 0x40000 + Less(octets[1], 0x80) * 0x1000 + Less(octets[2], 0x80) * 0x40 + Less(octets[3], 0x80)
  }

  function Less(octet: int, bits: int): int { octet - bits }

  /** Encoding is undone by decoding, the leading octet tells the length, the others are 0x80 to 0xBF, and
    that length is the width the chunker counts with. */
  lemma EncodedRune(c: Rune)
    ensures var octets := Encode(c);
            && octets != [] && |octets| == LengthOf(octets[0]) == Width(c)
            && Decode(octets) == c
            && (forall i :: 0 < i < |octets| ==> 0x80 <= octets[i] < 0xC0)
            && !(0x80 <= octets[0] < 0xC0)
  {
    assert c == c / 0x40 * 0x40 + c % 0x40;
    assert c / 0x40 == c / 0x1000 * 0x40 + c / 0x40 % 0x40;
    assert c / 0x1000 == c / 0x40000 * 0x40 + c / 0x1000 % 0x40;
  }

  function EncodeAll(s: Runes): seq<Octet> {
    if s == [] then [] else EncodeAll(s[..|s| - 1]) + Encode(s[|s| - 1])
  }

  /** The chunker's length of a text is the number of octets of its encoding. */
  lemma {:induction false} BytesAreOctets(s: Runes)
    ensures Bytes(s) == |EncodeAll(s)|
  {
    if s != [] {
      BytesAreOctets(s[..|s| - 1]);
      EncodedRune(s[|s| - 1]);
    }
  }
}
