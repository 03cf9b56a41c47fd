/**
 * The nibble arithmetic of the GRA pixel format: a packed byte holds the
 * colour index in its low nibble and the inverted alpha in its high
 * nibble.  The C operators &, | and >> on an unsigned char are the
 * operators of bv8 here; Byte and Bits convert to and from the byte type
 * the rest of the model uses.
 */
module Nibble {
  import opened BitField

  /** A byte as eight bits. */
  function Bits(b: byte): bv8
  {
    b as bv8
  }

  /** Eight bits as a byte. */
  function Byte(v: bv8): (r: byte)
    ensures Bits(r) == v
  {
    v as int
  }

  /**
   * One step of the indexed-alpha packing loop of WriteGRA, as written:
   * OR the low nibble of the index, then the high nibble of 0xFF - alpha,
   * into the byte prev the buffer already holds.
   */
  function PackByte(prev: bv8, index: bv8, alpha: bv8): bv8
  {
    (prev | (index & 0x0F)) | ((0xFF - alpha) & 0xF0)
  }

  /** The byte the packing step leaves in a cleared buffer. */
  function Packed(index: bv8, alpha: bv8): bv8
  {
    PackByte(0, index, alpha)
  }

  /** The colour index ReadGRA takes from a packed byte: its low nibble. */
  function IndexOf(b: bv8): (r: bv8)
    ensures r < 16
  {
    b & 0x0F
  }

  /** The alpha ReadGRA takes from a packed byte: a | (a >> 1) for a = 0xFF - (b & 0xF0). */
  function AlphaOf(b: bv8): (r: bv8)
    ensures r & 0x0F == 0x0F
  {
    var a := 0xFF - (b & 0xF0);
    a | (a >> 1)
  }

  /**
   * Into a cleared byte the packer puts the index's low nibble in the low
   * nibble and the high nibble of 0xFF - alpha in the high nibble.
   */
  lemma PackCleared(index: bv8, alpha: bv8)
    ensures Packed(index, alpha) & 0x0F == index & 0x0F
    ensures Packed(index, alpha) >> 4 == (0xFF - alpha) >> 4
  {
  }

  /** The step as written is the cleared result ORed into what was there. */
  lemma PackOver(prev: bv8, index: bv8, alpha: bv8)
    ensures PackByte(prev, index, alpha) == prev | Packed(index, alpha)
  {
  }

  /**
   * Packing into a cleared byte and unpacking gives back the index's low
   * nibble, and an alpha whose high nibble is h as h | (h >> 1) in the high
   * nibble: opaque (0xFF) reads back opaque, an alpha below 0x10 reads back
   * as 0x0F.
   */
  lemma PackUnpack(index: bv8, alpha: bv8)
    ensures IndexOf(Packed(index, alpha)) == index & 0x0F
    ensures AlphaOf(Packed(index, alpha)) >> 4 == (alpha >> 4) | (alpha >> 5)
    ensures alpha >= 0xF0 ==> AlphaOf(Packed(index, alpha)) == 0xFF
    ensures alpha < 0x10 ==> AlphaOf(Packed(index, alpha)) == 0x0F
  {
  }

  /**
   * The packing loop ORs into a buffer the source allocates without
   * clearing it: a byte that happens to hold 0xFF stays 0xFF, so a black
   * opaque pixel (index 0, alpha 0xFF) comes out with index 15 and alpha
   * 0x0F.
   */
  lemma PackUncleared()
    ensures PackByte(0xFF, 0, 0xFF) == 0xFF
    ensures IndexOf(PackByte(0xFF, 0, 0xFF)) == 15 && AlphaOf(PackByte(0xFF, 0, 0xFF)) == 0x0F
    ensures IndexOf(Packed(0, 0xFF)) == 0 && AlphaOf(Packed(0, 0xFF)) == 0xFF
  {
  }

  /** The byte the packing step stores for a pixel (index, alpha) in a cleared buffer. */
  function PackedPixel(index: byte, alpha: byte): byte
  {
    Byte(Packed(Bits(index), Bits(alpha)))
  }

  /** The index byte ReadGRA stores for a packed byte. */
  function IndexByte(b: byte): (r: byte)
    ensures r < 16
  {
    Byte(IndexOf(Bits(b)))
  }

  /** The alpha byte ReadGRA stores for a packed byte. */
  function AlphaByte(b: byte): byte
  {
    Byte(AlphaOf(Bits(b)))
  }

  /** A byte below 16 is its own low nibble. */
  lemma SmallIndex(x: byte)
    requires x < 16
    ensures Byte(Bits(x) & 0x0F) == x
  {
    if x == 0 {} else if x == 1 {} else if x == 2 {} else if x == 3 {}
    else if x == 4 {} else if x == 5 {} else if x == 6 {} else if x == 7 {}
    else if x == 8 {} else if x == 9 {} else if x == 10 {} else if x == 11 {}
    else if x == 12 {} else if x == 13 {} else if x == 14 {} else {}
  }

  /**
   * An opaque pixel whose index fits in a nibble survives packing and
   * unpacking unchanged.
   */
  lemma PixelRoundTrip(index: byte, alpha: byte)
    requires index < 16 && alpha == 0xFF
    ensures IndexByte(PackedPixel(index, alpha)) == index
    ensures AlphaByte(PackedPixel(index, alpha)) == alpha
  {
    PackUnpack(Bits(index), Bits(alpha));
    SmallIndex(index);
  }
}
