/**
 * The fixed 16-colour TempleOS palette that GRA files assume, as
 * get_color_map writes it, and the palette check WriteGRA applies, as
 * check_color_mapping performs it.
 */
module Palette {
  import opened BitField

  /** Number of palette entries and of colour-map bytes. */
  const Colors := 16
  const MapBytes := 48

  /** A dim component: 0xAA where bit m of the entry number is set. */
  function Level(i: nat, m: nat): (r: byte)
    requires m > 0
    ensures r == 0x00 || r == 0xAA
  {
    if (i / m) % 2 == 1 then 0xAA else 0x00
  }

  /**
   * The reference definition of entry i as an (R, G, B) triple, in the CGA
   * scheme TempleOS uses: bit 2 is red, bit 1 green, bit 0 blue, each at
   * 0xAA; entry 6 is brown (0xAA, 0x55, 0x00) instead of dark yellow; the
   * bright entries 8..15 add 0x55 to every component of the dim entry
   * i - 8, dark yellow included.
   */
  function Entry(i: nat): (r: seq<byte>)
    requires i < Colors
    ensures |r| == 3
  {
    if i == 6 then [0xAA, 0x55, 0x00]
    else if i < 8 then [Level(i, 4), Level(i, 2), Level(i, 1)]
    else [Level(i - 8, 4) + 0x55, Level(i - 8, 2) + 0x55, Level(i - 8, 1) + 0x55]
  }

  /** The first n entries of the colour map, 3 bytes each. */
  function TablePrefix(n: nat): (r: seq<byte>)
    requires n <= Colors
    ensures |r| == 3 * n
  {
    if n == 0 then [] else TablePrefix(n - 1) + Entry(n - 1)
  }

  /** The whole colour map: the 16 entries in order. */
  function Table(): (r: seq<byte>)
    ensures |r| == MapBytes
  {
    TablePrefix(Colors)
  }

  /** Byte k of a table prefix is component k % 3 of entry k / 3. */
  lemma {:induction false} PrefixAt(n: nat, k: nat)
    requires n <= Colors && k < 3 * n
    ensures TablePrefix(n)[k] == Entry(k / 3)[k % 3]
  {
    if k < 3 * (n - 1) {
      PrefixAt(n - 1, k);
    } else {
      assert k / 3 == n - 1 && k % 3 == k - 3 * (n - 1);
    }
  }

  /** Byte k of the table is component k % 3 of entry k / 3. */
  lemma TableAt(k: nat)
    requires k < MapBytes
    ensures Table()[k] == Entry(k / 3)[k % 3]
  {
    PrefixAt(Colors, k);
  }

  /**
   * Three successive colour-map slots of get_color_map: entry i goes to
   * bytes 3i, 3i+1, 3i+2 after the i entries already written; the bytes
   * after it still hold what they held in s0.
   */
  method PutColor(colorMap: array<byte>, i: nat, red: byte, green: byte, blue: byte, ghost s0: seq<byte>)
    requires i < Colors && colorMap.Length >= MapBytes && [red, green, blue] == Entry(i)
    requires colorMap[..3 * i] == TablePrefix(i) && |s0| == colorMap.Length && colorMap[3 * i..] == s0[3 * i..]
    modifies colorMap
    ensures colorMap[..3 * i + 3] == TablePrefix(i + 1)
    ensures colorMap[3 * i + 3..] == s0[3 * i + 3..]
  {
    ghost var before := colorMap[..];
    PutSlots(colorMap, 3 * i, red, green, blue);
    assert colorMap[..3 * i + 3] == before[..3 * i] + [red, green, blue];
    assert TablePrefix(i + 1) == TablePrefix(i) + Entry(i);
    assert colorMap[3 * i + 3..] == before[3 * i + 3..];
  }

  /** Three colour-map slots, col_index advancing after each. */
  method PutSlots(colorMap: array<byte>, col: nat, red: byte, green: byte, blue: byte)
    requires col + 3 <= colorMap.Length
    modifies colorMap
    ensures colorMap[..] == old(colorMap[..])[col := red][col + 1 := green][col + 2 := blue]
  {
    var c := col;
    colorMap[c] := red;
    c := c + 1;
    colorMap[c] := green;
    c := c + 1;
    colorMap[c] := blue;
  }

  /**
   * get_color_map: fill the first 48 bytes of colorMap with the palette,
   * entry after entry; nothing else changes.
   */
  method GetColorMap(colorMap: array<byte>)
    requires colorMap.Length >= MapBytes
    modifies colorMap
    ensures colorMap[..MapBytes] == Table()
    ensures colorMap[MapBytes..] == old(colorMap[MapBytes..])
  {
    ghost var s0 := colorMap[..];
    PutColor(colorMap, 0, 0x00, 0x00, 0x00, s0); // black
    PutColor(colorMap, 1, 0x00, 0x00, 0xAA, s0); // blue
    PutColor(colorMap, 2, 0x00, 0xAA, 0x00, s0); // green
    PutColor(colorMap, 3, 0x00, 0xAA, 0xAA, s0); // cyan
    PutColor(colorMap, 4, 0xAA, 0x00, 0x00, s0); // red
    PutColor(colorMap, 5, 0xAA, 0x00, 0xAA, s0); // purple
    PutColor(colorMap, 6, 0xAA, 0x55, 0x00, s0); // brown
    PutColor(colorMap, 7, 0xAA, 0xAA, 0xAA, s0); // light grey
    PutColor(colorMap, 8, 0x55, 0x55, 0x55, s0); // dark grey
    PutColor(colorMap, 9, 0x55, 0x55, 0xFF, s0); // light blue
    PutColor(colorMap, 10, 0x55, 0xFF, 0x55, s0); // light green
    PutColor(colorMap, 11, 0x55, 0xFF, 0xFF, s0); // light cyan
    PutColor(colorMap, 12, 0xFF, 0x55, 0x55, s0); // light red
    PutColor(colorMap, 13, 0xFF, 0x55, 0xFF, s0); // light purple
    PutColor(colorMap, 14, 0xFF, 0xFF, 0x55, s0); // yellow
    PutColor(colorMap, 15, 0xFF, 0xFF, 0xFF, s0); // white
  }

  /**
   * check_color_mapping: the image's colour map (3 bytes per colour) is
   * accepted exactly when it has 16 colours and every byte equals the
   * palette's.
   */
  method CheckColorMapping(imageMap: seq<byte>, colors: int) returns (ok: bool)
    requires |imageMap| == 3 * colors
    ensures ok <==> colors == Colors && imageMap == Table()
  {
    if colors != Colors {
      return false;
    }
    var graMap := new byte[MapBytes];
    GetColorMap(graMap);
    assert graMap[..] == graMap[..MapBytes];
    ok := SameBytes(graMap, imageMap);
  }

  /** The comparison loop of check_color_mapping: stop at the first byte that differs. */
  method SameBytes(graMap: array<byte>, imageMap: seq<byte>) returns (ok: bool)
    requires graMap.Length == |imageMap|
    ensures ok <==> graMap[..] == imageMap
  {
    var i := 0;
    while i < graMap.Length
      invariant 0 <= i <= graMap.Length
      invariant forall k | 0 <= k < i :: imageMap[k] == graMap[k]
    {
      if graMap[i] != imageMap[i] {
        return false;
      }
      i := i + 1;
    }
    return true;
  }

  /** Entry 0 is black, 15 white, 7 light grey and 8 dark grey. */
  lemma EndEntries()
    ensures Entry(0) == [0x00, 0x00, 0x00] && Entry(15) == [0xFF, 0xFF, 0xFF]
    ensures Entry(7) == [0xAA, 0xAA, 0xAA] && Entry(8) == [0x55, 0x55, 0x55]
  {
  }

  /** Every component of the table is one of the four CGA levels. */
  lemma FourLevels(k: nat)
    requires k < MapBytes
    ensures Table()[k] in {0x00, 0x55, 0xAA, 0xFF}
  {
    TableAt(k);
    EntryLevels(k / 3, k % 3);
  }

  /** Every component of an entry is one of the four CGA levels. */
  lemma EntryLevels(i: nat, c: nat)
    requires i < Colors && c < 3
    ensures Entry(i)[c] in {0x00, 0x55, 0xAA, 0xFF}
  {
  }

  /** Apart from brown, entry i + 8 is entry i brightened by 0x55 in every component. */
  lemma BrightPairs(i: nat, c: nat)
    requires i < 8 && i != 6 && c < 3
    ensures Entry(i + 8)[c] == Entry(i)[c] + 0x55
  {
  }
}
