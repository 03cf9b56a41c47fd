/**
 * The decision logic of libgimpbase's metadata helpers: which tags a file
 * format supports, the lookup of a parser attribute by name, the colour
 * space read from and written to the Exif/XMP tags, and the byte framing
 * that turns a raw Exif blob into a parseable JPEG APP1 segment.  The
 * gexiv2 tag store is modelled as a map from tag names to values.
 */
module Metadata {
  import opened BitField
  import opened Optional

  // ------------------------------------------------------------ tag support

  /** Tags a JPEG file never carries, because they describe TIFF strips. */
  const TiffTags: seq<string> := [
    "Xmp.tiff",
    "Exif.Image.ImageWidth",
    "Exif.Image.ImageLength",
    "Exif.Image.BitsPerSample",
    "Exif.Image.Compression",
    "Exif.Image.PhotometricInterpretation",
    "Exif.Image.FillOrder",
    "Exif.Image.SamplesPerPixel",
    "Exif.Image.StripOffsets",
    "Exif.Image.RowsPerStrip",
    "Exif.Image.StripByteCounts",
    "Exif.Image.PlanarConfiguration"
  ]

  /** Tags a TIFF file never carries, because they describe JPEG streams. */
  const JpegTags: seq<string> := [
    "Exif.Image.JPEGProc",
    "Exif.Image.JPEGInterchangeFormat",
    "Exif.Image.JPEGInterchangeFormatLength",
    "Exif.Image.JPEGRestartInterval",
    "Exif.Image.JPEGLosslessPredictors",
    "Exif.Image.JPEGPointTransforms",
    "Exif.Image.JPEGQTables",
    "Exif.Image.JPEGDCTables",
    "Exif.Image.JPEGACTables"
  ]

  /** Tags no file format written by GIMP carries. */
  const UnsupportedTags: seq<string> := [
    "Exif.Image.SubIFDs",
    "Exif.Image.ClipPath",
    "Exif.Image.XClipPathUnits",
    "Exif.Image.YClipPathUnits",
    "Xmp.xmpMM.History",
    "Exif.Image.XPTitle",
    "Exif.Image.XPComment",
    "Exif.Image.XPAuthor",
    "Exif.Image.XPKeywords",
    "Exif.Image.XPSubject",
    "Exif.Image.DNGVersion",
    "Exif.Image.DNGBackwardVersion",
    "Exif.Iop"
  ]

  /** g_str_has_prefix. */
  predicate HasPrefix(s: string, prefix: string)
  {
    |prefix| <= |s| && s[..|prefix|] == prefix
  }

  /** The loop over a prefix table of is_tag_supported: does any entry prefix tag? */
  function AnyPrefix(tag: string, table: seq<string>): (r: bool)
    ensures r <==> exists j | 0 <= j < |table| :: HasPrefix(tag, table[j])
  {
    if |table| == 0 then false
    else if HasPrefix(tag, table[0]) then
      assert HasPrefix(tag, table[0]);
      true
    else
      var rest := AnyPrefix(tag, table[1..]);
      assert forall j | 1 <= j < |table| :: table[j] == table[1..][j - 1];
      rest
  }

  /** gimp_metadata_is_tag_supported. */
  function IsTagSupported(tag: string, mimeType: string): (r: bool)
    ensures r <==> !AnyPrefix(tag, UnsupportedTags)
                   && !(mimeType == "image/jpeg" && AnyPrefix(tag, TiffTags))
                   && !(mimeType == "image/tiff" && AnyPrefix(tag, JpegTags))
  {
    if AnyPrefix(tag, UnsupportedTags) then false
    else if mimeType == "image/jpeg" then !AnyPrefix(tag, TiffTags)
    else if mimeType == "image/tiff" then !AnyPrefix(tag, JpegTags)
    else true
  }

  /** A tag under an unsupported prefix is unsupported for every mime type. */
  lemma UnsupportedEverywhere(tag: string, mimeType: string, j: nat)
    requires j < |UnsupportedTags| && HasPrefix(tag, UnsupportedTags[j])
    ensures !IsTagSupported(tag, mimeType)
  {
  }

  /** The Exif interoperability tags fall under "Exif.Iop"; the TIFF tags are fine in a TIFF file but not in a JPEG. */
  lemma SupportExamples()
    ensures !IsTagSupported("Exif.Iop.InteroperabilityIndex", "image/png")
    ensures !IsTagSupported("Exif.Image.ImageWidth", "image/jpeg")
    ensures !IsTagSupported("Exif.Image.JPEGProc", "image/tiff")
  {
    assert HasPrefix("Exif.Iop.InteroperabilityIndex", UnsupportedTags[12]);
    assert HasPrefix("Exif.Image.ImageWidth", TiffTags[1]);
    assert HasPrefix("Exif.Image.JPEGProc", JpegTags[0]);
  }

  // ------------------------------------------------------------ attribute lookup

  /** gimp_metadata_attribute_name_to_value: the value beside the first name equal to name. */
  function AttributeNameToValue(names: seq<string>, values: seq<string>, name: string): (r: Option<string>)
    requires |values| >= |names|
    ensures r.None? <==> name !in names
    ensures r.Some? ==> exists i | 0 <= i < |names| :: names[i] == name && name !in names[..i] && r.value == values[i]
  {
    if |names| == 0 then None
    else if names[0] == name then
      assert names[..0] == [];
      Some(values[0])
    else
      var r := AttributeNameToValue(names[1..], values[1..], name);
      assert names == [names[0]] + names[1..];
      if r.Some? then
        var i :| 0 <= i < |names| - 1 && names[1..][i] == name && name !in names[1..][..i] && r.value == values[1..][i];
        assert names[..i + 1] == [names[0]] + names[1..][..i];
        r
      else r
  }

  // ------------------------------------------------------------ colour space

  /** GimpMetadataColorspace. */
  datatype Colorspace = Unspecified | Uncalibrated | Srgb | AdobeRgb

  /** A tag value as gexiv2 holds it: a number or a string. */
  datatype TagValue = Long(n: int) | Text(s: string)

  type Tags = map<string, TagValue>

  const PhotoColorSpace := "Exif.Photo.ColorSpace"
  const XmpColorSpace := "Xmp.exif.ColorSpace"
  const IopIndex := "Exif.Iop.InteroperabilityIndex"
  const NikonColorSpace := "Exif.Nikon3.ColorSpace"
  const CanonColorSpace := "Exif.Canon.ColorSpace"

  /** The Exif value for an uncalibrated colour space. */
  const ExifUncalibrated: int := 0xffff

  /** The five tags the colour space lives in. */
  predicate IsColorTag(key: string)
  {
    key == PhotoColorSpace || key == XmpColorSpace || key == IopIndex || key == NikonColorSpace || key == CanonColorSpace
  }

  /** gexiv2_metadata_get_tag_long on a tag that is present; a string reads as 0. */
  function TagLong(tags: Tags, key: string): int
    requires key in tags
  {
    match tags[key]
    case Long(n) => n
    case Text(_) => 0
  }

  /** g_strcmp0 (gexiv2_metadata_get_tag_string (key), s) == 0: the tag holds the string s. */
  predicate TagIs(tags: Tags, key: string, s: string)
  {
    key in tags && tags[key] == Text(s)
  }

  /** A maker-note colour space tag: 1 is sRGB, 2 is Adobe RGB, anything else says nothing. */
  function MakerColorspace(tags: Tags, key: string): Option<Colorspace>
  {
    if key in tags && TagLong(tags, key) == 1 then Some(Srgb)
    else if key in tags && TagLong(tags, key) == 2 then Some(AdobeRgb)
    else None
  }

  /** The Exif colour space value get_colorspace starts from: the Exif tag, else the XMP one, else -1. */
  function ExifColorspace(tags: Tags): int
  {
    if PhotoColorSpace in tags then TagLong(tags, PhotoColorSpace)
    else if XmpColorSpace in tags then TagLong(tags, XmpColorSpace)
    else -1
  }

  /** gimp_metadata_get_colorspace. */
  function GetColorspace(tags: Tags): (r: Colorspace)
    ensures ExifColorspace(tags) == 1 ==> r == Srgb
    ensures ExifColorspace(tags) == 2 ==> r == AdobeRgb
    ensures r == Uncalibrated ==> ExifColorspace(tags) == ExifUncalibrated
  {
    var cs := ExifColorspace(tags);
    if cs == 1 then Srgb
    else if cs == 2 then AdobeRgb
    else if cs == ExifUncalibrated && TagIs(tags, IopIndex, "R03") then AdobeRgb
    else if cs == ExifUncalibrated && TagIs(tags, IopIndex, "R98") then Srgb
    else if MakerColorspace(tags, NikonColorSpace).Some? then MakerColorspace(tags, NikonColorSpace).value
    else if MakerColorspace(tags, CanonColorSpace).Some? then MakerColorspace(tags, CanonColorSpace).value
    else if cs == ExifUncalibrated then Uncalibrated
    else Unspecified
  }

  /** The Exif tag decides over the XMP one whenever it is present. */
  lemma PhotoBeforeXmp(tags: Tags, v: TagValue)
    requires PhotoColorSpace in tags
    ensures GetColorspace(tags[XmpColorSpace := v]) == GetColorspace(tags)
  {
    var t := tags[XmpColorSpace := v];
    assert ExifColorspace(t) == ExifColorspace(tags);
    assert TagIs(t, IopIndex, "R03") == TagIs(tags, IopIndex, "R03");
    assert TagIs(t, IopIndex, "R98") == TagIs(tags, IopIndex, "R98");
    assert MakerColorspace(t, NikonColorSpace) == MakerColorspace(tags, NikonColorSpace);
    assert MakerColorspace(t, CanonColorSpace) == MakerColorspace(tags, CanonColorSpace);
  }

  /** Under an Exif value of 0xffff the Iop index decides: "R03" is Adobe RGB and "R98" is sRGB, whatever the maker notes say. */
  lemma IopDecides(tags: Tags)
    requires ExifColorspace(tags) == ExifUncalibrated
    ensures TagIs(tags, IopIndex, "R03") ==> GetColorspace(tags) == AdobeRgb
    ensures TagIs(tags, IopIndex, "R98") ==> GetColorspace(tags) == Srgb
  {
  }

  /**
   * When neither the Exif value nor the Iop index decides, the Nikon tag
   * decides, and only a Nikon tag that is absent or not 1 or 2 leaves it to
   * the Canon tag; for both, 1 is sRGB and 2 is Adobe RGB.
   */
  lemma MakerNotesAlone(tags: Tags)
    requires ExifColorspace(tags) != 1 && ExifColorspace(tags) != 2
    requires ExifColorspace(tags) == ExifUncalibrated ==> !TagIs(tags, IopIndex, "R03") && !TagIs(tags, IopIndex, "R98")
    ensures NikonColorSpace in tags && TagLong(tags, NikonColorSpace) == 1 ==> GetColorspace(tags) == Srgb
    ensures NikonColorSpace in tags && TagLong(tags, NikonColorSpace) == 2 ==> GetColorspace(tags) == AdobeRgb
    ensures !(NikonColorSpace in tags && TagLong(tags, NikonColorSpace) in {1, 2}) ==>
              (CanonColorSpace in tags && TagLong(tags, CanonColorSpace) == 1 ==> GetColorspace(tags) == Srgb)
              && (CanonColorSpace in tags && TagLong(tags, CanonColorSpace) == 2 ==> GetColorspace(tags) == AdobeRgb)
  {
  }

  /**
   * The two answers without a named colour space: Uncalibrated exactly for
   * an Exif value of 0xffff that neither the Iop index nor a maker note
   * overrides, and Unspecified exactly when the Exif value is none of 1, 2
   * and 0xffff and no maker note holds 1 or 2.
   */
  lemma UncalibratedExactly(tags: Tags)
    ensures GetColorspace(tags) == Uncalibrated <==>
              && ExifColorspace(tags) == ExifUncalibrated
              && !TagIs(tags, IopIndex, "R03") && !TagIs(tags, IopIndex, "R98")
              && !(NikonColorSpace in tags && TagLong(tags, NikonColorSpace) in {1, 2})
              && !(CanonColorSpace in tags && TagLong(tags, CanonColorSpace) in {1, 2})
    ensures GetColorspace(tags) == Unspecified <==>
              && ExifColorspace(tags) !in {1, 2, ExifUncalibrated}
              && !(NikonColorSpace in tags && TagLong(tags, NikonColorSpace) in {1, 2})
              && !(CanonColorSpace in tags && TagLong(tags, CanonColorSpace) in {1, 2})
  {
  }

  /** The tags after a has_tag check and a set of key to v. */
  function Refreshed(tags: Tags, key: string, v: TagValue): Tags
  {
    if key in tags then tags[key := v] else tags
  }

  /** The tags set_colorspace leaves for sRGB (n = 1, iop "R98") or Adobe RGB (n = 2, iop "R03"). */
  function NamedTags(tags: Tags, n: int, iop: string): Tags
  {
    var t := tags[PhotoColorSpace := Long(n)];
    Refreshed(Refreshed(Refreshed(Refreshed(t, XmpColorSpace, Long(n)), IopIndex, Text(iop)), NikonColorSpace, Long(n)), CanonColorSpace, Long(n))
  }

  /** A refresh adds no key and changes no key other than its own. */
  lemma RefreshedKeeps(tags: Tags, key: string, v: TagValue)
    ensures Refreshed(tags, key, v).Keys == tags.Keys
    ensures forall k | k in tags && k != key :: Refreshed(tags, key, v)[k] == tags[k]
    ensures key in tags ==> Refreshed(tags, key, v)[key] == v
  {
  }

  /**
   * Writing a named colour space sets the Exif tag, overwrites the XMP,
   * Iop and maker-note tags only where they exist, and keeps every other
   * tag.
   */
  lemma {:induction false} NamedKeeps(tags: Tags, n: int, iop: string)
    ensures NamedTags(tags, n, iop).Keys == tags.Keys + {PhotoColorSpace}
    ensures NamedTags(tags, n, iop)[PhotoColorSpace] == Long(n)
    ensures XmpColorSpace in tags ==> NamedTags(tags, n, iop)[XmpColorSpace] == Long(n)
    ensures IopIndex in tags ==> NamedTags(tags, n, iop)[IopIndex] == Text(iop)
    ensures NikonColorSpace in tags ==> NamedTags(tags, n, iop)[NikonColorSpace] == Long(n)
    ensures CanonColorSpace in tags ==> NamedTags(tags, n, iop)[CanonColorSpace] == Long(n)
    ensures forall k | k in tags && !IsColorTag(k) :: NamedTags(tags, n, iop)[k] == tags[k]
  {
    var t0 := tags[PhotoColorSpace := Long(n)];
    var t1 := Refreshed(t0, XmpColorSpace, Long(n));
    var t2 := Refreshed(t1, IopIndex, Text(iop));
    var t3 := Refreshed(t2, NikonColorSpace, Long(n));
    RefreshedKeeps(t0, XmpColorSpace, Long(n));
    RefreshedKeeps(t1, IopIndex, Text(iop));
    RefreshedKeeps(t2, NikonColorSpace, Long(n));
    RefreshedKeeps(t3, CanonColorSpace, Long(n));
  }

  /** The tags set_colorspace leaves for Unspecified: all five colour space tags cleared. */
  function ClearedTags(tags: Tags): Tags
  {
    tags - {PhotoColorSpace, XmpColorSpace, IopIndex, NikonColorSpace, CanonColorSpace}
  }

  /** The tags set_colorspace leaves for Uncalibrated: Exif 0xffff, XMP 0xffff where it exists, the other three cleared. */
  function UncalibratedTags(tags: Tags): Tags
  {
    Refreshed(tags[PhotoColorSpace := Long(ExifUncalibrated)], XmpColorSpace, Long(ExifUncalibrated)) - {IopIndex, NikonColorSpace, CanonColorSpace}
  }

  /** Clearing the colour space removes exactly the five colour space tags, and reads back as Unspecified. */
  lemma ClearedKeeps(tags: Tags)
    ensures forall k | IsColorTag(k) :: k !in ClearedTags(tags)
    ensures forall k | !IsColorTag(k) :: (k in ClearedTags(tags) <==> k in tags) && (k in tags ==> ClearedTags(tags)[k] == tags[k])
    ensures GetColorspace(ClearedTags(tags)) == Unspecified
  {
  }

  /**
   * Writing Uncalibrated sets the Exif tag to 0xffff, sets the XMP tag to
   * 0xffff only where it exists, removes the other three colour space
   * tags, keeps every other tag, and reads back as Uncalibrated.
   */
  lemma UncalibratedKeeps(tags: Tags)
    ensures var u := UncalibratedTags(tags);
            && PhotoColorSpace in u && u[PhotoColorSpace] == Long(ExifUncalibrated)
            && (XmpColorSpace in u <==> XmpColorSpace in tags) && (XmpColorSpace in u ==> u[XmpColorSpace] == Long(ExifUncalibrated))
            && IopIndex !in u && NikonColorSpace !in u && CanonColorSpace !in u
    ensures forall k | !IsColorTag(k) :: (k in UncalibratedTags(tags) <==> k in tags) && (k in tags ==> UncalibratedTags(tags)[k] == tags[k])
    ensures GetColorspace(UncalibratedTags(tags)) == Uncalibrated
  {
    var u := UncalibratedTags(tags);
    assert ExifColorspace(u) == ExifUncalibrated;
    assert MakerColorspace(u, NikonColorSpace).None? && MakerColorspace(u, CanonColorSpace).None?;
  }

  /** The tag store of a GimpMetadata object, with the gexiv2 calls set_colorspace makes on it. */
  class TagStore {
    var tags: Tags

    constructor(initial: Tags)
      ensures tags == initial
    {
      tags := initial;
    }

    /** gexiv2_metadata_has_tag. */
    function HasTag(key: string): bool
      reads this
    {
      key in tags
    }

    /** gexiv2_metadata_set_tag_long. */
    method SetTagLong(key: string, n: int)
      modifies this
      ensures tags == old(tags)[key := Long(n)]
    {
      tags := tags[key := Long(n)];
    }

    /** gexiv2_metadata_set_tag_string. */
    method SetTagString(key: string, s: string)
      modifies this
      ensures tags == old(tags)[key := Text(s)]
    {
      tags := tags[key := Text(s)];
    }

    /** gexiv2_metadata_clear_tag. */
    method ClearTag(key: string)
      modifies this
      ensures tags == old(tags) - {key}
    {
      tags := tags - {key};
    }

    /** The tags a named colour space (sRGB or Adobe RGB, value n, Iop index iop) is written to. */
    method SetNamed(n: int, iop: string)
      modifies this
      ensures tags == NamedTags(old(tags), n, iop)
    {
      SetTagLong(PhotoColorSpace, n);
      RefreshTag(XmpColorSpace, Long(n));
      RefreshTag(IopIndex, Text(iop));
      RefreshTag(NikonColorSpace, Long(n));
      RefreshTag(CanonColorSpace, Long(n));
    }

    /** The five clear_tag calls of the Unspecified case. */
    method ClearColorspace()
      modifies this
      ensures tags == ClearedTags(old(tags))
    {
      ClearTag(PhotoColorSpace);
      ClearTag(XmpColorSpace);
      ClearTag(IopIndex);
      ClearTag(NikonColorSpace);
      ClearTag(CanonColorSpace);
    }

    /** The calls of the Uncalibrated case. */
    method SetUncalibrated()
      modifies this
      ensures tags == UncalibratedTags(old(tags))
    {
      SetTagLong(PhotoColorSpace, ExifUncalibrated);
      RefreshTag(XmpColorSpace, Long(ExifUncalibrated));
      ClearTag(IopIndex);
      ClearTag(NikonColorSpace);
      ClearTag(CanonColorSpace);
    }

    /** A has_tag check followed by a set: a present tag takes the new value, an absent one stays absent. */
    method RefreshTag(key: string, v: TagValue)
      modifies this
      ensures tags == Refreshed(old(tags), key, v)
    {
      if HasTag(key) {
        match v
        case Long(n) => SetTagLong(key, n);
        case Text(s) => SetTagString(key, s);
      }
    }

    /**
     * gimp_metadata_set_colorspace: the colour space read back is the one
     * set, and no tag outside the five colour space tags changes.
     */
    method SetColorspace(colorspace: Colorspace)
      modifies this
      ensures GetColorspace(tags) == colorspace
      ensures forall k | !IsColorTag(k) :: (k in tags <==> k in old(tags)) && (k in tags ==> tags[k] == old(tags)[k])
      ensures colorspace == Unspecified ==> forall k | IsColorTag(k) :: k !in tags
      ensures colorspace == Uncalibrated ==> PhotoColorSpace in tags && tags[PhotoColorSpace] == Long(ExifUncalibrated)
                                             && IopIndex !in tags && NikonColorSpace !in tags && CanonColorSpace !in tags
      ensures colorspace == Srgb ==> PhotoColorSpace in tags && tags[PhotoColorSpace] == Long(1)
      ensures colorspace == AdobeRgb ==> PhotoColorSpace in tags && tags[PhotoColorSpace] == Long(2)
      ensures colorspace == Uncalibrated ==> (XmpColorSpace in tags <==> XmpColorSpace in old(tags))
                                             && (XmpColorSpace in tags ==> tags[XmpColorSpace] == Long(ExifUncalibrated))
      ensures colorspace == Unspecified ==> tags == ClearedTags(old(tags))
      ensures colorspace == Uncalibrated ==> tags == UncalibratedTags(old(tags))
      ensures colorspace == Srgb ==> tags == NamedTags(old(tags), 1, "R98")
      ensures colorspace == AdobeRgb ==> tags == NamedTags(old(tags), 2, "R03")
    {
      match colorspace
      case Unspecified =>
        ClearedKeeps(tags);
        ClearColorspace();
      case Uncalibrated =>
        UncalibratedKeeps(tags);
        SetUncalibrated();
      case Srgb =>
        NamedKeeps(tags, 1, "R98");
        SetNamed(1, "R98");
      case AdobeRgb =>
        NamedKeeps(tags, 2, "R03");
        SetNamed(2, "R03");
    }
  }

  // ------------------------------------------------------------ Exif framing

  /** A JPEG SOI and JFIF APP0 header followed by the APP1 marker, before which the Exif blob is placed. */
  const MinimalExif: seq<byte> := [
    0xff, 0xd8, 0xff, 0xe0, 0x00, 0x10, 0x4a, 0x46, 0x49, 0x46, 0x00, 0x01,
    0x01, 0x01, 0x00, 0x5a, 0x00, 0x5a, 0x00, 0x00, 0xff, 0xe1
  ]

  /**
   * On a 16-bit length the mask-and-shift that fills data_size is the
   * quotient and the remainder by 256, which ExifBuffer uses.
   */
  lemma SizeBytes(v: bv16)
    ensures (v & 0xFF00) >> 8 == v / 256
    ensures v & 0x00FF == v % 256
  {
  }

  /** GByteArray: a byte buffer that grows at the end. */
  class ByteArray {
    var data: seq<byte>

    constructor()
      ensures data == []
    {
      data := [];
    }

    /** g_byte_array_append. */
    method Append(bytes: seq<byte>)
      modifies this
      ensures data == old(data) + bytes
    {
      data := data + bytes;
    }
  }

  /**
   * The buffer gimp_metadata_set_from_exif hands to the Exif parser:
   * minimal_exif, the blob's length as two big-endian bytes, then the
   * blob.  A length outside 1..65535 is refused.
   */
  method ExifBuffer(exifData: seq<byte>, length: int) returns (r: Option<seq<byte>>)
    requires length <= 0 || |exifData| == length
    ensures r.Some? <==> 0 < length < 65536
    ensures r.Some? ==> |r.value| == |MinimalExif| + 2 + length
    ensures r.Some? ==> r.value[..|MinimalExif|] == MinimalExif && r.value[|MinimalExif| + 2..] == exifData
    ensures r.Some? ==> 256 * (r.value[|MinimalExif|] as int) + r.value[|MinimalExif| + 1] as int == length
  {
    if length <= 0 || length >= 65536 {
      return None;
    }
    var dataSize := [length / 256, length % 256];
    var exifBytes := new ByteArray();
    exifBytes.Append(MinimalExif);
    exifBytes.Append(dataSize);
    exifBytes.Append(exifData);
    assert exifBytes.data[|MinimalExif|..|MinimalExif| + 2] == dataSize;
    return Some(exifBytes.data);
  }
}
