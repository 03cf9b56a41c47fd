/**
 * The buffer logic of the GRA file filter: WriteGRA's type gate, palette
 * check, width rounding, indexed-alpha packing and header layout, and
 * ReadGRA's header reading, decompress-if-flagged step and unpacking.  A
 * GRA file is four little-endian 32-bit fields (width, width_internal,
 * height, flags) followed by the body; flags bit 0 marks a compressed body.
 */
module GraFile {
  import opened BitField
  import opened Optional
  import opened Lzw
  import Nibble
  import Palette
  import Container
  import Codec
  import Archive

  /** The four header fields. */
  const FileHeader: nat := 16
  /** DCF_COMPRESSED: flags bit 0. */
  const Compressed: nat := 1
  /** Widths and heights are gint fields. */
  const GintRange: nat := 0x8000_0000

  /** The GIMP drawable types. */
  datatype DrawableType = Rgb | RgbA | Gray | GrayA | Indexed | IndexedA

  /** Bytes per pixel of a drawable type. */
  function Channels(t: DrawableType): nat
  {
    match t
    case Rgb => 3
    case RgbA => 4
    case Gray => 1
    case GrayA => 2
    case Indexed => 1
    case IndexedA => 2
  }

  datatype WriteError = NotIndexed | WrongPalette

  datatype ReadError = ShortHeader | NoBody | BadBody | ShortBody

  /** A loaded image: two bytes (index, alpha) per pixel. */
  datatype Image = Image(width: nat, height: nat, pixels: seq<byte>)

  // ------------------------------------------------------------ width_internal

  /** The smallest multiple of 8 that is at least w. */
  function PaddedWidth(w: nat): nat
  {
    w + (8 - w % 8) % 8
  }

  /** PaddedWidth(w) is a multiple of 8 in [w, w + 8), and the only one. */
  lemma PaddedWidthUnique(w: nat, v: int)
    ensures PaddedWidth(w) % 8 == 0 && w <= PaddedWidth(w) < w + 8
    ensures v % 8 == 0 && w <= v < w + 8 ==> v == PaddedWidth(w)
  {
  }

  /** width_internal: count up from width to the next multiple of 8. */
  method WidthInternal(width: nat) returns (wi: nat)
    ensures wi % 8 == 0 && width <= wi < width + 8
  {
    wi := width;
    while wi % 8 != 0
      invariant width <= wi <= PaddedWidth(width)
      decreases PaddedWidth(width) - wi
    {
      wi := wi + 1;
    }
  }

  // ------------------------------------------------------------ packing

  /** The packed body of an indexed-alpha image: one byte per (index, alpha) pair. */
  function PackedPixels(pixels: seq<byte>): (r: seq<byte>)
    requires |pixels| % 2 == 0
    ensures |r| == |pixels| / 2
  {
    seq(|pixels| / 2, i requires 0 <= i < |pixels| / 2 => Nibble.PackedPixel(pixels[2 * i], pixels[2 * i + 1]))
  }

  /** The two-channel image ReadGRA makes of a body: index and alpha per byte. */
  function Unpacked(body: seq<byte>): (r: seq<byte>)
    ensures |r| == 2 * |body|
  {
    seq(2 * |body|, k requires 0 <= k < 2 * |body| =>
      if k % 2 == 0 then Nibble.IndexByte(body[k / 2]) else Nibble.AlphaByte(body[k / 2]))
  }

  /** The byte one packing step leaves where prev was, for the pixel (index, alpha). */
  function PackStep(prev: byte, index: byte, alpha: byte): byte
  {
    Nibble.Byte(Nibble.PackByte(Nibble.Bits(prev), Nibble.Bits(index), Nibble.Bits(alpha)))
  }

  /** One iteration of the packing loop: the two |= statements on alphaPixels[i]. */
  method PackOne(alphaPixels: array<byte>, i: nat, index: byte, alpha: byte)
    requires i < alphaPixels.Length
    modifies alphaPixels
    ensures alphaPixels[i] == PackStep(old(alphaPixels[i]), index, alpha)
    ensures forall j | 0 <= j < alphaPixels.Length && j != i :: alphaPixels[j] == old(alphaPixels[j])
  {
    ghost var prev := alphaPixels[i];
    var cur := Nibble.Bits(alphaPixels[i]);
    alphaPixels[i] := Nibble.Byte(cur | (Nibble.Bits(index) & 0x0F));
    assert Nibble.Bits(alphaPixels[i]) == cur | (Nibble.Bits(index) & 0x0F);
    var alphaValue: bv8 := 0xFF - Nibble.Bits(alpha);
    alphaPixels[i] := Nibble.Byte(Nibble.Bits(alphaPixels[i]) | (alphaValue & 0xF0));
    assert alphaPixels[i] == PackStep(prev, index, alpha);
  }

  /**
   * The packing loop of WriteGRA as written: into each byte of alphaPixels,
   * whatever it holds, OR the index's low nibble and then the high nibble
   * of 0xFF - alpha.
   */
  method PackInto(alphaPixels: array<byte>, pixels: array<byte>, n: nat)
    requires alphaPixels.Length == n && pixels.Length == 2 * n && alphaPixels != pixels
    modifies alphaPixels
    ensures forall i | 0 <= i < n :: alphaPixels[i] == PackStep(old(alphaPixels[i]), pixels[2 * i], pixels[2 * i + 1])
  {
    var i := 0;
    while i < n
      invariant 0 <= i <= n
      invariant forall j | 0 <= j < i :: alphaPixels[j] == PackStep(old(alphaPixels[j]), pixels[2 * j], pixels[2 * j + 1])
      invariant forall j | i <= j < n :: alphaPixels[j] == old(alphaPixels[j])
    {
      PackOne(alphaPixels, i, pixels[i * 2], pixels[i * 2 + 1]);
      i := i + 1;
    }
  }

  /**
   * The packed body of an indexed-alpha image, built in a cleared buffer of
   * one byte per pixel.
   */
  method PackAlpha(pixels: array<byte>, n: nat) returns (alphaPixels: array<byte>)
    requires pixels.Length == 2 * n
    ensures fresh(alphaPixels) && alphaPixels[..] == PackedPixels(pixels[..])
  {
    alphaPixels := new byte[n](_ => 0);
    PackInto(alphaPixels, pixels, n);
    assert Nibble.Bits(0) == 0;
    assert forall i | 0 <= i < n :: PackStep(0, pixels[2 * i], pixels[2 * i + 1]) == Nibble.PackedPixel(pixels[2 * i], pixels[2 * i + 1]);
  }

  /**
   * The packing loop as written depends on what the uncleared buffer
   * holds: a black opaque pixel (0, 0xFF) packed over a byte holding 0xFF
   * reads back as index 15 with alpha 0x0F, while packed into a cleared
   * byte it reads back unchanged.
   */
  lemma UnclearedPack()
    ensures Unpacked([PackStep(0xFF, 0, 0xFF)]) == [15, 0x0F]
    ensures Unpacked([PackStep(0, 0, 0xFF)]) == [0, 0xFF]
  {
    Nibble.PackUncleared();
    assert Nibble.Bits(0xFF) == 0xFF && Nibble.Bits(0) == 0;
  }

  /** Packing an image and unpacking the body gives each pixel's low nibble and widened alpha back. */
  lemma PackedUnpacked(pixels: seq<byte>, i: nat)
    requires |pixels| % 2 == 0 && 2 * i + 1 < |pixels|
    ensures Unpacked(PackedPixels(pixels))[2 * i] == Nibble.IndexByte(Nibble.PackedPixel(pixels[2 * i], pixels[2 * i + 1]))
    ensures Unpacked(PackedPixels(pixels))[2 * i + 1] == Nibble.AlphaByte(Nibble.PackedPixel(pixels[2 * i], pixels[2 * i + 1]))
  {
    assert (2 * i) / 2 == i && (2 * i + 1) / 2 == i && (2 * i + 1) % 2 == 1;
  }

  /** An opaque pixel whose index fits in a nibble comes back unchanged from packing and unpacking. */
  lemma UnpackPackedAt(pixels: seq<byte>, k: nat)
    requires |pixels| % 2 == 0 && k < |pixels|
    requires pixels[2 * (k / 2)] < 16 && pixels[2 * (k / 2) + 1] == 0xFF
    ensures Unpacked(PackedPixels(pixels))[k] == pixels[k]
  {
    var i := k / 2;
    assert 2 * i + 1 < |pixels| && (k == 2 * i || k == 2 * i + 1);
    PackedUnpacked(pixels, i);
    Nibble.PixelRoundTrip(pixels[2 * i], pixels[2 * i + 1]);
  }

  /** Opaque pixels whose indexes fit in a nibble come back unchanged from packing and unpacking. */
  lemma UnpackPacked(pixels: seq<byte>)
    requires |pixels| % 2 == 0
    requires forall i | 0 <= i < |pixels| / 2 :: pixels[2 * i] < 16 && pixels[2 * i + 1] == 0xFF
    ensures Unpacked(PackedPixels(pixels)) == pixels
  {
    forall k | 0 <= k < |pixels|
      ensures Unpacked(PackedPixels(pixels))[k] == pixels[k]
    {
      assert k / 2 < |pixels| / 2;
      UnpackPackedAt(pixels, k);
    }
  }

  /**
   * The unpacking loop of ReadGRA: output bytes 2i and 2i+1 are the index
   * and alpha of body byte i.
   */
  method UnpackAlpha(body: array<byte>, n: nat) returns (alphaBody: array<byte>)
    requires n <= body.Length
    ensures fresh(alphaBody) && alphaBody[..] == Unpacked(body[..n])
  {
    alphaBody := new byte[2 * n];
    var i := 0;
    while i < n
      invariant 0 <= i <= n
      invariant forall j | 0 <= j < i ::
        alphaBody[2 * j] == Nibble.IndexByte(body[j]) && alphaBody[2 * j + 1] == Nibble.AlphaByte(body[j])
    {
      alphaBody[2 * i] := Nibble.Byte(Nibble.Bits(body[i]) & 0x0F);
      var alphaValue: bv8 := 0xFF - (Nibble.Bits(body[i]) & 0xF0);
      alphaBody[2 * i + 1] := Nibble.Byte(alphaValue | (alphaValue >> 1));
      i := i + 1;
    }
    forall k | 0 <= k < 2 * n
      ensures alphaBody[k] == Unpacked(body[..n])[k]
    {
      var j := k / 2;
      assert k == 2 * j || k == 2 * j + 1;
    }
  }

  // ------------------------------------------------------------ files

  /** The body WriteGRA compresses: the pixels, packed first for an indexed-alpha image. */
  function Payload(kind: DrawableType, pixels: seq<byte>): seq<byte>
    requires kind == IndexedA ==> |pixels| % 2 == 0
  {
    if kind == IndexedA then PackedPixels(pixels) else pixels
  }

  /** The bytes WriteGRA writes: the header fields, then the compressed payload. */
  function GraBytes(width: nat, height: nat, payload: seq<byte>): seq<byte>
    requires |payload| + 20 < Container.ExpandLimit
  {
    Container.Le32(width) + Container.Le32(PaddedWidth(width)) + Container.Le32(height) + Container.Le32(Compressed)
    + Container.Compress(payload)
  }

  /**
   * WriteGRA's buffer logic: only indexed drawables with the TempleOS
   * palette are written; the file is the header and the compressed
   * payload of width * height bytes.
   */
  method WriteGra(kind: DrawableType, imageMap: seq<byte>, colors: int, width: nat, height: nat, pixels: array<byte>)
    returns (r: Result<seq<byte>, WriteError>)
    requires |imageMap| == 3 * colors
    requires width + 8 <= GintRange && height < GintRange && width * height + 20 < Container.ExpandLimit
    requires pixels.Length == width * height * Channels(kind)
    ensures r == Err(NotIndexed) <==> kind != Indexed && kind != IndexedA
    ensures r == Err(WrongPalette) <==> (kind == Indexed || kind == IndexedA) && !(colors == Palette.Colors && imageMap == Palette.Table())
    ensures r.Ok? ==> r.value == GraBytes(width, height, Payload(kind, pixels[..]))
  {
    if kind != Indexed && kind != IndexedA {
      return Err(NotIndexed);
    }
    var paletteOk := Palette.CheckColorMapping(imageMap, colors);
    if !paletteOk {
      return Err(WrongPalette);
    }
    var body := pixels;
    if kind == IndexedA {
      body := PackAlpha(pixels, width * height);
    }
    assert body[..] == Payload(kind, pixels[..]);
    var wi := WidthInternal(width);
    PaddedWidthUnique(width, wi);
    var compressed, size := Archive.Compress(body);
    r := Ok(Container.Le32(width) + Container.Le32(wi) + Container.Le32(height) + Container.Le32(Compressed) + compressed[..]);
  }

  /**
   * The body ReadGRA works on: everything after the header, passed through
   * decompress when flags bit 0 is set; a failed decompress is an error.
   */
  function ReadBody(raw: seq<byte>, flags: nat): (r: Result<seq<byte>, ReadError>)
    ensures flags % 2 == 0 ==> r == Ok(raw)
    ensures flags % 2 == 1 && r.Ok? ==> var g := Container.Decompress(raw); g.Decompressed? && g.result.Ok? && r.value == g.result.value
  {
    if flags % 2 == 1 then
      match Container.Decompress(raw)
      case ShortInput => Err(BadBody)
      case Decompressed(_, result) => if result.Ok? then Ok(result.value) else Err(BadBody)
    else Ok(raw)
  }

  /**
   * The image ReadGRA makes from the header fields and the bytes after the
   * header: a flagged body is decompressed, and width * height body bytes
   * are unpacked.
   */
  function ReadImage(width: nat, height: nat, flags: nat, raw: seq<byte>): (r: Result<Image, ReadError>)
    ensures r.Ok? ==> r.value.width == width && r.value.height == height && |r.value.pixels| == 2 * (width * height)
  {
    var body := ReadBody(raw, flags);
    var n := width * height;
    if body.Err? then Err(body.error)
    else if |body.value| < n then Err(ShortBody)
    else Ok(Image(width, height, Unpacked(body.value[..n])))
  }

  /**
   * ReadGRA's result for the bytes of a file: every header field must be
   * read and the body fread must read something.
   */
  function ReadFile(file: seq<byte>): (r: Result<Image, ReadError>)
    ensures r.Ok? ==> |r.value.pixels| == 2 * (r.value.width * r.value.height)
    ensures |file| <= FileHeader ==> r.Err?
  {
    if |file| < FileHeader then Err(ShortHeader)
    else if |file| == FileHeader then Err(NoBody)
    else ReadImage(Container.ReadLe32(file, 0), Container.ReadLe32(file, 8), Container.ReadLe32(file, 12), file[FileHeader..])
  }

  /** Every index of a loaded image is below 16. */
  lemma LoadedIndexes(file: seq<byte>, i: nat)
    requires ReadFile(file).Ok? && i < ReadFile(file).value.width * ReadFile(file).value.height
    ensures ReadFile(file).value.pixels[2 * i] < 16
  {
    var img := ReadFile(file).value;
    assert (2 * i) / 2 == i && (2 * i) % 2 == 0;
  }

  /** A copy of the bytes of file from offset from on. */
  method CopyFrom(file: array<byte>, from: nat) returns (body: array<byte>)
    requires from <= file.Length
    ensures fresh(body) && body[..] == file[from..]
  {
    body := new byte[file.Length - from];
    var i := 0;
    while i < body.Length
      invariant 0 <= i <= body.Length
      invariant forall k | 0 <= k < i :: body[k] == file[from + k]
    {
      body[i] := file[from + i];
      i := i + 1;
    }
  }

  /** ReadGRA from the body on: decompress if flagged, then unpack width * height bytes. */
  method LoadImage(width: nat, height: nat, flags: nat, body: array<byte>) returns (r: Result<Image, ReadError>)
    ensures r == ReadImage(width, height, flags, old(body[..]))
  {
    var data := body;
    if flags % 2 == 1 {
      var short, size, out := Archive.Decompress(body);
      if short || out.Err? {
        return Err(BadBody);
      }
      data := out.value;
    }
    assert ReadBody(body[..], flags) == Ok(data[..]);
    if data.Length < width * height {
      return Err(ShortBody);
    }
    var pixels := UnpackAlpha(data, width * height);
    r := Ok(Image(width, height, pixels[..]));
  }

  /** ReadGRA's buffer logic on the bytes of a file. */
  method ReadGra(file: array<byte>) returns (r: Result<Image, ReadError>)
    ensures r == ReadFile(file[..])
  {
    if file.Length < FileHeader {
      return Err(ShortHeader);
    }
    if file.Length == FileHeader {
      return Err(NoBody);
    }
    var width := Container.ReadLe32(file[..], 0);
    var height := Container.ReadLe32(file[..], 8);
    var flags := Container.ReadLe32(file[..], 12);
    var body := CopyFrom(file, FileHeader);
    r := LoadImage(width, height, flags, body);
  }

  // ------------------------------------------------------------ round trip

  /** The header field stored at byte i reads back as its value. */
  lemma FieldAt(s: seq<byte>, i: nat, x: nat)
    requires i + 4 <= |s| && s[i..i + 4] == Container.Le32(x) && x < Container.DwordRange
    ensures Container.ReadLe32(s, i) == x
  {
    Container.ReadLe32Le32(x);
    assert Container.ReadLe32(s, i) == Container.ReadLe32(s[i..i + 4], 0);
  }

  /** The four header fields read back from the front of a file, and the body after them. */
  lemma HeaderRead(a: nat, b: nat, c: nat, d: nat, rest: seq<byte>)
    requires a < Container.DwordRange && b < Container.DwordRange && c < Container.DwordRange && d < Container.DwordRange
    ensures var s := Container.Le32(a) + Container.Le32(b) + Container.Le32(c) + Container.Le32(d) + rest;
            && Container.ReadLe32(s, 0) == a && Container.ReadLe32(s, 4) == b
            && Container.ReadLe32(s, 8) == c && Container.ReadLe32(s, 12) == d && s[FileHeader..] == rest
  {
    var s := Container.Le32(a) + Container.Le32(b) + Container.Le32(c) + Container.Le32(d) + rest;
    assert s[0..4] == Container.Le32(a);
    assert s[4..8] == Container.Le32(b);
    assert s[8..12] == Container.Le32(c);
    assert s[12..16] == Container.Le32(d);
    FieldAt(s, 0, a);
    FieldAt(s, 4, b);
    FieldAt(s, 8, c);
    FieldAt(s, 12, d);
  }

  /**
   * Reading the file WriteGRA writes gives back the width, the height and
   * the payload unpacked.
   */
  lemma WriteRead(width: nat, height: nat, payload: seq<byte>)
    requires width + 8 <= GintRange && height < GintRange
    requires |payload| == width * height && |payload| + 20 < Container.ExpandLimit && Container.IntIndexed(payload)
    ensures ReadFile(GraBytes(width, height, payload)) == Ok(Image(width, height, Unpacked(payload)))
  {
    var arc := Container.Compress(payload);
    Codec.CompressDecompress(payload);
    PaddedWidthUnique(width, 0);
    HeaderRead(width, PaddedWidth(width), height, Compressed, arc);
    assert ReadBody(arc, Compressed) == Ok(payload + [0]);
    assert (payload + [0])[..width * height] == payload;
  }

  /** Two bytes per pixel make an even buffer of one packed byte per pixel. */
  lemma EvenPixels(pixels: seq<byte>, n: nat)
    requires |pixels| == 2 * n
    ensures |pixels| % 2 == 0 && |PackedPixels(pixels)| == n
  {
  }

  /**
   * An indexed-alpha image of opaque pixels with indexes below 16, saved
   * and loaded again, comes back pixel for pixel.
   */
  lemma SaveLoad(width: nat, height: nat, pixels: seq<byte>)
    requires width + 8 <= GintRange && height < GintRange && width * height + 20 < Container.ExpandLimit
    requires |pixels| == 2 * (width * height)
    requires forall i | 0 <= i < width * height :: pixels[2 * i] < 16 && pixels[2 * i + 1] == 0xFF
    requires Container.IntIndexed(PackedPixels(pixels))
    ensures ReadFile(GraBytes(width, height, Payload(IndexedA, pixels))) == Ok(Image(width, height, pixels))
  {
    EvenPixels(pixels, width * height);
    var packed := PackedPixels(pixels);
    UnpackPacked(pixels);
    WriteRead(width, height, packed);
  }
}
