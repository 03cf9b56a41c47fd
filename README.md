# GRA image filter and metadata helpers, modelled in Dafny

This project models four parts of a GIMP plug-in for TempleOS GRA images and of libgimpbase:

- **The TempleOS LZW codec** (compression.c, with its decoder half repeated in TOSZ.c):
  - the four bit-field helpers;
  - the `CArcCtrl` control block, with its code table `compress[]`, chain heads `hash[]` and the slot allocator `ArcEntryGet`;
  - the compressor (`ArcCompressBuf`, `ArcFinishCompression`) and the decompressor (`ArcExpandBuf`);
  - the `CArcCompress` container built by `compress` and read back by `ExpandBuf`, `decompress` and `uncompress`.
- **The GRA pixel logic** of gra-write.c and gra-read.c: the type gate, the palette check, the rounding of the width to a multiple of 8, the packing of index/alpha pairs into nibbles and its inverse, the header layout, and decompressing the body when flag bit 0 is set.
- **The fixed 16-colour palette** of gra.c.
- **The metadata decisions** of libgimpbase/gimpmetadata.c:
  - which tags a MIME type supports;
  - the lookup of a parser attribute by name;
  - reading and writing the colour space through the Exif, XMP, Iop and maker-note tags;
  - the JPEG framing that `gimp_metadata_set_from_exif` puts around an Exif blob.

The code that changes things in place keeps that form here.

- **The control block** is the class `Control.ArcCtrl`. Its arrays are updated by methods proved against the state functions of `Dictionary` and `Lzw`.
- **The buffer entry points** in `Archive` work on arrays. They are proved to compute the functions of `Container`.
- **The GRA loops and the colour-map writes** are methods with loop invariants, proved against sequence functions.
- **The tag store** is a class holding a map.

The headline result is `Codec.CompressDecompress`. Take any input that `compress` accepts whose container C's decoder can index: a stored container, or a coded one of at most 2^28 bytes, so that every bit index fits in the int that Bt takes (`Container.IntIndexed`; every input shorter than 2^28 - 20 bytes qualifies, `Container.ShortIntIndexed`). Pass its container to `decompress` with its own length. It yields the input followed by `ExpandBuf`'s 0 terminator, and the returned size is the input's length.

On top of that, `GraFile.SaveLoad` proves a second round trip. Write an indexed-alpha GRA image of opaque pixels, each with an index below 16, packing the body into a cleared buffer. Reading the file gives back every pixel. The packing loop as gra-write.c writes it, over an uncleared buffer, is `GraFile.PackInto`; see "## Findings".

Module layout:

| module | contents |
|---|---|
| `BitField` | bit fields over byte buffers |
| `Dictionary`, `DictionaryFacts` | the code table as a value, and its invariant |
| `Lzw`, `LzwFacts` | the coder loops as functions, and their properties |
| `Control` | the control block as an object |
| `Container`, `Archive` | the container, as functions and over arrays |
| `Meeting`, `RoundTrip`, `Codec` | the round-trip proof |
| `Tosz` | TOSZ.c |
| `Nibble`, `Palette`, `GraFile` | the GRA filter |
| `Metadata` | gimpmetadata.c |

## Model

| member | source | states |
|---|---|---|
| BitField.SetBit | compression.c:63-73 | the buffer after Bts has bit n set and every other bit as it was |
| BitField.BtShift | compression.c:56-61 | Bt(n) is bit n & 7 of byte n >> 3: (field[n >> 3] >> (n & 7)) & 1 |
| BitField.Bts | compression.c:63-73 | returns the previous value of bit n and leaves the buffer as SetBit describes |
| BitField.FieldValueBits | compression.c:75-82 | the value extracted from bits pos .. pos+bits is below 2^bits, and its bit i is buffer bit pos+i |
| BitField.BFieldExtU32 | compression.c:75-82 | for bits within the buffer and below the int limit 2^31 of Bt's index, the loop that sets result bit i from buffer bit pos+i computes that value, below 2^bits |
| BitField.ReadBack | compression.c:75-82 | reading w bits that hold the low bits of c < 2^w yields c |
| BitField.OrU32Bits | compression.c:292-296 | after BFieldOrU32 a bit is set iff it was set before or it is bit n-pos of the pattern within the 32-bit word written |
| BitField.WriteCode | compression.c:292-296 | ORing a w-bit code into bits that are clear from pos on keeps the bits below pos, puts the code at pos .. pos+w, and leaves the rest clear |
| BitField.OrU32Below | compression.c:292-296 | an OR at pos never changes a bit below pos |
| BitField.BFieldOrU32 | compression.c:292-296 | ORs pattern << (pos % 8) into the four bytes from pos / 8, truncated to 32 bits |
| Dictionary.Scan | compression.c:102-103 | a slot the recycling search returns lies in [min_table_entry, free_limit) and has an empty chain; nothing is returned only after a full lap of probes |
| Dictionary.RemoveFirst | compression.c:106-110 | unlinking removes only the slot searched for; every other slot on the chain stays |
| Dictionary.EntryGet | compression.c:84-114 | changes nothing when the current slot was not used; otherwise the old next slot becomes current at the old next width, the table entries are untouched, the new next slot is above the literals, and below 12-bit codes a slot is always found |
| Dictionary.Link | compression.c:329-335 | the current slot holds (p, ch) and heads p's chain |
| Dictionary.FindChild | compression.c:317-323 | returns a slot on the chain whose byte is ch, or nothing exactly when no slot on the chain has that byte |
| Dictionary.Init | compression.c:172-194 | the table after ArcCtrlNew: every chain empty, no current slot, first new slot 2^min_bits, next width min_bits+1, free index one past it |
| DictionaryFacts.InitInv | compression.c:172-194 | the fresh table satisfies the table invariant (every slot on p's chain stands for p's string plus its byte, with no repeats) |
| DictionaryFacts.ChildStr | compression.c:317-323 | a slot on p's chain is in use, its parent is p, and it stands for p's string followed by its byte |
| DictionaryFacts.ParentStr | compression.c:147-151 | a slot in use has a live parent and stands for the parent's string followed by its byte |
| DictionaryFacts.ScanFinds | compression.c:102-103 | the search finds a free slot no later than any free slot within its reach |
| DictionaryFacts.LeafExists | compression.c:102-103 | in a full table some slot other than the current one has no children, so the search terminates |
| DictionaryFacts.EntryGetInv | compression.c:84-114 | under the invariant ArcEntryGet always finds a slot, keeps the invariant, never makes a code live, and every live code fits the current width |
| DictionaryFacts.EntryGetGrowInv | compression.c:95-100 | the same for the growing phase |
| DictionaryFacts.RecycleSlot | compression.c:101-103 | the recycled slot is never the slot just made current |
| DictionaryFacts.EntryGetRecycleInv | compression.c:101-111 | the same for the recycling phase, where the chosen childless slot is unlinked from its parent's chain |
| DictionaryFacts.SkipsFirstWideSlot | compression.c:95-103 | the widening to 12 bits hands out slot 2047 and leaves the free index at 2048; the next call steps past 2048 to take 2049 |
| DictionaryFacts.LinkLinked | compression.c:329-335 | linking puts the current slot in use and takes no other slot in or out of use |
| DictionaryFacts.LinkInv | compression.c:329-335 | linking a live parent into a fresh current slot keeps the invariant, with the slot standing for the parent's string plus ch |
| DictionaryFacts.StrBound | compression.c:147-151 | no live code stands for a string longer than the number of slots plus one |
| Lzw.Match | compression.c:314-323 | the phrase search ends with the input used up, or one byte on at the byte src[next-1] that ended the phrase; its code is a table code |
| Lzw.CompressLoop | compression.c:312-338 | the loop only moves forward, and stops when the input is used up or a code of the current width no longer fits |
| Lzw.CompressBuf | compression.c:298-342 | ArcCompressBuf, from the saved code or the first byte, only moves forward and returns with the input used up or no room for a code of the current width |
| Lzw.FinishCompression | compression.c:344-352 | the flush succeeds exactly when a code of cur_bits_in_use fits, and then advances dst_pos by next_bits_in_use and keeps the table |
| Lzw.Walk | compression.c:147-151 | the expansion walk ends at a literal below min_table_entry and never pushes more than 4096 bytes |
| Lzw.DecodeStep | compression.c:139-165 | a decoding pass advances the read position by exactly next_bits_in_use |
| Lzw.DecodeLoop | compression.c:138-166 | the loop only moves forward, and stops with a full output or with no whole code left in the budget |
| Lzw.ExpandStart | compression.c:128-137 | when the start succeeds it leaves a state the decoding loop can run on |
| Lzw.Pop | compression.c:125-126 | the pop loop moves bytes from the stack to the output: no byte is lost or made up, and the stack only shrinks |
| Lzw.ExpandCodes | compression.c:116-170 | ArcExpandBuf returns with bytes left on the stack, a full output, or no whole code left within src_size |
| LzwFacts.MatchStr | compression.c:314-323 | started on a code for src[s..p], the search returns a live code for the longest phrase it reaches: all of the rest of the input, or up to the byte that missed |
| LzwFacts.MatchExtends | compression.c:317-321 | a byte that extends the phrase to a string in the table leads to the child for that longer string |
| LzwFacts.WalkStr | compression.c:147-151 | expanding a live code pushes its string in reverse and ends at its first byte |
| LzwFacts.PopAll | compression.c:125-126 | when everything fits, popping writes the whole stack top first and empties it |
| LzwFacts.PopBound | compression.c:163-164 | the pop loop never writes past dst_size, only appends, takes bytes only from the top of the stack, and stops with an empty stack or a full output |
| LzwFacts.DecodeBounds | compression.c:138-141 | the decoding loop never writes past dst_size and never reads a code that ends past src_size |
| LzwFacts.LoopKeepsBelow | compression.c:326-327 | the compressor loop never changes an output bit below its starting position |
| LzwFacts.FinishKeepsBelow | compression.c:346-348 | the final flush leaves every bit below dst_pos alone, and advances by next_bits_in_use, not by cur_bits_in_use |
| LzwFacts.NoHang | compression.c:312-338 | when every input byte is a literal, the compressor's ArcEntryGet always finds a slot, so the loop always ends |
| LzwFacts.ExpandFirstOk | compression.c:129-135 | the first code is written out as a literal, becomes lastcode and last_ch, and the loop runs on from there |
| Control.Unlink | compression.c:106-110 | the walk for the link that points at slot x removes its first occurrence from the chain |
| Control.InitFromBlank | compression.c:176-192 | the zeroed block followed by ArcEntryGet and entry_used := TRUE is the table Init describes |
| Control.ArcCtrl.FirstEntry | compression.c:190-192 | the ArcEntryGet call at the end of ArcCtrlNew and the reset of entry_used leave the table Init describes |
| Control.ArcCtrl.constructor | compression.c:172-194 | ArcCtrlNew: a valid block holding Init's table, no saved code, empty positions, and a 4096-byte stack only when expanding |
| Control.ArcCtrl.ScanFree | compression.c:102-103 | the do-while search computes Scan over the hash array |
| Control.ArcCtrl.EntryGrow | compression.c:95-100 | the in-place growth step leaves the fields EntryGet describes |
| Control.ArcCtrl.EntryRecycle | compression.c:101-111 | the in-place recycling step finds Scan's slot and unlinks it from its parent's chain, and nothing else changes |
| Control.ArcCtrl.EntryGet | compression.c:84-114 | ArcEntryGet in place leaves the table Dictionary.EntryGet computes |
| Control.ArcCtrl.Link | compression.c:329-335 | the in-place link leaves the table Dictionary.Link computes |
| Control.ArcCtrl.FindChild | compression.c:317-323 | the chain walk returns Dictionary.FindChild's slot |
| Control.ArcCtrl.LongestMatch | compression.c:314-323 | the ac_start loop returns Match's result |
| Control.ArcCtrl.CompressPass | compression.c:314-337 | a pass emits the phrase's code at cur_bits_in_use and enters the phrase plus the byte that ended it, or stops when the input runs out |
| Control.ArcCtrl.CodePhrase | compression.c:313-337 | one loop body, related to CompressLoop on the loop state |
| Control.ArcCtrl.CompressRun | compression.c:312-338 | the outer loop ends in the state CompressLoop computes |
| Control.ArcCtrl.CompressBuf | compression.c:298-342 | ArcCompressBuf leaves the table, buffer, positions and saved code Lzw.CompressBuf computes |
| Control.ArcCtrl.FinishCompression | compression.c:344-352 | the flush succeeds exactly when Lzw.FinishCompression does, and leaves its buffer and position |
| Control.ArcCtrl.PopStack | compression.c:125-126 | the pop loop leaves the stack and output Pop computes, and nothing else changes |
| Control.ArcCtrl.WalkChain | compression.c:147-151 | the push walk leaves the stack Walk computes and returns the literal |
| Control.ArcCtrl.ExpandCode | compression.c:142-151 | a code equal to the current slot pushes last_ch and expands lastcode instead |
| Control.ArcCtrl.EnterString | compression.c:154-164 | enters {lastcode, ch}, gets a slot and pops, as the functions compute |
| Control.ArcCtrl.TakeCode | compression.c:139-141 | for a code within the input and below bit 2^31, reads the next code at next_bits_in_use and advances by that width |
| Control.ArcCtrl.DecodePass | compression.c:139-165 | one decoding pass in place matches DecodeStep, error for error |
| Control.ArcCtrl.ExpandRun | compression.c:138-166 | the decoding loop in place matches DecodeLoop |
| Control.ArcCtrl.TakeLiteral | compression.c:130-133 | the first code is read and its low byte written out |
| Control.ArcCtrl.FirstCode | compression.c:129-135 | the first code and its slot, with errors and continuation as in ExpandCodes |
| Control.ArcCtrl.ExpandBuf | compression.c:116-170 | ArcExpandBuf in place leaves the state ExpandCodes computes, saving the last code |
| Container.ReadLe32Le32 | compression.c:47-53 | a header DWORD reads back as its value truncated to 32 bits |
| Container.Le32 | compression.c:47-53 | a DWORD field is four bytes |
| Container.ReadLe32 | compression.c:47-53 | a DWORD field read back is below 2^32 |
| Container.SetHeaderFields | compression.c:369-378 | after the header assignments compressed_size, expanded_size and compression_type read back, and the body is unchanged |
| Container.HighBit | compression.c:267 | b & 0x80 is set exactly for bytes from 128 on |
| Container.CompressionType | compression.c:264-270 | CT_8_BIT iff some byte has bit 7 set, else CT_7_BIT; either way every byte is a literal of the chosen width |
| Container.DetermineCompressionType | compression.c:264-270 | the scan with early return computes that type |
| Container.StartReady | compression.c:357-364 | the compressor can run from compress's start state, and its loop always ends |
| Container.Compress | compression.c:354-399 | compressed_size reads back as the container length and expanded_size as the input length (each modulo 2^32), and the type is CT_NONE or the detected one |
| Container.Finished | compression.c:364-366 | when the coded path succeeds, ceil(dst_pos/8) lies between the header and the end of the buffer, and dst_pos is within dst_size plus one code |
| Container.CompressCoded | compression.c:365-370 | a successful coded path gives the first ceil(dst_pos/8) bytes under the coded header |
| Container.CompressStored | compression.c:371-376 | a failed coded path gives the stored container |
| Container.PackageCoded | compression.c:365-378 | coded container: compressed_size is its length, expanded_size is the input length, the type is the detected one, and the body is the bit buffer |
| Container.PackageStored | compression.c:371-378 | stored container: size+18 bytes, type CT_NONE, the input verbatim at byte 17, expanded_size is the input length |
| Container.CompressShape | compression.c:354-399 | below the expand limit no header field wraps, and the container is the coded or stored one as above |
| Container.ExpandBuf | compression.c:202-231 | succeeds only for types 1..3 and expanded_size < 0x20000000; the result is expanded_size bytes plus a 0; a stored body is copied verbatim |
| Container.Decompress | compression.c:244-261 | the size returned is always the header's expanded_size; ExpandBuf runs only when compressed_size equals the given length and the type is 1..3 |
| Container.DecompressStored | compression.c:214-216 | a stored container with a consistent header decompresses to its body and the terminator |
| Container.DecompressCoded | compression.c:217-226 | a coded container whose codes decode to n bytes within its own bit budget decompresses to them and the terminator |
| Archive.StoreDword | compression.c:370 | stores a little-endian DWORD and keeps every other byte |
| Archive.StoreHeader | compression.c:369-378 | the header assignments through the CArcCompress pointer leave SetHeader's buffer |
| Archive.StoreBody | compression.c:372-373 | the stored buffer: a cleared header, the input, a cleared pad byte |
| Archive.CodedPath | compression.c:358-365 | the compressor object over the cleared buffer succeeds exactly when the final flush fits and all input is consumed, and leaves the finished buffer |
| Archive.PackCoded | compression.c:366-370 | the first size bytes of the bit buffer under the coded header |
| Archive.PackStored | compression.c:371-376 | the stored container over arrays |
| Archive.Compress | compression.c:354-399 | compress over arrays yields Container.Compress's container, and the returned size is its length |
| Archive.CopyStored | compression.c:211-216 | a stored body is copied and terminated |
| Archive.Decode | compression.c:219-226 | the decoder object from bit 136 writes ExpandCodes's output and leaves the terminator slot alone |
| Archive.CodedBody | compression.c:211-226 | the coded case with a budget of compressed_size*8 bits (a DWORD product); a short decode is Incomplete |
| Archive.ExpandBuf | compression.c:202-231 | ExpandBuf over arrays matches Container.ExpandBuf |
| Archive.Decompress | compression.c:244-261 | decompress over arrays matches Container.Decompress |
| Tosz.Uncompress | TOSZ.c:239-256 | uncompress is decompress: same size, same guard, same result |
| Codec.FirstMatch | compression.c:314-323 | the first pass finds no phrase longer than src[0], because every chain is empty |
| Codec.ExpandFirst | compression.c:129-135 | the decoder's first code is the compressor's first literal |
| Codec.CodedDecode | compression.c:116-170 | ArcExpandBuf from bit 136 of a coded container of at most 2^31 bits writes the whole input |
| Codec.CodedRoundTrip | compression.c:244-261 | a coded container whose bits all have an int index decompresses to the input and its terminator |
| Codec.StoredRoundTrip | compression.c:371-376 | a stored container decompresses to the input and its terminator |
| Codec.CompressDecompress | compression.c:354-399 | decompress(compress(src)) with the container's own length gives src + [0] and size \|src\|, whenever the container is stored or a coded one of at most 2^28 bytes |
| Container.ShortIntIndexed | compression.c:56-61 | an input shorter than 2^28 - 20 bytes gets a container whose every bit index fits Bt's int |
| RoundTrip.DecodeStepOk | compression.c:139-165 | decoding the code emitted for src[start..end] writes that phrase and ends with the compressor's table of the same pass |
| RoundTrip.KwkPhrase | compression.c:142-144 | a code equal to the current slot stands for the previous phrase followed by that phrase's first byte |
| RoundTrip.NextTable | compression.c:313 | at the meeting point the compressor's ArcEntryGet gives the table the decoder reaches next, with codes as wide as the decoder reads them |
| RoundTrip.MeetStep | compression.c:138-166 | one pass of both loops keeps them in step |
| RoundTrip.FinishCodeBack | compression.c:346-348 | the flushed code reads back at the decoder's width |
| RoundTrip.Advance | compression.c:312-338 | one compressor pass from a meeting point either ends with the decoder having written the whole input, or reaches the next meeting point with the same loops ahead |
| RoundTrip.Sim | compression.c:138-166 | from a meeting point on, if the compressor consumes all input and its flush succeeds, the decoder reading the same bits writes the rest of the input |
| Nibble.PackCleared | gra-write.c:121-124 | into a cleared byte the low nibble is index & 0x0F and the high nibble is that of 0xFF - alpha |
| Nibble.PackOver | gra-write.c:121-124 | the packing step is the cleared result ORed into what the byte held |
| Nibble.IndexOf | gra-read.c:121 | the index read from a byte is below 16 |
| Nibble.AlphaOf | gra-read.c:124-125 | the alpha read back always has its low nibble set |
| Nibble.PackUnpack | gra-read.c:121-125 | unpacking a packed byte gives index & 0x0F, and an alpha widened from its high nibble: opaque stays 0xFF, an alpha below 0x10 reads 0x0F |
| Nibble.PackUncleared | gra-write.c:116 | a byte already holding 0xFF turns a black opaque pixel into index 15, alpha 0x0F |
| Nibble.PixelRoundTrip | gra-read.c:121-125 | an opaque pixel with an index below 16 survives packing and unpacking |
| Palette.Entry | gra.c:239-305 | reference definition of the 16 CGA colours; each entry has three components |
| Palette.PrefixAt | gra.c:239-305 | byte k of the colour map is component k % 3 of entry k / 3 |
| Palette.PutColor | gra.c:242-244 | three successive col_index++ writes extend the written prefix by one entry |
| Palette.PutSlots | gra.c:242-244 | the three slot writes, col_index moving on after each |
| Palette.GetColorMap | gra.c:239-305 | get_color_map writes exactly bytes 0..47, the 16 entries in order |
| Palette.CheckColorMapping | gra-write.c:39-58 | false unless there are 16 colours; true iff all 48 bytes equal the palette |
| Palette.SameBytes | gra-write.c:52-56 | the comparison loop with early return is byte-for-byte equality |
| Palette.EndEntries | gra.c:242-276 | entry 0 is black, 15 white, 7 (AA,AA,AA) and 8 (55,55,55) |
| Palette.FourLevels | gra.c:239-305 | every component of the map is 0x00, 0x55, 0xAA or 0xFF |
| Palette.BrightPairs | gra.c:242-304 | apart from brown, entry i+8 is entry i with 0x55 added to each component |
| GraFile.PaddedWidthUnique | gra-write.c:144-152 | the rounded width is the only multiple of 8 in [w, w+8) |
| GraFile.WidthInternal | gra-write.c:144-152 | the counting loop stops at a multiple of 8 in [width, width+8) |
| GraFile.PackOne | gra-write.c:121-124 | one iteration ORs into alpha_pixels[i] and touches no other byte |
| GraFile.PackedPixels | gra-write.c:115-129 | the packed body of an indexed-alpha image has one byte per pixel |
| GraFile.PackInto | gra-write.c:119-125 | the loop as written: each byte becomes the packing step over what it held |
| GraFile.PackAlpha | gra-write.c:115-129 | over a cleared buffer, the packed body holds one packed byte per pixel |
| GraFile.UnclearedPack | gra-write.c:116 | packed over a byte holding 0xFF, pixel (0, 0xFF) reads back as (15, 0x0F); over a cleared byte it reads back as (0, 0xFF) |
| GraFile.UnpackPacked | gra-read.c:117-126 | opaque pixels with indexes below 16 come back unchanged from packing and unpacking |
| GraFile.PackedUnpacked | gra-read.c:117-126 | pixel i of the unpacked body is the index and alpha read back from pixel i's packed byte |
| GraFile.Unpacked | gra-read.c:117-126 | the image unpacked from a body has two bytes per body byte |
| GraFile.UnpackPackedAt | gra-read.c:117-126 | each byte of an opaque pixel with an index below 16 comes back unchanged |
| GraFile.UnpackAlpha | gra-read.c:117-126 | the unpacking loop writes index and alpha of body byte i at 2i and 2i+1 |
| GraFile.WriteGra | gra-write.c:79-182 | refused exactly for a drawable that is not indexed, or an indexed one whose colour map is not the TempleOS palette; otherwise the file is width, width_internal, height, flags 1, then compress of the width*height payload |
| GraFile.ReadBody | gra-read.c:109-115 | with flags bit 0 clear the body is used as read; with it set a body comes only from a successful decompress, and is its output |
| GraFile.ReadImage | gra-read.c:109-128 | the image keeps width and height and has 2*width*height bytes |
| GraFile.ReadFile | gra-read.c:71-128 | a file of 16 bytes or fewer is an error, and every image read has two bytes per pixel |
| GraFile.LoadedIndexes | gra-read.c:121 | every loaded index is below 16 |
| GraFile.LoadImage | gra-read.c:109-128 | ReadGRA from the body on matches ReadImage |
| GraFile.ReadGra | gra-read.c:71-128 | ReadGRA's buffer logic matches ReadFile |
| GraFile.HeaderRead | gra-read.c:71-93 | the four header fields read back in order, and the body follows them |
| GraFile.WriteRead | gra-write.c:137-182 | reading the file WriteGRA writes gives back width, height and the unpacked payload, when the payload's container is one Bt can index |
| GraFile.SaveLoad | gra-read.c:117-126 | an indexed-alpha image of opaque pixels with indexes below 16, packed into a cleared buffer, is saved and loaded back pixel for pixel, when the packed body's container is one Bt can index |
| Metadata.AnyPrefix | libgimpbase/gimpmetadata.c:1105-1111 | the prefix loop answers true iff some entry of the table prefixes the tag |
| Metadata.IsTagSupported | libgimpbase/gimpmetadata.c:1097-1135 | supported iff no unsupported prefix matches, and no TIFF prefix matches for image/jpeg, and no JPEG prefix matches for image/tiff |
| Metadata.UnsupportedEverywhere | libgimpbase/gimpmetadata.c:89-104 | a tag under an unsupported prefix is unsupported for every MIME type |
| Metadata.AttributeNameToValue | libgimpbase/gimpmetadata.c:212-229 | nothing iff the name is absent; otherwise the value beside the first occurrence of the name |
| Metadata.GetColorspace | libgimpbase/gimpmetadata.c:918-1011 | an Exif value of 1 is sRGB and 2 is Adobe RGB, whichever of the Exif or XMP tag provides it; Uncalibrated only for 0xffff |
| Metadata.PhotoBeforeXmp | libgimpbase/gimpmetadata.c:928-937 | when the Exif tag is present the XMP tag has no influence |
| Metadata.IopDecides | libgimpbase/gimpmetadata.c:949-970 | under an Exif value of 0xffff, Iop index "R03" gives Adobe RGB and "R98" gives sRGB, before any maker note |
| Metadata.MakerNotesAlone | libgimpbase/gimpmetadata.c:972-1004 | when neither the Exif value nor the Iop index decides, a Nikon tag of 1 or 2 gives sRGB or Adobe RGB; only without such a Nikon tag does a Canon tag of 1 or 2 decide, the same way |
| Metadata.UncalibratedExactly | libgimpbase/gimpmetadata.c:939-1010 | Uncalibrated iff the Exif value is 0xffff and neither the Iop index nor a maker note overrides it; Unspecified iff the Exif value is none of 1, 2, 0xffff and no maker note holds 1 or 2 |
| Metadata.RefreshedKeeps | libgimpbase/gimpmetadata.c:1052-1053 | a has_tag check followed by a set adds no tag and changes no other tag |
| Metadata.NamedKeeps | libgimpbase/gimpmetadata.c:1049-1081 | writing sRGB or Adobe RGB sets the Exif tag and overwrites only the tags that exist; every other tag is kept |
| Metadata.TagStore.SetTagLong | libgimpbase/gimpmetadata.c:1041 | the tag holds the number afterwards |
| Metadata.TagStore.SetTagString | libgimpbase/gimpmetadata.c:1056-1057 | the tag holds the string afterwards |
| Metadata.TagStore.ClearTag | libgimpbase/gimpmetadata.c:1033 | the tag is gone afterwards |
| Metadata.TagStore.RefreshTag | libgimpbase/gimpmetadata.c:1042-1043 | a present tag takes the value, an absent one stays absent |
| Metadata.TagStore.SetNamed | libgimpbase/gimpmetadata.c:1049-1081 | the tags after the sRGB or Adobe RGB case |
| Metadata.ClearedKeeps | libgimpbase/gimpmetadata.c:1032-1038 | clearing removes exactly the five colour space tags, keeps every other tag, and reads back as Unspecified |
| Metadata.UncalibratedKeeps | libgimpbase/gimpmetadata.c:1040-1047 | writing Uncalibrated sets Exif to 0xffff, XMP to 0xffff only where it exists, removes the other three colour space tags, keeps every other tag, and reads back as Uncalibrated |
| Metadata.TagStore.ClearColorspace | libgimpbase/gimpmetadata.c:1032-1038 | the five clear_tag calls leave ClearedTags |
| Metadata.TagStore.SetUncalibrated | libgimpbase/gimpmetadata.c:1040-1047 | the Uncalibrated calls leave UncalibratedTags |
| Metadata.TagStore.SetColorspace | libgimpbase/gimpmetadata.c:1024-1083 | the new tag map for each of the four values (cleared, uncalibrated, or the sRGB / Adobe RGB NamedTags); get_colorspace afterwards returns the colour space set; no tag outside the five colour space tags changes |
| Metadata.SizeBytes | libgimpbase/gimpmetadata.c:632-633 | on a 16-bit length the mask-and-shift is the quotient and remainder by 256 |
| Metadata.ByteArray.Append | libgimpbase/gimpmetadata.c:636-641 | g_byte_array_append adds the bytes at the end |
| Metadata.ExifBuffer | libgimpbase/gimpmetadata.c:616-641 | a buffer is produced exactly when 0 < length < 65536, and it is minimal_exif, then the length big-endian in two bytes, then the data |

Lemmas of `LzwFacts` that only unfold one pass of a loop (`StepOk`, `StepOverflow`, `StepWalkFails`, `StepNoSlot`, `DecodeFails`, `DecodeUnfold`, `DecodeOverread`, `DecodeNegative`, `DecodeDone`, `ExpandPopOnly`, `ExpandResume`, `ExpandFirstOverread`, `ExpandFirstNegative`, `ExpandFirstNoSlot`, `LoopUnfold`, `LoopExhausted`, `LoopNoSlot`, `LoopDone`) and `Control.GrowStep` and `Control.RecycleStep` are proof steps. They have no row of their own.

## Left out

- FSize, file opening, reading and writing, progress reporting, plug-in registration, and every gimp_* and gexiv2 call other than those on the tag store: these are I/O or foreign calls.
  - WriteGRA's pixels and colour map are parameters.
  - ReadGRA's file contents are a parameter.
  - The GIMP image ReadGRA builds is the returned `Image`, not a GIMP object.
- gexiv2_metadata_open_buf, has_exif and the merge into the target metadata in set_from_exif: foreign library. The model stops at the buffer handed to the parser.
- The serialise, deserialise, load, save and resolution functions of gimpmetadata.c, the colour-profile and widget files, the PDB stubs and read.c: outside the modelled core.
- Undefined behaviour in the C code is modelled as an explicit outcome instead:
  - ArcCompressBuf reads one byte past an empty input. The model uses 0, which only becomes the saved code, so the stored fallback follows.
  - The hi DWORDs and the pad byte of a stored container are uninitialised. The model writes 0 there.
  - decompress leaves its output pointer unset on a header mismatch. The model reports `HeaderMismatch`.
  - ExpandBuf reads past the container. The model reports `Overread`.
  - Bt takes its bit index as an int, so a code reaching bit 2^31 (byte 2^28 of a coded container) is read from before the buffer. The decoder model reports `NegativeBitIndex`.
  - ArcExpandBuf pushes past the 4096-byte stack. The model reports `StackOverflow`.
  - ArcEntryGet's recycling search can loop forever. The model reports `NoFreeSlot` or `None`.
  - A decode shorter than expanded_size leaves uninitialised bytes. The model reports `Incomplete`.
  - decompress reads the 17-byte header of an input shorter than that. The model reports `ShortInput`.
  - ReadGRA can read a body shorter than width*height. The model reports `ShortBody`.
  - A failed or too-short decompress in ReadGRA is reported as `BadBody`.
- BFieldOrU32's 32-bit OR on the last code can touch bytes past the size+18 allocation. The model's compressor buffer carries 4 spare zero bytes, so the write stays in bounds.
- ArcFinishCompression checks for room at cur_bits_in_use but advances by next_bits_in_use, so size_out can be size+19. compress's memcpy of size_out bytes then reads one byte past the size+18 calloc. The model reads that byte from the spare zero bytes.
- BitField.BFieldExtU32: requires pos + bits <= 2^31. compression.c:79 passes the DWORD pos+i to Bt's int parameter, and from 2^31 on that index is negative. The callers check the bound first and report `NegativeBitIndex`; the predicate `Bt` itself is the bit at any natural index, which the C function agrees with only below 2^31.
- BitField.Bts: requires bitNum < 2^31, for the same int parameter.
- Control.ArcCtrl.TakeCode: requires srcPos + next_bits <= 2^31, since it calls BFieldExtU32; ExpandRun and FirstCode report `NegativeBitIndex` before calling it.
- Codec.CodedDecode: requires the container to have at most 2^31 bits. Past that the decoder reports `NegativeBitIndex`, because C reads those codes before the buffer.
- Codec.CodedRoundTrip: requires `Container.IntIndexed`, so coded containers of more than 2^28 bytes, which C cannot decode, are outside the round trip.
- Codec.CompressDecompress: requires `Container.IntIndexed`. Stored containers qualify up to the 2^29 limit; coded ones only up to 2^28 bytes, which every input shorter than 2^28 - 20 bytes meets.
- Container.DecompressCoded: its requires that ExpandCodes succeed now excludes codes reaching bit 2^31, which give `NegativeBitIndex`.
- GraFile.WriteRead: requires `Container.IntIndexed` of the payload, for the same reason.
- GraFile.SaveLoad: requires `Container.IntIndexed` of the packed body, for the same reason.
- BitField.BFieldOrU32: the model reads `*(DWORD *)` and Bts into `&result` as little-endian, as the C code assumes of its host; a big-endian host is not modelled. Its `long` bit position is taken to be 64 bits wide (LP64); with a 32-bit long the compressor would also write before the buffer from bit 2^31 on.
- Archive.Compress: requires size + 20 < 2^29. Above that, the DWORD products (size+18)<<3 and dst_pos+7 can wrap, and ExpandBuf refuses such sizes anyway.
- GraFile.WriteGra: requires width*height + 20 < 2^29, for the same reason.
- GraFile.WriteGra: requires width + 8 <= 2^31 and height < 2^31. The product width*height, computed in gint, is taken without wrap-around.
- GraFile.ReadFile: header fields are read as unsigned 32-bit values. The gint sign of negative widths and heights, and the overflow of width*height in gint, are not modelled.
- GraFile.WriteGra: the return values of fwrite are not modelled, since writing is I/O.
- GraFile.WriteGra: packs the indexed-alpha body with the corrected packer `PackAlpha`, into a cleared buffer. gra-write.c:116 mallocs `alpha_pixels` and ORs into it, so the bytes written depend on what the heap held. That loop as written is modelled only by `GraFile.PackInto` (see "## Findings"); WriteGra, WriteRead and SaveLoad describe the cleared-buffer output.
- Metadata.TagLong: gexiv2_metadata_get_tag_long of a text tag is taken as 0. The model does not parse numbers out of strings.
- Metadata.GetColorspace: the Iop comparison is made on text tags only. A numeric tag never compares equal to "R03" or "R98".
- The control block's `src_buf` is a sequence that the decoder only reads. Pointer aliasing between the C buffers is not modelled beyond the `!=` requirements on distinct arrays.
- TOSZ.c's Bt, Bts, BFieldExtU32, ArcEntryGet, ArcCtrlNew, ArcExpandBuf and ExpandBuf (TOSZ.c:53-226) are the same code as in compression.c. The members above model both copies.

## Findings

| source | as written | input that shows it | evidently intended | confidence | as-written member | corrected member |
|---|---|---|---|---|---|---|
| gra-write.c:116, 121-124 | `alpha_pixels` comes from `malloc`, then each pixel is ORed into it, so any bits already set stay set | a byte that already holds 0xFF and the opaque black pixel (index 0, alpha 0xFF): the stored byte stays 0xFF and reads back as index 15 with alpha 0x0F (see GraFile.UnclearedPack) | the buffer cleared first (calloc), so each byte is exactly the packed pixel, and an opaque pixel with an index below 16 survives the round trip | not executed | GraFile.PackInto | GraFile.PackAlpha |
