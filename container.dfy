/**
 * The CArcCompress container of compression.c: a packed header of four
 * little-endian DWORDs (compressed_size, its high half, expanded_size, its
 * high half) and the compression_type byte, followed by the body at byte 17
 * (bit 136).  compress codes a buffer into a container, falling back to a
 * stored copy; ExpandBuf and decompress turn a container back into bytes.
 */
module Container {
  import opened BitField
  import opened Optional
  import opened Dictionary
  import opened Lzw
  import opened DictionaryFacts
  import opened LzwFacts

  /** sizeof(CArcCompress) - 1: the offset of the body. */
  const HeaderBytes: nat := 17
  /** sizeof(CArcCompress): the header and the one-byte body array. */
  const ArcSize: nat := 18
  /** ExpandBuf refuses expanded sizes from 0x20000000 on. */
  const ExpandLimit: nat := 0x2000_0000
  /** The number of DWORD values. */
  const DwordRange: nat := 0x1_0000_0000

  /** The four little-endian bytes of x stored into a DWORD (x truncated to 32 bits). */
  function Le32(x: nat): (r: seq<byte>)
    ensures |r| == 4
  {
    var y := x % DwordRange;
    [y % 256, (y / 256) % 256, (y / 65536) % 256, y / 16777216]
  }

  /** The DWORD stored little-endian at byte i. */
  function ReadLe32(s: seq<byte>, i: nat): (r: nat)
    requires i + 4 <= |s|
    ensures r < DwordRange
  {
    s[i] as nat + 256 * s[i + 1] as nat + 65536 * s[i + 2] as nat + 16777216 * s[i + 3] as nat
  }

  /** A value below 2^32 survives the truncation to a DWORD. */
  lemma SmallDword(x: nat)
    requires x < DwordRange
    ensures x % DwordRange == x
  {
  }

  /** Reading back a stored DWORD yields the value truncated to 32 bits. */
  lemma ReadLe32Le32(x: nat)
    ensures ReadLe32(Le32(x), 0) == x % DwordRange
  {
    var y := x % DwordRange;
    var q1 := y / 256;
    var q2 := y / 65536;
    assert q2 == q1 / 256;
    assert y / 16777216 == q2 / 256;
    assert y == y % 256 + 256 * q1;
    assert q1 == q1 % 256 + 256 * q2;
    assert q2 == q2 % 256 + 256 * (q2 / 256);
  }

  /**
   * The buffer with the header fields the C code assigns through the
   * CArcCompress pointer: compressed_size, expanded_size and
   * compression_type; the high halves and the body are left as they are.
   */
  function SetHeader(buf: seq<byte>, compressedSize: nat, expandedSize: nat, ct: byte): (r: seq<byte>)
    requires |buf| >= HeaderBytes
  {
    Le32(compressedSize) + buf[4..8] + Le32(expandedSize) + buf[12..16] + [ct] + buf[HeaderBytes..]
  }

  /** What a reader of the header finds after SetHeader. */
  lemma SetHeaderFields(buf: seq<byte>, compressedSize: nat, expandedSize: nat, ct: byte)
    requires |buf| >= HeaderBytes
    ensures |SetHeader(buf, compressedSize, expandedSize, ct)| == |buf|
    ensures ReadLe32(SetHeader(buf, compressedSize, expandedSize, ct), 0) == compressedSize % DwordRange
    ensures ReadLe32(SetHeader(buf, compressedSize, expandedSize, ct), 8) == expandedSize % DwordRange
    ensures SetHeader(buf, compressedSize, expandedSize, ct)[16] == ct
    ensures SetHeader(buf, compressedSize, expandedSize, ct)[HeaderBytes..] == buf[HeaderBytes..]
  {
    var r := SetHeader(buf, compressedSize, expandedSize, ct);
    ReadLe32Le32(compressedSize);
    ReadLe32Le32(expandedSize);
    assert r[..4] == Le32(compressedSize);
    assert r[8..12] == Le32(expandedSize);
    assert ReadLe32(r, 0) == ReadLe32(r[..4], 0);
    assert ReadLe32(r, 8) == ReadLe32(r[8..12], 0);
  }

  /** Bit 7 of a byte (the test b & 0x80) is set exactly for the bytes from 128 on. */
  lemma HighBit(b: byte)
    ensures BitOf(b, 7) == (b >= 128)
  {
    Pow2Values();
    if b >= 128 {
      BitOfAddTop(b - 128, 7, 7);
    } else {
      BitsAbove(b, 7, 7);
    }
  }

  /**
   * The compression type ArcDetermineCompressionType picks: CT_8_BIT when
   * some byte has bit 7 set, CT_7_BIT otherwise.  Either way every byte is
   * a literal of the chosen width.
   */
  function CompressionType(src: seq<byte>): (ct: nat)
    ensures ct == Ct7Bit || ct == Ct8Bit
    ensures ct == Ct8Bit <==> exists i | 0 <= i < |src| :: BitOf(src[i], 7)
    ensures forall i | 0 <= i < |src| :: src[i] < Pow2(MinBits(ct))
  {
    Pow2Values();
    if exists i | 0 <= i < |src| :: src[i] >= 128 then
      var i :| 0 <= i < |src| && src[i] >= 128;
      HighBit(src[i]);
      Ct8Bit
    else
      assert forall i | 0 <= i < |src| :: !BitOf(src[i], 7) by {
        forall i | 0 <= i < |src|
          ensures !BitOf(src[i], 7)
        {
          HighBit(src[i]);
        }
      }
      Ct7Bit
  }

  /** ArcDetermineCompressionType: scan the bytes and stop at the first one with bit 7 set. */
  method DetermineCompressionType(src: array<byte>) returns (ct: nat)
    ensures ct == CompressionType(src[..])
  {
    var i := 0;
    while i < src.Length
      invariant 0 <= i <= src.Length
      invariant forall j | 0 <= j < i :: src[j] < 128
    {
      HighBit(src[i]);
      if BitOf(src[i], 7) {
        return Ct8Bit;
      }
      i := i + 1;
    }
    return Ct7Bit;
  }

  /** The compressor state compress starts ArcCompressBuf from: the header area and the body bits are clear. */
  function StartState(src: seq<byte>): (st: EncState)
  {
    var d := Init(CompressionType(src));
    EncState(d, seq(|src| + ArcSize + 4, _ => 0), 8 * HeaderBytes, if 0 < |src| then src[0] else 0, 1)
  }

  /** c->dst_size of compress: the bits of a stored container. */
  function DstSize(src: seq<byte>): nat
  {
    8 * (|src| + ArcSize)
  }

  /** The compressor can run from the start state, and its loop always ends (every ArcEntryGet finds a slot). */
  lemma StartReady(src: seq<byte>)
    ensures EncReady(StartState(src), DstSize(src))
    ensures CompressLoop(src, DstSize(src), StartState(src)).Some?
  {
    var st := StartState(src);
    InitInv(CompressionType(src));
    NoHang(src, DstSize(src), st, seq(TableSize, _ => []));
  }

  /** After a successful ArcFinishCompression the rounded-up byte count lies within the buffer and past the header. */
  lemma FinishFits(src: seq<byte>, r: EncState, fin: EncState)
    requires EncReady(r, DstSize(src)) && |r.dst| == |src| + ArcSize + 4 && r.dstPos >= 8 * HeaderBytes
    requires FinishCompression(r, DstSize(src)) == Some(fin)
    ensures HeaderBytes <= (fin.dstPos + 7) / 8 <= |fin.dst|
  {
  }

  /**
   * The coded path of compress: ArcCompressBuf from the start state, then
   * ArcFinishCompression; Some(fin) when the last code fit and all of the
   * input was consumed, the condition for keeping the coded container.
   */
  function Finished(src: seq<byte>): (fin: Option<EncState>)
    ensures fin.Some? ==> HeaderBytes <= (fin.value.dstPos + 7) / 8 <= |fin.value.dst| == |src| + ArcSize + 4
    ensures fin.Some? ==> fin.value.dstPos <= DstSize(src) + MaxBits
  {
    var st := StartState(src);
    StartReady(src);
    var r := CompressBuf(src, 0, NoCode, st.d, st.dst, st.dstPos, DstSize(src)).value;
    match FinishCompression(r, DstSize(src))
    case Some(fin) =>
      if r.srcPos == |src| then
        FinishFits(src, r, fin);
        Some(fin)
      else None
    case None => None
  }

  /** Finished in two steps: the run of ArcCompressBuf from the start state, then ArcFinishCompression. */
  lemma FinishedSteps(src: seq<byte>) returns (r: EncState)
    ensures EncReady(StartState(src), DstSize(src))
    ensures CompressBuf(src, 0, NoCode, Init(CompressionType(src)), StartState(src).dst, 8 * HeaderBytes, DstSize(src)) == Some(r)
    ensures Wf(r.d) && DstSize(src) + 32 <= 8 * |r.dst|
    ensures var f := FinishCompression(r, DstSize(src));
            Finished(src) == if f.Some? && r.srcPos == |src| then f else None
  {
    StartReady(src);
    var st := StartState(src);
    r := CompressBuf(src, 0, NoCode, st.d, st.dst, st.dstPos, DstSize(src)).value;
  }

  /**
   * The container compress builds from the outcome of the coded path: the
   * first ceil(dst_pos / 8) bytes of the bit buffer when it succeeded, and
   * otherwise the input stored after the header.
   */
  function Package(src: seq<byte>, outcome: Option<EncState>): (arc: seq<byte>)
    requires outcome.Some? ==> HeaderBytes <= (outcome.value.dstPos + 7) / 8 <= |outcome.value.dst|
  {
    match outcome
    case Some(fin) =>
      var sizeOut := (fin.dstPos + 7) / 8;
      SetHeader(fin.dst[..sizeOut], sizeOut, |src|, CompressionType(src))
    case None =>
      SetHeader(seq(HeaderBytes, _ => 0) + src + [0], |src| + ArcSize, |src|, CtNone)
  }

  /**
   * compress: keep the coded container when the coded path succeeds, and
   * otherwise store the input.  The container's length is the
   * compressed_size compress returns.
   */
  function Compress(src: seq<byte>): (arc: seq<byte>)
    requires |src| + 20 < ExpandLimit
    ensures |arc| >= HeaderBytes && ReadLe32(arc, 0) == |arc| % DwordRange && ReadLe32(arc, 8) == |src| % DwordRange
    ensures arc[16] == CtNone || arc[16] == CompressionType(src)
  {
    match Finished(src)
    case Some(fin) => PackageCoded(src, fin); Package(src, Finished(src))
    case None => PackageStored(src); Package(src, Finished(src))
  }

  /**
   * The container compress builds for src is one decompress can read: it is
   * stored, or it is coded and every one of its bits has an index an int
   * holds, so that Bt reads inside it.
   */
  predicate IntIndexed(src: seq<byte>)
    requires |src| + 20 < ExpandLimit
  {
    Finished(src).Some? ==> 8 * |Compress(src)| <= IntBitLimit
  }

  /** Every input of fewer than IntBitLimit / 8 - 20 bytes gets a container Bt can index. */
  lemma ShortIntIndexed(src: seq<byte>)
    requires |src| + 20 < IntBitLimit / 8
    ensures IntIndexed(src)
  {
    CompressShape(src);
  }

  /**
   * ExpandBuf: reject a bad compression type or an expanded size from
   * 0x20000000 on; copy a stored body; otherwise decode from bit 136 with a
   * budget of compressed_size * 8 bits (a DWORD product) into a buffer of
   * expanded_size bytes.  The result carries the 0 terminator.
   */
  function ExpandBuf(arc: seq<byte>): (r: Result<seq<byte>, ExpandError>)
    ensures r.Ok? ==> |arc| >= HeaderBytes && CtNone <= arc[16] <= Ct8Bit && ReadLe32(arc, 8) < ExpandLimit
    ensures r.Ok? ==> |r.value| == ReadLe32(arc, 8) + 1 && r.value[ReadLe32(arc, 8)] == 0
    ensures r.Ok? && arc[16] == CtNone ==> HeaderBytes + ReadLe32(arc, 8) <= |arc|
                                           && r.value[..ReadLe32(arc, 8)] == arc[HeaderBytes..HeaderBytes + ReadLe32(arc, 8)]
  {
    if |arc| < HeaderBytes then Err(Overread)
    else
      var ct := arc[16];
      var size := ReadLe32(arc, 8);
      if !(CtNone <= ct <= Ct8Bit) || size >= ExpandLimit then Err(Rejected)
      else if ct == CtNone then
        if HeaderBytes + size > |arc| then Err(Overread)
        else Ok(arc[HeaderBytes..HeaderBytes + size] + [0])
      else
        var srcSize := (ReadLe32(arc, 0) * 8) % DwordRange;
        match ExpandCodes(arc, srcSize, size, DecState(Init(ct), 8 * HeaderBytes, [], [], NoCode, 0))
        case Err(e) => Err(e)
        case Ok(ds) => if |ds.out| == size then Ok(ds.out + [0]) else Err(Incomplete(|ds.out|))
  }

  /** What decompress reports: the header's expanded_size and the outcome of ExpandBuf. */
  datatype Decompressed = ShortInput | Decompressed(size: nat, result: Result<seq<byte>, ExpandError>)

  /**
   * decompress: the returned size is always the header's expanded_size;
   * ExpandBuf runs only when the header's compressed_size is the length
   * given and the compression type is 1 to 3.
   */
  function Decompress(arc: seq<byte>): (r: Decompressed)
    ensures r.ShortInput? <==> |arc| < HeaderBytes
    ensures r.Decompressed? ==> r.size == ReadLe32(arc, 8)
    ensures r.Decompressed? && r.result.Ok? ==> ReadLe32(arc, 0) == |arc| && 0 < arc[16] <= 3 && r.result == ExpandBuf(arc)
  {
    if |arc| < HeaderBytes then ShortInput
    else
      var size := ReadLe32(arc, 8);
      if ReadLe32(arc, 0) == |arc| && 0 < arc[16] <= 3 then Decompressed(size, ExpandBuf(arc))
      else Decompressed(size, Err(HeaderMismatch))
  }

  /** When the coded path succeeds with bit buffer dst and dst_pos bits, compress keeps the coded container. */
  lemma CompressCoded(src: seq<byte>, dst: seq<byte>, bits: nat)
    requires |src| + 20 < ExpandLimit
    requires Finished(src).Some? && Finished(src).value.dst == dst && Finished(src).value.dstPos == bits
    ensures HeaderBytes <= (bits + 7) / 8 <= |dst|
    ensures Compress(src) == SetHeader(dst[..(bits + 7) / 8], (bits + 7) / 8, |src|, CompressionType(src))
  {
  }

  /** When the coded path fails, compress stores the input. */
  lemma CompressStored(src: seq<byte>)
    requires |src| + 20 < ExpandLimit && Finished(src).None?
    ensures Compress(src) == Package(src, None)
  {
  }

  /**
   * The coded container: ceil(dst_pos / 8) bytes, the header's
   * compressed_size is that length, expanded_size is the input's length,
   * compression_type is the type ArcDetermineCompressionType picked, and the
   * body is the compressor's bit buffer from byte 17 on.
   */
  lemma PackageCoded(src: seq<byte>, fin: EncState)
    requires HeaderBytes <= (fin.dstPos + 7) / 8 <= |fin.dst|
    ensures var arc := Package(src, Some(fin));
            && |arc| == (fin.dstPos + 7) / 8 && ReadLe32(arc, 0) == |arc| % DwordRange
            && ReadLe32(arc, 8) == |src| % DwordRange && arc[16] == CompressionType(src)
            && arc[HeaderBytes..] == fin.dst[HeaderBytes..|arc|]
  {
    var sizeOut := (fin.dstPos + 7) / 8;
    SetHeaderFields(fin.dst[..sizeOut], sizeOut, |src|, CompressionType(src) as byte);
  }

  /**
   * The stored container: |src| + 18 bytes, the header's compressed_size is
   * that length, expanded_size is the input's length, compression_type is
   * CT_NONE, the body is the input verbatim and a 0 byte ends it.
   */
  lemma PackageStored(src: seq<byte>)
    ensures var arc := Package(src, None);
            && |arc| == |src| + ArcSize && ReadLe32(arc, 0) == |arc| % DwordRange
            && ReadLe32(arc, 8) == |src| % DwordRange && arc[16] == CtNone
            && arc[HeaderBytes..HeaderBytes + |src|] == src && arc[|arc| - 1] == 0
  {
    var buf := seq(HeaderBytes, _ => 0) + src + [0];
    SetHeaderFields(buf, |src| + ArcSize, |src|, CtNone);
    var arc := Package(src, None);
    assert arc[HeaderBytes..HeaderBytes + |src|] == buf[HeaderBytes..][..|src|] == src;
  }

  /** Below the expand limit no header field of compress's container wraps. */
  lemma CompressShape(src: seq<byte>)
    requires |src| + 20 < ExpandLimit
    ensures var arc := Compress(src);
            && ReadLe32(arc, 0) == |arc| && ReadLe32(arc, 8) == |src| && 8 * |arc| < DwordRange
            && (Finished(src).Some? ==>
                  && |arc| == (Finished(src).value.dstPos + 7) / 8 && |arc| <= |src| + ArcSize + 2
                  && arc[16] == CompressionType(src)
                  && arc[HeaderBytes..] == Finished(src).value.dst[HeaderBytes..|arc|])
            && (Finished(src).None? ==>
                  && |arc| == |src| + ArcSize && arc[16] == CtNone
                  && arc[HeaderBytes..HeaderBytes + |src|] == src && arc[|arc| - 1] == 0)
  {
    var f := Finished(src);
    var arc := Compress(src);
    if f.Some? {
      PackageCoded(src, f.value);
      assert |arc| <= |src| + ArcSize + 2;
    } else {
      PackageStored(src);
    }
    SmallDword(|arc|);
    SmallDword(|src|);
  }

  /** A container whose header announces a stored body of n bytes decompresses to that body and the terminator. */
  lemma DecompressStored(arc: seq<byte>, n: nat, body: seq<byte>)
    requires |arc| >= HeaderBytes && ReadLe32(arc, 0) == |arc| && arc[16] == CtNone
    requires ReadLe32(arc, 8) == n && n < ExpandLimit && HeaderBytes + n <= |arc|
    requires arc[HeaderBytes..HeaderBytes + n] == body
    ensures Decompress(arc) == Decompressed(n, Ok(body + [0]))
  {
  }

  /**
   * A container whose header announces a coded body of type ct and n bytes,
   * and whose codes decode within the bit budget of its own length to n
   * bytes, decompresses to those bytes and the terminator.
   */
  lemma DecompressCoded(arc: seq<byte>, n: nat, ct: byte, out: seq<byte>)
    requires |arc| >= HeaderBytes && ReadLe32(arc, 0) == |arc| && 8 * |arc| < DwordRange
    requires (ct == Ct7Bit || ct == Ct8Bit) && arc[16] == ct
    requires ReadLe32(arc, 8) == n && n < ExpandLimit && |out| == n
    requires var r := ExpandCodes(arc, 8 * |arc|, n, DecState(Init(ct), 8 * HeaderBytes, [], [], NoCode, 0));
             r.Ok? && r.value.out == out
    ensures Decompress(arc) == Decompressed(n, Ok(out + [0]))
  {
    SmallDword(8 * |arc|);
    assert (ReadLe32(arc, 0) * 8) % DwordRange == 8 * |arc|;
    assert ExpandBuf(arc) == Ok(out + [0]);
  }
}
