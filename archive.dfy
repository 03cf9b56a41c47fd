/**
 * The buffer-level entry points of compression.c over arrays: compress
 * drives an ArcCtrl over a cleared bit buffer and packages the outcome,
 * ExpandBuf checks a container's header and decodes or copies its body,
 * and decompress checks the header against the length it is given before
 * calling ExpandBuf.  Each is proved to compute the corresponding function
 * of the Container module.
 */
module Archive {
  import opened BitField
  import opened Optional
  import opened Dictionary
  import opened Lzw
  import opened LzwFacts
  import opened DictionaryFacts
  import Container
  import Control

  /** A fresh copy of the first n bytes of buf (malloc followed by memcpy). */
  method CopyPrefix(buf: array<byte>, n: nat) returns (a: array<byte>)
    requires n <= buf.Length
    ensures fresh(a) && a[..] == buf[..n]
  {
    a := new byte[n];
    var i: nat := 0;
    while i < n
      invariant i <= n && a[..i] == buf[..i]
    {
      a[i] := buf[i];
      i := i + 1;
    }
  }

  /** The DWORD x stored little-endian at byte i; the other bytes are kept. */
  method StoreDword(a: array<byte>, i: nat, x: nat)
    requires i + 4 <= a.Length
    modifies a
    ensures a[..] == old(a[..i]) + Container.Le32(x) + old(a[i + 4..])
  {
    var y := x % Container.DwordRange;
    a[i] := y % 256;
    a[i + 1] := (y / 256) % 256;
    a[i + 2] := (y / 65536) % 256;
    a[i + 3] := y / 16777216;
  }

  /** The header fields compress assigns: compressed_size, expanded_size and compression_type. */
  method StoreHeader(a: array<byte>, compressedSize: nat, expandedSize: nat, ct: byte)
    requires a.Length >= Container.HeaderBytes
    modifies a
    ensures a[..] == Container.SetHeader(old(a[..]), compressedSize, expandedSize, ct)
  {
    ghost var b := a[..];
    StoreDword(a, 0, compressedSize);
    StoreDword(a, 8, expandedSize);
    a[16] := ct;
    ghost var h := Container.SetHeader(b, compressedSize, expandedSize, ct);
    assert |h| == a.Length;
    forall k | 0 <= k < a.Length
      ensures a[k] == h[k]
    {
      if k < 4 {
        assert a[k] == Container.Le32(compressedSize)[k];
      } else if 8 <= k < 12 {
        assert a[k] == Container.Le32(expandedSize)[k - 8];
      }
    }
    assert a[..] == h;
  }

  /** The stored container's buffer: a cleared header, the input from byte 17 on, and a cleared pad byte. */
  method StoreBody(src: array<byte>) returns (a: array<byte>)
    ensures fresh(a) && a[..] == seq(Container.HeaderBytes, _ => 0) + src[..] + [0]
  {
    a := new byte[src.Length + Container.ArcSize](_ => 0);
    var i: nat := 0;
    while i < src.Length
      invariant i <= src.Length
      invariant a[..] == seq(Container.HeaderBytes, _ => 0) + src[..i] + seq(src.Length - i + 1, _ => 0)
    {
      a[Container.HeaderBytes + i] := src[i];
      assert src[..i + 1] == src[..i] + [src[i]];
      i := i + 1;
    }
    assert src[..i] == src[..];
  }

  /**
   * The coded path of compress: a compressor over src writing from bit 136
   * of buf, run to the end and finished.  ok when the last code fit and the
   * whole input was consumed; then bits is the final dst_pos.
   */
  method CodedPath(src: array<byte>, buf: array<byte>, ct: nat, ghost r: EncState) returns (ok: bool, bits: nat)
    requires ct == Container.CompressionType(src[..]) && buf != src
    requires Ready(Init(ct)) && Container.DstSize(src[..]) + 32 <= 8 * buf.Length
    requires Lzw.CompressBuf(src[..], 0, NoCode, Init(ct), buf[..], 8 * Container.HeaderBytes, Container.DstSize(src[..])) == Some(r)
    modifies buf
    ensures var f := FinishCompression(r, Container.DstSize(src[..]));
            && ok == (f.Some? && r.srcPos == src.Length) && (ok ==> buf[..] == f.value.dst && bits == f.value.dstPos)
  {
    var c := new Control.ArcCtrl(false, ct, src[..], src.Length, buf, Container.DstSize(src[..]));
    c.dstPos := 8 * Container.HeaderBytes;
    var found := c.CompressBuf(Init(ct), buf[..]);
    var fin := c.FinishCompression(r);
    ok := fin && c.srcPos == src.Length;
    bits := c.dstPos;
  }

  /** The coded container: the first size bytes of the bit buffer under the header compress assigns. */
  method PackCoded(buf: array<byte>, size: nat, expandedSize: nat, ct: byte) returns (arc: array<byte>)
    requires Container.HeaderBytes <= size <= buf.Length
    ensures fresh(arc) && arc[..] == Container.SetHeader(buf[..size], size, expandedSize, ct)
  {
    arc := CopyPrefix(buf, size);
    StoreHeader(arc, size, expandedSize, ct);
  }

  /** The stored container: the input after a cleared header, then a cleared pad byte, under the header for CT_NONE. */
  method PackStored(src: array<byte>) returns (arc: array<byte>)
    ensures fresh(arc) && arc[..] == Container.Package(src[..], None)
  {
    arc := StoreBody(src);
    StoreHeader(arc, arc.Length, src.Length, CtNone);
  }

  /**
   * compress: choose the compression type, code into a cleared buffer of
   * size + 22 bytes, and keep the first ceil(dst_pos / 8) bytes when the
   * coded path succeeds; otherwise store the input.  size is the returned
   * compressed_size, the container's length.
   */
  method Compress(src: array<byte>) returns (arc: array<byte>, size: nat)
    requires src.Length + 20 < Container.ExpandLimit
    ensures fresh(arc) && arc[..] == Container.Compress(src[..]) && size == arc.Length
  {
    ghost var s := src[..];
    var ct := Container.DetermineCompressionType(src);
    var buf := new byte[src.Length + Container.ArcSize + 4](_ => 0);
    assert buf[..] == Container.StartState(s).dst;
    ghost var r := Container.FinishedSteps(s);
    var ok, bits := CodedPath(src, buf, ct, r);
    if ok {
      Container.CompressCoded(s, buf[..], bits);
      size := (bits + 7) / 8;
      arc := PackCoded(buf, size, src.Length, ct);
    } else {
      Container.CompressStored(s);
      arc := PackStored(src);
      size := arc.Length;
    }
    assert src[..] == s;
  }

  /** A fresh copy of the stored body: size bytes from byte 17, then the terminator. */
  method CopyStored(arc: array<byte>, size: nat) returns (result: array<byte>)
    requires Container.HeaderBytes + size <= arc.Length
    ensures fresh(result) && result[..] == arc[Container.HeaderBytes..Container.HeaderBytes + size] + [0]
  {
    result := new byte[size + 1];
    result[size] := 0;
    var i: nat := 0;
    while i < size
      invariant i <= size && result[size] == 0
      invariant result[..i] == arc[Container.HeaderBytes..Container.HeaderBytes + i]
    {
      result[i] := arc[Container.HeaderBytes + i];
      assert arc[Container.HeaderBytes..Container.HeaderBytes + i + 1]
          == arc[Container.HeaderBytes..Container.HeaderBytes + i] + [arc[Container.HeaderBytes + i]];
      i := i + 1;
    }
    assert result[..] == result[..size] + [result[size]];
  }

  /**
   * An expanding ArcCtrl of type ct over src, started at bit 136 with a
   * budget of srcSize bits, decoding into the first size bytes of result.
   * written is the final dst_pos; the byte at size is left alone.
   */
  method Decode(src: seq<byte>, ct: nat, srcSize: nat, result: array<byte>, size: nat) returns (e: Option<ExpandError>, written: nat)
    requires ct == Ct7Bit || ct == Ct8Bit
    requires result.Length == size + 1
    modifies result
    ensures var g := ExpandCodes(src, srcSize, size, DecState(Init(ct), 8 * Container.HeaderBytes, [], [], NoCode, 0));
            && (e.None? <==> g.Ok?) && (g.Err? ==> e == Some(g.error))
            && (g.Ok? ==> written <= size && written == |g.value.out| && result[..written] == g.value.out)
    ensures result[size] == old(result[size])
  {
    var c := new Control.ArcCtrl(true, ct, src, srcSize, result, size);
    c.srcPos := 8 * Container.HeaderBytes;
    ghost var ds := DecState(Init(ct), 8 * Container.HeaderBytes, [], [], NoCode, 0);
    InitInv(ct);
    assert c.stk[..c.stkPtr] == [] && result[..c.dstPos] == [];
    e := c.ExpandBuf(ds);
    written := c.dstPos;
  }

  /**
   * The coded case of ExpandBuf: a fresh buffer of size + 1 bytes whose
   * last byte is the terminator, the bits budget compressed_size * 8 (a
   * DWORD product), and the decoder run over the whole container.
   */
  method CodedBody(arc: array<byte>, ct: nat, size: nat) returns (r: Result<array<byte>, ExpandError>)
    requires arc.Length >= Container.HeaderBytes && (ct == Ct7Bit || ct == Ct8Bit)
    ensures var g := ExpandCodes(arc[..], (Container.ReadLe32(arc[..], 0) * 8) % Container.DwordRange, size,
                                 DecState(Init(ct), 8 * Container.HeaderBytes, [], [], NoCode, 0));
            && (g.Err? ==> r == Err(g.error))
            && (g.Ok? && |g.value.out| != size ==> r == Err(Incomplete(|g.value.out|)))
            && (g.Ok? && |g.value.out| == size ==> r.Ok? && fresh(r.value) && r.value[..] == g.value.out + [0])
  {
    var result := new byte[size + 1];
    result[size] := 0;
    var srcSize := (Container.ReadLe32(arc[..], 0) * 8) % Container.DwordRange;
    var e, written := Decode(arc[..], ct, srcSize, result, size);
    if e.Some? {
      return Err(e.value);
    }
    if written != size {
      return Err(Incomplete(written));
    }
    assert result[..] == result[..size] + [result[size]];
    return Ok(result);
  }

  /**
   * ExpandBuf: the result buffer of expanded_size + 1 bytes ending in the
   * terminator, filled by copying a stored body or by decoding a coded one;
   * a container shorter than its header is an overread.
   */
  method ExpandBuf(arc: array<byte>) returns (r: Result<array<byte>, ExpandError>)
    ensures var g := Container.ExpandBuf(arc[..]);
            && (r.Ok? <==> g.Ok?) && (g.Err? ==> r == Err(g.error))
            && (g.Ok? ==> fresh(r.value) && r.value[..] == g.value)
  {
    if arc.Length < Container.HeaderBytes {
      return Err(Overread);
    }
    var ct := arc[16];
    var size := Container.ReadLe32(arc[..], 8);
    if !(CtNone <= ct <= Ct8Bit) || size >= Container.ExpandLimit {
      return Err(Rejected);
    }
    if ct == CtNone {
      if Container.HeaderBytes + size > arc.Length {
        return Err(Overread);
      }
      var result := CopyStored(arc, size);
      return Ok(result);
    }
    r := CodedBody(arc, ct, size);
  }

  /**
   * decompress: a private copy of the compressed_size bytes, whose header's
   * expanded_size is returned as size; ExpandBuf runs only when the header's
   * compressed_size equals the length given and the compression type is 1
   * to 3.  short is an input too small to hold the header.
   */
  method Decompress(compressed: array<byte>) returns (short: bool, size: nat, out: Result<array<byte>, ExpandError>)
    ensures var g := Container.Decompress(compressed[..]);
            && short == g.ShortInput?
            && (!short ==> size == g.size && (out.Ok? <==> g.result.Ok?)
                           && (g.result.Err? ==> out == Err(g.result.error))
                           && (g.result.Ok? ==> fresh(out.value) && out.value[..] == g.result.value))
  {
    if compressed.Length < Container.HeaderBytes {
      return true, 0, Err(Overread);
    }
    var arc := CopyPrefix(compressed, compressed.Length);
    assert arc[..] == compressed[..];
    size := Container.ReadLe32(arc[..], 8);
    short := false;
    if Container.ReadLe32(arc[..], 0) == arc.Length && 0 < arc[16] <= 3 {
      out := ExpandBuf(arc);
    } else {
      out := Err(HeaderMismatch);
    }
  }
}
