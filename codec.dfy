/**
 * decompress undoes compress: for every input that compress accepts and
 * whose container is stored, or coded with every bit below the int range of
 * Bt's index, the container, passed with its own length, decompresses to
 * the input followed by ExpandBuf's 0 terminator, and the size returned is
 * the input's length.  The coded path starts both loops on their first code
 * and hands over to the pass-by-pass simulation of RoundTrip.Sim.
 */
module Codec {
  import opened BitField
  import opened Optional
  import opened Dictionary
  import opened DictionaryFacts
  import opened Lzw
  import opened LzwFacts
  import opened Meeting
  import opened RoundTrip
  import opened Container

  /** The control block of ArcCtrlNew hands out its first slot on the first ArcEntryGet without touching the chains. */
  lemma FirstEntry(ct: nat) returns (e: Dict)
    ensures EntryGet(Init(ct)) == Some(e)
    ensures e.hash == Init(ct).hash && e.curBits == Init(ct).nextBits && e.curBits == e.minBits + 1
    ensures e.minTableEntry == Init(ct).minTableEntry && Ready(e) && e.curEntry >= 0
    ensures Inv(e, seq(TableSize, _ => [])) && !e.entryUsed
  {
    Pow2Values();
    InitInv(ct);
    EntryGetFresh(Init(ct), seq(TableSize, _ => []));
    e := EntryGet(Init(ct)).value;
  }

  /** The bits of a container from bit 136 on are those of the buffer its body was cut from. */
  lemma BodyBits(arc: seq<byte>, buf: seq<byte>, hi: nat)
    requires |arc| >= HeaderBytes && |arc| <= |buf| && arc[HeaderBytes..] == buf[HeaderBytes..|arc|]
    requires hi <= 8 * |arc|
    ensures SameBits(arc, buf, 8 * HeaderBytes, hi)
  {
    forall n | 8 * HeaderBytes <= n < hi
      ensures Bt(n, arc) == Bt(n, buf)
    {
      assert arc[n / 8] == arc[HeaderBytes..][n / 8 - HeaderBytes];
    }
  }

  /** ArcExpandBuf's first call reads the first code as a literal, writes it, and gets the first slot. */
  lemma ExpandFirst(arc: seq<byte>, srcSize: nat, room: nat, d0: Dict, c: nat, e: Dict, ds1: DecState)
    requires Ready(d0) && EntryGet(d0) == Some(e) && e.curEntry >= 0 && Ready(e)
    requires 8 * HeaderBytes + d0.nextBits <= 8 * |arc| && 0 < room
    requires FieldValue(arc, 8 * HeaderBytes, d0.nextBits) == c && c < 256
    requires ds1.d == e && ds1.srcPos == 8 * HeaderBytes + d0.nextBits && ds1.stack == []
    requires ds1.out == [c] && ds1.lastCode == c && ds1.lastCh == c
    ensures DecReady(ds1)
    ensures ExpandCodes(arc, srcSize, room, DecState(d0, 8 * HeaderBytes, [], [], NoCode, 0))
            == DecodeLoop(arc, srcSize, room, ds1)
  {
    SmallMod(c);
    var ds0 := DecState(d0, 8 * HeaderBytes, [], [], NoCode, 0);
    assert [] + [c % 256] == [c];
    assert ds1 == DecState(e, ds0.srcPos + d0.nextBits, [], [] + [c % 256], c, c);
    assert Pop(ds0.stack, ds0.out, room) == ([], []);
    ExpandFirstOk(arc, srcSize, room, ds0, [], c, e, ds1);
  }

  /** The meeting point after the first code: the compressor is at the phrase at src[1], the decompressor has written src[0]. */
  lemma FirstRel(src: seq<byte>, dstSize: nat, e: Dict, st1: EncState, ds1: DecState)
    requires 2 <= |src| && Inv(e, seq(TableSize, _ => [])) && !e.entryUsed && Ready(e) && e.curEntry >= 0
    requires forall i | 0 <= i < |src| :: src[i] < e.minTableEntry
    requires EncReady(st1, dstSize) && ClearFrom(st1.dst, st1.dstPos)
    requires st1.d == Link(e, src[0], src[1]) && st1.basecode == src[1] && st1.srcPos == 2
    requires ds1 == DecState(e, st1.dstPos, [], [src[0]], src[0], src[0])
    ensures Rel(src, dstSize, st1, ds1, seq(TableSize, _ => []), 1, 0)
  {
    assert src[..1] == [src[0]] && src[0..1] == [src[0]];
  }

  /** The first pass of compress's loop finds no phrase longer than src[0], since every chain is still empty. */
  lemma FirstMatch(src: seq<byte>, e: Dict)
    requires 2 <= |src| && Wf(e) && src[0] < TableSize && e.hash[src[0]] == []
    ensures Match(e, src, src[0], 1) == Miss(src[0], src[1], 2)
  {
  }

  /** The coded pass from its first code on, for inputs of two or more bytes. */
  lemma CodedLong(src: seq<byte>, arc: seq<byte>, e: Dict)
    requires |src| >= 2 && Finished(src).Some? && EntryGet(Init(CompressionType(src))) == Some(e)
    requires SameBits(arc, Finished(src).value.dst, 8 * HeaderBytes, Finished(src).value.dstPos)
    requires Finished(src).value.dstPos <= 8 * |arc| && 8 * |arc| <= IntBitLimit
    ensures 8 * HeaderBytes + e.curBits <= Finished(src).value.dstPos
    ensures FieldValue(arc, 8 * HeaderBytes, e.curBits) == src[0]
    ensures var ds1 := DecState(e, 8 * HeaderBytes + e.curBits, [], [src[0]], src[0], src[0]);
            DecodeLoop(arc, 8 * |arc|, |src|, ds1).Ok? && DecodeLoop(arc, 8 * |arc|, |src|, ds1).value.out == src
  {
    var ct := CompressionType(src);
    var e' := StartFacts(src);
    var st0 := StartState(src);
    var r := CompressLoop(src, DstSize(src), st0).value;
    var fin := Finished(src).value;
    FirstMatch(src, e);
    var st1 := FirstCodeBack(src, DstSize(src), st0, r, fin, arc, e);
    var ds1 := DecState(e, st0.dstPos + e.curBits, [], [src[0]], src[0], src[0]);
    CodedRest(src, DstSize(src), ct, st1, ds1, e, fin, arc);
  }

  /** The compressor's first code, for inputs of two or more bytes: src[0] at the start of the body, and the state after it. */
  lemma FirstCodeBack(src: seq<byte>, dstSize: nat, st0: EncState, r: EncState, fin: EncState, arc: seq<byte>, e: Dict)
    returns (st1: EncState)
    requires |src| >= 2 && EncReady(st0, dstSize)
    requires st0.srcPos == 1 && st0.basecode == src[0] && st0.dstPos + st0.d.curBits <= dstSize
    requires ClearFrom(st0.dst, st0.dstPos)
    requires CompressLoop(src, dstSize, st0) == Some(r)
    requires FinishCompression(r, dstSize) == Some(fin) && r.srcPos >= |src|
    requires SameBits(arc, fin.dst, st0.dstPos, fin.dstPos)
    requires EntryGet(st0.d) == Some(e) && Match(e, src, src[0], 1) == Miss(src[0], src[1], 2)
    requires src[0] < Pow2(e.curBits)
    ensures CodedMiss(src, dstSize, st0, e, fin, arc, Miss(src[0], src[1], 2), st1)
    ensures SameBits(arc, fin.dst, st1.dstPos, fin.dstPos)
  {
    var m := Miss(src[0], src[1], 2);
    st1 := LoopCodeBack(src, dstSize, st0, e, fin, arc, m);
    SameBitsFrom(arc, fin.dst, st0.dstPos, st1.dstPos, fin.dstPos);
  }

  /** From the meeting point after the first code, the decoder writes the whole input. */
  lemma CodedRest(src: seq<byte>, dstSize: nat, ct: nat, st1: EncState, ds1: DecState, e: Dict, fin: EncState, arc: seq<byte>)
    requires 2 <= |src| && EntryGet(Init(ct)) == Some(e)
    requires forall i | 0 <= i < |src| :: src[i] < e.minTableEntry
    requires EncReady(st1, dstSize) && ClearFrom(st1.dst, st1.dstPos)
    requires st1.d == Link(e, src[0], src[1]) && st1.basecode == src[1] && st1.srcPos == 2
    requires CompressLoop(src, dstSize, st1).Some? && CompressLoop(src, dstSize, st1).value.srcPos >= |src|
    requires FinishCompression(CompressLoop(src, dstSize, st1).value, dstSize) == Some(fin)
    requires SameBits(arc, fin.dst, st1.dstPos, fin.dstPos) && fin.dstPos <= 8 * |arc| && 8 * |arc| <= IntBitLimit
    requires ds1 == DecState(e, st1.dstPos, [], [src[0]], src[0], src[0])
    ensures DecodeLoop(arc, 8 * |arc|, |src|, ds1).Ok? && DecodeLoop(arc, 8 * |arc|, |src|, ds1).value.out == src
  {
    var e' := FirstEntry(ct);
    FirstRel(src, dstSize, e, st1, ds1);
    Sim(src, dstSize, st1, ds1, seq(TableSize, _ => []), 1, 0, arc, 8 * |arc|, fin);
  }

  /** A buffer of zero bytes is clear. */
  lemma ZeroClear(len: nat, from: nat)
    ensures ClearFrom(seq(len, _ => 0), from)
  {
    var z := seq(len, _ => 0);
    forall n | from <= n < 8 * len
      ensures !Bt(n, z)
    {
      BitOfZero(n % 8);
    }
  }

  lemma OneByte(src: seq<byte>)
    requires |src| == 1
    ensures src == [src[0]]
  {
  }

  /** What the coder starts from in compress, and the first slot it gets. */
  lemma StartFacts(src: seq<byte>) returns (e: Dict)
    ensures EncReady(StartState(src), DstSize(src)) && CompressLoop(src, DstSize(src), StartState(src)).Some?
    ensures StartState(src).d == Init(CompressionType(src)) && StartState(src).srcPos == 1
    ensures StartState(src).dstPos == 8 * HeaderBytes && ClearFrom(StartState(src).dst, StartState(src).dstPos)
    ensures 0 < |src| ==> StartState(src).basecode == src[0]
    ensures 0 < |src| ==> StartState(src).dstPos + StartState(src).d.curBits <= DstSize(src)
    ensures EntryGet(Init(CompressionType(src))) == Some(e) && forall p | 0 <= p < TableSize :: e.hash[p] == []
    ensures e.curBits == Init(CompressionType(src)).nextBits && e.minTableEntry == Init(CompressionType(src)).minTableEntry
    ensures Ready(e) && e.curEntry >= 0 && Inv(e, seq(TableSize, _ => [])) && !e.entryUsed
    ensures forall i | 0 <= i < |src| :: src[i] < e.minTableEntry
    ensures forall i | 0 <= i < |src| :: src[i] < Pow2(e.curBits)
  {
    var ct := CompressionType(src);
    StartReady(src);
    e := FirstEntry(ct);
    Pow2Values();
    Pow2Mono(e.minBits, e.curBits);
    ZeroClear(|src| + ArcSize + 4, 8 * HeaderBytes);
  }

  /** The coded path decodes: ArcExpandBuf from bit 136 of the coded container writes the whole input. */
  lemma CodedDecode(src: seq<byte>, arc: seq<byte>)
    requires 0 < |src| && Finished(src).Some?
    requires SameBits(arc, Finished(src).value.dst, 8 * HeaderBytes, Finished(src).value.dstPos)
    requires Finished(src).value.dstPos <= 8 * |arc| && 8 * |arc| <= IntBitLimit
    ensures var ds0 := DecState(Init(CompressionType(src)), 8 * HeaderBytes, [], [], NoCode, 0);
            ExpandCodes(arc, 8 * |arc|, |src|, ds0).Ok? && ExpandCodes(arc, 8 * |arc|, |src|, ds0).value.out == src
  {
    var ct := CompressionType(src);
    var e := StartFacts(src);
    var d0 := Init(ct);
    var st0 := StartState(src);
    var fin := Finished(src).value;
    var ds1 := DecState(e, 8 * HeaderBytes + e.curBits, [], [src[0]], src[0], src[0]);
    if |src| == 1 {
      assert CompressLoop(src, DstSize(src), st0).value == st0;
      FinishCodeBack(st0, DstSize(src), fin, arc, d0.nextBits);
      ExpandFirst(arc, 8 * |arc|, 1, d0, src[0], e, ds1);
      LoopStop(arc, 8 * |arc|, 1, ds1);
      OneByte(src);
    } else {
      CodedLong(src, arc, e);
      ExpandFirst(arc, 8 * |arc|, |src|, d0, src[0], e, ds1);
    }
  }

  /** The coded container decompresses to the input and its terminator. */
  lemma CodedRoundTrip(src: seq<byte>)
    requires |src| + 20 < ExpandLimit && Finished(src).Some? && IntIndexed(src)
    ensures Decompress(Compress(src)) == Decompressed(|src|, Ok(src + [0]))
  {
    var ct := CompressionType(src);
    var fin := Finished(src).value;
    var arc := Compress(src);
    CompressShape(src);
    BodyBits(arc, fin.dst, fin.dstPos);
    CodedDecode(src, arc);
    DecompressCoded(arc, |src|, ct as byte, src);
  }

  /** The stored container decompresses to the input and its terminator. */
  lemma StoredRoundTrip(src: seq<byte>)
    requires |src| + 20 < ExpandLimit && Finished(src).None?
    ensures Decompress(Compress(src)) == Decompressed(|src|, Ok(src + [0]))
  {
    CompressShape(src);
    DecompressStored(Compress(src), |src|, src);
  }

  /**
   * decompress(compress(s)) yields s: the container compress produces,
   * passed with its own length (the compressed_size compress returns),
   * expands to the input followed by a 0 byte, and decompress returns the
   * input's length.  A coded container must keep its bits below
   * IntBitLimit, which every input of fewer than IntBitLimit / 8 - 20 bytes
   * does (Container.ShortIntIndexed).
   */
  lemma CompressDecompress(src: seq<byte>)
    requires |src| + 20 < ExpandLimit && IntIndexed(src)
    ensures Decompress(Compress(src)) == Decompressed(|src|, Ok(src + [0]))
  {
    if Finished(src).Some? {
      CodedRoundTrip(src);
    } else {
      StoredRoundTrip(src);
    }
  }
}
