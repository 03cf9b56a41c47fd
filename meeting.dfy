/**
 * The states in which the compressor and the decompressor meet while the
 * round trip is followed pass by pass.
 */
module Meeting {
  import opened BitField
  import opened Dictionary
  import opened DictionaryFacts
  import opened Lzw

  /** Two buffers agree on the bits at positions lo .. hi. */
  ghost predicate SameBits(a: seq<byte>, b: seq<byte>, lo: nat, hi: nat)
  {
    hi <= 8 * |a| && hi <= 8 * |b| && forall n | lo <= n < hi :: Bt(n, a) == Bt(n, b)
  }

  /** The compressor and decompressor states that meet at the start of the phrase at src[start]. */
  ghost predicate Rel(src: seq<byte>, dstSize: nat, st: EncState, ds: DecState, strs: seq<seq<byte>>, start: nat, prevStart: nat)
  {
    && EncReady(st, dstSize) && DecReady(ds) && Inv(ds.d, strs) && !ds.d.entryUsed
    && (forall i | 0 <= i < |src| :: src[i] < ds.d.minTableEntry)
    && prevStart < start < |src| && st.srcPos == start + 1 && st.basecode == src[start]
    && Live(ds.d, ds.lastCode) && Str(ds.d, strs, ds.lastCode) == src[prevStart..start] && ds.lastCh == src[prevStart]
    && st.d == Link(ds.d, ds.lastCode, src[start])
    && ds.out == src[..start] && ds.stack == [] && ds.srcPos == st.dstPos
    && ClearFrom(st.dst, st.dstPos)
  }

  /** The string table after the compressor's pass on the phrase at src[start]. */
  ghost function NextStrs(ds: DecState, strs: seq<seq<byte>>, src: seq<byte>, start: nat): seq<seq<byte>>
    requires Wf(ds.d) && |strs| == TableSize && ds.lastCode < TableSize && 0 <= ds.d.curEntry && start < |src|
  {
    strs[ds.d.curEntry := Str(ds.d, strs, ds.lastCode) + [src[start]]]
  }
}
