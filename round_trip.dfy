/**
 * The decompressor undoes the compressor.  The proof follows the two loops
 * side by side: when the compressor is about to look for the phrase that
 * starts at src[start], the decompressor has written src[..start], its
 * table is the compressor's table of the previous pass, its previous code
 * stands for the previous phrase src[prevStart..start], and the
 * compressor's table is that table with the previous phrase followed by
 * src[start] entered (the entry the decompressor makes on its next code).
 */
module RoundTrip {
  import opened BitField
  import opened Optional
  import opened Dictionary
  import opened DictionaryFacts
  import opened Lzw
  import opened LzwFacts
  import opened Meeting

  lemma SmallMod(x: nat)
    requires x < 256
    ensures x % 256 == x
  {
  }

  /** Reading back a code whose bits another buffer holds. */
  lemma ReadCodeBack(arc: seq<byte>, buf: seq<byte>, pos: nat, w: nat, c: nat, hi: nat)
    requires pos + w <= hi && SameBits(arc, buf, pos, hi) && c < Pow2(w)
    requires forall i | 0 <= i < w :: Bt(pos + i, buf) == BitOf(c, i)
    ensures FieldValue(arc, pos, w) == c
  {
    forall i | 0 <= i < w
      ensures Bt(pos + i, arc) == BitOf(c, i)
    {
    }
    ReadBack(arc, pos, w, c);
  }

  /** What one decoding pass computes, given the code it reads, the result of its walk and of ArcEntryGet. */
  lemma DecodeStepIs(src: seq<byte>, room: nat, ds: DecState, c: nat, stack: seq<byte>, ch: nat, d1: Dict)
    requires DecReady(ds) && ds.srcPos + ds.d.nextBits <= 8 * |src| && FieldValue(src, ds.srcPos, ds.d.nextBits) == c && c < TableSize
    requires !(ds.d.curEntry == c && |ds.stack| >= StackSize)
    requires Walk(ds.d, if ds.d.curEntry == c then ds.stack + [ds.lastCh % 256] else ds.stack,
                  if ds.d.curEntry == c then ds.lastCode else c) == Ok((stack, ch))
    requires ch < 256 && EntryGet(Link(ds.d, ds.lastCode, ch)) == Some(d1)
    ensures DecodeStep(src, room, ds)
            == Ok(DecState(d1, ds.srcPos + ds.d.nextBits, Pop(stack, ds.out, room).0, Pop(stack, ds.out, room).1, c, ch))
  {
  }

  /**
   * The decompressor's step on a code c that the compressor emitted for the
   * phrase src[start..end]: it writes that phrase and ends with the
   * compressor's table after the same pass.
   */
  lemma DecodeStepOk(src: seq<byte>, arc: seq<byte>, ds: DecState, strs: seq<seq<byte>>, strs1: seq<seq<byte>>,
                     prevStart: nat, start: nat, end: nat, c: nat)
    requires DecReady(ds) && Inv(ds.d, strs) && !ds.d.entryUsed
    requires forall i | 0 <= i < |src| :: src[i] < ds.d.minTableEntry
    requires prevStart < start < end <= |src|
    requires Live(ds.d, ds.lastCode) && Str(ds.d, strs, ds.lastCode) == src[prevStart..start] && ds.lastCh == src[prevStart]
    requires ds.out == src[..start] && ds.stack == []
    requires ds.srcPos + ds.d.nextBits <= 8 * |arc| && FieldValue(arc, ds.srcPos, ds.d.nextBits) == c
    requires strs1 == strs[ds.d.curEntry := Str(ds.d, strs, ds.lastCode) + [src[start]]]
    requires EntryGet(Link(ds.d, ds.lastCode, src[start])).Some?
    requires c < TableSize
    requires Live(EntryGet(Link(ds.d, ds.lastCode, src[start])).value, c)
    requires Str(EntryGet(Link(ds.d, ds.lastCode, src[start])).value, strs1, c) == src[start..end]
    ensures DecodeStep(arc, |src|, ds)
            == Ok(DecState(EntryGet(Link(ds.d, ds.lastCode, src[start])).value, ds.srcPos + ds.d.nextBits, [], src[..end], c, src[start]))
  {
    if c == ds.d.curEntry {
      KwkStep(src, arc, ds, strs, strs1, prevStart, start, end, c);
    } else {
      PlainStep(src, arc, ds, strs, strs1, prevStart, start, end, c);
    }
  }

  /** The case of a code other than the current slot: it is live in the decompressor's table with the same string. */
  lemma PlainStep(src: seq<byte>, arc: seq<byte>, ds: DecState, strs: seq<seq<byte>>, strs1: seq<seq<byte>>,
                  prevStart: nat, start: nat, end: nat, c: nat)
    requires DecReady(ds) && Inv(ds.d, strs) && !ds.d.entryUsed
    requires forall i | 0 <= i < |src| :: src[i] < ds.d.minTableEntry
    requires prevStart < start < end <= |src|
    requires Live(ds.d, ds.lastCode)
    requires ds.out == src[..start] && ds.stack == []
    requires ds.srcPos + ds.d.nextBits <= 8 * |arc| && FieldValue(arc, ds.srcPos, ds.d.nextBits) == c
    requires strs1 == strs[ds.d.curEntry := Str(ds.d, strs, ds.lastCode) + [src[start]]]
    requires EntryGet(Link(ds.d, ds.lastCode, src[start])).Some?
    requires c < TableSize && c != ds.d.curEntry
    requires Live(EntryGet(Link(ds.d, ds.lastCode, src[start])).value, c)
    requires Str(EntryGet(Link(ds.d, ds.lastCode, src[start])).value, strs1, c) == src[start..end]
    ensures DecodeStep(arc, |src|, ds)
            == Ok(DecState(EntryGet(Link(ds.d, ds.lastCode, src[start])).value, ds.srcPos + ds.d.nextBits, [], src[..end], c, src[start]))
  {
    var a := ds.d;
    var e := Link(a, ds.lastCode, src[start]);
    StillLive(a, strs, strs1, ds.lastCode, src[start], c);
    WalkPhrase(a, strs, c, src, start, end);
    PopPhrase(src, start, end, Reverse(src[start..end]));
    DecodeStepIs(arc, |src|, ds, c, Reverse(src[start..end]), src[start], EntryGet(e).value);
  }

  /** Expanding a live code for src[start..end] on an empty stack. */
  lemma WalkPhrase(a: Dict, strs: seq<seq<byte>>, c: nat, src: seq<byte>, start: nat, end: nat)
    requires Inv(a, strs) && c < TableSize && Live(a, c) && start < end <= |src| && Str(a, strs, c) == src[start..end]
    ensures Walk(a, [], c) == Ok((Reverse(src[start..end]), src[start]))
  {
    StrBound(a, strs, c);
    WalkStr(a, strs, [], c);
    assert [] + Reverse(src[start..end]) == Reverse(src[start..end]);
  }

  /** Popping a phrase pushed in reverse appends it to the output written so far. */
  lemma PopPhrase(src: seq<byte>, start: nat, end: nat, stack: seq<byte>)
    requires start <= end <= |src| && stack == Reverse(src[start..end])
    ensures Pop(stack, src[..start], |src|) == ([], src[..end])
  {
    ReverseReverse(src[start..end]);
    PopAll(stack, src[..start], |src|);
    assert src[..start] + src[start..end] == src[..end];
  }

  /**
   * A code live after the link step and ArcEntryGet, other than the slot
   * just filled, was live before them and stood for the same string.
   */
  lemma StillLive(a: Dict, strs: seq<seq<byte>>, strs1: seq<seq<byte>>, p: nat, ch: byte, c: nat)
    requires Inv(a, strs) && !a.entryUsed && p < TableSize && Live(a, p)
    requires strs1 == strs[a.curEntry := Str(a, strs, p) + [ch]]
    requires EntryGet(Link(a, p, ch)).Some?
    requires c < TableSize && c != a.curEntry && Live(EntryGet(Link(a, p, ch)).value, c)
    ensures Live(a, c) && Str(a, strs, c) == Str(EntryGet(Link(a, p, ch)).value, strs1, c)
  {
    LinkInv(a, strs, p, ch);
    EntryGetInv(Link(a, p, ch), strs1);
  }

  /** The case of a code equal to the current slot: it stands for the previous phrase followed by its own first byte. */
  lemma KwkStep(src: seq<byte>, arc: seq<byte>, ds: DecState, strs: seq<seq<byte>>, strs1: seq<seq<byte>>,
                prevStart: nat, start: nat, end: nat, c: nat)
    requires DecReady(ds) && Inv(ds.d, strs) && !ds.d.entryUsed
    requires prevStart < start < end <= |src|
    requires Live(ds.d, ds.lastCode) && Str(ds.d, strs, ds.lastCode) == src[prevStart..start] && ds.lastCh == src[prevStart]
    requires ds.out == src[..start] && ds.stack == []
    requires ds.srcPos + ds.d.nextBits <= 8 * |arc| && FieldValue(arc, ds.srcPos, ds.d.nextBits) == c
    requires strs1 == strs[ds.d.curEntry := Str(ds.d, strs, ds.lastCode) + [src[start]]]
    requires c == ds.d.curEntry
    requires EntryGet(Link(ds.d, ds.lastCode, src[start])).Some?
    requires Str(EntryGet(Link(ds.d, ds.lastCode, src[start])).value, strs1, c) == src[start..end]
    ensures DecodeStep(arc, |src|, ds)
            == Ok(DecState(EntryGet(Link(ds.d, ds.lastCode, src[start])).value, ds.srcPos + ds.d.nextBits, [], src[..end], c, src[start]))
  {
    KwkPhrase(ds.d, strs, strs1, ds.lastCode, c, src, prevStart, start, end);
    KwkWalk(ds.d, strs, ds.lastCode, src, prevStart, start, end);
    KwkDecode(src, arc, ds, prevStart, start, end, c);
  }

  /** The slot just filled stands for the previous phrase and the byte after it, so the phrase repeats its first byte. */
  lemma KwkPhrase(a: Dict, strs: seq<seq<byte>>, strs1: seq<seq<byte>>, last: nat, c: nat, src: seq<byte>,
                  prevStart: nat, start: nat, end: nat)
    requires Inv(a, strs) && !a.entryUsed && last < TableSize && Live(a, last)
    requires prevStart < start < end <= |src| && Str(a, strs, last) == src[prevStart..start]
    requires strs1 == strs[a.curEntry := Str(a, strs, last) + [src[start]]]
    requires c == a.curEntry
    requires EntryGet(Link(a, last, src[start])).Some?
    requires Str(EntryGet(Link(a, last, src[start])).value, strs1, c) == src[start..end]
    ensures src[start..end] == src[prevStart..start] + [src[prevStart]] && src[start] == src[prevStart]
  {
    LinkPre(a, strs, last);
    var prev := src[prevStart..start];
    assert strs1[c] == prev + [src[start]];
    assert src[start..end] == prev + [src[start]];
    assert src[start..end][0] == src[start] && prev[0] == src[prevStart];
  }

  /** The decoding pass on the current slot, once the walk of the previous code is known. */
  lemma KwkDecode(src: seq<byte>, arc: seq<byte>, ds: DecState, prevStart: nat, start: nat, end: nat, c: nat)
    requires DecReady(ds) && prevStart < start < end <= |src|
    requires ds.lastCh == src[prevStart] && ds.out == src[..start] && ds.stack == []
    requires ds.srcPos + ds.d.nextBits <= 8 * |arc| && FieldValue(arc, ds.srcPos, ds.d.nextBits) == c
    requires c == ds.d.curEntry && src[start] == src[prevStart]
    requires Walk(ds.d, [src[prevStart]], ds.lastCode) == Ok(([src[prevStart]] + Reverse(src[prevStart..start]), src[prevStart]))
    requires [src[prevStart]] + Reverse(src[prevStart..start]) == Reverse(src[start..end])
    requires EntryGet(Link(ds.d, ds.lastCode, src[start])).Some?
    ensures DecodeStep(arc, |src|, ds)
            == Ok(DecState(EntryGet(Link(ds.d, ds.lastCode, src[start])).value, ds.srcPos + ds.d.nextBits, [], src[..end], c, src[start]))
  {
    var stack := [src[prevStart]] + Reverse(src[prevStart..start]);
    PopPhrase(src, start, end, stack);
    SmallMod(ds.lastCh);
    assert ds.stack + [ds.lastCh % 256] == [src[prevStart]];
    DecodeStepIs(arc, |src|, ds, c, stack, src[prevStart], EntryGet(Link(ds.d, ds.lastCode, src[start])).value);
  }

  /** Expanding the previous code on top of its own first byte pushes the phrase that repeats it. */
  lemma KwkWalk(a: Dict, strs: seq<seq<byte>>, last: nat, src: seq<byte>, prevStart: nat, start: nat, end: nat)
    requires Inv(a, strs) && last < TableSize && Live(a, last)
    requires prevStart < start < end <= |src| && Str(a, strs, last) == src[prevStart..start]
    requires src[start..end] == src[prevStart..start] + [src[prevStart]]
    ensures Walk(a, [src[prevStart]], last) == Ok(([src[prevStart]] + Reverse(src[prevStart..start]), src[prevStart]))
    ensures [src[prevStart]] + Reverse(src[prevStart..start]) == Reverse(src[start..end])
  {
    var prev := src[prevStart..start];
    StrBound(a, strs, last);
    WalkStr(a, strs, [src[prevStart]], last);
    assert (prev + [src[prevStart]])[..|prev|] == prev;
  }


  /**
   * At the meeting point, the compressor's ArcEntryGet yields the table the
   * decompressor reaches after its next code, with the invariant for the
   * strings after the pass, a fresh slot, codes as wide as the decompressor
   * reads next, and every live code fitting that width.
   */
  lemma NextTable(src: seq<byte>, dstSize: nat, st: EncState, ds: DecState, strs: seq<seq<byte>>, start: nat, prevStart: nat)
    returns (e: Dict, strs': seq<seq<byte>>)
    requires Rel(src, dstSize, st, ds, strs, start, prevStart)
    ensures EntryGet(st.d) == Some(e) && strs' == NextStrs(ds, strs, src, start)
    ensures Inv(e, strs') && !e.entryUsed && Ready(e) && e.curEntry >= 0
    ensures e.curBits == ds.d.nextBits && e.minTableEntry == ds.d.minTableEntry
    ensures forall c: nat | Live(e, c) :: c < Pow2(e.curBits)
  {
    strs' := NextStrs(ds, strs, src, start);
    LinkInv(ds.d, strs, ds.lastCode, src[start]);
    EntryGetInv(st.d, strs');
    e := EntryGet(st.d).value;
  }

  /**
   * The phrase search from a literal src[start]: its code is live, fits the
   * width it is written with, and stands for the phrase from src[start] to
   * where the search stopped.
   */
  lemma MatchFrom(e: Dict, strs: seq<seq<byte>>, src: seq<byte>, start: nat, lit: nat, b: nat, p: nat) returns (m: MatchResult, end: nat)
    requires Inv(e, strs) && start < |src| && e.minTableEntry == lit && (forall i | 0 <= i < |src| :: src[i] < lit)
    requires b == src[start] && p == start + 1
    requires forall c: nat | Live(e, c) :: c < Pow2(e.curBits)
    ensures m == Match(e, src, b, p) && Live(e, m.code) && m.code < Pow2(e.curBits) && m.code < TableSize
    ensures m.Exhausted? ==> m.next == |src| && Str(e, strs, m.code) == src[start..|src|]
    ensures m.Miss? ==> m.next == end + 1 && start < end < |src| && m.ch == src[end] && Str(e, strs, m.code) == src[start..end]
  {
    assert src[start..start + 1] == [src[start]];
    m := MatchStr(e, strs, src, src[start], start + 1, start);
    assert src[start..] == src[start..|src|];
    end := if m.Miss? then m.next - 1 else start;
  }

  /** Bits that later writes left alone still agree with the final buffer. */
  lemma SameBitsBack(arc: seq<byte>, fin: seq<byte>, mid: seq<byte>, buf: seq<byte>,
                     lo: nat, hi: nat, midPos: nat, bufPos: nat, top: nat)
    requires SameBits(arc, fin, lo, top) && SameBelow(buf, mid, bufPos) && SameBelow(mid, fin, midPos)
    requires hi <= bufPos <= midPos && hi <= top
    ensures SameBits(arc, buf, lo, hi)
  {
  }

  /** Agreeing on a range of bits means agreeing on every range inside it. */
  lemma SameBitsFrom(a: seq<byte>, b: seq<byte>, lo: nat, mid: nat, hi: nat)
    requires SameBits(a, b, lo, hi) && lo <= mid
    ensures SameBits(a, b, mid, hi)
  {
  }

  /**
   * The decompressor's pass on the code the compressor emitted for the
   * phrase src[start..end] at the meeting point: the decoding loop goes on
   * from the state that has written that phrase and holds the compressor's
   * table of the same pass.
   */
  lemma MeetStep(src: seq<byte>, dstSize: nat, st: EncState, ds: DecState, strs: seq<seq<byte>>, start: nat, prevStart: nat,
                 arc: seq<byte>, srcSize: nat, e: Dict, strs': seq<seq<byte>>, c: nat, end: nat)
    returns (ds': DecState)
    requires Rel(src, dstSize, st, ds, strs, start, prevStart)
    requires EntryGet(st.d) == Some(e) && strs' == NextStrs(ds, strs, src, start) && e.curBits == ds.d.nextBits
    requires Ready(e) && e.curEntry >= 0
    requires start < end <= |src| && c < TableSize && Live(e, c) && Str(e, strs', c) == src[start..end]
    requires st.dstPos + e.curBits <= srcSize && st.dstPos + e.curBits <= 8 * |arc| && srcSize <= IntBitLimit
    requires FieldValue(arc, st.dstPos, e.curBits) == c
    ensures ds'.d == e && ds'.srcPos == st.dstPos + e.curBits && ds'.stack == [] && ds'.out == src[..end]
    ensures ds'.lastCode == c && ds'.lastCh == src[start] && DecReady(ds')
    ensures DecodeLoop(arc, srcSize, |src|, ds) == DecodeLoop(arc, srcSize, |src|, ds')
  {
    ds' := DecState(e, st.dstPos + e.curBits, [], src[..end], c, src[start]);
    DecodeStepOk(src, arc, ds, strs, strs', prevStart, start, end, c);
    LoopStep(arc, srcSize, |src|, ds, ds');
  }

  /**
   * The code ArcFinishCompression ORs into a clear tail reads back, at any
   * width it fits that is at most the width ArcFinishCompression advances
   * by, from any buffer with the same bits.
   */
  lemma FinishCodeBack(st: EncState, dstSize: nat, fin: EncState, arc: seq<byte>, w: nat)
    requires Wf(st.d) && dstSize + 32 <= 8 * |st.dst| && FinishCompression(st, dstSize) == Some(fin)
    requires w <= st.d.nextBits && st.basecode < Pow2(w) && ClearFrom(st.dst, st.dstPos)
    requires SameBits(arc, fin.dst, st.dstPos, fin.dstPos)
    ensures fin.dstPos == st.dstPos + st.d.nextBits && fin.dstPos <= 8 * |arc|
    ensures FieldValue(arc, st.dstPos, w) == st.basecode
  {
    assert fin.dst == OrU32(st.dst, st.dstPos, st.basecode) && fin.dstPos == st.dstPos + st.d.nextBits;
    CodeBits(st.dst, st.dstPos, st.basecode, w, arc, fin.dst, fin.dst, fin.dstPos, fin.dstPos);
  }

  /**
   * A w-bit code ORed into a clear tail at pos reads back from any buffer
   * that agrees with where later writes, which leave the bits below pos + w
   * alone, end up; the tail after it is clear again.
   */
  lemma CodeBits(dst: seq<byte>, pos: nat, b: nat, w: nat, arc: seq<byte>, fin: seq<byte>, mid: seq<byte>, midPos: nat, top: nat)
    requires pos / 8 + 4 <= |dst| && b < Pow2(w) && w <= 24 && ClearFrom(dst, pos)
    requires SameBelow(OrU32(dst, pos, b), mid, pos + w) && SameBelow(mid, fin, midPos) && pos + w <= midPos
    requires SameBits(arc, fin, pos, top) && pos + w <= top
    ensures FieldValue(arc, pos, w) == b && ClearFrom(OrU32(dst, pos, b), pos + w)
  {
    WriteCode(dst, pos, b, w);
    SameBitsBack(arc, fin, mid, OrU32(dst, pos, b), pos, pos + w, midPos, pos + w, top);
    ReadCodeBack(arc, OrU32(dst, pos, b), pos, w, b, pos + w);
  }

  /**
   * The state st' after the compressor's loop emits the code of the miss m
   * from st: the dictionary gains the entry (m.code, m.ch), the output
   * position moves on by one code and its tail stays clear, the rest of the
   * loop is unchanged, and the code reads back from arc.
   */
  ghost predicate CodedMiss(src: seq<byte>, dstSize: nat, st: EncState, e: Dict, fin: EncState, arc: seq<byte>, m: MatchResult, st': EncState)
  {
    && EncReady(st, dstSize) && m.Miss? && Wf(e) && e.curEntry >= 0 && m.code < TableSize
    && st'.d == Link(e, m.code, m.ch) && st'.dstPos == st.dstPos + e.curBits
    && st'.basecode == m.ch && st'.srcPos == m.next
    && EncReady(st', dstSize) && ClearFrom(st'.dst, st'.dstPos)
    && CompressLoop(src, dstSize, st') == CompressLoop(src, dstSize, st)
    && st.dstPos + e.curBits <= fin.dstPos && fin.dstPos <= 8 * |arc|
    && FieldValue(arc, st.dstPos, e.curBits) == m.code
  }

  /**
   * A code the compressor's loop ORs into a clear tail reads back from any
   * buffer that agrees with the buffer ArcFinishCompression leaves, and the
   * tail after it is clear again.
   */
  lemma LoopCodeBack(src: seq<byte>, dstSize: nat, st: EncState, e: Dict, fin: EncState, arc: seq<byte>, m: MatchResult)
    returns (st': EncState)
    requires EncReady(st, dstSize) && st.srcPos < |src| && st.dstPos + st.d.curBits <= dstSize
    requires EntryGet(st.d) == Some(e) && Match(e, src, st.basecode, st.srcPos) == m && m.Miss?
    requires CompressLoop(src, dstSize, st).Some? && FinishCompression(CompressLoop(src, dstSize, st).value, dstSize) == Some(fin)
    requires m.code < Pow2(e.curBits) && ClearFrom(st.dst, st.dstPos)
    requires SameBits(arc, fin.dst, st.dstPos, fin.dstPos)
    ensures CodedMiss(src, dstSize, st, e, fin, arc, m, st')
  {
    st' := NextReady(src, dstSize, st, e, m);
    LoopUnfold(src, dstSize, st, e, m);
    var r := CompressLoop(src, dstSize, st').value;
    LoopKeepsBelow(src, dstSize, st');
    FinishKeepsBelow(r, dstSize);
    CodeBits(st.dst, st.dstPos, m.code, e.curBits, arc, fin.dst, r.dst, r.dstPos, fin.dstPos);
  }

  /** The decoding loop takes a step while there is room and a code left. */
  lemma LoopStep(arc: seq<byte>, srcSize: nat, room: nat, ds: DecState, ds1: DecState)
    requires DecReady(ds) && |ds.out| < room && ds.srcPos + ds.d.nextBits <= srcSize && ds.srcPos + ds.d.nextBits <= 8 * |arc|
    requires ds.srcPos + ds.d.nextBits <= IntBitLimit && DecodeStep(arc, room, ds) == Ok(ds1)
    ensures DecodeLoop(arc, srcSize, room, ds) == DecodeLoop(arc, srcSize, room, ds1)
  {
  }

  /** The decoding loop stops once the output is full. */
  lemma LoopStop(arc: seq<byte>, srcSize: nat, room: nat, ds: DecState)
    requires DecReady(ds) && |ds.out| >= room
    ensures DecodeLoop(arc, srcSize, room, ds) == Ok(ds)
  {
  }

  /** A decoding loop that has written all of the input stops there. */
  lemma LoopDone(arc: seq<byte>, srcSize: nat, src: seq<byte>, ds: DecState, ds1: DecState)
    requires DecReady(ds) && DecReady(ds1) && ds1.out == src[..|src|]
    requires DecodeLoop(arc, srcSize, |src|, ds) == DecodeLoop(arc, srcSize, |src|, ds1)
    ensures DecodeLoop(arc, srcSize, |src|, ds).Ok? && DecodeLoop(arc, srcSize, |src|, ds).value.out == src
  {
    LoopStop(arc, srcSize, |src|, ds1);
    assert src[..|src|] == src;
  }

  /** A phrase of one byte at the end of the input. */
  lemma LastByte(src: seq<byte>, start: nat)
    requires start + 1 == |src|
    ensures src[start..|src|] == [src[start]]
  {
  }

  /**
   * The compressor's loop stops with no input left, and ArcFinishCompression
   * emits the last byte as a literal: the decompressor writes it and stops.
   */
  lemma SimLast(src: seq<byte>, dstSize: nat, st: EncState, ds: DecState, strs: seq<seq<byte>>, start: nat, prevStart: nat,
                arc: seq<byte>, srcSize: nat, fin: EncState)
    requires Rel(src, dstSize, st, ds, strs, start, prevStart)
    requires st.srcPos >= |src| && FinishCompression(st, dstSize) == Some(fin)
    requires SameBits(arc, fin.dst, st.dstPos, fin.dstPos) && fin.dstPos <= srcSize && srcSize <= IntBitLimit
    ensures DecodeLoop(arc, srcSize, |src|, ds).Ok? && DecodeLoop(arc, srcSize, |src|, ds).value.out == src
  {
    var c := src[start];
    Pow2Values();
    Pow2Mono(ds.d.minBits, ds.d.nextBits);
    var e, strs' := NextTable(src, dstSize, st, ds, strs, start, prevStart);
    FinishCodeBack(st, dstSize, fin, arc, e.curBits);
    LastByte(src, start);
    var ds' := MeetStep(src, dstSize, st, ds, strs, start, prevStart, arc, srcSize, e, strs', c, |src|);
    LoopDone(arc, srcSize, src, ds, ds');
  }

  /**
   * The input runs out while the compressor matches the phrase at src[start]:
   * ArcFinishCompression emits its code and the decompressor writes the rest
   * of the input and stops.
   */
  lemma SimExhausted(src: seq<byte>, dstSize: nat, st: EncState, ds: DecState, strs: seq<seq<byte>>, start: nat, prevStart: nat,
                     arc: seq<byte>, srcSize: nat, fin: EncState, e: Dict, strs': seq<seq<byte>>, m: MatchResult)
    requires Rel(src, dstSize, st, ds, strs, start, prevStart)
    requires st.srcPos < |src| && st.dstPos + st.d.curBits <= dstSize
    requires CompressLoop(src, dstSize, st).Some? && FinishCompression(CompressLoop(src, dstSize, st).value, dstSize) == Some(fin)
    requires EntryGet(st.d) == Some(e) && strs' == NextStrs(ds, strs, src, start) && e.curBits == ds.d.nextBits
    requires Ready(e) && e.curEntry >= 0
    requires m == Match(e, src, st.basecode, st.srcPos) && m.Exhausted? && m.next == |src| && m.code < TableSize && m.code < Pow2(e.curBits)
    requires Live(e, m.code) && Str(e, strs', m.code) == src[start..|src|]
    requires SameBits(arc, fin.dst, st.dstPos, fin.dstPos) && fin.dstPos <= srcSize && srcSize <= IntBitLimit
    ensures DecodeLoop(arc, srcSize, |src|, ds).Ok? && DecodeLoop(arc, srcSize, |src|, ds).value.out == src
  {
    LoopExhausted(src, dstSize, st, e, m);
    FinishCodeBack(st.(d := e, basecode := m.code, srcPos := m.next), dstSize, fin, arc, e.curBits);
    var ds' := MeetStep(src, dstSize, st, ds, strs, start, prevStart, arc, srcSize, e, strs', m.code, |src|);
    LoopDone(arc, srcSize, src, ds, ds');
  }

  /** The two sides meet at src[end] once the pass on the phrase src[start..end] has found its code in a fresh table. */
  lemma MeetAgain(src: seq<byte>, dstSize: nat, e: Dict, strs: seq<seq<byte>>, st': EncState, ds': DecState,
                  m: MatchResult, start: nat, end: nat, lit: nat)
    requires Inv(e, strs) && !e.entryUsed && Ready(e) && e.curEntry >= 0 && e.minTableEntry == lit
    requires forall i | 0 <= i < |src| :: src[i] < lit
    requires m.Miss? && m.next == end + 1 && start < end < |src| && m.ch == src[end] && m.code < TableSize
    requires Live(e, m.code) && Str(e, strs, m.code) == src[start..end]
    requires st'.d == Link(e, m.code, m.ch) && st'.basecode == m.ch && st'.srcPos == m.next
    requires EncReady(st', dstSize) && ClearFrom(st'.dst, st'.dstPos)
    requires ds'.d == e && ds'.srcPos == st'.dstPos && ds'.stack == [] && ds'.out == src[..end]
    requires ds'.lastCode == m.code && ds'.lastCh == src[start] && DecReady(ds')
    ensures Rel(src, dstSize, st', ds', strs, end, start)
  {
  }

  /**
   * The next meeting point (st', ds') at src[end], reached from the one at
   * src[start]: the compressor's loop ahead and the decoding loop ahead are
   * those of the meeting point before, and arc still holds the bits written
   * from st' on.
   */
  ghost predicate MeetsNext(src: seq<byte>, dstSize: nat, st: EncState, ds: DecState, arc: seq<byte>, srcSize: nat, fin: EncState,
                            st': EncState, ds': DecState, strs': seq<seq<byte>>, start: nat, end: nat)
  {
    && EncReady(st, dstSize) && DecReady(ds)
    && Rel(src, dstSize, st', ds', strs', end, start) && start < end
    && CompressLoop(src, dstSize, st') == CompressLoop(src, dstSize, st)
    && SameBits(arc, fin.dst, st'.dstPos, fin.dstPos)
    && DecodeLoop(arc, srcSize, |src|, ds) == DecodeLoop(arc, srcSize, |src|, ds')
  }

  /**
   * A pass of the compressor's loop that emits the code of src[start..end]
   * leads both sides to the next meeting point at src[end], where the rest
   * of the compressor's loop and the decoding loop are those of the pass
   * before.
   */
  lemma AdvanceMiss(src: seq<byte>, dstSize: nat, st: EncState, ds: DecState, strs: seq<seq<byte>>, start: nat, prevStart: nat,
                    arc: seq<byte>, srcSize: nat, fin: EncState, e: Dict, strs': seq<seq<byte>>, m: MatchResult, end: nat)
    returns (st': EncState, ds': DecState)
    requires Rel(src, dstSize, st, ds, strs, start, prevStart)
    requires st.srcPos < |src| && st.dstPos + st.d.curBits <= dstSize
    requires CompressLoop(src, dstSize, st).Some? && FinishCompression(CompressLoop(src, dstSize, st).value, dstSize) == Some(fin)
    requires SameBits(arc, fin.dst, st.dstPos, fin.dstPos) && fin.dstPos <= srcSize && srcSize <= IntBitLimit
    requires EntryGet(st.d) == Some(e) && strs' == NextStrs(ds, strs, src, start)
    requires Inv(e, strs') && !e.entryUsed && Ready(e) && e.curEntry >= 0
    requires e.curBits == ds.d.nextBits && e.minTableEntry == ds.d.minTableEntry
    requires m == Match(e, src, st.basecode, st.srcPos) && m.Miss? && m.code < Pow2(e.curBits) && m.code < TableSize
    requires m.next == end + 1 && start < end < |src| && m.ch == src[end] && Live(e, m.code) && Str(e, strs', m.code) == src[start..end]
    ensures MeetsNext(src, dstSize, st, ds, arc, srcSize, fin, st', ds', strs', start, end)
  {
    st' := LoopCodeBack(src, dstSize, st, e, fin, arc, m);
    ds' := MeetStep(src, dstSize, st, ds, strs, start, prevStart, arc, srcSize, e, strs', m.code, end);
    MeetAgain(src, dstSize, e, strs', st', ds', m, start, end, ds.d.minTableEntry);
    SameBitsFrom(arc, fin.dst, st.dstPos, st'.dstPos, fin.dstPos);
  }

  /**
   * One pass of the compressor's loop from a meeting point: either the
   * decompressor ends with the whole input written (last), or both sides
   * reach the next meeting point further on with the same loops ahead.
   */
  lemma Advance(src: seq<byte>, dstSize: nat, st: EncState, ds: DecState, strs: seq<seq<byte>>, start: nat, prevStart: nat,
                arc: seq<byte>, srcSize: nat, fin: EncState)
    returns (last: bool, st': EncState, ds': DecState, strs': seq<seq<byte>>, end: nat)
    requires Rel(src, dstSize, st, ds, strs, start, prevStart)
    requires st.srcPos < |src| && st.dstPos + st.d.curBits <= dstSize
    requires CompressLoop(src, dstSize, st).Some? && FinishCompression(CompressLoop(src, dstSize, st).value, dstSize) == Some(fin)
    requires SameBits(arc, fin.dst, st.dstPos, fin.dstPos) && fin.dstPos <= srcSize && srcSize <= IntBitLimit
    ensures last ==> DecodeLoop(arc, srcSize, |src|, ds).Ok? && DecodeLoop(arc, srcSize, |src|, ds).value.out == src
    ensures !last ==> MeetsNext(src, dstSize, st, ds, arc, srcSize, fin, st', ds', strs', start, end)
  {
    var e;
    e, strs' := NextTable(src, dstSize, st, ds, strs, start, prevStart);
    var m, phraseEnd := MatchFrom(e, strs', src, start, ds.d.minTableEntry, st.basecode, st.srcPos);
    if m.Exhausted? {
      last, st', ds', end := true, st, ds, start;
      SimExhausted(src, dstSize, st, ds, strs, start, prevStart, arc, srcSize, fin, e, strs', m);
    } else {
      last := false;
      end := phraseEnd;
      st', ds' := AdvanceMiss(src, dstSize, st, ds, strs, start, prevStart, arc, srcSize, fin, e, strs', m, end);
    }
  }

  /**
   * From a meeting point on, if the compressor consumes all of the input and
   * ArcFinishCompression succeeds, the decompressor reading the same bits
   * writes the rest of the input.
   */
  lemma {:induction false} Sim(src: seq<byte>, dstSize: nat, st: EncState, ds: DecState, strs: seq<seq<byte>>, start: nat, prevStart: nat,
                               arc: seq<byte>, srcSize: nat, fin: EncState)
    requires Rel(src, dstSize, st, ds, strs, start, prevStart)
    requires CompressLoop(src, dstSize, st).Some? && CompressLoop(src, dstSize, st).value.srcPos >= |src|
    requires FinishCompression(CompressLoop(src, dstSize, st).value, dstSize) == Some(fin)
    requires SameBits(arc, fin.dst, st.dstPos, fin.dstPos) && fin.dstPos <= srcSize && srcSize <= IntBitLimit
    ensures DecodeLoop(arc, srcSize, |src|, ds).Ok? && DecodeLoop(arc, srcSize, |src|, ds).value.out == src
    decreases |src| - start
  {
    if st.srcPos < |src| && st.dstPos + st.d.curBits <= dstSize {
      var last, st', ds', strs', end := Advance(src, dstSize, st, ds, strs, start, prevStart, arc, srcSize, fin);
      if !last {
        Sim(src, dstSize, st', ds', strs', end, start, arc, srcSize, fin);
      }
    } else {
      SimLast(src, dstSize, st, ds, strs, start, prevStart, arc, srcSize, fin);
    }
  }
}
