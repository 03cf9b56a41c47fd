/**
 * The control block CArcCtrl of compression.c (and of its copy in TOSZ.c)
 * as an object: the position and size fields, the code table compress[],
 * the chain heads hash[] and the expansion stack are updated in place by
 * ArcEntryGet, ArcCompressBuf, ArcFinishCompression and ArcExpandBuf.  Each
 * method is proved to leave the block in the state the corresponding
 * function of Dictionary and Lzw computes.
 */
module Control {
  import opened BitField
  import opened Optional
  import opened Dictionary
  import opened Lzw
  import opened LzwFacts

  /**
   * The search of ArcEntryGet for the link that points at slot x, and its
   * unlinking: the chain without its first occurrence of x.
   */
  method Unlink(chain: seq<nat>, x: nat) returns (r: seq<nat>)
    ensures r == RemoveFirst(chain, x)
  {
    var k := 0;
    while k < |chain| && chain[k] != x
      invariant 0 <= k <= |chain|
      invariant RemoveFirst(chain, x) == chain[..k] + RemoveFirst(chain[k..], x)
    {
      RemoveFirstAt(chain, x, k);
      k := k + 1;
    }
    RemoveFirstAt(chain, x, k);
    if k < |chain| {
      r := chain[..k] + chain[k + 1..];
    } else {
      r := chain;
    }
  }

  /** How RemoveFirst of the tail from k unfolds: past a slot other than x, at x, or at the end. */
  lemma RemoveFirstAt(chain: seq<nat>, x: nat, k: nat)
    requires k <= |chain|
    ensures k < |chain| && chain[k] != x ==> chain[..k] + RemoveFirst(chain[k..], x) == chain[..k + 1] + RemoveFirst(chain[k + 1..], x)
    ensures k < |chain| && chain[k] == x ==> RemoveFirst(chain[k..], x) == chain[k + 1..]
    ensures k == |chain| ==> chain[..k] + RemoveFirst(chain[k..], x) == chain
  {
    if k < |chain| {
      assert chain[k..][1..] == chain[k + 1..];
      assert chain[..k + 1] == chain[..k] + [chain[k]];
    } else {
      assert chain[..k] == chain && chain[k..] == [];
    }
  }

  /** ArcEntryGet below the widest codes, field by field. */
  lemma GrowStep(d: Dict, d': Dict)
    requires Wf(d) && d.entryUsed && d.nextBits < MaxBits
    requires d'.minBits == d.minBits && d'.minTableEntry == d.minTableEntry && d'.table == d.table && d'.hash == d.hash
    requires !d'.entryUsed && d'.curEntry == d.nextEntry && d'.curBits == d.nextBits
    requires d'.nextEntry == d.freeIndex && d'.freeIndex == d.freeIndex + 1
    requires d'.nextBits == (if d.freeIndex + 1 == d.freeLimit then d.nextBits + 1 else d.nextBits)
    requires d'.freeLimit == (if d.freeIndex + 1 == d.freeLimit then Pow2(d.nextBits + 1) else d.freeLimit)
    ensures Dictionary.EntryGet(d) == Some(d')
  {
  }

  /** ArcEntryGet at the widest codes, field by field, once the search has found slot j. */
  lemma RecycleStep(d: Dict, j: nat, d': Dict)
    requires Wf(d) && d.entryUsed && d.nextBits >= MaxBits
    requires Scan(d.hash, d.freeIndex, d.freeLimit, d.minTableEntry, d.freeLimit - d.minTableEntry) == Some(j)
    requires d'.minBits == d.minBits && d'.minTableEntry == d.minTableEntry && d'.table == d.table
    requires d'.hash == d.hash[d.table[j].basecode := RemoveFirst(d.hash[d.table[j].basecode], j)]
    requires !d'.entryUsed && d'.curEntry == d.nextEntry && d'.curBits == d.nextBits
    requires d'.nextEntry == j && d'.freeIndex == j && d'.nextBits == d.nextBits && d'.freeLimit == d.freeLimit
    ensures Dictionary.EntryGet(d) == Some(d')
  {
  }

  /** The zeroed block ArcCtrlNew sets up before its ArcEntryGet, field by field, is the one Init starts from. */
  lemma InitFromBlank(compressionType: nat, blank: Dict)
    requires blank.minBits == MinBits(compressionType) && blank.minTableEntry == Pow2(blank.minBits)
    requires blank.curEntry == Null && blank.nextEntry == Null && blank.curBits == 0 && blank.entryUsed
    requires blank.nextBits == blank.minBits + 1 && blank.freeIndex == Pow2(blank.minBits)
    requires blank.freeLimit == Pow2(blank.minBits + 1)
    requires |blank.table| == TableSize && forall i | 0 <= i < TableSize :: blank.table[i] == Entry(0, 0)
    requires |blank.hash| == TableSize && forall i | 0 <= i < TableSize :: blank.hash[i] == []
    ensures Wf(blank) && Dictionary.EntryGet(blank).Some?
    ensures Dictionary.EntryGet(blank).value.(entryUsed := true) == Init(compressionType)
  {
    Pow2Values();
    assert blank.table == seq(TableSize, _ => Entry(0, 0));
    assert blank.hash == seq(TableSize, _ => []);
  }

  class ArcCtrl {
    var srcPos: nat
    var dstPos: nat
    /** src_buf and src_size: the input (bytes, or bits when expanding) and its extent. */
    const srcBuf: seq<byte>
    const srcSize: nat
    /** dst_buf and dst_size: the output (bits when compressing, or bytes) and its extent. */
    const dstBuf: array<byte>
    const dstSize: nat
    var minBits: nat
    var minTableEntry: nat
    var curEntry: int
    var nextEntry: int
    var curBits: nat
    var nextBits: nat
    var stkPtr: nat
    var freeIndex: nat
    var freeLimit: nat
    var savedBasecode: nat
    var entryUsed: bool
    var lastCh: nat
    /** compress[]: the parent code and last byte of each slot. */
    const compress: array<Entry>
    /** hash[]: the chain of children of each code, head first. */
    const hash: array<seq<nat>>
    /** The expansion stack stk_base[0 .. stkPtr), top last. */
    const stk: array<byte>

    /** The code table as a value. */
    ghost function Table(): Dict
      reads this, compress, hash
    {
      Dict(minBits, minTableEntry, curEntry, nextEntry, curBits, nextBits, freeIndex, freeLimit, entryUsed,
           compress[..], hash[..])
    }

    ghost predicate Valid()
      reads this, compress, hash
    {
      compress.Length == TableSize && hash.Length == TableSize && Wf(Table())
    }

    /** The compressor state while basecode is the phrase being matched and p the input position. */
    ghost function EncAt(basecode: nat, p: nat): EncState
      reads this, compress, hash, dstBuf
    {
      EncState(Table(), dstBuf[..], dstPos, basecode, p)
    }

    /** The decoder state while lastcode is the previous code. */
    ghost function DecAt(lastcode: nat): DecState
      reads this, compress, hash, stk, dstBuf
      requires stkPtr <= stk.Length && dstPos <= dstBuf.Length
    {
      DecState(Table(), srcPos, stk[..stkPtr], dstBuf[..dstPos], lastcode, lastCh)
    }

    /** The fields no table operation touches are as they were. */
    twostate predicate Kept()
      reads this
    {
      && srcPos == old(srcPos) && dstPos == old(dstPos) && stkPtr == old(stkPtr)
      && savedBasecode == old(savedBasecode) && lastCh == old(lastCh)
    }

    /**
     * ArcCtrlNew: a zeroed block with the first slot handed out, codes one
     * bit wider than a literal, no saved phrase, and a stack when expanding.
     * The buffers and their sizes, which every caller of ArcCtrlNew fills in
     * right after it and never changes, are given here.
     */
    constructor (expand: bool, compressionType: nat, srcBuf: seq<byte>, srcSize: nat, dstBuf: array<byte>, dstSize: nat)
      ensures Valid() && Table() == Init(compressionType)
      ensures this.srcBuf == srcBuf && this.srcSize == srcSize && this.dstBuf == dstBuf && this.dstSize == dstSize
      ensures srcPos == 0 && dstPos == 0 && stkPtr == 0 && lastCh == 0
      ensures savedBasecode == NoCode && stk.Length == (if expand then StackSize else 0)
      ensures fresh(compress) && fresh(hash) && fresh(stk)
    {
      srcPos, dstPos := 0, 0;
      this.srcBuf, this.srcSize, this.dstBuf, this.dstSize := srcBuf, srcSize, dstBuf, dstSize;
      stk := new byte[if expand then StackSize else 0];
      stkPtr := 0;
      lastCh := 0;
      curEntry, nextEntry, curBits := Null, Null, 0;
      compress := new Entry[TableSize](_ => Entry(0, 0));
      hash := new seq<nat>[TableSize](_ => []);
      var m := if compressionType == Ct7Bit then 7 else 8;
      minBits := m;
      minTableEntry := Pow2(m);
      freeIndex := Pow2(m);
      nextBits := m + 1;
      freeLimit := Pow2(m + 1);
      savedBasecode := NoCode;
      entryUsed := true;
      new;
      FirstEntry(compressionType);
    }

    /** The end of ArcCtrlNew: on the zeroed block, hand out the first slot and mark it used. */
    method FirstEntry(ghost compressionType: nat)
      requires minBits == MinBits(compressionType) && minTableEntry == Pow2(minBits)
      requires curEntry == Null && nextEntry == Null && curBits == 0 && entryUsed
      requires nextBits == minBits + 1 && freeIndex == Pow2(minBits) && freeLimit == Pow2(minBits + 1)
      requires compress.Length == TableSize && forall i | 0 <= i < TableSize :: compress[i] == Entry(0, 0)
      requires hash.Length == TableSize && forall i | 0 <= i < TableSize :: hash[i] == []
      modifies this, hash
      ensures Valid() && Table() == Init(compressionType)
      ensures Kept()
    {
      InitFromBlank(compressionType, Table());
      var found := EntryGet();
      entryUsed := true;
    }

    /**
     * The do-while search of ArcEntryGet: step from slot i around the slots
     * from minTableEntry up to freeLimit until one has an empty chain.  None
     * is a full lap without one, where the C loop never ends.
     */
    method ScanFree(i: nat) returns (r: Option<nat>)
      requires Valid() && minTableEntry <= i < freeLimit
      ensures r == Scan(hash[..], i, freeLimit, minTableEntry, freeLimit - minTableEntry)
    {
      ghost var goal := Scan(hash[..], i, freeLimit, minTableEntry, freeLimit - minTableEntry);
      var j := i;
      var lap: nat := freeLimit - minTableEntry;
      while lap > 0
        invariant minTableEntry <= j < freeLimit
        invariant Scan(hash[..], j, freeLimit, minTableEntry, lap) == goal
        decreases lap
      {
        j := if j + 1 == freeLimit then minTableEntry else j + 1;
        lap := lap - 1;
        if hash[j] == [] {
          return Some(j);
        }
      }
      return None;
    }

    /** ArcEntryGet below the widest codes: the next slot is the next never-used one, and the width grows at freeLimit. */
    method EntryGrow(ghost d: Dict)
      requires Valid() && Table() == d && d.entryUsed && d.nextBits < MaxBits
      modifies this`entryUsed, this`curEntry, this`curBits, this`nextEntry, this`nextBits, this`freeLimit, this`freeIndex
      ensures Table() == d.(entryUsed := false, curEntry := d.nextEntry, curBits := d.nextBits,
                            nextEntry := d.freeIndex, freeIndex := d.freeIndex + 1,
                            nextBits := if d.freeIndex + 1 == d.freeLimit then d.nextBits + 1 else d.nextBits,
                            freeLimit := if d.freeIndex + 1 == d.freeLimit then Pow2(d.nextBits + 1) else d.freeLimit)
    {
      var i := freeIndex;
      var bits, limit := nextBits, freeLimit;
      if i + 1 == freeLimit {
        bits, limit := nextBits + 1, Pow2(nextBits + 1);
      }
      entryUsed, curEntry, curBits, nextEntry, nextBits, freeLimit, freeIndex :=
        false, nextEntry, nextBits, i, bits, limit, i + 1;
    }

    /**
     * ArcEntryGet at the widest codes: the next slot is a used slot without
     * children, which is unlinked from its parent's chain.
     */
    method EntryRecycle(ghost d: Dict) returns (found: bool)
      requires Valid() && Table() == d && d.entryUsed && d.nextBits >= MaxBits
      modifies this`entryUsed, this`curEntry, this`curBits, this`nextEntry, this`freeIndex, hash
      ensures var r := Scan(d.hash, d.freeIndex, d.freeLimit, d.minTableEntry, d.freeLimit - d.minTableEntry);
              && found == r.Some?
              && (found ==> nextEntry == r.value
                            && Table() == d.(entryUsed := false, curEntry := d.nextEntry, curBits := d.nextBits,
                                             nextEntry := r.value, freeIndex := r.value,
                                             hash := d.hash[d.table[r.value].basecode :=
                                                              RemoveFirst(d.hash[d.table[r.value].basecode], r.value)]))
    {
      var next := ScanFree(freeIndex);
      if next.None? {
        return false;
      }
      var j := next.value;
      var b := compress[j].basecode;
      ghost var h := hash[..];
      var chain := Unlink(hash[b], j);
      hash[b] := chain;
      assert hash[..] == h[b := chain];
      entryUsed, curEntry, curBits, nextEntry, freeIndex := false, nextEntry, nextBits, j, j;
      return true;
    }

    /** ArcEntryGet: once the current slot has been used, move on to the next one and pick the one after it. */
    method EntryGet() returns (found: bool)
      requires Valid()
      modifies this, hash
      ensures found == Dictionary.EntryGet(old(Table())).Some?
      ensures found ==> Valid() && Table() == Dictionary.EntryGet(old(Table())).value
      ensures Kept()
    {
      if !entryUsed {
        return true;
      }
      ghost var d := Table();
      if nextBits < MaxBits {
        EntryGrow(d);
        GrowStep(d, Table());
        return true;
      }
      found := EntryRecycle(d);
      if found {
        RecycleStep(d, nextEntry, Table());
      }
    }

    /**
     * The block of ArcCompressBuf and ArcExpandBuf that fills the current
     * slot with the string of p followed by ch and links it at the head of
     * hash[p] (through the cast of &hash[p] to an entry whose next is the
     * chain head).
     */
    method Link(p: nat, ch: byte)
      requires Valid() && curEntry >= 0 && p < TableSize
      modifies this, compress, hash
      ensures Valid() && Table() == Dictionary.Link(old(Table()), p, ch)
      ensures Kept()
    {
      entryUsed := true;
      compress[curEntry] := Entry(p, ch);
      hash[p] := [curEntry] + hash[p];
    }

    /** The walk of ArcCompressBuf along a chain for the child whose byte is ch. */
    method FindChild(chain: seq<nat>, ch: byte) returns (r: Option<nat>)
      requires Valid() && forall k | 0 <= k < |chain| :: chain[k] < TableSize
      ensures r == Dictionary.FindChild(chain, compress[..], ch)
    {
      var k := 0;
      while k < |chain| && compress[chain[k]].ch != ch
        invariant 0 <= k <= |chain|
        invariant Dictionary.FindChild(chain, compress[..], ch) == Dictionary.FindChild(chain[k..], compress[..], ch)
      {
        assert chain[k..][1..] == chain[k + 1..];
        k := k + 1;
      }
      if k < |chain| {
        return Some(chain[k]);
      }
      return None;
    }

    /**
     * The loop at the label ac_start of ArcCompressBuf: extend the phrase
     * of code b byte by byte while the extension is a child on its chain.
     */
    method LongestMatch(b: nat, p: nat) returns (m: MatchResult)
      requires Valid() && b < TableSize && srcSize == |srcBuf|
      ensures m == Match(Table(), srcBuf, b, p)
    {
      var code: nat := b;
      var q: nat := p;
      while q < srcSize
        invariant code < TableSize
        invariant Match(Table(), srcBuf, code, q) == Match(Table(), srcBuf, b, p)
        decreases srcSize - q
      {
        var ch := srcBuf[q];
        var child := FindChild(hash[code], ch);
        if child.None? {
          return Miss(code, ch, q + 1);
        }
        code := child.value;
        q := q + 1;
      }
      return Exhausted(code, q);
    }

    /**
     * One pass of the outer loop of ArcCompressBuf once a fresh slot is in
     * hand: find the longest phrase; when a byte ends it, emit its code at
     * the current width and enter the phrase followed by that byte.  An
     * Exhausted result is the input running out first (goto ac_done).
     */
    method CompressPass(basecode: nat, p: nat, ghost e: Dict, ghost dst: seq<byte>)
      returns (m: MatchResult)
      requires Valid() && Table() == e && Ready(e) && e.curEntry >= 0 && basecode < TableSize
      requires srcSize == |srcBuf| && dstBuf[..] == dst
      requires dstSize + 32 <= 8 * |dst| && dstPos <= dstSize
      modifies this, compress, hash, dstBuf
      ensures m == Match(e, srcBuf, basecode, p)
      ensures srcPos == old(srcPos) && savedBasecode == old(savedBasecode) && Valid()
      ensures m.Exhausted? ==> Table() == e && dstBuf[..] == dst && dstPos == old(dstPos)
      ensures m.Miss? ==> Table() == Dictionary.Link(e, m.code, m.ch) && dstBuf[..] == OrU32(dst, old(dstPos), m.code)
                          && dstPos == old(dstPos) + e.curBits
    {
      m := LongestMatch(basecode, p);
      if m.Exhausted? {
        return;
      }
      assert dstPos / 8 + 4 <= dstBuf.Length;
      BFieldOrU32(dstBuf, dstPos, m.code);
      dstPos := dstPos + curBits;
      Link(m.code, m.ch);
    }

    /**
     * The body of the outer loop of ArcCompressBuf on the loop state st:
     * get a slot, then code one phrase.  found is false when the slot search
     * would not end; otherwise st' is the state after the pass, and an
     * Exhausted phrase is where the loop stops.
     */
    method CodePhrase(basecode: nat, p: nat, ghost st: EncState)
      returns (found: bool, m: MatchResult, ghost st': EncState)
      requires Valid() && EncReady(st, dstSize) && Table() == st.d && dstBuf[..] == st.dst && dstPos == st.dstPos
      requires basecode == st.basecode && p == st.srcPos && p < srcSize && dstPos + curBits <= dstSize
      requires srcSize == |srcBuf|
      modifies this, compress, hash, dstBuf
      ensures srcPos == old(srcPos) && savedBasecode == old(savedBasecode)
      ensures !found ==> CompressLoop(srcBuf, dstSize, st).None?
      ensures found ==> Valid() && EncReady(st', dstSize) && |st'.dst| == |st.dst|
                        && Table() == st'.d && dstBuf[..] == st'.dst && dstPos == st'.dstPos
      ensures found && m.Exhausted? ==> st' == st.(d := st'.d, basecode := m.code, srcPos := m.next)
                                        && CompressLoop(srcBuf, dstSize, st) == Some(st')
      ensures found && m.Miss? ==> st'.basecode == m.ch && st'.srcPos == m.next && p < m.next
                                   && CompressLoop(srcBuf, dstSize, st') == CompressLoop(srcBuf, dstSize, st)
    {
      found := EntryGet();
      if !found {
        LoopNoSlot(srcBuf, dstSize, st);
        m, st' := Exhausted(basecode, p), st;
        return;
      }
      ghost var e := Table();
      m := CompressPass(basecode, p, e, st.dst);
      if m.Exhausted? {
        LoopExhausted(srcBuf, dstSize, st, e, m);
        st' := st.(d := e, basecode := m.code, srcPos := m.next);
      } else {
        st' := NextReady(srcBuf, dstSize, st, e, m);
        LoopUnfold(srcBuf, dstSize, st, e, m);
      }
    }

    /**
     * The outer loop of ArcCompressBuf from the loop state st: while input
     * remains and a code of the current width fits below dst_size, code a
     * phrase.  Its result is the loop function's, with st' the final state.
     */
    method CompressRun(basecode: nat, p: nat, ghost st: EncState)
      returns (found: bool, basecode': nat, p': nat, ghost st': EncState)
      requires Valid() && EncReady(st, dstSize) && Table() == st.d && dstBuf[..] == st.dst && dstPos == st.dstPos
      requires basecode == st.basecode && p == st.srcPos
      requires srcSize == |srcBuf|
      modifies this, compress, hash, dstBuf
      ensures srcPos == old(srcPos) && savedBasecode == old(savedBasecode)
      ensures found == CompressLoop(srcBuf, dstSize, st).Some?
      ensures found ==> CompressLoop(srcBuf, dstSize, st) == Some(st') && Valid() && Table() == st'.d
                        && dstBuf[..] == st'.dst && dstPos == st'.dstPos && basecode' == st'.basecode && p' == st'.srcPos
    {
      ghost var goal := CompressLoop(srcBuf, dstSize, st);
      basecode', p', st', found := basecode, p, st, true;
      while p' < srcSize && dstPos + curBits <= dstSize
        invariant Valid() && EncReady(st', dstSize) && |st'.dst| == |st.dst|
        invariant Table() == st'.d && dstBuf[..] == st'.dst && dstPos == st'.dstPos
        invariant basecode' == st'.basecode && p' == st'.srcPos
        invariant srcPos == old(srcPos) && savedBasecode == old(savedBasecode)
        invariant CompressLoop(srcBuf, dstSize, st') == goal
        decreases srcSize - p'
      {
        var m;
        ghost var next;
        found, m, next := CodePhrase(basecode', p', st');
        if !found {
          return;
        }
        st' := next;
        if m.Exhausted? {
          basecode', p' := m.code, m.next;
          break;
        }
        basecode', p' := m.ch, m.next;
      }
      LoopDone(srcBuf, dstSize, st');
    }

    /**
     * ArcCompressBuf: take the first phrase from the next input byte (or
     * resume the saved one), then run the loop.  found is false when a slot
     * search would not end.
     */
    method CompressBuf(ghost d: Dict, ghost dst: seq<byte>) returns (found: bool)
      requires Valid() && Table() == d && Ready(d) && (savedBasecode != NoCode ==> savedBasecode < TableSize)
      requires srcSize == |srcBuf| && dstBuf[..] == dst
      requires dstSize + 32 <= 8 * |dst|
      modifies this, compress, hash, dstBuf
      ensures var r := Lzw.CompressBuf(srcBuf, old(srcPos), old(savedBasecode), d, dst, old(dstPos), dstSize);
              && found == r.Some?
              && (found ==> Valid() && Table() == r.value.d && dstBuf[..] == r.value.dst && dstPos == r.value.dstPos
                            && savedBasecode == r.value.basecode && srcPos == r.value.srcPos)
    {
      var p := srcPos;
      var basecode: nat;
      if savedBasecode == NoCode {
        basecode := if p < srcSize then srcBuf[p] else 0;
        p := p + 1;
      } else {
        basecode := savedBasecode;
      }
      ghost var st := EncState(d, dst, dstPos, basecode, p);
      assert CompressLoop(srcBuf, dstSize, st) == Lzw.CompressBuf(srcBuf, old(srcPos), old(savedBasecode), d, dst, old(dstPos), dstSize);
      ghost var st';
      found, basecode, p, st' := CompressRun(basecode, p, st);
      if found {
        savedBasecode, srcPos := basecode, p;
      }
    }

    /**
     * ArcFinishCompression: if a code of the current width fits, emit the
     * saved phrase and advance by the next width.
     */
    method FinishCompression(ghost st: EncState) returns (ok: bool)
      requires Valid() && Table() == st.d && dstBuf[..] == st.dst && dstPos == st.dstPos
      requires savedBasecode == st.basecode && srcPos == st.srcPos && dstSize + 32 <= 8 * |st.dst|
      modifies this, dstBuf
      ensures var r := Lzw.FinishCompression(st, dstSize);
              && ok == r.Some? && srcPos == st.srcPos
              && (ok ==> dstBuf[..] == r.value.dst && dstPos == r.value.dstPos)
    {
      if dstPos + curBits <= dstSize {
        assert dstPos / 8 + 4 <= dstBuf.Length;
        BFieldOrU32(dstBuf, dstPos, savedBasecode);
        dstPos := dstPos + nextBits;
        return true;
      }
      return false;
    }

    /** The pop loops of ArcExpandBuf: move bytes from the stack to the output while there is room. */
    method PopStack()
      requires stkPtr <= stk.Length && dstPos <= dstSize < dstBuf.Length && stk != dstBuf
      modifies this, dstBuf
      ensures stkPtr <= stk.Length && dstPos <= dstSize < dstBuf.Length
      ensures (stk[..stkPtr], dstBuf[..dstPos]) == Pop(old(stk[..stkPtr]), old(dstBuf[..dstPos]), dstSize)
      ensures dstBuf[dstSize] == old(dstBuf[dstSize])
      ensures Table() == old(Table()) && srcPos == old(srcPos) && lastCh == old(lastCh) && savedBasecode == old(savedBasecode)
    {
      while dstPos < dstSize && stkPtr != 0
        invariant stkPtr <= stk.Length && dstPos <= dstSize < dstBuf.Length
        invariant Pop(stk[..stkPtr], dstBuf[..dstPos], dstSize) == Pop(old(stk[..stkPtr]), old(dstBuf[..dstPos]), dstSize)
        invariant dstBuf[dstSize] == old(dstBuf[dstSize])
        invariant Table() == old(Table()) && srcPos == old(srcPos) && lastCh == old(lastCh) && savedBasecode == old(savedBasecode)
        decreases stkPtr
      {
        ghost var s := stk[..stkPtr];
        ghost var o := dstBuf[..dstPos];
        dstBuf[dstPos] := stk[stkPtr - 1];
        assert dstBuf[..dstPos + 1] == o + [s[|s| - 1]];
        assert stk[..stkPtr - 1] == s[..|s| - 1];
        stkPtr := stkPtr - 1;
        dstPos := dstPos + 1;
      }
    }

    /**
     * The expansion loop of ArcExpandBuf: push the last byte of each slot
     * while following parents down to a literal, then push the literal,
     * which is returned.  The C code pushes without a bound; a push onto a
     * full stack is StackOverflow here.
     */
    method WalkChain(code: nat, ghost d: Dict) returns (r: Result<nat, ExpandError>)
      requires Valid() && Table() == d && code < TableSize && stkPtr <= stk.Length == StackSize
      modifies this`stkPtr, stk
      ensures var w := Walk(d, old(stk[..stkPtr]), code);
              && (r.Ok? <==> w.Ok?)
              && (w.Ok? ==> r.value == w.value.1 && stkPtr <= stk.Length && stk[..stkPtr] == w.value.0)
              && (w.Err? ==> r == Err(w.error))
    {
      ghost var goal := Walk(d, stk[..stkPtr], code);
      var c: nat := code;
      while c >= minTableEntry
        invariant c < TableSize && stkPtr <= stk.Length
        invariant Walk(d, stk[..stkPtr], c) == goal
        decreases StackSize - stkPtr
      {
        if stkPtr >= StackSize {
          return Err(StackOverflow);
        }
        ghost var s := stk[..stkPtr];
        stk[stkPtr] := compress[c].ch;
        assert stk[..stkPtr + 1] == s + [d.table[c].ch];
        stkPtr := stkPtr + 1;
        c := compress[c].basecode;
      }
      if stkPtr >= StackSize {
        return Err(StackOverflow);
      }
      ghost var s := stk[..stkPtr];
      stk[stkPtr] := c;
      assert stk[..stkPtr + 1] == s + [c];
      stkPtr := stkPtr + 1;
      return Ok(c);
    }

    /**
     * The expansion of the code read by a pass of the decoding loop of
     * ArcExpandBuf: when it is the current slot, push last_ch and expand the
     * previous code instead; the result is the first byte of the expansion.
     */
    method ExpandCode(basecode: nat, lastcode: nat, ghost ds: DecState) returns (r: Result<nat, ExpandError>)
      requires Valid() && Table() == ds.d && DecReady(ds) && lastcode == ds.lastCode && lastCh == ds.lastCh
      requires stkPtr <= stk.Length == StackSize && stk[..stkPtr] == ds.stack && basecode < TableSize
      modifies this, stk
      ensures Table() == ds.d && srcPos == old(srcPos) && dstPos == old(dstPos) && lastCh == old(lastCh)
      ensures savedBasecode == old(savedBasecode)
      ensures ds.d.curEntry == basecode && |ds.stack| >= StackSize ==> r == Err(StackOverflow)
      ensures !(ds.d.curEntry == basecode && |ds.stack| >= StackSize) ==>
                var w := Walk(ds.d, WalkOn(ds, basecode), WalkFrom(ds, basecode));
                && (r.Ok? <==> w.Ok?)
                && (w.Err? ==> r == Err(w.error))
                && (w.Ok? ==> r.value == w.value.1 && stkPtr <= stk.Length && stk[..stkPtr] == w.value.0)
    {
      var code := basecode;
      if curEntry == basecode {
        if stkPtr >= StackSize {
          return Err(StackOverflow);
        }
        ghost var s := stk[..stkPtr];
        stk[stkPtr] := lastCh % 256;
        assert stk[..stkPtr + 1] == s + [lastCh % 256];
        stkPtr := stkPtr + 1;
        code := lastcode;
      }
      r := WalkChain(code, ds.d);
    }

    /**
     * The end of a pass of the decoding loop of ArcExpandBuf: enter the
     * previous code followed by ch in the current slot, get a fresh slot
     * and pop what fits.
     */
    method EnterString(lastcode: nat, ch: byte, ghost d: Dict) returns (found: bool)
      requires Valid() && Table() == d && d.curEntry >= 0 && lastcode < TableSize
      requires stkPtr <= stk.Length && dstPos <= dstSize < dstBuf.Length && stk != dstBuf
      modifies this, compress, hash, dstBuf
      ensures srcPos == old(srcPos) && lastCh == old(lastCh) && savedBasecode == old(savedBasecode)
      ensures dstBuf[dstSize] == old(dstBuf[dstSize])
      ensures var e := Dictionary.EntryGet(Dictionary.Link(d, lastcode, ch));
              && found == e.Some?
              && (found ==> Valid() && Table() == e.value && stkPtr <= stk.Length && dstPos <= dstSize
                            && (stk[..stkPtr], dstBuf[..dstPos]) == Pop(old(stk[..stkPtr]), old(dstBuf[..dstPos]), dstSize))
    {
      Link(lastcode, ch);
      found := EntryGet();
      if found {
        PopStack();
      }
    }

    /** The next code is read from the input, which moves on by next_bits. */
    method TakeCode() returns (basecode: nat)
      requires nextBits <= MaxBits && srcPos + nextBits <= 8 * |srcBuf| && srcPos + nextBits <= IntBitLimit
      modifies this`srcPos
      ensures basecode == FieldValue(srcBuf, old(srcPos), nextBits) && basecode < TableSize
      ensures srcPos == old(srcPos) + nextBits
    {
      basecode := BFieldExtU32(srcBuf, srcPos, nextBits);
      Pow2Mono(nextBits, MaxBits);
      Pow2Values();
      srcPos := srcPos + nextBits;
    }

    /**
     * One pass of the decoding loop of ArcExpandBuf on the decoder state ds
     * (lastcode is the previous code): read a code, expand it, enter the
     * previous code followed by the first byte of the expansion, get a
     * fresh slot and pop what fits.  The result is the code read, which
     * becomes the previous one.
     */
    method DecodePass(lastcode: nat, ghost ds: DecState) returns (r: Result<nat, ExpandError>)
      requires Valid() && DecReady(ds) && Table() == ds.d && srcPos == ds.srcPos && lastcode == ds.lastCode && lastCh == ds.lastCh
      requires stkPtr <= stk.Length == StackSize && stk[..stkPtr] == ds.stack
      requires dstPos <= dstSize < dstBuf.Length && dstBuf[..dstPos] == ds.out
      requires ds.srcPos + ds.d.nextBits <= 8 * |srcBuf| && ds.srcPos + ds.d.nextBits <= IntBitLimit
      requires stk != dstBuf
      modifies this, stk, dstBuf, compress, hash
      ensures savedBasecode == old(savedBasecode) && dstBuf[dstSize] == old(dstBuf[dstSize])
      ensures var g := Lzw.DecodeStep(srcBuf, dstSize, ds);
              && (r.Ok? <==> g.Ok?)
              && (g.Err? ==> r == Err(g.error))
              && (g.Ok? ==> Valid() && r.value == g.value.lastCode && Table() == g.value.d && srcPos == g.value.srcPos
                            && stkPtr <= stk.Length && stk[..stkPtr] == g.value.stack
                            && dstPos <= dstSize && dstBuf[..dstPos] == g.value.out && lastCh == g.value.lastCh)
    {
      var basecode := TakeCode();
      var w := ExpandCode(basecode, lastcode, ds);
      if w.Err? {
        if curEntry == basecode && |ds.stack| >= StackSize {
          StepOverflow(srcBuf, dstSize, ds);
        } else {
          StepWalkFails(srcBuf, dstSize, ds, basecode);
        }
        return Err(w.error);
      }
      ghost var stack := stk[..stkPtr];
      lastCh := w.value;
      var found := EnterString(lastcode, w.value, ds.d);
      if !found {
        StepNoSlot(srcBuf, dstSize, ds, basecode, stack, w.value);
        return Err(NoFreeSlot);
      }
      StepOk(srcBuf, dstSize, ds, basecode, stack, w.value, Table(), stk[..stkPtr], dstBuf[..dstPos]);
      return Ok(basecode);
    }

    /**
     * The decoding loop of ArcExpandBuf from the decoder state ds: decode
     * while there is room and a whole code is left below src_size.  The C
     * code reads a code past the end of the input without a check; that is
     * Overread here, and a code that reaches bit IntBitLimit is
     * NegativeBitIndex.  The result is the last code read.
     */
    method ExpandRun(lastcode: nat, ghost ds: DecState) returns (r: Result<nat, ExpandError>)
      requires Valid() && DecReady(ds) && Table() == ds.d && srcPos == ds.srcPos && lastcode == ds.lastCode && lastCh == ds.lastCh
      requires stkPtr <= stk.Length == StackSize && stk[..stkPtr] == ds.stack
      requires dstPos <= dstSize < dstBuf.Length && dstBuf[..dstPos] == ds.out
      requires stk != dstBuf
      modifies this, stk, dstBuf, compress, hash
      ensures savedBasecode == old(savedBasecode) && dstBuf[dstSize] == old(dstBuf[dstSize])
      ensures var g := DecodeLoop(srcBuf, srcSize, dstSize, ds);
              && (r.Ok? <==> g.Ok?)
              && (g.Err? ==> r == Err(g.error))
              && (g.Ok? ==> Valid() && r.value == g.value.lastCode && Table() == g.value.d && srcPos == g.value.srcPos
                            && stkPtr <= stk.Length && stk[..stkPtr] == g.value.stack
                            && dstPos <= dstSize && dstBuf[..dstPos] == g.value.out && lastCh == g.value.lastCh)
    {
      ghost var goal := DecodeLoop(srcBuf, srcSize, dstSize, ds);
      ghost var cur := ds;
      var last := lastcode;
      while dstPos < dstSize && srcPos + nextBits <= srcSize
        invariant Valid() && DecReady(cur) && Table() == cur.d && srcPos == cur.srcPos && last == cur.lastCode && lastCh == cur.lastCh
        invariant stkPtr <= stk.Length && stk[..stkPtr] == cur.stack && dstPos <= dstSize && dstBuf[..dstPos] == cur.out
        invariant savedBasecode == old(savedBasecode) && dstBuf[dstSize] == old(dstBuf[dstSize])
        invariant DecodeLoop(srcBuf, srcSize, dstSize, cur) == goal
        decreases srcSize - srcPos
      {
        if srcPos + nextBits > 8 * |srcBuf| {
          DecodeOverread(srcBuf, srcSize, dstSize, cur);
          return Err(Overread);
        }
        if srcPos + nextBits > IntBitLimit {
          DecodeNegative(srcBuf, srcSize, dstSize, cur);
          return Err(NegativeBitIndex);
        }
        var step := DecodePass(last, cur);
        if step.Err? {
          DecodeFails(srcBuf, srcSize, dstSize, cur);
          return Err(step.error);
        }
        DecodeUnfold(srcBuf, srcSize, dstSize, cur);
        cur := DecodeStep(srcBuf, dstSize, cur).value;
        last := step.value;
      }
      DecodeDone(srcBuf, srcSize, dstSize, cur);
      return Ok(last);
    }

    /** The first code of a stream is read and its low byte written out as it is. */
    method TakeLiteral() returns (first: nat)
      requires nextBits <= MaxBits && srcPos + nextBits <= 8 * |srcBuf| && srcPos + nextBits <= IntBitLimit
      requires dstPos < dstSize < dstBuf.Length
      modifies this`srcPos, this`dstPos, dstBuf
      ensures first == FieldValue(srcBuf, old(srcPos), nextBits) && srcPos == old(srcPos) + nextBits
      ensures dstPos == old(dstPos) + 1 && dstBuf[..dstPos] == old(dstBuf[..dstPos]) + [first % 256]
      ensures dstBuf[dstSize] == old(dstBuf[dstSize])
    {
      first := BFieldExtU32(srcBuf, srcPos, nextBits);
      srcPos := srcPos + nextBits;
      dstBuf[dstPos] := first % 256;
      dstPos := dstPos + 1;
    }

    /**
     * The first code of the first call of ArcExpandBuf, which the C code
     * reads without checking it against src_size: write it out as a
     * literal, get a slot, and make it the previous code and last_ch.
     */
    method FirstCode(ghost ds: DecState, ghost out: seq<byte>) returns (r: Result<nat, ExpandError>, ghost cur: DecState)
      requires ExpandReady(ds) && Valid() && Table() == ds.d && srcPos == ds.srcPos && ds.lastCode == NoCode
      requires Pop(ds.stack, ds.out, dstSize) == ([], out) && |out| < dstSize
      requires stkPtr == 0 && dstPos <= dstSize < dstBuf.Length && dstBuf[..dstPos] == out
      requires stk != dstBuf
      modifies this, hash, dstBuf
      ensures savedBasecode == old(savedBasecode) && dstBuf[dstSize] == old(dstBuf[dstSize])
      ensures stkPtr == 0 && dstPos <= dstSize
      ensures r.Err? ==> ExpandCodes(srcBuf, srcSize, dstSize, ds) == Err(r.error)
      ensures r.Ok? ==> && Valid() && DecReady(cur) && Table() == cur.d && srcPos == cur.srcPos && cur.stack == []
                        && dstBuf[..dstPos] == cur.out && r.value == cur.lastCode && lastCh == cur.lastCh
                        && ExpandCodes(srcBuf, srcSize, dstSize, ds) == DecodeLoop(srcBuf, srcSize, dstSize, cur)
    {
      if srcPos + nextBits > 8 * |srcBuf| {
        ExpandFirstOverread(srcBuf, srcSize, dstSize, ds, out);
        return Err(Overread), ds;
      }
      if srcPos + nextBits > IntBitLimit {
        ExpandFirstNegative(srcBuf, srcSize, dstSize, ds, out);
        return Err(NegativeBitIndex), ds;
      }
      var first := TakeLiteral();
      var found := EntryGet();
      if !found {
        ExpandFirstNoSlot(srcBuf, srcSize, dstSize, ds, out);
        return Err(NoFreeSlot), ds;
      }
      lastCh := first;
      cur := DecState(Table(), ds.srcPos + ds.d.nextBits, [], out + [first % 256], first, first);
      ExpandFirstOk(srcBuf, srcSize, dstSize, ds, out, first, Table(), cur);
      return Ok(first), cur;
    }

    /**
     * ArcExpandBuf on the decoder state ds (whose previous code is
     * saved_basecode): pop what is left on the stack; then, if the stack is
     * empty and there is room, take the first code or resume the saved one
     * and run the decoding loop, saving its last code.  None is success.
     */
    method ExpandBuf(ghost ds: DecState) returns (r: Option<ExpandError>)
      requires ExpandReady(ds) && Valid() && Table() == ds.d && srcPos == ds.srcPos && savedBasecode == ds.lastCode
      requires lastCh == ds.lastCh && stkPtr <= stk.Length == StackSize && stk[..stkPtr] == ds.stack
      requires dstPos <= dstSize < dstBuf.Length && dstBuf[..dstPos] == ds.out
      requires stk != dstBuf
      modifies this, stk, dstBuf, compress, hash
      ensures dstBuf[dstSize] == old(dstBuf[dstSize])
      ensures var g := ExpandCodes(srcBuf, srcSize, dstSize, ds);
              && (r.None? <==> g.Ok?)
              && (g.Err? ==> r == Some(g.error))
              && (g.Ok? ==> Valid() && Table() == g.value.d && srcPos == g.value.srcPos && savedBasecode == g.value.lastCode
                            && stkPtr <= stk.Length && stk[..stkPtr] == g.value.stack
                            && dstPos <= dstSize && dstBuf[..dstPos] == g.value.out && lastCh == g.value.lastCh)
    {
      PopStack();
      ghost var out := dstBuf[..dstPos];
      if !(stkPtr == 0 && dstPos < dstSize) {
        ExpandPopOnly(srcBuf, srcSize, dstSize, ds, stk[..stkPtr], out);
        return None;
      }
      var lastcode: nat;
      ghost var cur: DecState;
      if savedBasecode == NoCode {
        var first;
        first, cur := FirstCode(ds, out);
        if first.Err? {
          return Some(first.error);
        }
        lastcode := first.value;
      } else {
        lastcode := savedBasecode;
        ExpandResume(srcBuf, srcSize, dstSize, ds, out);
        cur := ds.(stack := [], out := out);
      }
      var run := ExpandRun(lastcode, cur);
      if run.Err? {
        return Some(run.error);
      }
      savedBasecode := run.value;
      return None;
    }
  }
}