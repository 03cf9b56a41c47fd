/**
 * Properties of the coder functions: what the phrase search finds, what the
 * expansion walk pushes, what the pop loops write, which bits of the output
 * the compressor leaves alone, and that the compressor never hangs in
 * ArcEntryGet.
 */
module LzwFacts {
  import opened BitField
  import opened Optional
  import opened Dictionary
  import opened DictionaryFacts
  import opened Lzw

  /** The bytes of s in the opposite order. */
  function Reverse(s: seq<byte>): (r: seq<byte>)
    ensures |r| == |s|
    ensures forall i | 0 <= i < |s| :: r[i] == s[|s| - 1 - i]
  {
    if s == [] then [] else [s[|s| - 1]] + Reverse(s[..|s| - 1])
  }

  lemma ReverseReverse(s: seq<byte>)
    ensures Reverse(Reverse(s)) == s
  {
  }

  /** Pushing a byte under a reversed string appends it once popped. */
  lemma ReverseCons(x: byte, s: seq<byte>)
    ensures Reverse([x] + s) == Reverse(s) + [x]
  {
  }

  /** When everything fits, the pop loop writes the whole stack, top first, and empties it. */
  lemma {:induction false} PopAll(stack: seq<byte>, out: seq<byte>, room: nat)
    requires |out| + |stack| <= room
    ensures Pop(stack, out, room) == ([], out + Reverse(stack))
    decreases |stack|
  {
    if stack != [] {
      var n := |stack|;
      PopAll(stack[..n - 1], out + [stack[n - 1]], room);
      assert out + [stack[n - 1]] + Reverse(stack[..n - 1]) == out + Reverse(stack);
    } else {
      assert out + Reverse(stack) == out;
    }
  }

  /**
   * The phrase search started on a live code b standing for src[s..p]
   * returns a live code standing for the longest phrase src[s..q] it could
   * reach: all of the rest of the input, or up to the byte that missed.
   */
  lemma {:induction false} MatchStr(d: Dict, strs: seq<seq<byte>>, src: seq<byte>, b: nat, p: nat, s: nat) returns (m: MatchResult)
    requires ChainsOk(d, strs) && b < TableSize && Live(d, b)
    requires s < p <= |src| && Str(d, strs, b) == src[s..p]
    ensures m == Match(d, src, b, p) && Live(d, m.code)
    ensures m.Exhausted? ==> m.next == |src| && Str(d, strs, m.code) == src[s..]
    ensures m.Miss? ==> Str(d, strs, m.code) == src[s..m.next - 1]
    decreases |src| - p
  {
    if p < |src| && FindChild(d.hash[b], d.table, src[p]).Some? {
      var e := MatchExtends(d, strs, src, b, p, s);
      m := MatchStr(d, strs, src, e, p + 1, s);
    } else {
      m := MatchStops(d, strs, src, b, p, s);
    }
  }

  /** The phrase search stops on the code it was started on when the next byte does not extend the phrase or no byte is left. */
  lemma MatchStops(d: Dict, strs: seq<seq<byte>>, src: seq<byte>, b: nat, p: nat, s: nat) returns (m: MatchResult)
    requires Wf(d) && |strs| == TableSize && b < TableSize
    requires s < p <= |src| && Str(d, strs, b) == src[s..p]
    requires !(p < |src| && FindChild(d.hash[b], d.table, src[p]).Some?)
    ensures m == Match(d, src, b, p) && m.code == b
    ensures m.Exhausted? ==> m.next == |src| && Str(d, strs, m.code) == src[s..]
    ensures m.Miss? ==> Str(d, strs, m.code) == src[s..m.next - 1]
  {
    if p < |src| {
      m := Miss(b, src[p], p + 1);
    } else {
      m := Exhausted(b, p);
      assert src[s..] == src[s..p];
    }
  }

  /** A byte that extends the phrase of a live code to a string in the table leads to the child standing for the longer phrase. */
  lemma MatchExtends(d: Dict, strs: seq<seq<byte>>, src: seq<byte>, b: nat, p: nat, s: nat) returns (e: nat)
    requires ChainsOk(d, strs) && b < TableSize && Live(d, b)
    requires s < p < |src| && Str(d, strs, b) == src[s..p]
    requires FindChild(d.hash[b], d.table, src[p]).Some?
    ensures e < TableSize && Live(d, e) && Str(d, strs, e) == src[s..p + 1]
    ensures Match(d, src, b, p) == Match(d, src, e, p + 1)
  {
    e := FindChild(d.hash[b], d.table, src[p]).value;
    assert ChildOk(d, strs, b, e);
    assert src[s..p + 1] == src[s..p] + [src[p]];
  }

  /**
   * Expanding a live code pushes its string in reverse (so that popping
   * yields it in order) and ends at its first byte, provided the stack has
   * room for it.
   */
  lemma {:induction false} WalkStr(d: Dict, strs: seq<seq<byte>>, stack: seq<byte>, c: nat)
    requires Inv(d, strs) && c < TableSize && Live(d, c)
    requires |stack| + |Str(d, strs, c)| <= StackSize
    ensures |Str(d, strs, c)| >= 1
    ensures Walk(d, stack, c) == Ok((stack + Reverse(Str(d, strs, c)), Str(d, strs, c)[0]))
    decreases |Str(d, strs, c)|
  {
    if c >= d.minTableEntry {
      var b := d.table[c].basecode;
      var ch := d.table[c].ch;
      ParentStr(d, strs, c);
      var s := Str(d, strs, b);
      WalkStr(d, strs, stack + [ch], b);
      assert (s + [ch])[..|s|] == s;
      assert stack + [ch] + Reverse(s) == stack + Reverse(s + [ch]);
    } else {
      assert Str(d, strs, c) == [c];
      assert Reverse([c]) == [c];
    }
  }

  /** The compressor loop only ORs codes in at or above the position it starts from. */
  lemma {:induction false} LoopKeepsBelow(src: seq<byte>, dstSize: nat, st: EncState)
    requires EncReady(st, dstSize) && CompressLoop(src, dstSize, st).Some?
    ensures SameBelow(st.dst, CompressLoop(src, dstSize, st).value.dst, st.dstPos)
    decreases |src| - st.srcPos
  {
    if st.srcPos < |src| && st.dstPos + st.d.curBits <= dstSize {
      var e := EntryGet(st.d).value;
      var m := Match(e, src, st.basecode, st.srcPos);
      if m.Miss? {
        var st' := NextReady(src, dstSize, st, e, m);
        LoopUnfold(src, dstSize, st, e, m);
        OrU32Below(st.dst, st.dstPos, m.code, st.dstPos);
        LoopKeepsBelow(src, dstSize, st');
      }
    }
  }

  /** ArcFinishCompression only ORs its code in at or above the position it writes at. */
  lemma FinishKeepsBelow(st: EncState, dstSize: nat)
    requires Wf(st.d) && dstSize + 32 <= 8 * |st.dst| && FinishCompression(st, dstSize).Some?
    ensures SameBelow(st.dst, FinishCompression(st, dstSize).value.dst, st.dstPos)
    ensures FinishCompression(st, dstSize).value.dstPos == st.dstPos + st.d.nextBits
  {
    OrU32Below(st.dst, st.dstPos, st.basecode, st.dstPos);
  }

  /** ArcEntryGet on a table with the invariant yields a table with the invariant and a fresh current slot. */
  lemma EntryGetFresh(d: Dict, strs: seq<seq<byte>>)
    requires Inv(d, strs)
    ensures EntryGet(d).Some?
    ensures Inv(EntryGet(d).value, strs) && !EntryGet(d).value.entryUsed
  {
    if d.entryUsed {
      EntryGetInv(d, strs);
    }
  }

  /** One pass of the compressor loop under the invariant: the next state again satisfies it. */
  lemma NoHangStep(src: seq<byte>, dstSize: nat, st: EncState, strs: seq<seq<byte>>) returns (strs': seq<seq<byte>>)
    requires EncReady(st, dstSize) && Inv(st.d, strs)
    requires forall i | 0 <= i < |src| :: src[i] < st.d.minTableEntry
    requires 0 < st.srcPos < |src| && st.basecode == src[st.srcPos - 1]
    requires st.dstPos + st.d.curBits <= dstSize
    ensures EntryGet(st.d).Some?
    ensures var d1 := EntryGet(st.d).value;
            var m := Match(d1, src, st.basecode, st.srcPos);
            m.Miss? ==> Inv(Link(d1, m.code, m.ch), strs') && m.ch < d1.minTableEntry
                        && d1.minTableEntry == st.d.minTableEntry
  {
    EntryGetFresh(st.d, strs);
    var d1 := EntryGet(st.d).value;
    assert src[st.srcPos - 1..st.srcPos] == [st.basecode];
    var m := MatchStr(d1, strs, src, st.basecode, st.srcPos, st.srcPos - 1);
    strs' := strs;
    if m.Miss? {
      LinkInv(d1, strs, m.code, m.ch);
      strs' := strs[d1.curEntry := Str(d1, strs, m.code) + [m.ch]];
    }
  }

  /**
   * Under the table invariant, and with every input byte a literal, the
   * compressor loop always runs to its end: every ArcEntryGet finds a slot.
   */
  lemma {:induction false} NoHang(src: seq<byte>, dstSize: nat, st: EncState, strs: seq<seq<byte>>)
    requires EncReady(st, dstSize) && Inv(st.d, strs)
    requires forall i | 0 <= i < |src| :: src[i] < st.d.minTableEntry
    requires st.srcPos < |src| ==> 0 < st.srcPos && st.basecode == src[st.srcPos - 1]
    ensures CompressLoop(src, dstSize, st).Some?
    decreases |src| - st.srcPos
  {
    if st.srcPos < |src| && st.dstPos + st.d.curBits <= dstSize {
      var strs' := NoHangStep(src, dstSize, st, strs);
      var d1 := EntryGet(st.d).value;
      match Match(d1, src, st.basecode, st.srcPos)
      case Exhausted(b, p) =>
      case Miss(b, ch, p) =>
        NoHang(src, dstSize, EncState(Link(d1, b, ch), OrU32(st.dst, st.dstPos, b), st.dstPos + d1.curBits, ch, p), strs');
    }
  }

  /** The state a pass of the compressor's loop that emits a code leaves is one the loop can go on from. */
  lemma NextReady(src: seq<byte>, dstSize: nat, st: EncState, e: Dict, m: MatchResult) returns (st': EncState)
    requires EncReady(st, dstSize) && st.srcPos < |src| && st.dstPos + st.d.curBits <= dstSize
    requires EntryGet(st.d) == Some(e) && Match(e, src, st.basecode, st.srcPos) == m && m.Miss?
    ensures e.curEntry >= 0
    ensures st' == EncState(Link(e, m.code, m.ch), OrU32(st.dst, st.dstPos, m.code), st.dstPos + e.curBits, m.ch, m.next)
    ensures EncReady(st', dstSize)
  {
    st' := EncState(Link(e, m.code, m.ch), OrU32(st.dst, st.dstPos, m.code), st.dstPos + e.curBits, m.ch, m.next);
  }

  /** A pass of the compressor's loop that emits a code hands over to the loop on the state after it. */
  lemma LoopUnfold(src: seq<byte>, dstSize: nat, st: EncState, e: Dict, m: MatchResult)
    requires EncReady(st, dstSize) && st.srcPos < |src| && st.dstPos + st.d.curBits <= dstSize
    requires EntryGet(st.d) == Some(e) && Match(e, src, st.basecode, st.srcPos) == m && m.Miss? && e.curEntry >= 0
    requires EncReady(EncState(Link(e, m.code, m.ch), OrU32(st.dst, st.dstPos, m.code), st.dstPos + e.curBits, m.ch, m.next), dstSize)
    ensures CompressLoop(src, dstSize, EncState(Link(e, m.code, m.ch), OrU32(st.dst, st.dstPos, m.code), st.dstPos + e.curBits, m.ch, m.next))
         == CompressLoop(src, dstSize, st)
  {
    assert m == Miss(m.code, m.ch, m.next);
  }

  /** A pass of the compressor's loop in which the input runs out ends the loop with the phrase's code saved. */
  lemma LoopExhausted(src: seq<byte>, dstSize: nat, st: EncState, e: Dict, m: MatchResult)
    requires EncReady(st, dstSize) && st.srcPos < |src| && st.dstPos + st.d.curBits <= dstSize
    requires EntryGet(st.d) == Some(e) && Match(e, src, st.basecode, st.srcPos) == m && m.Exhausted?
    ensures CompressLoop(src, dstSize, st) == Some(st.(d := e, basecode := m.code, srcPos := m.next))
  {
    assert m == Exhausted(m.code, m.next);
  }

  /** A pass of the compressor's loop whose slot search would not end makes the whole loop give no result. */
  lemma LoopNoSlot(src: seq<byte>, dstSize: nat, st: EncState)
    requires EncReady(st, dstSize) && st.srcPos < |src| && st.dstPos + st.d.curBits <= dstSize
    requires EntryGet(st.d).None?
    ensures CompressLoop(src, dstSize, st).None?
  {
  }

  /** The compressor's loop stops at once when the input is used up or a code of the current width no longer fits. */
  lemma LoopDone(src: seq<byte>, dstSize: nat, st: EncState)
    requires EncReady(st, dstSize) && (st.srcPos >= |src| || st.dstPos + st.d.curBits > dstSize)
    ensures CompressLoop(src, dstSize, st) == Some(st)
  {
  }

  /** The code that starts an expansion: the previous one when the code read is the current slot, else the code read. */
  function WalkFrom(ds: DecState, basecode: nat): nat
  {
    if ds.d.curEntry == basecode then ds.lastCode else basecode
  }

  /** The stack an expansion starts on: last_ch pushed first when the code read is the current slot. */
  function WalkOn(ds: DecState, basecode: nat): seq<byte>
  {
    if ds.d.curEntry == basecode then ds.stack + [ds.lastCh % 256] else ds.stack
  }

  /** A code equal to the current slot on a full stack overflows it. */
  lemma StepOverflow(src: seq<byte>, room: nat, ds: DecState)
    requires DecReady(ds) && ds.srcPos + ds.d.nextBits <= 8 * |src|
    requires ds.d.curEntry == FieldValue(src, ds.srcPos, ds.d.nextBits) && |ds.stack| >= StackSize
    ensures DecodeStep(src, room, ds) == Err(StackOverflow)
  {
  }

  /** A pass whose expansion walk fails fails with it. */
  lemma StepWalkFails(src: seq<byte>, room: nat, ds: DecState, basecode: nat)
    requires DecReady(ds) && ds.srcPos + ds.d.nextBits <= 8 * |src|
    requires basecode == FieldValue(src, ds.srcPos, ds.d.nextBits) && basecode < TableSize
    requires !(ds.d.curEntry == basecode && |ds.stack| >= StackSize)
    requires Walk(ds.d, WalkOn(ds, basecode), WalkFrom(ds, basecode)).Err?
    ensures DecodeStep(src, room, ds) == Err(Walk(ds.d, WalkOn(ds, basecode), WalkFrom(ds, basecode)).error)
  {
  }

  /** A pass whose slot search after the new entry would not end gives no result. */
  lemma StepNoSlot(src: seq<byte>, room: nat, ds: DecState, basecode: nat, stack: seq<byte>, ch: nat)
    requires DecReady(ds) && ds.srcPos + ds.d.nextBits <= 8 * |src|
    requires basecode == FieldValue(src, ds.srcPos, ds.d.nextBits) && basecode < TableSize
    requires !(ds.d.curEntry == basecode && |ds.stack| >= StackSize)
    requires Walk(ds.d, WalkOn(ds, basecode), WalkFrom(ds, basecode)) == Ok((stack, ch))
    requires EntryGet(Link(ds.d, ds.lastCode, ch)).None?
    ensures DecodeStep(src, room, ds) == Err(NoFreeSlot)
  {
  }

  /** A pass that expands its code, enters the new string, gets a slot and pops, field by field. */
  lemma StepOk(src: seq<byte>, room: nat, ds: DecState, basecode: nat, stack: seq<byte>, ch: nat, d1: Dict,
               stack': seq<byte>, out': seq<byte>)
    requires DecReady(ds) && ds.srcPos + ds.d.nextBits <= 8 * |src|
    requires basecode == FieldValue(src, ds.srcPos, ds.d.nextBits) && basecode < TableSize
    requires !(ds.d.curEntry == basecode && |ds.stack| >= StackSize)
    requires Walk(ds.d, WalkOn(ds, basecode), WalkFrom(ds, basecode)) == Ok((stack, ch))
    requires EntryGet(Link(ds.d, ds.lastCode, ch)) == Some(d1)
    requires Pop(stack, ds.out, room) == (stack', out')
    ensures DecodeStep(src, room, ds) == Ok(DecState(d1, ds.srcPos + ds.d.nextBits, stack', out', basecode, ch))
  {
    if ds.d.curEntry == basecode {
      assert Walk(ds.d, ds.stack + [ds.lastCh % 256], ds.lastCode) == Ok((stack, ch));
    } else {
      assert Walk(ds.d, ds.stack, basecode) == Ok((stack, ch));
    }
  }

  /** A pass of the decoding loop that fails ends the loop with its error. */
  lemma DecodeFails(src: seq<byte>, srcSize: nat, room: nat, ds: DecState)
    requires DecReady(ds) && |ds.out| < room && ds.srcPos + ds.d.nextBits <= srcSize
    requires ds.srcPos + ds.d.nextBits <= 8 * |src| && ds.srcPos + ds.d.nextBits <= IntBitLimit
    requires DecodeStep(src, room, ds).Err?
    ensures DecodeLoop(src, srcSize, room, ds) == Err(DecodeStep(src, room, ds).error)
  {
  }

  /** A pass of the decoding loop that succeeds hands over to the loop on the state after it. */
  lemma DecodeUnfold(src: seq<byte>, srcSize: nat, room: nat, ds: DecState)
    requires DecReady(ds) && |ds.out| < room && ds.srcPos + ds.d.nextBits <= srcSize
    requires ds.srcPos + ds.d.nextBits <= 8 * |src| && ds.srcPos + ds.d.nextBits <= IntBitLimit
    requires DecodeStep(src, room, ds).Ok?
    ensures DecodeLoop(src, srcSize, room, ds) == DecodeLoop(src, srcSize, room, DecodeStep(src, room, ds).value)
  {
  }

  /** A code that lies within the budget but past the end of the input is a read past it. */
  lemma DecodeOverread(src: seq<byte>, srcSize: nat, room: nat, ds: DecState)
    requires DecReady(ds) && |ds.out| < room && ds.srcPos + ds.d.nextBits <= srcSize
    requires ds.srcPos + ds.d.nextBits > 8 * |src|
    ensures DecodeLoop(src, srcSize, room, ds) == Err(Overread)
  {
  }

  /** A code within the budget and the input that reaches bit IntBitLimit is read through a negative bit index. */
  lemma DecodeNegative(src: seq<byte>, srcSize: nat, room: nat, ds: DecState)
    requires DecReady(ds) && |ds.out| < room && ds.srcPos + ds.d.nextBits <= srcSize
    requires ds.srcPos + ds.d.nextBits <= 8 * |src| && ds.srcPos + ds.d.nextBits > IntBitLimit
    ensures DecodeLoop(src, srcSize, room, ds) == Err(NegativeBitIndex)
  {
  }

  /** The decoding loop stops at once when the output is full or no whole code is left. */
  lemma DecodeDone(src: seq<byte>, srcSize: nat, room: nat, ds: DecState)
    requires DecReady(ds) && (|ds.out| >= room || ds.srcPos + ds.d.nextBits > srcSize)
    ensures DecodeLoop(src, srcSize, room, ds) == Ok(ds)
  {
  }

  /** When the pop loop leaves bytes on the stack or fills the output, ArcExpandBuf stops there. */
  lemma ExpandPopOnly(src: seq<byte>, srcSize: nat, room: nat, ds: DecState, stack: seq<byte>, out: seq<byte>)
    requires ExpandReady(ds) && Pop(ds.stack, ds.out, room) == (stack, out) && !(stack == [] && |out| < room)
    ensures ExpandCodes(src, srcSize, room, ds) == Ok(ds.(stack := stack, out := out))
  {
  }

  /** Resuming with a saved code runs the decoding loop on the emptied stack. */
  lemma ExpandResume(src: seq<byte>, srcSize: nat, room: nat, ds: DecState, out: seq<byte>)
    requires ExpandReady(ds) && Pop(ds.stack, ds.out, room) == ([], out) && |out| < room && ds.lastCode != NoCode
    ensures DecReady(ds.(stack := [], out := out))
    ensures ExpandCodes(src, srcSize, room, ds) == DecodeLoop(src, srcSize, room, ds.(stack := [], out := out))
  {
  }

  /** A first code past the end of the input is a read past it. */
  lemma ExpandFirstOverread(src: seq<byte>, srcSize: nat, room: nat, ds: DecState, out: seq<byte>)
    requires ExpandReady(ds) && Pop(ds.stack, ds.out, room) == ([], out) && |out| < room && ds.lastCode == NoCode
    requires ds.srcPos + ds.d.nextBits > 8 * |src|
    ensures ExpandCodes(src, srcSize, room, ds) == Err(Overread)
  {
  }

  /** A first code within the input that reaches bit IntBitLimit is read through a negative bit index. */
  lemma ExpandFirstNegative(src: seq<byte>, srcSize: nat, room: nat, ds: DecState, out: seq<byte>)
    requires ExpandReady(ds) && Pop(ds.stack, ds.out, room) == ([], out) && |out| < room && ds.lastCode == NoCode
    requires ds.srcPos + ds.d.nextBits <= 8 * |src| && ds.srcPos + ds.d.nextBits > IntBitLimit
    ensures ExpandCodes(src, srcSize, room, ds) == Err(NegativeBitIndex)
  {
  }

  /** The first code, written out as a literal, followed by a slot search that would not end. */
  lemma ExpandFirstNoSlot(src: seq<byte>, srcSize: nat, room: nat, ds: DecState, out: seq<byte>)
    requires ExpandReady(ds) && Pop(ds.stack, ds.out, room) == ([], out) && |out| < room && ds.lastCode == NoCode
    requires ds.srcPos + ds.d.nextBits <= 8 * |src| && ds.srcPos + ds.d.nextBits <= IntBitLimit && EntryGet(ds.d).None?
    ensures ExpandCodes(src, srcSize, room, ds) == Err(NoFreeSlot)
  {
  }

  /** The first code is written out as a literal, becomes the previous code and last_ch, and the loop runs on. */
  lemma ExpandFirstOk(src: seq<byte>, srcSize: nat, room: nat, ds: DecState, out: seq<byte>, first: nat, d1: Dict, ds1: DecState)
    requires ExpandReady(ds) && Pop(ds.stack, ds.out, room) == ([], out) && |out| < room && ds.lastCode == NoCode
    requires ds.srcPos + ds.d.nextBits <= 8 * |src| && ds.srcPos + ds.d.nextBits <= IntBitLimit
    requires first == FieldValue(src, ds.srcPos, ds.d.nextBits)
    requires EntryGet(ds.d) == Some(d1) && ds1 == DecState(d1, ds.srcPos + ds.d.nextBits, [], out + [first % 256], first, first)
    ensures first < TableSize && DecReady(ds1)
    ensures ExpandCodes(src, srcSize, room, ds) == DecodeLoop(src, srcSize, room, ds1)
  {
    ExpandFirstReady(src, room, ds, out, first, d1);
    assert ExpandStart(src, ds, out) == Ok(ds1);
  }

  /** The state after the first code is ready for the decoding loop. */
  lemma ExpandFirstReady(src: seq<byte>, room: nat, ds: DecState, out: seq<byte>, first: nat, d1: Dict)
    requires ExpandReady(ds) && Pop(ds.stack, ds.out, room) == ([], out) && |out| < room
    requires ds.srcPos + ds.d.nextBits <= 8 * |src| && ds.srcPos + ds.d.nextBits <= IntBitLimit
    requires first == FieldValue(src, ds.srcPos, ds.d.nextBits)
    requires EntryGet(ds.d) == Some(d1)
    ensures first < TableSize && DecReady(DecState(d1, ds.srcPos + ds.d.nextBits, [], out + [first % 256], first, first))
  {
    FieldValueBits(src, ds.srcPos, ds.d.nextBits);
    Pow2Mono(ds.d.nextBits, MaxBits);
    Pow2Values();
  }

  /**
   * The pop loop never fills the output past room, only appends to it, and
   * stops with an empty stack or a full output.
   */
  lemma {:induction false} PopBound(stack: seq<byte>, out: seq<byte>, room: nat)
    requires |out| <= room
    ensures |out| <= |Pop(stack, out, room).1| <= room && Pop(stack, out, room).1[..|out|] == out
    ensures Pop(stack, out, room).0 == [] || |Pop(stack, out, room).1| == room
    ensures Pop(stack, out, room).0 == stack[..|Pop(stack, out, room).0|]
    decreases |stack|
  {
    if |out| < room && stack != [] {
      var n := |stack|;
      var out1 := out + [stack[n - 1]];
      PopBound(stack[..n - 1], out1, room);
      var out' := Pop(stack[..n - 1], out1, room).1;
      assert Pop(stack, out, room).1 == out';
      assert out'[..|out|] == out'[..|out1|][..|out|] == out1[..|out|] == out;
      var st' := Pop(stack[..n - 1], out1, room).0;
      assert Pop(stack, out, room).0 == st' == stack[..n - 1][..|st'|] == stack[..|st'|];
    }
  }

  /**
   * The decoding loop never writes past room and never reads a code that
   * ends past its budget srcSize.
   */
  lemma {:induction false} DecodeBounds(src: seq<byte>, srcSize: nat, room: nat, ds: DecState)
    requires DecReady(ds) && |ds.out| <= room && ds.srcPos <= srcSize
    ensures var r := DecodeLoop(src, srcSize, room, ds);
            r.Ok? ==> |r.value.out| <= room && r.value.srcPos <= srcSize
    decreases srcSize - ds.srcPos
  {
    if |ds.out| < room && ds.srcPos + ds.d.nextBits <= srcSize && ds.srcPos + ds.d.nextBits <= 8 * |src| {
      var step := DecodeStep(src, room, ds);
      if step.Ok? {
        var basecode := FieldValue(src, ds.srcPos, ds.d.nextBits);
        var kwk := ds.d.curEntry == basecode;
        var w := Walk(ds.d, if kwk then ds.stack + [ds.lastCh % 256] else ds.stack, if kwk then ds.lastCode else basecode);
        PopBound(w.value.0, ds.out, room);
        DecodeBounds(src, srcSize, room, step.value);
      }
    }
  }
}
