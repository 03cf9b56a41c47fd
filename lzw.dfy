/**
 * The LZW coder of compression.c (ArcCompressBuf, ArcFinishCompression and
 * ArcExpandBuf) as functions on the state of the control block.
 *
 * The compressor reads bytes from src starting at srcPos and ORs codes into
 * the bit buffer dst at bit dstPos; a code takes curBits bits.  The
 * decompressor reads codes of nextBits bits from the bit buffer src starting
 * at bit srcPos, expands them through a stack of at most StackSize bytes, and
 * writes at most room bytes.
 */
module Lzw {
  import opened BitField
  import opened Optional
  import opened Dictionary

  /** The saved_basecode of a control block that has not coded anything yet. */
  const NoCode: nat := 0xFFFF_FFFF
  /** The size of the expansion stack (1 << ARC_MAX_BITS bytes). */
  const StackSize: nat := 4096

  /**
   * Why an expansion gives no result.  Rejected is the NULL return of
   * ExpandBuf; the others stand for what the C code does not guard against:
   * a read past the input (Overread), a read of a bit whose int index is
   * negative, so that Bt reads before the input (NegativeBitIndex), a push
   * past the stack (StackOverflow),
   * a recycling search that never ends (NoFreeSlot), fewer bytes decoded than
   * the header promises so that the tail of the result is uninitialised
   * (Incomplete), and an output pointer that decompress never sets
   * (HeaderMismatch).
   */
  datatype ExpandError = Rejected | Overread | NegativeBitIndex | StackOverflow | NoFreeSlot | Incomplete(written: nat) | HeaderMismatch

  // ---------------------------------------------------------------- compressor

  /** The control block fields the compressor works with; basecode is the code of the phrase being matched. */
  datatype EncState = EncState(d: Dict, dst: seq<byte>, dstPos: nat, basecode: nat, srcPos: nat)

  /**
   * How the search for the longest phrase ends: the input runs out while
   * the phrase is still in the table, or the byte ch at next - 1 extends the
   * phrase of code to a string not in the table.
   */
  datatype MatchResult = Exhausted(code: nat, next: nat) | Miss(code: nat, ch: byte, next: nat)

  /**
   * The inner loop of ArcCompressBuf (from the label ac_start): while the
   * next byte extends the current phrase to a string in the table, take it.
   */
  function Match(d: Dict, src: seq<byte>, b: nat, p: nat): (r: MatchResult)
    requires Wf(d) && b < TableSize
    ensures r.code < TableSize
    ensures r.Exhausted? ==> r.next >= |src| && r.next >= p
    ensures r.Miss? ==> p < r.next <= |src| && r.ch == src[r.next - 1]
    decreases |src| - p, 0
  {
    if p >= |src| then Exhausted(b, p)
    else
      match FindChild(d.hash[b], d.table, src[p])
      case Some(e) => MatchRest(d, src, e, p + 1)
      case None => Miss(b, src[p], p + 1)
  }

  /** The search for the longest phrase once the phrase of code b has been extended up to p. */
  function MatchRest(d: Dict, src: seq<byte>, b: nat, p: nat): (r: MatchResult)
    requires Wf(d) && b < TableSize
    ensures r.code < TableSize
    ensures r.Exhausted? ==> r.next >= |src| && r.next >= p
    ensures r.Miss? ==> p < r.next <= |src| && r.ch == src[r.next - 1]
    decreases |src| - p, 1
  {
    Match(d, src, b, p)
  }

  /** The control block a compressor loop can run on. */
  predicate EncReady(st: EncState, dstSize: nat)
  {
    Ready(st.d) && st.basecode < TableSize && dstSize + 32 <= 8 * |st.dst|
  }

  /**
   * The outer loop of ArcCompressBuf: while input remains and a code of the
   * current width still fits below dstSize, get a fresh slot, find the
   * longest phrase, emit its code, and enter the phrase followed by the
   * byte that ended it.  None stands for a slot search that never ends.
   */
  function CompressLoop(src: seq<byte>, dstSize: nat, st: EncState): (r: Option<EncState>)
    requires EncReady(st, dstSize)
    ensures r.Some? ==> EncReady(r.value, dstSize) && |r.value.dst| == |st.dst|
    ensures r.Some? ==> st.srcPos <= r.value.srcPos && st.dstPos <= r.value.dstPos
    ensures r.Some? ==> r.value.srcPos >= |src| || r.value.dstPos + r.value.d.curBits > dstSize
    decreases |src| - st.srcPos, 0
  {
    if st.srcPos < |src| && st.dstPos + st.d.curBits <= dstSize then
      match EntryGet(st.d)
      case None => None
      case Some(d1) =>
        match Match(d1, src, st.basecode, st.srcPos)
        case Exhausted(b, p) => Some(st.(d := d1, basecode := b, srcPos := p))
        case Miss(b, ch, p) =>
          CompressRest(src, dstSize, EncState(Link(d1, b, ch), OrU32(st.dst, st.dstPos, b), st.dstPos + d1.curBits, ch, p))
    else Some(st)
  }

  /** The loop of ArcCompressBuf from the state a pass that emitted a code leaves. */
  function CompressRest(src: seq<byte>, dstSize: nat, st: EncState): (r: Option<EncState>)
    requires EncReady(st, dstSize)
    ensures r.Some? ==> EncReady(r.value, dstSize) && |r.value.dst| == |st.dst|
    ensures r.Some? ==> st.srcPos <= r.value.srcPos && st.dstPos <= r.value.dstPos
    ensures r.Some? ==> r.value.srcPos >= |src| || r.value.dstPos + r.value.d.curBits > dstSize
    decreases |src| - st.srcPos, 1
  {
    CompressLoop(src, dstSize, st)
  }

  /**
   * ArcCompressBuf: the first call takes its first phrase from the next
   * input byte, later calls resume the saved phrase.  The result's basecode
   * is the new saved_basecode and its srcPos the new src_pos.  When no input
   * byte is left for the first phrase the C code reads one byte past the
   * input; the model uses 0 for it, which only ends up as the saved code.
   */
  function CompressBuf(src: seq<byte>, srcPos: nat, saved: nat, d: Dict, dst: seq<byte>, dstPos: nat, dstSize: nat): (r: Option<EncState>)
    requires Ready(d) && (saved != NoCode ==> saved < TableSize) && dstSize + 32 <= 8 * |dst|
    ensures r.Some? ==> EncReady(r.value, dstSize) && |r.value.dst| == |dst| && srcPos <= r.value.srcPos && dstPos <= r.value.dstPos
    ensures r.Some? ==> r.value.srcPos >= |src| || r.value.dstPos + r.value.d.curBits > dstSize
  {
    if saved == NoCode then
      CompressLoop(src, dstSize, EncState(d, dst, dstPos, if srcPos < |src| then src[srcPos] else 0, srcPos + 1))
    else
      CompressLoop(src, dstSize, EncState(d, dst, dstPos, saved, srcPos))
  }

  /**
   * ArcFinishCompression: if a code of the current width still fits, emit
   * the saved phrase and advance by the next width (None: no room left).
   */
  function FinishCompression(st: EncState, dstSize: nat): (r: Option<EncState>)
    requires Wf(st.d) && dstSize + 32 <= 8 * |st.dst|
    ensures r.Some? <==> st.dstPos + st.d.curBits <= dstSize
    ensures r.Some? ==> r.value.dstPos == st.dstPos + st.d.nextBits && r.value.d == st.d && |r.value.dst| == |st.dst|
  {
    if st.dstPos + st.d.curBits <= dstSize then
      Some(st.(dst := OrU32(st.dst, st.dstPos, st.basecode), dstPos := st.dstPos + st.d.nextBits))
    else None
  }

  // -------------------------------------------------------------- decompressor

  /**
   * The decoder fields of the control block: the code table, the read
   * position, the stack (its top is the last element), the bytes written so
   * far, the previous code (lastcode, which is saved_basecode between calls)
   * and last_ch.
   */
  datatype DecState = DecState(d: Dict, srcPos: nat, stack: seq<byte>, out: seq<byte>, lastCode: nat, lastCh: nat)

  /** The pop loops of ArcExpandBuf: move bytes from the top of the stack to the output while there is room. */
  function Pop(stack: seq<byte>, out: seq<byte>, room: nat): (r: (seq<byte>, seq<byte>))
    ensures |r.0| <= |stack| && |r.0| + |r.1| == |stack| + |out|
    decreases |stack|
  {
    if |out| < room && stack != [] then Pop(stack[..|stack| - 1], out + [stack[|stack| - 1]], room)
    else (stack, out)
  }

  /**
   * The expansion walk of ArcExpandBuf: push the last byte of each slot
   * while following parents down to a literal, then push the literal.  The
   * result is the stack and the literal (the first byte of the expansion).
   */
  function Walk(d: Dict, stack: seq<byte>, code: nat): (r: Result<(seq<byte>, nat), ExpandError>)
    requires Wf(d) && code < TableSize
    ensures r.Ok? ==> r.value.1 < d.minTableEntry && |r.value.0| <= StackSize
    decreases StackSize - |stack|
  {
    if |stack| >= StackSize then Err(StackOverflow)
    else if code >= d.minTableEntry then Walk(d, stack + [d.table[code].ch], d.table[code].basecode)
    else Ok((stack + [code], code))
  }

  /** The decoder state the decoding loop can run on. */
  predicate DecReady(ds: DecState)
  {
    Ready(ds.d) && ds.d.curEntry >= 0 && ds.lastCode < TableSize
  }

  /**
   * One pass of the decoding loop of ArcExpandBuf: read a code, expand it
   * (a code equal to the current slot stands for the previous string
   * followed by last_ch), enter the previous code followed by the first byte
   * of the expansion, get a fresh slot and pop what fits.
   */
  function DecodeStep(src: seq<byte>, room: nat, ds: DecState): (r: Result<DecState, ExpandError>)
    requires DecReady(ds) && ds.srcPos + ds.d.nextBits <= 8 * |src|
    ensures r.Ok? ==> DecReady(r.value) && r.value.srcPos == ds.srcPos + ds.d.nextBits
  {
    var w := ds.d.nextBits;
    FieldValueBits(src, ds.srcPos, w);
    Pow2Mono(w, MaxBits);
    Pow2Values();
    var basecode := FieldValue(src, ds.srcPos, w);
    var kwk := ds.d.curEntry == basecode;
    if kwk && |ds.stack| >= StackSize then Err(StackOverflow)
    else
      match Walk(ds.d, if kwk then ds.stack + [ds.lastCh % 256] else ds.stack, if kwk then ds.lastCode else basecode)
      case Err(e) => Err(e)
      case Ok((stack, ch)) =>
        match EntryGet(Link(ds.d, ds.lastCode, ch))
        case None => Err(NoFreeSlot)
        case Some(d1) =>
          var (stack', out') := Pop(stack, ds.out, room);
          Ok(DecState(d1, ds.srcPos + w, stack', out', basecode, ch))
  }

  /**
   * The decoding loop of ArcExpandBuf: decode while there is room and a
   * whole code is left below srcSize.  srcSize is the budget the caller
   * passes; a code that lies within it but past the end of src is a read
   * past the input, and one that reaches bit IntBitLimit is read through a
   * negative bit index.
   */
  function DecodeLoop(src: seq<byte>, srcSize: nat, room: nat, ds: DecState): (r: Result<DecState, ExpandError>)
    requires DecReady(ds)
    ensures r.Ok? ==> DecReady(r.value) && ds.srcPos <= r.value.srcPos
    ensures r.Ok? ==> |r.value.out| >= room || r.value.srcPos + r.value.d.nextBits > srcSize
    decreases srcSize - ds.srcPos, 0
  {
    if |ds.out| < room && ds.srcPos + ds.d.nextBits <= srcSize then
      if ds.srcPos + ds.d.nextBits > 8 * |src| then Err(Overread)
      else if ds.srcPos + ds.d.nextBits > IntBitLimit then Err(NegativeBitIndex)
      else
        match DecodeStep(src, room, ds)
        case Err(e) => Err(e)
        case Ok(ds1) => DecodeRest(src, srcSize, room, ds1)
    else Ok(ds)
  }

  /** The decoding loop of ArcExpandBuf from the state a pass leaves. */
  function DecodeRest(src: seq<byte>, srcSize: nat, room: nat, ds: DecState): (r: Result<DecState, ExpandError>)
    requires DecReady(ds)
    ensures r.Ok? ==> DecReady(r.value) && ds.srcPos <= r.value.srcPos
    ensures r.Ok? ==> |r.value.out| >= room || r.value.srcPos + r.value.d.nextBits > srcSize
    decreases srcSize - ds.srcPos, 1
  {
    DecodeLoop(src, srcSize, room, ds)
  }

  /** The decoder state ArcExpandBuf can start from. */
  predicate ExpandReady(ds: DecState)
  {
    Ready(ds.d) && (ds.lastCode != NoCode ==> ds.d.curEntry >= 0 && ds.lastCode < TableSize)
  }

  /**
   * ArcExpandBuf: pop what is left on the stack; then, if the stack is
   * empty and there is room, decode.  The first call reads its first code
   * as a literal without checking it against srcSize.  The result's lastCode
   * is the new saved_basecode.
   */
  function ExpandCodes(src: seq<byte>, srcSize: nat, room: nat, ds: DecState): (r: Result<DecState, ExpandError>)
    requires ExpandReady(ds)
    ensures r.Ok? ==> r.value.stack != [] || |r.value.out| >= room || r.value.srcPos + r.value.d.nextBits > srcSize
  {
    var (stack, out) := Pop(ds.stack, ds.out, room);
    if stack == [] && |out| < room then
      match ExpandStart(src, ds, out)
      case Err(e) => Err(e)
      case Ok(ds1) => DecodeLoop(src, srcSize, room, ds1)
    else Ok(ds.(stack := stack, out := out))
  }

  /**
   * The state the decoding loop of ArcExpandBuf starts from, once the stack
   * is empty: a resumed call goes on from the saved code; the first call
   * reads its first code at srcPos, writes it out as a literal, makes it
   * the previous code and last_ch, and claims a slot.
   */
  function ExpandStart(src: seq<byte>, ds: DecState, out: seq<byte>): (r: Result<DecState, ExpandError>)
    requires ExpandReady(ds)
    ensures r.Ok? ==> DecReady(r.value)
  {
    if ds.lastCode != NoCode then Ok(ds.(stack := [], out := out))
    else if ds.srcPos + ds.d.nextBits > 8 * |src| then Err(Overread)
    else if ds.srcPos + ds.d.nextBits > IntBitLimit then Err(NegativeBitIndex)
    else
      var first := FieldValue(src, ds.srcPos, ds.d.nextBits);
      FieldValueBits(src, ds.srcPos, ds.d.nextBits);
      Pow2Mono(ds.d.nextBits, MaxBits);
      Pow2Values();
      match EntryGet(ds.d)
      case None => Err(NoFreeSlot)
      case Some(d1) => Ok(DecState(d1, ds.srcPos + ds.d.nextBits, [], out + [first % 256], first, first))
  }
}
