/**
 * The LZW code table of compression.c (the compress[] and hash[] arrays of
 * CArcCtrl and the fields that drive them), as a value.
 *
 * A code below minTableEntry stands for the single byte with that value.  A
 * code at or above it is a slot of the table: table[code] holds the slot's
 * parent code (basecode) and its last byte (ch), and the slot is in use
 * while it is on the chain hash[basecode].  Each hash[p] is the chain of the
 * children of code p, head first, written as a sequence of slot numbers.  A
 * NULL CArcEntry pointer is Null.
 */
module Dictionary {
  import opened BitField
  import opened Optional

  /** ARC_MAX_BITS: the widest code. */
  const MaxBits: nat := 12
  /** 1 << ARC_MAX_BITS: the number of slots of compress[] and hash[]. */
  const TableSize: nat := 4096
  /** A NULL entry pointer. */
  const Null: int := -1

  /** The compression_type values of a container. */
  const CtNone: nat := 1
  const Ct7Bit: nat := 2
  const Ct8Bit: nat := 3

  /** A CArcEntry without its next link (the chain order lives in Dict.hash). */
  datatype Entry = Entry(basecode: nat, ch: byte)

  datatype Dict = Dict(
    minBits: nat,
    minTableEntry: nat,
    curEntry: int,         // the slot the next new string goes into
    nextEntry: int,        // the slot after that
    curBits: nat,          // cur_bits_in_use
    nextBits: nat,         // next_bits_in_use
    freeIndex: nat,
    freeLimit: nat,
    entryUsed: bool,       // curEntry has been filled and a new slot is due
    table: seq<Entry>,     // compress[]
    hash: seq<seq<nat>>)   // hash[]: the chain of children of each code

  /** The shape every control block has once ArcCtrlNew has set it up. */
  predicate Wf(d: Dict)
  {
    && (d.minBits == 7 || d.minBits == 8)
    && d.minTableEntry == (if d.minBits == 7 then 128 else 256)
    && d.minBits < d.nextBits <= MaxBits
    && d.freeLimit == Pow2(d.nextBits) && d.freeLimit <= TableSize
    && d.minTableEntry <= d.freeIndex < d.freeLimit
    && d.curBits <= d.nextBits
    && Null <= d.curEntry < TableSize
    && Null <= d.nextEntry < TableSize
    && |d.table| == TableSize && |d.hash| == TableSize
    && (forall i | 0 <= i < TableSize :: d.table[i].basecode < TableSize)
    && (forall p, k | 0 <= p < TableSize && 0 <= k < |d.hash[p]| :: d.hash[p][k] < TableSize)
  }

  /** A control block whose first slot has been handed out (entry pointers are no longer NULL when needed). */
  predicate Ready(d: Dict)
  {
    Wf(d) && d.nextEntry >= 0 && (d.entryUsed || d.curEntry >= 0)
  }

  /**
   * The recycling search of ArcEntryGet: step i forward, wrapping from limit
   * to lo, until a slot with an empty chain turns up.  The C loop runs until
   * it finds one; the model gives up (None) after one full lap of fuel
   * probes, which is exactly when the C loop would never end.
   */
  function Scan(hash: seq<seq<nat>>, i: nat, limit: nat, lo: nat, fuel: nat): (r: Option<nat>)
    requires lo <= i < limit <= |hash|
    ensures r.Some? ==> lo <= r.value < limit && hash[r.value] == []
    decreases fuel
  {
    if fuel == 0 then None
    else
      var j := if i + 1 == limit then lo else i + 1;
      if hash[j] == [] then Some(j) else Scan(hash, j, limit, lo, fuel - 1)
  }

  /** The chain with its first occurrence of x unlinked. */
  function RemoveFirst(s: seq<nat>, x: nat): (r: seq<nat>)
    ensures forall y | y in r :: y in s
    ensures forall y | y in s && y != x :: y in r
  {
    if s == [] then []
    else if s[0] == x then s[1..]
    else [s[0]] + RemoveFirst(s[1..], x)
  }

  /**
   * ArcEntryGet: when the current slot has been used, it moves on to the
   * next slot and picks the slot after that, either the next never-used slot
   * (while codes are narrower than MaxBits) or, once the table is full, a
   * used slot without children, which is unlinked from its parent's chain.
   * None means the search for such a slot would not end.
   */
  function EntryGet(d: Dict): (r: Option<Dict>)
    requires Wf(d)
    ensures r.Some? ==> Wf(r.value) && r.value.table == d.table
    ensures r.Some? ==> r.value.minBits == d.minBits && r.value.minTableEntry == d.minTableEntry
    ensures !d.entryUsed ==> r == Some(d)
    ensures d.entryUsed && r.Some? ==> !r.value.entryUsed && r.value.curEntry == d.nextEntry
                                       && r.value.curBits == d.nextBits && r.value.nextEntry >= d.minTableEntry
    ensures d.nextBits < MaxBits ==> r.Some?
    ensures Ready(d) && r.Some? ==> Ready(r.value) && r.value.curEntry >= 0
  {
    if !d.entryUsed then Some(d)
    else
      var i := d.freeIndex;
      var d1 := d.(entryUsed := false, curEntry := d.nextEntry, curBits := d.nextBits);
      if d.nextBits < MaxBits then
        if i + 1 == d.freeLimit then
          Pow2Mono(d.nextBits + 1, MaxBits);
          Pow2Values();
          Some(d1.(nextEntry := i, nextBits := d.nextBits + 1, freeLimit := Pow2(d.nextBits + 1), freeIndex := i + 1))
        else
          Some(d1.(nextEntry := i, freeIndex := i + 1))
      else
        Pow2Values();
        match Scan(d.hash, i, d.freeLimit, d.minTableEntry, d.freeLimit - d.minTableEntry)
        case None => None
        case Some(j) =>
          var b := d.table[j].basecode;
          var chain := RemoveFirst(d.hash[b], j);
          assert forall k | 0 <= k < |chain| :: chain[k] in d.hash[b];
          Some(d1.(nextEntry := j, freeIndex := j, hash := d.hash[b := chain]))
  }

  /**
   * The block that fills the current slot with the string of p followed by
   * ch and puts it at the head of p's chain (compression.c 329-335 and
   * 154-160).
   */
  function Link(d: Dict, p: nat, ch: byte): (r: Dict)
    requires Wf(d) && d.curEntry >= 0 && p < TableSize
    ensures Wf(r) && r.entryUsed && (Ready(d) ==> Ready(r))
    ensures r.table[d.curEntry] == Entry(p, ch) && r.hash[p] == [d.curEntry] + d.hash[p]
  {
    d.(entryUsed := true,
       table := d.table[d.curEntry := Entry(p, ch)],
       hash := d.hash[p := [d.curEntry] + d.hash[p]])
  }

  /** The first slot on a chain whose last byte is ch (the inner search of ArcCompressBuf). */
  function FindChild(chain: seq<nat>, table: seq<Entry>, ch: byte): (r: Option<nat>)
    requires forall k | 0 <= k < |chain| :: chain[k] < |table|
    ensures r.Some? ==> r.value in chain && table[r.value].ch == ch
    ensures r.None? ==> forall k | 0 <= k < |chain| :: table[chain[k]].ch != ch
  {
    if chain == [] then None
    else if table[chain[0]].ch == ch then Some(chain[0])
    else FindChild(chain[1..], table, ch)
  }

  /** The number of bits of a literal for a compression type. */
  function MinBits(compressionType: nat): nat
  {
    if compressionType == Ct7Bit then 7 else 8
  }

  /**
   * The table of a fresh control block, as ArcCtrlNew leaves it: all chains
   * empty, no current slot, the first new slot at minTableEntry, and codes
   * one bit wider than a literal.
   */
  function Init(compressionType: nat): (d: Dict)
    ensures Ready(d)
    ensures d.minBits == MinBits(compressionType)
    ensures d.minTableEntry == Pow2(d.minBits)
    ensures d.curEntry == Null && d.nextEntry == d.minTableEntry && d.entryUsed
    ensures d.curBits == d.minBits + 1 && d.nextBits == d.minBits + 1
    ensures d.freeIndex == d.minTableEntry + 1
    ensures forall p | 0 <= p < TableSize :: d.hash[p] == []
  {
    var m := MinBits(compressionType);
    Pow2Values();
    var blank := Dict(m, Pow2(m), Null, Null, 0, m + 1, Pow2(m), Pow2(m + 1), true,
                      seq(TableSize, _ => Entry(0, 0)), seq(TableSize, _ => []));
    var first := EntryGet(blank);
    first.value.(entryUsed := true)
  }
}
