/**
 * What the code table means and why its updates keep that meaning.
 *
 * strs gives every slot the string it stands for; Str extends it to
 * literals.  Inv says that every slot on the chain of p stands for the
 * string of p followed by the slot's byte, that chains have no repeats, that
 * the slots handed out next are free, and how free slots are found.  Under
 * Inv, ArcEntryGet always finds a slot (so the C search terminates), the
 * link step and ArcEntryGet preserve Inv, and no string is longer than the
 * table allows.
 */
module DictionaryFacts {
  import opened BitField
  import opened Optional
  import opened Dictionary

  /** The string a code stands for. */
  ghost function Str(d: Dict, strs: seq<seq<byte>>, c: nat): seq<byte>
    requires Wf(d) && |strs| == TableSize && c < TableSize
  {
    if c < d.minTableEntry then [c] else strs[c]
  }

  /** Slot c is in use: it is on the chain of its parent. */
  predicate Linked(d: Dict, c: nat)
    requires Wf(d)
  {
    d.minTableEntry <= c < TableSize && c in d.hash[d.table[c].basecode]
  }

  /** Code c can be emitted and expanded: a literal or a slot in use. */
  predicate Live(d: Dict, c: nat)
    requires Wf(d)
  {
    c < d.minTableEntry || Linked(d, c)
  }

  predicate NoDup(s: seq<nat>)
  {
    forall i, j | 0 <= i < j < |s| :: s[i] != s[j]
  }

  /** What being on the chain of p means for slot c. */
  ghost predicate ChildOk(d: Dict, strs: seq<seq<byte>>, p: nat, c: nat)
    requires Wf(d) && |strs| == TableSize && p < TableSize
  {
    && d.minTableEntry <= c < TableSize
    && d.table[c].basecode == p
    && strs[c] == Str(d, strs, p) + [d.table[c].ch]
    && c != d.nextEntry
    && (!d.entryUsed ==> c != d.curEntry)
    && Live(d, p)
  }

  /** The chain part of the invariant: every slot on the chain of p stands for the string of p followed by its byte. */
  ghost predicate ChainsOk(d: Dict, strs: seq<seq<byte>>)
  {
    && Wf(d) && |strs| == TableSize
    && (forall p, c {:trigger ChildOk(d, strs, p, c)} | 0 <= p < TableSize && c in d.hash[p] :: ChildOk(d, strs, p, c))
  }

  /** New slots are still handed out in order: everything from nextEntry on is untouched. */
  ghost predicate Growing(d: Dict)
    requires Wf(d)
  {
    && d.freeIndex == d.nextEntry + 1
    && d.curEntry < d.nextEntry
    && (d.nextBits < MaxBits || d.nextEntry + 2 < TableSize)
    && (forall p, c | 0 <= p < TableSize && c in d.hash[p] :: c < d.nextEntry)
    && (forall j | d.nextEntry <= j < TableSize :: d.hash[j] == [])
  }

  /** The table is full and slots are recycled, the search starting after nextEntry. */
  ghost predicate Recycling(d: Dict)
  {
    d.nextBits == MaxBits && d.freeIndex == d.nextEntry
  }

  ghost predicate Inv(d: Dict, strs: seq<seq<byte>>)
  {
    && Wf(d) && |strs| == TableSize
    && (forall p, c {:trigger ChildOk(d, strs, p, c)} | 0 <= p < TableSize && c in d.hash[p] :: ChildOk(d, strs, p, c))
    && (forall p {:trigger NoDup(d.hash[p])} | 0 <= p < TableSize :: NoDup(d.hash[p]))
    && d.minTableEntry <= d.nextEntry && d.hash[d.nextEntry] == []
    && (!d.entryUsed ==> d.minTableEntry <= d.curEntry && d.curEntry != d.nextEntry && d.hash[d.curEntry] == [])
    && (Growing(d) || Recycling(d))
  }

  /** A slot in use stands for the string of its live parent followed by its byte. */
  lemma ParentStr(d: Dict, strs: seq<seq<byte>>, c: nat)
    requires Inv(d, strs) && c < TableSize && Linked(d, c)
    ensures Live(d, d.table[c].basecode)
    ensures Str(d, strs, c) == Str(d, strs, d.table[c].basecode) + [d.table[c].ch]
  {
    assert ChildOk(d, strs, d.table[c].basecode, c);
  }

  /** A slot on the chain of p is a slot in use whose parent is p. */
  lemma ChildStr(d: Dict, strs: seq<seq<byte>>, p: nat, c: nat)
    requires Inv(d, strs) && p < TableSize && c in d.hash[p]
    ensures c < TableSize && Linked(d, c) && d.table[c].basecode == p
    ensures Str(d, strs, c) == Str(d, strs, p) + [d.table[c].ch]
  {
    assert ChildOk(d, strs, p, c);
  }

  /** The table of a fresh control block satisfies the invariant. */
  lemma InitInv(compressionType: nat)
    ensures Inv(Init(compressionType), seq(TableSize, _ => []))
  {
    Pow2Values();
  }

  lemma RemoveFirstNoDup(s: seq<nat>, x: nat)
    requires NoDup(s)
    ensures NoDup(RemoveFirst(s, x)) && x !in RemoveFirst(s, x)
  {
    if s != [] && s[0] != x {
      RemoveFirstNoDup(s[1..], x);
      assert s[0] !in s[1..];
    }
  }

  /** The number of probes after which the search from i reaches y. */
  function Dist(i: nat, y: nat, lo: nat, limit: nat): nat
    requires lo <= i < limit && lo <= y < limit
  {
    if y > i then y - i else y - i + (limit - lo)
  }

  /** The search from i finds a free slot no later than a free slot y it would reach within its fuel. */
  lemma {:induction false} ScanFinds(hash: seq<seq<nat>>, i: nat, limit: nat, lo: nat, fuel: nat, y: nat)
    requires lo <= i < limit <= |hash| && lo <= y < limit
    requires hash[y] == [] && Dist(i, y, lo, limit) <= fuel
    ensures Scan(hash, i, limit, lo, fuel).Some?
    ensures Dist(i, Scan(hash, i, limit, lo, fuel).value, lo, limit) <= Dist(i, y, lo, limit)
    decreases fuel
  {
    var j := if i + 1 == limit then lo else i + 1;
    if hash[j] != [] {
      ScanFinds(hash, j, limit, lo, fuel - 1, y);
    }
  }

  /** Picks a slot in [lo, hi) other than x whose string is longest. */
  ghost function LongestSlot(strs: seq<seq<byte>>, lo: nat, hi: nat, x: nat): (j: nat)
    requires lo < hi <= |strs| && hi - lo >= 2
    ensures lo <= j < hi && j != x
    ensures forall k | lo <= k < hi && k != x :: |strs[k]| <= |strs[j]|
    decreases hi - lo
  {
    if hi - lo == 2 then
      if lo == x then lo + 1
      else if lo + 1 == x then lo
      else if |strs[lo]| >= |strs[lo + 1]| then lo else lo + 1
    else
      var j := LongestSlot(strs, lo + 1, hi, x);
      if lo != x && |strs[lo]| > |strs[j]| then lo else j
  }

  /** Some slot other than x has no children: under Inv a child's string is longer than its parent's. */
  lemma LeafExists(d: Dict, strs: seq<seq<byte>>, x: nat) returns (j: nat)
    requires Inv(d, strs)
    requires forall p, c | 0 <= p < TableSize && c in d.hash[p] :: c != x
    ensures d.minTableEntry <= j < TableSize && j != x && d.hash[j] == []
  {
    j := LongestSlot(strs, d.minTableEntry, TableSize, x);
    if d.hash[j] != [] {
      FirstChildLonger(d, strs, j);
      assert false;
    }
  }

  /** The first child on a chain stands for a string one byte longer than its parent's. */
  lemma FirstChildLonger(d: Dict, strs: seq<seq<byte>>, p: nat)
    requires Inv(d, strs) && p < TableSize && d.hash[p] != []
    ensures d.hash[p][0] in d.hash[p]
    ensures d.minTableEntry <= d.hash[p][0] < TableSize
    ensures |Str(d, strs, d.hash[p][0])| == |Str(d, strs, p)| + 1
  {
    assert d.hash[p][0] in d.hash[p];
    assert ChildOk(d, strs, p, d.hash[p][0]);
  }

  /** Under Inv, ArcEntryGet always finds a slot, keeps Inv, and only takes slots out of use. */
  lemma EntryGetInv(d: Dict, strs: seq<seq<byte>>)
    requires Inv(d, strs) && d.entryUsed
    ensures EntryGet(d).Some?
    ensures Inv(EntryGet(d).value, strs)
    ensures forall c: nat | Live(EntryGet(d).value, c) :: Live(d, c)
    ensures forall c: nat | Live(EntryGet(d).value, c) :: c < Pow2(EntryGet(d).value.curBits)
  {
    if d.nextBits < MaxBits {
      EntryGetGrowInv(d, strs);
    } else {
      EntryGetRecycleInv(d, strs);
    }
  }

  lemma EntryGetGrowInv(d: Dict, strs: seq<seq<byte>>)
    requires Inv(d, strs) && d.entryUsed && d.nextBits < MaxBits
    ensures EntryGet(d).Some?
    ensures Inv(EntryGet(d).value, strs)
    ensures forall c: nat | Live(EntryGet(d).value, c) :: Live(d, c)
    ensures forall c: nat | Live(EntryGet(d).value, c) :: c < Pow2(EntryGet(d).value.curBits)
  {
    Pow2Values();
    var M := d.minTableEntry;
    var d' := EntryGet(d).value;
    assert Growing(d);
    assert d'.hash == d.hash;
    forall p, c | 0 <= p < TableSize && c in d'.hash[p]
      ensures ChildOk(d', strs, p, c)
    {
      assert ChildOk(d, strs, p, c);
    }
    if d.freeIndex + 1 == d.freeLimit && d.nextBits + 1 == MaxBits {
      assert d.freeLimit == 2048;
    }
    assert Growing(d');
    Pow2Mono(d.minBits + 1, d.nextBits);
    assert Pow2(d.minBits + 1) == 2 * M;
    forall c: nat | Live(d', c)
      ensures c < Pow2(d'.curBits)
    {
      if c >= M {
        assert c in d.hash[d.table[c].basecode];
      }
    }
  }

  /** In the recycling phase the slot found is not the one just made current. */
  lemma RecycleSlot(d: Dict, strs: seq<seq<byte>>) returns (j: nat)
    requires Inv(d, strs) && d.entryUsed && d.nextBits == MaxBits
    ensures Scan(d.hash, d.freeIndex, d.freeLimit, d.minTableEntry, d.freeLimit - d.minTableEntry) == Some(j)
    ensures j != d.nextEntry
  {
    Pow2Values();
    var M := d.minTableEntry;
    assert d.freeLimit == TableSize;
    var N := TableSize - M;
    var start := d.freeIndex;
    if Growing(d) {
      ScanFinds(d.hash, start, TableSize, M, N, d.nextEntry + 2);
    } else {
      forall p, c | 0 <= p < TableSize && c in d.hash[p]
        ensures c != d.nextEntry
      {
        assert ChildOk(d, strs, p, c);
      }
      var leaf := LeafExists(d, strs, d.nextEntry);
      ScanFinds(d.hash, start, TableSize, M, N, leaf);
    }
    j := Scan(d.hash, start, TableSize, M, N).value;
  }

  lemma EntryGetRecycleInv(d: Dict, strs: seq<seq<byte>>)
    requires Inv(d, strs) && d.entryUsed && d.nextBits == MaxBits
    ensures EntryGet(d).Some?
    ensures Inv(EntryGet(d).value, strs)
    ensures forall c: nat | Live(EntryGet(d).value, c) :: Live(d, c)
    ensures forall c: nat | Live(EntryGet(d).value, c) :: c < Pow2(EntryGet(d).value.curBits)
  {
    Pow2Values();
    var M := d.minTableEntry;
    var j := RecycleSlot(d, strs);
    var b := d.table[j].basecode;
    var d' := EntryGet(d).value;
    RemoveFirstNoDup(d.hash[b], j);
    assert d'.hash == d.hash[b := RemoveFirst(d.hash[b], j)];
    assert d' == d.(entryUsed := false, curEntry := d.nextEntry, curBits := d.nextBits,
                    nextEntry := j, freeIndex := j, hash := d'.hash);
    forall p, c | 0 <= p < TableSize && c in d'.hash[p]
      ensures c in d.hash[p] && c != j
    {
      if p != b {
        assert ChildOk(d, strs, p, c);
      }
    }
    forall c: nat | Linked(d, c) && c != j
      ensures Linked(d', c)
    {
    }
    forall p, c | 0 <= p < TableSize && c in d'.hash[p]
      ensures ChildOk(d', strs, p, c)
    {
      assert ChildOk(d, strs, p, c);
      if p >= M {
        assert Linked(d, p);
        assert p != j;
      }
    }
    forall p | 0 <= p < TableSize
      ensures NoDup(d'.hash[p])
    {
    }
    assert Recycling(d');
  }

  /** Before the link step: the current slot is on no chain and differs from the parent. */
  lemma LinkPre(d: Dict, strs: seq<seq<byte>>, p: nat)
    requires Inv(d, strs) && !d.entryUsed && p < TableSize && Live(d, p)
    ensures d.minTableEntry <= d.curEntry
    ensures forall q, c | 0 <= q < TableSize && c in d.hash[q] :: c != d.curEntry
    ensures p != d.curEntry && p != d.nextEntry
    ensures !Linked(d, d.curEntry)
  {
    forall q, c | 0 <= q < TableSize && c in d.hash[q]
      ensures c != d.curEntry
    {
      assert ChildOk(d, strs, q, c);
    }
    if p >= d.minTableEntry {
      assert ChildOk(d, strs, d.table[p].basecode, p);
    }
  }

  /** The link step puts the current slot in use and changes the use of no other slot. */
  lemma LinkLinked(d: Dict, strs: seq<seq<byte>>, p: nat, ch: byte)
    requires Inv(d, strs) && !d.entryUsed && p < TableSize && Live(d, p)
    ensures d.curEntry >= 0 && Linked(Link(d, p, ch), d.curEntry)
    ensures forall c: nat | Live(d, c) :: Live(Link(d, p, ch), c)
    ensures forall c: nat | Live(Link(d, p, ch), c) :: Live(d, c) || c == d.curEntry
  {
    LinkPre(d, strs, p);
    var cur := d.curEntry;
    var d' := Link(d, p, ch);
    forall c: nat | Linked(d, c)
      ensures Linked(d', c)
    {
    }
    forall c: nat | Linked(d', c) && c != cur
      ensures Linked(d, c)
    {
      if d.table[c].basecode == p {
        assert c in [cur] + d.hash[p];
      }
    }
  }

  lemma LinkChildren(d: Dict, strs: seq<seq<byte>>, p: nat, ch: byte)
    requires Inv(d, strs) && !d.entryUsed && p < TableSize && Live(d, p)
    ensures d.curEntry >= 0
    ensures var d' := Link(d, p, ch);
            var strs' := strs[d.curEntry := Str(d, strs, p) + [ch]];
            forall q, c | 0 <= q < TableSize && c in d'.hash[q] :: ChildOk(d', strs', q, c)
  {
    LinkPre(d, strs, p);
    LinkLinked(d, strs, p, ch);
    var cur := d.curEntry;
    var d' := Link(d, p, ch);
    var strs' := strs[cur := Str(d, strs, p) + [ch]];
    var M := d.minTableEntry;
    forall q, c | 0 <= q < TableSize && c in d'.hash[q]
      ensures ChildOk(d', strs', q, c)
    {
      if q == p && c == cur {
      } else {
        if q == p {
          assert c in d.hash[p];
        }
        assert ChildOk(d, strs, q, c);
        assert Live(d', q);
      }
    }
  }

  /**
   * The link step preserves Inv when the parent is live and the current slot
   * is fresh: the current slot then stands for the parent's string followed
   * by ch, and nothing else changes meaning.
   */
  lemma LinkInv(d: Dict, strs: seq<seq<byte>>, p: nat, ch: byte)
    requires Inv(d, strs) && !d.entryUsed && p < TableSize && Live(d, p)
    ensures d.curEntry >= 0
    ensures Inv(Link(d, p, ch), strs[d.curEntry := Str(d, strs, p) + [ch]])
    ensures Linked(Link(d, p, ch), d.curEntry)
    ensures Str(Link(d, p, ch), strs[d.curEntry := Str(d, strs, p) + [ch]], d.curEntry) == Str(d, strs, p) + [ch]
    ensures forall c | 0 <= c < TableSize && c != d.curEntry ::
              Str(Link(d, p, ch), strs[d.curEntry := Str(d, strs, p) + [ch]], c) == Str(d, strs, c)
    ensures forall c: nat | Live(d, c) :: Live(Link(d, p, ch), c)
    ensures forall c: nat | Live(Link(d, p, ch), c) :: Live(d, c) || c == d.curEntry
  {
    LinkPre(d, strs, p);
    LinkLinked(d, strs, p, ch);
    LinkChildren(d, strs, p, ch);
    var cur := d.curEntry;
    var d' := Link(d, p, ch);
    forall q | 0 <= q < TableSize
      ensures NoDup(d'.hash[q])
    {
      if q == p {
        assert NoDup(d.hash[p]);
        assert cur !in d.hash[p];
      }
    }
    if Growing(d) {
      forall q, c | 0 <= q < TableSize && c in d'.hash[q]
        ensures c < d'.nextEntry
      {
        if q == p && c != cur {
          assert c in d.hash[p];
        }
      }
      assert Growing(d');
    }
  }

  /** The slots above the literals, as a set. */
  ghost function SlotRange(lo: nat, hi: nat): (s: set<nat>)
    ensures forall x :: x in s <==> lo <= x < hi
    ensures |s| == if hi >= lo then hi - lo else 0
    decreases hi - lo
  {
    if hi <= lo then {} else {lo} + SlotRange(lo + 1, hi)
  }

  /** The slots met when following parents from c down to a literal. */
  ghost function Ancestors(d: Dict, strs: seq<seq<byte>>, c: nat): (s: set<nat>)
    requires Inv(d, strs) && c < TableSize && Live(d, c)
    ensures |s| == |Str(d, strs, c)| - 1
    ensures forall a | a in s :: d.minTableEntry <= a < TableSize && |Str(d, strs, a)| <= |Str(d, strs, c)|
    decreases |Str(d, strs, c)|
  {
    if c < d.minTableEntry then {}
    else
      var b := d.table[c].basecode;
      assert ChildOk(d, strs, b, c);
      var s := Ancestors(d, strs, b);
      assert c !in s;
      {c} + s
  }

  /** No live code stands for a string longer than the number of slots plus one. */
  lemma StrBound(d: Dict, strs: seq<seq<byte>>, c: nat)
    requires Inv(d, strs) && c < TableSize && Live(d, c)
    ensures 1 <= |Str(d, strs, c)| <= TableSize - d.minTableEntry + 1
  {
    var a := Ancestors(d, strs, c);
    var r := SlotRange(d.minTableEntry, TableSize);
    SubsetCard(a, r);
  }

  lemma {:induction false} SubsetCard(a: set<nat>, b: set<nat>)
    requires a <= b
    ensures |a| <= |b|
    decreases |b|
  {
    if a != {} {
      var x :| x in a;
      SubsetCard(a - {x}, b - {x});
    }
  }

  /**
   * The widening to 12-bit codes skips slot 2048: the call of ArcEntryGet
   * that hands out slot 2047 raises the width and leaves the free index at
   * 2048, and the next one, now recycling, steps past it before testing and
   * takes slot 2049 (when that slot has no children).
   */
  lemma SkipsFirstWideSlot(d: Dict)
    requires Wf(d) && d.entryUsed && d.nextBits == MaxBits - 1 && d.freeIndex == 2047
    requires d.hash[2049] == []
    ensures EntryGet(d).Some?
    ensures var d1 := EntryGet(d).value;
            && d1.nextEntry == 2047 && d1.nextBits == MaxBits && d1.freeIndex == 2048
            && EntryGet(d1.(entryUsed := true)).Some?
            && EntryGet(d1.(entryUsed := true)).value.nextEntry == 2049
  {
    Pow2Values();
    var d1 := EntryGet(d).value;
    assert d1.freeLimit == 4096;
    assert Scan(d1.hash, 2048, 4096, d1.minTableEntry, 4096 - d1.minTableEntry) == Some(2049);
  }
}
