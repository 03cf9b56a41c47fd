/**
 * Little-endian bit fields over byte buffers: the helpers Bt, Bts,
 * BFieldExtU32 and BFieldOrU32 of compression.c.  Bit n of a buffer is bit
 * n % 8 of byte n / 8.  The bit operations are defined by recursion on the
 * binary digits (halving and doubling), so that every proof about them stays
 * within linear arithmetic.
 */
module BitField {

  /** An unsigned 8-bit value (BYTE). */
  type byte = x: int | 0 <= x < 256

  function Pow2(n: nat): (r: nat)
    ensures r >= 1
  {
    if n == 0 then 1 else 2 * Pow2(n - 1)
  }

  lemma {:induction false} Pow2Mono(a: nat, b: nat)
    requires a <= b
    ensures Pow2(a) <= Pow2(b)
  {
    if a < b {
      Pow2Mono(a, b - 1);
    }
  }

  lemma Pow2Values()
    ensures Pow2(0) == 1 && Pow2(1) == 2 && Pow2(7) == 128 && Pow2(8) == 256
    ensures Pow2(9) == 512 && Pow2(11) == 2048 && Pow2(12) == 4096
  {
  }

  /** Bit i of x (x >> i & 1). */
  predicate BitOf(x: nat, i: nat)
  {
    if i == 0 then x % 2 == 1 else BitOf(x / 2, i - 1)
  }

  /** x << s. */
  function Shl(x: nat, s: nat): nat
  {
    if s == 0 then x else 2 * Shl(x, s - 1)
  }

  /** x >> s. */
  function Shr(x: nat, s: nat): nat
  {
    if s == 0 then x else Shr(x / 2, s - 1)
  }

  /** The low n bits of x (x truncated to an n-bit unsigned integer). */
  function Low(x: nat, n: nat): (r: nat)
    ensures r < Pow2(n)
  {
    if n == 0 then 0 else x % 2 + 2 * Low(x / 2, n - 1)
  }

  /** Bitwise OR of two naturals. */
  function Or(a: nat, b: nat): nat
    decreases a + b
  {
    if a == 0 && b == 0 then 0
    else 2 * Or(a / 2, b / 2) + (if a % 2 == 1 || b % 2 == 1 then 1 else 0)
  }

  lemma {:induction false} BitOfZero(i: nat)
    ensures !BitOf(0, i)
  {
    if i > 0 {
      BitOfZero(i - 1);
    }
  }

  lemma {:induction false} BitsAbove(x: nat, w: nat, i: nat)
    requires x < Pow2(w) && i >= w
    ensures !BitOf(x, i)
  {
    if w == 0 {
      BitOfZero(i);
    } else {
      BitsAbove(x / 2, w - 1, i - 1);
    }
  }

  lemma {:induction false} BitOfShl(x: nat, s: nat, i: nat)
    ensures BitOf(Shl(x, s), i) == (i >= s && BitOf(x, i - s))
  {
    if s > 0 {
      if i == 0 {
      } else {
        assert Shl(x, s) / 2 == Shl(x, s - 1);
        BitOfShl(x, s - 1, i - 1);
      }
    }
  }

  lemma {:induction false} BitOfShr(x: nat, s: nat, i: nat)
    ensures BitOf(Shr(x, s), i) == BitOf(x, s + i)
  {
    if s > 0 {
      BitOfShr(x / 2, s - 1, i);
    }
  }

  lemma {:induction false} BitOfLow(x: nat, n: nat, i: nat)
    ensures BitOf(Low(x, n), i) == (i < n && BitOf(x, i))
  {
    if n == 0 {
      BitOfZero(i);
    } else if i > 0 {
      assert Low(x, n) / 2 == Low(x / 2, n - 1);
      BitOfLow(x / 2, n - 1, i - 1);
    }
  }

  lemma {:induction false} OrBit(a: nat, b: nat, i: nat)
    ensures BitOf(Or(a, b), i) == (BitOf(a, i) || BitOf(b, i))
    decreases i
  {
    if a == 0 && b == 0 {
      BitOfZero(i);
    } else {
      var c := if a % 2 == 1 || b % 2 == 1 then 1 else 0;
      assert Or(a, b) == 2 * Or(a / 2, b / 2) + c;
      Halves(Or(a / 2, b / 2), c);
      if i > 0 {
        OrBit(a / 2, b / 2, i - 1);
      }
    }
  }

  /** Halving undoes doubling, and the remainder is the bit added. */
  lemma Halves(x: nat, c: nat)
    requires c < 2
    ensures (2 * x + c) / 2 == x && (2 * x + c) % 2 == c
  {
  }

  lemma {:induction false} OrBound(a: nat, b: nat, n: nat)
    requires a < Pow2(n) && b < Pow2(n)
    ensures Or(a, b) < Pow2(n)
  {
    if n > 0 && !(a == 0 && b == 0) {
      OrBound(a / 2, b / 2, n - 1);
    }
  }

  /** Pow2(s) has exactly bit s set. */
  lemma {:induction false} BitOfPow2(s: nat, i: nat)
    ensures BitOf(Pow2(s), i) == (i == s)
  {
    if s == 0 {
      if i > 0 {
        BitOfZero(i - 1);
      }
    } else if i > 0 {
      BitOfPow2(s - 1, i - 1);
    }
  }

  /** Two numbers below 2^w with the same low w bits are equal. */
  lemma {:induction false} BitsEqual(x: nat, y: nat, w: nat)
    requires x < Pow2(w) && y < Pow2(w)
    requires forall i | 0 <= i < w :: BitOf(x, i) == BitOf(y, i)
    ensures x == y
  {
    if w > 0 {
      assert BitOf(x, 0) == BitOf(y, 0);
      forall i | 0 <= i < w - 1
        ensures BitOf(x / 2, i) == BitOf(y / 2, i)
      {
        assert BitOf(x, i + 1) == BitOf(y, i + 1);
      }
      BitsEqual(x / 2, y / 2, w - 1);
    }
  }

  /** Setting bit i of a number below 2^i adds 2^i. */
  lemma {:induction false} OrBelow(x: nat, i: nat)
    requires x < Pow2(i)
    ensures Or(x, Pow2(i)) == x + Pow2(i)
  {
    if i > 0 {
      OrBelow(x / 2, i - 1);
    }
  }

  /**
   * Bt and Bts take their bit index as an int, and BFieldExtU32 passes them
   * the DWORD pos + i: from bit IntBitLimit on the index is negative and the
   * byte read lies before the buffer.  The methods below therefore read and
   * write only bits below IntBitLimit; the predicate Bt is the bit at any
   * natural index, which the C function agrees with below IntBitLimit.
   */
  const IntBitLimit: nat := 0x8000_0000

  /** Bt: bit bitNum of the buffer. */
  predicate Bt(bitNum: nat, field: seq<byte>)
    requires bitNum / 8 < |field|
  {
    BitOf(field[bitNum / 8], bitNum % 8)
  }

  /** Bt tests bit bitNum & 7 of byte bitNum >> 3, that is (field[bitNum >> 3] >> (bitNum & 7)) & 1. */
  lemma BtShift(bitNum: nat, field: seq<byte>)
    requires bitNum / 8 < |field|
    ensures Bt(bitNum, field) <==> Shr(field[bitNum / 8] as nat, bitNum % 8) % 2 == 1
  {
    BitOfShr(field[bitNum / 8] as nat, bitNum % 8, 0);
  }

  /** The buffer after Bts(bitNum, field): bit bitNum set, every other bit kept. */
  function SetBit(field: seq<byte>, bitNum: nat): (r: seq<byte>)
    requires bitNum / 8 < |field|
    ensures |r| == |field|
    ensures forall n | 0 <= n < 8 * |field| :: Bt(n, r) == (n == bitNum || Bt(n, field))
  {
    var k := bitNum / 8;
    var s := bitNum % 8;
    Pow2Values();
    Pow2Mono(s, 8);
    OrBound(field[k], Pow2(s), 8);
    var r := field[k := Or(field[k], Pow2(s))];
    assert forall n | 0 <= n < 8 * |field| :: Bt(n, r) == (n == bitNum || Bt(n, field)) by {
      forall n | 0 <= n < 8 * |field|
        ensures Bt(n, r) == (n == bitNum || Bt(n, field))
      {
        if n / 8 == k {
          OrBit(field[k], Pow2(s), n % 8);
          BitOfPow2(s, n % 8);
        }
      }
    }
    r
  }

  /** Bts: returns the previous value of bit bitNum and sets it. */
  method Bts(bitNum: nat, field: array<byte>) returns (was: bool)
    requires bitNum / 8 < field.Length && bitNum < IntBitLimit
    modifies field
    ensures was == Bt(bitNum, old(field[..]))
    ensures field[..] == SetBit(old(field[..]), bitNum)
  {
    var k := bitNum / 8;
    var s := bitNum % 8;
    was := BitOf(field[k], s);
    Pow2Values();
    Pow2Mono(s, 8);
    OrBound(field[k], Pow2(s), 8);
    field[k] := Or(field[k], Pow2(s));
  }

  /** The value of the bits field[pos .. pos + bits), bit pos + i having weight 2^i. */
  function FieldValue(field: seq<byte>, pos: nat, bits: nat): nat
    requires pos + bits <= 8 * |field|
  {
    if bits == 0 then 0
    else FieldValue(field, pos, bits - 1) + (if Bt(pos + bits - 1, field) then Pow2(bits - 1) else 0)
  }

  /** Adding 2^n to a number below 2^n sets bit n and keeps the others. */
  lemma {:induction false} BitOfAddTop(v: nat, n: nat, i: nat)
    requires v < Pow2(n)
    ensures BitOf(v + Pow2(n), i) == (i == n || BitOf(v, i))
  {
    OrBelow(v, n);
    OrBit(v, Pow2(n), i);
    BitOfPow2(n, i);
  }

  /** FieldValue is the number whose low bits are the bits read, and nothing above them. */
  lemma {:induction false} FieldValueBits(field: seq<byte>, pos: nat, bits: nat)
    requires pos + bits <= 8 * |field|
    ensures FieldValue(field, pos, bits) < Pow2(bits)
    ensures forall i | 0 <= i < bits :: BitOf(FieldValue(field, pos, bits), i) == Bt(pos + i, field)
  {
    if bits > 0 {
      FieldValueBits(field, pos, bits - 1);
      var v := FieldValue(field, pos, bits - 1);
      forall i | 0 <= i < bits
        ensures BitOf(FieldValue(field, pos, bits), i) == Bt(pos + i, field)
      {
        if Bt(pos + bits - 1, field) {
          BitOfAddTop(v, bits - 1, i);
        }
        if i == bits - 1 {
          BitsAbove(v, bits - 1, i);
        }
      }
    }
  }

  /** Reading w bits that hold the low bits of c (c < 2^w) yields c. */
  lemma ReadBack(field: seq<byte>, pos: nat, w: nat, c: nat)
    requires pos + w <= 8 * |field| && c < Pow2(w)
    requires forall i | 0 <= i < w :: Bt(pos + i, field) == BitOf(c, i)
    ensures FieldValue(field, pos, w) == c
  {
    FieldValueBits(field, pos, w);
    BitsEqual(FieldValue(field, pos, w), c, w);
  }

  /** BFieldExtU32 (which only reads its buffer): the bits field[pos .. pos + bits) as a number, setting result bit i from bit pos + i. */
  method BFieldExtU32(field: seq<byte>, pos: nat, bits: nat) returns (result: nat)
    requires bits <= 32 && pos + bits <= 8 * |field| && pos + bits <= IntBitLimit
    ensures result == FieldValue(field, pos, bits)
    ensures result < Pow2(bits)
  {
    result := 0;
    var i := 0;
    while i < bits
      invariant 0 <= i <= bits
      invariant result == FieldValue(field, pos, i)
      invariant result < Pow2(i)
    {
      ByteIndex(pos + i, |field|);
      if BitOf(field[(pos + i) / 8], (pos + i) % 8) {
        // Bts(i, &result): result is below 2^i, so setting bit i adds 2^i.
        OrBelow(result, i);
        result := Or(result, Pow2(i));
      }
      i := i + 1;
    }
  }

  /** A bit below 8 * len lies in one of the len bytes. */
  lemma ByteIndex(n: nat, len: nat)
    requires n < 8 * len
    ensures n / 8 < len
  {
  }

  /** Byte j (0 = least significant) of a number. */
  function ByteOf(p: nat, j: nat): (r: byte)
  {
    Pow2Values();
    Low(Shr(p, 8 * j), 8)
  }

  lemma BitOfByteOf(p: nat, j: nat, r: nat)
    requires r < 8
    ensures BitOf(ByteOf(p, j), r) == BitOf(p, 8 * j + r)
  {
    BitOfLow(Shr(p, 8 * j), 8, r);
    BitOfShr(p, 8 * j, r);
  }

  /** ORs bytes 0 .. n-1 of p into field[k .. k + n). */
  function OrBytes(field: seq<byte>, k: nat, p: nat, n: nat): (r: seq<byte>)
    requires k + n <= |field|
    ensures |r| == |field|
    ensures forall i | 0 <= i < |field| :: r[i] == if k <= i < k + n then Or(field[i], ByteOf(p, i - k)) else field[i]
  {
    if n == 0 then field
    else
      var f := OrBytes(field, k, p, n - 1);
      Pow2Values();
      OrBound(field[k + n - 1], ByteOf(p, n - 1), 8);
      f[k + n - 1 := Or(field[k + n - 1], ByteOf(p, n - 1))]
  }

  /**
   * The buffer after BFieldOrU32(field, bitNum, pattern): the DWORD
   * pattern << (bitNum % 8), truncated to 32 bits, is ORed into the four
   * little-endian bytes at byte bitNum / 8.
   */
  function OrU32(field: seq<byte>, bitNum: nat, pattern: nat): (r: seq<byte>)
    requires bitNum / 8 + 4 <= |field|
    ensures |r| == |field|
  {
    OrBytes(field, bitNum / 8, Low(Shl(pattern, bitNum % 8), 32), 4)
  }

  /** Each bit of the buffer after BFieldOrU32. */
  lemma OrU32Bits(field: seq<byte>, bitNum: nat, pattern: nat, n: nat)
    requires bitNum / 8 + 4 <= |field| && n < 8 * |field|
    ensures Bt(n, OrU32(field, bitNum, pattern))
         == (Bt(n, field) || (bitNum <= n < 8 * (bitNum / 8) + 32 && BitOf(pattern, n - bitNum)))
  {
    var k := bitNum / 8;
    var s := bitNum % 8;
    var p := Low(Shl(pattern, s), 32);
    var r := OrU32(field, bitNum, pattern);
    var i := n / 8;
    var b := n % 8;
    if k <= i < k + 4 {
      var j := i - k;
      var t := n - 8 * k;
      assert r[i] == Or(field[i], ByteOf(p, j));
      OrBit(field[i], ByteOf(p, j), b);
      BitOfByteOf(p, j, b);
      OffsetFacts(bitNum, n, k, s, i, b, j, t);
      BitOfLow(Shl(pattern, s), 32, t);
      BitOfShl(pattern, s, t);
    } else {
      assert r[i] == field[i];
      assert !(bitNum <= n < 8 * k + 32);
    }
  }

  /** Where bit n sits relative to the byte k = bitNum / 8 that an OR at bitNum starts from. */
  lemma OffsetFacts(bitNum: nat, n: nat, k: nat, s: nat, i: nat, b: nat, j: int, t: int)
    requires k == bitNum / 8 && s == bitNum % 8 && i == n / 8 && b == n % 8
    requires k <= i < k + 4 && j == i - k && t == n - 8 * k
    ensures t >= 0 && 8 * j + b == t
    ensures (bitNum <= n < 8 * k + 32) == (t < 32 && t >= s)
    ensures t >= s ==> t - s == n - bitNum
  {
  }

  /** No bit at or above position from is set. */
  ghost predicate ClearFrom(field: seq<byte>, from: nat)
  {
    forall n | from <= n < 8 * |field| :: !Bt(n, field)
  }

  /** Two buffers of the same length agree on every bit below position hi. */
  ghost predicate SameBelow(a: seq<byte>, b: seq<byte>, hi: nat)
  {
    |a| == |b| && forall n | 0 <= n < hi && n < 8 * |a| :: Bt(n, a) == Bt(n, b)
  }

  /**
   * Writing a w-bit code c into a buffer that is clear from pos on keeps the
   * bits below pos, puts the bits of c at pos .. pos + w, and leaves the
   * buffer clear from pos + w on.
   */
  lemma WriteCode(field: seq<byte>, pos: nat, c: nat, w: nat)
    requires pos / 8 + 4 <= |field| && c < Pow2(w) && w <= 24
    requires ClearFrom(field, pos)
    ensures |OrU32(field, pos, c)| == |field|
    ensures SameBelow(field, OrU32(field, pos, c), pos)
    ensures forall i | 0 <= i < w && pos + i < 8 * |field| :: Bt(pos + i, OrU32(field, pos, c)) == BitOf(c, i)
    ensures ClearFrom(OrU32(field, pos, c), pos + w)
  {
    var r := OrU32(field, pos, c);
    forall n | 0 <= n < 8 * |field|
      ensures Bt(n, r) == (Bt(n, field) || (pos <= n < 8 * (pos / 8) + 32 && BitOf(c, n - pos)))
    {
      OrU32Bits(field, pos, c, n);
    }
    forall n | pos + w <= n < 8 * |field|
      ensures !Bt(n, r)
    {
      BitsAbove(c, w, n - pos);
    }
  }

  /** An OR at position pos never changes the bits below pos. */
  lemma OrU32Below(field: seq<byte>, pos: nat, c: nat, hi: nat)
    requires pos / 8 + 4 <= |field| && hi <= pos
    ensures SameBelow(field, OrU32(field, pos, c), hi)
  {
    forall n | 0 <= n < hi && n < 8 * |field|
      ensures Bt(n, OrU32(field, pos, c)) == Bt(n, field)
    {
      OrU32Bits(field, pos, c, n);
    }
  }

  /** BFieldOrU32: ORs pattern << (bitNum % 8) into the DWORD at byte bitNum / 8. */
  method BFieldOrU32(field: array<byte>, bitNum: nat, pattern: nat)
    requires bitNum / 8 + 4 <= field.Length
    modifies field
    ensures field[..] == OrU32(old(field[..]), bitNum, pattern)
  {
    var k := bitNum / 8;
    var p := Low(Shl(pattern, bitNum % 8), 32);
    ghost var f0 := field[..];
    Pow2Values();
    // The four little-endian bytes of the DWORD at byte k.
    OrBound(field[k], ByteOf(p, 0), 8);
    field[k] := Or(field[k], ByteOf(p, 0));
    assert field[..] == OrBytes(f0, k, p, 1);
    OrBound(field[k + 1], ByteOf(p, 1), 8);
    field[k + 1] := Or(field[k + 1], ByteOf(p, 1));
    assert field[..] == OrBytes(f0, k, p, 2);
    OrBound(field[k + 2], ByteOf(p, 2), 8);
    field[k + 2] := Or(field[k + 2], ByteOf(p, 2));
    assert field[..] == OrBytes(f0, k, p, 3);
    OrBound(field[k + 3], ByteOf(p, 3), 8);
    field[k + 3] := Or(field[k + 3], ByteOf(p, 3));
    assert field[..] == OrBytes(f0, k, p, 4);
  }
}
