/**
  The allocation bitmap as a value: one bit per disk block, the most
  significant bit of a byte first, and the coordinates of a disk address in it.
*/
module BitMaps {
  import opened Blocks

  function Mask(bit: nat): bv8
    requires bit < 8
  {
    1 << (7 - bit)
  }

  predicate Clear(e: bv8, bit: nat)
    requires bit < 8
  {
    e & Mask(bit) == 0
  }

  /** The bit is the first clear one. */
  ghost predicate IsFirst(e: bv8, bit: nat)
    requires bit < 8
  {
    Clear(e, bit) && forall k :: 0 <= k < bit ==> !Clear(e, k)
  }

  function Marked(e: bv8, bit: nat): bv8
    requires bit < 8
  {
    e | Mask(bit)
  }

  function Unmarked(e: bv8, bit: nat): bv8
    requires bit < 8
  {
    e & !Mask(bit)
  }

  /** The disk block n is allocated. */
  predicate BitSet(bytes: seq<bv8>, n: nat)
    requires n < 8 * |bytes|
  {
    !Clear(bytes[n / 8], n % 8)
  }

  /** The numbers of the allocated blocks. */
  ghost function Taken(bytes: seq<bv8>): set<nat> {
    set n: nat | n < 8 * |bytes| && BitSet(bytes, n)
  }

  /** No free block in the first n bytes. */
  ghost predicate PrefixFull(bytes: seq<bv8>, n: nat) {
    n <= |bytes| && forall t :: 0 <= t < n ==> bytes[t] == 0xff
  }

  // ------------------------------------------------------------------
  // Single bits
  // ------------------------------------------------------------------

  lemma MaskValue(bit: nat)
    requires bit < 8
    ensures Mask(bit) == if bit == 0 then 0x80 else if bit == 1 then 0x40 else if bit == 2 then 0x20 else if bit == 3 then 0x10
      else if bit == 4 then 0x08 else if bit == 5 then 0x04 else if bit == 6 then 0x02 else 0x01
  {
    if bit == 0 {} else if bit == 1 {} else if bit == 2 {} else if bit == 3 {}
    else if bit == 4 {} else if bit == 5 {} else if bit == 6 {} else {}
  }

  lemma SetMask(e: bv8, bit: nat, k: nat)
    requires bit < 8 && k < 8
    ensures Clear(Marked(e, bit), k) <==> k != bit && Clear(e, k)
  {
    MaskValue(bit);
    MaskValue(k);
  }

  lemma ClearMask(e: bv8, bit: nat, k: nat)
    requires bit < 8 && k < 8
    ensures Clear(Unmarked(e, bit), k) <==> k == bit || Clear(e, k)
  {
    MaskValue(bit);
    MaskValue(k);
  }

  lemma FullMask(e: bv8, bit: nat)
    requires bit < 8
    ensures e == 0xff ==> !Clear(e, bit)
  {
    MaskValue(bit);
  }

  lemma NotFull(e: bv8)
    requires forall k :: 0 <= k < 8 ==> !Clear(e, k)
    ensures e == 0xff
  {
    assert !Clear(e, 0) && !Clear(e, 1) && !Clear(e, 2) && !Clear(e, 3);
    assert !Clear(e, 4) && !Clear(e, 5) && !Clear(e, 6) && !Clear(e, 7);
    MaskValue(0); MaskValue(1); MaskValue(2); MaskValue(3);
    MaskValue(4); MaskValue(5); MaskValue(6); MaskValue(7);
  }

  // ------------------------------------------------------------------
  // Addresses
  // ------------------------------------------------------------------

  /** The bit of an address: bitmap block, byte in that block, bit in that byte. */
  lemma Coordinates(B: nat, addr: nat)
    requires B > 0
    ensures
      var t := addr / B / 8;
      var q := BlockOf(B, t);
      && B * 8 * B > 0 && addr / (B * 8 * B) == q && addr >= q * (B * 8 * B)
      && (addr - q * (B * 8 * B)) / B == 8 * (t - Off(B, q)) + addr / B % 8
  {
    var n, r := addr / B, addr % B;
    var t, i := n / 8, n % 8;
    var q := BlockOf(B, t);
    var j := t - Off(B, q);
    OffIsProduct(B, q);
    assert addr == B * n + r;
    assert n == 8 * (q * B + j) + i;
    Expand(B, q, j, i);
    Split(B, B * 8 * B, q, j, i, r, addr);
  }

  lemma Split(B: nat, K: nat, q: nat, j: nat, i: nat, r: nat, addr: nat)
    requires K == B * 8 * B && j < B && i < 8 && r < B && addr == K * q + B * (8 * j + i) + r
    ensures K > 0 && addr / K == q && addr >= q * K && (addr - q * K) / B == 8 * j + i
  {
    var low := B * (8 * j + i) + r;
    Remainder(B, j, i, r);
    ModUnique(K, q, low);
    ModUnique(B, 8 * j + i, r);
    assert q * K == K * q;
    assert addr - q * K == low;
  }

  lemma Expand(B: nat, q: nat, j: nat, i: nat)
    ensures B * (8 * (q * B + j) + i) == (B * 8 * B) * q + B * (8 * j + i)
  {
    var x := q * B;
    assert B * (8 * (x + j) + i) == B * (8 * x) + B * (8 * j + i);
    assert B * (8 * x) == B * 8 * x;
    assert B * 8 * (q * B) == (B * 8 * B) * q;
  }

  lemma Remainder(B: nat, j: nat, i: nat, r: nat)
    requires j < B && i < 8 && r < B
    ensures B * (8 * j + i) + r < B * 8 * B
  {
    MulMono(B, 8 * j + i + 1, 8 * B);
    assert B * (8 * j + i + 1) == B * (8 * j + i) + B;
    assert B * (8 * B) == B * 8 * B;
  }

  /** The address computed from bitmap block, byte and bit. */
  lemma AddressOf(B: nat, q: nat, j: nat, i: nat)
    requires B > 0 && j < B && i < 8
    ensures q * (B * 8 * B) + j * 8 * B + i * B == Off(B, 8 * (Off(B, q) + j) + i)
  {
    OffIsProduct(B, q);
    OffIsProduct(B, 8 * (Off(B, q) + j) + i);
    Expand(B, q, j, i);
    Swap(B * 8 * B, q);
    Swap(B, 8 * (q * B + j) + i);
    InBlock(B, j, i);
  }

  lemma Swap(x: int, y: int)
    ensures x * y == y * x
  {
  }

  lemma InBlock(B: nat, j: nat, i: nat)
    ensures j * 8 * B + i * B == B * (8 * j + i)
  {
    assert B * (8 * j + i) == B * (8 * j) + B * i;
    Swap(B, 8 * j);
    Swap(B, i);
    assert j * 8 == 8 * j;
  }

  lemma OffCoord(B: nat, n: nat)
    requires B > 0
    ensures Off(B, n) % B == 0 && Off(B, n) / B == n
  {
    OffIsProduct(B, n);
    assert n * B == B * n + 0;
    ModUnique(B, n, 0);
  }

  /** Setting the bit of a free block takes exactly this block. */
  lemma SetBit(bytes: seq<bv8>, t: nat, i: nat)
    requires t < |bytes| && i < 8 && Clear(bytes[t], i)
    ensures 8 * t + i !in Taken(bytes)
    ensures Taken(bytes[t := Marked(bytes[t], i)]) == Taken(bytes) + {8 * t + i}
  {
    var w := bytes[t := Marked(bytes[t], i)];
    forall n | 0 <= n < 8 * |bytes| ensures BitSet(w, n) <==> n == 8 * t + i || BitSet(bytes, n) {
      if n / 8 == t { SetMask(bytes[t], i, n % 8); }
    }
  }

  /** Clearing the bit of a taken block frees exactly this block. */
  lemma ClearBit(bytes: seq<bv8>, t: nat, i: nat)
    requires t < |bytes| && i < 8
    ensures Taken(bytes[t := Unmarked(bytes[t], i)]) == Taken(bytes) - {8 * t + i}
  {
    var w := bytes[t := Unmarked(bytes[t], i)];
    forall n | 0 <= n < 8 * |bytes| ensures BitSet(w, n) <==> n != 8 * t + i && BitSet(bytes, n) {
      if n / 8 == t { ClearMask(bytes[t], i, n % 8); }
    }
  }

  /** The lowest free block; block 0 is never free. */
  ghost function Lowest(taken: set<nat>): nat {
    LowestFree(1, taken, 1)
  }

  /** The first clear bit behind full bytes is the lowest free block. */
  lemma FirstClear(bytes: seq<bv8>, t: nat, i: nat)
    requires t < |bytes| && i < 8 && PrefixFull(bytes, t) && IsFirst(bytes[t], i)
    requires 0 in Taken(bytes)
    ensures 8 * t + i == Lowest(Taken(bytes)) > 0
  {
    var a := 8 * t + i;
    forall n: nat | n < a ensures n in Taken(bytes) {
      if n / 8 < t { FullMask(bytes[n / 8], n % 8); }
    }
    LowestUnique(Taken(bytes), a);
  }

  lemma LowestUnique(taken: set<nat>, a: nat)
    requires 0 in taken && a !in taken && forall n: nat :: n < a ==> n in taken
    ensures a == Lowest(taken)
  {
  }

  /** A set that holds all numbers below n has at least n elements. */
  lemma {:induction false} HoldsAll(taken: set<nat>, n: nat)
    requires forall k: nat :: k < n ==> k in taken
    ensures |taken| >= n
    decreases n
  {
    if n > 0 {
      HoldsAll(taken - {n - 1}, n - 1);
    }
  }

  /** Full bytes have all their blocks taken. */
  lemma FullTaken(bytes: seq<bv8>, n: nat)
    requires PrefixFull(bytes, n)
    ensures |Taken(bytes)| >= 8 * n
  {
    forall k: nat | k < 8 * n ensures k in Taken(bytes) {
      FullMask(bytes[k / 8], k % 8);
    }
    HoldsAll(Taken(bytes), 8 * n);
  }

  /** While fewer blocks are taken than the disk has, the lowest free one lies on the disk. */
  lemma LowestOnDisk(taken: set<nat>, total: nat)
    requires 0 in taken && |taken| < total
    ensures Lowest(taken) < total
  {
    if Lowest(taken) >= total {
      HoldsAll(taken, total);
      assert false;
    }
  }
}
