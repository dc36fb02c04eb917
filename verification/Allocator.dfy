/**
  The block allocator: a bitmap spread over the leaf blocks of a pointer tree,
  a hint where to look for the next free block, and the block counter.
*/
module Allocator {
  import opened Blocks
  import opened Errors
  import opened BitMaps

  /** q divided n times by P. */
  ghost function Up(P: nat, q: nat, n: nat): nat
    requires P > 0
  {
    if n == 0 then q else Up(P, q, n - 1) / P
  }

  /** Number of bitmap blocks below a full pointer block of a level. */
  ghost function Span(P: nat, level: nat): nat {
    if level == 0 then 1 else P * Span(P, level - 1)
  }

  /** Number of bitmap blocks before block k of a level, and the disk address they lead up to. */
  ghost function Lead(P: nat, level: nat, k: nat): nat {
    k * Span(P, level)
  }

  ghost function LeadAddr(B: nat, P: nat, level: nat, k: nat): nat {
    Lead(P, level, k) * (B * 8 * B)
  }

  /**
    The blocks of the bitmap tree, level by level: tier[0] are the bitmap
    blocks, tier[levels] is the root alone, and every other tier is what the
    pointers of the tier above list.
  */
  ghost predicate TierOk(B: nat, P: nat, levels: nat, root: nat, ptrs: map<nat, seq<nat>>, tier: seq<seq<nat>>) {
    && B > 0 && |tier| == levels + 1 && tier[levels] == [root]
    && (forall l, k :: 0 <= l <= levels && 0 <= k < |tier[l]| ==> tier[l][k] > 0 && tier[l][k] % B == 0)
    && (forall l :: 0 < l <= levels ==> |tier[l - 1]| <= P * |tier[l]|)
    && (forall l, k :: 0 < l <= levels && 0 <= k < |tier[l]| ==> tier[l][k] in ptrs && Lists(P, ptrs[tier[l][k]], tier[l - 1], k))
    && (forall q, r :: 0 <= q < r < |tier[0]| ==> tier[0][q] != tier[0][r])
  }

  /** The pointers of block k of a tier list its part of the tier below. */
  ghost predicate Lists(P: nat, block: seq<nat>, below: seq<nat>, k: nat) {
    |block| == P && forall i :: 0 <= i < P ==> block[i] == if k * P + i < |below| then below[k * P + i] else 0
  }

  /** The bitmap blocks on disk hold these bytes. */
  ghost predicate Holds(B: nat, leaves: seq<nat>, maps: map<nat, seq<bv8>>, bytes: seq<bv8>) {
    && |bytes| == Off(B, |leaves|)
    && forall q :: 0 <= q < |leaves| ==> leaves[q] in maps && Chunk(B, maps[leaves[q]], bytes, q)
  }

  ghost predicate Chunk(B: nat, block: seq<bv8>, bytes: seq<bv8>, q: nat) {
    |block| == B && Off(B, q) + B <= |bytes| && block == bytes[Off(B, q)..Off(B, q) + B]
  }

  lemma HoldsByte(B: nat, leaves: seq<nat>, maps: map<nat, seq<bv8>>, bytes: seq<bv8>, q: nat, j: nat)
    requires Holds(B, leaves, maps, bytes) && q < |leaves| && j < B
    ensures leaves[q] in maps && |maps[leaves[q]]| == B && Off(B, q) + j < |bytes|
    ensures maps[leaves[q]][j] == bytes[Off(B, q) + j]
  {
    assert Chunk(B, maps[leaves[q]], bytes, q);
  }

  /** Writing one byte of a bitmap block changes one byte of the bitmap. */
  lemma HoldsWrite(B: nat, leaves: seq<nat>, maps: map<nat, seq<bv8>>, bytes: seq<bv8>, q: nat, j: nat, e: bv8)
    requires Holds(B, leaves, maps, bytes) && q < |leaves| && j < B
    requires forall q, r :: 0 <= q < r < |leaves| ==> leaves[q] != leaves[r]
    ensures leaves[q] in maps && |maps[leaves[q]]| == B && Off(B, q) + j < |bytes|
    ensures Holds(B, leaves, maps[leaves[q] := maps[leaves[q]][j := e]], bytes[Off(B, q) + j := e])
  {
    HoldsByte(B, leaves, maps, bytes, q, j);
    var maps', bytes' := maps[leaves[q] := maps[leaves[q]][j := e]], bytes[Off(B, q) + j := e];
    forall r | 0 <= r < |leaves| ensures leaves[r] in maps' && Chunk(B, maps'[leaves[r]], bytes', r) {
      assert Chunk(B, maps[leaves[r]], bytes, r);
      if r < q { OffMono(B, r, q); } else if r > q { OffMono(B, q, r); }
    }
  }

  class AMap {
    const B: nat
    const P: nat
    const totalBlocks: nat
    /** Root of the bitmap tree and its depth. */
    const amap: nat
    const levels: nat
    /** Pointer blocks of the tree; the allocator does not change them. */
    const ptrs: map<nat, seq<nat>>
    ghost const tier: seq<seq<nat>>
    /** Bitmap blocks by address. */
    var maps: map<nat, seq<bv8>>
    var usedBlocks: nat
    var reservedBlocks: nat
    /** Where to look for the next free block: the address of a bitmap byte, and a disk address of that byte. */
    var hintAmap: nat
    var hintAddr: nat
    /** All bytes of the bitmap in order. */
    ghost var bytes: seq<bv8>

    /** The allocator of a mounted disk; there is no hint yet. */
    constructor (B: nat, P: nat, total: nat, amap: nat, levels: nat, ptrs: map<nat, seq<nat>>, maps: map<nat, seq<bv8>>,
                 used: nat, ghost tier: seq<seq<nat>>, ghost bytes: seq<bv8>)
      requires P > 0 && TierOk(B, P, levels, amap, ptrs, tier) && total <= 8 * Off(B, |tier[0]|)
      requires Holds(B, tier[0], maps, bytes) && 0 in Taken(bytes) && used == |Taken(bytes)|
      ensures Valid() && this.B == B && totalBlocks == total && this.bytes == bytes && reservedBlocks == 0
    {
      this.B, this.P, totalBlocks, this.amap, this.levels, this.ptrs, this.tier := B, P, total, amap, levels, ptrs, tier;
      this.maps, usedBlocks, reservedBlocks, hintAmap, hintAddr, this.bytes := maps, used, 0, 0, 0, bytes;
    }

    ghost predicate Shaped() {
      && B > 0 && P > 0 && |tier| == levels + 1 && TierOk(B, P, levels, amap, ptrs, tier)
      && totalBlocks <= 8 * Off(B, |tier[0]|)
    }

    /** The hint names a byte with no free block below it. */
    ghost predicate HintOk()
      requires B > 0 && |tier| > 0
      reads this`hintAmap, this`hintAddr, this`bytes
    {
      if hintAmap == 0 then hintAddr == 0 else
        var t := hintAddr / B / 8;
        && t < Off(B, |tier[0]|) && PrefixFull(bytes, t)
        && BlockOf(B, t) < |tier[0]| && hintAmap == tier[0][BlockOf(B, t)] + (t - Off(B, BlockOf(B, t)))
    }

    /** Everything but the block counter is in order. */
    ghost predicate Sound()
      reads this`maps, this`hintAmap, this`hintAddr, this`bytes
    {
      Shaped() && Holds(B, tier[0], maps, bytes) && HintOk() && 0 in Taken(bytes)
    }

    ghost predicate Valid()
      reads this
    {
      Sound() && usedBlocks == |Taken(bytes)|
    }

    function BytesPerBlock(): nat {
      B * 8 * B
    }

    function Blocknumber(addr: nat): nat
      requires B > 0
    {
      addr / BytesPerBlock()
    }

    method BlocknumberLevel(level: nat, addr: nat) returns (entry: nat)
      requires B > 0 && P > 0
      ensures level == 0 ==> entry == Blocknumber(addr)
      ensures level > 0 ==> entry == Up(P, Blocknumber(addr), level - 1)
    {
      entry := Blocknumber(addr);
      var l := level;
      while l > 1
        invariant 0 <= l <= level && (level > 0 ==> l >= 1) && entry == Up(P, Blocknumber(addr), level - l)
      {
        entry := entry / P;
        l := l - 1;
      }
      assert level > 0 ==> l == 1;
    }

    /** The path from the block of a level down to the bitmap block of an address. */
    method GetAmapAddr(level: nat, addr: nat, ptr: nat) returns (a: nat)
      requires Shaped() && level <= levels && Blocknumber(addr) < |tier[0]|
      requires Up(P, Blocknumber(addr), level) < |tier[level]| && ptr == tier[level][Up(P, Blocknumber(addr), level)]
      ensures a == tier[0][Blocknumber(addr)]
      decreases level
    {
      var block := BlocknumberLevel(level, addr);
      block := block % P;
      if levels == 0 {
        return amap;
      }
      if level > 0 {
        ghost var q := Blocknumber(addr);
        PathStep(q, level);
        a := GetAmapAddr(level - 1, addr, ptrs[ptr][block]);
      } else {
        a := ptr;
      }
    }

    lemma PathStep(q: nat, level: nat)
      requires Shaped() && 0 < level <= levels && q < |tier[0]| && Up(P, q, level) < |tier[level]|
      ensures
        var ptr := tier[level][Up(P, q, level)];
        && ptr in ptrs && |ptrs[ptr]| == P && Up(P, q, level - 1) % P < P && Up(P, q, level - 1) < |tier[level - 1]|
        && ptrs[ptr][Up(P, q, level - 1) % P] == tier[level - 1][Up(P, q, level - 1)]
    {
      UpBelow(q, level - 1);
      var x := Up(P, q, level - 1);
      assert x == (x / P) * P + x % P;
      assert Lists(P, ptrs[tier[level][x / P]], tier[level - 1], x / P);
    }

    lemma {:induction false} UpBelow(q: nat, n: nat)
      requires Shaped() && n <= levels && q < |tier[0]|
      ensures Up(P, q, n) < |tier[n]|
    {
      if n > 0 {
        UpBelow(q, n - 1);
        DivBelow(P, Up(P, q, n - 1), |tier[n]|);
      }
    }

    // ----------------------------------------------------------------
    // Bits
    // ----------------------------------------------------------------

    /** Marks the block of a bit as allocated; it must not be allocated yet. */
    method BlockSet(ghost q: nat, at: nat, j: nat, bit: nat)
      requires Shaped() && Holds(B, tier[0], maps, bytes) && q < |tier[0]| && at == tier[0][q] && j < B && bit < 8
      requires Clear(bytes[Off(B, q) + j], bit)
      modifies this`maps, this`bytes
      ensures Holds(B, tier[0], maps, bytes)
      ensures bytes == old(bytes)[Off(B, q) + j := Marked(old(bytes)[Off(B, q) + j], bit)]
    {
      HoldsByte(B, tier[0], maps, bytes, q, j);
      var entry := maps[at][j];
      entry := Marked(entry, bit);
      HoldsWrite(B, tier[0], maps, bytes, q, j, entry);
      maps := maps[at := maps[at][j := entry]];
      bytes := bytes[Off(B, q) + j := entry];
    }

    static method FindFirstEmptyBit(entry: bv8) returns (bit: nat)
      requires entry != 0xff
      ensures bit < 8 && IsFirst(entry, bit)
    {
      bit := 0;
      while bit < 8
        invariant bit <= 8 && forall k :: 0 <= k < bit ==> !Clear(entry, k)
      {
        if Clear(entry, bit) {
          return;
        }
        bit := bit + 1;
      }
      NotFull(entry);
      assert false;
    }

    /** The first clear bit of a bitmap byte, -1 if there is none. */
    method EntryBit(ghost q: nat, at: nat, j: nat) returns (bit: int)
      requires Shaped() && Holds(B, tier[0], maps, bytes) && q < |tier[0]| && at == tier[0][q] && j < B
      ensures Off(B, q) + j < |bytes| && (bit == -1 <==> bytes[Off(B, q) + j] == 0xff)
      ensures bit != -1 ==> 0 <= bit < 8 && IsFirst(bytes[Off(B, q) + j], bit)
    {
      HoldsByte(B, tier[0], maps, bytes, q, j);
      var entry := maps[at][j];
      if entry == 0xff {
        return -1;
      }
      bit := AMap.FindFirstEmptyBit(entry);
    }

    // ----------------------------------------------------------------
    // Allocation
    // ----------------------------------------------------------------

    /** The block n has just been taken, the lowest one that was free. */
    twostate predicate TookLowest(n: nat)
      reads this
    {
      n == Lowest(Taken(old(bytes))) && n !in Taken(old(bytes)) && Taken(bytes) == Taken(old(bytes)) + {n}
    }

    /** Scans one bitmap block from byte i on; no free block lies before that byte. */
    method ScanBlock(ghost q: nat, at: nat, i: nat, addr: nat) returns (a: nat)
      requires Sound() && q < |tier[0]| && at == tier[0][q] && i <= B && addr == q * BytesPerBlock()
      requires PrefixFull(bytes, Off(B, q) + i)
      modifies this`maps, this`bytes, this`hintAmap, this`hintAddr
      ensures Sound()
      ensures a == 0 ==> bytes == old(bytes) && PrefixFull(bytes, Off(B, q) + B)
      ensures a > 0 ==> a == Off(B, Lowest(Taken(old(bytes)))) && TookLowest(Lowest(Taken(old(bytes))))
    {
      hide TierOk, Holds, Taken, IsFirst;
      var j := i;
      while j < B
        invariant i <= j <= B && bytes == old(bytes) && Sound() && PrefixFull(bytes, Off(B, q) + j)
      {
        var bit := EntryBit(q, at, j);
        if bit != -1 {
          a := TakeBit(q, at, j, bit, addr);
          return;
        }
        j := j + 1;
      }
      a := 0;
    }

    /** Takes the block of the first clear bit. */
    method TakeBit(ghost q: nat, at: nat, j: nat, bit: nat, addr: nat) returns (a: nat)
      requires Sound() && q < |tier[0]| && at == tier[0][q] && j < B && bit < 8 && addr == q * BytesPerBlock()
      requires PrefixFull(bytes, Off(B, q) + j) && Off(B, q) + j < |bytes| && IsFirst(bytes[Off(B, q) + j], bit)
      modifies this`maps, this`bytes, this`hintAmap, this`hintAddr
      ensures Sound() && a > 0
      ensures a == Off(B, Lowest(Taken(old(bytes)))) && TookLowest(Lowest(Taken(old(bytes))))
    {
      hide TierOk, Holds, Taken, LowestFree, Lowest, BlockOf, Clear, Marked;
      ghost var t := Off(B, q) + j;
      LeafFacts(q);
      FirstClear(bytes, t, bit);
      SetBit(bytes, t, bit);
      AddressOf(B, q, j, bit);
      HintCoord(q, j, bit);
      OffMono(B, 0, 8 * t + bit);
      assert 8 * t + bit > 0;
      BlockSet(q, at, j, bit);
      a := addr + j * 8 * B + bit * B;
      hintAmap, hintAddr := at + j, a;
    }

    lemma HintCoord(q: nat, j: nat, bit: nat)
      requires B > 0 && j < B && bit < 8
      ensures
        var n := 8 * (Off(B, q) + j) + bit;
        && Off(B, n) / B == n && n / 8 == Off(B, q) + j && BlockOf(B, Off(B, q) + j) == q
    {
      OffCoord(B, 8 * (Off(B, q) + j) + bit);
      BlockOfUnique(B, Off(B, q) + j, q);
    }

    /** Number of disk bytes below one pointer of a level. */
    method BytesPerLevel(level: nat) returns (mult: nat)
      ensures mult == if level == 0 then 0 else Span(P, level - 1) * BytesPerBlock()
    {
      mult := BytesPerBlock();
      if level == 0 {
        return 0;
      }
      var l := level - 1;
      while l > 0
        invariant 0 <= l <= level - 1 && mult == Span(P, level - 1 - l) * BytesPerBlock()
      {
        l := l - 1;
        Assoc(P, Span(P, level - 2 - l), BytesPerBlock());
        mult := mult * P;
      }
    }

    /** No free block in the first n bitmap blocks. */
    ghost predicate FullTo(n: nat)
      requires |tier| > 0
      reads this`bytes
    {
      PrefixFull(bytes, Off(B, Min(n, |tier[0]|)))
    }

    /** Looks for the first free block below block k of a level; no free block lies before it. */
    method ScanTree(level: nat, ghost k: nat, at: nat, addr: nat) returns (a: nat)
      requires Sound() && level <= levels && k < |tier[level]| && at == tier[level][k]
      requires addr == LeadAddr(B, P, level, k) && FullTo(Lead(P, level, k))
      modifies this`maps, this`bytes, this`hintAmap, this`hintAddr
      ensures Sound()
      ensures a == 0 ==> bytes == old(bytes) && FullTo(Lead(P, level, k + 1))
      ensures a > 0 ==> a == Off(B, Lowest(Taken(old(bytes)))) && TookLowest(Lowest(Taken(old(bytes))))
      decreases level
    {
      hide TierOk, Holds, Taken, Lowest, HintOk, PrefixFull, Lead, LeadAddr, Span;
      if level == 0 {
        LeafLead(B, P, k);
        LeafLead(B, P, k + 1);
        a := ScanBlock(k, at, 0, addr);
        return;
      }
      var step := BytesPerLevel(level);
      var i := 0;
      ghost var c := k * P;
      FirstChild(P, level, k);
      while i < P
        invariant 0 <= i <= P && c == k * P + i && bytes == old(bytes) && Sound() && FullTo(Lead(P, level - 1, c))
      {
        Pointer(level, k, i, c);
        var ptr := ptrs[at][i];
        if ptr == 0 {
          Covers(level - 1, c);
          LeadMono(P, level, k, c);
          return 0;
        }
        ChildAddr(B, P, level, k, i, c);
        a := ScanTree(level - 1, c, ptr, addr + i * step);
        if a > 0 {
          return;
        }
        i, c := i + 1, c + 1;
      }
      a := 0;
    }

    /** Pointer i of block k of a level. */
    lemma Pointer(level: nat, k: nat, i: nat, c: nat)
      requires Shaped() && 0 < level <= levels && k < |tier[level]| && i < P && c == k * P + i
      ensures tier[level][k] in ptrs && |ptrs[tier[level][k]]| == P
      ensures ptrs[tier[level][k]][i] == 0 <==> c >= |tier[level - 1]|
      ensures c < |tier[level - 1]| ==> ptrs[tier[level][k]][i] == tier[level - 1][c]
    {
      assert Lists(P, ptrs[tier[level][k]], tier[level - 1], k);
    }

    /** No bitmap block lies behind the last block of a tier. */
    lemma {:induction false} Covers(level: nat, x: nat)
      requires Shaped() && level <= levels && x >= |tier[level]|
      ensures Lead(P, level, x) >= |tier[0]|
      decreases level
    {
      if level > 0 {
        MulMono(P, |tier[level]|, x);
        Covers(level - 1, P * x);
        Assoc(P, x, Span(P, level - 1));
        Assoc(x, P, Span(P, level - 1));
      } else {
        LeafLead(B, P, x);
      }
    }

    /** Scans the rest of the bitmap block the hint points to. */
    method GetFreeBlockFast() returns (a: nat)
      requires Sound() && hintAmap > 0
      modifies this`maps, this`bytes, this`hintAmap, this`hintAddr
      ensures Sound()
      ensures a == 0 ==> bytes == old(bytes)
      ensures a > 0 ==> a == Off(B, Lowest(Taken(old(bytes)))) && TookLowest(Lowest(Taken(old(bytes))))
    {
      hide Holds, Taken, Lowest, PrefixFull;
      var at, i := Base(B, hintAmap), hintAmap % B;
      ghost var t := hintAddr / B / 8;
      ghost var q := BlockOf(B, t);
      Coordinates(B, hintAddr);
      BaseOf(B, tier[0][q], t - Off(B, q));
      a := ScanBlock(q, at, i, Blocknumber(hintAddr) * BytesPerBlock());
    }

    /** Allocates the lowest free block, or reports that the disk is full. */
    method GetFreeBlock() returns (addr: int)
      requires Valid()
      modifies this`maps, this`bytes, this`hintAmap, this`hintAddr, this`usedBlocks
      ensures Valid()
      ensures usedBlocks == old(usedBlocks) + (if addr == ENOSPC then 0 else 1)
      ensures old(usedBlocks) + reservedBlocks >= totalBlocks ==> addr == ENOSPC && bytes == old(bytes)
      ensures old(usedBlocks) + reservedBlocks < totalBlocks ==>
        var n := Lowest(Taken(old(bytes)));
        addr == Off(B, n) && 0 < addr && n < totalBlocks && TookLowest(n)
    {
      hide TierOk, Holds, Taken, Lowest, HintOk, LeadAddr, Span;
      if usedBlocks + reservedBlocks >= totalBlocks {
        return ENOSPC;
      }
      LowestOnDisk(Taken(bytes), totalBlocks);
      var a: nat := 0;
      if hintAmap > 0 {
        a := GetFreeBlockFast();
      }
      if a == 0 {
        NotAllFull();
        RootLead(B, P, levels);
        a := ScanTree(levels, 0, amap, 0);
      }
      usedBlocks := usedBlocks + 1;
      addr := a;
    }

    /** While the counter leaves room, the whole bitmap is not full. */
    lemma NotAllFull()
      requires Sound() && |Taken(bytes)| < totalBlocks
      ensures !FullTo(Lead(P, levels, 1)) && tier[levels] == [amap]
    {
      Covers(levels, 1);
      if FullTo(Lead(P, levels, 1)) {
        FullTaken(bytes, |bytes|);
      }
    }

    // ----------------------------------------------------------------
    // Release
    // ----------------------------------------------------------------

    /** Marks the block of an address as free; an address inside the block is tolerated. */
    method BlockClear(addr: nat)
      requires Sound() && addr / B in Taken(bytes) && addr / B != 0
      modifies this`maps, this`bytes, this`hintAmap, this`hintAddr
      ensures Sound() && Taken(bytes) == Taken(old(bytes)) - {addr / B}
    {
      hide TierOk, Taken, PrefixFull, Holds;
      ghost var q := Blocknumber(addr);
      Coordinates(B, addr);
      TakenRange(addr / B);
      UpBelow(q, levels);
      RootAlone();
      var at := GetAmapAddr(levels, addr, amap);
      var a := addr;
      if Blocknumber(addr) > 0 {
        a := a - Blocknumber(addr) * BytesPerBlock();
      }
      a := a / B;
      ClearEntry(addr, q, at, a / 8, a % 8);
    }

    method ClearEntry(addr: nat, ghost q: nat, at: nat, j: nat, bit: nat)
      requires Sound() && addr / B in Taken(bytes) && addr / B != 0
      requires q < |tier[0]| && at == tier[0][q] && j < B && bit < 8 && addr / B == 8 * (Off(B, q) + j) + bit
      modifies this`maps, this`bytes, this`hintAmap, this`hintAddr
      ensures Sound() && Taken(bytes) == Taken(old(bytes)) - {addr / B}
    {
      hide TierOk, Taken, PrefixFull, Holds, Unmarked;
      RootAlone();
      LeafFacts(q);
      HoldsByte(B, tier[0], maps, bytes, q, j);
      ghost var t, was := Off(B, q) + j, bytes;
      BlockOfUnique(B, t, q);
      var entry := Unmarked(maps[at][j], bit);
      HoldsWrite(B, tier[0], maps, bytes, q, j, entry);
      ClearBit(bytes, t, bit);
      maps := maps[at := maps[at][j := entry]];
      bytes := bytes[t := entry];
      if hintAmap == 0 { NoPrefix(B, was); }
      HintMoves(B, was, addr, hintAddr, entry);
      if addr < hintAddr {
        hintAmap, hintAddr := at + j, addr;
      }
    }

    lemma TakenRange(n: nat)
      requires Sound() && n in Taken(bytes)
      ensures n / 8 < |bytes| == Off(B, |tier[0]|) && BlockOf(B, n / 8) < |tier[0]|
    {
      var q := BlockOf(B, n / 8);
      if q >= |tier[0]| { OffMono(B, |tier[0]|, q); }
    }

    lemma LeafFacts(q: nat)
      requires Shaped() && q < |tier[0]|
      ensures tier[0][q] > 0 && tier[0][q] % B == 0
    {
    }

    lemma RootAlone()
      requires Shaped()
      ensures tier[levels] == [amap] && forall q, r :: 0 <= q < r < |tier[0]| ==> tier[0][q] != tier[0][r]
    {
    }

    method FreeBlock(addr: nat)
      requires Valid() && (addr != 0 ==> addr / B in Taken(bytes) && addr / B != 0)
      modifies this`maps, this`bytes, this`hintAmap, this`hintAddr, this`usedBlocks
      ensures Valid() && Taken(bytes) == Taken(old(bytes)) - (if addr == 0 then {} else {addr / B})
    {
      hide TierOk, Holds, Taken, HintOk;
      if addr != 0 {
        BlockClear(addr);
        usedBlocks := usedBlocks - 1;
      }
    }
  }

  // ------------------------------------------------------------------
  // Runs
  // ------------------------------------------------------------------

  datatype Op = Alloc | Free(addr: nat)

  /** A disk without hint and bitmap: just the set of blocks in use. */
  datatype Disk = Disk(B: nat, total: nat, reserved: nat, taken: set<nat>)

  ghost function Answer(d: Disk, op: Op): int {
    if op.Free? then 0
    else if |d.taken| + d.reserved >= d.total then ENOSPC
    else Off(d.B, Lowest(d.taken))
  }

  ghost function After(d: Disk, op: Op): Disk
    requires d.B > 0
  {
    if op.Free? then (if op.addr == 0 then d else d.(taken := d.taken - {op.addr / d.B}))
    else if |d.taken| + d.reserved >= d.total then d
    else d.(taken := d.taken + {Lowest(d.taken)})
  }

  ghost function RunOf(d: Disk, ops: seq<Op>): (e: Disk)
    requires d.B > 0
    ensures e.B == d.B && e.total == d.total && e.reserved == d.reserved
  {
    if ops == [] then d else After(RunOf(d, ops[..|ops| - 1]), ops[|ops| - 1])
  }

  ghost function AnswersOf(d: Disk, ops: seq<Op>): seq<int>
    requires d.B > 0
  {
    if ops == [] then [] else
      AnswersOf(d, ops[..|ops| - 1]) + [Answer(RunOf(d, ops[..|ops| - 1]), ops[|ops| - 1])]
  }

  /** Only blocks in use are freed, and never block 0. */
  ghost predicate LegalOp(d: Disk, op: Op)
    requires d.B > 0
  {
    op.Free? && op.addr != 0 ==> op.addr / d.B in d.taken && op.addr / d.B != 0
  }

  ghost predicate Legal(d: Disk, ops: seq<Op>)
    requires d.B > 0
  {
    forall n :: 0 <= n < |ops| ==> LegalOp(RunOf(d, ops[..n]), ops[n])
  }

  /** Block 0 is in use, and so are only blocks of the disk. */
  ghost predicate OnDisk(d: Disk) {
    d.B > 0 && 0 in d.taken && forall n :: n in d.taken ==> n < d.total
  }

  /** One operation: a block handed out was not in use and lies on the disk, and the count follows. */
  lemma StepSafe(d: Disk, op: Op)
    requires OnDisk(d) && LegalOp(d, op)
    ensures OnDisk(After(d, op))
    ensures op.Alloc? && Answer(d, op) != ENOSPC ==>
      Answer(d, op) / d.B !in d.taken && Answer(d, op) / d.B < d.total && |After(d, op).taken| == |d.taken| + 1
  {
    if op.Alloc? && |d.taken| + d.reserved < d.total {
      LowestOnDisk(d.taken, d.total);
      OffCoord(d.B, Lowest(d.taken));
    }
  }

  /** In every run the blocks in use stay on the disk, and no block is handed out while it is in use. */
  lemma {:induction false} RunSafe(d: Disk, ops: seq<Op>)
    requires d.B > 0 && OnDisk(d) && Legal(d, ops)
    ensures OnDisk(RunOf(d, ops)) && |AnswersOf(d, ops)| == |ops|
    ensures forall n :: 0 <= n < |ops| && ops[n].Alloc? && AnswersOf(d, ops)[n] != ENOSPC ==>
      var was := RunOf(d, ops[..n]);
      AnswersOf(d, ops)[n] / d.B !in was.taken && 0 <= AnswersOf(d, ops)[n] / d.B < d.total
  {
    hide OnDisk, LegalOp, After, Answer;
    if ops != [] {
      var init := ops[..|ops| - 1];
      forall n | 0 <= n < |init| ensures LegalOp(RunOf(d, init[..n]), init[n]) {
        assert init[..n] == ops[..n];
      }
      RunSafe(d, init);
      assert LegalOp(RunOf(d, init), ops[|ops| - 1]);
      StepSafe(RunOf(d, init), ops[|ops| - 1]);
      forall n | 0 <= n < |init| ensures init[..n] == ops[..n] {
      }
      NoNegative(RunOf(d, init), ops[|ops| - 1]);
    }
  }

  lemma NoNegative(d: Disk, op: Op)
    requires d.B > 0
    ensures Answer(d, op) != ENOSPC ==> Answer(d, op) / d.B >= 0
  {
  }

  /** Over every run the hinted allocator answers like the one without hint and leaves the same blocks in use. */
  method RunAllocator(m: AMap, ops: seq<Op>) returns (answers: seq<int>)
    requires m.Valid() && Legal(Disk(m.B, m.totalBlocks, m.reservedBlocks, Taken(m.bytes)), ops)
    modifies m
    ensures m.Valid()
    ensures
      var d := Disk(m.B, m.totalBlocks, old(m.reservedBlocks), Taken(old(m.bytes)));
      answers == AnswersOf(d, ops) && Taken(m.bytes) == RunOf(d, ops).taken && m.usedBlocks == |RunOf(d, ops).taken|
  {
    hide AMap.Sound, Taken, Lowest;
    ghost var d := Disk(m.B, m.totalBlocks, m.reservedBlocks, Taken(m.bytes));
    PositiveBlocks(m);
    answers := [];
    var i := 0;
    while i < |ops|
      invariant 0 <= i <= |ops| && m.Valid() && m.reservedBlocks == d.reserved
      invariant answers == AnswersOf(d, ops[..i]) && Taken(m.bytes) == RunOf(d, ops[..i]).taken
    {
      assert LegalOp(RunOf(d, ops[..i]), ops[i]);
      assert ops[..i + 1][..i] == ops[..i];
      var answer := 0;
      match ops[i] {
        case Alloc => answer := m.GetFreeBlock();
        case Free(addr) => m.FreeBlock(addr);
      }
      answers := answers + [answer];
      i := i + 1;
    }
    assert ops[..i] == ops;
  }

  lemma PositiveBlocks(m: AMap)
    requires m.Valid()
    ensures m.B > 0
  {
  }

  lemma DivBelow(P: nat, x: nat, y: nat)
    requires P > 0 && x < P * y
    ensures x / P < y
  {
    var q := x / P;
    assert x >= P * q;
    if q >= y {
      MulMono(P, y, q);
    }
  }

  lemma Assoc(x: nat, y: nat, z: nat)
    ensures x * (y * z) == (x * y) * z == y * z * x && x * y == y * x
  {
  }

  lemma Distribute(x: nat, y: nat, z: nat)
    ensures (x + y) * z == x * z + y * z
  {
  }

  lemma LeafLead(B: nat, P: nat, k: nat)
    ensures Lead(P, 0, k) == k && LeadAddr(B, P, 0, k) == k * (B * 8 * B)
  {
  }

  lemma FirstChild(P: nat, level: nat, k: nat)
    requires level > 0
    ensures Lead(P, level - 1, k * P) == Lead(P, level, k)
    ensures forall c {:trigger Lead(P, level - 1, c)} :: c == k * P + P ==> Lead(P, level - 1, c) == Lead(P, level, k + 1)
  {
    var s := Span(P, level - 1);
    Assoc(k, P, s);
    Distribute(k * P, P, s);
    Distribute(k, 1, P * s);
  }

  lemma LeadMono(P: nat, level: nat, k: nat, c: nat)
    requires level > 0 && c <= k * P + P
    ensures Lead(P, level - 1, c) <= Lead(P, level, k + 1)
  {
    FirstChild(P, level, k);
    MulMono(Span(P, level - 1), c, k * P + P);
    Assoc(c, Span(P, level - 1), 1);
    Assoc(k * P + P, Span(P, level - 1), 1);
  }

  /** The address of child i of block k of a level. */
  lemma ChildAddr(B: nat, P: nat, level: nat, k: nat, i: nat, c: nat)
    requires level > 0 && c == k * P + i
    ensures LeadAddr(B, P, level - 1, c) == LeadAddr(B, P, level, k) + i * (Span(P, level - 1) * (B * 8 * B))
  {
    var s, K := Span(P, level - 1), B * 8 * B;
    Distribute(k * P, i, s);
    Assoc(k, P, s);
    Distribute(Lead(P, level, k), i * s, K);
    Assoc(i, s, K);
  }

  lemma NoPrefix(B: nat, bytes: seq<bv8>)
    requires B > 0
    ensures PrefixFull(bytes, 0 / B / 8)
  {
  }

  lemma RootLead(B: nat, P: nat, level: nat)
    ensures Lead(P, level, 0) == 0 && LeadAddr(B, P, level, 0) == 0
  {
  }

  lemma Order(B: nat, a: nat, b: nat)
    requires B > 0 && a <= b
    ensures a / B / 8 <= b / B / 8
  {
    var x, y := a / B, b / B;
    assert B * (y + 1) == B * y + B;
    if y < x {
      MulMono(B, y + 1, x);
    }
  }

  /** A block freed below the hint becomes the hint; one freed above it leaves the hint good. */
  lemma HintMoves(B: nat, bytes: seq<bv8>, addr: nat, hint: nat, entry: bv8)
    requires B > 0 && addr / B / 8 < |bytes|
    requires PrefixFull(bytes, hint / B / 8)
    ensures
      var w := bytes[addr / B / 8 := entry];
      && (addr < hint ==> PrefixFull(w, addr / B / 8))
      && (addr >= hint ==> PrefixFull(w, hint / B / 8))
  {
    if addr < hint { Order(B, addr, hint); } else { Order(B, hint, addr); }
  }
}
