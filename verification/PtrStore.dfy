/**
  The pointer blocks on disk and the operations that write, walk, purge and
  patch the trees they form.
*/
module PointerStore {
  import opened Blocks
  import opened Errors
  import opened PointerTrees
  import opened PointerWalks

  class PtrStore {
    const B: nat
    const P: nat
    const variable: bool
    /** Pointer blocks by address. */
    var ptrs: map<nat, PtrBlock>
    /** Addresses of all blocks in use, pointer blocks and others. */
    var used: set<nat>

    /** A disk with no block in use. */
    constructor (B: nat, P: nat, variable: bool)
      requires B >= 2 && P >= 2 && (variable ==> P * VPTR_SIZE + BACK_SIZE <= B)
      ensures Valid() && this.B == B && this.P == P && this.variable == variable && ptrs == map[] && used == {}
    {
      this.B, this.P, this.variable := B, P, variable;
      ptrs, used := map[], {};
    }

    ghost predicate Valid()
      reads this
    {
      B >= 2 && P >= 2 && ptrs.Keys <= used && (variable ==> P * VPTR_SIZE + BACK_SIZE <= B)
    }

    ghost predicate Fit(sh: Shape) {
      ShapeOk(sh) && sh.B == B && sh.P == P && sh.variable == variable
    }

    method GetZeroBlock() returns (a: nat)
      requires B >= 2
      modifies this`used
      ensures a > 0 && a % B == 0 && a !in old(used) && used == old(used) + {a}
      ensures forall x :: x % B == 0 && 0 < x < a ==> x in old(used)
    {
      assert B % B == 0;
      a := LowestFree(B, used, B);
      forall x | x % B == 0 && 0 < x < a ensures x in used {
        if x < B { NoneBetween(B, 0); }
      }
      used := used + {a};
    }

    method GetReservedBlock() returns (a: nat)
      requires Valid()
      modifies this`used, this`ptrs
      ensures Valid()
      ensures a > 0 && a % B == 0 && a !in old(used) && used == old(used) + {a}
      ensures ptrs == old(ptrs)[a := ZeroPtrBlock(P)]
    {
      a := GetZeroBlock();
      ptrs := ptrs[a := ZeroPtrBlock(P)];
    }

    /** Frees a pointer block; a block must not be freed twice. */
    method FreeBlock(a: nat)
      requires Valid() && a in used
      modifies this`used, this`ptrs
      ensures Valid() && used == old(used) - {a} && ptrs == old(ptrs) - {a}
    {
      used := used - {a};
      ptrs := ptrs - {a};
    }

    method SetEntry(dst: nat, j: nat, e: Ptr)
      requires Valid() && dst in ptrs && j < |ptrs[dst].entries|
      modifies this`ptrs
      ensures Valid() && ptrs == old(ptrs)[dst := WithEntry(old(ptrs)[dst], j, e)]
    {
      ptrs := ptrs[dst := WithEntry(ptrs[dst], j, e)];
    }

    /** The entry that describes the data blocks below entry i of a level; it points nowhere yet. */
    function MetaPtr(sh: Shape, level: nat, i: nat): (e: Ptr)
      requires ShapeOk(sh) && level >= 1 && i < PerLevel(sh.P, level - 1, |sh.leaves|)
      ensures e.next == 0 && MetaOk(sh, level, i, e.hi, e.disp)
    {
      if !sh.variable then NoPtr else
        LevelCovers(sh.P, level, |sh.leaves|);
        FirstMono(sh.P, level, 0, i + 1);
        FirstZero(sh.P, level);
        Ptr(0, sh.leaves[LastNr(sh.P, level, i, |sh.leaves|)].hi, sh.leaves[FirstNr(sh.P, level, i)].disp)
    }

    /** Writes the pointer to data block i. */
    method WriteLeafPtr(sh: Shape, dst: nat, start: nat, i: nat, ghost m0: map<nat, PtrBlock>, ghost u0: set<nat>)
      requires Valid() && Fit(sh) && start <= i < End(sh, 1, start)
      requires Progress(m0, u0, ptrs, used, sh, 1, dst, start, i - start)
      modifies this`ptrs
      ensures Valid() && Progress(m0, u0, ptrs, used, sh, 1, dst, start, i + 1 - start)
    {
      hide Progress, MetaOk;
      ProgressFacts(m0, u0, ptrs, used, sh, 1, dst, start, i - start);
      var addr := sh.leaves[i].addr;
      var e := MetaPtr(sh, 1, i).(next := if addr != 0 then Rel(B, addr) else 0);
      ProgressLeaf(m0, u0, ptrs, used, sh, dst, start, i - start, e);
      SetEntry(dst, i - start, e);
    }

    /** Allocates the pointer block below entry i, writes the pointer to it and fills it. */
    method WriteNodePtr(sh: Shape, level: nat, dst: nat, start: nat, i: nat, ghost m0: map<nat, PtrBlock>, ghost u0: set<nat>)
      requires Valid() && Fit(sh) && level >= 2 && start <= i < End(sh, level, start)
      requires Progress(m0, u0, ptrs, used, sh, level, dst, start, i - start)
      modifies this`ptrs, this`used
      ensures Valid() && Progress(m0, u0, ptrs, used, sh, level, dst, start, i + 1 - start)
      decreases level, 0
    {
      hide Progress, MetaOk, IsTree, Added, PerLevel;
      ghost var m, u := ptrs, used;
      ProgressFacts(m0, u0, m, u, sh, level, dst, start, i - start);
      var addr := GetReservedBlock();
      var e := MetaPtr(sh, level, i).(next := Rel(B, addr));
      SetEntry(dst, i - start, e);
      ChildRange(P, level, i, |sh.leaves|);
      RewritePointerBlock(sh, level - 1, addr, Off(P, i));
      ProgressNode(m0, u0, m, u, ptrs, used, sh, level, dst, start, i - start, addr, e);
    }

    /** Writes the pointer block at dst for the entries from start on, and everything below it. */
    method RewritePointerBlock(sh: Shape, level: nat, dst: nat, start: nat)
      requires Valid() && Fit(sh)
      requires level >= 1 ==>
        && dst in ptrs && ptrs[dst] == ZeroPtrBlock(P)
        && start < PerLevel(P, level - 1, |sh.leaves|)
      modifies this`ptrs, this`used
      ensures Valid()
      ensures level == 0 ==> ptrs == old(ptrs) && used == old(used)
      ensures level >= 1 ==>
        && IsTree(ptrs, sh, level, dst, start)
        && Added(old(ptrs), old(used), ptrs, used, dst, Below(ptrs, sh, level, dst, start, End(sh, level, start) - start))
      decreases level, 1
    {
      hide Progress, Added, IsTree, Below, PerLevel, EntryOk;
      if level == 0 {
        return;
      }
      var end := End(sh, level, start);
      var i := start;
      ProgressStart(ptrs, used, sh, level, dst, start);
      while i < end
        invariant start <= i <= end && Valid()
        invariant Progress(old(ptrs), old(used), ptrs, used, sh, level, dst, start, i - start)
      {
        if level == 1 {
          WriteLeafPtr(sh, dst, start, i, old(ptrs), old(used));
        } else {
          WriteNodePtr(sh, level, dst, start, i, old(ptrs), old(used));
        }
        i := i + 1;
      }
      ProgressFacts(old(ptrs), old(used), ptrs, used, sh, level, dst, start, end - start);
      ghost var m := ptrs;
      ptrs := ptrs[dst := Finished(sh, level, start, ptrs[dst])];
      ProgressDone(old(ptrs), old(used), m, used, ptrs, sh, level, dst, start);
    }

    // ----------------------------------------------------------------
    // Walking
    // ----------------------------------------------------------------

    /** Where a variable pointer leads: a block, a null block or the end of the file. */
    function VarTarget(e: Ptr): int {
      if e.next == 0 then (if e.hi != 0 then NULL_BLOCK else VAR_FILE_END) else Abs(B, e.next)
    }

    /** Where a fixed pointer leads: a block or a null block. */
    function FixedTarget(e: Ptr): nat {
      if e.next == 0 then 0 else Abs(B, e.next)
    }

    /** Collects the data blocks of a variable file in order; the end marker stops the walk. */
    method WalkVariable(addr: nat, level: nat, disp: nat, ghost sh: Shape, ghost start: nat) returns (found: seq<Found>)
      requires Valid() && variable && Fit(sh)
      requires level >= 1 ==> IsTree(ptrs, sh, level, addr, start)
      ensures level == 0 ==> found == [Found(addr, disp)]
      ensures level >= 1 ==> found == Covered(sh, level, start, End(sh, level, start))
      decreases level
    {
      if level == 0 {
        return [Found(addr, disp)];
      }
      hide EntryOk, Covered, PerLevel, Off;
      ghost var c := End(sh, level, start) - start;
      found := [];
      assert Covered(sh, level, start, start) == [] by { CoveredNone(sh, level, start); }
      var j := 0;
      while j < P
        invariant 0 <= j <= c <= P && found == Covered(sh, level, start, start + j)
      {
        var e := ptrs[addr].entries[j];
        var ptr := VarTarget(e);
        if j < c {
          EntryFacts(ptrs, sh, level, addr, start, j);
          if e.next != 0 { AbsNotOne(B, e.next); }
        }
        if ptr == VAR_FILE_END {
          return;
        }
        var sub := WalkVariable(ptr, level - 1, e.disp, sh, Off(P, start + j));
        CoveredStep(sh, level, start, start + j, sub);
        found := found + sub;
        j := j + 1;
      }
    }

    /** Collects the data blocks of a fixed file in order; the number of blocks stops the walk. */
    method WalkFixed(addr: nat, level: nat, block0: nat, nrBlocks: nat, ghost sh: Shape, ghost start: nat)
      returns (found: seq<Found>, block: nat)
      requires Valid() && !variable && Fit(sh) && nrBlocks == |sh.leaves|
      requires level == 0 ==> block0 < nrBlocks
      requires level >= 1 ==> IsTree(ptrs, sh, level, addr, start) && block0 == Cut(P, level, start, nrBlocks)
      ensures level == 0 ==> found == [Found(addr, 0)] && block == block0 + 1
      ensures level >= 1 ==>
        && found == Covered(sh, level, start, End(sh, level, start))
        && block == Cut(P, level, End(sh, level, start), nrBlocks)
      decreases level
    {
      block := block0;
      if level == 0 {
        return [Found(addr, 0)], block + 1;
      }
      hide EntryOk, Covered, PerLevel, Off;
      ghost var c := End(sh, level, start) - start;
      found := [];
      assert Covered(sh, level, start, start) == [] by { CoveredNone(sh, level, start); }
      var j := 0;
      while j < P
        invariant 0 <= j <= c <= P && found == Covered(sh, level, start, start + j)
        invariant block == Cut(P, level, start + j, nrBlocks)
      {
        var ptr := FixedTarget(ptrs[addr].entries[j]);
        if j < c {
          EntryFacts(ptrs, sh, level, addr, start, j);
          LevelCovers(P, level, nrBlocks);
        } else {
          EndCut(sh, level, start);
        }
        if block >= nrBlocks {
          return;
        }
        var sub;
        sub, block := WalkFixed(ptr, level - 1, block, nrBlocks, sh, Off(P, start + j));
        CoveredStep(sh, level, start, start + j, sub);
        found := found + sub;
        j := j + 1;
      }
    }

    // ----------------------------------------------------------------
    // Purging
    // ----------------------------------------------------------------

    /** Frees the pointer blocks of a variable file. */
    method PurgeVariable(level: nat, addr: nat, ghost sh: Shape, ghost start: nat)
      requires Valid() && variable && Fit(sh)
      requires level >= 1 ==> Purgeable(ptrs, sh, level, addr, start)
      modifies this`ptrs, this`used
      ensures Valid()
      ensures level == 0 ==> used == old(used) && ptrs == old(ptrs)
      ensures level >= 1 ==>
        var nodes := Elements(NodeList(old(ptrs), sh, level, addr, start));
        used == old(used) - nodes && ptrs == old(ptrs) - nodes
      decreases level
    {
      hide Purged, EntryOk, Elements, Filled, PerLevel, Off, NodeList, NoDup, IsTree;
      if level == 0 {
        return;
      }
      ghost var c := End(sh, level, start) - start;
      TreeFacts(ptrs, sh, level, addr, start);
      PurgedNone(ptrs, used, sh, level, addr, start);
      var j := 0;
      while j < P && level > 1
        invariant 0 <= j <= c && Valid() && (level == 1 ==> j == 0)
        invariant Purged(old(ptrs), old(used), ptrs, used, sh, level, addr, start, j)
        invariant addr in ptrs && ptrs[addr] == old(ptrs)[addr]
      {
        var e := ptrs[addr].entries[j];
        var ptr := VarTarget(e);
        if j < c {
          PurgedEntry(old(ptrs), old(used), ptrs, used, sh, level, addr, start, j, e);
          AbsNotOne(B, e.next);
        }
        if ptr == VAR_FILE_END {
          break;
        }
        if ptr != NULL_BLOCK {
          PurgeVariable(level - 1, ptr, sh, Off(P, start + j));
        }
        j := j + 1;
        PurgedFacts(old(ptrs), old(used), ptrs, used, sh, level, addr, start, j);
      }
      PurgedAll(old(ptrs), old(used), ptrs, used, sh, level, addr, start, j);
      FreeBlock(addr);
    }

    /** Frees the pointer blocks of a fixed file: every entry of a pointer block is looked at. */
    method PurgeFixed(level: nat, addr: nat, ghost sh: Shape, ghost start: nat)
      requires Valid() && !variable && Fit(sh)
      requires level >= 1 ==> Purgeable(ptrs, sh, level, addr, start)
      modifies this`ptrs, this`used
      ensures Valid()
      ensures level == 0 ==> used == old(used) && ptrs == old(ptrs)
      ensures level >= 1 ==>
        var nodes := Elements(NodeList(old(ptrs), sh, level, addr, start));
        used == old(used) - nodes && ptrs == old(ptrs) - nodes
      decreases level
    {
      hide Purged, EntryOk, Elements, Filled, PerLevel, Off, NodeList, NoDup, IsTree;
      if level == 0 {
        return;
      }
      ghost var c := End(sh, level, start) - start;
      TreeFacts(ptrs, sh, level, addr, start);
      PurgedNone(ptrs, used, sh, level, addr, start);
      var j := 0;
      ghost var done := 0;
      while j < P && level > 1
        invariant 0 <= j <= P && done == Min(j, c) && Valid() && (level == 1 ==> j == 0)
        invariant Purged(old(ptrs), old(used), ptrs, used, sh, level, addr, start, done)
        invariant addr in ptrs && ptrs[addr] == old(ptrs)[addr]
      {
        var e := ptrs[addr].entries[j];
        var ptr := FixedTarget(e);
        if j < c {
          PurgedEntry(old(ptrs), old(used), ptrs, used, sh, level, addr, start, j, e);
        }
        if ptr != NULL_BLOCK {
          PurgeFixed(level - 1, ptr, sh, Off(P, start + j));
        }
        j := j + 1;
        done := Min(j, c);
        PurgedFacts(old(ptrs), old(used), ptrs, used, sh, level, addr, start, done);
      }
      PurgedAll(old(ptrs), old(used), ptrs, used, sh, level, addr, start, done);
      FreeBlock(addr);
    }

    /** Frees the pointer blocks of the directory: data blocks are visited as trees of depth 0. */
    method PurgeDirectory(level: nat, addr: nat, ghost sh: Shape, ghost start: nat)
      requires Valid() && !variable && Fit(sh)
      requires level >= 1 ==> Purgeable(ptrs, sh, level, addr, start)
      modifies this`ptrs, this`used
      ensures Valid()
      ensures level == 0 ==> used == old(used) && ptrs == old(ptrs)
      ensures level >= 1 ==>
        var nodes := Elements(NodeList(old(ptrs), sh, level, addr, start));
        used == old(used) - nodes && ptrs == old(ptrs) - nodes
      decreases level
    {
      hide Purged, EntryOk, Elements, Filled, PerLevel, Off, NodeList, NoDup, IsTree;
      if level == 0 {
        return;
      }
      ghost var c := End(sh, level, start) - start;
      TreeFacts(ptrs, sh, level, addr, start);
      PurgedNone(ptrs, used, sh, level, addr, start);
      var j := 0;
      ghost var done := 0;
      while j < P
        invariant 0 <= j <= P && done == (if level == 1 then 0 else Min(j, c)) && Valid()
        invariant Purged(old(ptrs), old(used), ptrs, used, sh, level, addr, start, done)
        invariant addr in ptrs && ptrs[addr] == old(ptrs)[addr]
      {
        var e := ptrs[addr].entries[j];
        var ptr := FixedTarget(e);
        if j < c && level > 1 {
          PurgedEntry(old(ptrs), old(used), ptrs, used, sh, level, addr, start, j, e);
        }
        if ptr != NULL_BLOCK {
          PurgeDirectory(level - 1, ptr, sh, Off(P, start + j));
        }
        j := j + 1;
        done := if level == 1 then 0 else Min(j, c);
        PurgedFacts(old(ptrs), old(used), ptrs, used, sh, level, addr, start, done);
      }
      PurgedAll(old(ptrs), old(used), ptrs, used, sh, level, addr, start, done);
      FreeBlock(addr);
    }

    // ----------------------------------------------------------------
    // Whole trees
    // ----------------------------------------------------------------

    /** Depth of the pointer tree for a number of data blocks. */
    method UpdateLevels(nrBlocks: nat) returns (levels: nat)
      requires P >= 2
      ensures levels == if nrBlocks < 2 then 0 else Levels(P, nrBlocks)
    {
      hide Levels;
      var blocks: nat := nrBlocks;
      levels := 1;
      if blocks < 2 {
        return 0;
      }
      while blocks / P > 0
        invariant levels - 1 + Levels(P, blocks) == Levels(P, nrBlocks)
        decreases blocks
      {
        LevelsDiv(P, blocks);
        levels, blocks := levels + 1, blocks / P;
      }
      LevelsDiv(P, blocks);
    }

    /** Allocates a root and writes the whole tree below it. */
    method WriteTree(sh: Shape, levels: nat) returns (root: nat)
      requires Valid() && Fit(sh) && levels == Levels(P, |sh.leaves|)
      modifies this`ptrs, this`used
      ensures Valid() && root > 0 && root % B == 0 && Purgeable(ptrs, sh, levels, root, 0)
      ensures used >= old(used) && Elements(NodeList(ptrs, sh, levels, root, 0)) == used - old(used)
      ensures ptrs.Keys == old(ptrs).Keys + (used - old(used))
      ensures forall a :: a in old(ptrs) ==> ptrs[a] == old(ptrs)[a]
    {
      hide EntryOk, PerLevel, Levels, Filled, NoDup;
      root := GetReservedBlock();
      RewritePointerBlock(sh, levels, root, 0);
      ghost var c := End(sh, levels, 0);
      ElementsSum(Below(ptrs, sh, levels, root, 0, c), [root]);
      ElementsOne(root);
    }

    // ----------------------------------------------------------------
    // The last pointer of every level
    // ----------------------------------------------------------------

    /** The stored offset of the last pointer makes no sense. */
    predicate BadBack(b: PtrBlock) {
      b.back % VPTR_SIZE != 0 || b.back > B
    }

    /**
      Follows the last pointers down to the one that leads to the last data
      block; fails if one of them does not carry the file's record count.
    */
    method LocateLastDataVptr(addr: nat, level: nat, nrRecords: int, ghost sh: Shape, ghost start: nat)
      returns (rc: int, vptr: Ptr)
      requires Valid() && variable && Fit(sh) && level >= 1 && addr in ptrs
      requires !BadBack(ptrs[addr]) ==> IsTree(ptrs, sh, level, addr, start) && IsLast(sh, level, start)
      ensures rc == if !BadBack(ptrs[addr]) && sh.leaves[|sh.leaves| - 1].hi == nrRecords then 0 else EIO
      ensures rc == 0 ==>
        var last := sh.leaves[|sh.leaves| - 1];
        FixedTarget(vptr) == last.addr && vptr.disp == last.disp && vptr.hi == nrRecords
      decreases level
    {
      vptr := NoPtr;
      var last := ptrs[addr].back;
      if BadBack(ptrs[addr]) {
        return EIO, vptr;
      }
      LastEntry(ptrs, sh, level, addr, start);
      vptr := ptrs[addr].entries[last / VPTR_SIZE];
      if vptr.hi != nrRecords {
        return EIO, vptr;
      }
      if level == 1 {
        EntryFacts(ptrs, sh, level, addr, start, last / VPTR_SIZE);
        return 0, vptr;
      }
      EntryTree(ptrs, sh, level, start + last / VPTR_SIZE, vptr);
      BackFine(ptrs, sh, level - 1, Abs(B, vptr.next), Off(P, start + last / VPTR_SIZE));
      rc, vptr := LocateLastDataVptr(Abs(B, vptr.next), level - 1, nrRecords, sh, Off(P, start + last / VPTR_SIZE));
    }

    lemma BackFine(m: map<nat, PtrBlock>, sh: Shape, level: nat, addr: nat, start: nat)
      requires P >= 2 && P * VPTR_SIZE + BACK_SIZE <= B && variable && Fit(sh) && level >= 1
      requires IsTree(m, sh, level, addr, start)
      ensures addr in m && !BadBack(m[addr])
    {
    }

    /** Stores the record count in the last pointer of a pointer block; the tree below it stays as it was. */
    method PatchBlock(addr: nat, level: nat, nrRecords: int, ghost sh: Shape, ghost start: nat)
      returns (ghost j: nat, ghost was: Ptr, e: Ptr)
      requires Valid() && variable && Fit(sh) && level >= 1 && addr in ptrs && !BadBack(ptrs[addr])
      requires Purgeable(ptrs, sh, level, addr, start) && IsLast(sh, level, start)
      modifies this`ptrs
      ensures Valid() && j + 1 == End(sh, level, start) - start && j < |old(ptrs)[addr].entries|
      ensures was == old(ptrs)[addr].entries[j] && e == was.(hi := nrRecords) && EntryOk(old(ptrs), sh, level, start + j, was)
      ensures ptrs == old(ptrs)[addr := WithEntry(old(ptrs)[addr], j, e)]
      ensures level > 1 ==> e.next > 0
      ensures level > 1 ==>
        var a, lo := Abs(B, e.next), Off(P, start + j);
        && Purgeable(ptrs, sh, level - 1, a, lo) && IsLast(sh, level - 1, lo) && a in ptrs && !BadBack(ptrs[a])
        && NodeList(ptrs, sh, level - 1, a, lo) == Under(old(ptrs), sh, level, start + j, was)
        && addr !in Elements(Under(old(ptrs), sh, level, start + j, was))
    {
      hide IsTree, EntryOk, Filled, Elements, NoDup, PerLevel, Off, NodeList, Under;
      ghost var m := ptrs;
      LastEntry(m, sh, level, addr, start);
      var last := ptrs[addr].back;
      j := last / VPTR_SIZE;
      e := ptrs[addr].entries[last / VPTR_SIZE];
      was := e;
      e := e.(hi := nrRecords);
      SetEntry(addr, last / VPTR_SIZE, e);
      if level > 1 {
        TreeFilled(m, sh, level, addr, start, j);
        EntryTree(m, sh, level, start + j, was);
        PatchDown(m, ptrs, sh, level, addr, start, j, was, e);
        UnderApart(m, sh, level, addr, start, j, was);
        BackFine(ptrs, sh, level - 1, Abs(B, e.next), Off(P, start + j));
      }
    }

    /** Stores the record count in the last pointer of every level. */
    method UpdateLastBlockVptr(addr: nat, level: nat, nrRecords: int, ghost sh: Shape, ghost start: nat)
      returns (rc: int)
      requires Valid() && variable && Fit(sh) && level >= 1 && addr in ptrs && nrRecords > 0
      requires !BadBack(ptrs[addr]) ==> Purgeable(ptrs, sh, level, addr, start) && IsLast(sh, level, start)
      modifies this`ptrs
      ensures rc == if BadBack(old(ptrs)[addr]) then EIO else 0
      ensures rc == EIO ==> ptrs == old(ptrs)
      ensures rc == 0 ==>
        && Valid() && Fit(Patched(sh, nrRecords)) && IsTree(ptrs, Patched(sh, nrRecords), level, addr, start)
        && NodeList(ptrs, Patched(sh, nrRecords), level, addr, start) == NodeList(old(ptrs), sh, level, addr, start)
        && ptrs.Keys == old(ptrs).Keys
        && forall a :: a in ptrs && a !in Elements(NodeList(old(ptrs), sh, level, addr, start)) ==> ptrs[a] == old(ptrs)[a]
      decreases level
    {
      if BadBack(ptrs[addr]) {
        return EIO;
      }
      hide IsTree, EntryOk, Filled, Elements, NoDup, PerLevel, Off, NodeList, Under, IsLast, End;
      ghost var m := ptrs;
      ghost var j, was;
      var e;
      j, was, e := PatchBlock(addr, level, nrRecords, sh, start);
      if level > 1 {
        rc := UpdateLastBlockVptr(Abs(B, e.next), level - 1, nrRecords, sh, Off(P, start + j));
      } else {
        rc := 0;
      }
      PatchWhole(m, ptrs, sh, nrRecords, level, addr, start, j, was, e);
    }
  }

  /** Writing a tree, walking it and purging it finds every data block in order and leaves no block behind. */
  method WriteWalkPurge(st: PtrStore, sh: Shape) returns (found: seq<Found>)
    requires st.Valid() && st.Fit(sh) && |sh.leaves| >= 2
    modifies st
    ensures st.Valid() && found == Listed(sh, 0, |sh.leaves|)
    ensures st.used == old(st.used) && st.ptrs == old(st.ptrs)
  {
    var levels := st.UpdateLevels(|sh.leaves|);
    RootCovers(sh);
    ghost var before, was := st.used, st.ptrs;
    var root := st.WriteTree(sh, levels);
    hide Levels, Purgeable, Listed;
    if st.variable {
      found := st.WalkVariable(root, levels, 0, sh, 0);
      st.PurgeVariable(levels, root, sh, 0);
    } else {
      FirstZero(st.P, levels);
      var blocks;
      found, blocks := st.WalkFixed(root, levels, 0, |sh.leaves|, sh, 0);
      st.PurgeFixed(levels, root, sh, 0);
    }
  }

  // ------------------------------------------------------------------
  // The pointer blocks of the directory
  // ------------------------------------------------------------------

  /** The directory blocks as the pointers of the directory describe them. */
  function DirShape(B: nat, P: nat, dlist: seq<nat>): Shape {
    Shape(B, P, false, DirLeaves(dlist))
  }

  function DirLeaves(dlist: seq<nat>): (leaves: seq<Leaf>)
    ensures |leaves| == |dlist| && forall i :: 0 <= i < |dlist| ==> leaves[i] == Leaf(dlist[i], 0, 0)
  {
    seq(|dlist|, i requires 0 <= i < |dlist| => Leaf(dlist[i], 0, 0))
  }

  /** Directory blocks in order; the first one never moves. */
  ghost predicate DirList(B: nat, fdir: nat, dlist: seq<nat>)
    requires B > 0
  {
    |dlist| >= 1 && dlist[0] == fdir && forall i :: 0 <= i < |dlist| ==> dlist[i] % B == 0
  }

  /**
    Beside the blocks u and the pointer blocks m, exactly the pointer blocks of
    the directory are in use; a directory of one block has none.
  */
  ghost predicate DirTree(st: PtrStore, m: map<nat, PtrBlock>, u: set<nat>, fdir: nat, dlist: seq<nat>, fop: nat, levels: nat)
    requires st.B >= 2 && st.P >= 2
    reads st
  {
    && DirList(st.B, fdir, dlist) && fop > 0
    && if |dlist| == 1 then levels == 0 && Abs(st.B, fop) == fdir && st.used == u && st.ptrs == m
       else
         && levels == Levels(st.P, |dlist|) && ShapeOk(DirShape(st.B, st.P, dlist))
         && Purgeable(st.ptrs, DirShape(st.B, st.P, dlist), levels, Abs(st.B, fop), 0)
         && var nodes := Elements(NodeList(st.ptrs, DirShape(st.B, st.P, dlist), levels, Abs(st.B, fop), 0));
            nodes !! u && st.used == u + nodes && st.ptrs - nodes == m
  }

  /** Writes the pointers for a list of directory blocks. */
  method RewriteDblockPtrs(st: PtrStore, fdir: nat, dlist: seq<nat>) returns (fop: nat, levels: nat)
    requires st.Valid() && !st.variable && DirList(st.B, fdir, dlist)
    modifies st
    ensures st.Valid() && DirTree(st, old(st.ptrs), old(st.used), fdir, dlist, fop, levels)
  {
    if |dlist| == 1 {
      AbsRel(st.B, fdir);
      return Rel(st.B, fdir), 0;
    }
    hide Levels, Purgeable;
    ghost var m, u := st.ptrs, st.used;
    var sh := DirShape(st.B, st.P, dlist);
    levels := st.UpdateLevels(|dlist|);
    var root := st.WriteTree(sh, levels);
    AbsRel(st.B, root);
    fop := Rel(st.B, root);
    assert st.ptrs - (st.used - u) == m;
  }

  /** The pointers of the old list go, those of the new one come, and no pointer block is lost or left behind. */
  method ChangeDblockPtrs(st: PtrStore, ghost m: map<nat, PtrBlock>, ghost u: set<nat>, fdir: nat,
                          ghost was: seq<nat>, fop: nat, levels: nat, dlist: seq<nat>)
    returns (fop': nat, levels': nat)
    requires st.Valid() && !st.variable && DirTree(st, m, u, fdir, was, fop, levels) && m.Keys <= u && DirList(st.B, fdir, dlist)
    modifies st
    ensures st.Valid() && DirTree(st, m, u, fdir, dlist, fop', levels')
  {
    hide Levels, IsTree, NodeList;
    PurgeDblockPtrs(st, m, u, fdir, was, fop, levels);
    fop', levels' := RewriteDblockPtrs(st, fdir, dlist);
  }

  /** Purging the pointers of the directory gives back exactly the blocks that writing them took. */
  method PurgeDblockPtrs(st: PtrStore, ghost m: map<nat, PtrBlock>, ghost u: set<nat>, fdir: nat,
                         ghost dlist: seq<nat>, fop: nat, levels: nat)
    requires st.Valid() && !st.variable && DirTree(st, m, u, fdir, dlist, fop, levels)
    modifies st
    ensures st.Valid() && st.used == u && st.ptrs == m
  {
    hide IsTree, NodeList;
    st.PurgeDirectory(levels, Abs(st.B, fop), DirShape(st.B, st.P, dlist), 0);
  }

  /** Writing and purging the pointers of a directory of any size leaves the disk as it was. */
  method WritePurgeDirectory(st: PtrStore, fdir: nat, dlist: seq<nat>)
    requires st.Valid() && !st.variable && DirList(st.B, fdir, dlist)
    modifies st
    ensures st.Valid() && st.used == old(st.used) && st.ptrs == old(st.ptrs)
  {
    hide DirTree;
    var fop, levels := RewriteDblockPtrs(st, fdir, dlist);
    PurgeDblockPtrs(st, old(st.ptrs), old(st.used), fdir, dlist, fop, levels);
  }
}
