/**
  What walking, purging and patching a pointer tree relies on.
*/
module PointerWalks {
  import opened Blocks
  import opened PointerTrees

  /** A data block as a walk finds it. */
  datatype Found = Found(addr: nat, disp: nat)

  /** The data blocks from number lo up to hi, in order. */
  ghost function Listed(sh: Shape, lo: nat, hi: nat): seq<Found>
    requires lo <= hi <= |sh.leaves|
  {
    seq(hi - lo, j requires 0 <= j < hi - lo => Found(sh.leaves[lo + j].addr, if sh.variable then sh.leaves[lo + j].disp else 0))
  }

  lemma ListedJoin(sh: Shape, lo: nat, mid: nat, hi: nat)
    requires lo <= mid <= hi <= |sh.leaves|
    ensures Listed(sh, lo, mid) + Listed(sh, mid, hi) == Listed(sh, lo, hi)
  {
  }

  lemma CutMono(P: nat, level: nat, i: nat, j: nat, n: nat)
    requires i <= j
    ensures Cut(P, level, i, n) <= Cut(P, level, j, n) <= n
  {
    FirstMono(P, level, i, j);
  }

  /** The data blocks below the entries from up to to of a level. */
  ghost function Covered(sh: Shape, level: nat, from: nat, to: nat): seq<Found>
    requires from <= to
  {
    CutMono(sh.P, level, from, to, |sh.leaves|);
    Listed(sh, Cut(sh.P, level, from, |sh.leaves|), Cut(sh.P, level, to, |sh.leaves|))
  }

  lemma CoveredNone(sh: Shape, level: nat, start: nat)
    ensures Covered(sh, level, start, start) == []
  {
  }

  /** What entry i adds to the data blocks found so far. */
  lemma CoveredStep(sh: Shape, level: nat, start: nat, i: nat, sub: seq<Found>)
    requires ShapeOk(sh) && level >= 1 && start <= i < PerLevel(sh.P, level - 1, |sh.leaves|)
    requires level == 1 ==> sub == [Found(sh.leaves[i].addr, if sh.variable then sh.leaves[i].disp else 0)]
    requires level > 1 ==>
      Off(sh.P, i) <= End(sh, level - 1, Off(sh.P, i)) &&
      sub == Covered(sh, level - 1, Off(sh.P, i), End(sh, level - 1, Off(sh.P, i)))
    ensures Covered(sh, level, start, i) + sub == Covered(sh, level, start, i + 1)
  {
    var n := |sh.leaves|;
    CutMono(sh.P, level, start, i, n);
    CutMono(sh.P, level, i, i + 1, n);
    ListedJoin(sh, Cut(sh.P, level, start, n), Cut(sh.P, level, i, n), Cut(sh.P, level, i + 1, n));
    if level > 1 {
      ChildRange(sh.P, level, i, n);
    } else {
      assert sub == Listed(sh, i, i + 1);
    }
  }

  lemma AbsNotOne(B: nat, rel: nat)
    requires B >= 2 && rel > 0
    ensures Abs(B, rel) != VAR_FILE_END
  {
    if rel >= 2 {
      assert (rel - 1) * B >= B;
    }
  }

  /** Entry j of a tree node: never an end marker, and what lies below it. */
  lemma EntryFacts(m: map<nat, PtrBlock>, sh: Shape, level: nat, addr: nat, start: nat, j: nat)
    requires ShapeOk(sh) && level >= 1 && IsTree(m, sh, level, addr, start) && j < End(sh, level, start) - start
    ensures addr in m && j < |m[addr].entries| && EntryOk(m, sh, level, start + j, m[addr].entries[j])
    ensures sh.variable ==> m[addr].entries[j].hi > 0
    ensures level == 1 ==>
      var e := m[addr].entries[j];
      && start + j < |sh.leaves|
      && (if e.next == 0 then 0 else Abs(sh.B, e.next)) == sh.leaves[start + j].addr
      && (sh.variable ==> e.disp == sh.leaves[start + j].disp)
      && Cut(sh.P, 1, start + j, |sh.leaves|) == start + j && Cut(sh.P, 1, start + j + 1, |sh.leaves|) == start + j + 1
    ensures level > 1 ==>
      var e, lo := m[addr].entries[j], Off(sh.P, start + j);
      && e.next > 0 && IsTree(m, sh, level - 1, Abs(sh.B, e.next), lo)
      && Cut(sh.P, level - 1, lo, |sh.leaves|) == Cut(sh.P, level, start + j, |sh.leaves|)
      && Cut(sh.P, level - 1, End(sh, level - 1, lo), |sh.leaves|) == Cut(sh.P, level, start + j + 1, |sh.leaves|)
  {
    var e := m[addr].entries[j];
    assert EntryOk(m, sh, level, start + j, e);
    LevelCovers(sh.P, level, |sh.leaves|);
    FirstMono(sh.P, level, 0, start + j + 1);
    FirstZero(sh.P, level);
    if level == 1 {
      AbsRel(sh.B, sh.leaves[start + j].addr);
    } else {
      ChildRange(sh.P, level, start + j, |sh.leaves|);
    }
  }

  /** The end of the entries of the last pointer block of a level is the end of the data blocks. */
  lemma EndCut(sh: Shape, level: nat, start: nat)
    requires ShapeOk(sh) && level >= 1 && End(sh, level, start) < start + sh.P
    ensures Cut(sh.P, level, End(sh, level, start), |sh.leaves|) == |sh.leaves|
  {
    LevelCovers(sh.P, level, |sh.leaves|);
  }

  lemma TreeFacts(m: map<nat, PtrBlock>, sh: Shape, level: nat, addr: nat, start: nat)
    requires ShapeOk(sh) && level >= 1 && IsTree(m, sh, level, addr, start)
    ensures
      var c := End(sh, level, start) - start;
      && addr in m && |m[addr].entries| == sh.P && 0 < c <= sh.P
      && (forall j :: c <= j < sh.P ==> m[addr].entries[j] == NoPtr)
  {
  }

  lemma TreeFilled(m: map<nat, PtrBlock>, sh: Shape, level: nat, addr: nat, start: nat, j: nat)
    requires ShapeOk(sh) && level >= 1 && IsTree(m, sh, level, addr, start) && j <= End(sh, level, start) - start
    ensures Filled(m, sh, level, addr, start, j)
  {
  }

  lemma EntryTree(m: map<nat, PtrBlock>, sh: Shape, level: nat, i: nat, e: Ptr)
    requires ShapeOk(sh) && level >= 2 && i < PerLevel(sh.P, level - 1, |sh.leaves|) && EntryOk(m, sh, level, i, e)
    ensures e.next > 0 && Abs(sh.B, e.next) > 0 && IsTree(m, sh, level - 1, Abs(sh.B, e.next), Off(sh.P, i))
    ensures Under(m, sh, level, i, e) == NodeList(m, sh, level - 1, Abs(sh.B, e.next), Off(sh.P, i))
  {
  }

  // ------------------------------------------------------------------
  // Purging
  // ------------------------------------------------------------------

  lemma ElementsOne(a: nat)
    ensures Elements([a]) == {a} && NoDup([a])
  {
  }

  /** Pointer blocks on the lowest level lead to data blocks only. */
  lemma {:induction false} NoneBelow(m: map<nat, PtrBlock>, sh: Shape, addr: nat, start: nat, c: nat)
    requires ShapeOk(sh) && Filled(m, sh, 1, addr, start, c)
    ensures Below(m, sh, 1, addr, start, c) == []
  {
    if c > 0 {
      assert EntryOk(m, sh, 1, start + (c - 1), m[addr].entries[c - 1]);
      NoneBelow(m, sh, addr, start, c - 1);
    }
  }

  /** All nodes but the topmost one are gone: freeing that one completes the purge. */
  lemma PurgeTop(m: map<nat, PtrBlock>, sh: Shape, level: nat, addr: nat, start: nat, j: nat)
    requires ShapeOk(sh) && level >= 1 && IsTree(m, sh, level, addr, start)
    requires Filled(m, sh, level, addr, start, j)
    requires level == 1 || j == End(sh, level, start) - start
    ensures Elements(NodeList(m, sh, level, addr, start)) == Elements(Below(m, sh, level, addr, start, j)) + {addr}
  {
    hide EntryOk, PerLevel, Off, Elements, NoDup;
    var c := End(sh, level, start) - start;
    ElementsSum(Below(m, sh, level, addr, start, c), [addr]);
    assert Elements([addr]) == {addr} by { ElementsOne(addr); }
    if level == 1 {
      NoneBelow(m, sh, addr, start, c);
      NoneBelow(m, sh, addr, start, j);
    }
  }

  lemma {:induction false} BelowPrefix(m: map<nat, PtrBlock>, sh: Shape, level: nat, addr: nat, start: nat, j: nat, c: nat)
    requires ShapeOk(sh) && level >= 1 && Filled(m, sh, level, addr, start, c) && j <= c
    requires NoDup(Below(m, sh, level, addr, start, c))
    ensures Filled(m, sh, level, addr, start, j) && NoDup(Below(m, sh, level, addr, start, j))
    ensures Elements(Below(m, sh, level, addr, start, j)) <= Elements(Below(m, sh, level, addr, start, c))
    decreases c
  {
    hide EntryOk, NoDup, Elements;
    if j < c {
      assert EntryOk(m, sh, level, start + (c - 1), m[addr].entries[c - 1]);
      ElementsSum(Below(m, sh, level, addr, start, c - 1), Under(m, sh, level, start + (c - 1), m[addr].entries[c - 1]));
      BelowPrefix(m, sh, level, addr, start, j, c - 1);
    }
  }

  /** With the nodes below the first j entries gone, entry j still leads to its whole subtree. */
  lemma PurgeEntry(m: map<nat, PtrBlock>, m1: map<nat, PtrBlock>, sh: Shape,
                   level: nat, addr: nat, start: nat, j: nat, e: Ptr)
    requires ShapeOk(sh) && level >= 1 && IsTree(m, sh, level, addr, start) && j < End(sh, level, start) - start
    requires NoDup(NodeList(m, sh, level, addr, start)) && Elements(NodeList(m, sh, level, addr, start)) <= m.Keys
    requires e == m[addr].entries[j] && EntryOk(m, sh, level, start + j, e)
    requires m1 == m - Elements(Below(m, sh, level, addr, start, j))
    ensures addr in m1 && m1[addr] == m[addr]
    ensures EntryOk(m1, sh, level, start + j, e)
    ensures Under(m1, sh, level, start + j, e) == Under(m, sh, level, start + j, e)
    ensures NoDup(Under(m, sh, level, start + j, e)) && Elements(Under(m, sh, level, start + j, e)) <= m1.Keys
    ensures Elements(Below(m, sh, level, addr, start, j + 1))
         == Elements(Below(m, sh, level, addr, start, j)) + Elements(Under(m, sh, level, start + j, e))
  {
    hide EntryOk, MetaOk, PerLevel, Off, Under;
    var c := End(sh, level, start) - start;
    ElementsSum(Below(m, sh, level, addr, start, c), [addr]);
    assert addr in [addr];
    BelowPrefix(m, sh, level, addr, start, j + 1, c);
    BelowPrefix(m, sh, level, addr, start, j, c);
    ElementsSum(Below(m, sh, level, addr, start, j), Under(m, sh, level, start + j, e));
    EntryFrame(m, m1, sh, level, start + j, e);
  }

  /** The topmost node is not among the nodes below it. */
  lemma TopApart(m: map<nat, PtrBlock>, sh: Shape, level: nat, addr: nat, start: nat, j: nat)
    requires ShapeOk(sh) && level >= 1 && IsTree(m, sh, level, addr, start)
    requires NoDup(NodeList(m, sh, level, addr, start)) && Filled(m, sh, level, addr, start, j)
    ensures addr !in Elements(Below(m, sh, level, addr, start, j))
  {
    var c := End(sh, level, start) - start;
    ElementsSum(Below(m, sh, level, addr, start, c), [addr]);
    assert addr in [addr];
    BelowPrefix(m, sh, level, addr, start, j, c);
  }

  /** The nodes of a tree are all there, each once. */
  ghost predicate Purgeable(m: map<nat, PtrBlock>, sh: Shape, level: nat, addr: nat, start: nat)
    requires ShapeOk(sh) && level >= 1
  {
    && IsTree(m, sh, level, addr, start)
    && NoDup(NodeList(m, sh, level, addr, start)) && Elements(NodeList(m, sh, level, addr, start)) <= m.Keys
  }

  /** The nodes below the first j entries of a pointer block are free again, nothing else has changed. */
  ghost predicate Purged(m: map<nat, PtrBlock>, u: set<nat>, m1: map<nat, PtrBlock>, u1: set<nat>,
                         sh: Shape, level: nat, addr: nat, start: nat, j: nat)
    requires ShapeOk(sh) && level >= 1
  {
    && Purgeable(m, sh, level, addr, start) && Filled(m, sh, level, addr, start, j)
    && u1 == u - Elements(Below(m, sh, level, addr, start, j))
    && m1 == m - Elements(Below(m, sh, level, addr, start, j))
    && addr in m1 && m1[addr] == m[addr]
  }

  lemma PurgedNone(m: map<nat, PtrBlock>, u: set<nat>, sh: Shape, level: nat, addr: nat, start: nat)
    requires ShapeOk(sh) && level >= 1 && Purgeable(m, sh, level, addr, start)
    ensures Purged(m, u, m, u, sh, level, addr, start, 0)
  {
    TreeFilled(m, sh, level, addr, start, 0);
    assert Elements(Below(m, sh, level, addr, start, 0)) == {};
  }

  lemma PurgedFacts(m: map<nat, PtrBlock>, u: set<nat>, m1: map<nat, PtrBlock>, u1: set<nat>,
                    sh: Shape, level: nat, addr: nat, start: nat, j: nat)
    requires ShapeOk(sh) && level >= 1 && Purged(m, u, m1, u1, sh, level, addr, start, j)
    ensures addr in m && addr in m1 && m1[addr] == m[addr]
  {
  }

  /** The subtree of entry j is ready to be purged, and its purge is the next step. */
  lemma PurgedEntry(m: map<nat, PtrBlock>, u: set<nat>, m1: map<nat, PtrBlock>, u1: set<nat>,
                    sh: Shape, level: nat, addr: nat, start: nat, j: nat, e: Ptr)
    requires ShapeOk(sh) && level >= 2 && Purged(m, u, m1, u1, sh, level, addr, start, j)
    requires j < End(sh, level, start) - start && e == m1[addr].entries[j]
    ensures e.next > 0 && Abs(sh.B, e.next) > 0 && Purgeable(m1, sh, level - 1, Abs(sh.B, e.next), Off(sh.P, start + j))
    ensures
      var nodes := Elements(NodeList(m1, sh, level - 1, Abs(sh.B, e.next), Off(sh.P, start + j)));
      Purged(m, u, m1 - nodes, u1 - nodes, sh, level, addr, start, j + 1)
  {
    hide EntryOk, NoDup, PerLevel, Off, Under, MetaOk, Elements, Below, Filled;
    TreeFilled(m, sh, level, addr, start, j + 1);
    EntryFacts(m, sh, level, addr, start, j);
    PurgeEntry(m, m1, sh, level, addr, start, j, e);
    EntryTree(m1, sh, level, start + j, e);
    var nodes := Elements(NodeList(m1, sh, level - 1, Abs(sh.B, e.next), Off(sh.P, start + j)));
    TopApart(m, sh, level, addr, start, j + 1);
  }

  lemma PurgedAll(m: map<nat, PtrBlock>, u: set<nat>, m1: map<nat, PtrBlock>, u1: set<nat>,
                  sh: Shape, level: nat, addr: nat, start: nat, j: nat)
    requires ShapeOk(sh) && level >= 1 && Purged(m, u, m1, u1, sh, level, addr, start, j)
    requires level == 1 || j == End(sh, level, start) - start
    ensures
      var nodes := Elements(NodeList(m, sh, level, addr, start));
      u1 - {addr} == u - nodes && m1 - {addr} == m - nodes
  {
    PurgeTop(m, sh, level, addr, start, j);
  }

  // ------------------------------------------------------------------
  // Patching the last entry of every level
  // ------------------------------------------------------------------

  /** The shape with another highest record number for the last data block. */
  ghost function Patched(sh: Shape, nr: int): Shape
    requires |sh.leaves| > 0
  {
    sh.(leaves := sh.leaves[|sh.leaves| - 1 := sh.leaves[|sh.leaves| - 1].(hi := nr)])
  }

  /** The pointer block is the last one of its level. */
  ghost predicate IsLast(sh: Shape, level: nat, start: nat)
    requires sh.P > 0 && level >= 1
  {
    End(sh, level, start) == PerLevel(sh.P, level - 1, |sh.leaves|)
  }

  /** An entry that does not reach the last data block does not notice the patch. */
  lemma {:induction false} PatchOther(m: map<nat, PtrBlock>, sh: Shape, nr: int, level: nat, i: nat, e: Ptr)
    requires ShapeOk(sh) && sh.variable && nr > 0 && level >= 1 && i + 1 < PerLevel(sh.P, level - 1, |sh.leaves|)
    requires EntryOk(m, sh, level, i, e)
    ensures ShapeOk(Patched(sh, nr)) && EntryOk(m, Patched(sh, nr), level, i, e)
    ensures Under(m, Patched(sh, nr), level, i, e) == Under(m, sh, level, i, e)
    decreases level, 0
  {
    PatchMeta(sh, nr, level, i, e);
    if level > 1 {
      OffMono(sh.P, i + 1, PerLevel(sh.P, level - 1, |sh.leaves|) - 1);
      PatchTree(m, sh, nr, level - 1, Abs(sh.B, e.next), Off(sh.P, i));
    }
  }

  lemma PatchMeta(sh: Shape, nr: int, level: nat, i: nat, e: Ptr)
    requires ShapeOk(sh) && sh.variable && nr > 0 && level >= 1 && i + 1 < PerLevel(sh.P, level - 1, |sh.leaves|)
    requires MetaOk(sh, level, i, e.hi, e.disp)
    ensures ShapeOk(Patched(sh, nr)) && MetaOk(Patched(sh, nr), level, i, e.hi, e.disp)
  {
    LevelCovers(sh.P, level, |sh.leaves|);
    FirstMono(sh.P, level, 0, i + 1);
    FirstZero(sh.P, level);
  }

  lemma {:induction false} PatchTree(m: map<nat, PtrBlock>, sh: Shape, nr: int, level: nat, addr: nat, start: nat)
    requires ShapeOk(sh) && sh.variable && nr > 0 && level >= 1 && IsTree(m, sh, level, addr, start)
    requires start + sh.P < PerLevel(sh.P, level - 1, |sh.leaves|)
    ensures ShapeOk(Patched(sh, nr)) && IsTree(m, Patched(sh, nr), level, addr, start)
    ensures NodeList(m, Patched(sh, nr), level, addr, start) == NodeList(m, sh, level, addr, start)
    decreases level, 2
  {
    PatchFilled(m, sh, nr, level, addr, start, sh.P);
  }

  lemma {:induction false} PatchFilled(m: map<nat, PtrBlock>, sh: Shape, nr: int, level: nat, addr: nat, start: nat, c: nat)
    requires ShapeOk(sh) && sh.variable && nr > 0 && level >= 1 && Filled(m, sh, level, addr, start, c)
    requires start + c < PerLevel(sh.P, level - 1, |sh.leaves|)
    ensures ShapeOk(Patched(sh, nr)) && Filled(m, Patched(sh, nr), level, addr, start, c)
    ensures Below(m, Patched(sh, nr), level, addr, start, c) == Below(m, sh, level, addr, start, c)
    decreases level, 1, c
  {
    hide EntryOk, Under, PerLevel;
    if c > 0 {
      assert EntryOk(m, sh, level, start + (c - 1), m[addr].entries[c - 1]);
      PatchFilled(m, sh, nr, level, addr, start, c - 1);
      PatchOther(m, sh, nr, level, start + (c - 1), m[addr].entries[c - 1]);
    }
  }

  /** The last entry of the last pointer block of a level describes the end of the file. */
  lemma LastEntry(m: map<nat, PtrBlock>, sh: Shape, level: nat, addr: nat, start: nat)
    requires ShapeOk(sh) && sh.variable && level >= 1 && IsTree(m, sh, level, addr, start) && IsLast(sh, level, start)
    ensures
      var c := End(sh, level, start) - start;
      && addr in m && 0 < c <= |m[addr].entries| == sh.P
      && m[addr].back == (c - 1) * VPTR_SIZE
      && LastNr(sh.P, level, start + (c - 1), |sh.leaves|) == |sh.leaves| - 1
      && EntryOk(m, sh, level, start + (c - 1), m[addr].entries[c - 1])
      && m[addr].entries[c - 1].hi == sh.leaves[|sh.leaves| - 1].hi
      && (level == 1 ==> start + c == |sh.leaves|)
      && (level > 1 ==> IsLast(sh, level - 1, Off(sh.P, start + (c - 1))))
  {
    var c := End(sh, level, start) - start;
    assert EntryOk(m, sh, level, start + (c - 1), m[addr].entries[c - 1]);
    LevelCovers(sh.P, level, |sh.leaves|);
    if level > 1 {
      assert PerLevel(sh.P, level - 1, |sh.leaves|) == CeilDiv(sh.P, PerLevel(sh.P, level - 2, |sh.leaves|));
    }
  }

  /** The last entry with the new record number, once everything below it is patched. */
  lemma PatchEntry(m: map<nat, PtrBlock>, m2: map<nat, PtrBlock>, sh: Shape, nr: int, level: nat, i: nat, was: Ptr, e: Ptr)
    requires ShapeOk(sh) && ShapeOk(Patched(sh, nr)) && sh.variable && level >= 1
    requires i + 1 == PerLevel(sh.P, level - 1, |sh.leaves|)
    requires EntryOk(m, sh, level, i, was) && e == was.(hi := nr)
    requires level > 1 ==>
      var a, lo := Abs(sh.B, e.next), Off(sh.P, i);
      && IsTree(m2, Patched(sh, nr), level - 1, a, lo)
      && NodeList(m2, Patched(sh, nr), level - 1, a, lo) == Under(m, sh, level, i, was)
    ensures EntryOk(m2, Patched(sh, nr), level, i, e)
    ensures Under(m2, Patched(sh, nr), level, i, e) == Under(m, sh, level, i, was)
  {
    LevelCovers(sh.P, level, |sh.leaves|);
    assert MetaOk(Patched(sh, nr), level, i, e.hi, e.disp);
  }

  /** Patching the last entry of a pointer block. */
  lemma PatchLast(m: map<nat, PtrBlock>, m2: map<nat, PtrBlock>, sh: Shape, nr: int,
                  level: nat, addr: nat, start: nat, c: nat, was: Ptr, e: Ptr)
    requires ShapeOk(sh) && ShapeOk(Patched(sh, nr)) && sh.variable && nr > 0 && level >= 1
    requires IsTree(m, sh, level, addr, start) && IsLast(sh, level, start) && c + 1 == End(sh, level, start) - start
    requires Filled(m, sh, level, addr, start, c)
    requires addr in m2 && m2[addr] == WithEntry(m[addr], c, e)
    requires Agree(m, m2, Elements(Below(m, sh, level, addr, start, c)))
    requires m[addr].entries[c] == was && EntryOk(m, sh, level, start + c, was)
    requires EntryOk(m2, Patched(sh, nr), level, start + c, e)
    requires Under(m2, Patched(sh, nr), level, start + c, e) == Under(m, sh, level, start + c, was)
    ensures IsTree(m2, Patched(sh, nr), level, addr, start)
    ensures NodeList(m2, Patched(sh, nr), level, addr, start) == NodeList(m, sh, level, addr, start)
  {
    hide EntryOk, MetaOk, Under, PerLevel, Off;
    PatchFilled(m, sh, nr, level, addr, start, c);
    FillOne(m, m2, Patched(sh, nr), level, addr, start, c, e);
  }

  /** Where the nodes of entry j lie within the nodes of the tree. */
  lemma UnderApart(m: map<nat, PtrBlock>, sh: Shape, level: nat, addr: nat, start: nat, j: nat, e: Ptr)
    requires ShapeOk(sh) && level >= 1 && Purgeable(m, sh, level, addr, start) && j < End(sh, level, start) - start
    requires Filled(m, sh, level, addr, start, j) && j < |m[addr].entries|
    requires e == m[addr].entries[j] && EntryOk(m, sh, level, start + j, e)
    ensures
      var below, under := Elements(Below(m, sh, level, addr, start, j)), Elements(Under(m, sh, level, start + j, e));
      var all := Elements(NodeList(m, sh, level, addr, start));
      below !! under && addr !in below && addr !in under && addr in all && below <= all && under <= all
    ensures NoDup(Under(m, sh, level, start + j, e))
  {
    hide EntryOk, NoDup, PerLevel, Off, MetaOk, Elements, Filled, Under;
    var c := End(sh, level, start) - start;
    TreeFilled(m, sh, level, addr, start, j + 1);
    TreeFilled(m, sh, level, addr, start, c);
    ElementsSum(Below(m, sh, level, addr, start, c), [addr]);
    ElementsOne(addr);
    BelowPrefix(m, sh, level, addr, start, j + 1, c);
    ElementsSum(Below(m, sh, level, addr, start, j), Under(m, sh, level, start + j, e));
    TopApart(m, sh, level, addr, start, j + 1);
  }

  /** The patched pointer block and the patched subtree below its last entry make up the patched tree. */
  lemma PatchUp(m: map<nat, PtrBlock>, m2: map<nat, PtrBlock>, sh: Shape, nr: int,
                level: nat, addr: nat, start: nat, j: nat, was: Ptr, e: Ptr)
    requires ShapeOk(sh) && ShapeOk(Patched(sh, nr)) && sh.variable && nr > 0 && level >= 1
    requires Purgeable(m, sh, level, addr, start) && IsLast(sh, level, start) && j + 1 == End(sh, level, start) - start
    requires Filled(m, sh, level, addr, start, j) && j < |m[addr].entries|
    requires was == m[addr].entries[j] && EntryOk(m, sh, level, start + j, was) && e == was.(hi := nr)
    requires m2.Keys == m.Keys && m2[addr] == WithEntry(m[addr], j, e)
    requires EntryOk(m2, Patched(sh, nr), level, start + j, e)
    requires Under(m2, Patched(sh, nr), level, start + j, e) == Under(m, sh, level, start + j, was)
    requires forall a :: a in m && a != addr && a !in Elements(Under(m, sh, level, start + j, was)) ==> m2[a] == m[a]
    ensures IsTree(m2, Patched(sh, nr), level, addr, start)
    ensures NodeList(m2, Patched(sh, nr), level, addr, start) == NodeList(m, sh, level, addr, start)
    ensures forall a :: a in m && a !in Elements(NodeList(m, sh, level, addr, start)) ==> m2[a] == m[a]
  {
    hide EntryOk, NoDup, PerLevel, Off, MetaOk, Elements, Filled, Under, NodeList, Below;
    UnderApart(m, sh, level, addr, start, j, was);
    PatchLast(m, m2, sh, nr, level, addr, start, j, was, e);
  }

  /** The patched last entry, the patched subtree below it and the other entries make up the patched tree. */
  lemma PatchWhole(m: map<nat, PtrBlock>, m2: map<nat, PtrBlock>, sh: Shape, nr: int,
                   level: nat, addr: nat, start: nat, j: nat, was: Ptr, e: Ptr)
    requires ShapeOk(sh) && ShapeOk(Patched(sh, nr)) && sh.variable && nr > 0 && level >= 1
    requires Purgeable(m, sh, level, addr, start) && IsLast(sh, level, start) && j + 1 == End(sh, level, start) - start
    requires addr in m && j < |m[addr].entries| && was == m[addr].entries[j] && e == was.(hi := nr)
    requires m2.Keys == m.Keys && m2[addr] == WithEntry(m[addr], j, e)
    requires level == 1 ==> forall a :: a in m && a != addr ==> m2[a] == m[a]
    requires EntryOk(m, sh, level, start + j, was)
    requires level > 1 ==> e.next > 0
    requires level > 1 ==>
      var a, lo := Abs(sh.B, e.next), Off(sh.P, start + j);
      && IsTree(m2, Patched(sh, nr), level - 1, a, lo)
      && NodeList(m2, Patched(sh, nr), level - 1, a, lo) == Under(m, sh, level, start + j, was)
      && forall b :: b in m && b != addr && b !in Elements(Under(m, sh, level, start + j, was)) ==> m2[b] == m[b]
    ensures IsTree(m2, Patched(sh, nr), level, addr, start)
    ensures NodeList(m2, Patched(sh, nr), level, addr, start) == NodeList(m, sh, level, addr, start)
    ensures forall a :: a in m && a !in Elements(NodeList(m, sh, level, addr, start)) ==> m2[a] == m[a]
  {
    hide EntryOk, Filled, Elements, NoDup, PerLevel, Off, NodeList, Under, IsTree;
    LastEntry(m, sh, level, addr, start);
    TreeFilled(m, sh, level, addr, start, j);
    PatchEntry(m, m2, sh, nr, level, start + j, was, e);
    PatchUp(m, m2, sh, nr, level, addr, start, j, was, e);
  }

  /** The subtree of entry j is not touched when the pointer block itself is patched. */
  lemma PatchDown(m: map<nat, PtrBlock>, m1: map<nat, PtrBlock>, sh: Shape,
                  level: nat, addr: nat, start: nat, j: nat, was: Ptr, e: Ptr)
    requires ShapeOk(sh) && level >= 2 && Purgeable(m, sh, level, addr, start) && j < End(sh, level, start) - start
    requires Filled(m, sh, level, addr, start, j) && j < |m[addr].entries|
    requires was == m[addr].entries[j] && EntryOk(m, sh, level, start + j, was) && e.next == was.next > 0
    requires m1 == m[addr := WithEntry(m[addr], j, e)]
    ensures Purgeable(m1, sh, level - 1, Abs(sh.B, e.next), Off(sh.P, start + j))
    ensures NodeList(m1, sh, level - 1, Abs(sh.B, e.next), Off(sh.P, start + j)) == Under(m, sh, level, start + j, was)
  {
    hide EntryOk, NoDup, PerLevel, Off, MetaOk, Filled;
    EntryTree(m, sh, level, start + j, was);
    UnderApart(m, sh, level, addr, start, j, was);
    TreeFrame(m, m1, sh, level - 1, Abs(sh.B, e.next), Off(sh.P, start + j));
  }

  /** The root pointer block of a tree of the right depth covers all data blocks. */
  lemma RootCovers(sh: Shape)
    requires ShapeOk(sh)
    ensures IsLast(sh, Levels(sh.P, |sh.leaves|), 0) && End(sh, Levels(sh.P, |sh.leaves|), 0) > 0
    ensures Covered(sh, Levels(sh.P, |sh.leaves|), 0, End(sh, Levels(sh.P, |sh.leaves|), 0)) == Listed(sh, 0, |sh.leaves|)
  {
    hide Levels, PerLevel, FirstNr, Listed;
    var l := Levels(sh.P, |sh.leaves|);
    RootFits(sh.P, |sh.leaves|);
    LevelCovers(sh.P, l, |sh.leaves|);
    FirstZero(sh.P, l);
  }
}
