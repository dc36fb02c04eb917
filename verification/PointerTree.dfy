/**
  The pointer blocks that lead from a file (or the directory) to its data
  blocks. A tree of a given depth is written top down over a list of data
  blocks, walked to find the data blocks again, and purged before a rewrite.
  Pointers are kept as records; a pointer block holds P of them and, in the
  variable format, the offset of the last used one.
*/
module PointerTrees {
  import opened Blocks

  const VPTR_SIZE: nat := 12
  /** Size of the offset of the last pointer, at the end of a block of variable pointers. */
  const BACK_SIZE: nat := 4
  const NULL_BLOCK: int := 0
  const VAR_FILE_END: int := 1

  /** One data block as the pointers describe it. */
  datatype Leaf = Leaf(addr: nat, disp: nat, hi: int)

  datatype Ptr = Ptr(next: nat, hi: int, disp: nat)
  datatype PtrBlock = PtrBlock(entries: seq<Ptr>, back: int)

  const NoPtr := Ptr(0, 0, 0)

  function ZeroPtrBlock(P: nat): PtrBlock {
    PtrBlock(seq(P, _ => NoPtr), 0)
  }

  /** What a tree is to represent: block size, pointers per block, format and data blocks. */
  datatype Shape = Shape(B: nat, P: nat, variable: bool, leaves: seq<Leaf>)

  ghost predicate ShapeOk(sh: Shape) {
    && sh.B >= 2 && sh.P >= 2 && |sh.leaves| >= 1
    && (forall i :: 0 <= i < |sh.leaves| ==> sh.leaves[i].addr % sh.B == 0)
    && (sh.variable ==> forall i :: 0 <= i < |sh.leaves| ==> sh.leaves[i].hi > 0)
  }

  // Relative block numbers as stored in pointers.
  function Rel(B: nat, addr: nat): nat
    requires B > 0
  {
    addr / B + 1
  }

  function Abs(B: nat, rel: nat): nat
    requires rel > 0
  {
    (rel - 1) * B
  }

  lemma AbsRel(B: nat, addr: nat)
    requires B > 0 && addr % B == 0
    ensures Rel(B, addr) > 0 && Abs(B, Rel(B, addr)) == addr
  {
  }

  // ------------------------------------------------------------------
  // Numbering of the entries per level
  // ------------------------------------------------------------------

  /** Number of entries level levels above the data blocks. */
  function PerLevel(P: nat, level: nat, n: nat): (c: nat)
    requires P > 0
    ensures n > 0 ==> c > 0
  {
    if level == 0 then n else CeilDiv(P, PerLevel(P, level - 1, n))
  }

  /** First data block below entry i of a pointer block on this level. */
  function FirstNr(P: nat, level: nat, i: nat): nat {
    if level <= 1 then i else FirstNr(P, level - 1, Off(P, i))
  }

  /** The data block number where entry i begins, limited to the number of data blocks. */
  function Cut(P: nat, level: nat, i: nat, n: nat): nat {
    Min(FirstNr(P, level, i), n)
  }

  function LastNr(P: nat, level: nat, i: nat, n: nat): int {
    Min(FirstNr(P, level, i + 1) - 1, n - 1)
  }

  lemma {:induction false} FirstMono(P: nat, level: nat, i: nat, j: nat)
    requires i <= j
    ensures FirstNr(P, level, i) <= FirstNr(P, level, j)
    ensures P > 0 && i < j ==> FirstNr(P, level, i) < FirstNr(P, level, j)
  {
    if level > 1 {
      OffMono(P, i, j);
      FirstMono(P, level - 1, Off(P, i), Off(P, j));
    }
  }

  /** The entries of a level reach the end of the data blocks, and the last one is needed. */
  lemma {:induction false} LevelCovers(P: nat, level: nat, n: nat)
    requires P > 0 && level >= 1
    ensures FirstNr(P, level, PerLevel(P, level - 1, n)) >= n
    ensures forall i :: 0 <= i < PerLevel(P, level - 1, n) ==> FirstNr(P, level, i) < n
  {
    if level > 1 {
      LevelCovers(P, level - 1, n);
      var c := PerLevel(P, level - 1, n);
      FirstMono(P, level - 1, PerLevel(P, level - 2, n), Off(P, c));
      forall i | 0 <= i < c ensures FirstNr(P, level, i) < n {
        OffMono(P, i, c - 1);
      }
    }
  }

  /** The entries below entry i of a level. */
  lemma ChildRange(P: nat, level: nat, i: nat, n: nat)
    requires P > 0 && level >= 2 && i < PerLevel(P, level - 1, n)
    ensures
      var lo := Off(P, i);
      var hi := Min(lo + P, PerLevel(P, level - 2, n));
      && lo < hi
      && Cut(P, level - 1, lo, n) == Cut(P, level, i, n)
      && Cut(P, level - 1, hi, n) == Cut(P, level, i + 1, n)
  {
    var c := PerLevel(P, level - 1, n);
    OffMono(P, i, c - 1);
    LevelCovers(P, level - 1, n);
    var m := PerLevel(P, level - 2, n);
    if m < Off(P, i) + P {
      FirstMono(P, level - 1, m, Off(P, i) + P);
    }
  }

  // ------------------------------------------------------------------
  // Depth
  // ------------------------------------------------------------------

  lemma {:induction false} OffGrows(P: nat, q: nat)
    requires P >= 2
    ensures Off(P, q) >= 2 * q
  {
    if q > 0 { OffGrows(P, q - 1); }
  }

  /** Depth of the tree over n data blocks; a full pointer block already adds a level. */
  function Levels(P: nat, n: nat): (l: nat)
    requires P >= 2
    ensures l >= 1
    decreases n
  {
    if n < P then 1 else
      OffGrows(P, BlockOf(P, n));
      1 + Levels(P, BlockOf(P, n))
  }

  /** The loop that counts levels divides by P until nothing is left. */
  lemma LevelsDiv(P: nat, n: nat)
    requires P >= 2
    ensures n / P > 0 ==> n / P < n && Levels(P, n) == 1 + Levels(P, n / P)
    ensures n / P == 0 ==> Levels(P, n) == 1
  {
    DivIsBlockOf(P, n);
    OffGrows(P, BlockOf(P, n));
  }

  lemma {:induction false} PerLevelShift(P: nat, k: nat, n: nat)
    requires P > 0 && k > 0
    ensures PerLevel(P, k, n) == PerLevel(P, k - 1, CeilDiv(P, n))
  {
    if k > 1 {
      PerLevelShift(P, k - 1, n);
    }
  }

  lemma CeilMono(P: nat, a: nat, b: nat)
    requires P > 0 && a <= b
    ensures CeilDiv(P, a) <= CeilDiv(P, b)
  {
    var x, y := CeilDiv(P, a), CeilDiv(P, b);
    if y < x {
      OffMono(P, y, x - 1);
    }
  }

  lemma {:induction false} PerLevelMono(P: nat, k: nat, a: nat, b: nat)
    requires P > 0 && a <= b
    ensures PerLevel(P, k, a) <= PerLevel(P, k, b)
  {
    if k > 0 {
      PerLevelMono(P, k - 1, a, b);
      CeilMono(P, PerLevel(P, k - 1, a), PerLevel(P, k - 1, b));
    }
  }

  lemma LevelsStep(P: nat, n: nat) returns (q: nat)
    requires 2 <= P <= n
    ensures q < n && Levels(P, n) == 1 + Levels(P, q) && CeilDiv(P, n + 1) == q + 1
  {
    q := BlockOf(P, n);
    OffGrows(P, q);
  }

  /** With the chosen depth the root block is large enough, even for one entry more. */
  lemma {:induction false} RootFits(P: nat, n: nat)
    requires P >= 2
    ensures PerLevel(P, Levels(P, n) - 1, n + 1) <= P
    ensures PerLevel(P, Levels(P, n) - 1, n) <= P
    decreases n
  {
    hide CeilDiv;
    if n >= P {
      var q := LevelsStep(P, n);
      RootFits(P, q);
      PerLevelShift(P, Levels(P, q), n + 1);
    }
    PerLevelMono(P, Levels(P, n) - 1, n, n + 1);
  }

  /** P to the power of k. */
  function Pow(P: nat, k: nat): nat {
    if k == 0 then 1 else Off(P, Pow(P, k - 1))
  }

  lemma {:induction false} BlockOff(P: nat, q: nat)
    requires P > 0
    ensures BlockOf(P, Off(P, q)) == q && CeilDiv(P, Off(P, q)) == q
  {
    hide BlockOf;
    BlockOfUnique(P, Off(P, q), q);
    if q > 0 {
      assert Off(P, q) == Off(P, q - 1) + P;
      BlockOfUnique(P, Off(P, q) - 1, q - 1);
    }
  }

  /** A power of P blocks gets one level for each factor and one more, with a single entry in the root. */
  lemma {:induction false} PowerDepth(P: nat, k: nat)
    requires P >= 2
    ensures Pow(P, k) > 0 && (k > 0 ==> Pow(P, k) >= P)
    ensures Levels(P, Pow(P, k)) == k + 1 && PerLevel(P, k, Pow(P, k)) == 1
  {
    hide CeilDiv;
    if k > 0 {
      var q := Pow(P, k - 1);
      PowerDepth(P, k - 1);
      OffMono(P, 1, q);
      BlockOff(P, q);
      PerLevelShift(P, k, Pow(P, k));
    }
  }

  lemma {:induction false} TooMany(P: nat, q: nat)
    requires 2 <= P <= q
    ensures Levels(P, q) >= 2 && PerLevel(P, Levels(P, q) - 2, q + 1) > P
    decreases q
  {
    hide CeilDiv;
    var r := LevelsStep(P, q);
    if r >= P {
      TooMany(P, r);
      PerLevelShift(P, Levels(P, q) - 2, q + 1);
    }
  }

  ghost predicate IsPower(P: nat, n: nat) {
    exists k :: k > 0 && n == Pow(P, k)
  }

  lemma PowerOf(P: nat, n: nat, q: nat)
    requires 2 <= P <= q && BlockOf(P, n) == q
    ensures IsPower(P, n) <==> n == Off(P, q) && IsPower(P, q)
  {
    OffGrows(P, q);
    if IsPower(P, n) {
      var k :| k > 0 && n == Pow(P, k);
      PowerDepth(P, k);
      BlockOff(P, Pow(P, k - 1));
      PowerDepth(P, k - 1);
      assert k - 1 > 0;
    }
    if n == Off(P, q) && IsPower(P, q) {
      var k :| k > 0 && q == Pow(P, k);
      assert n == Pow(P, k + 1);
    }
  }

  /**
    One level less would do, with a root of at most P entries, if and only if
    the number of blocks is a power of P.
  */
  lemma {:induction false} SurplusLevel(P: nat, n: nat)
    requires 2 <= P <= n
    ensures Levels(P, n) >= 2 && (PerLevel(P, Levels(P, n) - 2, n) <= P <==> IsPower(P, n))
    decreases n
  {
    hide CeilDiv, BlockOf;
    var q := BlockOf(P, n);
    OffGrows(P, q);
    if q < P {
      if IsPower(P, n) {
        var k :| k > 0 && n == Pow(P, k);
        PowerDepth(P, k);
        assert k == 1 && Pow(P, 0) == 1 && n == Off(P, 1);
      }
      if n == P { assert n == Off(P, 1) == Pow(P, 1); }
    } else {
      PowerOf(P, n, q);
      TooMany(P, q);
      PerLevelShift(P, Levels(P, n) - 2, n);
      if n == Off(P, q) {
        BlockOff(P, q);
        SurplusLevel(P, q);
      } else {
        CeilAbove(P, n, q);
      }
    }
  }

  lemma CeilAbove(P: nat, n: nat, q: nat)
    requires P > 0 && Off(P, q) < n < Off(P, q) + P
    ensures CeilDiv(P, n) == q + 1
  {
    BlockOfUnique(P, n - 1, q);
  }

  /** With 341 pointers to a block of 4096 bytes, 341 blocks already get a second level, whose root has one entry. */
  lemma SurplusExample()
    ensures Levels(341, 341) == 2 && PerLevel(341, 1, 341) == 1 && PerLevel(341, 0, 341) <= 341
  {
    assert Pow(341, 0) == 1 && Pow(341, 1) == Off(341, 1) == 341;
    PowerDepth(341, 1);
  }

  // ------------------------------------------------------------------
  // Trees
  // ------------------------------------------------------------------

  /** End of the entries in the pointer block that begins with entry start. */
  function End(sh: Shape, level: nat, start: nat): int
    requires sh.P > 0 && level >= 1
  {
    Min(start + sh.P, PerLevel(sh.P, level - 1, |sh.leaves|))
  }

  /** What entry i of a level tells about its data blocks, apart from where it points. */
  ghost predicate MetaOk(sh: Shape, level: nat, i: nat, hi: int, disp: nat)
    requires ShapeOk(sh) && level >= 1 && i < PerLevel(sh.P, level - 1, |sh.leaves|)
  {
    if !sh.variable then hi == 0 && disp == 0 else
      LevelCovers(sh.P, level, |sh.leaves|);
      FirstMono(sh.P, level, 0, i + 1);
      FirstZero(sh.P, level);
      && disp == sh.leaves[FirstNr(sh.P, level, i)].disp
      && hi == sh.leaves[LastNr(sh.P, level, i, |sh.leaves|)].hi
  }

  lemma {:induction false} FirstZero(P: nat, level: nat)
    ensures FirstNr(P, level, 0) == 0
  {
    if level > 1 { FirstZero(P, level - 1); }
  }

  /** Entry e is entry i of the level: it describes its data blocks and leads to them. */
  ghost predicate EntryOk(m: map<nat, PtrBlock>, sh: Shape, level: nat, i: nat, e: Ptr)
    requires ShapeOk(sh) && level >= 1 && i < PerLevel(sh.P, level - 1, |sh.leaves|)
    decreases level, 0
  {
    && MetaOk(sh, level, i, e.hi, e.disp)
    && if level == 1 then e.next == if sh.leaves[i].addr == 0 then 0 else Rel(sh.B, sh.leaves[i].addr)
       else e.next > 0 && Abs(sh.B, e.next) > 0 && IsTree(m, sh, level - 1, Abs(sh.B, e.next), Off(sh.P, i))
  }

  /** The first c entries of the pointer block at addr are in place. */
  ghost predicate Filled(m: map<nat, PtrBlock>, sh: Shape, level: nat, addr: nat, start: nat, c: nat)
    requires ShapeOk(sh) && level >= 1
    decreases level, 1
  {
    && addr in m && |m[addr].entries| == sh.P && c <= End(sh, level, start) - start
    && forall j :: 0 <= j < c ==> EntryOk(m, sh, level, start + j, m[addr].entries[j])
  }

  /** The pointer block at addr and the blocks below it represent the entries from start on. */
  ghost predicate IsTree(m: map<nat, PtrBlock>, sh: Shape, level: nat, addr: nat, start: nat)
    requires ShapeOk(sh) && level >= 1
    decreases level, 2
  {
    var c := End(sh, level, start) - start;
    && 0 < c && Filled(m, sh, level, addr, start, c)
    && (forall j :: c <= j < sh.P ==> m[addr].entries[j] == NoPtr)
    && (sh.variable ==> m[addr].back == (c - 1) * VPTR_SIZE)
  }

  /** The pointer blocks below the first c entries of a pointer block, in the order a purge frees them. */
  ghost function Below(m: map<nat, PtrBlock>, sh: Shape, level: nat, addr: nat, start: nat, c: nat): seq<nat>
    requires ShapeOk(sh) && level >= 1 && Filled(m, sh, level, addr, start, c)
    decreases level, 1, c
  {
    if c == 0 then [] else
      var i, e := start + (c - 1), m[addr].entries[c - 1];
      assert EntryOk(m, sh, level, i, e);
      Below(m, sh, level, addr, start, c - 1) + Under(m, sh, level, i, e)
  }

  /** All pointer blocks of a tree, in the order a purge frees them. */
  ghost function NodeList(m: map<nat, PtrBlock>, sh: Shape, level: nat, addr: nat, start: nat): seq<nat>
    requires ShapeOk(sh) && level >= 1 && IsTree(m, sh, level, addr, start)
    decreases level, 2
  {
    Below(m, sh, level, addr, start, End(sh, level, start) - start) + [addr]
  }

  ghost predicate NoDup(s: seq<nat>) {
    forall i, j :: 0 <= i < j < |s| ==> s[i] != s[j]
  }

  ghost function Elements(s: seq<nat>): set<nat> {
    set a | a in s
  }

  lemma ElementsSum(s: seq<nat>, t: seq<nat>)
    ensures Elements(s + t) == Elements(s) + Elements(t)
    ensures NoDup(s + t) <==> NoDup(s) && NoDup(t) && Elements(s) !! Elements(t)
  {
    var u := s + t;
    assert forall a :: a in u <==> a in s || a in t;
    assert forall i :: 0 <= i < |s| ==> u[i] == s[i];
    assert forall i :: 0 <= i < |t| ==> u[|s| + i] == t[i];
    if NoDup(u) {
      forall i, j | 0 <= i < j < |t| ensures t[i] != t[j] {
        assert u[|s| + i] != u[|s| + j];
      }
    }
    if NoDup(s) && NoDup(t) && Elements(s) !! Elements(t) {
      forall i, j | 0 <= i < j < |u| ensures u[i] != u[j] {
        if i < |s| <= j {
          assert u[i] in Elements(s) && u[j] in Elements(t);
        }
      }
    }
  }

  ghost predicate Agree(m: map<nat, PtrBlock>, m': map<nat, PtrBlock>, s: set<nat>) {
    forall a :: a in s ==> a in m && a in m' && m[a] == m'[a]
  }

  /** A tree does not depend on blocks outside its node list. */
  lemma {:induction false} TreeFrame(m: map<nat, PtrBlock>, m': map<nat, PtrBlock>, sh: Shape,
                                     level: nat, addr: nat, start: nat)
    requires ShapeOk(sh) && level >= 1 && IsTree(m, sh, level, addr, start)
    requires Agree(m, m', Elements(NodeList(m, sh, level, addr, start)))
    ensures IsTree(m', sh, level, addr, start)
    ensures NodeList(m', sh, level, addr, start) == NodeList(m, sh, level, addr, start)
    decreases level, 2
  {
    var c := End(sh, level, start) - start;
    ElementsSum(Below(m, sh, level, addr, start, c), [addr]);
    assert addr in Elements([addr]);
    FilledFrame(m, m', sh, level, addr, start, c);
  }

  /** The nodes entry e leads to. */
  ghost function Under(m: map<nat, PtrBlock>, sh: Shape, level: nat, i: nat, e: Ptr): seq<nat>
    requires ShapeOk(sh) && level >= 1 && i < PerLevel(sh.P, level - 1, |sh.leaves|) && EntryOk(m, sh, level, i, e)
    decreases level, 0
  {
    if level == 1 then [] else NodeList(m, sh, level - 1, Abs(sh.B, e.next), Off(sh.P, i))
  }

  lemma {:induction false} EntryFrame(m: map<nat, PtrBlock>, m': map<nat, PtrBlock>, sh: Shape,
                                      level: nat, i: nat, e: Ptr)
    requires ShapeOk(sh) && level >= 1 && i < PerLevel(sh.P, level - 1, |sh.leaves|) && EntryOk(m, sh, level, i, e)
    requires Agree(m, m', Elements(Under(m, sh, level, i, e)))
    ensures EntryOk(m', sh, level, i, e)
    ensures Under(m', sh, level, i, e) == Under(m, sh, level, i, e)
    decreases level, 0
  {
    if level > 1 {
      TreeFrame(m, m', sh, level - 1, Abs(sh.B, e.next), Off(sh.P, i));
    }
  }

  lemma {:induction false} FilledFrame(m: map<nat, PtrBlock>, m': map<nat, PtrBlock>, sh: Shape,
                                       level: nat, addr: nat, start: nat, c: nat)
    requires ShapeOk(sh) && level >= 1 && Filled(m, sh, level, addr, start, c)
    requires addr in m' && |m'[addr].entries| == sh.P && m'[addr].entries[..c] == m[addr].entries[..c]
    requires Agree(m, m', Elements(Below(m, sh, level, addr, start, c)))
    ensures Filled(m', sh, level, addr, start, c)
    ensures Below(m', sh, level, addr, start, c) == Below(m, sh, level, addr, start, c)
    decreases level, 1, c
  {
    hide EntryOk, NodeList, NoDup, Under, PerLevel, Off, MetaOk;
    if c > 0 {
      var i, e := start + (c - 1), m[addr].entries[c - 1];
      assert EntryOk(m, sh, level, i, e);
      assert m'[addr].entries[c - 1] == m'[addr].entries[..c][c - 1] == e;
      assert m'[addr].entries[..c - 1] == m'[addr].entries[..c][..c - 1];
      assert m[addr].entries[..c - 1] == m[addr].entries[..c][..c - 1];
      ElementsSum(Below(m, sh, level, addr, start, c - 1), Under(m, sh, level, i, e));
      EntryFrame(m, m', sh, level, i, e);
      FilledFrame(m, m', sh, level, addr, start, c - 1);
    }
  }

  /** One more entry is in place. */
  lemma FillOne(m: map<nat, PtrBlock>, m': map<nat, PtrBlock>, sh: Shape,
                level: nat, addr: nat, start: nat, c: nat, e: Ptr)
    requires ShapeOk(sh) && level >= 1 && Filled(m, sh, level, addr, start, c) && c < End(sh, level, start) - start
    requires addr in m' && m'[addr].entries == m[addr].entries[c := e]
    requires Agree(m, m', Elements(Below(m, sh, level, addr, start, c)))
    requires EntryOk(m', sh, level, start + c, e)
    ensures Filled(m', sh, level, addr, start, c + 1)
    ensures Below(m', sh, level, addr, start, c + 1)
         == Below(m, sh, level, addr, start, c) + Under(m', sh, level, start + c, e)
  {
    hide EntryOk, Under;
    assert m'[addr].entries[..c] == m[addr].entries[..c];
    FilledFrame(m, m', sh, level, addr, start, c);
  }

  /** What a rewrite below dst did: new blocks only, all of them nodes below dst. */
  ghost predicate Added(m: map<nat, PtrBlock>, used: set<nat>,
                        m': map<nat, PtrBlock>, used': set<nat>, dst: nat, nodes: seq<nat>)
  {
    && used <= used' && m.Keys <= used
    && m'.Keys == m.Keys + (used' - used)
    && (forall a :: a in m && a != dst ==> m'[a] == m[a])
    && NoDup(nodes) && Elements(nodes) == used' - used
  }

  /** Growing below dst by a fresh child and what the child grew. */
  lemma AddedChild(m0: map<nat, PtrBlock>, u0: set<nat>, m: map<nat, PtrBlock>, u: set<nat>,
                   m3: map<nat, PtrBlock>, u3: set<nat>, dst: nat, nodes: seq<nat>,
                   child: nat, e: PtrBlock, z: PtrBlock, more: seq<nat>)
    requires dst in m0 && Added(m0, u0, m, u, dst, nodes) && child !in u
    requires Added(m[child := z][dst := e], u + {child}, m3, u3, child, more)
    ensures m3[dst] == e && Agree(m, m3, Elements(nodes))
    ensures Added(m0, u0, m3, u3, dst, nodes + (more + [child]))
  {
    ElementsSum(more, [child]);
    ElementsSum(nodes, more + [child]);
    assert Elements([child]) == {child};
    assert NoDup([child]);
  }

  /** A rewrite has written the first c entries at dst; everything new lies below them. */
  ghost predicate Progress(m0: map<nat, PtrBlock>, u0: set<nat>, m: map<nat, PtrBlock>, u: set<nat>,
                           sh: Shape, level: nat, dst: nat, start: nat, c: nat)
    requires ShapeOk(sh) && level >= 1
  {
    && dst in m0 && Filled(m, sh, level, dst, start, c)
    && (forall j :: c <= j < sh.P ==> m[dst].entries[j] == NoPtr)
    && Added(m0, u0, m, u, dst, Below(m, sh, level, dst, start, c))
  }

  function WithEntry(b: PtrBlock, j: nat, e: Ptr): PtrBlock
    requires j < |b.entries|
  {
    b.(entries := b.entries[j := e])
  }

  lemma ProgressFacts(m0: map<nat, PtrBlock>, u0: set<nat>, m: map<nat, PtrBlock>, u: set<nat>,
                      sh: Shape, level: nat, dst: nat, start: nat, c: nat)
    requires ShapeOk(sh) && level >= 1 && Progress(m0, u0, m, u, sh, level, dst, start, c)
    ensures dst in m && |m[dst].entries| == sh.P && dst in u && c <= End(sh, level, start) - start <= sh.P
  {
  }

  lemma ProgressStart(m0: map<nat, PtrBlock>, u0: set<nat>, sh: Shape, level: nat, dst: nat, start: nat)
    requires ShapeOk(sh) && level >= 1 && dst in m0 && m0[dst] == ZeroPtrBlock(sh.P) && m0.Keys <= u0
    requires start <= End(sh, level, start)
    ensures Progress(m0, u0, m0, u0, sh, level, dst, start, 0)
  {
  }

  /** Writing the pointer to a data block. */
  lemma ProgressLeaf(m0: map<nat, PtrBlock>, u0: set<nat>, m: map<nat, PtrBlock>, u: set<nat>,
                     sh: Shape, dst: nat, start: nat, c: nat, e: Ptr)
    requires ShapeOk(sh) && c < End(sh, 1, start) - start && Progress(m0, u0, m, u, sh, 1, dst, start, c)
    requires
      && MetaOk(sh, 1, start + c, e.hi, e.disp)
      && e.next == if sh.leaves[start + c].addr == 0 then 0 else Rel(sh.B, sh.leaves[start + c].addr)
    ensures Progress(m0, u0, m[dst := WithEntry(m[dst], c, e)], u, sh, 1, dst, start, c + 1)
  {
    var m' := m[dst := WithEntry(m[dst], c, e)];
    assert EntryOk(m', sh, 1, start + c, e);
    assert Under(m', sh, 1, start + c, e) == [];
    hide EntryOk, Under, NoDup, MetaOk, PerLevel;
    FillOne(m, m', sh, 1, dst, start, c, e);
    var below := Below(m, sh, 1, dst, start, c);
    assert below + [] == below;
  }

  /** Allocating a pointer block, writing the pointer to it and filling it. */
  lemma ProgressNode(m0: map<nat, PtrBlock>, u0: set<nat>, m: map<nat, PtrBlock>, u: set<nat>,
                     m3: map<nat, PtrBlock>, u3: set<nat>,
                     sh: Shape, level: nat, dst: nat, start: nat, c: nat, child: nat, e: Ptr)
    requires ShapeOk(sh) && level >= 2 && c < End(sh, level, start) - start
    requires Progress(m0, u0, m, u, sh, level, dst, start, c)
    requires child > 0 && child % sh.B == 0 && child !in u
    requires MetaOk(sh, level, start + c, e.hi, e.disp) && e.next == Rel(sh.B, child)
    requires
      var lo := Off(sh.P, start + c);
      && IsTree(m3, sh, level - 1, child, lo)
      && Added(m[child := ZeroPtrBlock(sh.P)][dst := WithEntry(m[dst], c, e)], u + {child}, m3, u3, child,
               Below(m3, sh, level - 1, child, lo, End(sh, level - 1, lo) - lo))
    ensures Progress(m0, u0, m3, u3, sh, level, dst, start, c + 1)
  {
    hide NoDup, MetaOk, PerLevel, Elements, Off, FirstNr;
    var i, lo := start + c, Off(sh.P, start + c);
    AbsRel(sh.B, child);
    var more := Below(m3, sh, level - 1, child, lo, End(sh, level - 1, lo) - lo);
    assert EntryOk(m3, sh, level, i, e);
    assert Under(m3, sh, level, i, e) == more + [child];
    hide EntryOk, Under, IsTree;
    AddedChild(m0, u0, m, u, m3, u3, dst, Below(m, sh, level, dst, start, c), child,
               WithEntry(m[dst], c, e), ZeroPtrBlock(sh.P), more);
    FillOne(m, m3, sh, level, dst, start, c, e);
  }

  function Finished(sh: Shape, level: nat, start: nat, b: PtrBlock): PtrBlock
    requires sh.P > 0 && level >= 1
  {
    if sh.variable then b.(back := (End(sh, level, start) - start - 1) * VPTR_SIZE) else b
  }

  /** All entries are written; the variable format also stores where the last one is. */
  lemma ProgressDone(m0: map<nat, PtrBlock>, u0: set<nat>, m: map<nat, PtrBlock>, u: set<nat>, m': map<nat, PtrBlock>,
                     sh: Shape, level: nat, dst: nat, start: nat)
    requires ShapeOk(sh) && level >= 1 && start < End(sh, level, start)
    requires Progress(m0, u0, m, u, sh, level, dst, start, End(sh, level, start) - start)
    requires m' == m[dst := Finished(sh, level, start, m[dst])]
    ensures IsTree(m', sh, level, dst, start)
    ensures Added(m0, u0, m', u, dst, Below(m', sh, level, dst, start, End(sh, level, start) - start))
  {
    hide EntryOk, NoDup, PerLevel, Off, MetaOk, Under;
    FilledFrame(m, m', sh, level, dst, start, End(sh, level, start) - start);
  }
}
