/**
  The partition list of a disk: a doubly linked list of a fixed number of
  nodes, the used ones first and in disk order, with counters for the free
  tracks before the first partition and behind each one.
*/
module Partitions {
  import opened Blocks

  const FIRST_USABLE_TRK := 2

  /** First and last track of a partition. */
  datatype Extent = Extent(start: int, stop: int)

  // ------------------------------------------------------------------
  // The list as a value
  // ------------------------------------------------------------------

  /** Extents in disk order, disjoint, on the tracks from FIRST_USABLE_TRK to last. */
  ghost predicate Ordered(e: seq<Extent>, last: int) {
    && (forall i :: 0 <= i < |e| ==> FIRST_USABLE_TRK <= e[i].start <= e[i].stop <= last)
    && (forall i, j :: 0 <= i < j < |e| ==> e[i].stop < e[j].start)
  }

  /** The first track behind the gap that follows extent i - 1. */
  ghost function GapEnd(e: seq<Extent>, i: nat, last: int): int {
    if i < |e| then e[i].start else last + 1
  }

  /** The first track of the gap before extent i. */
  ghost function GapStart(e: seq<Extent>, i: nat): int
    requires i <= |e|
  {
    if i == 0 then FIRST_USABLE_TRK else e[i - 1].stop + 1
  }

  /** The free tracks right before extent i, or behind the last one. */
  ghost function Gap(e: seq<Extent>, i: nat, last: int): int
    requires i <= |e|
  {
    GapEnd(e, i, last) - GapStart(e, i)
  }

  ghost function Inserted(e: seq<Extent>, k: nat, x: Extent): (f: seq<Extent>)
    requires k <= |e|
    ensures |f| == |e| + 1
  {
    e[..k] + [x] + e[k..]
  }

  ghost function Removed(e: seq<Extent>, k: nat): (f: seq<Extent>)
    requires k < |e|
    ensures |f| == |e| - 1
  {
    e[..k] + e[k + 1..]
  }

  /** The extent lies in the gap before extent k. */
  ghost predicate InGap(e: seq<Extent>, k: nat, x: Extent, last: int) {
    k <= |e| && GapStart(e, k) <= x.start <= x.stop < GapEnd(e, k, last)
  }

  lemma InsertOrdered(e: seq<Extent>, k: nat, x: Extent, last: int)
    requires Ordered(e, last) && InGap(e, k, x, last)
    ensures Ordered(Inserted(e, k, x), last)
  {
    var f := Inserted(e, k, x);
    forall i | 0 <= i < |f| ensures f[i] == if i < k then e[i] else if i == k then x else e[i - 1] {
    }
  }

  lemma RemoveOrdered(e: seq<Extent>, k: nat, last: int)
    requires Ordered(e, last) && k < |e|
    ensures Ordered(Removed(e, k), last)
  {
    var f := Removed(e, k);
    forall i | 0 <= i < |f| ensures f[i] == if i < k then e[i] else e[i + 1] {
    }
  }

  // ------------------------------------------------------------------
  // The partition table
  // ------------------------------------------------------------------

  /** What a node says about its partition. */
  datatype Slot = Slot(used: bool, start: int, stop: int, len: int, fspace: int)

  const UNUSED := Slot(false, 0, 0, 0, 0)

  ghost function Carrying(x: Extent, fspace: int): Slot {
    Slot(true, x.start, x.stop, x.stop - x.start + 1, fspace)
  }

  ghost function ExtentsOf(s: seq<Slot>, n: nat): (e: seq<Extent>)
    requires n <= |s|
    ensures |e| == n && forall i :: 0 <= i < n ==> e[i] == Extent(s[i].start, s[i].stop)
  {
    if n == 0 then [] else ExtentsOf(s, n - 1) + [Extent(s[n - 1].start, s[n - 1].stop)]
  }

  /** The slots hold the partitions e with their gaps, and behind them only unused ones up to place n. */
  ghost predicate Table(s: seq<Slot>, e: seq<Extent>, n: nat, fspace: int, last: int) {
    && |e| <= n <= |s| && Ordered(e, last) && fspace == Gap(e, 0, last)
    && (forall i :: 0 <= i < |e| ==> s[i] == Carrying(e[i], Gap(e, i + 1, last)))
    && (forall i :: |e| <= i < n ==> s[i] == UNUSED)
  }

  /** The same with the extent x put in at place k, the counters not yet brought up to date. */
  ghost predicate TableWith(s: seq<Slot>, e: seq<Extent>, k: nat, x: Extent, fspace: int, last: int) {
    && k <= |e| < |s| && Ordered(e, last) && InGap(e, k, x, last) && fspace == Gap(e, 0, last)
    && (forall i :: 0 <= i < k ==> s[i] == Carrying(e[i], Gap(e, i + 1, last)))
    && s[k] == Carrying(x, s[k].fspace)
    && (forall i :: k < i <= |e| ==> s[i] == Carrying(e[i - 1], Gap(e, i, last)))
    && (forall i :: |e| < i < |s| ==> s[i] == UNUSED)
  }

  lemma TableSize(s: seq<Slot>, e: seq<Extent>, n: nat, fspace: int, last: int)
    requires Table(s, e, n, fspace, last)
    ensures |e| <= n <= |s|
  {
  }

  /** A slot before the place is used and starts earlier; the slot at the place is unused or starts later. */
  lemma PlaceStep(s: seq<Slot>, e: seq<Extent>, x: Extent, place: nat, k: nat, fspace: int, last: int)
    requires |e| < |s| && Table(s, e, |s| - 1, fspace, last) && InGap(e, place, x, last) && k <= place && k < |s| - 1
    ensures s[k].stop == 0 || x.start < s[k].start <==> k == place
  {
  }

  lemma UsedSlot(s: seq<Slot>, e: seq<Extent>, i: nat, fspace: int, last: int)
    requires Table(s, e, |s|, fspace, last) && i < |s|
    ensures s[i].used <==> i < |e|
  {
  }

  lemma Vacant(s: seq<Slot>, e: seq<Extent>, fspace: int, last: int)
    requires |e| < |s| && Table(s, e, |s|, fspace, last)
    ensures s[|s| - 1] == UNUSED
  {
  }

  lemma FilledTable(s: seq<Slot>, e: seq<Extent>, x: Extent, fspace: int, last: int)
    requires |e| < |s| && Table(s, e, |s|, fspace, last)
    ensures Table(s[|s| - 1 := Slot(false, x.start, x.stop, x.stop - x.start + 1, 0)], e, |s| - 1, fspace, last)
  {
  }

  lemma TableExtents(s: seq<Slot>, e: seq<Extent>, fspace: int, last: int)
    requires Table(s, e, |s|, fspace, last)
    ensures |e| <= |s| && ExtentsOf(s, |e|) == e
  {
    assert ExtentsOf(s, |e|) == e;
  }

  lemma EmptyTable(s: seq<Slot>, last: int)
    requires last >= FIRST_USABLE_TRK && forall i :: 0 <= i < |s| ==> s[i] == UNUSED
    ensures Table(s, [], |s|, last + 1 - FIRST_USABLE_TRK, last)
  {
  }

  /** What the update of the counters looks at. */
  lemma TableWithFacts(s: seq<Slot>, e: seq<Extent>, k: nat, x: Extent, fspace: int, last: int)
    requires TableWith(s, e, k, x, fspace, last)
    ensures s[k].start == x.start && s[k].len == x.stop - x.start + 1
    ensures k == 0 ==> fspace == GapEnd(e, k, last) - GapStart(e, k)
    ensures k > 0 ==> s[k - 1].stop == e[k - 1].stop && s[k - 1].fspace == GapEnd(e, k, last) - GapStart(e, k)
  {
  }

  ghost function Counted(s: seq<Slot>, k: nat, before: int, after: int): seq<Slot>
    requires k < |s|
  {
    var t := s[k := s[k].(fspace := after)];
    if k == 0 then t else t[k - 1 := t[k - 1].(fspace := before)]
  }

  lemma CountedAt(s: seq<Slot>, k: nat, before: int, after: int)
    requires k < |s|
    ensures |Counted(s, k, before, after)| == |s|
    ensures forall i :: 0 <= i < |s| ==>
      Counted(s, k, before, after)[i] == if i == k then s[i].(fspace := after) else if i == k - 1 then s[i].(fspace := before) else s[i]
  {
  }

  lemma CountersDone(s: seq<Slot>, e: seq<Extent>, k: nat, x: Extent, fspace: int, last: int, before: int, after: int)
    requires TableWith(s, e, k, x, fspace, last)
    requires before == x.start - GapStart(e, k) && after == GapEnd(e, k, last) - x.stop - 1
    ensures Table(Counted(s, k, before, after), Inserted(e, k, x), |s|, if k == 0 then before else fspace, last)
  {
    hide Ordered;
    var f, t := Inserted(e, k, x), Counted(s, k, before, after);
    InsertOrdered(e, k, x, last);
    forall i | 0 <= i < |f| ensures t[i] == Carrying(f[i], Gap(f, i + 1, last)) {
      assert f[i] == if i < k then e[i] else if i == k then x else e[i - 1];
    }
  }

  /** Tracks that the first n slots account for, used and free. */
  ghost function Accounted(s: seq<Slot>, n: nat): int
    requires n <= |s|
  {
    if n == 0 then 0 else Accounted(s, n - 1) + s[n - 1].len + s[n - 1].fspace
  }

  lemma {:induction false} AccountedTo(s: seq<Slot>, e: seq<Extent>, n: nat, fspace: int, last: int)
    requires Table(s, e, |s|, fspace, last) && n <= |s|
    ensures fspace + Accounted(s, n) == GapEnd(e, n, last) - FIRST_USABLE_TRK
  {
    hide Ordered;
    if n > 0 {
      AccountedTo(s, e, n - 1, fspace, last);
    }
  }

  /** Free and used tracks of a table always add up to the whole disk. */
  lemma Conservation(s: seq<Slot>, e: seq<Extent>, fspace: int, last: int)
    requires Table(s, e, |s|, fspace, last)
    ensures fspace + Accounted(s, |s|) == last + 1 - FIRST_USABLE_TRK
  {
    AccountedTo(s, e, |s|, fspace, last);
  }

  /** The new slot at the end, moved to its place and marked as used. */
  lemma PutIn(s: seq<Slot>, e: seq<Extent>, k: nat, x: Extent, fspace: int, last: int)
    requires |e| < |s| && Table(s, e, |s| - 1, fspace, last) && InGap(e, k, x, last)
    requires s[|s| - 1] == Slot(false, x.start, x.stop, x.stop - x.start + 1, 0)
    ensures
      var t := MovedUp(s, k);
      TableWith(t[k := t[k].(used := true)], e, k, x, fspace, last)
  {
    hide Ordered, MovedUp, GapStart, GapEnd, Gap;
    UpAt(s, k);
    var t := MovedUp(s, k);
    var u := t[k := t[k].(used := true)];
    forall i | 0 <= i < |s| ensures u[i] == if i == k then t[k].(used := true) else s[UpIndex(|s|, k, i)] {
    }
    assert t[k] == s[UpIndex(|s|, k, k)];
  }

  /** The tracks of slot k and the free ones behind it given to the gap before it. */
  ghost function Joined(s: seq<Slot>, k: nat): seq<Slot>
    requires k < |s|
  {
    if k == 0 then s else s[k - 1 := s[k - 1].(fspace := s[k - 1].fspace + s[k].len + s[k].fspace)]
  }

  /** After that, slot k moved to the end and cleared. */
  ghost function TakenSlots(s: seq<Slot>, k: nat): (t: seq<Slot>)
    requires k < |s|
    ensures |t| == |s|
  {
    MovedDown(Joined(s, k), k)[|s| - 1 := UNUSED]
  }

  lemma TakenSlot(s: seq<Slot>, e: seq<Extent>, k: nat, i: nat, fspace: int, last: int)
    requires k < |e| && Table(s, e, |s|, fspace, last) && i < |s|
    ensures |Removed(e, k)| == |e| - 1
    ensures i < |e| - 1 ==> TakenSlots(s, k)[i] == Carrying(Removed(e, k)[i], Gap(Removed(e, k), i + 1, last))
    ensures i >= |e| - 1 ==> TakenSlots(s, k)[i] == UNUSED
  {
    hide Ordered, Removed, Gap, MovedDown;
    DownAt(Joined(s, k), k);
    RemovedGap(e, k, 0, last);
    var j := DownIndex(|s|, k, i);
    assert TakenSlots(s, k)[i] == if i == |s| - 1 then UNUSED else Joined(s, k)[j];
    assert Joined(s, k)[j] == if j == k - 1 then s[j].(fspace := s[j].fspace + s[k].len + s[k].fspace) else s[j];
    if i < |e| - 1 {
      RemovedGap(e, k, i, last);
      RemovedGap(e, k, i + 1, last);
    }
  }

  lemma TakenOut(s: seq<Slot>, e: seq<Extent>, k: nat, fspace: int, last: int)
    requires k < |e| && Table(s, e, |s|, fspace, last)
    ensures Table(TakenSlots(s, k), Removed(e, k), |s|, if k == 0 then fspace + s[k].len + s[k].fspace else fspace, last)
  {
    hide Ordered, Removed, Gap, TakenSlots;
    var t, f := TakenSlots(s, k), Removed(e, k);
    RemoveOrdered(e, k, last);
    RemovedGap(e, k, 0, last);
    forall i | 0 <= i < |s|
      ensures i < |f| ==> t[i] == Carrying(f[i], Gap(f, i + 1, last))
      ensures i >= |f| ==> t[i] == UNUSED
    {
      TakenSlot(s, e, k, i, fspace, last);
    }
  }

  lemma RemovedGap(e: seq<Extent>, k: nat, i: nat, last: int)
    requires k < |e| && i < |e|
    ensures |Removed(e, k)| == |e| - 1 && (i < |e| - 1 ==> Removed(e, k)[i] == e[if i < k then i else i + 1])
    ensures Gap(Removed(e, k), i, last)
         == if i < k then Gap(e, i, last)
            else if i == k then Gap(e, k, last) + (e[k].stop - e[k].start + 1) + Gap(e, k + 1, last)
            else Gap(e, i + 1, last)
  {
  }

  // ------------------------------------------------------------------
  // Configuration files
  // ------------------------------------------------------------------

  /** What the parser of the file leaves: an entry has both limits or none. */
  ghost predicate Parsed(conf: seq<Extent>) {
    forall i :: 0 <= i < |conf| ==> conf[i].start >= 0 && conf[i].stop >= 0 && (conf[i].start == 0 <==> conf[i].stop == 0)
  }

  /** Number of entries before the first missing one, from entry i on. */
  ghost function Entries(conf: seq<Extent>, i: nat): (n: nat)
    requires i <= |conf|
    ensures i <= n <= |conf| && (n < |conf| ==> conf[n].start == 0 || conf[n].stop == 0)
    ensures forall j :: i <= j < n ==> conf[j].start != 0 && conf[j].stop != 0
    decreases |conf| - i
  {
    if i == |conf| || conf[i].start == 0 || conf[i].stop == 0 then i else Entries(conf, i + 1)
  }

  /** The checks on one entry. */
  ghost predicate EntryOk(conf: seq<Extent>, i: nat, last: int)
    requires i < |conf|
  {
    && FIRST_USABLE_TRK <= conf[i].start < conf[i].stop <= last
    && (i > 0 ==> conf[i].start > conf[i - 1].stop)
    && (i + 1 < |conf| && conf[i + 1].start > 0 ==> conf[i].stop < conf[i + 1].start)
  }

  ghost function ConfSlot(conf: seq<Extent>, i: nat, last: int): Slot
    requires i < |conf|
  {
    Carrying(conf[i], if i + 1 < |conf| && conf[i + 1].start != 0 then conf[i + 1].start - conf[i].stop - 1 else last - conf[i].stop)
  }

  ghost function ConfSlots(conf: seq<Extent>, n: nat, last: int): (s: seq<Slot>)
    ensures |s| == |conf| && forall i :: 0 <= i < |conf| ==> s[i] == if i < n then ConfSlot(conf, i, last) else UNUSED
  {
    seq(|conf|, i requires 0 <= i < |conf| => if i < n then ConfSlot(conf, i, last) else UNUSED)
  }

  lemma ConfStep(conf: seq<Extent>, i: nat, last: int)
    requires i < |conf|
    ensures ConfSlots(conf, i, last)[i := ConfSlot(conf, i, last)] == ConfSlots(conf, i + 1, last)
  {
  }

  lemma EmptyConf(s: seq<Slot>, conf: seq<Extent>, fspace: int, last: int)
    requires |conf| == |s| && Table(s, [], |s|, fspace, last)
    ensures s == ConfSlots(conf, 0, last) && fspace == last + 1 - FIRST_USABLE_TRK
  {
    assert s == ConfSlots(conf, 0, last);
  }

  /** An entry that fails a check is not one of partitions in disk order. */
  lemma Refused(conf: seq<Extent>, i: nat, last: int)
    requires Parsed(conf) && i < Entries(conf, 0) && !EntryOk(conf, i, last)
    ensures
      var e := conf[..Entries(conf, 0)];
      !(Ordered(e, last) && forall j :: 0 <= j < |e| ==> e[j].start < e[j].stop)
  {
    var e := conf[..Entries(conf, 0)];
    assert e[i] == conf[i] && (i > 0 ==> e[i - 1] == conf[i - 1]);
    assert i + 1 < |e| ==> e[i + 1] == conf[i + 1];
  }

  /** Neighbours in order are all in order. */
  lemma {:induction false} Neighbours(conf: seq<Extent>, n: nat, i: nat, j: nat, last: int)
    requires i < j < n <= |conf| && forall k :: 0 <= k < n ==> EntryOk(conf, k, last)
    ensures conf[i].stop < conf[j].start
  {
    assert EntryOk(conf, j, last);
    if i < j - 1 {
      Neighbours(conf, n, i, j - 1, last);
      assert EntryOk(conf, j - 1, last);
    }
  }

  lemma AcceptedConf(conf: seq<Extent>, n: nat, fspace: int, last: int)
    requires n == Entries(conf, 0) && Parsed(conf) && forall i :: 0 <= i < n ==> EntryOk(conf, i, last)
    requires fspace == if n == 0 then last + 1 - FIRST_USABLE_TRK else conf[0].start - FIRST_USABLE_TRK
    ensures Ordered(conf[..n], last) && Table(ConfSlots(conf, n, last), conf[..n], |conf|, fspace, last)
    ensures forall i :: 0 <= i < n ==> conf[..n][i].start < conf[..n][i].stop
  {
    var e := conf[..n];
    forall i | 0 <= i < n ensures FIRST_USABLE_TRK <= e[i].start < e[i].stop <= last {
      assert EntryOk(conf, i, last);
    }
    forall i, j | 0 <= i < j < n ensures e[i].stop < e[j].start {
      Neighbours(conf, n, i, j, last);
    }
  }

  // ------------------------------------------------------------------
  // The linked list
  // ------------------------------------------------------------------

  class Part {
    var used: bool
    var start: int
    var stop: int
    var len: int
    var fspace: int
    var next: Part?
    var prev: Part?

    constructor ()
      ensures !used && start == 0 && stop == 0 && len == 0 && fspace == 0 && next == null && prev == null
    {
      used, start, stop, len, fspace, next, prev := false, 0, 0, 0, 0, null, null;
    }
  }

  class Anchor {
    /** Number of nodes, and last track of the disk. */
    const usable: nat
    const lastTrk: int
    var first: Part
    var last: Part
    /** Free tracks before the first partition. */
    var fspace: int
    var usedPartitions: nat
    /** All nodes, in list order. */
    ghost var nodes: seq<Part>

    /** A list of unused nodes for an empty disk. */
    constructor (usable: nat, lastTrk: int)
      requires usable >= 2 && lastTrk >= FIRST_USABLE_TRK
      ensures Valid() && Extents() == [] && |nodes| == usable && this.lastTrk == lastTrk && fresh(nodes)
    {
      this.usable, this.lastTrk := usable, lastTrk;
      var part := new Part();
      first, last, nodes := part, part, [part];
      fspace, usedPartitions := lastTrk + 1 - FIRST_USABLE_TRK, 0;
      new;
      hide Table, SlotsOf, ExtentsOf, At;
      var i := 1;
      while i < usable
        invariant 1 <= i <= usable && |nodes| == i && fresh(nodes) && last == nodes[i - 1] && first == nodes[0]
        invariant Chain(nodes) && (forall k :: 0 <= k < i ==> SlotOf(nodes[k]) == UNUSED)
        invariant fspace == lastTrk + 1 - FIRST_USABLE_TRK && usedPartitions == 0
      {
        AddNode();
        i := i + 1;
      }
      EmptyTable(SlotsOf(nodes), lastTrk);
    }

    /** Links a new node in at the end. */
    method AddNode()
      requires |nodes| > 0 && last == nodes[|nodes| - 1] && Chain(nodes) && forall k :: 0 <= k < |nodes| ==> SlotOf(nodes[k]) == UNUSED
      modifies this`last, this`nodes, last`next
      ensures Chain(nodes) && fresh(last) && nodes == old(nodes) + [last] && forall k :: 0 <= k < |nodes| ==> SlotOf(nodes[k]) == UNUSED
    {
      var part := new Part();
      ghost var n := |nodes|;
      last.next := part;
      part.prev := last;
      last := part;
      forall k | 0 <= k < n ensures nodes[k].next == if k < n - 1 then At(nodes, k + 1) else part {
      }
      ChainAppend(nodes, part);
      nodes := nodes + [part];
    }

    /** Neighbours point at each other, and the anchor at both ends. */
    ghost predicate Linked()
      reads this, nodes
    {
      |nodes| == usable >= 2 && first == nodes[0] && last == nodes[|nodes| - 1] && Chain(nodes)
    }

    /** The partitions in list order. */
    ghost function Extents(): seq<Extent>
      reads this, nodes
    {
      ExtentsOf(SlotsOf(nodes), Min(usedPartitions, |nodes|))
    }

    ghost predicate Valid()
      reads this, nodes
    {
      Linked() && usedPartitions <= usable && Table(SlotsOf(nodes), Extents(), |nodes|, fspace, lastTrk)
    }

    /** Takes the last node out of the list and links it in before the node at place k. */
    method RelinkUp(ghost k: nat, partTmp: Part)
      requires Linked() && k < |nodes| - 1 && partTmp == nodes[k]
      modifies this`first, this`last, nodes`next, nodes`prev
      ensures first == (if k == 0 then old(last) else old(first)) && last == nodes[|nodes| - 2]
      ensures forall i {:trigger nodes[i].prev} :: 0 <= i < |nodes| ==> nodes[i].prev == PrevUp(nodes, k, i)
      ensures forall i {:trigger nodes[i].next} :: 0 <= i < |nodes| ==> nodes[i].next == NextUp(nodes, k, i)
    {
      ghost var n := |nodes|;
      assert nodes[n - 1].prev == nodes[n - 2] && nodes[k].prev == At(nodes, k - 1);
      var part := last;
      if first == partTmp {
        first := part;
      }
      last.prev.next := null;
      last := last.prev;
      part.next := partTmp;
      part.prev := partTmp.prev;
      partTmp.prev := part;
      if part.prev != null {
        part.prev.next := part;
      }
    }

    method MoveUp(ghost k: nat, partTmp: Part)
      requires Linked() && k < |nodes| - 1 && partTmp == nodes[k]
      modifies this`first, this`last, this`nodes, nodes`next, nodes`prev
      ensures Linked() && nodes == MovedUp(old(nodes), k)
    {
      ghost var s := nodes;
      LinkFacts(0);
      RelinkUp(k, partTmp);
      assert nodes == s;
      UpChain(s, k);
      hide Chain;
      nodes := MovedUp(s, k);
    }

    /** Takes the node at place k out of the list and links it in at the end. */
    method RelinkDown(ghost k: nat, part: Part)
      requires Linked() && k < |nodes| && part == nodes[k]
      modifies this`first, this`last, nodes`next, nodes`prev
      ensures first == (if k == 0 then nodes[1] else old(first)) && last == part
      ensures forall i {:trigger nodes[i].prev} :: 0 <= i < |nodes| ==> nodes[i].prev == PrevDown(nodes, k, i)
      ensures forall i {:trigger nodes[i].next} :: 0 <= i < |nodes| ==> nodes[i].next == NextDown(nodes, k, i)
    {
      assert nodes[k].prev == At(nodes, k - 1) && nodes[k].next == At(nodes, k + 1);
      if part != first && part != last {
        part.prev.next := part.next;
        part.next.prev := part.prev;
      }
      if part == first {
        first := part.next;
        part.next.prev := null;
      }
      if part != last {
        part.prev := last;
        part.next := null;
        last.next := part;
        last := part;
      }
    }

    method MoveDown(ghost k: nat, part: Part)
      requires Linked() && k < |nodes| && part == nodes[k]
      modifies this`first, this`last, this`nodes, nodes`next, nodes`prev
      ensures Linked() && nodes == MovedDown(old(nodes), k) && last == part
    {
      ghost var s := nodes;
      LinkFacts(0);
      RelinkDown(k, part);
      assert nodes == s;
      DownChain(s, k);
      hide Chain;
      nodes := MovedDown(s, k);
    }

    // ----------------------------------------------------------------
    // Inserting
    // ----------------------------------------------------------------

    /** The place where the last node belongs: before the first node that is unused or starts behind it. */
    method FindPlace(ghost e: seq<Extent>, ghost x: Extent, ghost place: nat) returns (partTmp: Part, k: nat)
      requires Linked() && |e| < |nodes| && Table(SlotsOf(nodes), e, |nodes| - 1, fspace, lastTrk)
      requires InGap(e, place, x, lastTrk) && last.start == x.start
      ensures k == place && partTmp == nodes[k]
    {
      hide Table, Chain, SlotsOf;
      partTmp, k := first, 0;
      var i := 1;
      while i < usable
        invariant 1 <= i <= usable && k == i - 1 <= place && partTmp == nodes[k]
      {
        assert SlotsOf(nodes)[k] == SlotOf(nodes[k]);
        PlaceStep(SlotsOf(nodes), e, x, place, k, fspace, lastTrk);
        if partTmp.stop == 0 || last.start < partTmp.start {
          break;
        }
        LinkFacts(k);
        partTmp, k := partTmp.next, k + 1;
        i := i + 1;
      }
      TableSize(SlotsOf(nodes), e, |nodes| - 1, fspace, lastTrk);
    }

    lemma LinkFacts(k: nat)
      requires Linked() && k < |nodes|
      ensures nodes[k].prev == At(nodes, k - 1) && nodes[k].next == At(nodes, k + 1) && Distinct(nodes)
      ensures (first == nodes[k] <==> k == 0) && (last == nodes[k] <==> k == |nodes| - 1)
    {
    }

    /** Splits the gap that a new node was put in: what is before it, and what is left behind it. */
    method SplitGap(ghost k: nat, part: Part)
      requires Linked() && k < |nodes| && part == nodes[k]
      modifies this`fspace, nodes`fspace
      ensures Linked()
      ensures fspace == if k == 0 then part.start - FIRST_USABLE_TRK else old(fspace)
      ensures
        var gap := if k == 0 then old(fspace) else old(nodes[k - 1].fspace);
        var before := if k == 0 then part.start - FIRST_USABLE_TRK else part.start - nodes[k - 1].stop - 1;
        && SlotOf(nodes[k]) == old(SlotOf(nodes[k])).(fspace := gap - part.len - before)
        && (k > 0 ==> SlotOf(nodes[k - 1]) == old(SlotOf(nodes[k - 1])).(fspace := before))
      ensures forall i :: 0 <= i < |nodes| && i != k && i != k - 1 ==> SlotOf(nodes[i]) == old(SlotOf(nodes[i]))
    {
      LinkFacts(k);
      if first == part {
        if part.start == FIRST_USABLE_TRK {
          part.fspace := fspace - part.len;
          fspace := 0;
        } else {
          part.fspace := fspace - part.len - part.start + FIRST_USABLE_TRK;
          fspace := part.start - FIRST_USABLE_TRK;
        }
      } else {
        if part.start == part.prev.stop + 1 {
          part.fspace := part.prev.fspace - part.len;
          part.prev.fspace := 0;
        } else {
          part.fspace := part.prev.fspace - part.len - part.start + part.prev.stop + 1;
          part.prev.fspace := part.start - part.prev.stop - 1;
        }
      }
    }

    /** Brings the counters before and behind the node that was linked in at place k up to date. */
    method UpdateCounters(ghost e: seq<Extent>, ghost k: nat, ghost x: Extent, part: Part)
      requires Linked() && k <= |e| < |nodes| && TableWith(SlotsOf(nodes), e, k, x, fspace, lastTrk) && part == nodes[k]
      modifies this`fspace, nodes`fspace
      ensures Linked() && Table(SlotsOf(nodes), Inserted(e, k, x), |nodes|, fspace, lastTrk)
    {
      hide TableWith, Table, Ordered, SlotsOf, Counted, Inserted, Gap, Linked;
      ghost var s := SlotsOf(nodes);
      ghost var before, after := x.start - GapStart(e, k), GapEnd(e, k, lastTrk) - x.stop - 1;
      TableWithFacts(s, e, k, x, fspace, lastTrk);
      CountersDone(s, e, k, x, fspace, lastTrk, before, after);
      CountedAt(s, k, before, after);
      SplitGap(k, part);
      assert SlotsOf(nodes) == Counted(s, k, before, after);
    }

    /** Links the last node in at place k, unless it stands there already, and marks it as used. */
    method LinkIn(ghost k: nat, partTmp: Part)
      requires Linked() && k < |nodes| && partTmp == nodes[k]
      modifies this`first, this`last, this`nodes, nodes`next, nodes`prev, nodes`used
      ensures Linked() && nodes == MovedUp(old(nodes), k) && nodes[k] == old(last)
      ensures
        var s := old(SlotsOf(nodes));
        SlotsOf(nodes) == MovedUp(s, k)[k := s[|s| - 1].(used := true)]
    {
      hide SlotsOf, Chain, MovedUp;
      var part := last;
      ghost var s, was := SlotsOf(nodes), nodes;
      LinkFacts(k);
      if part != partTmp {
        MoveUp(k, partTmp);
      }
      UpAt(was, k);
      assert nodes == MovedUp(was, k) && nodes[k] == part;
      SlotsUp(was, k);
      assert SlotsOf(was) == s;
      MarkUsed(k, part);
      assert MovedUp(s, k)[k := s[|s| - 1].(used := true)] == SlotsOf(nodes);
    }

    method MarkUsed(ghost k: nat, part: Part)
      requires Linked() && k < |nodes| && part == nodes[k]
      modifies part`used
      ensures Linked() && SlotsOf(nodes) == old(SlotsOf(nodes))[k := old(SlotOf(part)).(used := true)]
    {
      hide SlotsOf, At;
      LinkFacts(k);
      ghost var s := SlotsOf(nodes);
      part.used := true;
      assert SlotsOf(nodes) == s[k := old(SlotOf(part)).(used := true)];
    }

    /** Puts the last node, which has been filled in for the extent x, in its place among the used ones. */
    method EnqueueNewPartition(ghost e: seq<Extent>, ghost x: Extent, ghost place: nat)
      requires Linked() && |e| < |nodes| && Table(SlotsOf(nodes), e, |nodes| - 1, fspace, lastTrk)
      requires InGap(e, place, x, lastTrk) && SlotOf(last) == Slot(false, x.start, x.stop, x.stop - x.start + 1, 0)
      modifies this`first, this`last, this`nodes, this`fspace, nodes
      ensures Linked() && nodes == MovedUp(old(nodes), place)
      ensures Table(SlotsOf(nodes), Inserted(e, place, x), |nodes|, fspace, lastTrk)
    {
      hide Table, TableWith, Ordered, SlotsOf, Chain;
      ghost var s := SlotsOf(nodes);
      assert s[|nodes| - 1] == SlotOf(last);
      PutIn(s, e, place, x, fspace, lastTrk);
      var part := last;
      var partTmp, k := FindPlace(e, x, place);
      LinkIn(k, partTmp);
      UpdateCounters(e, k, x, part);
    }

    // ----------------------------------------------------------------
    // Removing
    // ----------------------------------------------------------------

    /** Gives the tracks of a partition, and the free ones behind it, to the gap before it. */
    method JoinGap(ghost k: nat, part: Part)
      requires Linked() && k < |nodes| && part == nodes[k]
      modifies this`fspace, nodes`fspace
      ensures Linked()
      ensures fspace == if k == 0 then old(fspace + part.len + part.fspace) else old(fspace)
      ensures SlotsOf(nodes) == Joined(old(SlotsOf(nodes)), k)
    {
      LinkFacts(k);
      if part == first {
        fspace := fspace + (part.len + part.fspace);
      } else {
        part.prev.fspace := part.prev.fspace + (part.len + part.fspace);
      }
      ghost var s := old(SlotsOf(nodes));
      assert s[k] == old(SlotOf(nodes[k])) && (k > 0 ==> s[k - 1] == old(SlotOf(nodes[k - 1])));
      assert SlotsOf(nodes) == Joined(s, k);
    }

    /** Clears a node that stands at the end. */
    method ClearLast(part: Part)
      requires Linked() && part == last
      modifies part
      ensures Linked() && SlotsOf(nodes) == old(SlotsOf(nodes))[|nodes| - 1 := UNUSED]
    {
      hide SlotsOf, At;
      LinkFacts(|nodes| - 1);
      part.used, part.len, part.start, part.stop, part.fspace := false, 0, 0, 0, 0;
      ghost var s := old(SlotsOf(nodes));
      assert SlotsOf(nodes) == s[|nodes| - 1 := UNUSED];
    }

    /** Takes the partition at place k out: its node becomes the last one, cleared for further use. */
    method DequeueOldPartition(ghost e: seq<Extent>, ghost k: nat, part: Part)
      requires Linked() && k < |e| && Table(SlotsOf(nodes), e, |nodes|, fspace, lastTrk) && part == nodes[k]
      modifies this`first, this`last, this`nodes, this`fspace, nodes
      ensures Linked() && nodes == MovedDown(old(nodes), k)
      ensures Table(SlotsOf(nodes), Removed(e, k), |nodes|, fspace, lastTrk)
    {
      hide Table, Ordered, SlotsOf, Chain, Joined, MovedDown;
      ghost var s, f := SlotsOf(nodes), fspace;
      TableSize(s, e, |nodes|, fspace, lastTrk);
      TakenOut(s, e, k, fspace, lastTrk);
      assert s[k] == SlotOf(nodes[k]);
      JoinGap(k, part);
      assert fspace == if k == 0 then f + s[k].len + s[k].fspace else f;
      ghost var was, j := nodes, SlotsOf(nodes);
      MoveDown(k, part);
      SlotsDown(was, k);
      assert SlotsOf(was) == j;
      ClearLast(part);
      assert SlotsOf(nodes) == TakenSlots(s, k);
    }

    // ----------------------------------------------------------------
    // The operations of the partition editor
    // ----------------------------------------------------------------

    lemma Holds()
      requires Valid()
      ensures Linked() && |Extents()| == usedPartitions <= usable
      ensures Table(SlotsOf(nodes), Extents(), |nodes|, fspace, lastTrk)
    {
    }

    lemma Settled(e: seq<Extent>)
      requires Linked() && Table(SlotsOf(nodes), e, |nodes|, fspace, lastTrk) && usedPartitions == |e|
      ensures Valid() && Extents() == e
    {
      hide Chain;
      TableExtents(SlotsOf(nodes), e, fspace, lastTrk);
    }

    /** Adds a partition; the caller has chosen tracks inside the gap before partition place. */
    method AddPartition(start: int, stop: int, ghost place: nat) returns (ok: bool)
      requires Valid() && InGap(Extents(), place, Extent(start, stop), lastTrk)
      modifies this, nodes
      ensures Valid() && ok == (old(usedPartitions) < usable)
      ensures Extents() == if ok then Inserted(old(Extents()), place, Extent(start, stop)) else old(Extents())
      ensures if ok then place < usable == |old(nodes)| && nodes == MovedUp(old(nodes), place) else nodes == old(nodes)
    {
      hide Chain, SlotsOf, Table, Ordered, Inserted, MovedUp, Extents, Valid, GapStart, GapEnd, UpIndex;
      Holds();
      if usedPartitions >= usable {
        return false;
      }
      ghost var e := Extents();
      EnterPartition(e, start, stop, place);
      usedPartitions := usedPartitions + 1;
      Settled(Inserted(e, place, Extent(start, stop)));
      return true;
    }

    method EnterPartition(ghost e: seq<Extent>, start: int, stop: int, ghost place: nat)
      requires Linked() && |e| < |nodes| && Table(SlotsOf(nodes), e, |nodes|, fspace, lastTrk)
      requires InGap(e, place, Extent(start, stop), lastTrk)
      modifies this`first, this`last, this`nodes, this`fspace, nodes
      ensures Linked() && place < |old(nodes)| && nodes == MovedUp(old(nodes), place)
      ensures Table(SlotsOf(nodes), Inserted(e, place, Extent(start, stop)), |nodes|, fspace, lastTrk)
    {
      hide Chain, SlotsOf, Table, Ordered;
      ghost var s := SlotsOf(nodes);
      var part := last;
      assert s[|nodes| - 1] == SlotOf(last);
      Vacant(s, e, fspace, lastTrk);
      FillLast(part, start, stop);
      FilledTable(s, e, Extent(start, stop), fspace, lastTrk);
      EnqueueNewPartition(e, Extent(start, stop), place);
    }

    method FillLast(part: Part, start: int, stop: int)
      requires Linked() && part == last && SlotOf(part) == UNUSED
      modifies part`len, part`start, part`stop
      ensures Linked() && SlotOf(last) == Slot(false, start, stop, stop - start + 1, 0)
      ensures SlotsOf(nodes) == old(SlotsOf(nodes))[|nodes| - 1 := Slot(false, start, stop, stop - start + 1, 0)]
    {
      hide SlotsOf, At;
      LinkFacts(|nodes| - 1);
      part.len, part.start, part.stop := stop - start + 1, start, stop;
      ghost var s := old(SlotsOf(nodes));
      assert SlotsOf(nodes) == s[|nodes| - 1 := Slot(false, start, stop, stop - start + 1, 0)];
    }

    /** Node number partId of the list, counted from 1. */
    method FindNode(partId: nat) returns (part: Part)
      requires Linked() && 1 <= partId <= |nodes|
      ensures part == nodes[partId - 1]
    {
      hide Chain;
      part := first;
      var i := 1;
      while i < partId
        invariant 1 <= i <= partId && part == nodes[i - 1]
      {
        LinkFacts(i - 1);
        part := part.next;
        i := i + 1;
      }
    }

    /** Removes a partition by its number. */
    method RemovePartition(partId: nat) returns (ok: bool)
      requires Valid()
      modifies this, nodes
      ensures Valid() && ok == (1 <= partId <= old(usedPartitions))
      ensures Extents() == if ok then Removed(old(Extents()), partId - 1) else old(Extents())
      ensures if ok then partId <= |old(nodes)| && nodes == MovedDown(old(nodes), partId - 1) else nodes == old(nodes)
    {
      hide Chain, SlotsOf, Table, Removed, MovedDown, Extents, Valid;
      Holds();
      ghost var e := Extents();
      if partId == 0 || partId > usedPartitions {
        return false;
      }
      var part := FindNode(partId);
      DequeueOldPartition(e, partId - 1, part);
      usedPartitions := usedPartitions - 1;
      Settled(Removed(e, partId - 1));
      return true;
    }

    // ----------------------------------------------------------------
    // The configuration file
    // ----------------------------------------------------------------

    /** Fills the node at place k with the values of a slot. */
    method FillNode(ghost k: nat, part: Part, start: int, stop: int, fspace: int)
      requires Linked() && k < |nodes| && part == nodes[k]
      modifies part`used, part`start, part`stop, part`len, part`fspace
      ensures Linked() && SlotsOf(nodes) == old(SlotsOf(nodes))[k := Slot(true, start, stop, stop - start + 1, fspace)]
    {
      hide SlotsOf, At;
      LinkFacts(k);
      part.used, part.start, part.stop, part.len, part.fspace := true, start, stop, stop - start + 1, fspace;
      ghost var s := old(SlotsOf(nodes));
      assert SlotsOf(nodes) == s[k := Slot(true, start, stop, stop - start + 1, fspace)];
    }

    method CheckEntry(conf: seq<Extent>, i: nat) returns (ok: bool)
      requires |conf| == usable && i < usable
      ensures ok <==> EntryOk(conf, i, lastTrk)
    {
      var start, stop := conf[i].start, conf[i].stop;
      if start < FIRST_USABLE_TRK || start > lastTrk {
        return false;
      }
      if stop < FIRST_USABLE_TRK || stop > lastTrk {
        return false;
      }
      if start >= stop {
        return false;
      }
      if i > 0 && start <= conf[i - 1].stop {
        return false;
      }
      if i < usable - 1 && conf[i + 1].start > 0 && stop >= conf[i + 1].start {
        return false;
      }
      return true;
    }

    /** Fills node i from entry i. */
    method TakeEntry(conf: seq<Extent>, i: nat, part: Part)
      requires Linked() && |conf| == usable && i < usable && part == nodes[i] && SlotsOf(nodes) == ConfSlots(conf, i, lastTrk)
      modifies this`fspace, part`used, part`start, part`stop, part`len, part`fspace
      ensures Linked() && SlotsOf(nodes) == ConfSlots(conf, i + 1, lastTrk)
      ensures fspace == if i == 0 then conf[0].start - FIRST_USABLE_TRK else old(fspace)
    {
      hide Chain, SlotsOf, ConfSlots;
      var start, stop := conf[i].start, conf[i].stop;
      if i == 0 {
        fspace := start - FIRST_USABLE_TRK;
      }
      var behind := if i < usable - 1 && conf[i + 1].start != 0 then conf[i + 1].start - stop - 1 else lastTrk - stop;
      FillNode(i, part, start, stop, behind);
      ConfStep(conf, i, lastTrk);
    }

    /**
      Checks the entries of a configuration file and fills the list from them.
      They are accepted exactly when they describe partitions of more than one
      track in disk order; the list then holds these partitions.
    */
    method CheckConffileInput(conf: seq<Extent>) returns (ok: bool)
      requires Valid() && usedPartitions == 0 && |conf| == usable && Parsed(conf)
      modifies this`fspace, nodes
      ensures ok <==>
        var e := conf[..Entries(conf, 0)];
        Ordered(e, lastTrk) && forall i :: 0 <= i < |e| ==> e[i].start < e[i].stop
      ensures ok ==> Linked() && Table(SlotsOf(nodes), conf[..Entries(conf, 0)], |nodes|, fspace, lastTrk)
    {
      hide Chain, SlotsOf, Table, Ordered, EntryOk, Parsed, ConfSlots, ConfSlot;
      EmptyConf(SlotsOf(nodes), conf, fspace, lastTrk);
      var part: Part? := first;
      var i := 0;
      while i < usable && conf[i].start != 0 && conf[i].stop != 0
        invariant 0 <= i <= usable && part == At(nodes, i) && Linked()
        invariant Entries(conf, 0) == Entries(conf, i) && SlotsOf(nodes) == ConfSlots(conf, i, lastTrk)
        invariant fspace == if i == 0 then lastTrk + 1 - FIRST_USABLE_TRK else conf[0].start - FIRST_USABLE_TRK
        invariant forall j :: 0 <= j < i ==> EntryOk(conf, j, lastTrk)
      {
        var fine := CheckEntry(conf, i);
        if !fine {
          Refused(conf, i, lastTrk);
          return false;
        }
        TakeEntry(conf, i, part);
        LinkFacts(i);
        part := part.next;
        i := i + 1;
      }
      AcceptedConf(conf, i, fspace, lastTrk);
      return true;
    }

    /** Counts the partitions of an accepted configuration file. */
    method CountUsed(ghost e: seq<Extent>)
      requires Linked() && Table(SlotsOf(nodes), e, |nodes|, fspace, lastTrk) && usedPartitions == 0
      modifies this`usedPartitions
      ensures Valid() && Extents() == e && nodes == old(nodes)
    {
      hide Chain, SlotsOf, Table, Valid, Extents;
      TableSize(SlotsOf(nodes), e, |nodes|, fspace, lastTrk);
      var part: Part? := first;
      ghost var i := 0;
      while part != null
        invariant 0 <= i <= |nodes| && part == At(nodes, i) && usedPartitions == Min(i, |e|)
        decreases |nodes| - i
      {
        UsedSlot(SlotsOf(nodes), e, i, fspace, lastTrk);
        LinkFacts(i);
        if part.used {
          usedPartitions := usedPartitions + 1;
        }
        part := part.next;
        i := i + 1;
      }
      Settled(e);
    }
  }

  ghost predicate Chain(nodes: seq<Part>)
    reads nodes
  {
    && Distinct(nodes)
    && (forall i {:trigger nodes[i].prev} :: 0 <= i < |nodes| ==> nodes[i].prev == At(nodes, i - 1))
    && (forall i {:trigger nodes[i].next} :: 0 <= i < |nodes| ==> nodes[i].next == At(nodes, i + 1))
  }

  ghost function At(nodes: seq<Part>, i: int): Part? {
    if 0 <= i < |nodes| then nodes[i] else null
  }

  ghost function SlotOf(p: Part): Slot
    reads p
  {
    Slot(p.used, p.start, p.stop, p.len, p.fspace)
  }

  ghost function SlotsOf(nodes: seq<Part>): (s: seq<Slot>)
    reads nodes
    ensures |s| == |nodes| && forall i :: 0 <= i < |s| ==> s[i] == SlotOf(nodes[i])
  {
    if nodes == [] then [] else SlotsOf(nodes[..|nodes| - 1]) + [SlotOf(nodes[|nodes| - 1])]
  }

  /** Where the element at place i came from, when the last one has moved to place k. */
  ghost function UpIndex(n: nat, k: nat, i: nat): (j: nat)
    requires k < n && i < n
    ensures j < n
  {
    if i < k then i else if i == k then n - 1 else i - 1
  }

  ghost function MovedUp<T>(s: seq<T>, k: nat): (r: seq<T>)
    requires k < |s|
    ensures |r| == |s|
  {
    seq(|s|, i requires 0 <= i < |s| => s[UpIndex(|s|, k, i)])
  }

  lemma UpAt<T>(s: seq<T>, k: nat)
    requires k < |s|
    ensures forall i :: 0 <= i < |s| ==> MovedUp(s, k)[i] == s[UpIndex(|s|, k, i)]
  {
  }

  /** Where the element at place i came from, when the one at place k has moved to the end. */
  ghost function DownIndex(n: nat, k: nat, i: nat): (j: nat)
    requires k < n && i < n
    ensures j < n
  {
    if i < k then i else if i < n - 1 then i + 1 else k
  }

  ghost function MovedDown<T>(s: seq<T>, k: nat): (r: seq<T>)
    requires k < |s|
    ensures |r| == |s|
  {
    seq(|s|, i requires 0 <= i < |s| => s[DownIndex(|s|, k, i)])
  }

  lemma DownAt<T>(s: seq<T>, k: nat)
    requires k < |s|
    ensures forall i :: 0 <= i < |s| ==> MovedDown(s, k)[i] == s[DownIndex(|s|, k, i)]
  {
  }

  ghost predicate Distinct(nodes: seq<Part>) {
    forall i, j :: 0 <= i < j < |nodes| ==> nodes[i] != nodes[j]
  }

  lemma SlotsUp(nodes: seq<Part>, k: nat)
    requires k < |nodes|
    ensures SlotsOf(MovedUp(nodes, k)) == MovedUp(SlotsOf(nodes), k)
  {
    hide SlotsOf;
    var s, t := SlotsOf(nodes), SlotsOf(MovedUp(nodes, k));
    forall i | 0 <= i < |t| ensures t[i] == MovedUp(s, k)[i] {
      assert t[i] == SlotOf(MovedUp(nodes, k)[i]);
    }
  }

  lemma SlotsDown(nodes: seq<Part>, k: nat)
    requires k < |nodes|
    ensures SlotsOf(MovedDown(nodes, k)) == MovedDown(SlotsOf(nodes), k)
  {
    hide SlotsOf;
    var s, t := SlotsOf(nodes), SlotsOf(MovedDown(nodes, k));
    forall i | 0 <= i < |t| ensures t[i] == MovedDown(s, k)[i] {
      assert t[i] == SlotOf(MovedDown(nodes, k)[i]);
    }
  }

  lemma ChainAppend(nodes: seq<Part>, part: Part)
    requires Distinct(nodes) && part !in nodes && |nodes| > 0 && part.prev == nodes[|nodes| - 1] && part.next == null
    requires forall k {:trigger nodes[k].prev} :: 0 <= k < |nodes| ==> nodes[k].prev == At(nodes, k - 1)
    requires forall k {:trigger nodes[k].next} :: 0 <= k < |nodes| ==>
      nodes[k].next == if k < |nodes| - 1 then At(nodes, k + 1) else part
    ensures Chain(nodes + [part])
  {
    var t := nodes + [part];
    forall i | 0 <= i < |t| ensures t[i].prev == At(t, i - 1) && t[i].next == At(t, i + 1) {
      if i < |nodes| { assert t[i] == nodes[i]; }
    }
  }

  /** The links of node i once the last node has been linked in before node k. */
  ghost function PrevUp(s: seq<Part>, k: nat, i: nat): Part?
    requires k < |s| - 1
  {
    if i == |s| - 1 then At(s, k - 1) else if i == k then s[|s| - 1] else At(s, i - 1)
  }

  ghost function NextUp(s: seq<Part>, k: nat, i: nat): Part?
    requires k < |s| - 1
  {
    if i == |s| - 1 then s[k] else if i == |s| - 2 then null else if i == k - 1 then s[|s| - 1] else At(s, i + 1)
  }

  lemma UpChain(s: seq<Part>, k: nat)
    requires |s| >= 2 && k < |s| - 1 && Distinct(s)
    requires forall i {:trigger s[i].prev} :: 0 <= i < |s| ==> s[i].prev == PrevUp(s, k, i)
    requires forall i {:trigger s[i].next} :: 0 <= i < |s| ==> s[i].next == NextUp(s, k, i)
    ensures Chain(MovedUp(s, k))
  {
    hide MovedUp, PrevUp, NextUp, At, UpIndex;
    UpAt(s, k);
    var n, t := |s|, MovedUp(s, k);
    DistinctUp(s, k);
    forall i | 0 <= i < n ensures t[i].prev == At(t, i - 1) && t[i].next == At(t, i + 1) {
      assert t[i] == s[UpIndex(n, k, i)];
      UpLinks(s, k, i);
    }
  }

  lemma UpLinks(s: seq<Part>, k: nat, i: nat)
    requires |s| >= 2 && k < |s| - 1 && i < |s|
    ensures PrevUp(s, k, UpIndex(|s|, k, i)) == At(MovedUp(s, k), i - 1)
    ensures NextUp(s, k, UpIndex(|s|, k, i)) == At(MovedUp(s, k), i + 1)
  {
  }

  lemma DistinctUp(s: seq<Part>, k: nat)
    requires k < |s| && Distinct(s)
    ensures Distinct(MovedUp(s, k))
  {
  }

  /** The links of node i once node k has been linked in at the end. */
  ghost function PrevDown(s: seq<Part>, k: nat, i: nat): Part?
    requires k < |s|
  {
    if k == |s| - 1 then At(s, i - 1)
    else if i == k then s[|s| - 1] else if i == k + 1 then At(s, k - 1) else At(s, i - 1)
  }

  ghost function NextDown(s: seq<Part>, k: nat, i: nat): Part?
    requires k < |s|
  {
    if k == |s| - 1 then At(s, i + 1)
    else if i == k then null else if i == |s| - 1 then s[k] else if i == k - 1 then s[k + 1] else At(s, i + 1)
  }

  lemma DownChain(s: seq<Part>, k: nat)
    requires |s| >= 2 && k < |s| && Distinct(s)
    requires forall i {:trigger s[i].prev} :: 0 <= i < |s| ==> s[i].prev == PrevDown(s, k, i)
    requires forall i {:trigger s[i].next} :: 0 <= i < |s| ==> s[i].next == NextDown(s, k, i)
    ensures Chain(MovedDown(s, k))
  {
    hide MovedDown, PrevDown, NextDown, At, DownIndex;
    DownAt(s, k);
    var n, t := |s|, MovedDown(s, k);
    DistinctDown(s, k);
    forall i | 0 <= i < n ensures t[i].prev == At(t, i - 1) && t[i].next == At(t, i + 1) {
      assert t[i] == s[DownIndex(n, k, i)];
      DownLinks(s, k, i);
    }
  }

  lemma DownLinks(s: seq<Part>, k: nat, i: nat)
    requires |s| >= 2 && k < |s| && i < |s|
    ensures PrevDown(s, k, DownIndex(|s|, k, i)) == At(MovedDown(s, k), i - 1)
    ensures NextDown(s, k, DownIndex(|s|, k, i)) == At(MovedDown(s, k), i + 1)
  {
  }

  lemma DistinctDown(s: seq<Part>, k: nat)
    requires k < |s| && Distinct(s)
    ensures Distinct(MovedDown(s, k))
  {
  }

  lemma SameUp(s: seq<Part>, k: nat)
    requires k < |s|
    ensures forall j :: 0 <= j < |s| ==> MovedUp(s, k)[j] in s
  {
  }

  lemma SameDown(s: seq<Part>, k: nat)
    requires k < |s|
    ensures forall j :: 0 <= j < |s| ==> MovedDown(s, k)[j] in s
  {
  }

  // ------------------------------------------------------------------
  // Runs
  // ------------------------------------------------------------------

  datatype Edit = Add(start: int, stop: int, place: nat) | Remove(partId: nat)

  /** What an edit makes of the partitions of a disk with a given number of nodes. */
  ghost function Edited(e: seq<Extent>, op: Edit, usable: nat): seq<Extent>
    requires op.Add? ==> op.place <= |e|
  {
    match op
    case Add(start, stop, place) => if |e| < usable then Inserted(e, place, Extent(start, stop)) else e
    case Remove(id) => if 1 <= id <= |e| then Removed(e, id - 1) else e
  }

  ghost predicate LegalEdit(e: seq<Extent>, op: Edit, last: int) {
    op.Add? ==> InGap(e, op.place, Extent(op.start, op.stop), last)
  }

  /** The partitions before each edit of a run, and behind the last one. */
  ghost predicate EditRun(history: seq<seq<Extent>>, ops: seq<Edit>, usable: nat, last: int) {
    && |history| == |ops| + 1
    && forall i :: 0 <= i < |ops| ==> LegalEdit(history[i], ops[i], last) && history[i + 1] == Edited(history[i], ops[i], usable)
  }

  method ApplyEdit(a: Anchor, op: Edit)
    requires a.Valid() && LegalEdit(a.Extents(), op, a.lastTrk)
    modifies a, a.nodes
    ensures a.Valid() && a.Extents() == Edited(old(a.Extents()), op, a.usable)
    ensures forall j :: 0 <= j < |a.nodes| ==> a.nodes[j] in old(a.nodes)
  {
    hide Chain, SlotsOf, Table, MovedUp, MovedDown, Inserted, Removed;
    hide Anchor.Valid, Anchor.Extents;
    a.Holds();
    ghost var was := a.nodes;
    match op {
      case Add(start, stop, place) =>
        var ok := a.AddPartition(start, stop, place);
        if ok { SameUp(was, place); }
      case Remove(id) =>
        var ok := a.RemovePartition(id);
        if ok { SameDown(was, id - 1); }
    }
  }

  /** Over every run of edits the list stays well linked and holds exactly the partitions of the run, and no track is lost. */
  method RunEdits(a: Anchor, ops: seq<Edit>, ghost history: seq<seq<Extent>>)
    requires a.Valid() && EditRun(history, ops, a.usable, a.lastTrk) && history[0] == a.Extents()
    modifies a, a.nodes
    ensures a.Valid() && a.Extents() == history[|ops|]
    ensures a.fspace + Accounted(SlotsOf(a.nodes), |a.nodes|) == a.lastTrk + 1 - FIRST_USABLE_TRK
  {
    hide Chain, SlotsOf, Table, LegalEdit;
    hide Anchor.Valid, Anchor.Extents;
    var i := 0;
    while i < |ops|
      invariant 0 <= i <= |ops| && a.Valid() && a.Extents() == history[i]
      invariant forall j :: 0 <= j < |a.nodes| ==> a.nodes[j] in old(a.nodes)
    {
      assert LegalEdit(history[i], ops[i], a.lastTrk);
      ApplyEdit(a, ops[i]);
      i := i + 1;
    }
    a.Holds();
    Conservation(SlotsOf(a.nodes), a.Extents(), a.fspace, a.lastTrk);
  }

  /** A disk set up from an accepted configuration file: every run of edits starts from its partitions. */
  method ConfigureThenEdit(a: Anchor, conf: seq<Extent>, ops: seq<Edit>, ghost history: seq<seq<Extent>>) returns (ok: bool)
    requires a.Valid() && a.usedPartitions == 0 && |conf| == a.usable && Parsed(conf)
    requires EditRun(history, ops, a.usable, a.lastTrk) && history[0] == conf[..Entries(conf, 0)]
    modifies a, a.nodes
    ensures ok <==> Ordered(history[0], a.lastTrk) && forall i :: 0 <= i < |history[0]| ==> history[0][i].start < history[0][i].stop
    ensures ok ==> a.Valid() && a.Extents() == history[|ops|]
    ensures ok ==> a.fspace + Accounted(SlotsOf(a.nodes), |a.nodes|) == a.lastTrk + 1 - FIRST_USABLE_TRK
  {
    hide Table, SlotsOf, Chain, Ordered, Parsed, EditRun;
    hide Anchor.Valid, Anchor.Extents;
    ok := a.CheckConffileInput(conf);
    if ok {
      a.CountUsed(conf[..Entries(conf, 0)]);
      RunEdits(a, ops, history);
    }
  }
}
