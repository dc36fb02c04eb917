/**
  How the pointer blocks of a variable file relate to its block list.
*/
module VarPointers {
  import opened Blocks
  import opened VarLayout
  import opened VarScan
  import opened VarAppend
  import opened PointerTrees
  import opened PointerWalks

  function Leaves(blist: seq<BlockEntry>): (leaves: seq<Leaf>)
    ensures |leaves| == |blist|
    ensures forall i :: 0 <= i < |blist| ==> leaves[i] == Leaf(blist[i].diskAddr, blist[i].disp, blist[i].hiRecordNr)
  {
    seq(|blist|, i requires 0 <= i < |blist| => Leaf(blist[i].diskAddr, blist[i].disp, blist[i].hiRecordNr))
  }

  function FileShape(B: nat, P: nat, blist: seq<BlockEntry>): Shape {
    Shape(B, P, true, Leaves(blist))
  }

  /** File status fields and pointer blocks lead to the data blocks of the block list. */
  ghost predicate Linked(ptrs: map<nat, PtrBlock>, B: nat, P: nat, blist: seq<BlockEntry>, fop: nat, levels: nat)
    requires B >= 2 && P >= 2
  {
    if |blist| == 0 then fop == 0 && levels == 0
    else if |blist| == 1 then fop == Rel(B, blist[0].diskAddr) && levels == 0
    else
      && ShapeOk(FileShape(B, P, blist)) && fop > 0 && levels == Levels(P, |blist|)
      && Purgeable(ptrs, FileShape(B, P, blist), levels, Abs(B, fop), 0)
  }

  /** Every block of a file has the beginning of a record in it or in front of it. */
  lemma HiPositive(v: View, i: nat)
    requires ViewOk(v) && i < |v.addrs|
    ensures Hi(v.recs, Off(v.B, i + 1)) > 0
  {
    EmptyFits(v);
    OffMono(v.B, 1, i + 1);
  }

  lemma FileShapeOk(v: View, P: nat)
    requires ViewOk(v) && |v.addrs| > 0 && P >= 2
    ensures ShapeOk(FileShape(v.B, P, BlockIndex(v.B, v.addrs, v.recs)))
  {
    forall i | 0 <= i < |v.addrs| ensures BlockAt(v.B, v.addrs, v.recs, i).hiRecordNr > 0 {
      HiPositive(v, i);
    }
  }

  /** Behind the last block all records have begun. */
  lemma HiAtEnd(v: View)
    requires ViewOk(v)
    ensures Hi(v.recs, Off(v.B, |v.addrs|)) == |v.recs|
  {
    EncodeLength(v.recs);
    if |v.recs| > 0 { assert RecordOk(v.recs[|v.recs| - 1]); }
    HiUnique(v.recs, Off(v.B, |v.addrs|), |v.recs|);
  }

  /** Records that fit on the last block change that block's highest record number. */
  lemma LastPatched(v: View, w: View, xs: seq<Record>)
    requires ViewOk(v) && ViewOk(w) && Grown(v, w, xs) && |w.addrs| == |v.addrs| > 0
    ensures
      var i := |v.addrs| - 1;
      BlockAt(w.B, w.addrs, w.recs, i) == BlockAt(v.B, v.addrs, v.recs, i).(hiRecordNr := |w.recs|)
  {
    assert w.addrs == v.addrs;
    EncodeLength(v.recs);
    DispAppend(v.B, v.recs, xs, Off(v.B, |v.addrs| - 1));
    HiAtEnd(w);
  }

  /** Records that fit on the last block change nothing else. */
  lemma PatchedShape(v: View, w: View, xs: seq<Record>, P: nat)
    requires ViewOk(v) && ViewOk(w) && Grown(v, w, xs) && |w.addrs| == |v.addrs| > 0
    ensures FileShape(w.B, P, BlockIndex(w.B, w.addrs, w.recs))
         == Patched(FileShape(v.B, P, BlockIndex(v.B, v.addrs, v.recs)), |w.recs|)
  {
    hide Encode, Hi, Disp, BlockAt;
    var n := |v.addrs|;
    forall i | 0 <= i < n - 1
      ensures BlockAt(w.B, w.addrs, w.recs, i) == BlockAt(v.B, v.addrs, v.recs, i)
    {
      OffMono(v.B, i + 1, n - 1);
      BlockAtAppend(v, w, xs, i);
    }
    LastPatched(v, w, xs);
    var l, r := Leaves(BlockIndex(w.B, w.addrs, w.recs)), Leaves(BlockIndex(v.B, v.addrs, v.recs));
    assert l == r[n - 1 := r[n - 1].(hi := |w.recs|)];
  }

  /** The pointers list the data blocks with their displacements. */
  lemma ListedBlocks(v: View, P: nat)
    requires v.B > 0
    ensures
      var found := Listed(FileShape(v.B, P, BlockIndex(v.B, v.addrs, v.recs)), 0, |v.addrs|);
      |found| == |v.addrs| &&
      forall i :: 0 <= i < |found| ==> found[i] == Found(v.addrs[i], Disp(v.B, v.recs, Off(v.B, i)))
  {
  }

  lemma RelSame(B: nat, a: nat, o: nat)
    requires B > 0 && a % B == 0 && o < B
    ensures Rel(B, a + o) == Rel(B, a)
  {
    ModUnique(B, a / B, o);
    assert a == B * (a / B);
  }

  /** The data of a file with a single block starts on that block. */
  lemma SingleBlock(v: View)
    requires ViewOk(v) && |v.addrs| == 1
    ensures |v.recs| > 0
    ensures
      var r := Entry(v.B, v.addrs, v.recs, v.lf, 0, 1);
      r.diskStart > 0 && Rel(v.B, r.diskStart) == Rel(v.B, v.addrs[0])
    ensures Disp(v.B, v.recs, 0) == 0
  {
    EmptyFits(v);
    HiUnique(v.recs, 0, 0);
    var q := EntryWhole(v, 0);
    hide Entry, Exts, Encode, Hi;
    RelSame(v.B, v.addrs[0], HEADER_SIZE);
  }

  /** The displacement of the last block: either the next header is in the block, or the file ends with it. */
  lemma LastBlockFacts(v: View)
    requires ViewOk(v) && |v.addrs| > 0
    ensures
      var p, r := Off(v.B, |v.addrs| - 1), Hi(v.recs, Off(v.B, |v.addrs| - 1));
      var d := Disp(v.B, v.recs, p);
      && r <= |v.recs|
      && (d != SPANNED ==> d < v.B && Start(v.recs, r) == p + d)
      && (d == SPANNED ==> |Encode(v.recs)| == p + v.B)
  {
    InsideHi(v, |v.addrs| - 1);
    EncodeLength(v.recs);
    StartMono(v.recs, Hi(v.recs, Off(v.B, |v.addrs| - 1)), |v.recs|);
  }

  /** Headers taken off and linefeeds added, the stream has the length a reader sees. */
  lemma {:induction false} LogicalLength(recs: seq<Record>, lf: nat, k: nat)
    requires k <= |recs|
    ensures FileStart(recs, lf, k) == Start(recs, k) - HEADER_SIZE * k + lf * k
  {
    if k > 0 {
      LogicalLength(recs, lf, k - 1);
      assert lf * k == lf * (k - 1) + lf;
    }
  }

  lemma LogicalSize(recs: seq<Record>, lf: nat)
    requires RecordsOk(recs) && lf <= 1
    ensures FileStart(recs, lf, |recs|) == |Encode(recs)| - |recs| * HEADER_SIZE + if lf == 1 then |recs| else 0
  {
    LogicalLength(recs, lf, |recs|);
    EncodeLength(recs);
  }

  /** Without pointer blocks the file status entry leads straight to the only data block. */
  lemma FlatLink(v: View, ptrs: map<nat, PtrBlock>, P: nat, fop: nat, levels: nat)
    requires ViewOk(v) && P >= 2 && |v.addrs| > 0
    requires Linked(ptrs, v.B, P, BlockIndex(v.B, v.addrs, v.recs), fop, levels)
    ensures fop > 0
    ensures levels == 0 ==> |v.addrs| == 1 && Abs(v.B, fop) == v.addrs[0] && Start(v.recs, 0) == 0 == Off(v.B, 0)
  {
    AbsRel(v.B, v.addrs[0]);
  }

  lemma SingleEntry(v: View)
    requires ViewOk(v) && |v.addrs| == 1 && |v.recs| > 0
    ensures |RecordIndex(v.B, v.addrs, v.recs, v.lf)| == |v.recs|
    ensures RecordIndex(v.B, v.addrs, v.recs, v.lf)[0] == Entry(v.B, v.addrs, v.recs, v.lf, 0, 1)
  {
  }

  lemma EmptyIndex(v: View)
    requires ViewOk(v) && |v.recs| == 0 && |v.addrs| == 0
    ensures RecordIndex(v.B, v.addrs, v.recs, v.lf) == [] && BlockIndex(v.B, v.addrs, v.recs) == []
  {
  }
}
