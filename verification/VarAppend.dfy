/**
  What appending the records of a write to a variable file does to the blocks on disk and
  to the index, step by step.
*/
module VarAppend {
  import opened Blocks
  import opened VarLayout
  import opened VarScan

  // ------------------------------------------------------------------
  // Writing the stream
  // ------------------------------------------------------------------

  /** Writing w behind the end of the stream, inside the last block. */
  lemma StoredWrite(B: nat, disk: map<nat, seq<byte>>, addrs: seq<nat>, data: seq<byte>, w: seq<byte>, i: nat, off: nat)
    requires Blksize(B) && AddrsOk(B, addrs) && Stored(B, disk, addrs, data)
    requires i + 1 == |addrs| && |data| == Off(B, i) + off && off + |w| <= B
    ensures addrs[i] in disk && |disk[addrs[i]]| == B
    ensures Stored(B, disk[addrs[i] := Splice(disk[addrs[i]], off, w)], addrs, data + w)
  {
    SpliceImage(B, data, w, i, off);
    forall j | 0 <= j < i ensures Image(B, data + w, j) == Image(B, data, j) {
      OffMono(B, j, i);
      FullImage(B, data, w, j);
    }
  }

  lemma AddrAligned(B: nat, addrs: seq<nat>, i: nat)
    requires B > 0 && AddrsOk(B, addrs) && i < |addrs|
    ensures addrs[i] % B == 0 && addrs[i] > 0
  {
  }

  /** The write pointer is aligned exactly if the last block is full. */
  lemma PtrAligned(B: nat, addrs: seq<nat>, len: nat, ptr: nat)
    requires B > 0 && AddrsOk(B, addrs) && Fits(B, |addrs|, len)
    requires ptr == if |addrs| == 0 then 0 else addrs[|addrs| - 1] + (len - Off(B, |addrs| - 1))
    ensures ptr % B == 0 <==> len == Off(B, |addrs|)
    ensures ptr % B != 0 ==> ptr % B == len - Off(B, |addrs| - 1)
  {
    if |addrs| > 0 {
      var a, o := addrs[|addrs| - 1], len - Off(B, |addrs| - 1);
      assert a % B == 0;
      if o < B {
        BaseOf(B, a, o);
      } else {
        AlignedEnd(B, a);
      }
    }
  }

  /** A fresh zero block at the end of a stream that fills its blocks. */
  lemma StoredNew(B: nat, disk: map<nat, seq<byte>>, addrs: seq<nat>, data: seq<byte>, a: nat)
    requires Blksize(B) && AddrsOk(B, addrs) && Stored(B, disk, addrs, data)
    requires |data| == Off(B, |addrs|) && a !in addrs && a > 0 && a % B == 0
    ensures AddrsOk(B, addrs + [a]) && Stored(B, disk[a := Zeros(B)], addrs + [a], data)
  {
    FreshImage(B, data, |addrs|);
  }

  /** Header and bytes of a record, as they go to disk. */
  function Framed(rec: Record): (w: seq<byte>)
    requires |rec| <= MAX_RECORD_LEN
    ensures |w| == HEADER_SIZE + |rec|
  {
    Header(|rec|) + rec
  }

  lemma FramedIs(rec: Record)
    requires |rec| <= MAX_RECORD_LEN
    ensures Framed(rec) == Header(|rec|) + rec
  {
  }

  lemma FramedLength(rec: Record)
    requires |rec| <= MAX_RECORD_LEN
    ensures |Framed(rec)| == HEADER_SIZE + |rec|
  {
  }

  /** Number of data bytes among the first done bytes of a framed record. */
  function DataPart(done: nat): nat {
    if done < HEADER_SIZE then 0 else done - HEADER_SIZE
  }

  /** The header bytes of a framed record. */
  lemma FramedHeader(rec: Record, d: nat, n: nat)
    requires |rec| <= MAX_RECORD_LEN && d + n <= HEADER_SIZE
    ensures Framed(rec)[d..d + n] == [|rec| / 256, |rec| % 256][d..d + n]
  {
  }

  /** The data bytes of a framed record. */
  lemma FramedData(rec: Record, d: nat, vh: nat, n: nat)
    requires |rec| <= MAX_RECORD_LEN && d + vh + n <= HEADER_SIZE + |rec|
    requires n > 0 ==> HEADER_SIZE <= d + vh && DataPart(d + vh) == DataPart(d)
    ensures DataPart(d) + n <= |rec| && Framed(rec)[d..d + vh + n] == Framed(rec)[d..d + vh] + rec[DataPart(d)..][..n]
  {
  }

  /** Displacement of a block that begins in the middle of a write of full, done bytes into it. */
  ghost function NewDisp(B: nat, full: nat, done: nat): nat
    requires done <= full
  {
    if done == 0 then 0 else if full - done < B then full - done else SPANNED
  }

  /** A place in the stream of the records xs: d bytes of record k are written, header included. */
  ghost predicate Place(xs: seq<Record>, k: nat, d: nat) {
    && RecordsOk(xs) && k <= |xs|
    && if k < |xs| then d < HEADER_SIZE + |xs[k]| else d == 0
  }

  ghost function At(xs: seq<Record>, k: nat, d: nat): nat
    requires k <= |xs|
  {
    Start(xs, k) + d
  }

  /** Number of data bytes in front of a place. */
  ghost function Taken(xs: seq<Record>, k: nat, d: nat): nat
    requires k <= |xs|
  {
    FileStart(xs, 0, k) + DataPart(d)
  }

  /** A piece of the stream that lies inside one record. */
  lemma PieceOf(xs: seq<Record>, k: nat, d: nat, n: nat)
    requires RecordsOk(xs) && k < |xs| && d + n <= HEADER_SIZE + |xs[k]|
    ensures |xs[k]| <= MAX_RECORD_LEN && At(xs, k, d) + n <= Start(xs, k + 1) <= |Encode(xs)|
    ensures Encode(xs)[At(xs, k, d)..At(xs, k, d) + n] == Framed(xs[k])[d..d + n]
  {
    hide Encode, Framed;
    assert RecordOk(xs[k]);
    EncodeAt(xs, k);
    FramedIs(xs[k]);
    var s := Start(xs, k);
    SliceOfSlice(Encode(xs), s, Start(xs, k + 1), d, d + n);
  }

  /** The displacement stored for a new block is the one the layout asks for. */
  lemma NewDispRight(B: nat, recs: seq<Record>, xs: seq<Record>, k: nat, d: nat)
    requires B > 0 && RecordsOk(recs) && Place(xs, k, d) && k < |xs|
    ensures Disp(B, recs + xs, |Encode(recs)| + At(xs, k, d)) == NewDisp(B, HEADER_SIZE + |xs[k]|, d)
  {
    var n, p := |recs| + k, |Encode(recs)| + At(xs, k, d);
    EncodeLength(recs);
    StartBehind(recs, xs, k, 0);
    StartBehind(recs, xs, k + 1, 0);
    if d == 0 {
      if n > 0 { StartMono(recs + xs, n - 1, n); }
      HiUnique(recs + xs, p, n);
    } else {
      HiUnique(recs + xs, p, n + 1);
    }
  }

  // ------------------------------------------------------------------
  // The end of the file according to the index
  // ------------------------------------------------------------------

  /** The entry of a record whose data lies in the blocks of the file. */
  lemma EntryWhole(v: View, k: nat) returns (q: nat)
    requires ViewOk(v) && k < |v.recs|
    ensures q < |v.addrs|
    ensures
      var s, e := Start(v.recs, k) + HEADER_SIZE, Start(v.recs, k + 1);
      && Off(v.B, q) <= s < Off(v.B, q) + v.B && s < e <= |Encode(v.recs)|
      && Entry(v.B, v.addrs, v.recs, v.lf, k, |v.addrs|)
           == RecordEntry(|v.recs[k]|, v.addrs[q] + (s - Off(v.B, q)), Min(e, Off(v.B, q) + v.B) - s,
                          FileStart(v.recs, v.lf, k), Exts(v.B, v.addrs, s, e, |v.addrs|), q)
  {
    EncodeLength(v.recs);
    StartMono(v.recs, k + 1, |v.recs|);
    assert RecordOk(v.recs[k]);
    q := BlockOf(v.B, Start(v.recs, k) + HEADER_SIZE);
    if q >= |v.addrs| {
      OffMono(v.B, |v.addrs|, q);
      assert false;
    }
  }

  /** Where the last record ends, as its index entry tells it. */
  ghost predicate EndsAt(r: RecordEntry, B: nat, a: nat, off: nat, i: nat) {
    && (r.ext == [] ==> r.blockNr == i && r.diskStart + r.firstBlockLen == a + off && a <= r.diskStart < a + B)
    && (r.ext != [] ==>
         && r.blockNr < i && r.ext[|r.ext| - 1] == Ext(a, off, i)
         && forall j :: 0 <= j < |r.ext| - 1 ==> r.ext[j].blockNr < i)
  }

  lemma TailFacts(v: View)
    requires ViewOk(v) && |v.recs| > 0
    ensures
      var n := |v.addrs|;
      && n > 0 && Off(v.B, n - 1) < |Encode(v.recs)| <= Off(v.B, n)
      && EndsAt(Entry(v.B, v.addrs, v.recs, v.lf, |v.recs| - 1, n), v.B, v.addrs[n - 1],
                |Encode(v.recs)| - Off(v.B, n - 1), n - 1)
  {
    hide Entry, Encode, RecordsOk, Exts, Start, FileStart, AddrsOk;
    var k, n := |v.recs| - 1, |v.addrs|;
    var q := EntryWhole(v, k);
    EncodeLength(v.recs);
    ExtsLast(v.B, v.addrs, Start(v.recs, k) + HEADER_SIZE, Start(v.recs, k + 1), n);
    if q < n - 1 { OffMono(v.B, q + 1, n - 1); }
  }

  /** Data that ends in block n - 1: either it starts there, or that block holds its last extension. */
  lemma ExtsLast(B: nat, addrs: seq<nat>, s: nat, e: nat, n: nat)
    requires 0 < n <= |addrs| && Off(B, n - 1) < e <= Off(B, n)
    ensures
      var x := Exts(B, addrs, s, e, n);
      if Off(B, n - 1) <= s then x == [] else
        && x != [] && x[|x| - 1] == Ext(addrs[n - 1], e - Off(B, n - 1), n - 1)
        && forall j :: 0 <= j < |x| - 1 ==> x[j].blockNr < n - 1
  {
    ExtsBelow(B, addrs, s, e, n - 1);
  }

  /** Extensions name blocks below n. */
  lemma {:induction false} ExtsBelow(B: nat, addrs: seq<nat>, s: nat, e: nat, n: nat)
    requires n <= |addrs|
    ensures forall j :: 0 <= j < |Exts(B, addrs, s, e, n)| ==> Exts(B, addrs, s, e, n)[j].blockNr < n
  {
    if n > 0 { ExtsBelow(B, addrs, s, e, n - 1); }
  }

  // ------------------------------------------------------------------
  // Restarting the scan at the last record's header
  // ------------------------------------------------------------------

  /** Block and offset of the header that belongs to data starting at offset off of block q. */
  function HeaderPlace(B: nat, q: nat, off: nat): (int, int) {
    if off >= HEADER_SIZE then (q, off - HEADER_SIZE)
    else if off == 1 then (q - 1, B - 1)
    else (q - 1, B - 2)
  }

  /** The scan restarts at the header of the last record, even if that lies in the block before its data. */
  lemma RestartAt(v: View)
    requires ViewOk(v) && |v.recs| > 0
    ensures
      var r := Entry(v.B, v.addrs, v.recs, v.lf, |v.recs| - 1, |v.addrs|);
      var (bnr, skip) := HeaderPlace(v.B, r.blockNr, r.diskStart % v.B);
      && r.diskStart > 0
      && 0 <= bnr < |v.addrs| && 0 <= skip < v.B && Off(v.B, bnr) + skip == Start(v.recs, |v.recs| - 1)
      && r.fileStart == FileStart(v.recs, v.lf, |v.recs| - 1)
  {
    var k := |v.recs| - 1;
    var q := EntryWhole(v, k);
    hide Entry, Encode, RecordsOk;
    BaseOf(v.B, v.addrs[q], Start(v.recs, k) + HEADER_SIZE - Off(v.B, q));
    if q == 0 {
      assert Off(v.B, q) == 0;
    }
  }

  /** Space in the record list for n records that are not scanned yet. */
  function Blank(n: nat): seq<RecordEntry> {
    seq(n, _ => NoRecord)
  }

  /** With the last entry dropped the index is that of a scan in front of the last record of the longer file. */
  lemma RestartScan(v: View, xs: seq<Record>, more: seq<nat>, rlist: seq<RecordEntry>, n: nat)
    requires ViewOk(v) && |v.recs| > 0 && RecordsOk(xs)
    requires ViewOk(v.(addrs := v.addrs + more, recs := v.recs + xs))
    requires n <= |v.addrs| && Start(v.recs, |v.recs| - 1) <= Off(v.B, n)
    requires rlist == RecordIndex(v.B, v.addrs, v.recs, v.lf)[|v.recs| - 1 := NoRecord] + Blank(|xs|)
    ensures Scanned(v.(addrs := v.addrs + more, recs := v.recs + xs), rlist, n, |v.recs| - 1)
  {
    var w, k := v.(addrs := v.addrs + more, recs := v.recs + xs), |v.recs| - 1;
    EncodeLength(v.recs);
    forall j | 0 <= j < k ensures rlist[j] == Entry(w.B, w.addrs, w.recs, w.lf, j, n) {
      hide Entry;
      EntryAppend(v.B, v.addrs, more, v.recs, xs, v.lf, j);
      StartAppend(v.recs, xs, j + 1, 0);
      StartMono(v.recs, j + 1, k);
      EntryStable(w.B, w.addrs, w.recs, w.lf, j, n, |w.addrs|);
    }
  }

  /** In front of a header at the start of a block: the same as between two blocks. */
  lemma HeaderAtBlockStart(v: View, n: nat, r: nat, rlist: seq<RecordEntry>, state: ScanState, total: nat)
    requires ViewOk(v) && n < |v.addrs| && r < |v.recs| && Start(v.recs, r) == Off(v.B, n)
    requires Scanned(v, rlist, n, r) && state == DataStarted && total == Total(v, r)
    ensures AtBlock(v, n, rlist, state, r - 1, total)
  {
    if r > 0 { assert RecordOk(v.recs[r - 1]); }
    HiUnique(v.recs, Off(v.B, n), r);
  }

  /** The logical position in front of record m, as the scan counts it. */
  lemma TotalBefore(v: View, m: nat)
    requires v.lf <= 1 && RecordsOk(v.recs) && m <= |v.recs|
    ensures
      var t := FileStart(v.recs, v.lf, m);
      Total(v, m) == if v.lf == 1 && t > 0 then t - 1 else t
  {
    if m > 0 { assert RecordOk(v.recs[m - 1]); }
  }

  /** The file w is the file v with the records xs behind it. */
  ghost predicate Grown(v: View, w: View, xs: seq<Record>) {
    && w.B == v.B && w.lf == v.lf && w.recs == v.recs + xs
    && |v.addrs| <= |w.addrs| && w.addrs[..|v.addrs|] == v.addrs
  }

  /** Everything is in place to scan from the header of what was the last record. */
  lemma RestartReady(v: View, w: View, xs: seq<Record>, rlist: seq<RecordEntry>, bnr: nat, skip: nat, total: nat)
    requires ViewOk(v) && ViewOk(w) && Grown(v, w, xs) && |v.recs| > 0 && RecordsOk(xs)
    requires rlist == RecordIndex(v.B, v.addrs, v.recs, v.lf)[|v.recs| - 1 := NoRecord] + Blank(|xs|)
    requires bnr < |v.addrs| && skip < v.B && Off(v.B, bnr) + skip == Start(v.recs, |v.recs| - 1)
    requires total == Total(v, |v.recs| - 1)
    ensures Start(w.recs, |v.recs| - 1) == Off(v.B, bnr) + skip
    ensures skip == 0 ==> AtBlock(w, bnr, rlist, DataStarted, |v.recs| - 2, total)
    ensures skip > 0 ==> AtHeader(w, bnr, |v.recs| - 1, rlist, DataStarted, |v.recs| - 2, total)
  {
    hide RecordIndex, Encode, Scanned, StateAt, Opened, Hi;
    var k, more := |v.recs| - 1, w.addrs[|v.addrs|..];
    assert w.addrs == v.addrs + more && w == v.(addrs := v.addrs + more, recs := v.recs + xs);
    StartAppend(v.recs, xs, k, v.lf);
    if k > 0 { StartAppend(v.recs, xs, k - 1, v.lf); }
    RestartScan(v, xs, more, rlist, if skip == 0 then bnr else bnr + 1);
    if skip == 0 {
      HeaderAtBlockStart(w, bnr, k, rlist, DataStarted, total);
    }
  }

  /** Blocks that end below the last record's header keep their entries. */
  lemma BlockAtAppend(v: View, w: View, xs: seq<Record>, i: nat)
    requires ViewOk(v) && Grown(v, w, xs) && i < |v.addrs| && Off(v.B, i + 1) < |Encode(v.recs)|
    ensures BlockAt(w.B, w.addrs, w.recs, i) == BlockAt(v.B, v.addrs, v.recs, i)
  {
    EncodeLength(v.recs);
    DispAppend(v.B, v.recs, xs, Off(v.B, i));
    DispAppend(v.B, v.recs, xs, Off(v.B, i + 1));
    assert w.addrs[i] == w.addrs[..|v.addrs|][i];
  }

  lemma BlocksBelowAppend(v: View, w: View, xs: seq<Record>, bnr: nat)
    requires ViewOk(v) && Grown(v, w, xs) && |v.recs| > 0 && bnr <= |v.addrs|
    requires Off(v.B, bnr) <= Start(v.recs, |v.recs| - 1)
    ensures forall i :: 0 <= i < bnr ==> BlockAt(w.B, w.addrs, w.recs, i) == BlockAt(v.B, v.addrs, v.recs, i)
  {
    EncodeLength(v.recs);
    forall i | 0 <= i < bnr ensures BlockAt(w.B, w.addrs, w.recs, i) == BlockAt(v.B, v.addrs, v.recs, i) {
      OffMono(v.B, i + 1, bnr);
      BlockAtAppend(v, w, xs, i);
    }
  }

  /** The first records of a file: the scan starts with the first block. */
  lemma FirstScan(v: View, w: View, xs: seq<Record>, rlist: seq<RecordEntry>)
    requires ViewOk(v) && ViewOk(w) && Grown(v, w, xs) && v.recs == [] && xs != []
    requires rlist == RecordIndex(v.B, v.addrs, v.recs, v.lf) + Blank(|xs|)
    ensures |w.addrs| > 0 && AtBlock(w, 0, rlist, DataStarted, -1, 0)
  {
    assert rlist == seq(|w.recs|, _ => NoRecord);
    ScanStart(w, rlist);
    EncodeLength(w.recs);
    StartMono(w.recs, 0, |w.recs|);
  }

  /** A file without records has no blocks, and the other way round. */
  lemma EmptyFits(v: View)
    requires ViewOk(v)
    ensures |v.recs| == 0 ==> |Encode(v.recs)| == 0 && |v.addrs| == 0
    ensures |v.addrs| == 0 ==> |Encode(v.recs)| == 0 && |v.recs| == 0
  {
    EncodeLength(v.recs);
    if |v.recs| > 0 { StartMono(v.recs, 0, |v.recs|); }
  }

  /** Length of the longest record. */
  function Longest(recs: seq<Record>): nat {
    if recs == [] then 0 else
      var m, last := Longest(recs[..|recs| - 1]), |recs[|recs| - 1]|;
      if last > m then last else m
  }

  /** No record is longer, and one is as long. */
  lemma {:induction false} LongestIs(recs: seq<Record>)
    ensures forall k :: 0 <= k < |recs| ==> |recs[k]| <= Longest(recs)
    ensures recs != [] ==> exists k :: 0 <= k < |recs| && |recs[k]| == Longest(recs)
  {
    if recs != [] {
      var init, last := recs[..|recs| - 1], recs[|recs| - 1];
      LongestIs(init);
      assert recs == init + [last];
      if |last| > Longest(init) || init == [] {
        assert |recs[|recs| - 1]| == |last|;
      } else {
        var k :| 0 <= k < |init| && |init[k]| == Longest(init);
        assert |recs[k]| == Longest(init);
      }
    }
  }

  lemma FitsRoom(v: View)
    requires ViewOk(v)
    ensures |Encode(v.recs)| <= Off(v.B, |v.addrs|) < |Encode(v.recs)| + v.B
  {
  }

  lemma LongestLast(recs: seq<Record>, x: Record)
    ensures Longest(recs + [x]) == if |x| > Longest(recs) then |x| else Longest(recs)
  {
    assert (recs + [x])[..|recs|] == recs;
  }

  lemma {:induction false} LongestAppend(recs: seq<Record>, xs: seq<Record>)
    ensures Longest(recs + xs) == if Longest(xs) > Longest(recs) then Longest(xs) else Longest(recs)
  {
    if xs == [] {
      assert recs + xs == recs;
    } else {
      var init, last := xs[..|xs| - 1], xs[|xs| - 1];
      LongestAppend(recs, init);
      LongestLast(init, last);
      LongestLast(recs + init, last);
      assert xs == init + [last] && recs + xs == recs + init + [last];
    }
  }
}
