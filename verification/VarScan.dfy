/**
  The state a scan of a variable file's data blocks is in between two blocks,
  and what the scan of one more block adds to it.
*/
module VarScan {
  import opened Blocks
  import opened VarLayout

  datatype ScanState = HeaderStarted | HeaderComplete | DataStarted | DataExt

  /** A file as the scan sees it: block size, block addresses, records, linefeed width. */
  datatype View = View(B: nat, addrs: seq<nat>, recs: seq<Record>, lf: nat)

  ghost predicate ViewOk(v: View) {
    && Blksize(v.B) && RecordsOk(v.recs) && AddrsOk(v.B, v.addrs) && v.lf <= 1
    && Fits(v.B, |v.addrs|, |Encode(v.recs)|)
  }

  /** The first r entries describe their records as far as the blocks below n tell, the rest is empty. */
  ghost predicate Scanned(v: View, rlist: seq<RecordEntry>, n: nat, r: nat)
    requires v.B > 0 && n <= |v.addrs|
  {
    && |rlist| == |v.recs| && r <= |v.recs|
    && (forall k :: 0 <= k < r ==> rlist[k] == Entry(v.B, v.addrs, v.recs, v.lf, k, n))
    && (forall k :: r <= k < |rlist| ==> rlist[k] == NoRecord)
  }

  /** Logical length of the first m records without a linefeed behind the last one. */
  ghost function Total(v: View, m: nat): nat
    requires m <= |v.recs|
  {
    if m == 0 then 0 else FileStart(v.recs, v.lf, m - 1) + |v.recs[m - 1]|
  }

  ghost function StateAt(v: View, p: nat): set<ScanState> {
    var r := Hi(v.recs, p);
    if r == 0 then {DataStarted}
    else if Start(v.recs, r - 1) + 1 == p then {HeaderStarted}
    else if Start(v.recs, r - 1) + 2 == p then {HeaderComplete}
    else {DataStarted, DataExt}
  }

  /** Number of records whose data has begun below stream position p. */
  ghost function Opened(v: View, p: nat): (m: nat)
    ensures m <= |v.recs|
  {
    var r := Hi(v.recs, p);
    if r > 0 && p <= Start(v.recs, r - 1) + HEADER_SIZE then r - 1 else r
  }

  /** State between two blocks: everything below block n has been scanned. */
  ghost predicate AtBlock(v: View, n: nat, rlist: seq<RecordEntry>, state: ScanState, record: int, total: nat)
    requires v.B > 0 && n <= |v.addrs|
  {
    var p := Off(v.B, n);
    && record == Hi(v.recs, p) - 1
    && Scanned(v, rlist, n, Hi(v.recs, p))
    && state in StateAt(v, p)
    && total == Total(v, Opened(v, p))
  }

  /** State inside block n, in front of the header of record r (or behind the last record). */
  ghost predicate AtHeader(v: View, n: nat, r: nat, rlist: seq<RecordEntry>, state: ScanState, record: int, total: nat)
    requires v.B > 0 && n < |v.addrs|
  {
    && r <= |v.recs| && record == r - 1
    && Off(v.B, n) <= Start(v.recs, r) <= Off(v.B, n) + v.B
    && Scanned(v, rlist, n + 1, r)
    && state in {DataStarted, DataExt}
    && total == Total(v, r)
  }

  /** The block that starts at p begins with the rest of a record. */
  ghost predicate Continued(v: View, p: nat) {
    Start(v.recs, Hi(v.recs, p)) > p
  }

  lemma InsideHi(v: View, n: nat)
    requires ViewOk(v) && n < |v.addrs|
    ensures var p := Off(v.B, n); Start(v.recs, Hi(v.recs, p)) >= p
    ensures Hi(v.recs, Off(v.B, n)) == 0 ==> n == 0
  {
    EncodeLength(v.recs);
    OffMono(v.B, n, |v.addrs| - 1);
    if n > 0 { OffMono(v.B, 0, n); }
  }

  /** All records that end at or below block n look the same to block n and block n + 1. */
  lemma ScannedNext(v: View, rlist: seq<RecordEntry>, n: nat, r: nat, m: nat)
    requires ViewOk(v) && n < |v.addrs| && Scanned(v, rlist, n, r)
    requires m <= r && Start(v.recs, m) <= Off(v.B, n)
    ensures forall k :: 0 <= k < m ==> rlist[k] == Entry(v.B, v.addrs, v.recs, v.lf, k, n + 1)
  {
    forall k | 0 <= k < m
      ensures rlist[k] == Entry(v.B, v.addrs, v.recs, v.lf, k, n + 1)
    {
      StartMono(v.recs, k + 1, m);
      EntryStable(v.B, v.addrs, v.recs, v.lf, k, n, n + 1);
    }
  }

  /** A block that starts with a header: the scan may start right there. */
  lemma EnterAtHeader(v: View, n: nat, rlist: seq<RecordEntry>, state: ScanState, record: int, total: nat)
    requires ViewOk(v) && n < |v.addrs|
    requires AtBlock(v, n, rlist, state, record, total)
    requires !Continued(v, Off(v.B, n))
    ensures AtHeader(v, n, Hi(v.recs, Off(v.B, n)), rlist, state, record, total)
  {
    var p := Off(v.B, n);
    var r := Hi(v.recs, p);
    InsideHi(v, n);
    assert Start(v.recs, r) == p;
    if r > 0 {
      assert RecordOk(v.recs[r - 1]);
    }
    ScannedNext(v, rlist, n, r, r);
  }

  /** A record with data below block n gets one more extension from block n. */
  lemma ContinuedData(v: View, n: nat, k: nat)
    requires ViewOk(v) && n < |v.addrs| && k < |v.recs|
    requires Start(v.recs, k) + HEADER_SIZE < Off(v.B, n) < Start(v.recs, k + 1)
    ensures
      var was := Entry(v.B, v.addrs, v.recs, v.lf, k, n);
      Entry(v.B, v.addrs, v.recs, v.lf, k, n + 1)
        == was.(ext := was.ext + [Ext(v.addrs[n], Min(v.B, Start(v.recs, k + 1) - Off(v.B, n)), n)])
  {
    var s := Start(v.recs, k) + HEADER_SIZE;
    var q := BlockOf(v.B, s);
    if q >= n { OffMono(v.B, n, q); }
    assert Exts(v.B, v.addrs, s, Start(v.recs, k + 1), n + 1)
        == Exts(v.B, v.addrs, s, Start(v.recs, k + 1), n)
           + [Ext(v.addrs[n], Min(v.B, Start(v.recs, k + 1) - Off(v.B, n)), n)];
  }

  /** A record of which only header bytes lie below block n gets its first data from block n. */
  lemma ContinuedHeader(v: View, n: nat, k: nat)
    requires ViewOk(v) && n < |v.addrs| && k < |v.recs|
    requires Start(v.recs, k) < Off(v.B, n) <= Start(v.recs, k) + HEADER_SIZE
    ensures
      var p, h := Off(v.B, n), Start(v.recs, k);
      && Entry(v.B, v.addrs, v.recs, v.lf, k, n + 1)
           == RecordEntry(|v.recs[k]|, v.addrs[n] + (h + HEADER_SIZE - p),
                          Min(Start(v.recs, k + 1), p + v.B) - (h + HEADER_SIZE),
                          FileStart(v.recs, v.lf, k), [], n)
      && Entry(v.B, v.addrs, v.recs, v.lf, k, n)
           == NoRecord.(totalLen := if h + 1 == p then |v.recs[k]| / 256 * 256 else |v.recs[k]|)
  {
    BlockOfUnique(v.B, Start(v.recs, k) + HEADER_SIZE, n);
  }

  /** What is known in front of a block that begins with the rest of record k. */
  lemma DisplacedFacts(v: View, n: nat, rlist: seq<RecordEntry>, state: ScanState, k: nat, total: nat)
    requires ViewOk(v) && n < |v.addrs|
    requires AtBlock(v, n, rlist, state, k, total)
    requires Disp(v.B, v.recs, Off(v.B, n)) != 0
    ensures k < |rlist| == |v.recs| && rlist[k] == Entry(v.B, v.addrs, v.recs, v.lf, k, n)
    ensures
      var p, h, e := Off(v.B, n), Start(v.recs, k), Start(v.recs, k + 1);
      && h < p < e
      && Disp(v.B, v.recs, p) == (if e - p < v.B then e - p else SPANNED)
      && (state == HeaderStarted <==> h + 1 == p)
      && (state == HeaderComplete <==> h + 2 == p)
      && total == Total(v, if p <= h + HEADER_SIZE then k else k + 1)
      && e == h + HEADER_SIZE + |v.recs[k]|
      && Total(v, k + 1) == FileStart(v.recs, v.lf, k) + |v.recs[k]|
      && FileStart(v.recs, v.lf, k) == Total(v, k) + if k > 0 then v.lf else 0
  {
    InsideHi(v, n);
  }

  /** Completing the last entry with what block n holds of it. */
  lemma LastAdvanced(v: View, n: nat, rlist: seq<RecordEntry>, k: nat)
    requires ViewOk(v) && n < |v.addrs| && k < |v.recs| && Scanned(v, rlist, n, k + 1)
    requires Start(v.recs, k) <= Off(v.B, n)
    ensures Scanned(v, rlist[k := Entry(v.B, v.addrs, v.recs, v.lf, k, n + 1)], n + 1, k + 1)
  {
    ScannedNext(v, rlist, n, k + 1, k);
  }

  /** A record whose header and first data byte lie in block n. */
  lemma FreshEntry(v: View, n: nat, r: nat)
    requires ViewOk(v) && n < |v.addrs| && r < |v.recs|
    requires Off(v.B, n) <= Start(v.recs, r)
    ensures
      var h, end := Start(v.recs, r), Off(v.B, n) + v.B;
      var new_ := Entry(v.B, v.addrs, v.recs, v.lf, r, n + 1);
      if h + HEADER_SIZE < end then
        new_ == RecordEntry(|v.recs[r]|, v.addrs[n] + (h - Off(v.B, n)) + HEADER_SIZE,
                            Min(|v.recs[r]|, end - h - HEADER_SIZE), FileStart(v.recs, v.lf, r), [], n)
      else if h + HEADER_SIZE == end then new_ == NoRecord.(totalLen := |v.recs[r]|)
      else h + 1 == end ==> new_ == NoRecord.(totalLen := |v.recs[r]| / 256 * 256)
  {
    var s := Start(v.recs, r) + HEADER_SIZE;
    if s < Off(v.B, n) + v.B {
      BlockOfUnique(v.B, s, n);
    } else {
      var q := BlockOf(v.B, s);
      if q <= n { OffMono(v.B, q, n); }
    }
  }

  /** One more entry. */
  lemma OneMore(v: View, n: nat, r: nat, rlist: seq<RecordEntry>)
    requires v.B > 0 && n < |v.addrs| && Scanned(v, rlist, n + 1, r) && r < |v.recs|
    ensures Scanned(v, rlist[r := Entry(v.B, v.addrs, v.recs, v.lf, r, n + 1)], n + 1, r + 1)
  {
  }

  /** Leaving block n in the middle of record k, or right behind it. */
  lemma LeaveSpanned(v: View, n: nat, k: nat, rlist: seq<RecordEntry>, state: ScanState, total: nat)
    requires ViewOk(v) && n < |v.addrs| && k < |v.recs| && Scanned(v, rlist, n + 1, k + 1)
    requires Start(v.recs, k) + HEADER_SIZE < Off(v.B, n + 1)
    requires k + 1 < |v.recs| ==> Start(v.recs, k + 1) >= Off(v.B, n + 1)
    requires state in {DataStarted, DataExt} && total == Total(v, k + 1)
    ensures AtBlock(v, n + 1, rlist, state, k, total)
  {
    HiUnique(v.recs, Off(v.B, n + 1), k + 1);
  }

  /** Leaving block n at its end, or behind the last record. */
  lemma LeaveAtHeader(v: View, n: nat, r: nat, rlist: seq<RecordEntry>, state: ScanState, record: int, total: nat)
    requires ViewOk(v) && n < |v.addrs| && AtHeader(v, n, r, rlist, state, record, total)
    requires r == |v.recs| || Start(v.recs, r) == Off(v.B, n) + v.B
    ensures AtBlock(v, n + 1, rlist, state, record, total)
  {
    EncodeLength(v.recs);
    assert r > 0;
    assert RecordOk(v.recs[r - 1]);
    LeaveSpanned(v, n, r - 1, rlist, state, total);
  }

  /** Leaving block n inside or right behind the header of record r. */
  lemma LeaveInHeader(v: View, n: nat, r: nat, rlist: seq<RecordEntry>, state: ScanState, total: nat)
    requires ViewOk(v) && n < |v.addrs| && r < |v.recs| && Scanned(v, rlist, n + 1, r + 1)
    requires Start(v.recs, r) < Off(v.B, n + 1) <= Start(v.recs, r) + HEADER_SIZE
    requires state == if Start(v.recs, r) + 1 == Off(v.B, n + 1) then HeaderStarted else HeaderComplete
    requires total == Total(v, r)
    ensures AtBlock(v, n + 1, rlist, state, r, total)
  {
    assert RecordOk(v.recs[r]);
    HiUnique(v.recs, Off(v.B, n + 1), r + 1);
  }

  /**
    In front of the header of record r, left bytes before the end of block n:
    what becomes of the entry of record r, and where the scan stands then.
  */
  lemma HeaderStep(v: View, n: nat, r: nat, rlist: seq<RecordEntry>, state: ScanState, total: nat, left: nat)
    requires ViewOk(v) && n < |v.addrs| && r < |v.recs| && 3 <= left <= v.B
    requires AtHeader(v, n, r, rlist, state, r - 1, total)
    requires Start(v.recs, r) == Off(v.B, n) + (v.B - left)
    ensures |rlist| == |v.recs| && rlist[r] == NoRecord
    ensures
      var len := Min(|v.recs[r]|, left - 2);
      var start := total + if r > 0 then v.lf else 0;
      var entry := RecordEntry(|v.recs[r]|, v.addrs[n] + (v.B - left) + 2, len, start, [], n);
      && (left - 2 - len > 0 ==>
           && AtHeader(v, n, r + 1, rlist[r := entry], DataStarted, r, start + |v.recs[r]|)
           && Start(v.recs, r + 1) == Off(v.B, n) + (v.B - (left - 2 - len)))
      && (left - 2 - len == 0 ==> AtBlock(v, n + 1, rlist[r := entry], DataStarted, r, start + |v.recs[r]|))
  {
    hide Entry, AtBlock;
    assert v.B > 0;
    hide ViewOk;
    var len := Min(|v.recs[r]|, left - 2);
    var entry := Entry(v.B, v.addrs, v.recs, v.lf, r, n + 1);
    FreshEntry(v, n, r);
    OneMore(v, n, r, rlist);
    if left - 2 - len == 0 {
      LeaveSpanned(v, n, r, rlist[r := entry], DataStarted, Total(v, r + 1));
    }
  }

  /** In front of a header of which at most the two header bytes fit into block n. */
  lemma HeaderAtEnd(v: View, n: nat, r: nat, rlist: seq<RecordEntry>, state: ScanState, total: nat, left: nat)
    requires ViewOk(v) && n < |v.addrs| && r < |v.recs| && 1 <= left <= 2
    requires AtHeader(v, n, r, rlist, state, r - 1, total)
    requires Start(v.recs, r) == Off(v.B, n) + (v.B - left)
    ensures |rlist| == |v.recs| && rlist[r] == NoRecord
    ensures
      var entry := NoRecord.(totalLen := if left == 1 then |v.recs[r]| / 256 * 256 else |v.recs[r]|);
      AtBlock(v, n + 1, rlist[r := entry], if left == 1 then HeaderStarted else HeaderComplete, r, total)
  {
    FreshEntry(v, n, r);
    OneMore(v, n, r, rlist);
    hide Entry;
    LeaveInHeader(v, n, r, rlist[r := Entry(v.B, v.addrs, v.recs, v.lf, r, n + 1)],
                  if left == 1 then HeaderStarted else HeaderComplete, total);
  }

  /** After the last block the index is complete. */
  lemma ScanDone(v: View, rlist: seq<RecordEntry>, state: ScanState, record: int, total: nat)
    requires ViewOk(v)
    requires AtBlock(v, |v.addrs|, rlist, state, record, total)
    ensures rlist == RecordIndex(v.B, v.addrs, v.recs, v.lf)
    ensures record == |v.recs| - 1 && state in {DataStarted, DataExt} && total == Total(v, |v.recs|)
  {
    var n := |v.addrs|;
    EncodeLength(v.recs);
    if |v.recs| > 0 {
      assert RecordOk(v.recs[|v.recs| - 1]);
    }
    HiUnique(v.recs, Off(v.B, n), |v.recs|);
  }

  /** Before the first block nothing is known. */
  lemma ScanStart(v: View, rlist: seq<RecordEntry>)
    requires ViewOk(v) && rlist == seq(|v.recs|, _ => NoRecord)
    ensures AtBlock(v, 0, rlist, DataStarted, -1, 0)
  {
    HiUnique(v.recs, 0, 0);
  }

  /** While blocks are left the scan is at most inside the last record. */
  lemma RecordInRange(v: View, n: nat, rlist: seq<RecordEntry>, state: ScanState, record: int, total: nat)
    requires ViewOk(v) && n < |v.addrs| && AtBlock(v, n, rlist, state, record, total)
    ensures -1 <= record < |v.recs|
  {
  }

  /** A block with a displacement has a record in front of it. */
  lemma NotStray(v: View, n: nat, rlist: seq<RecordEntry>, state: ScanState, record: int, total: nat)
    requires ViewOk(v) && n < |v.addrs| && AtBlock(v, n, rlist, state, record, total)
    ensures Disp(v.B, v.recs, Off(v.B, n)) != 0 ==> record >= 0
  {
    InsideHi(v, n);
  }
}
