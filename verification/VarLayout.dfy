/**
  What a variable-format file is supposed to look like: the byte stream its
  records form, and the record and block index that describes this stream.
  Everything here is a function of the records, the block size and the
  addresses of the data blocks.
*/
module VarLayout {
  import opened Blocks

  /** Displacement of a block that is completely covered by one record. */
  const SPANNED: nat := 0xffffffff
  const MAX_RECORD_LEN: nat := 0xffff
  const HEADER_SIZE: nat := 2

  type Record = seq<byte>

  ghost predicate RecordOk(r: Record) {
    1 <= |r| <= MAX_RECORD_LEN
  }

  ghost predicate RecordsOk(recs: seq<Record>) {
    forall k :: 0 <= k < |recs| ==> RecordOk(recs[k])
  }

  /** Two byte big endian length. */
  function Header(n: nat): (h: seq<byte>)
    requires n <= MAX_RECORD_LEN
    ensures |h| == HEADER_SIZE
  {
    [n / 256, n % 256]
  }

  ghost function Encode(recs: seq<Record>): seq<byte>
    requires RecordsOk(recs)
  {
    if recs == [] then [] else
      var last := recs[|recs| - 1];
      Encode(recs[..|recs| - 1]) + (Header(|last|) + last)
  }

  /** Stream position of the header of record k. */
  ghost function Start(recs: seq<Record>, k: nat): nat
    requires k <= |recs|
  {
    if k == 0 then 0 else Start(recs, k - 1) + HEADER_SIZE + |recs[k - 1]|
  }

  /** Offset of record k in the file as a reader sees it; lf is 1 if every record ends with a virtual linefeed. */
  ghost function FileStart(recs: seq<Record>, lf: nat, k: nat): nat
    requires k <= |recs|
  {
    if k == 0 then 0 else FileStart(recs, lf, k - 1) + |recs[k - 1]| + lf
  }

  /** Number of records whose header starts below stream position p, among the first m. */
  ghost function Begun(recs: seq<Record>, p: nat, m: nat): (r: nat)
    requires m <= |recs|
    ensures r <= m
    ensures r > 0 ==> Start(recs, r - 1) < p
    ensures r < m ==> Start(recs, r) >= p
  {
    if m == 0 then 0
    else if Start(recs, m - 1) < p then m
    else Begun(recs, p, m - 1)
  }

  ghost function Hi(recs: seq<Record>, p: nat): nat {
    Begun(recs, p, |recs|)
  }

  /** Displacement of the block that starts at stream position p: the distance to the next record header. */
  ghost function Disp(B: nat, recs: seq<Record>, p: nat): nat {
    var e := Start(recs, Hi(recs, p));
    if e < p then 0 else if e - p < B then e - p else SPANNED
  }

  datatype Ext = Ext(diskStart: nat, len: int, blockNr: nat)

  datatype RecordEntry = RecordEntry(totalLen: nat, diskStart: nat, firstBlockLen: int,
                                     fileStart: nat, ext: seq<Ext>, blockNr: nat)

  datatype BlockEntry = BlockEntry(diskAddr: nat, disp: nat, hiRecordNr: int)

  const NoRecord: RecordEntry := RecordEntry(0, 0, 0, 0, [], 0)
  const NoBlock: BlockEntry := BlockEntry(0, 0, 0)

  /** Extensions that the data [s, e) has in the blocks below n. */
  ghost function Exts(B: nat, addrs: seq<nat>, s: nat, e: nat, n: nat): seq<Ext>
    requires n <= |addrs|
  {
    if n == 0 || Off(B, n - 1) <= s then [] else
      Exts(B, addrs, s, e, n - 1) +
      if Off(B, n - 1) < e then [Ext(addrs[n - 1], Min(B, e - Off(B, n - 1)), n - 1)] else []
  }

  /** Index entry of record k as far as the blocks below n tell. */
  ghost function Entry(B: nat, addrs: seq<nat>, recs: seq<Record>, lf: nat, k: nat, n: nat): RecordEntry
    requires B > 0 && k < |recs| && n <= |addrs|
  {
    var h, s, e := Start(recs, k), Start(recs, k) + HEADER_SIZE, Start(recs, k + 1);
    var q := BlockOf(B, s);
    if q < n then
      RecordEntry(|recs[k]|, addrs[q] + (s - Off(B, q)), Min(e, Off(B, q) + B) - s,
                  FileStart(recs, lf, k), Exts(B, addrs, s, e, n), q)
    else if s <= Off(B, n) then NoRecord.(totalLen := |recs[k]|)
    else if h < Off(B, n) then NoRecord.(totalLen := |recs[k]| / 256 * 256)
    else NoRecord
  }

  /** The complete record index. */
  ghost function RecordIndex(B: nat, addrs: seq<nat>, recs: seq<Record>, lf: nat): seq<RecordEntry>
    requires B > 0
  {
    seq(|recs|, k requires 0 <= k < |recs| => Entry(B, addrs, recs, lf, k, |addrs|))
  }

  ghost function BlockAt(B: nat, addrs: seq<nat>, recs: seq<Record>, i: nat): BlockEntry
    requires i < |addrs|
  {
    BlockEntry(addrs[i], Disp(B, recs, Off(B, i)), Hi(recs, Off(B, i + 1)))
  }

  /** The complete block index. */
  ghost function BlockIndex(B: nat, addrs: seq<nat>, recs: seq<Record>): seq<BlockEntry> {
    seq(|addrs|, i requires 0 <= i < |addrs| => BlockAt(B, addrs, recs, i))
  }

  /** The blocks at addrs hold the stream, zero padded. */
  ghost predicate Stored(B: nat, disk: map<nat, seq<byte>>, addrs: seq<nat>, data: seq<byte>) {
    forall i :: 0 <= i < |addrs| ==> addrs[i] in disk && disk[addrs[i]] == Image(B, data, i)
  }

  /** Data block addresses: aligned, never the null block, each used once. */
  ghost predicate AddrsOk(B: nat, addrs: seq<nat>)
    requires B > 0
  {
    && (forall i :: 0 <= i < |addrs| ==> addrs[i] > 0 && addrs[i] % B == 0)
    && (forall i, j :: 0 <= i < j < |addrs| ==> addrs[i] != addrs[j])
  }

  /** The stream of length len needs exactly n blocks. */
  ghost predicate Fits(B: nat, n: nat, len: nat) {
    len <= Off(B, n) && (n == 0 || Off(B, n - 1) < len)
  }

  // ------------------------------------------------------------------
  // Lemmas about the stream
  // ------------------------------------------------------------------

  lemma {:induction false} StartMono(recs: seq<Record>, i: nat, j: nat)
    requires i <= j <= |recs|
    ensures Start(recs, i) <= Start(recs, j)
    ensures i < j ==> Start(recs, i) + HEADER_SIZE + |recs[i]| <= Start(recs, j)
    decreases j
  {
    if i < j {
      StartMono(recs, i, j - 1);
    }
  }

  lemma {:induction false} StartAppend(recs: seq<Record>, xs: seq<Record>, k: nat, lf: nat)
    requires k <= |recs|
    ensures Start(recs + xs, k) == Start(recs, k)
    ensures FileStart(recs + xs, lf, k) == FileStart(recs, lf, k)
  {
    if k > 0 {
      StartAppend(recs, xs, k - 1, lf);
    }
  }

  lemma {:induction false} EncodeLength(recs: seq<Record>)
    requires RecordsOk(recs)
    ensures |Encode(recs)| == Start(recs, |recs|)
  {
    if recs != [] {
      var init, last := recs[..|recs| - 1], recs[|recs| - 1];
      EncodeLength(init);
      assert recs == init + [last];
      StartAppend(init, [last], |init|, 0);
    }
  }

  /** The records behind recs start where recs end. */
  lemma {:induction false} StartBehind(recs: seq<Record>, xs: seq<Record>, k: nat, lf: nat)
    requires k <= |xs|
    ensures Start(recs + xs, |recs| + k) == Start(recs, |recs|) + Start(xs, k)
    ensures FileStart(recs + xs, lf, |recs| + k) == FileStart(recs, lf, |recs|) + FileStart(xs, lf, k)
  {
    if k == 0 {
      StartAppend(recs, xs, |recs|, lf);
    } else {
      StartBehind(recs, xs, k - 1, lf);
    }
  }

  /** The stream of a longer file is the old one followed by that of the new records. */
  lemma {:induction false} EncodeAppend(recs: seq<Record>, xs: seq<Record>)
    requires RecordsOk(recs) && RecordsOk(xs)
    ensures RecordsOk(recs + xs) && Encode(recs + xs) == Encode(recs) + Encode(xs)
  {
    if xs == [] {
      assert recs + xs == recs;
    } else {
      var init, last := xs[..|xs| - 1], xs[|xs| - 1];
      EncodeAppend(recs, init);
      assert (recs + xs)[..|recs + xs| - 1] == recs + init;
      assert RecordOk(last);
      assert Encode(recs) + Encode(init) + (Header(|last|) + last) == Encode(recs) + (Encode(init) + (Header(|last|) + last));
    }
  }

  /** Record k lies in the stream as its header followed by its bytes. */
  lemma {:induction false} EncodeAt(recs: seq<Record>, k: nat)
    requires RecordsOk(recs) && k < |recs|
    ensures Start(recs, k + 1) <= |Encode(recs)|
    ensures Encode(recs)[Start(recs, k)..Start(recs, k + 1)] == Header(|recs[k]|) + recs[k]
  {
    var init, last := recs[..|recs| - 1], recs[|recs| - 1];
    assert recs == init + [last];
    EncodeLength(init);
    StartBehind(init, [last], 1, 0);
    StartAppend(init, [last], |init|, 0);
    if k < |init| {
      EncodeAt(init, k);
      StartAppend(init, [last], k, 0);
      StartAppend(init, [last], k + 1, 0);
      assert Encode(recs)[Start(recs, k)..Start(recs, k + 1)]
          == Encode(init)[Start(recs, k)..Start(recs, k + 1)];
    }
  }

  lemma HeaderBytes(recs: seq<Record>, k: nat)
    requires RecordsOk(recs) && k < |recs|
    ensures ByteAt(Encode(recs), Start(recs, k)) == |recs[k]| / 256
    ensures ByteAt(Encode(recs), Start(recs, k) + 1) == |recs[k]| % 256
  {
    EncodeAt(recs, k);
    var h := Start(recs, k);
    var part := Encode(recs)[h..Start(recs, k + 1)];
    assert part[0] == Encode(recs)[h] && part[1] == Encode(recs)[h + 1];
  }

  lemma HiUnique(recs: seq<Record>, p: nat, r: nat)
    requires r <= |recs|
    requires r > 0 ==> Start(recs, r - 1) < p
    requires r < |recs| ==> Start(recs, r) >= p
    ensures Hi(recs, p) == r
  {
    var h := Hi(recs, p);
    if h < r {
      StartMono(recs, h, r - 1);
    } else if r < h {
      StartMono(recs, r, h - 1);
    }
  }

  // ------------------------------------------------------------------
  // The records of a write
  // ------------------------------------------------------------------

  /** A write is cut into records of the greatest length; the last one takes what is left. */
  function Split(buf: seq<byte>): (xs: seq<Record>)
    ensures RecordsOk(xs)
    ensures buf != [] ==> |xs| > 0
  {
    if buf == [] then [] else
      var n := Min(|buf|, MAX_RECORD_LEN);
      [buf[..n]] + Split(buf[n..])
  }

  /** Record k of a write holds the bytes behind those of the records before it, as many as fit. */
  lemma {:induction false} SplitAt(buf: seq<byte>, k: nat)
    requires k <= |Split(buf)|
    ensures
      var at := FileStart(Split(buf), 0, k);
      && at <= |buf| && (at == |buf| <==> k == |Split(buf)|)
      && (k < |Split(buf)| ==> Split(buf)[k] == buf[at..][..Min(|buf| - at, MAX_RECORD_LEN)])
  {
    if buf != [] && k > 0 {
      var n := Min(|buf|, MAX_RECORD_LEN);
      var head, tail := [buf[..n]], Split(buf[n..]);
      SplitAt(buf[n..], k - 1);
      StartBehind(head, tail, k - 1, 0);
      var at := FileStart(tail, 0, k - 1);
      assert buf[n..][at..] == buf[n + at..];
      assert FileStart(head, 0, 1) == FileStart(head, 0, 0) + n;
    }
  }

  /** The number of records of a write: its size divided by the record length, rounded up. */
  lemma {:induction false} SplitCount(buf: seq<byte>)
    requires buf != []
    ensures |Split(buf)| == CeilDiv(Min(|buf|, MAX_RECORD_LEN), |buf|)
  {
    if |buf| <= MAX_RECORD_LEN {
      SplitOne(buf);
    } else {
      var rest := buf[MAX_RECORD_LEN..];
      SplitCount(rest);
      if |rest| <= MAX_RECORD_LEN { SplitOne(rest); }
    }
  }

  lemma SplitOne(buf: seq<byte>)
    requires 1 <= |buf| <= MAX_RECORD_LEN
    ensures Split(buf) == [buf]
  {
    assert buf[..|buf|] == buf && buf[|buf|..] == [];
  }

  // ------------------------------------------------------------------
  // Lemmas about the index
  // ------------------------------------------------------------------

  /** Once the data has ended, further blocks add no extension. */
  lemma {:induction false} ExtsStable(B: nat, addrs: seq<nat>, s: nat, e: nat, n: nat, m: nat)
    requires n <= m <= |addrs| && s <= e <= Off(B, n)
    ensures Exts(B, addrs, s, e, m) == Exts(B, addrs, s, e, n)
    decreases m
  {
    if n < m {
      ExtsStable(B, addrs, s, e, n, m - 1);
      OffMono(B, n, m - 1);
      if Off(B, m - 1) <= s {
        assert Exts(B, addrs, s, e, n) == [] by {
          OffMono(B, n, m - 1);
          if n > 0 { OffMono(B, n - 1, n); }
        }
      }
    }
  }

  lemma EntryStable(B: nat, addrs: seq<nat>, recs: seq<Record>, lf: nat, k: nat, n: nat, m: nat)
    requires Blksize(B) && RecordsOk(recs) && k < |recs| && n <= m <= |addrs|
    requires Start(recs, k + 1) <= Off(B, n)
    ensures Entry(B, addrs, recs, lf, k, m) == Entry(B, addrs, recs, lf, k, n)
  {
    var s := Start(recs, k) + HEADER_SIZE;
    var q := BlockOf(B, s);
    assert RecordOk(recs[k]);
    if q >= n {
      OffMono(B, n, q);
      assert false;
    }
    ExtsStable(B, addrs, s, Start(recs, k + 1), n, m);
  }

  /** More blocks and a longer address list do not change what the first n blocks say. */
  lemma {:induction false} ExtsPrefix(B: nat, addrs: seq<nat>, more: seq<nat>, s: nat, e: nat, n: nat)
    requires n <= |addrs|
    ensures Exts(B, addrs + more, s, e, n) == Exts(B, addrs, s, e, n)
  {
    if n > 0 {
      ExtsPrefix(B, addrs, more, s, e, n - 1);
    }
  }

  lemma EntryPrefix(B: nat, addrs: seq<nat>, more: seq<nat>, recs: seq<Record>, xs: seq<Record>, lf: nat, k: nat)
    requires Blksize(B) && k < |recs|
    ensures Entry(B, addrs + more, recs + xs, lf, k, |addrs|) == Entry(B, addrs, recs, lf, k, |addrs|)
  {
    StartAppend(recs, xs, k, lf);
    StartAppend(recs, xs, k + 1, lf);
    ExtsPrefix(B, addrs, more, Start(recs, k) + HEADER_SIZE, Start(recs, k + 1), |addrs|);
  }

  /** Appending records does not change the entries of the records before it. */
  lemma EntryAppend(B: nat, addrs: seq<nat>, more: seq<nat>, recs: seq<Record>, xs: seq<Record>, lf: nat, k: nat)
    requires Blksize(B) && RecordsOk(recs) && RecordsOk(xs) && k < |recs|
    requires Start(recs, |recs|) <= Off(B, |addrs|)
    ensures Entry(B, addrs + more, recs + xs, lf, k, |addrs + more|) == Entry(B, addrs, recs, lf, k, |addrs|)
  {
    hide Entry, Start, FileStart, Exts, Off;
    StartAppend(recs, xs, k + 1, lf);
    StartMono(recs, k + 1, |recs|);
    assert RecordsOk(recs + xs);
    EntryStable(B, addrs + more, recs + xs, lf, k, |addrs|, |addrs + more|);
    EntryPrefix(B, addrs, more, recs, xs, lf, k);
  }

  /** Appending records does not change the displacement of a block that already holds data. */
  lemma DispAppend(B: nat, recs: seq<Record>, xs: seq<Record>, p: nat)
    requires p < Start(recs, |recs|)
    ensures Disp(B, recs + xs, p) == Disp(B, recs, p)
    ensures Hi(recs + xs, p) == Hi(recs, p)
  {
    var r := Hi(recs, p);
    StartAppend(recs, xs, r, 0);
    if r > 0 { StartAppend(recs, xs, r - 1, 0); }
    StartAppend(recs, xs, |recs|, 0);
    HiUnique(recs + xs, p, r);
  }
}
