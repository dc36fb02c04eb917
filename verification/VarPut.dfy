/**
  What a write puts into a variable file: the records it is meant to make, and
  the records the block by block copying makes of them.
*/
module VarPut {
  import opened Blocks
  import opened VarLayout
  import opened VarAppend

  // ------------------------------------------------------------------
  // What a write stores
  // ------------------------------------------------------------------

  /** Records of the same lengths start at the same places. */
  lemma {:induction false} SameStarts(xs: seq<Record>, ys: seq<Record>, k: nat, lf: nat)
    requires |xs| == |ys| && (forall i :: 0 <= i < |xs| ==> |xs[i]| == |ys[i]|) && k <= |xs|
    ensures Start(xs, k) == Start(ys, k) && FileStart(xs, lf, k) == FileStart(ys, lf, k)
  {
    if k > 0 {
      SameStarts(xs, ys, k - 1, lf);
    }
  }

  /** How far record k of a write at stream position p starts behind the first byte that the write puts on the same block. */
  ghost function Lag(B: nat, p: nat, xs: seq<Record>, k: nat): nat
    requires B > 0 && k <= |xs|
  {
    var h := p + Start(xs, k);
    var o := Off(B, BlockOf(B, h));
    if o < p then h - p else h - o
  }

  /** How many data bytes of record k lie on the block its header starts on. */
  ghost function Front(B: nat, p: nat, xs: seq<Record>, k: nat): (n: nat)
    requires B > 0 && k < |xs|
    ensures n <= |xs[k]|
  {
    var h := p + Start(xs, k);
    var room := Off(B, BlockOf(B, h)) + B - h;
    if room <= HEADER_SIZE then 0 else Min(|xs[k]|, room - HEADER_SIZE)
  }

  /** All records of a write but the last have the greatest length. */
  lemma FullRecords(buf: seq<byte>, k: nat)
    requires k < |Split(buf)|
    ensures FileStart(Split(buf), 0, k) + |Split(buf)[k]| <= |buf|
    ensures k > 0 ==> FileStart(Split(buf), 0, k) == FileStart(Split(buf), 0, k - 1) + MAX_RECORD_LEN
    ensures k > 0 ==> |Split(buf)[k - 1]| == MAX_RECORD_LEN
  {
    SplitAt(buf, k);
    if k > 0 { SplitAt(buf, k - 1); }
  }

  lemma LagBound(B: nat, p: nat, buf: seq<byte>, k: nat)
    requires Blksize(B) && k < |Split(buf)|
    ensures Lag(B, p, Split(buf), k) <= FileStart(Split(buf), 0, k)
  {
    FullRecords(buf, k);
    var xs := Split(buf);
    if k > 0 { assert Start(xs, k) == Start(xs, k - 1) + HEADER_SIZE + MAX_RECORD_LEN; }
  }

  /**
    Record k as a write of buf at stream position p stores it. Every block is
    filled from the place in the buffer that the write had reached in front of
    the block, so a record that starts behind another one on the same block
    begins with bytes from there.
  */
  ghost function PutRecord(B: nat, p: nat, buf: seq<byte>, k: nat): (r: Record)
    requires Blksize(B) && k < |Split(buf)|
    ensures |r| == |Split(buf)[k]|
  {
    LagBound(B, p, buf, k);
    FullRecords(buf, k);
    var xs := Split(buf);
    var n := Front(B, p, xs, k);
    buf[FileStart(xs, 0, k) - Lag(B, p, xs, k)..][..n] + xs[k][n..]
  }

  /** The records that a write of buf at stream position p appends. */
  ghost function Put(B: nat, p: nat, buf: seq<byte>): (ys: seq<Record>)
    requires Blksize(B)
    ensures |ys| == |Split(buf)| && RecordsOk(ys) && forall k :: 0 <= k < |ys| ==> |ys[k]| == |Split(buf)[k]|
  {
    var xs := Split(buf);
    seq(|xs|, k requires 0 <= k < |xs| => PutRecord(B, p, buf, k))
  }

  /** Record k is stored as it was written: the bytes it begins with recur Lag bytes earlier. */
  ghost predicate Recurs(B: nat, p: nat, buf: seq<byte>, k: nat)
    requires Blksize(B) && k < |Split(buf)|
  {
    LagBound(B, p, buf, k);
    FullRecords(buf, k);
    var at, n := FileStart(Split(buf), 0, k), Front(B, p, Split(buf), k);
    buf[at - Lag(B, p, Split(buf), k)..][..n] == buf[at..][..n]
  }

  lemma PutRecordExactly(B: nat, p: nat, buf: seq<byte>, k: nat)
    requires Blksize(B) && k < |Split(buf)|
    ensures PutRecord(B, p, buf, k) == Split(buf)[k] <==> Recurs(B, p, buf, k)
  {
    hide Split, FileStart, Front, Lag;
    LagBound(B, p, buf, k);
    FullRecords(buf, k);
    SplitAt(buf, k);
    var x, n, at := Split(buf)[k], Front(B, p, Split(buf), k), FileStart(Split(buf), 0, k);
    assert x[..n] == buf[at..][..n];
    assert x == x[..n] + x[n..];
    assert PutRecord(B, p, buf, k)[..n] == buf[at - Lag(B, p, Split(buf), k)..][..n];
  }

  /** A write stores the buffer as it is if and only if the first bytes of each record recur. */
  lemma PutExactly(B: nat, p: nat, buf: seq<byte>)
    requires Blksize(B)
    ensures Put(B, p, buf) == Split(buf) <==> forall k :: 0 <= k < |Split(buf)| ==> Recurs(B, p, buf, k)
  {
    hide Recurs, PutRecord, Split;
    var xs, ys := Split(buf), Put(B, p, buf);
    forall k | 0 <= k < |xs| ensures ys[k] == xs[k] <==> Recurs(B, p, buf, k) {
      PutRecordExactly(B, p, buf, k);
    }
    if forall k :: 0 <= k < |xs| ==> Recurs(B, p, buf, k) {
      assert ys == xs;
    }
  }

  /** A write of a single record is stored as it is. */
  lemma PutOne(B: nat, p: nat, buf: seq<byte>)
    requires Blksize(B) && 1 <= |buf| <= MAX_RECORD_LEN
    ensures Put(B, p, buf) == [buf]
  {
    SplitOne(buf);
    PutExactly(B, p, buf);
  }

  /** On a new file with blocks of 512 bytes the last byte of 65536 is replaced by the byte before it. */
  lemma PutExample(buf: seq<byte>)
    requires |buf| == MAX_RECORD_LEN + 1
    ensures Put(512, 0, buf) == [buf[..MAX_RECORD_LEN], [buf[MAX_RECORD_LEN - 1]]]
  {
    var xs, m := Split(buf), MAX_RECORD_LEN;
    SplitOne(buf[m..]);
    assert xs == [buf[..m], buf[m..]];
    assert Start(xs, 1) == Start(xs, 0) + HEADER_SIZE + m && FileStart(xs, 0, 1) == FileStart(xs, 0, 0) + m;
    OffIsProduct(512, 128);
    BlockOfUnique(512, Start(xs, 1), 128);
    PutFirst(512, 0, buf);
    hide Split, Start, FileStart, Off, BlockOf;
    assert Lag(512, 0, xs, 1) == 1 && Front(512, 0, xs, 1) == 1;
    LagBound(512, 0, buf, 1);
    assert PutRecord(512, 0, buf, 1) == buf[m - 1..][..1] + xs[1][1..];
    assert Put(512, 0, buf)[1] == [buf[m - 1]];
  }

  /** The first record of a write is stored as it is. */
  lemma PutFirst(B: nat, p: nat, buf: seq<byte>)
    requires Blksize(B) && buf != []
    ensures Put(B, p, buf)[0] == Split(buf)[0]
  {
    PutRecordExactly(B, p, buf, 0);
  }

  /** A write puts no bytes but its own. */
  lemma PutFrom(B: nat, p: nat, buf: seq<byte>)
    requires Blksize(B)
    ensures forall k, i :: 0 <= k < |Put(B, p, buf)| && 0 <= i < |Put(B, p, buf)[k]| ==> Put(B, p, buf)[k][i] in buf
  {
    hide Split, FileStart, Lag, Front;
    forall k, i | 0 <= k < |Put(B, p, buf)| && 0 <= i < |Put(B, p, buf)[k]| ensures Put(B, p, buf)[k][i] in buf {
      LagBound(B, p, buf, k);
      FullRecords(buf, k);
      SplitAt(buf, k);
    }
  }

  // ------------------------------------------------------------------
  // Writes one after the other
  // ------------------------------------------------------------------

  /** The records of a file of the records recs after the writes bufs. */
  ghost function AfterWrites(B: nat, recs: seq<Record>, bufs: seq<seq<byte>>): (r: seq<Record>)
    requires Blksize(B) && RecordsOk(recs)
    ensures RecordsOk(r)
  {
    if bufs == [] then recs else
      var before := AfterWrites(B, recs, bufs[..|bufs| - 1]);
      before + Put(B, |Encode(before)|, bufs[|bufs| - 1])
  }

  /** The bytes of every write are stored as they are. */
  ghost predicate Faithful(B: nat, recs: seq<Record>, bufs: seq<seq<byte>>)
    requires Blksize(B) && RecordsOk(recs)
  {
    bufs == [] ||
    var before, buf := AfterWrites(B, recs, bufs[..|bufs| - 1]), bufs[|bufs| - 1];
    Faithful(B, recs, bufs[..|bufs| - 1]) && forall k :: 0 <= k < |Split(buf)| ==> Recurs(B, |Encode(before)|, buf, k)
  }

  lemma {:induction false} ConcatAppend(xs: seq<seq<byte>>, ys: seq<seq<byte>>)
    ensures Concat(xs + ys) == Concat(xs) + Concat(ys)
  {
    if ys == [] {
      assert xs + ys == xs;
    } else {
      ConcatAppend(xs, ys[..|ys| - 1]);
      assert (xs + ys)[..|xs + ys| - 1] == xs + ys[..|ys| - 1];
    }
  }

  lemma {:induction false} SplitConcat(buf: seq<byte>)
    ensures Concat(Split(buf)) == buf
  {
    if buf != [] {
      var n := Min(|buf|, MAX_RECORD_LEN);
      SplitConcat(buf[n..]);
      ConcatAppend([buf[..n]], Split(buf[n..]));
      assert [buf[..n]][..0] == [];
    }
  }

  /** Pieces of the same lengths make the same bytes only if they are the same. */
  lemma {:induction false} ConcatSame(xs: seq<seq<byte>>, ys: seq<seq<byte>>)
    requires |xs| == |ys| && forall i :: 0 <= i < |xs| ==> |xs[i]| == |ys[i]|
    ensures |Concat(xs)| == |Concat(ys)| && (Concat(xs) == Concat(ys) <==> xs == ys)
  {
    if xs != [] {
      var n := |xs| - 1;
      var a, b := xs[..n], ys[..n];
      ConcatSame(a, b);
      JoinedSame(Concat(a), xs[n], Concat(b), ys[n]);
      assert xs == a + [xs[n]] && ys == b + [ys[n]];
    }
  }

  /** The file holds what was written if and only if every write is stored as it is. */
  lemma {:induction false} WritesExactly(B: nat, recs: seq<Record>, bufs: seq<seq<byte>>)
    requires Blksize(B) && RecordsOk(recs)
    ensures |Concat(AfterWrites(B, recs, bufs))| == |Concat(recs)| + |Concat(bufs)|
    ensures Concat(AfterWrites(B, recs, bufs)) == Concat(recs) + Concat(bufs) <==> Faithful(B, recs, bufs)
  {
    hide Put, Split, Encode, Recurs, Concat;
    if bufs == [] {
      assert Concat(recs) + Concat(bufs) == Concat(recs) by { assert Concat([]) == [] by { ConcatEmpty(); } }
    } else {
      var n := |bufs| - 1;
      var before, buf := AfterWrites(B, recs, bufs[..n]), bufs[n];
      WritesExactly(B, recs, bufs[..n]);
      PutBytes(B, |Encode(before)|, buf);
      ConcatAppend(before, Put(B, |Encode(before)|, buf));
      ConcatLast(bufs);
      assert Concat(recs) + Concat(bufs) == Concat(recs) + Concat(bufs[..n]) + buf;
      JoinedSame(Concat(before), Concat(Put(B, |Encode(before)|, buf)), Concat(recs) + Concat(bufs[..n]), buf);
    }
  }

  lemma ConcatEmpty()
    ensures Concat([]) == []
  {
  }

  lemma ConcatLast(bufs: seq<seq<byte>>)
    requires bufs != []
    ensures Concat(bufs) == Concat(bufs[..|bufs| - 1]) + bufs[|bufs| - 1]
  {
  }

  lemma JoinedSame(a: seq<byte>, b: seq<byte>, c: seq<byte>, d: seq<byte>)
    requires |a| == |c|
    ensures a + b == c + d <==> a == c && b == d
  {
    if a + b == c + d {
      assert a == (a + b)[..|a|] && b == (a + b)[|a|..] && c == (c + d)[..|a|] && d == (c + d)[|a|..];
    }
  }

  /** The bytes of the records that a write puts. */
  lemma PutBytes(B: nat, p: nat, buf: seq<byte>)
    requires Blksize(B)
    ensures |Concat(Put(B, p, buf))| == |buf|
    ensures Concat(Put(B, p, buf)) == buf <==> forall k :: 0 <= k < |Split(buf)| ==> Recurs(B, p, buf, k)
  {
    hide Put, Split, Recurs, Concat;
    ConcatSame(Split(buf), Put(B, p, buf));
    SplitConcat(buf);
    PutExactly(B, p, buf);
  }

  /** Writes that make one record each are stored as they are. */
  lemma {:induction false} ShortWrites(B: nat, recs: seq<Record>, bufs: seq<seq<byte>>)
    requires Blksize(B) && RecordsOk(recs) && forall i :: 0 <= i < |bufs| ==> |bufs[i]| <= MAX_RECORD_LEN
    ensures Faithful(B, recs, bufs)
  {
    hide Put, Encode;
    if bufs != [] {
      var n := |bufs| - 1;
      var before, buf := AfterWrites(B, recs, bufs[..n]), bufs[n];
      ShortWrites(B, recs, bufs[..n]);
      if buf != [] {
        PutOne(B, |Encode(before)|, buf);
        SplitOne(buf);
        PutExactly(B, |Encode(before)|, buf);
      }
    }
  }

  // ------------------------------------------------------------------
  // The blocks of a write
  // ------------------------------------------------------------------

  /** A write of the bytes whole at stream position p, and the records ys it makes. */
  datatype Task = Task(B: nat, p: nat, whole: seq<byte>, ys: seq<Record>)

  ghost predicate TaskOk(t: Task) {
    Blksize(t.B) && t.ys == Put(t.B, t.p, t.whole)
  }

  /** The lengths of the records of a write. */
  lemma TaskRecord(t: Task, k: nat)
    requires TaskOk(t) && k <= |t.ys|
    ensures |t.ys| == |Split(t.whole)| && RecordsOk(t.ys)
    ensures
      var at := FileStart(t.ys, 0, k);
      && at <= |t.whole| && (at == |t.whole| <==> k == |t.ys|)
      && (k < |t.ys| ==> |t.ys[k]| == Min(|t.whole| - at, MAX_RECORD_LEN) && at + |t.ys[k]| <= |t.whole|)
  {
    hide Split, PutRecord, FileStart;
    SplitAt(t.whole, k);
    SameStarts(Split(t.whole), t.ys, k, 0);
  }

  /**
    The part of a write that goes to one block: the stream ends off bytes into
    block i, and the write has come to byte d of record k.
  */
  datatype Job = Job(t: Task, i: nat, off: nat, k: nat, d: nat)

  ghost predicate JobOk(j: Job) {
    && TaskOk(j.t) && j.off < j.t.B && j.k < |j.t.ys| && Place(j.t.ys, j.k, j.d)
    && j.t.p + At(j.t.ys, j.k, j.d) == Off(j.t.B, j.i) + j.off
    && (j.off == 0 || (j.k == 0 && j.d == 0))
  }

  /** What the write has left in front of the block; all data of the block is taken from here. */
  ghost predicate Feeds(buf: seq<byte>, t: Task, k: nat, d: nat) {
    k <= |t.ys| && Taken(t.ys, k, d) <= |t.whole| && buf == t.whole[Taken(t.ys, k, d)..]
  }

  /** The place in front of the block, told with the lengths of the records. */
  lemma JobFacts(j: Job)
    requires JobOk(j)
    ensures
      var xs, ys := Split(j.t.whole), j.t.ys;
      && j.t.p + Start(xs, j.k) + j.d == Off(j.t.B, j.i) + j.off && |ys[j.k]| == |xs[j.k]| && j.d < HEADER_SIZE + |xs[j.k]|
      && Taken(ys, j.k, j.d) == FileStart(xs, 0, j.k) + DataPart(j.d)
      && At(ys, j.k, j.d) == Start(xs, j.k) + j.d
  {
    hide Split, Start, FileStart, Off, Put;
    SameStarts(Split(j.t.whole), j.t.ys, j.k, 0);
  }

  /** The record at hand in front of the block goes on with the next bytes of the buffer. */
  lemma FirstFeed(j: Job, buf: seq<byte>, n: nat)
    requires JobOk(j) && Feeds(buf, j.t, j.k, j.d) && DataPart(j.d) + n <= |j.t.ys[j.k]|
    ensures n <= |buf| && buf[..n] == j.t.ys[j.k][DataPart(j.d)..][..n]
  {
    hide Split, Start, FileStart, Off, BlockOf, Lag, Front, Recurs;
    JobFacts(j);
    FullRecords(j.t.whole, j.k);
    SplitAt(j.t.whole, j.k);
    GoesOn(j);
    RestSlice(j.t.whole, FileStart(Split(j.t.whole), 0, j.k), Split(j.t.whole)[j.k], j.t.ys[j.k], DataPart(j.d), n);
  }

  lemma RestSlice(s: seq<byte>, at: nat, x: seq<byte>, y: seq<byte>, m: nat, n: nat)
    requires at + |x| <= |s| && x == s[at..][..|x|] && m + n <= |x| == |y| && y[m..] == x[m..]
    ensures s[at + m..][..n] == y[m..][..n]
  {
    var l, r := s[at + m..][..n], x[m..][..n];
    forall i | 0 <= i < n ensures l[i] == r[i] {
    }
    assert l == r;
  }

  lemma GoesOn(j: Job)
    requires JobOk(j)
    ensures DataPart(j.d) <= |Split(j.t.whole)[j.k]|
    ensures j.t.ys[j.k][DataPart(j.d)..] == Split(j.t.whole)[j.k][DataPart(j.d)..]
  {
    hide Split, Start, FileStart, Off, BlockOf, Lag, Front;
    JobFacts(j);
    LagBound(j.t.B, j.t.p, j.t.whole, j.k);
    FullRecords(j.t.whole, j.k);
    PutRecordExactly(j.t.B, j.t.p, j.t.whole, j.k);
    FrontPassed(j);
  }

  /** A record that goes on in the block has passed the part on the block of its header. */
  lemma FrontPassed(j: Job)
    requires JobOk(j)
    ensures Lag(j.t.B, j.t.p, Split(j.t.whole), j.k) == 0 || Front(j.t.B, j.t.p, Split(j.t.whole), j.k) <= DataPart(j.d)
  {
    JobFacts(j);
    hide Split, Start, FileStart, Off, Put, JobOk, BlockOf;
    var h := j.t.p + Start(Split(j.t.whole), j.k);
    var b := BlockOf(j.t.B, h);
    if j.d == 0 {
      BlockOfUnique(j.t.B, h, j.i);
    } else if b < j.i {
      OffMono(j.t.B, b, j.i);
    } else {
      OffMono(j.t.B, j.i, b);
    }
  }

  /** A record that starts behind the one at hand begins with the same bytes of the buffer. */
  lemma SecondFeed(j: Job, buf: seq<byte>, n: nat)
    requires JobOk(j) && Feeds(buf, j.t, j.k, j.d) && j.k + 1 < |j.t.ys|
    requires
      var ys := j.t.ys;
      n <= |ys[j.k + 1]| && At(ys, j.k + 1, 0) - At(ys, j.k, j.d) + HEADER_SIZE + n <= j.t.B - j.off
    ensures n <= |buf| && buf[..n] == j.t.ys[j.k + 1][..n]
  {
    hide Split, Start, FileStart, Off, BlockOf, Lag, Front;
    var xs, ys, k := Split(j.t.whole), j.t.ys, j.k + 1;
    JobFacts(j);
    FullRecords(j.t.whole, k);
    LagBound(j.t.B, j.t.p, j.t.whole, k);
    SecondLag(j, n);
    var t, m := Taken(ys, j.k, j.d), Front(j.t.B, j.t.p, xs, k);
    assert ys[k] == j.t.whole[t..][..m] + xs[k][m..];
    assert j.t.whole[t..][..n] == j.t.whole[t..][..m][..n];
  }

  lemma SecondLag(j: Job, n: nat)
    requires JobOk(j) && j.k + 1 < |j.t.ys|
    requires
      var ys := j.t.ys;
      n <= |ys[j.k + 1]| && At(ys, j.k + 1, 0) - At(ys, j.k, j.d) + HEADER_SIZE + n <= j.t.B - j.off
    ensures
      var xs, ys := Split(j.t.whole), j.t.ys;
      && FileStart(xs, 0, j.k + 1) - Lag(j.t.B, j.t.p, xs, j.k + 1) == Taken(ys, j.k, j.d)
      && n <= Front(j.t.B, j.t.p, xs, j.k + 1)
  {
    hide Split, FileStart, Off, BlockOf, Put;
    var xs, ys, k := Split(j.t.whole), j.t.ys, j.k + 1;
    JobFacts(j);
    FullRecords(j.t.whole, k);
    SameStarts(xs, ys, k, 0);
    assert Start(xs, k) == Start(xs, j.k) + HEADER_SIZE + MAX_RECORD_LEN;
    hide Start;
    BlockOfUnique(j.t.B, j.t.p + Start(xs, k), j.i);
  }

  /** No block takes the end of a record, a whole record and the start of a third one. */
  lemma NoThird(j: Job)
    requires JobOk(j) && j.k + 2 < |j.t.ys|
    ensures var ys := j.t.ys; At(ys, j.k + 2, 0) - At(ys, j.k, j.d) > j.t.B
  {
    hide Split, FileStart, Off, BlockOf, Put;
    var ys, k := j.t.ys, j.k;
    FullRecords(j.t.whole, k + 2);
    assert Start(ys, k + 2) == Start(ys, k + 1) + HEADER_SIZE + |ys[k + 1]|;
    assert Start(ys, k + 1) == Start(ys, k) + HEADER_SIZE + |ys[k]|;
  }

  /** The first record of a write is the longest. */
  lemma LongestPut(B: nat, p: nat, buf: seq<byte>)
    requires Blksize(B) && buf != []
    ensures Longest(Put(B, p, buf)) == Min(|buf|, MAX_RECORD_LEN)
  {
    hide Longest;
    var ys, n := Put(B, p, buf), Min(|buf|, MAX_RECORD_LEN);
    LongestIs(ys);
    assert |ys[0]| == |Split(buf)[0]| == n;
    forall k | 0 <= k < |ys| ensures |ys[k]| <= n {
      SplitAt(buf, k);
    }
  }
}
