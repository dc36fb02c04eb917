/**
  Reading a variable file back: the record index leads to exactly the bytes
  that were appended.
*/
module VarReads {
  import opened Blocks
  import opened VarLayout
  import opened VarScan
  import opened VarAppend
  import opened VarPut
  import opened PointerStore
  import opened VarFiles
  import opened ReadPath
  import opened FileReader

  lemma ConvertConcat(m: Mode, s: seq<byte>, t: seq<byte>)
    ensures Convert(m, s + t) == Convert(m, s) + Convert(m, t)
  {
  }

  lemma ConvertLength(m: Mode, s: seq<byte>)
    ensures |Convert(m, s)| == |s|
  {
  }

  /** A piece of data block i holds the bytes of the stream at that place. */
  lemma PieceRead(m: Mode, disk: map<nat, seq<byte>>, addrs: seq<nat>, all: seq<byte>, i: nat, o: nat, len: nat)
    requires m.B > 0 && AddrsOk(m.B, addrs) && Stored(m.B, disk, addrs, all) && i < |addrs|
    requires len > 0 && o + len <= m.B && Off(m.B, i) + o + len <= |all|
    ensures PieceOk(m, disk, addrs[i] + o, len)
    ensures Piece(m, disk, addrs[i] + o, len) == Convert(m, all[Off(m.B, i) + o..Off(m.B, i) + o + len])
  {
    BaseOf(m.B, addrs[i], o);
    var block := disk[addrs[i]];
    assert block[o..o + len] == all[Off(m.B, i) + o..Off(m.B, i) + o + len];
  }

  /** The stream from block q + 1 on, up to e and to block n. */
  ghost function Behind(B: nat, all: seq<byte>, e: nat, q: nat, n: nat): seq<byte>
    requires q < n && e <= |all|
  {
    OffMono(B, q + 1, n);
    all[Min(e, Off(B, q + 1))..Min(e, Off(B, n))]
  }

  lemma BehindStep(m: Mode, all: seq<byte>, e: nat, q: nat, n: nat)
    requires q < n && e <= |all|
    ensures Off(m.B, n) < e ==>
      var p, len := Off(m.B, n), Min(m.B, e - Off(m.B, n));
      Convert(m, Behind(m.B, all, e, q, n + 1)) == Convert(m, Behind(m.B, all, e, q, n)) + Convert(m, all[p..p + len])
    ensures Off(m.B, n) >= e ==> Behind(m.B, all, e, q, n + 1) == Behind(m.B, all, e, q, n)
  {
    hide Convert;
    OffMono(m.B, q + 1, n);
    var lo, p := Min(e, Off(m.B, q + 1)), Off(m.B, n);
    if p < e {
      var len := Min(m.B, e - p);
      ConvertConcat(m, all[lo..p], all[p..p + len]);
      SlicesJoin(all, lo, p, p + len);
    }
  }

  lemma ExtsNext(B: nat, addrs: seq<nat>, s: nat, e: nat, q: nat, n: nat)
    requires q < n <= |addrs| && Off(B, q) <= s < Off(B, q) + B
    ensures n == q + 1 ==> Exts(B, addrs, s, e, n) == []
    ensures n > q + 1 && Off(B, n - 1) >= e ==> Exts(B, addrs, s, e, n) == Exts(B, addrs, s, e, n - 1)
    ensures n > q + 1 && Off(B, n - 1) < e ==>
      Exts(B, addrs, s, e, n) == Exts(B, addrs, s, e, n - 1) + [Ext(addrs[n - 1], Min(B, e - Off(B, n - 1)), n - 1)]
  {
    if n > q + 1 {
      OffMono(B, q + 1, n - 1);
    }
  }

  /** The extensions of the data [s, e) hold its bytes behind block q, up to block n. */
  lemma {:induction false} ExtsRead(m: Mode, disk: map<nat, seq<byte>>, addrs: seq<nat>, all: seq<byte>, s: nat, e: nat, q: nat, n: nat)
    requires m.B > 0 && AddrsOk(m.B, addrs) && Stored(m.B, disk, addrs, all)
    requires q < n <= |addrs| && Off(m.B, q) <= s < Off(m.B, q) + m.B && s < e <= |all|
    ensures ExtsOk(m, disk, Exts(m.B, addrs, s, e, n))
    ensures ExtBytes(m, disk, Exts(m.B, addrs, s, e, n)) == Convert(m, Behind(m.B, all, e, q, n))
    decreases n
  {
    hide Stored, AddrsOk, PieceOk, Piece, Convert, Exts, ExtsOk, ExtBytes, Behind;
    ExtsNext(m.B, addrs, s, e, q, n);
    if n == q + 1 {
      NoExts(m, disk, all, e, q);
    } else {
      ExtsRead(m, disk, addrs, all, s, e, q, n - 1);
      BehindStep(m, all, e, q, n - 1);
      var p := Off(m.B, n - 1);
      if p < e {
        var len := Min(m.B, e - p);
        PieceRead(m, disk, addrs, all, n - 1, 0, len);
        ExtsAppend(m, disk, Exts(m.B, addrs, s, e, n - 1), Ext(addrs[n - 1], len, n - 1));
      }
    }
  }

  lemma NoExts(m: Mode, disk: map<nat, seq<byte>>, all: seq<byte>, e: nat, q: nat)
    requires m.B > 0 && e <= |all|
    ensures ExtsOk(m, disk, []) && ExtBytes(m, disk, []) == Convert(m, Behind(m.B, all, e, q, q + 1))
  {
  }

  lemma ExtsAppend(m: Mode, disk: map<nat, seq<byte>>, x: seq<Ext>, y: Ext)
    requires m.B > 0 && ExtsOk(m, disk, x) && PieceOk(m, disk, y.diskStart, y.len)
    ensures ExtsOk(m, disk, x + [y])
    ensures ExtBytes(m, disk, x + [y]) == ExtBytes(m, disk, x) + Piece(m, disk, y.diskStart, y.len)
  {
    assert (x + [y])[..|x|] == x;
  }

  /** Record k as a slice of the stream. */
  lemma RecordSlice(recs: seq<Record>, k: nat)
    requires RecordsOk(recs) && k < |recs|
    ensures Start(recs, k + 1) <= |Encode(recs)|
    ensures Encode(recs)[Start(recs, k) + HEADER_SIZE..Start(recs, k + 1)] == recs[k]
  {
    EncodeAt(recs, k);
    var all, h, e := Encode(recs), Start(recs, k), Start(recs, k + 1);
    SubSlice(all, h, e, HEADER_SIZE, e - h - HEADER_SIZE);
    assert (Header(|recs[k]|) + recs[k])[HEADER_SIZE..HEADER_SIZE + (e - h - HEADER_SIZE)] == recs[k];
  }

  /** The bytes of data [s, e) that starts in block q, collected from that block and the extensions. */
  lemma DataReads(m: Mode, disk: map<nat, seq<byte>>, addrs: seq<nat>, all: seq<byte>, s: nat, e: nat, q: nat)
    requires m.B > 0 && AddrsOk(m.B, addrs) && Stored(m.B, disk, addrs, all)
    requires q < |addrs| && Off(m.B, q) <= s < Off(m.B, q) + m.B && s < e <= |all| <= Off(m.B, |addrs|)
    ensures
      var a, len, x := addrs[q] + (s - Off(m.B, q)), Min(e, Off(m.B, q) + m.B) - s, Exts(m.B, addrs, s, e, |addrs|);
      && PieceOk(m, disk, a, len) && ExtsOk(m, disk, x)
      && Piece(m, disk, a, len) + ExtBytes(m, disk, x) == Convert(m, all[s..e])
  {
    hide Stored, AddrsOk, PieceOk, Piece, Convert, Exts, ExtsOk, ExtBytes;
    var mid := Min(e, Off(m.B, q) + m.B);
    PieceRead(m, disk, addrs, all, q, s - Off(m.B, q), mid - s);
    ExtsRead(m, disk, addrs, all, s, e, q, |addrs|);
    ConvertConcat(m, all[s..mid], all[mid..e]);
    assert all[s..mid] + all[mid..e] == all[s..e];
    assert Behind(m.B, all, e, q, |addrs|) == all[mid..e];
  }

  /** The index entry of record k leads to the bytes of record k. */
  lemma EntryReads(m: Mode, v: View, disk: map<nat, seq<byte>>, k: nat)
    requires ViewOk(v) && m.B == v.B && Stored(v.B, disk, v.addrs, Encode(v.recs)) && k < |v.recs|
    ensures
      var r := Entry(v.B, v.addrs, v.recs, v.lf, k, |v.addrs|);
      && ReadPath.EntryOk(m, disk, r) && r.totalLen == |v.recs[k]| && r.fileStart == FileStart(v.recs, v.lf, k)
      && RecordBytes(m, disk, r) == Convert(m, v.recs[k])
  {
    hide Entry, Encode, Start, FileStart, Stored, RecordsOk, AddrsOk, PieceOk, Piece, Exts, ExtsOk, ExtBytes, Convert;
    var q := EntryWhole(v, k);
    RecordSlice(v.recs, k);
    var s, e := Start(v.recs, k) + HEADER_SIZE, Start(v.recs, k + 1);
    DataReads(m, disk, v.addrs, Encode(v.recs), s, e, q);
    ConvertLength(m, v.recs[k]);
  }

  /** A record as a reader sees it. */
  ghost function Seen(m: Mode, r: Record): seq<byte> {
    Convert(m, r) + if m.linefeed then [LfByte(m)] else []
  }

  ghost function Text(m: Mode, recs: seq<Record>): seq<byte> {
    if recs == [] then [] else Text(m, recs[..|recs| - 1]) + Seen(m, recs[|recs| - 1])
  }

  /** The index of a variable file is one the read operation can work with. */
  lemma IndexReads(m: Mode, v: View, disk: map<nat, seq<byte>>)
    requires ViewOk(v) && m.B == v.B && v.lf == ReadPath.Lf(m) && Stored(v.B, disk, v.addrs, Encode(v.recs))
    ensures IndexOk(m, disk, RecordIndex(v.B, v.addrs, v.recs, v.lf))
  {
    hide Encode, Stored, Entry, ReadPath.EntryOk, RecordBytes, AddrsOk, RecordsOk, Fits;
    var rlist := RecordIndex(v.B, v.addrs, v.recs, v.lf);
    forall k | 0 <= k < |rlist|
      ensures ReadPath.EntryOk(m, disk, rlist[k]) && rlist[k].totalLen == |v.recs[k]|
      ensures rlist[k].fileStart == FileStart(v.recs, v.lf, k)
    {
      EntryReads(m, v, disk, k);
    }
  }

  /** Joined over the index, the file is the text of its records. */
  lemma {:induction false} JoinedReads(m: Mode, v: View, disk: map<nat, seq<byte>>, k: nat)
    requires ViewOk(v) && m.B == v.B && v.lf == ReadPath.Lf(m) && Stored(v.B, disk, v.addrs, Encode(v.recs))
    requires k <= |v.recs| && IndexOk(m, disk, RecordIndex(v.B, v.addrs, v.recs, v.lf))
    ensures Joined(m, disk, RecordIndex(v.B, v.addrs, v.recs, v.lf), k) == Text(m, v.recs[..k])
  {
    hide Encode, Stored, ViewOk, Entry, IndexOk, RecordBytes;
    if k > 0 {
      JoinedReads(m, v, disk, k - 1);
      EntryReads(m, v, disk, k - 1);
      assert v.recs[..k][..k - 1] == v.recs[..k - 1];
      var front, lf := Text(m, v.recs[..k - 1]), if m.linefeed then [LfByte(m)] else [];
      assert front + Convert(m, v.recs[k - 1]) + lf == front + (Convert(m, v.recs[k - 1]) + lf);
    }
  }

  /** Reading from an open variable file gives the corresponding part of its text up to the size the session knows, whatever the hint is. */
  method ReadBack(f: VarFile, translate: bool, conv: byte -> byte, hint: nat, size: nat, offset: nat)
    returns (rc: int, buf: seq<byte>)
    requires f.Valid() && (f.nrRecords > 0 ==> hint < f.nrRecords)
    ensures
      var text := Text(Mode(f.B, f.linefeed, translate, conv), f.recs);
      && rc == |buf| && f.sessionSize + f.Uncounted() == |text|
      && buf == if offset >= f.sessionSize then [] else text[offset..Min(offset + size, f.sessionSize)]
  {
    hide Encode, Stored, Entry, Joined, RecordIndex, BlockIndex, AddrsOk;
    var m := Mode(f.B, f.linefeed, translate, conv);
    ghost var v := f.V();
    IndexReads(m, v, f.disk);
    JoinedReads(m, v, f.disk, |v.recs|);
    assert v.recs[..|v.recs|] == v.recs;
    TextLength(m, v.recs);
    IndexBound(v);
    var r := new ReadFile(m, f.disk, f.rlist, f.recordLen, f.sessionSize, hint);
    if offset < f.sessionSize && f.nrRecords > 0 { r.NeverFails(hint, offset, Min(offset + size, f.sessionSize)); }
    rc, buf := r.Read(size, offset);
  }

  /**
    Any buffers written one by one to a new file read back as the text of the
    records these writes put from the file opened again, at every offset and
    size and with every hint.
  */
  method AppendThenRead(store: PtrStore, linefeed: bool, bufs: seq<seq<byte>>, translate: bool, conv: byte -> byte,
                        hint: nat, size: nat, offset: nat)
    returns (rc: int, buf: seq<byte>)
    requires store.Valid() && store.variable && Blksize(store.B)
    requires var n := |AfterWrites(store.B, [], bufs)|; n > 0 ==> hint < n
    modifies store
    ensures
      var text := Text(Mode(store.B, linefeed, translate, conv), AfterWrites(store.B, [], bufs));
      rc == |buf| && buf == if offset >= |text| then [] else text[offset..Min(offset + size, |text|)]
  {
    hide AfterWrites, Text, VarFile.Valid, FileStart;
    var f, g := AppendAll(store, linefeed, bufs);
    CountsRecords(g);
    rc, buf := ReadBack(g, translate, conv, hint, size, offset);
  }

  /** Without linefeeds and translation the text of a file is the bytes of its records. */
  lemma {:induction false} BinaryText(m: Mode, recs: seq<Record>)
    requires !m.linefeed && !m.translate
    ensures Text(m, recs) == Concat(recs)
  {
    if recs != [] {
      BinaryText(m, recs[..|recs| - 1]);
    }
  }

  /**
    A binary file reads back as the bytes written to it, whatever the sizes of
    the writes, if and only if each write was stored as it is.
  */
  method BinaryRoundTrip(store: PtrStore, bufs: seq<seq<byte>>, conv: byte -> byte, hint: nat, size: nat) returns (rc: int, buf: seq<byte>)
    requires store.Valid() && store.variable && Blksize(store.B) && size >= |Concat(bufs)|
    requires var n := |AfterWrites(store.B, [], bufs)|; n > 0 ==> hint < n
    modifies store
    ensures rc == |buf| == |Concat(bufs)|
    ensures buf == Concat(bufs) <==> Faithful(store.B, [], bufs)
    ensures (forall i :: 0 <= i < |bufs| ==> |bufs[i]| <= MAX_RECORD_LEN) ==> buf == Concat(bufs)
  {
    hide AfterWrites, Faithful, Concat;
    ghost var recs := AfterWrites(store.B, [], bufs);
    BinaryText(Mode(store.B, false, false, conv), recs);
    WritesExactly(store.B, [], bufs);
    ConcatEmpty();
    assert [] + Concat(bufs) == Concat(bufs);
    if forall i :: 0 <= i < |bufs| ==> |bufs[i]| <= MAX_RECORD_LEN { ShortWrites(store.B, [], bufs); }
    rc, buf := AppendThenRead(store, false, bufs, false, conv, hint, size, 0);
    assert Concat(recs)[0..|Concat(recs)|] == Concat(recs);
  }

  lemma IndexBound(v: View)
    requires ViewOk(v)
    ensures |RecordIndex(v.B, v.addrs, v.recs, v.lf)| == |v.recs| && (|v.recs| > 0 ==> Longest(v.recs) > 0)
    ensures forall k :: 0 <= k < |v.recs| ==> RecordIndex(v.B, v.addrs, v.recs, v.lf)[k].totalLen <= Longest(v.recs)
  {
    hide Encode, Longest;
    LongestIs(v.recs);
    if |v.recs| > 0 { assert RecordOk(v.recs[0]); }
    forall k | 0 <= k < |v.recs|
      ensures RecordIndex(v.B, v.addrs, v.recs, v.lf)[k].totalLen <= Longest(v.recs)
    {
      var q := EntryWhole(v, k);
    }
  }

  lemma {:induction false} TextLength(m: Mode, recs: seq<Record>)
    ensures |Text(m, recs)| == FileStart(recs, ReadPath.Lf(m), |recs|)
  {
    if recs != [] {
      var init, last := recs[..|recs| - 1], recs[|recs| - 1];
      TextLength(m, init);
      assert recs == init + [last];
      StartBehind(init, [last], 1, ReadPath.Lf(m));
    }
  }
}
