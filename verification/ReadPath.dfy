/**
  Reading a file through its record index: the index says where the bytes of
  every record lie on disk, the reader sees the records joined, each followed
  by a virtual linefeed in text mode.
*/
module ReadPath {
  import opened Blocks
  import opened VarLayout

  const NULL_BLOCK: nat := 0
  const LINEFEED_ASCII: byte := 0x0a
  const LINEFEED_EBCDIC: byte := 0x25

  /** How bytes reach the reader. */
  datatype Mode = Mode(B: nat, linefeed: bool, translate: bool, conv: byte -> byte)

  function Lf(m: Mode): nat {
    if m.linefeed then 1 else 0
  }

  function LfByte(m: Mode): byte {
    if m.translate then LINEFEED_ASCII else LINEFEED_EBCDIC
  }

  function Convert(m: Mode, s: seq<byte>): (t: seq<byte>)
    ensures |t| == |s|
    ensures forall i :: 0 <= i < |s| ==> t[i] == if m.translate then m.conv(s[i]) else s[i]
  {
    if m.translate then seq<byte>(|s|, i requires 0 <= i < |s| => m.conv(s[i])) else s
  }

  // ------------------------------------------------------------------
  // What an index means
  // ------------------------------------------------------------------

  /** A piece of a record lies inside one block, or is a null block. */
  ghost predicate PieceOk(m: Mode, disk: map<nat, seq<byte>>, addr: nat, len: int)
    requires m.B > 0
  {
    && len > 0
    && (addr != NULL_BLOCK ==>
         Base(m.B, addr) in disk && |disk[Base(m.B, addr)]| == m.B && addr % m.B + len <= m.B)
  }

  /** The bytes of such a piece as a reader gets them; null blocks read as zeros. */
  function Piece(m: Mode, disk: map<nat, seq<byte>>, addr: nat, len: int): (s: seq<byte>)
    requires m.B > 0 && PieceOk(m, disk, addr, len)
    ensures |s| == len
  {
    if addr == NULL_BLOCK then Zeros(len)
    else Convert(m, disk[Base(m.B, addr)][addr % m.B..addr % m.B + len])
  }

  ghost predicate ExtsOk(m: Mode, disk: map<nat, seq<byte>>, ext: seq<Ext>)
    requires m.B > 0
  {
    forall j :: 0 <= j < |ext| ==> PieceOk(m, disk, ext[j].diskStart, ext[j].len)
  }

  ghost function ExtBytes(m: Mode, disk: map<nat, seq<byte>>, ext: seq<Ext>): seq<byte>
    requires m.B > 0 && ExtsOk(m, disk, ext)
  {
    if ext == [] then [] else
      var last := ext[|ext| - 1];
      ExtBytes(m, disk, ext[..|ext| - 1]) + Piece(m, disk, last.diskStart, last.len)
  }

  /** All bytes of a record. */
  ghost function RecordBytes(m: Mode, disk: map<nat, seq<byte>>, r: RecordEntry): seq<byte>
    requires m.B > 0 && PieceOk(m, disk, r.diskStart, r.firstBlockLen) && ExtsOk(m, disk, r.ext)
  {
    Piece(m, disk, r.diskStart, r.firstBlockLen) + ExtBytes(m, disk, r.ext)
  }

  ghost predicate EntryOk(m: Mode, disk: map<nat, seq<byte>>, r: RecordEntry)
    requires m.B > 0
  {
    && PieceOk(m, disk, r.diskStart, r.firstBlockLen) && ExtsOk(m, disk, r.ext)
    && |RecordBytes(m, disk, r)| == r.totalLen
  }

  /** Every entry describes its bytes, and the logical offsets follow each other. */
  ghost predicate IndexOk(m: Mode, disk: map<nat, seq<byte>>, rlist: seq<RecordEntry>) {
    && m.B > 0
    && (forall k :: 0 <= k < |rlist| ==> EntryOk(m, disk, rlist[k]))
    && (|rlist| > 0 ==> rlist[0].fileStart == 0)
    && (forall k :: 0 < k < |rlist| ==>
         rlist[k].fileStart == rlist[k - 1].fileStart + rlist[k - 1].totalLen + Lf(m))
  }

  /** The first k records as a reader sees them. */
  ghost function Joined(m: Mode, disk: map<nat, seq<byte>>, rlist: seq<RecordEntry>, k: nat): seq<byte>
    requires IndexOk(m, disk, rlist) && k <= |rlist|
  {
    if k == 0 then [] else
      Joined(m, disk, rlist, k - 1) + RecordBytes(m, disk, rlist[k - 1]) + (if m.linefeed then [LfByte(m)] else [])
  }

  // ------------------------------------------------------------------
  // Lemmas
  // ------------------------------------------------------------------

  lemma {:induction false} JoinedLength(m: Mode, disk: map<nat, seq<byte>>, rlist: seq<RecordEntry>, k: nat)
    requires IndexOk(m, disk, rlist) && k <= |rlist|
    ensures |Joined(m, disk, rlist, k)|
         == if k == 0 then 0 else rlist[k - 1].fileStart + rlist[k - 1].totalLen + Lf(m)
  {
    if k > 0 {
      JoinedLength(m, disk, rlist, k - 1);
      assert EntryOk(m, disk, rlist[k - 1]);
    }
  }

  lemma {:induction false} JoinedPrefix(m: Mode, disk: map<nat, seq<byte>>, rlist: seq<RecordEntry>, j: nat, k: nat)
    requires IndexOk(m, disk, rlist) && j <= k <= |rlist|
    ensures |Joined(m, disk, rlist, j)| <= |Joined(m, disk, rlist, k)|
    ensures Joined(m, disk, rlist, k)[..|Joined(m, disk, rlist, j)|] == Joined(m, disk, rlist, j)
    decreases k
  {
    hide IndexOk, RecordBytes;
    if j < k {
      JoinedPrefix(m, disk, rlist, j, k - 1);
    }
  }

  /** A slice of a prefix is a slice of the whole. */
  lemma PrefixSlice(all: seq<byte>, front: seq<byte>, mid: seq<byte>, tail: seq<byte>, n: nat)
    requires n == |front + mid + tail| <= |all| && all[..n] == front + mid + tail
    ensures all[|front|..|front| + |mid|] == mid
    ensures tail != [] ==> all[|front| + |mid|] == tail[0]
  {
    var t := front + mid + tail;
    assert t[|front|..|front| + |mid|] == mid;
    assert all[|front|..|front| + |mid|] == t[|front|..|front| + |mid|];
    if tail != [] {
      assert all[..n][|front| + |mid|] == tail[0];
    }
  }

  lemma SubSlice(all: seq<byte>, a: nat, b: nat, o: nat, n: nat)
    requires a <= b <= |all| && o + n <= b - a
    ensures all[a..b][o..o + n] == all[a + o..a + o + n]
  {
    var l, r := all[a..b][o..o + n], all[a + o..a + o + n];
    forall i | 0 <= i < n ensures l[i] == r[i] {
      assert l[i] == all[a..b][o + i] == all[a + (o + i)];
    }
  }

  /** Record k begins where the records before it end. */
  lemma JoinedStep(m: Mode, disk: map<nat, seq<byte>>, rlist: seq<RecordEntry>, k: nat)
    requires IndexOk(m, disk, rlist) && k < |rlist|
    ensures m.B > 0 && EntryOk(m, disk, rlist[k]) && |RecordBytes(m, disk, rlist[k])| == rlist[k].totalLen
    ensures |Joined(m, disk, rlist, k)| == rlist[k].fileStart
    ensures Joined(m, disk, rlist, k + 1)
         == Joined(m, disk, rlist, k) + RecordBytes(m, disk, rlist[k]) + if m.linefeed then [LfByte(m)] else []
  {
    assert EntryOk(m, disk, rlist[k]);
    JoinedLength(m, disk, rlist, k);
  }

  /** Where the bytes of record k lie among all bytes. */
  lemma JoinedAt(m: Mode, disk: map<nat, seq<byte>>, rlist: seq<RecordEntry>, k: nat)
    requires IndexOk(m, disk, rlist) && k < |rlist|
    ensures EntryOk(m, disk, rlist[k])
    ensures
      var all, r := Joined(m, disk, rlist, |rlist|), rlist[k];
      && r.fileStart + r.totalLen + Lf(m) <= |all|
      && all[r.fileStart..r.fileStart + r.totalLen] == RecordBytes(m, disk, r)
      && (m.linefeed ==> all[r.fileStart + r.totalLen] == LfByte(m))
  {
    hide Joined, RecordBytes, IndexOk, ExtsOk, PieceOk;
    var all, r := Joined(m, disk, rlist, |rlist|), rlist[k];
    JoinedStep(m, disk, rlist, k);
    JoinedPrefix(m, disk, rlist, k + 1, |rlist|);
    var front, mid, tail := Joined(m, disk, rlist, k), RecordBytes(m, disk, r), if m.linefeed then [LfByte(m)] else [];
    PrefixSlice(all, front, mid, tail, |front + mid + tail|);
  }

  lemma {:induction false} StartsMono(m: Mode, disk: map<nat, seq<byte>>, rlist: seq<RecordEntry>, j: nat, k: nat)
    requires IndexOk(m, disk, rlist) && j <= k < |rlist|
    ensures rlist[j].fileStart <= rlist[k].fileStart
    ensures j < k ==> rlist[j].fileStart + rlist[j].totalLen + Lf(m) <= rlist[k].fileStart
    decreases k
  {
    if j < k {
      StartsMono(m, disk, rlist, j, k - 1);
    }
  }

  // ------------------------------------------------------------------
  // Pieces
  // ------------------------------------------------------------------

  lemma BaseInside(B: nat, addr: nat, o: nat)
    requires B > 0 && addr % B + o < B
    ensures Base(B, addr + o) == Base(B, addr) && (addr + o) % B == addr % B + o
  {
    var q := addr / B;
    assert addr == B * q + addr % B;
    ModUnique(B, q, addr % B + o);
  }

  lemma ConvertSlice(m: Mode, s: seq<byte>, a: nat, b: nat)
    requires a <= b <= |s|
    ensures Convert(m, s[a..b]) == Convert(m, s)[a..b]
  {
  }

  /** The part [o, o + n) of a piece is a piece. */
  lemma PiecePart(m: Mode, disk: map<nat, seq<byte>>, addr: nat, len: int, o: nat, n: nat)
    requires m.B > 0 && PieceOk(m, disk, addr, len) && n > 0 && o + n <= len
    ensures
      var a := if addr == NULL_BLOCK then NULL_BLOCK else addr + o;
      PieceOk(m, disk, a, n) && Piece(m, disk, a, n) == Piece(m, disk, addr, len)[o..o + n]
  {
    if addr != NULL_BLOCK {
      BaseInside(m.B, addr, o);
      var block, x := disk[Base(m.B, addr)], addr % m.B;
      ConvertSlice(m, block, x + o, x + o + n);
      ConvertSlice(m, block, x, x + len);
      SubSlice(Convert(m, block), x, x + len, o, n);
    }
  }

  lemma ExtBytesStep(m: Mode, disk: map<nat, seq<byte>>, ext: seq<Ext>, j: nat)
    requires m.B > 0 && ExtsOk(m, disk, ext) && j < |ext|
    ensures ExtBytes(m, disk, ext[..j + 1]) == ExtBytes(m, disk, ext[..j]) + Piece(m, disk, ext[j].diskStart, ext[j].len)
  {
    assert ext[..j + 1][..j] == ext[..j];
  }

  lemma {:induction false} ExtBytesPrefix(m: Mode, disk: map<nat, seq<byte>>, ext: seq<Ext>, j: nat, k: nat)
    requires m.B > 0 && ExtsOk(m, disk, ext) && j <= k <= |ext|
    ensures |ExtBytes(m, disk, ext[..j])| <= |ExtBytes(m, disk, ext[..k])|
    ensures ExtBytes(m, disk, ext[..k])[..|ExtBytes(m, disk, ext[..j])|] == ExtBytes(m, disk, ext[..j])
    decreases k
  {
    if j < k {
      ExtBytesPrefix(m, disk, ext, j, k - 1);
      ExtBytesStep(m, disk, ext, k - 1);
    }
  }

  /** Where the bytes of extension j lie among the bytes of all extensions. */
  lemma ExtBytesAt(m: Mode, disk: map<nat, seq<byte>>, ext: seq<Ext>, j: nat)
    requires m.B > 0 && ExtsOk(m, disk, ext) && j < |ext|
    ensures
      var at := |ExtBytes(m, disk, ext[..j])|;
      && at + ext[j].len <= |ExtBytes(m, disk, ext)|
      && ExtBytes(m, disk, ext)[at..at + ext[j].len] == Piece(m, disk, ext[j].diskStart, ext[j].len)
  {
    ExtBytesStep(m, disk, ext, j);
    ExtBytesPrefix(m, disk, ext, j + 1, |ext|);
    assert ext[..|ext|] == ext;
    var front, mid := ExtBytes(m, disk, ext[..j]), Piece(m, disk, ext[j].diskStart, ext[j].len);
    assert front + mid + [] == front + mid;
    PrefixSlice(ExtBytes(m, disk, ext), front, mid, [], |front + mid|);
  }

  lemma PieceLength(m: Mode, disk: map<nat, seq<byte>>, addr: nat, len: int)
    requires m.B > 0 && PieceOk(m, disk, addr, len)
    ensures |Piece(m, disk, addr, len)| == len > 0
  {
  }
}
