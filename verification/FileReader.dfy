/**
  The read operation of an open file, with the record search and its hint.
*/
module FileReader {
  import opened Blocks
  import opened Errors
  import opened VarLayout
  import opened ReadPath

  /** Result of a search by file offset: a record, the linefeed behind a record, or an error. */
  datatype Hit = InRecord(nr: nat) | Linefeed | NotFound

  class ReadFile {
    const m: Mode
    const disk: map<nat, seq<byte>>
    const rlist: seq<RecordEntry>
    const nrRecords: nat
    const recordLen: nat
    const sessionSize: nat
    /** Next record for sequential reads. */
    var nextRecordHint: nat

    ghost predicate Valid()
      reads this
    {
      && m.B > 0 && IndexOk(m, disk, rlist) && nrRecords == |rlist| && (nrRecords > 0 ==> recordLen >= 1)
      && sessionSize <= |All()|
      && (nrRecords > 0 ==> nextRecordHint < nrRecords)
    }

    /** The whole file as a reader sees it. */
    ghost function All(): seq<byte>
      requires IndexOk(m, disk, rlist)
    {
      Joined(m, disk, rlist, |rlist|)
    }

    constructor (m: Mode, disk: map<nat, seq<byte>>, rlist: seq<RecordEntry>, recordLen: nat, sessionSize: nat, hint: nat)
      requires IndexOk(m, disk, rlist) && sessionSize <= |Joined(m, disk, rlist, |rlist|)|
      requires |rlist| > 0 ==> hint < |rlist| && recordLen >= 1
      ensures Valid() && this.m == m && this.disk == disk && this.rlist == rlist
      ensures this.recordLen == recordLen && this.sessionSize == sessionSize && nextRecordHint == hint
    {
      this.m, this.disk, this.rlist, this.recordLen := m, disk, rlist, recordLen;
      this.nrRecords, this.sessionSize, this.nextRecordHint := |rlist|, sessionSize, hint;
    }

    /** Offset lies in record k. */
    predicate OffsetInRecord(offset: nat, k: nat)
      requires k < |rlist|
    {
      rlist[k].fileStart <= offset < rlist[k].fileStart + rlist[k].totalLen
    }

    /** Offset lies behind record k and in front of record k + 1. */
    predicate OffsetIsLinefeed(offset: nat, k: nat)
      requires k + 1 < |rlist|
    {
      offset < rlist[k + 1].fileStart && offset >= rlist[k].fileStart + rlist[k].totalLen
    }

    /** A hit is right: the offset is in the record, or on the linefeed of some record. */
    ghost predicate Right(hit: Hit, offset: nat) {
      match hit
      case InRecord(nr) => nr < |rlist| && OffsetInRecord(offset, nr)
      case Linefeed => m.linefeed && exists k :: 0 <= k < |rlist| && offset == rlist[k].fileStart + rlist[k].totalLen
      case NotFound => false
    }

    function GuessRecordNumber(offset: nat): (nr: nat)
      requires recordLen >= 1 && nrRecords > 0
      ensures nr < nrRecords
    {
      var nr := offset / (recordLen + Lf(m));
      if nr >= nrRecords then nrRecords - 1 else nr
    }

    method SetHint(hint: nat)
      requires nrRecords > 0
      modifies this
      ensures nextRecordHint == if hint >= nrRecords then nrRecords - 1 else hint
    {
      nextRecordHint := hint;
      if nextRecordHint >= nrRecords {
        nextRecordHint := nrRecords - 1;
      }
    }

    /** The hint alone answers the search. */
    ghost predicate HintHits(hint: nat, offset: nat)
      requires hint < |rlist|
    {
      || OffsetInRecord(offset, hint)
      || (m.linefeed && hint > 0 && OffsetIsLinefeed(offset, hint - 1))
    }

    /**
      The guess is the last record although the offset lies in front of it:
      the backward search then gives up at once.
    */
    ghost predicate Misguided(offset: nat)
      requires recordLen >= 1 && nrRecords == |rlist| > 0
    {
      GuessRecordNumber(offset) == nrRecords - 1 && offset < rlist[nrRecords - 1].fileStart
    }

    /** Finds the record an offset of the file lies in. */
    method FindRecord(offset: nat) returns (hit: Hit)
      requires Valid() && offset < |All()|
      modifies this
      ensures Valid() && nrRecords > 0
      ensures hit == NotFound <==> Misguided(offset) && !HintHits(old(nextRecordHint), offset)
      ensures hit != NotFound ==> Right(hit, offset)
      ensures nextRecordHint == if hit.InRecord? then Min(hit.nr + 1, nrRecords - 1) else old(nextRecordHint)
    {
      hide IndexOk, Joined;
      JoinedLength(m, disk, rlist, |rlist|);
      var i := nextRecordHint;
      if OffsetInRecord(offset, i) {
        SetHint(i + 1);
        return InRecord(i);
      }
      if m.linefeed && i > 0 {
        if OffsetIsLinefeed(offset, i - 1) {
          Between(offset, i - 1);
          return Linefeed;
        }
      }
      var start := GuessRecordNumber(offset);
      if offset < rlist[start].fileStart {
        hit := SearchDown(start, offset);
      } else {
        hit := SearchUp(start, offset);
      }
      if hit.InRecord? {
        SetHint(hit.nr + 1);
      }
    }

    lemma Between(offset: nat, k: nat)
      requires IndexOk(m, disk, rlist) && k + 1 < |rlist| && OffsetIsLinefeed(offset, k)
      ensures m.linefeed && offset == rlist[k].fileStart + rlist[k].totalLen && Right(Linefeed, offset)
    {
      assert rlist[k + 1].fileStart == rlist[k].fileStart + rlist[k].totalLen + Lf(m);
    }

    lemma Step(k: nat)
      requires IndexOk(m, disk, rlist) && k + 1 < |rlist|
      ensures rlist[k + 1].fileStart == rlist[k].fileStart + rlist[k].totalLen + Lf(m)
    {
    }

    method SearchUp(start: nat, offset: nat) returns (hit: Hit)
      requires Valid() && start < nrRecords && rlist[start].fileStart <= offset < |All()|
      ensures Right(hit, offset)
    {
      hide IndexOk, Joined;
      JoinedLength(m, disk, rlist, |rlist|);
      var i := start;
      while true
        invariant start <= i < nrRecords && rlist[i].fileStart <= offset
        decreases nrRecords - i
      {
        if OffsetInRecord(offset, i) {
          return InRecord(i);
        }
        if i == nrRecords - 1 {
          if m.linefeed && offset == rlist[i].fileStart + rlist[i].totalLen {
            return Linefeed;
          }
          return NotFound;
        }
        Step(i);
        if OffsetIsLinefeed(offset, i) {
          Between(offset, i);
          return Linefeed;
        }
        i := i + 1;
      }
    }

    method SearchDown(start: nat, offset: nat) returns (hit: Hit)
      requires Valid() && start < nrRecords && offset < rlist[start].fileStart
      ensures hit == NotFound <==> start == nrRecords - 1
      ensures hit != NotFound ==> Right(hit, offset)
    {
      hide IndexOk, Joined;
      if start == nrRecords - 1 {
        return NotFound;
      }
      var i := start;
      while i >= 0
        invariant 0 <= i <= start
        invariant offset < rlist[i].fileStart + rlist[i].totalLen
        invariant i == start ==> offset < rlist[i].fileStart
        decreases i
      {
        if OffsetInRecord(offset, i) {
          return InRecord(i);
        }
        if i == 0 { FirstStart(); }
        Step(i - 1);
        if OffsetIsLinefeed(offset, i - 1) {
          Between(offset, i - 1);
          return Linefeed;
        }
        i := i - 1;
      }
    }

    lemma FirstStart()
      requires IndexOk(m, disk, rlist) && |rlist| > 0
      ensures rlist[0].fileStart == 0
    {
    }

    /** No record is longer than the record length the file status entry names. */
    ghost predicate LengthBound() {
      forall k :: 0 <= k < |rlist| ==> rlist[k].totalLen <= recordLen
    }

    lemma {:induction false} StartBound(k: nat)
      requires IndexOk(m, disk, rlist) && LengthBound() && k < |rlist|
      ensures rlist[k].fileStart <= Off(recordLen + Lf(m), k)
    {
      if k > 0 {
        StartBound(k - 1);
        Step(k - 1);
      }
    }

    /** With that bound the guess never lies behind the offset. */
    lemma NeverMisguided(offset: nat)
      requires IndexOk(m, disk, rlist) && LengthBound() && recordLen >= 1 && nrRecords == |rlist| > 0
      ensures rlist[GuessRecordNumber(offset)].fileStart <= offset && !Misguided(offset)
    {
      var P := recordLen + Lf(m);
      var g := GuessRecordNumber(offset);
      DivIsBlockOf(P, offset);
      StartBound(g);
      OffMono(P, g, BlockOf(P, offset));
    }

    // ----------------------------------------------------------------
    // Reading
    // ----------------------------------------------------------------

    /** The same for an offset into the extensions of a record; what is left ends where extension j ends. */
    method GetBlockDataFromExts(ext: seq<Ext>, recordOff0: nat) returns (addr: nat, chunk: int, ghost j: nat)
      requires m.B > 0 && ExtsOk(m, disk, ext) && recordOff0 < |ExtBytes(m, disk, ext)|
      ensures PieceOk(m, disk, addr, chunk) && recordOff0 + chunk <= |ExtBytes(m, disk, ext)|
      ensures j < |ext| && |ExtBytes(m, disk, ext[..j])| <= recordOff0 && recordOff0 + chunk == |ExtBytes(m, disk, ext[..j + 1])|
      ensures ExtBytes(m, disk, ext)[recordOff0..recordOff0 + chunk] == Piece(m, disk, addr, chunk)
    {
      hide PieceOk, Piece;
      var recordOff: int, i := recordOff0, 0;
      assert ext[..0] == [] && ext[..|ext|] == ext;
      while recordOff >= ext[i].len
        invariant 0 <= i < |ext| && recordOff >= 0
        invariant recordOff + |ExtBytes(m, disk, ext[..i])| == recordOff0
        decreases |ext| - i
      {
        ExtBytesStep(m, disk, ext, i);
        recordOff := recordOff - ext[i].len;
        i := i + 1;
      }
      j := i;
      ExtBytesStep(m, disk, ext, i);
      ExtBytesAt(m, disk, ext, i);
      var a, len := ext[i].diskStart, ext[i].len;
      PiecePart(m, disk, a, len, recordOff, len - recordOff);
      SubSlice(ExtBytes(m, disk, ext), recordOff0 - recordOff, recordOff0 - recordOff + len, recordOff, len - recordOff);
      if a == NULL_BLOCK {
        addr := NULL_BLOCK;
      } else {
        addr := a + recordOff;
      }
      chunk := len - recordOff;
    }

    /** Disk address for an offset inside record r, and the number of bytes from there to the end of the piece. */
    method GetBlockDataFromRecord(r: RecordEntry, offset: nat) returns (addr: nat, chunk: int)
      requires m.B > 0 && EntryOk(m, disk, r) && r.fileStart <= offset < r.fileStart + r.totalLen
      ensures PieceOk(m, disk, addr, chunk)
      ensures
        var o := offset - r.fileStart;
        o + chunk <= r.totalLen && RecordBytes(m, disk, r)[o..o + chunk] == Piece(m, disk, addr, chunk)
      ensures offset + chunk == r.fileStart + r.totalLen || ExtStart(r, offset + chunk)
      ensures forall p :: offset < p < offset + chunk ==> !ExtStart(r, p)
    {
      hide ExtBytes, PieceOk, Piece;
      var recordOff: int := offset - r.fileStart;
      ghost var first, rest := Piece(m, disk, r.diskStart, r.firstBlockLen), ExtBytes(m, disk, r.ext);
      if recordOff >= r.firstBlockLen {
        ghost var j;
        addr, chunk, j := GetBlockDataFromExts(r.ext, recordOff - r.firstBlockLen);
        CutsOrdered(r, j);
        assert (first + rest)[recordOff..recordOff + chunk] == rest[recordOff - |first|..recordOff - |first| + chunk];
      } else {
        PiecePart(m, disk, r.diskStart, r.firstBlockLen, recordOff, r.firstBlockLen - recordOff);
        if r.diskStart == NULL_BLOCK {
          addr := NULL_BLOCK;
        } else {
          addr := r.diskStart + recordOff;
        }
        chunk := r.firstBlockLen - recordOff;
        FirstCut(r);
        assert (first + rest)[recordOff..recordOff + chunk] == first[recordOff..recordOff + chunk];
      }
    }

    /** Where extension j of a record begins in the file, or the record ends. */
    ghost function Cut(r: RecordEntry, j: nat): nat
      requires m.B > 0 && EntryOk(m, disk, r) && j <= |r.ext|
    {
      r.fileStart + r.firstBlockLen + |ExtBytes(m, disk, r.ext[..j])|
    }

    /** An extension of the record begins at the offset. */
    ghost predicate ExtStart(r: RecordEntry, p: nat)
      requires m.B > 0 && EntryOk(m, disk, r)
    {
      exists j :: 0 <= j < |r.ext| && p == Cut(r, j)
    }

    /** Extensions follow each other and end with the record. */
    lemma CutsOrdered(r: RecordEntry, j: nat)
      requires m.B > 0 && EntryOk(m, disk, r) && j < |r.ext|
      ensures r.fileStart < Cut(r, 0) && Cut(r, j) < Cut(r, j + 1) <= r.fileStart + r.totalLen
      ensures j + 1 == |r.ext| ==> Cut(r, j + 1) == r.fileStart + r.totalLen
      ensures forall i :: 0 <= i <= j ==> Cut(r, i) <= Cut(r, j)
      ensures forall i :: j < i <= |r.ext| ==> Cut(r, i) >= Cut(r, j + 1)
    {
      hide ExtBytes, Piece;
      var ext := r.ext;
      ExtBytesStep(m, disk, ext, j);
      PieceLength(m, disk, ext[j].diskStart, ext[j].len);
      assert ext[..|ext|] == ext;
      ExtBytesPrefix(m, disk, ext, j + 1, |ext|);
      forall i | 0 <= i <= j ensures Cut(r, i) <= Cut(r, j) {
        ExtBytesPrefix(m, disk, ext, i, j);
      }
      forall i | j < i <= |ext| ensures Cut(r, i) >= Cut(r, j + 1) {
        ExtBytesPrefix(m, disk, ext, j + 1, i);
      }
    }

    /** The first piece ends with the record or where its first extension begins. */
    lemma FirstCut(r: RecordEntry)
      requires m.B > 0 && EntryOk(m, disk, r)
      ensures r.fileStart + r.firstBlockLen == r.fileStart + r.totalLen || ExtStart(r, r.fileStart + r.firstBlockLen)
      ensures forall p: nat :: ExtStart(r, p) ==> r.fileStart + r.firstBlockLen <= p < r.fileStart + r.totalLen
    {
      hide Piece;
      if r.ext == [] {
        assert ExtBytes(m, disk, r.ext) == [];
      } else {
        assert r.ext[..0] == [] && ExtBytes(m, disk, r.ext[..0]) == [];
        assert Cut(r, 0) == r.fileStart + r.firstBlockLen;
        forall p: nat | ExtStart(r, p) ensures r.fileStart + r.firstBlockLen <= p < r.fileStart + r.totalLen {
          var j :| 0 <= j < |r.ext| && p == Cut(r, j);
          CutsOrdered(r, j);
        }
      }
    }

    /** The next piece of the file: the part of a record that lies in one block, at most size bytes. */
    method ReadPiece(nr: nat, offset: nat, size: nat) returns (piece: seq<byte>)
      requires Valid() && nr < |rlist| && OffsetInRecord(offset, nr) && size > 0
      ensures 0 < |piece| <= size && offset + |piece| <= |All()| && piece == All()[offset..offset + |piece|]
      ensures m.B > 0 && EntryOk(m, disk, rlist[nr]) && offset + |piece| <= rlist[nr].fileStart + rlist[nr].totalLen
      ensures |piece| < size ==> offset + |piece| == rlist[nr].fileStart + rlist[nr].totalLen || ExtStart(rlist[nr], offset + |piece|)
      ensures forall p :: offset < p < offset + |piece| ==> !ExtStart(rlist[nr], p)
    {
      hide IndexOk, Joined, PieceOk, Piece, RecordBytes, ExtStart;
      var r := rlist[nr];
      JoinedAt(m, disk, rlist, nr);
      var addr, chunk := GetBlockDataFromRecord(r, offset);
      ghost var o := offset - r.fileStart;
      PieceLength(m, disk, addr, chunk);
      var n := if size < chunk then size else chunk;
      PiecePart(m, disk, addr, chunk, 0, n);
      SubSlice(RecordBytes(m, disk, r), o, o + chunk, 0, n);
      SubSlice(All(), r.fileStart, r.fileStart + r.totalLen, o, n);
      piece := Piece(m, disk, addr, n);
    }

    // ----------------------------------------------------------------
    // When reading fails
    // ----------------------------------------------------------------

    /** An extension of some record begins at the offset. */
    ghost predicate AnyExtStart(p: nat)
      requires IndexOk(m, disk, rlist)
    {
      exists k :: 0 <= k < |rlist| && ExtStart(rlist[k], p)
    }

    /** The offset is that of the linefeed behind record k. */
    ghost predicate IsLinefeed(offset: nat, k: nat) {
      m.linefeed && k < |rlist| && offset == rlist[k].fileStart + rlist[k].totalLen
    }

    /** The first search fails. */
    ghost predicate LostFirst(hint: nat, offset: nat)
      requires recordLen >= 1 && nrRecords == |rlist| > hint
    {
      Misguided(offset) && !HintHits(hint, offset)
    }

    /** The request starts with a linefeed that the hint does not lead to, and the search for the record behind it fails. */
    ghost predicate LostSecond(hint: nat, offset: nat, end: nat)
      requires recordLen >= 1 && nrRecords == |rlist| > hint
    {
      offset + 1 < end && Misguided(offset + 1) && exists k :: 0 <= k && k + 1 < |rlist| && IsLinefeed(offset, k) && hint != k + 1
    }

    /** A request from offset to end fails: in its first search, behind such a linefeed, or where an extension begins. */
    ghost predicate Fails(hint: nat, offset: nat, end: nat)
      requires IndexOk(m, disk, rlist) && recordLen >= 1 && nrRecords == |rlist| > hint
    {
      || LostFirst(hint, offset)
      || LostSecond(hint, offset, end)
      || exists p :: offset < p < end && AnyExtStart(p) && Misguided(p)
    }

    /** No request fails when no record is longer than the record length. */
    lemma NeverFails(hint: nat, offset: nat, end: nat)
      requires IndexOk(m, disk, rlist) && recordLen >= 1 && nrRecords == |rlist| > hint && LengthBound()
      ensures !Fails(hint, offset, end)
    {
      hide IndexOk, Misguided, LengthBound, HintHits, AnyExtStart;
      NeverMisguided(offset);
      NeverMisguided(offset + 1);
      forall p: nat ensures !Misguided(p) {
        NeverMisguided(p);
      }
    }

    /** What is known about the hint in front of the next search of a request that started at offset0 with hint0. */
    ghost predicate Ready(hint: nat, offset: nat, hint0: nat, offset0: nat)
      requires IndexOk(m, disk, rlist) && recordLen >= 1 && nrRecords == |rlist| > hint
    {
      || (offset == offset0 && hint == hint0)
      || (HintHits(hint, offset) && !AnyExtStart(offset)) || offset >= rlist[nrRecords - 1].fileStart
      || (offset > offset0 && AnyExtStart(offset) && !HintHits(hint, offset))
      || (offset == offset0 + 1 && hint == hint0 && !HintHits(hint, offset)
          && exists k :: 0 <= k && k + 1 < |rlist| && IsLinefeed(offset0, k) && hint0 != k + 1)
    }

    /** A record lies behind those before it, and its extensions begin inside it. */
    lemma Inside(k: nat, p: nat)
      requires IndexOk(m, disk, rlist) && k < |rlist|
      ensures m.B > 0 && EntryOk(m, disk, rlist[k]) && rlist[k].totalLen > 0
      ensures ExtStart(rlist[k], p) ==> rlist[k].fileStart < p < rlist[k].fileStart + rlist[k].totalLen
      ensures forall i :: 0 <= i < k ==> rlist[i].fileStart + rlist[i].totalLen + Lf(m) <= rlist[k].fileStart
    {
      hide ExtStart, PieceOk, Joined, RecordBytes;
      JoinedStep(m, disk, rlist, k);
      FirstCut(rlist[k]);
      PositiveLength(rlist[k]);
      forall i | 0 <= i < k ensures rlist[i].fileStart + rlist[i].totalLen + Lf(m) <= rlist[k].fileStart {
        StartsMono(m, disk, rlist, i, k);
      }
    }

    lemma PositiveLength(r: RecordEntry)
      requires m.B > 0 && EntryOk(m, disk, r)
      ensures r.totalLen > 0 && r.firstBlockLen > 0
    {
    }

    /** Offsets in different records differ. */
    lemma OneRecord(k: nat, j: nat, offset: nat)
      requires IndexOk(m, disk, rlist) && k < |rlist| && j < |rlist| && k != j && OffsetInRecord(offset, k)
      ensures !OffsetInRecord(offset, j) && !IsLinefeed(offset, j) && (j > 0 ==> j - 1 != k ==> !OffsetIsLinefeed(offset, j - 1))
    {
      hide IndexOk;
      Inside(k, 0);
      Inside(j, 0);
      if j > 0 && j - 1 != k { Inside(j - 1, 0); }
    }

    lemma StartOf(k: nat)
      requires IndexOk(m, disk, rlist) && k < |rlist|
      ensures OffsetInRecord(rlist[k].fileStart, k)
    {
      Inside(k, 0);
    }

    /** Behind a piece of record nr. */
    lemma AfterPiece(nr: nat, offset: nat, n: nat, hint0: nat, offset0: nat)
      requires IndexOk(m, disk, rlist) && recordLen >= 1 && nrRecords == |rlist| > nr && OffsetInRecord(offset, nr) && offset0 <= offset && n > 0
      requires m.B > 0 && EntryOk(m, disk, rlist[nr]) && offset + n <= rlist[nr].fileStart + rlist[nr].totalLen
      requires offset + n < rlist[nr].fileStart + rlist[nr].totalLen ==> ExtStart(rlist[nr], offset + n)
      requires offset + n < if nr + 1 < nrRecords || m.linefeed then rlist[nr].fileStart + rlist[nr].totalLen + 1 else rlist[nr].fileStart + rlist[nr].totalLen
      ensures Min(nr + 1, nrRecords - 1) >= 0 && Ready(Min(nr + 1, nrRecords - 1), offset + n, hint0, offset0)
    {
      hide IndexOk, EntryOk, ExtStart;
      var p := offset + n;
      Inside(nr, p);
      if nr == nrRecords - 1 {
      } else {
        Step(nr);
        Inside(nr + 1, p);
        if p < rlist[nr].fileStart + rlist[nr].totalLen {
          assert AnyExtStart(p);
          assert !HintHits(nr + 1, p);
        } else if m.linefeed {
          NoExtAtLinefeed(nr, p);
        } else {
          StartOf(nr + 1);
          NoExtAtStart(nr + 1);
        }
      }
    }

    /** Behind a linefeed that is not the last byte. */
    lemma AfterLinefeed(k: nat, hint: nat, offset: nat, hint0: nat, offset0: nat)
      requires IndexOk(m, disk, rlist) && recordLen >= 1 && nrRecords == |rlist| > hint && hint0 < nrRecords
      requires k + 1 < nrRecords && IsLinefeed(offset, k) && Ready(hint, offset, hint0, offset0) && offset0 <= offset
      ensures Ready(hint, offset + 1, hint0, offset0)
      ensures offset > offset0 ==> HintHits(hint, offset + 1)
    {
      hide IndexOk, EntryOk, ExtStart;
      Step(k);
      StartOf(k + 1);
      Inside(k, offset);
      Inside(k + 1, offset);
      Inside(nrRecords - 1, offset);
      NoExtAtLinefeed(k, offset);
      NoExtAtStart(k + 1);
      if hint != k + 1 {
        OneRecord(k + 1, hint, offset + 1);
        NotHinted(k, hint, offset);
        LinefeedOnce(k, offset0);
      }
    }

    lemma ExtOwner(p: nat) returns (j: nat)
      requires IndexOk(m, disk, rlist) && AnyExtStart(p)
      ensures j < |rlist| && m.B > 0 && EntryOk(m, disk, rlist[j]) && ExtStart(rlist[j], p)
      ensures rlist[j].fileStart < p < rlist[j].fileStart + rlist[j].totalLen
      ensures forall i :: 0 <= i < j ==> rlist[i].fileStart + rlist[i].totalLen + Lf(m) <= rlist[j].fileStart
    {
      hide ExtStart, EntryOk;
      j :| 0 <= j < |rlist| && ExtStart(rlist[j], p);
      Inside(j, p);
    }

    lemma NoExtAtLinefeed(k: nat, offset: nat)
      requires IndexOk(m, disk, rlist) && IsLinefeed(offset, k)
      ensures !AnyExtStart(offset)
    {
      hide IndexOk, ExtStart, EntryOk;
      if AnyExtStart(offset) {
        var j := ExtOwner(offset);
        Inside(k, offset);
      }
    }

    lemma NoExtAtStart(k: nat)
      requires IndexOk(m, disk, rlist) && k < |rlist|
      ensures !AnyExtStart(rlist[k].fileStart)
    {
      hide IndexOk, ExtStart, EntryOk;
      var p := rlist[k].fileStart;
      if AnyExtStart(p) {
        var j := ExtOwner(p);
        Inside(k, p);
      }
    }

    /** A hint that is not the next record answers neither the linefeed nor what follows. */
    lemma NotHinted(k: nat, hint: nat, offset: nat)
      requires IndexOk(m, disk, rlist) && k + 1 < |rlist| && IsLinefeed(offset, k) && hint < |rlist| && hint != k + 1
      ensures !HintHits(hint, offset) && !HintHits(hint, offset + 1)
    {
      hide IndexOk, EntryOk;
      Step(k);
      Inside(k + 1, 0);
      Inside(hint, 0);
      Inside(k, 0);
      if hint > 0 {
        Inside(hint - 1, 0);
        Step(hint - 1);
      }
    }

    /** The record start behind a linefeed is no linefeed. */
    lemma LinefeedOnce(k: nat, offset0: nat)
      requires IndexOk(m, disk, rlist) && k < |rlist|
      ensures forall j :: 0 <= j && j + 1 < |rlist| && IsLinefeed(offset0, j) ==> !IsLinefeed(offset0 + 1, k)
    {
      hide IndexOk, EntryOk;
      forall j | 0 <= j && j + 1 < |rlist| && IsLinefeed(offset0, j) ensures !IsLinefeed(offset0 + 1, k) {
        Step(j);
        Inside(j + 1, 0);
        Inside(k, 0);
      }
    }

    /** No search of the request failed in front of offset. */
    ghost predicate Sound(hint0: nat, offset0: nat, offset: nat)
      requires IndexOk(m, disk, rlist) && recordLen >= 1 && nrRecords == |rlist| > hint0
    {
      && (offset > offset0 ==> !LostFirst(hint0, offset0))
      && !LostSecond(hint0, offset0, offset)
      && (forall p :: offset0 < p < offset && AnyExtStart(p) ==> !Misguided(p))
    }

    /** The hint is still that of the beginning. */
    ghost predicate HintKept(hint: nat, offset: nat, hint0: nat, offset0: nat) {
      offset == offset0 || (offset == offset0 + 1 && exists k :: 0 <= k < |rlist| && IsLinefeed(offset0, k)) ==> hint == hint0
    }

    /** One successful search and the bytes it leads to. */
    lemma Advance(hint0: nat, offset0: nat, hint: nat, offset: nat, next: nat)
      requires IndexOk(m, disk, rlist) && recordLen >= 1 && nrRecords == |rlist| > hint && hint0 < nrRecords && offset0 <= offset < next
      requires Sound(hint0, offset0, offset) && Ready(hint, offset, hint0, offset0) && HintKept(hint, offset, hint0, offset0)
      requires !LostFirst(hint, offset) && forall p :: offset < p < next ==> !AnyExtStart(p)
      requires (exists k :: 0 <= k < |rlist| && IsLinefeed(offset, k)) ==> next == offset + 1
      ensures Sound(hint0, offset0, next)
    {
      hide IndexOk, Misguided, HintHits, AnyExtStart, IsLinefeed;
      LastNotMisguided(offset);
      if LostSecond(hint0, offset0, next) && !LostSecond(hint0, offset0, offset) {
        var k :| 0 <= k && k + 1 < |rlist| && IsLinefeed(offset0, k) && hint0 != k + 1;
        NotHinted(k, hint0, offset0);
        assert false;
      }
      forall p | offset0 < p < next && AnyExtStart(p) ensures !Misguided(p) {
        if p == offset {
          assert !LostFirst(hint, offset);
        }
      }
    }

    lemma LastNotMisguided(offset: nat)
      requires recordLen >= 1 && nrRecords == |rlist| > 0
      ensures offset >= rlist[nrRecords - 1].fileStart ==> !Misguided(offset)
    {
    }

    /** A search that fails makes the request one that fails. */
    lemma Failed(hint0: nat, offset0: nat, hint: nat, offset: nat, end: nat)
      requires IndexOk(m, disk, rlist) && recordLen >= 1 && nrRecords == |rlist| > hint && hint0 < nrRecords && offset0 <= offset < end
      requires Ready(hint, offset, hint0, offset0) && LostFirst(hint, offset)
      ensures Fails(hint0, offset0, end)
    {
      hide IndexOk, Misguided, HintHits, AnyExtStart, IsLinefeed;
      LastNotMisguided(offset);
    }

    lemma NotFailed(hint0: nat, offset0: nat, end: nat)
      requires IndexOk(m, disk, rlist) && recordLen >= 1 && nrRecords == |rlist| > hint0 && offset0 < end
      requires Sound(hint0, offset0, end)
      ensures !Fails(hint0, offset0, end)
    {
    }

    /** Between the offsets of a piece of record nr no extension of any record begins. */
    lemma PieceClean(nr: nat, offset: nat, n: nat)
      requires IndexOk(m, disk, rlist) && nr < |rlist| && OffsetInRecord(offset, nr)
      requires m.B > 0 && EntryOk(m, disk, rlist[nr]) && offset + n <= rlist[nr].fileStart + rlist[nr].totalLen
      requires forall p :: offset < p < offset + n ==> !ExtStart(rlist[nr], p)
      ensures forall p :: offset < p < offset + n ==> !AnyExtStart(p)
      ensures forall k :: 0 <= k < |rlist| ==> !IsLinefeed(offset, k)
    {
      hide IndexOk, ExtStart, EntryOk;
      Inside(nr, 0);
      forall p | offset < p < offset + n ensures !AnyExtStart(p) {
        if AnyExtStart(p) {
          var j := ExtOwner(p);
        }
      }
      forall k | 0 <= k < |rlist| ensures !IsLinefeed(offset, k) {
        Inside(k, 0);
      }
    }

    /** The linefeed at the offset, and what is known behind it. */
    method ReadLinefeed(buf: seq<byte>, offset: nat, size: nat, ghost hint0: nat, ghost offset0: nat) returns (buf': seq<byte>)
      requires Valid() && nrRecords > 0 && hint0 < nrRecords && Right(Linefeed, offset) && offset0 <= offset && 0 < size <= |All()| - offset
      requires buf == All()[offset0..offset] && Ready(nextRecordHint, offset, hint0, offset0)
      requires HintKept(nextRecordHint, offset, hint0, offset0)
      ensures offset < |All()| && buf' == All()[offset0..offset + 1]
      ensures size > 1 ==> Ready(nextRecordHint, offset + 1, hint0, offset0)
      ensures HintKept(nextRecordHint, offset + 1, hint0, offset0)
    {
      hide IndexOk, Joined, Misguided, Ready, HintHits;
      ghost var k :| 0 <= k < |rlist| && offset == rlist[k].fileStart + rlist[k].totalLen;
      JoinedAt(m, disk, rlist, k);
      JoinedLength(m, disk, rlist, |rlist|);
      if k + 1 < nrRecords { AfterLinefeed(k, nextRecordHint, offset, hint0, offset0); }
      return buf + [LfByte(m)];
    }

    /**
      The bytes of the file from offset on, at most size of them.  The read
      fails exactly when one of its searches does.
    */
    method Read(size0: nat, offset0: nat) returns (rc: int, buf: seq<byte>)
      requires Valid()
      modifies this
      ensures Valid()
      ensures offset0 >= sessionSize || size0 == 0 ==> rc == 0 && buf == []
      ensures offset0 < sessionSize && size0 > 0 ==>
        var end := Min(offset0 + size0, sessionSize);
        && nrRecords > 0 && rc == (if Fails(old(nextRecordHint), offset0, end) then EINVAL else |buf|)
        && (rc != EINVAL ==> buf == All()[offset0..end])
    {
      hide IndexOk, Joined, Misguided, Ready, HintHits, Sound, HintKept, Fails, IsLinefeed, AnyExtStart;
      buf := [];
      rc := 0;
      if offset0 >= sessionSize {
        return;
      }
      var size, offset := size0, offset0;
      if offset + size > sessionSize {
        size := sessionSize - offset;
      }
      ghost var end, hint0 := offset + size, nextRecordHint;
      JoinedLength(m, disk, rlist, |rlist|);
      Start(hint0, offset0);
      while size > 0
        invariant Valid() && size >= 0 && offset0 <= offset && offset + size == end <= sessionSize && nrRecords > 0
        invariant buf == All()[offset0..offset] && Sound(hint0, offset0, offset)
        invariant size > 0 ==> Ready(nextRecordHint, offset, hint0, offset0)
        invariant HintKept(nextRecordHint, offset, hint0, offset0)
        decreases size
      {
        ghost var hint := nextRecordHint;
        var hit := FindRecord(offset);
        if hit == NotFound {
          Failed(hint0, offset0, hint, offset, end);
          return EINVAL, buf;
        }
        if hit == Linefeed {
          buf := ReadLinefeed(buf, offset, size, hint0, offset0);
          Advance(hint0, offset0, hint, offset, offset + 1);
          offset, size := offset + 1, size - 1;
          continue;
        }
        var n;
        n, buf := ReadRecord(hit.nr, buf, offset, size, hint, hint0, offset0);
        offset, size := offset + n, size - n;
      }
      if offset0 < end { NotFailed(hint0, offset0, end); }
      rc := |buf|;
    }

    lemma Start(hint0: nat, offset0: nat)
      requires Valid() && nrRecords > hint0
      ensures Ready(hint0, offset0, hint0, offset0) && Sound(hint0, offset0, offset0) && HintKept(hint0, offset0, hint0, offset0)
    {
    }

    /** The next piece of record nr, and what is known behind it. */
    method ReadRecord(nr: nat, buf: seq<byte>, offset: nat, size: nat, ghost hint: nat, ghost hint0: nat, ghost offset0: nat)
      returns (n: nat, buf': seq<byte>)
      requires Valid() && nr < nrRecords && OffsetInRecord(offset, nr) && offset0 <= offset && 0 < size <= |All()| - offset
      requires hint < nrRecords && hint0 < nrRecords && nextRecordHint == Min(nr + 1, nrRecords - 1) && buf == All()[offset0..offset]
      requires Sound(hint0, offset0, offset) && Ready(hint, offset, hint0, offset0) && HintKept(hint, offset, hint0, offset0)
      requires !LostFirst(hint, offset)
      ensures 0 < n <= size && buf' == All()[offset0..offset + n] && Sound(hint0, offset0, offset + n)
      ensures n < size ==> Ready(nextRecordHint, offset + n, hint0, offset0)
      ensures HintKept(nextRecordHint, offset + n, hint0, offset0)
    {
      hide IndexOk, Joined, Misguided, Ready, HintHits, Sound, AnyExtStart, ExtStart, EntryOk;
      JoinedLength(m, disk, rlist, |rlist|);
      var piece := ReadPiece(nr, offset, size);
      n := |piece|;
      PieceClean(nr, offset, n);
      Advance(hint0, offset0, hint, offset, offset + n);
      if n < size { Reach(nr); AfterPiece(nr, offset, n, hint0, offset0); }
      return n, buf + piece;
    }

    /** The last record ends the file, but for its linefeed. */
    lemma Reach(nr: nat)
      requires Valid() && nr < nrRecords
      ensures nr == nrRecords - 1 ==> |All()| == rlist[nr].fileStart + rlist[nr].totalLen + Lf(m)
    {
      hide IndexOk, Joined;
      JoinedLength(m, disk, rlist, |rlist|);
    }
  }

  /** A record of n zero bytes in a null block. */
  function ZeroRecord(n: nat, fileStart: nat): RecordEntry {
    RecordEntry(n, NULL_BLOCK, n, fileStart, [], 0)
  }

  lemma ZeroRecordOk(m: Mode, n: nat, fileStart: nat)
    requires m.B > 0 && n > 0
    ensures EntryOk(m, map[], ZeroRecord(n, fileStart))
  {
  }

  /**
    A file of two records, the first longer than the record length says: the
    search for offset 3, inside the first record, finds nothing.
  */
  method TooShortRecordLength(m: Mode) returns (hit: Hit)
    requires m.B > 0 && !m.linefeed
    ensures hit == NotFound
  {
    hide EntryOk, Joined;
    var rlist := [ZeroRecord(5, 0), ZeroRecord(1, 5)];
    ZeroRecordOk(m, 5, 0);
    ZeroRecordOk(m, 1, 5);
    JoinedLength(m, map[], rlist, 2);
    var f := new ReadFile(m, map[], rlist, 1, 6, 1);
    hit := f.FindRecord(3);
  }
}
