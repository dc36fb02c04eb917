/**
  An open variable-format file: its data blocks on disk, the record and block
  index kept in memory, and the operations that scan and extend them.
*/
module VarFiles {
  import opened Blocks
  import opened Errors
  import opened VarLayout
  import opened VarScan
  import opened VarAppend
  import opened VarPut
  import opened PointerTrees
  import opened PointerWalks
  import opened PointerStore
  import opened VarPointers

  datatype BlockState = NotInit | NewBlock | UsedBlock
  datatype RecordState = WrHeaderStarted | WrHeaderComplete | WrIncomplete | WrComplete

  /** The part of a file status table entry that describes the file's blocks. */
  datatype Fst = Fst(recordLen: nat, fop: nat, nrBlocks: nat, nrRecords: nat, levels: nat)

  class VarFile {
    const B: nat
    const linefeed: bool
    /** Allocation state and pointer blocks of the disk. */
    const store: PtrStore
    /** Block address to block content. */
    var disk: map<nat, seq<byte>>
    var nrRecords: nat
    var nrBlocks: nat
    var rlist: seq<RecordEntry>
    var blist: seq<BlockEntry>
    var scanState: ScanState
    var recordLen: nat
    /** Size of the file as a reader sees it. */
    var sessionSize: int
    var fop: nat
    var levels: nat
    // write state
    var writePtr: nat
    var blockState: BlockState
    var blockFree: int
    var recordState: RecordState
    var recordLeft: int

    /** Records of the file and addresses of its data blocks, as the disk has them. */
    ghost var recs: seq<Record>
    ghost var addrs: seq<nat>

    /** A file object for a file status table entry; the index is still empty. */
    constructor (store: PtrStore, linefeed: bool, disk: map<nat, seq<byte>>, fst: Fst,
                 ghost recs: seq<Record>, ghost addrs: seq<nat>)
      ensures this.store == store && B == store.B && this.linefeed == linefeed && this.disk == disk
      ensures nrRecords == fst.nrRecords && nrBlocks == fst.nrBlocks && recordLen == fst.recordLen
      ensures fop == fst.fop && levels == fst.levels
      ensures rlist == seq(fst.nrRecords, _ => NoRecord) && blist == seq(fst.nrBlocks, _ => NoBlock)
      ensures scanState == DataStarted && blockState == NotInit && sessionSize == 0
      ensures this.recs == recs && this.addrs == addrs
    {
      this.store, this.B, this.linefeed, this.disk := store, store.B, linefeed, disk;
      nrRecords, nrBlocks, recordLen, fop, levels := fst.nrRecords, fst.nrBlocks, fst.recordLen, fst.fop, fst.levels;
      rlist, blist := seq(fst.nrRecords, _ => NoRecord), seq(fst.nrBlocks, _ => NoBlock);
      scanState, blockState, recordState := DataStarted, NotInit, WrComplete;
      writePtr, blockFree, recordLeft, sessionSize := 0, 0, 0, 0;
      this.recs, this.addrs := recs, addrs;
    }

    function Lf(): nat {
      if linefeed then 1 else 0
    }

    ghost function V(): View
      reads this`recs, this`addrs
    {
      View(B, addrs, recs, Lf())
    }

    /** The disk holds the records; nothing is said about the index. */
    ghost predicate OnDisk()
      reads this`recs, this`addrs, this`disk, this`nrRecords, this`nrBlocks
    {
      && ViewOk(V()) && Stored(B, disk, addrs, Encode(recs))
      && nrRecords == |recs| && nrBlocks == |addrs|
    }

    // ----------------------------------------------------------------
    // Reading the disk
    // ----------------------------------------------------------------

    function ReadByte(addr: nat): byte
      requires B > 0 && Base(B, addr) in disk && addr % B < |disk[Base(B, addr)]|
      reads this`disk
    {
      disk[Base(B, addr)][addr % B]
    }

    /** The byte at offset o of data block i is the byte of the stream at that place. */
    lemma StreamByte(i: nat, o: nat)
      requires OnDisk() && i < |addrs| && o < B
      ensures Base(B, addrs[i] + o) in disk && (addrs[i] + o) % B < |disk[Base(B, addrs[i] + o)]|
      ensures ReadByte(addrs[i] + o) == ByteAt(Encode(recs), Off(B, i) + o)
    {
      BaseOf(B, addrs[i], o);
      assert addrs[i] in disk && disk[addrs[i]] == Image(B, Encode(recs), i);
    }

    // ----------------------------------------------------------------
    // The record scan
    // ----------------------------------------------------------------

    method SetRecordLenUpper(record: nat, half: byte)
      requires record < |rlist| && scanState in {DataStarted, DataExt}
      modifies this`rlist, this`scanState
      ensures rlist == old(rlist[record := rlist[record].(totalLen := half * 256)])
      ensures scanState == HeaderStarted
    {
      rlist := rlist[record := rlist[record].(totalLen := half * 256)];
      scanState := HeaderStarted;
    }

    method SetRecordLenLower(record: nat, half: byte)
      requires record < |rlist| && scanState == HeaderStarted
      modifies this`rlist, this`scanState
      ensures rlist == old(rlist[record := rlist[record].(totalLen := rlist[record].totalLen + half)])
      ensures scanState == HeaderComplete
    {
      rlist := rlist[record := rlist[record].(totalLen := rlist[record].totalLen + half)];
      scanState := HeaderComplete;
    }

    method SetRecordLen(record: nat, len: nat)
      requires record < |rlist| && scanState in {DataStarted, DataExt}
      requires nrRecords == 0 || record != nrRecords
      modifies this`rlist, this`scanState
      ensures rlist == old(rlist[record := rlist[record].(totalLen := len)])
      ensures scanState == HeaderComplete
    {
      rlist := rlist[record := rlist[record].(totalLen := len)];
      scanState := HeaderComplete;
    }

    method SetRecord(record: nat, addr: nat, len: int, total: nat, block: nat) returns (total': nat)
      requires record < |rlist| && scanState == HeaderComplete
      modifies this`rlist, this`scanState
      ensures
        var start := total + if linefeed && record > 0 then 1 else 0;
        && total' == start + old(rlist[record].totalLen)
        && rlist == old(rlist[record := rlist[record].(firstBlockLen := len, diskStart := addr,
                                                        blockNr := block, fileStart := start)])
      ensures scanState == DataStarted
    {
      total' := total;
      if linefeed && record > 0 {
        total' := total' + 1;
      }
      rlist := rlist[record := rlist[record].(firstBlockLen := len, diskStart := addr,
                                              blockNr := block, fileStart := total')];
      total' := total' + rlist[record].totalLen;
      scanState := DataStarted;
    }

    method SetRecordExtension(record: nat, addr: nat, len: int, block: nat)
      requires record < |rlist| && scanState in {DataStarted, DataExt}
      modifies this`rlist, this`scanState
      ensures rlist == old(rlist[record := rlist[record].(ext := rlist[record].ext + [Ext(addr, len, block)])])
      ensures scanState == DataExt
    {
      rlist := rlist[record := rlist[record].(ext := rlist[record].ext + [Ext(addr, len, block)])];
      scanState := DataExt;
    }

    /** The part of a block that belongs to record k, begun earlier: left bytes remain behind it. */
    method WalkDisplaced(addr0: nat, disp: nat, k: nat, total0: nat, block: nat)
      returns (left: int, addr: nat, total: nat)
      requires OnDisk() && block < |addrs| && addr0 == addrs[block]
      requires disp == Disp(B, recs, Off(B, block)) && disp != 0
      requires AtBlock(V(), block, rlist, scanState, k, total0)
      modifies this`rlist, this`scanState
      ensures k < old(|rlist|) == |recs|
      ensures rlist == old(rlist)[k := Entry(B, addrs, recs, Lf(), k, block + 1)]
      ensures scanState in {DataStarted, DataExt} && total == Total(V(), k + 1)
      ensures disp != SPANNED ==>
        && 0 < left < B && addr == addrs[block] + (B - left)
        && Start(recs, k + 1) == Off(B, block) + (B - left)
    {
      ghost var v := V();
      hide Entry, Exts, Encode, Stored, AddrsOk, RecordsOk, Hi, Disp, Off, Fits, Total, FileStart, Start, Scanned, StateAt;
      DisplacedFacts(v, block, rlist, scanState, k, total0);
      ghost var entry := Entry(B, addrs, recs, Lf(), k, block + 1);
      left, addr, total := B, addr0, total0;
      var len: int := if disp == SPANNED then B else disp;
      if scanState == HeaderStarted || scanState == HeaderComplete {
        ContinuedHeader(v, block, k);
      } else {
        ContinuedData(v, block, k);
      }
      if scanState == HeaderStarted {
        StreamByte(block, 0);
        HeaderBytes(recs, k);
        SetRecordLenLower(k, ReadByte(addr));
        left, len, addr := left - 1, len - 1, addr + 1;
      }
      if scanState == HeaderComplete {
        assert rlist[k] == NoRecord.(totalLen := |recs[k]|);
        total := SetRecord(k, addr, len, total, block);
        assert rlist[k] == entry;
      } else {
        SetRecordExtension(k, addr, len, block);
        assert rlist[k] == entry;
      }
      left, addr := left - len, addr + len;
    }

    /** Reads the two header bytes of the record at addr. */
    method ReadLength(addr: nat, ghost i: nat, ghost o: nat, ghost r: nat) returns (len: nat)
      requires OnDisk() && i < |addrs| && o + 2 <= B && addr == addrs[i] + o
      requires r <= |recs| && Start(recs, r) == Off(B, i) + o
      ensures len == if r < |recs| then |recs[r]| else 0
      ensures r < |recs| ==> RecordOk(recs[r])
    {
      StreamByte(i, o);
      StreamByte(i, o + 1);
      len := ReadByte(addr) * 256 + ReadByte(addr + 1);
      if r < |recs| {
        HeaderBytes(recs, r);
      } else {
        EncodeLength(recs);
      }
    }

    /** Scans the record headers of a block; the next header is expected left bytes before the block's end. */
    method WalkHeaders(addr0: nat, left0: int, record0: int, total0: nat, block: nat)
      returns (record: int, total: nat)
      requires OnDisk() && block < |addrs| && 0 <= left0 <= B && addr0 == addrs[block] + (B - left0)
      requires record0 >= -1
      requires AtHeader(V(), block, record0 + 1, rlist, scanState, record0, total0)
      requires Start(recs, record0 + 1) == Off(B, block) + (B - left0)
      modifies this`rlist, this`scanState
      ensures AtBlock(V(), block + 1, rlist, scanState, record, total)
    {
      hide Scanned, AtBlock, Encode, Stored, AddrsOk, RecordsOk, Total, FileStart, Off, Start, Fits;
      ghost var v := V();
      var left, addr := left0, addr0;
      record, total := record0, total0;
      while left >= 3
        invariant record >= -1 && 0 <= left <= B && addr == addrs[block] + (B - left)
        invariant AtHeader(v, block, record + 1, rlist, scanState, record, total)
        invariant Start(recs, record + 1) == Off(B, block) + (B - left)
      {
        var len: int := ReadLength(addr, block, B - left, record + 1);
        if len == 0 {
          LeaveAtHeader(v, block, record + 1, rlist, scanState, record, total);
          return;
        }
        HeaderStep(v, block, record + 1, rlist, scanState, total, left);
        ghost var was, at := rlist, left;
        record := record + 1;
        SetRecordLen(record, len);
        left, addr := left - 2, addr + 2;
        len := Min(len, left);
        total := SetRecord(record, addr, len, total, block);
        left, addr := left - len, addr + len;
        assert rlist == was[record := RecordEntry(|recs[record]|, addrs[block] + (B - at) + 2, len,
                                                  rlist[record].fileStart, [], block)];
        if left == 0 {  // nothing left to read, the record may go on in the next block
          return;
        }
      }
      if left == 2 {
        var len := ReadLength(addr, block, B - 2, record + 1);
        if len == 0 {
          LeaveAtHeader(v, block, record + 1, rlist, scanState, record, total);
          return;
        }
        HeaderAtEnd(v, block, record + 1, rlist, scanState, total, left);
        record := record + 1;
        SetRecordLen(record, len);
      } else if left == 1 {
        if record == nrRecords - 1 {
          LeaveAtHeader(v, block, record + 1, rlist, scanState, record, total);
          return;
        }
        HeaderAtEnd(v, block, record + 1, rlist, scanState, total, left);
        StreamByte(block, B - 1);
        HeaderBytes(recs, record + 1);
        record := record + 1;
        SetRecordLenUpper(record, ReadByte(addr));
      } else {
        LeaveAtHeader(v, block, record + 1, rlist, scanState, record, total);
      }
    }

    /** A displacement without a record in front of it. */
    ghost predicate Stray(disp: nat, record: int)
      reads this`scanState
    {
      disp != 0 && record < 0 && scanState != HeaderComplete
    }

    /**
      Scans one data block: disp is the stored displacement of the block, skip
      tells how many bytes in front of a record header are left out.
    */
    method WalkVarDataBlock(addr0: nat, disp0: nat, record0: int, total0: nat, block: nat, skip: nat)
      returns (rc: int, record: int, total: nat)
      requires OnDisk() && block < |addrs| && skip < B && addr0 == addrs[block] + skip && record0 >= -1
      requires skip == 0 && !Stray(disp0, record0) ==>
        AtBlock(V(), block, rlist, scanState, record0, total0) && disp0 == Disp(B, recs, Off(B, block))
      requires skip > 0 ==>
        && AtHeader(V(), block, record0 + 1, rlist, scanState, record0, total0)
        && Start(recs, record0 + 1) == Off(B, block) + skip
      modifies this`rlist, this`scanState
      ensures rc == if skip == 0 && old(Stray(disp0, record0)) then EIO else 0
      ensures rc == 0 ==> AtBlock(V(), block + 1, rlist, scanState, record, total)
    {
      hide Entry, Exts, Encode, Stored, AddrsOk;
      ghost var v := V();
      var left, addr := B - skip, addr0;
      rc, record, total := 0, record0, total0;
      var disp := if skip > 0 then 0 else disp0;
      if disp != 0 {
        if record < 0 && scanState != HeaderComplete {
          rc := EIO;
          return;
        }
        DisplacedFacts(v, block, rlist, scanState, record, total);
        LastAdvanced(v, block, rlist, record);
        left, addr, total := WalkDisplaced(addr, disp, record, total, block);
        if disp == SPANNED {
          LeaveSpanned(v, block, record, rlist, scanState, total);
          return;
        }
      } else if skip == 0 {
        EnterAtHeader(v, block, rlist, scanState, record, total);
      }
      record, total := WalkHeaders(addr, left, record, total, block);
    }

    // ----------------------------------------------------------------
    // Building the index
    // ----------------------------------------------------------------

    /** The block list is right below block i and carries at least address and displacement from there on. */
    ghost predicate BlocksDone(i: nat)
      reads this`recs, this`addrs, this`blist
    {
      && |blist| == |addrs|
      && (forall j :: 0 <= j < i <= |addrs| ==> blist[j] == BlockAt(B, addrs, recs, j))
      && (forall j :: i <= j < |addrs| ==> blist[j].diskAddr == addrs[j] && blist[j].disp == Disp(B, recs, Off(B, j)))
    }

    /** Scans data block number block and stores what the block list keeps about it. */
    method CacheVariableDataBlock(addr: nat, block0: nat, record0: int, disp: nat, total0: nat, skip: nat)
      returns (rc: int, block: nat, record: int, total: nat)
      requires OnDisk() && block0 < |addrs| == |blist| && skip < B && addr == addrs[block0] + skip
      requires -1 <= record0 < nrRecords && disp == Disp(B, recs, Off(B, block0))
      requires skip == 0 ==> AtBlock(V(), block0, rlist, scanState, record0, total0)
      requires skip > 0 ==>
        && AtHeader(V(), block0, record0 + 1, rlist, scanState, record0, total0)
        && Start(recs, record0 + 1) == Off(B, block0) + skip
      modifies this`rlist, this`scanState, this`blist
      ensures rc == 0 && block == block0 + 1
      ensures AtBlock(V(), block, rlist, scanState, record, total)
      ensures blist == old(blist)[block0 := BlockAt(B, addrs, recs, block0)]
    {
      hide Scanned, AtHeader, Encode, Stored, RecordsOk, Disp, Off, StateAt, Opened, Total;
      rc, block, record, total := 0, block0, record0, total0;
      if block >= nrBlocks || record >= nrRecords {
        return;
      }
      BaseOf(B, addrs[block], skip);
      blist := blist[block := blist[block].(diskAddr := Base(B, addr))];
      if skip == 0 { NotStray(V(), block, rlist, scanState, record, total); }
      rc, record, total := WalkVarDataBlock(addr, disp, record, total, block, skip);
      blist := blist[block := blist[block].(hiRecordNr := record + 1, disp := disp)];
      block := block + 1;
    }

    /** Builds the index from the data blocks the pointers lead to. */
    method CacheFile(found: seq<Found>) returns (rc: int)
      requires OnDisk() && |blist| == |addrs| == |found| && nrRecords > 0
      requires forall i :: 0 <= i < |found| ==> found[i] == Found(addrs[i], Disp(B, recs, Off(B, i)))
      requires scanState == DataStarted && rlist == seq(|recs|, _ => NoRecord)
      modifies this`rlist, this`scanState, this`blist
      ensures rc == 0
      ensures rlist == RecordIndex(B, addrs, recs, Lf()) && blist == BlockIndex(B, addrs, recs)
    {
      hide Disp, Off, Hi, Stored, Encode, Scanned, StateAt, Opened, Total;
      var block, record, total: nat := 0, -1, 0;
      rc := 0;
      ScanStart(V(), rlist);
      while block < |found|
        invariant 0 <= block <= |addrs| == |blist| && rc == 0
        invariant AtBlock(V(), block, rlist, scanState, record, total)
        invariant forall j :: 0 <= j < block ==> blist[j] == BlockAt(B, addrs, recs, j)
      {
        RecordInRange(V(), block, rlist, scanState, record, total);
        rc, block, record, total := CacheVariableDataBlock(found[block].addr, block, record, found[block].disp, total, 0);
      }
      ScanDone(V(), rlist, scanState, record, total);
    }

    // ----------------------------------------------------------------
    // Writing records
    // ----------------------------------------------------------------

    /** The blocks hold the stream data, which ends off bytes into the last block. */
    ghost predicate Ends(data: seq<byte>, off: nat)
      reads this`addrs, this`disk, this`writePtr, this`nrBlocks, this`blist, store`used
    {
      && Blksize(B) && AddrsOk(B, addrs) && Stored(B, disk, addrs, data)
      && nrBlocks == |addrs| <= |blist|
      && |addrs| > 0 && off <= B && |data| == Off(B, |addrs| - 1) + off
      && writePtr == addrs[|addrs| - 1] + off
      && (forall i :: 0 <= i < |addrs| ==> addrs[i] in store.used && blist[i].diskAddr == addrs[i])
    }

    /**
      What the write state says when d bytes of a record of full bytes are
      written, header included. A record that ended with its block is closed
      only with the next block.
    */
    ghost predicate Underway(full: nat, d: nat)
      reads this`recordState, this`recordLeft
    {
      && (d == 0 ==> recordState == WrComplete || (recordState == WrIncomplete && recordLeft == 0))
      && (d == 1 ==> recordState == WrHeaderStarted)
      && (d == HEADER_SIZE ==> recordState == WrHeaderComplete)
      && (d > HEADER_SIZE ==> recordState == WrIncomplete)
      && (d > 0 ==> recordLeft == if d < HEADER_SIZE then full - HEADER_SIZE else full - d)
    }

    /** The write of the records xs has come to byte d of record k. */
    ghost predicate Written(xs: seq<Record>, k: nat, d: nat)
      reads this`recordState, this`recordLeft
    {
      Place(xs, k, d) && Underway(if k < |xs| then HEADER_SIZE + |xs[k]| else 0, d)
    }

    /** Writes bytes at the write pointer, inside the last block. */
    method WriteBytes(w: seq<byte>, ghost data: seq<byte>, ghost off: nat)
      requires Ends(data, off) && off < B && off + |w| <= B
      modifies this`disk, this`writePtr, this`blockFree
      ensures Ends(data + w, off + |w|) && blockFree == old(blockFree) - |w|
    {
      hide Off, Stored, AddrsOk;
      ghost var i := |addrs| - 1;
      assert addrs[i] % B == 0 by { AddrAligned(B, addrs, i); }
      StoredWrite(B, disk, addrs, data, w, i, off);
      BaseOf(B, addrs[i], off);
      var base := Base(B, writePtr);
      disk := disk[base := Splice(disk[base], writePtr % B, w)];
      writePtr := writePtr + |w|;
      blockFree := blockFree - |w|;
    }

    /** The block list with the displacement of the last block. */
    static ghost function Marked(blist: seq<BlockEntry>, n: nat, disp: nat): seq<BlockEntry> {
      if 0 < n <= |blist| then blist[n - 1 := blist[n - 1].(disp := disp)] else blist
    }

    /** Stores the displacement for the first write to a new block. */
    method StoreDisplacement(disp: nat, ghost data: seq<byte>, ghost off: nat)
      requires Ends(data, off)
      modifies this`blist, this`blockState
      ensures Ends(data, off) && blist == Marked(old(blist), nrBlocks, disp) && blockState == UsedBlock
    {
      blist := blist[nrBlocks - 1 := blist[nrBlocks - 1].(disp := disp)];
      blockState := UsedBlock;
    }

    /** Writes what is missing of the record header, at most len bytes, and returns the number of bytes written. */
    method WriteVarHeader(len: nat, vheader: nat, ghost data: seq<byte>, ghost off: nat, ghost d: nat, ghost rec: Record)
      returns (written: nat)
      requires Ends(data, off) && off < B && len == B - off && RecordOk(rec)
      requires d < |Framed(rec)| && Underway(|Framed(rec)|, d)
      requires d < HEADER_SIZE ==> vheader == |rec|
      modifies this`disk, this`writePtr, this`blockFree, this`blist, this`blockState, this`recordState, this`recordLeft
      ensures written == if d < HEADER_SIZE && old(recordState) != WrIncomplete then Min(len, HEADER_SIZE - d) else 0
      ensures written == 0 ==> recordState == old(recordState) && recordLeft == old(recordLeft)
      ensures written > 0 ==>
        && recordLeft == |rec|
        && recordState == (if d + written == HEADER_SIZE then WrHeaderComplete else WrHeaderStarted)
      ensures d + written <= |Framed(rec)| && Ends(data + Framed(rec)[d..d + written], off + written)
      ensures blockFree == old(blockFree) - written
      ensures if d == 0 && written > 0 && old(blockState) == NewBlock
              then blockState == UsedBlock && blist == Marked(old(blist), nrBlocks, off)
              else blockState == old(blockState) && blist == old(blist)
    {
      hide Off, Stored, AddrsOk, Framed, Header, Marked, Ends;
      FramedLength(rec);
      if recordState == WrHeaderComplete || recordState == WrIncomplete {
        assert data + Framed(rec)[d..d] == data;
        return 0;
      }
      FramedHeader(rec, d, Min(len, HEADER_SIZE - d));
      ghost var h := [|rec| / 256, |rec| % 256];
      assert h[0..2] == h && h[0..1] == [h[0]] && h[1..2] == [h[1]];
      if recordState == WrHeaderStarted {
        WriteBytes([vheader % 256], data, off);
        recordState := WrHeaderComplete;
        return 1;
      }
      if blockState == NewBlock {
        WritePtrOffset(data, off);
        StoreDisplacement(writePtr % B, data, off);
      }
      recordLeft := vheader;
      if len >= 2 {
        WriteBytes([vheader / 256, vheader % 256], data, off);
        recordState := WrHeaderComplete;
        return 2;
      } else {
        WriteBytes([vheader / 256], data, off);
        recordState := WrHeaderStarted;
        return 1;
      }
    }

    /**
      Writes rlen data bytes behind the header bytes that were just put on the
      block; none at all if the record before ended with the block before.
    */
    method WriteRecordData(buf: seq<byte>, rlen: nat, written: nat, ghost head: seq<byte>, ghost off: nat, ghost full: nat, ghost d: nat)
      requires Ends(head, off + written) && off + written < B && off + written + rlen <= B
      requires rlen <= |buf| && rlen <= recordLeft && d <= full
      requires rlen == 0 ==> recordLeft == 0 && d == 0 && written == 0
      requires rlen > 0 ==> HEADER_SIZE <= d + written && written <= HEADER_SIZE && recordLeft == full - d - written
      requires blockState == NewBlock ==> off == 0 && B >= 2
      requires blockState == NewBlock && rlen > 0 ==> d > 0 && written <= 1 && (rlen < recordLeft ==> written + rlen == B)
      modifies this`disk, this`writePtr, this`blockFree, this`blist, this`blockState, this`recordState, this`recordLeft
      ensures Ends(head + buf[..rlen], off + written + rlen) && blockFree == old(blockFree) - rlen
      ensures recordLeft == old(recordLeft) - rlen
      ensures recordState == if recordLeft == 0 then WrComplete else old(recordState)
      ensures if old(blockState) == NewBlock
              then blockState == UsedBlock && blist == Marked(old(blist), nrBlocks, NewDisp(B, full, d))
              else blockState == old(blockState) && blist == old(blist)
    {
      hide Off, Stored, AddrsOk, Ends, Marked;
      var max := B;
      WriteBytes(buf[..rlen], head, off + written);
      if blockState == NewBlock {
        if written == 1 {
          max := max - 1;
        }
        if rlen >= max {
          StoreDisplacement(SPANNED, head + buf[..rlen], off + written + rlen);
        } else {
          WritePtrOffset(head + buf[..rlen], off + written + rlen);
          StoreDisplacement(writePtr % B, head + buf[..rlen], off + written + rlen);
        }
      }
      recordLeft := recordLeft - rlen;
      if recordLeft == 0 {
        recordState := WrComplete;
      }
    }

    /** The length of the next record when size bytes are left to write. */
    static function GetRecordLen(size: nat): nat {
      Min(size, MAX_RECORD_LEN)
    }

    /** The record length suits a record of which d bytes are written, with size bytes left to write. */
    ghost predicate Suits(rlen: nat, size: nat, rec: Record, d: nat)
      reads this`recordLeft
    {
      && (d < HEADER_SIZE ==> Min(rlen, size) == |rec|)
      && (d >= HEADER_SIZE ==> recordLeft <= rlen && recordLeft <= size)
    }

    /** Number of data bytes that a block with len bytes left takes of a record of which d bytes are written. */
    static ghost function Share(rec: Record, d: nat, len: nat): nat
      requires d <= HEADER_SIZE + |rec|
    {
      DataPart(Min(HEADER_SIZE + |rec|, d + len)) - DataPart(d)
    }

    /**
      Into the len bytes left on a block went vhLen header and copied data bytes
      of a record of full bytes, behind the d0 bytes written before; none at all
      if the record before was still to be closed.
    */
    ghost predicate After(full: nat, d0: nat, len: nat, closing: bool, vhLen: nat, copied: nat)
      reads this`recordState, this`recordLeft
    {
      var d := d0 + vhLen + copied;
      && d == (if closing then 0 else Min(full, d0 + len)) && vhLen + copied <= len && copied == DataPart(d) - DataPart(d0)
      && (d == 0 || d == full ==> recordState == WrComplete && recordLeft == 0)
      && (vhLen == len ==> Underway(full, d))
      && (0 < d < full && vhLen < len ==> d > HEADER_SIZE && recordLeft == full - d)
    }

    /** A record of which d bytes are written can go on in a block with len bytes left; buf begins with the data for it. */
    ghost predicate RecordReady(buf: seq<byte>, size: nat, len: nat, rlen: nat, rec: Record, d: nat)
      reads this`recordState, this`recordLeft
    {
      && RecordOk(rec) && d < HEADER_SIZE + |rec| && 0 < len && Underway(HEADER_SIZE + |rec|, d) && Suits(rlen, size, rec, d)
      && Shares(buf, rec, d, len)
    }

    /** The buffer begins with the data that goes to the block. */
    static ghost predicate Shares(buf: seq<byte>, rec: Record, d: nat, len: nat)
      requires d <= HEADER_SIZE + |rec|
    {
      var n := Share(rec, d, len);
      n <= |buf| && buf[..n] == rec[DataPart(d)..][..n]
    }

    /**
      Writes what fits into the len bytes left on the block of the header and
      the data of a record, d0 bytes of which are written already.
    */
    method WriteRecord(buf: seq<byte>, size: nat, len0: nat, rlen0: nat, ghost data: seq<byte>, ghost off: nat,
                       ghost rec: Record, ghost d0: nat)
      returns (vhLen: nat, copied: nat)
      requires Blksize(B) && Ends(data, off) && off < B && len0 == B - off && RecordReady(buf, size, len0, rlen0, rec, d0)
      requires blockState == NewBlock ==> off == 0
      modifies this`disk, this`writePtr, this`blockFree, this`blist, this`blockState, this`recordState, this`recordLeft
      ensures d0 + vhLen + copied <= HEADER_SIZE + |rec| && |rec| <= MAX_RECORD_LEN
      ensures After(HEADER_SIZE + |rec|, d0, len0, old(recordState) == WrIncomplete && d0 == 0, vhLen, copied)
      ensures Ends(data + Framed(rec)[d0..d0 + vhLen + copied], off + vhLen + copied) && blockFree == old(blockFree) - vhLen - copied
      ensures blockState == (if old(blockState) == NewBlock then UsedBlock else old(blockState))
      ensures blist == if old(blockState) == NewBlock then Marked(old(blist), nrBlocks, NewDisp(B, HEADER_SIZE + |rec|, d0)) else old(blist)
    {
      hide Off, Stored, AddrsOk, Framed, Header, Ends, After, NewDisp, Marked, RecordReady, Underway, Suits, Shares;
      ReadyFacts(buf, size, len0, rlen0, rec, d0);
      FramedLength(rec);
      NewDispHeader(B, HEADER_SIZE + |rec|);
      ghost var closing := recordState == WrIncomplete && d0 == 0;
      var rlen := Min(rlen0, size);
      vhLen := WriteVarHeader(len0, rlen, data, off, d0, rec);
      if vhLen == len0 {
        AfterHeader(HEADER_SIZE + |rec|, d0, len0, vhLen);
        return vhLen, 0;
      }
      copied := WriteRest(buf, rlen, len0, vhLen, data, off, rec, d0, closing);
    }

    /** Writes record data behind vhLen header bytes, with which no more than the block has been filled. */
    method WriteRest(buf: seq<byte>, rlen0: nat, len0: nat, vhLen: nat, ghost data: seq<byte>, ghost off: nat,
                     ghost rec: Record, ghost d0: nat, ghost closing: bool)
      returns (copied: nat)
      requires Blksize(B) && RecordOk(rec) && d0 < |Framed(rec)| && vhLen < len0 == B - off
      requires vhLen == if d0 < HEADER_SIZE && !closing then HEADER_SIZE - d0 else 0
      requires d0 + vhLen <= |Framed(rec)| && Ends(data + Framed(rec)[d0..d0 + vhLen], off + vhLen)
      requires recordLeft == (if closing then 0 else |Framed(rec)| - d0 - vhLen) <= rlen0 && (closing ==> d0 == 0)
      requires Shares(buf, rec, d0, len0)
      requires blockState == NewBlock ==> off == 0 && (d0 > 0 || closing)
      modifies this`disk, this`writePtr, this`blockFree, this`blist, this`blockState, this`recordState, this`recordLeft
      ensures d0 + vhLen + copied <= HEADER_SIZE + |rec|
      ensures After(HEADER_SIZE + |rec|, d0, len0, closing, vhLen, copied)
      ensures Ends(data + Framed(rec)[d0..d0 + vhLen + copied], off + vhLen + copied) && blockFree == old(blockFree) - copied
      ensures blockState == (if old(blockState) == NewBlock then UsedBlock else old(blockState))
      ensures blist == if old(blockState) == NewBlock then Marked(old(blist), nrBlocks, NewDisp(B, HEADER_SIZE + |rec|, d0)) else old(blist)
    {
      hide Off, Stored, AddrsOk, Framed, Header, Ends, After, NewDisp, Marked;
      FramedLength(rec);
      ghost var head := data + Framed(rec)[d0..d0 + vhLen];
      var rlen := Min(Min(rlen0, len0 - vhLen), recordLeft);
      FramedData(rec, d0, vhLen, rlen);
      ShareFront(buf, rec, d0, len0, rlen);
      assert head + buf[..rlen] == data + Framed(rec)[d0..d0 + vhLen + rlen];
      WriteRecordData(buf, rlen, vhLen, head, off, HEADER_SIZE + |rec|, d0);
      copied := rlen;
      AfterData(HEADER_SIZE + |rec|, d0, len0, closing, vhLen, rlen);
    }

    lemma ReadyFacts(buf: seq<byte>, size: nat, len: nat, rlen: nat, rec: Record, d: nat)
      requires RecordReady(buf, size, len, rlen, rec, d)
      ensures RecordOk(rec) && d < |Framed(rec)| && Underway(|Framed(rec)|, d) && (d < HEADER_SIZE ==> Min(rlen, size) == |rec|)
      ensures d >= HEADER_SIZE || (recordState == WrIncomplete && d == 0) ==>
        recordLeft == (if d == 0 then 0 else |Framed(rec)| - d) <= Min(rlen, size)
      ensures Shares(buf, rec, d, len) && (d == 1 ==> recordState == WrHeaderStarted)
    {
      hide Framed, Shares;
      FramedLength(rec);
    }

    lemma NewDispHeader(B: nat, full: nat)
      ensures NewDisp(B, full, 0) == 0
    {
    }

    lemma ShareFront(buf: seq<byte>, rec: Record, d: nat, len: nat, n: nat)
      requires d <= HEADER_SIZE + |rec| && n <= Share(rec, d, len) && Shares(buf, rec, d, len)
      ensures n <= |buf| && buf[..n] == rec[DataPart(d)..][..n]
    {
      var m, rest := Share(rec, d, len), rec[DataPart(d)..];
      assert buf[..n] == buf[..m][..n] && rest[..n] == rest[..m][..n];
    }

    lemma AfterHeader(full: nat, d0: nat, len: nat, vhLen: nat)
      requires full > HEADER_SIZE && d0 < HEADER_SIZE && 0 < vhLen == len <= HEADER_SIZE - d0
      requires recordLeft == full - HEADER_SIZE && recordState == if d0 + vhLen == HEADER_SIZE then WrHeaderComplete else WrHeaderStarted
      ensures After(full, d0, len, false, vhLen, 0)
    {
    }

    lemma AfterData(full: nat, d0: nat, len: nat, closing: bool, vhLen: nat, rlen: nat)
      requires full > HEADER_SIZE && d0 < full && vhLen < len && vhLen + rlen <= len && (closing ==> d0 == 0 && vhLen == rlen == 0)
      requires !closing ==> vhLen == if d0 < HEADER_SIZE then HEADER_SIZE - d0 else 0
      requires !closing ==> rlen == Min(len - vhLen, full - d0 - vhLen)
      requires recordLeft == (if closing then 0 else full - d0 - vhLen - rlen) && (recordLeft == 0 ==> recordState == WrComplete)
      ensures After(full, d0, len, closing, vhLen, rlen)
    {
    }

    /** Of the stream of ys the bytes from at up to byte d of record k lie behind data, which ended off bytes into the block. */
    ghost predicate Upto(data: seq<byte>, off: nat, ys: seq<Record>, at: nat, k: nat, d: nat)
      reads this`addrs, this`disk, this`writePtr, this`nrBlocks, this`blist, store`used
    {
      && Place(ys, k, d) && at <= At(ys, k, d) <= |Encode(ys)|
      && Ends(data + Encode(ys)[at..At(ys, k, d)], off + (At(ys, k, d) - at))
    }

    lemma NothingYet(data: seq<byte>, off: nat, ys: seq<Record>, k: nat, d: nat)
      requires Place(ys, k, d) && Ends(data, off)
      ensures Upto(data, off, ys, At(ys, k, d), k, d)
    {
      hide Ends;
      EncodeLength(ys);
      if k < |ys| { StartMono(ys, k + 1, |ys|); }
      assert data + Encode(ys)[At(ys, k, d)..At(ys, k, d)] == data;
    }

    lemma UptoBound(data: seq<byte>, off: nat, ys: seq<Record>, at: nat, k: nat, d: nat)
      requires Upto(data, off, ys, at, k, d)
      ensures Place(ys, k, d) && at <= At(ys, k, d) <= |Encode(ys)| && (k == |ys| ==> At(ys, k, d) == |Encode(ys)|)
    {
      hide Ends;
      EncodeLength(ys);
    }

    /** The next piece of the record at hand continues what is already on disk. */
    lemma StreamPiece(data: seq<byte>, ys: seq<Record>, at: nat, k: nat, d: nat, e: nat)
      requires RecordsOk(ys) && k < |ys| && d <= e <= HEADER_SIZE + |ys[k]| && at <= At(ys, k, d) && |ys[k]| <= MAX_RECORD_LEN
      ensures At(ys, k, d) <= At(ys, k, e) <= |Encode(ys)|
      ensures data + Encode(ys)[at..At(ys, k, d)] + Framed(ys[k])[d..e] == data + Encode(ys)[at..At(ys, k, e)]
    {
      hide Encode, Framed, Start;
      PieceOf(ys, k, d, e - d);
    }

    /** The block is full behind data of record k, or behind the record before it. */
    ghost predicate Pausing(ys: seq<Record>, k: nat, d: nat)
      reads this`recordLeft
    {
      && k < |ys| && Place(ys, k, d) && (d == 0 || d > HEADER_SIZE)
      && recordLeft == if d == 0 then 0 else HEADER_SIZE + |ys[k]| - d
    }

    lemma Paused(ys: seq<Record>, k: nat, d: nat)
      requires Pausing(ys, k, d) && recordState == WrIncomplete
      ensures Written(ys, k, d)
    {
    }

    /** On the block of the job the write has come to record k: the first one or the one behind it. */
    static ghost predicate Reached(j: Job, k: nat, d: nat) {
      k < |j.t.ys| && ((k == j.k && d == j.d) || (k == j.k + 1 && d == 0))
    }

    /** The write t has come to byte d of record k, with size bytes left. */
    ghost predicate Midway(t: Task, k: nat, d: nat, size: nat, rlen: nat)
      reads this`recordState, this`recordLeft
    {
      Written(t.ys, k, d) && k < |t.ys| && size == |t.whole| - Taken(t.ys, k, d) && Suits(rlen, size, t.ys[k], d)
    }

    /** The place behind d bytes of record k. */
    static ghost function Behind(ys: seq<Record>, k: nat, d: nat): (nat, nat)
      requires k < |ys|
    {
      if d == HEADER_SIZE + |ys[k]| then (k + 1, 0) else (k, d)
    }

    lemma BehindPlace(t: Task, k: nat, d: nat)
      requires TaskOk(t) && k < |t.ys| && d <= HEADER_SIZE + |t.ys[k]|
      ensures
        var (k', d') := Behind(t.ys, k, d);
        && Place(t.ys, k', d') && At(t.ys, k', d') == At(t.ys, k, d) && Taken(t.ys, k', d') == Taken(t.ys, k, d) <= |t.whole|
        && (Taken(t.ys, k', d') == |t.whole| <==> k' == |t.ys|)
    {
      hide TaskOk;
      TaskRecord(t, k);
      TaskRecord(t, k + 1);
      assert RecordOk(t.ys[k]);
    }

    /** The record length that what is left of the buffer asks for suits the next record. */
    lemma NextSuits(t: Task, k: nat, d: nat, size: nat, rlen: nat)
      requires TaskOk(t) && k < |t.ys| && Written(t.ys, k, d) && size == |t.whole| - Taken(t.ys, k, d)
      requires rlen == GetRecordLen(|t.whole|) || (d == 0 && rlen == GetRecordLen(size))
      ensures Midway(t, k, d, size, rlen)
    {
      hide TaskOk, FileStart;
      TaskRecord(t, k);
    }

    /** What the block of the job takes of the record at hand is what the buffer in front of the block begins with. */
    lemma Fed(j: Job, buf: seq<byte>, k: nat, d: nat, len: nat)
      requires JobOk(j) && Feeds(buf, j.t, j.k, j.d) && Reached(j, k, d) && Place(j.t.ys, k, d)
      requires At(j.t.ys, k, d) - At(j.t.ys, j.k, j.d) + len == j.t.B - j.off
      ensures Shares(buf, j.t.ys[k], d, len)
    {
      hide TaskOk, Start, Off;
      var rec := j.t.ys[k];
      var n := Share(rec, d, len);
      if k == j.k {
        FirstFeed(j, buf, n);
      } else if n > 0 {
        assert rec[0..] == rec;
        SecondFeed(j, buf, n);
      }
    }

    /** Writes what fits on the block of the record at hand and moves on to the place behind it. */
    method WriteNext(buf: seq<byte>, size: nat, len: nat, rlen: nat, ghost data: seq<byte>, ghost j: Job, ghost k0: nat, ghost d0: nat)
      returns (vhLen: nat, copied: nat, ghost k: nat, ghost d: nat)
      requires j.t.B == B && JobOk(j) && Feeds(buf, j.t, j.k, j.d) && Reached(j, k0, d0) && Midway(j.t, k0, d0, size, rlen)
      requires Upto(data, j.off, j.t.ys, At(j.t.ys, j.k, j.d), k0, d0)
      requires 0 < len == B - j.off - (At(j.t.ys, k0, d0) - At(j.t.ys, j.k, j.d))
      requires blockState == NewBlock ==> j.off == 0 && k0 == j.k && d0 == j.d
      modifies this`disk, this`writePtr, this`blockFree, this`blist, this`blockState, this`recordState, this`recordLeft
      ensures Upto(data, j.off, j.t.ys, At(j.t.ys, j.k, j.d), k, d)
      ensures AfterNext(j.t, k0, d0, size, len, old(recordState) == WrIncomplete && d0 == 0, vhLen, copied, k, d)
      ensures blockFree == old(blockFree) - vhLen - copied
      ensures blockState == (if old(blockState) == NewBlock then UsedBlock else old(blockState))
      ensures blist == if old(blockState) == NewBlock then Marked(old(blist), nrBlocks, NewDisp(B, HEADER_SIZE + |j.t.ys[k0]|, d0)) else old(blist)
    {
      hide Off, Stored, AddrsOk, Framed, Ends, Encode, Start, FileStart, NewDisp, Marked, TaskOk, After, AfterNext, Taken,
           JobOk, Feeds, Reached, Midway, RecordReady;
      ghost var ys := j.t.ys;
      ReadyNext(j, buf, k0, d0, size, len, rlen);
      ghost var at, done := At(ys, j.k, j.d), At(ys, k0, d0);
      ghost var closing := recordState == WrIncomplete && d0 == 0;
      vhLen, copied := WriteRecord(buf, size, len, rlen, data + Encode(ys)[at..done], j.off + (done - at), ys[k0], d0);
      StreamPiece(data, ys, at, k0, d0, d0 + vhLen + copied);
      k, d := MovedOn(j.t, k0, d0, size, len, closing, vhLen, copied);
    }

    lemma ReadyNext(j: Job, buf: seq<byte>, k: nat, d: nat, size: nat, len: nat, rlen: nat)
      requires JobOk(j) && Feeds(buf, j.t, j.k, j.d) && Reached(j, k, d) && Midway(j.t, k, d, size, rlen) && 0 < len
      requires At(j.t.ys, k, d) - At(j.t.ys, j.k, j.d) + len == j.t.B - j.off
      ensures RecordReady(buf, size, len, rlen, j.t.ys[k], d)
      ensures Blksize(j.t.B) && TaskOk(j.t) && Place(j.t.ys, k, d) && j.k <= k < |j.t.ys| && Taken(j.t.ys, k, d) + size == |j.t.whole|
    {
      hide TaskOk, Start, Off, FileStart;
      Fed(j, buf, k, d, len);
      assert RecordOk(j.t.ys[k]);
      TaskSizes(j.t);
    }

    lemma TaskSizes(t: Task)
      requires TaskOk(t)
      ensures Blksize(t.B)
    {
      hide Put;
    }

    /** What is known at the place behind the bytes of record k0 that went to the block. */
    ghost predicate AfterNext(t: Task, k0: nat, d0: nat, size: nat, len: nat, closing: bool, vhLen: nat, copied: nat, k: nat, d: nat)
      requires k0 < |t.ys|
      reads this`recordState, this`recordLeft
    {
      var ys := t.ys;
      && k <= |ys| && At(ys, k, d) == At(ys, k0, d0) + vhLen + copied <= At(ys, k0, d0) + len
      && copied == Taken(ys, k, d) - Taken(ys, k0, d0) <= size && (copied == size <==> k == |ys|)
      && (k == |ys| ==> d == 0) && (vhLen == len || d == 0 ==> Written(ys, k, d))
      && (vhLen < len && k < |ys| ==> Pausing(ys, k, d))
      && (vhLen < len && d == 0 ==> recordState == WrComplete && recordLeft == 0)
      && (vhLen < len && d > 0 ==> vhLen + copied == len)
      && (vhLen + copied == 0 ==> closing && k == k0 && d == d0 == 0)
      && (vhLen + copied > 0 && d == 0 ==> k == k0 + 1)
    }

    lemma MovedOn(t: Task, k0: nat, d0: nat, size: nat, len: nat, closing: bool, vhLen: nat, copied: nat) returns (k: nat, d: nat)
      requires TaskOk(t) && Place(t.ys, k0, d0) && k0 < |t.ys| && 0 < len && (closing ==> d0 == 0)
      requires After(HEADER_SIZE + |t.ys[k0]|, d0, len, closing, vhLen, copied) && Taken(t.ys, k0, d0) + size == |t.whole|
      ensures AfterNext(t, k0, d0, size, len, closing, vhLen, copied, k, d)
      ensures Place(t.ys, k, d) && At(t.ys, k, d) == At(t.ys, k0, d0) + vhLen + copied
    {
      hide TaskOk, Start;
      BehindPlace(t, k0, d0 + vhLen + copied);
      var next := Behind(t.ys, k0, d0 + vhLen + copied);
      k, d := next.0, next.1;
      assert RecordOk(t.ys[k0]);
    }

    /**
      Writes as many records as fit into the len bytes left on the current block
      and returns the number of data bytes. All data comes from the start of
      buf, also that of a second record.
    */
    method ExtendBlockVariable(buf: seq<byte>, len0: nat, rlen0: nat, ghost data: seq<byte>, ghost j: Job)
      returns (copied: nat, ghost k: nat, ghost d: nat)
      requires j.t.B == B && JobOk(j) && Ends(data, j.off) && len0 == B - j.off && Feeds(buf, j.t, j.k, j.d)
      requires Written(j.t.ys, j.k, j.d) && rlen0 == GetRecordLen(|j.t.whole|)
      requires blockState == NewBlock ==> j.off == 0
      modifies this`disk, this`writePtr, this`blockFree, this`blist, this`blockState, this`recordState, this`recordLeft
      ensures Written(j.t.ys, k, d) && Upto(data, j.off, j.t.ys, At(j.t.ys, j.k, j.d), k, d)
      ensures
        var ys := j.t.ys;
        var at, now := At(ys, j.k, j.d), At(ys, k, d);
        && now == Min(|Encode(ys)|, at + len0) && copied == Taken(ys, k, d) - Taken(ys, j.k, j.d)
        && blockFree == old(blockFree) - (now - at)
      ensures blockState == (if old(blockState) == NewBlock then UsedBlock else old(blockState))
      ensures blist == if old(blockState) == NewBlock then Marked(old(blist), nrBlocks, NewDisp(B, HEADER_SIZE + |j.t.ys[j.k]|, j.d)) else old(blist)
    {
      hide Ends, Encode, NewDisp, Written, Upto, Marked, JobOk, Feeds, InBlock, Pausing, Place, At, Taken;
      BlockBegun(j, data, buf, rlen0);
      k, d := j.k, j.d;
      var len, rlen, over := len0, rlen0, false;
      copied := 0;
      ghost var was, list, marked := blockState, blist, Marked(blist, nrBlocks, NewDisp(B, HEADER_SIZE + |j.t.ys[j.k]|, j.d));
      ghost var touched := false;
      while len > 0 && !over
        invariant 0 <= len && InBlock(j, data, buf, copied, len, rlen, over, k, d)
        invariant blockFree == old(blockFree) - (len0 - len)
        invariant !touched ==> !over && len == len0 && k == j.k && d == j.d && blockState == was && blist == list
        invariant touched && was == NewBlock ==> blockState == UsedBlock && blist == marked
        invariant touched && was != NewBlock ==> blockState == was && blist == list
        decreases !over, len, if recordState == WrComplete then 0 else 1
      {
        copied, len, rlen, over, k, d := BlockStep(buf, copied, len, rlen, data, j, k, d);
        touched := true;
      }
      BlockDone(j, data, buf, copied, len, rlen, over, k, d);
      if !over {
        recordState := WrIncomplete;
        Paused(j.t.ys, k, d);
      }
    }

    /** The loop over the records of one block: copied data bytes are written and len bytes left on the block. */
    ghost predicate InBlock(j: Job, data: seq<byte>, buf: seq<byte>, copied: nat, len: nat, rlen: nat, over: bool, k: nat, d: nat)
      reads this`addrs, this`disk, this`writePtr, this`nrBlocks, this`blist, store`used, this`recordState, this`recordLeft
    {
      && j.k < |j.t.ys| && k <= |j.t.ys| && |buf| == |j.t.whole| - Taken(j.t.ys, j.k, j.d)
      && Upto(data, j.off, j.t.ys, At(j.t.ys, j.k, j.d), k, d) && copied == Taken(j.t.ys, k, d) - Taken(j.t.ys, j.k, j.d) <= |buf|
      && len == j.t.B - j.off - (At(j.t.ys, k, d) - At(j.t.ys, j.k, j.d))
      && (!over && len > 0 ==> Reached(j, k, d) && Midway(j.t, k, d, |buf| - copied, rlen))
      && (!over && len == 0 ==> Pausing(j.t.ys, k, d))
      && (over ==> Written(j.t.ys, k, d) && (len == 0 || k == |j.t.ys|))
    }

    lemma BlockBegun(j: Job, data: seq<byte>, buf: seq<byte>, rlen: nat)
      requires JobOk(j) && Ends(data, j.off) && Feeds(buf, j.t, j.k, j.d)
      requires Written(j.t.ys, j.k, j.d) && rlen == GetRecordLen(|j.t.whole|)
      ensures InBlock(j, data, buf, 0, j.t.B - j.off, rlen, false, j.k, j.d)
      ensures j.k < |j.t.ys| && j.d <= HEADER_SIZE + |j.t.ys[j.k]| && j.off < j.t.B
    {
      hide Ends, Encode, Start, FileStart, Off, TaskOk, Upto, Midway;
      NothingYet(data, j.off, j.t.ys, j.k, j.d);
      NextSuits(j.t, j.k, j.d, |buf|, rlen);
    }

    /** One round of the loop over the records of a block. */
    method BlockStep(buf: seq<byte>, copied0: nat, len0: nat, rlen0: nat, ghost data: seq<byte>, ghost j: Job, ghost k0: nat, ghost d0: nat)
      returns (copied: nat, len: nat, rlen: nat, over: bool, ghost k: nat, ghost d: nat)
      requires j.t.B == B && JobOk(j) && Feeds(buf, j.t, j.k, j.d)
      requires 0 < len0 && InBlock(j, data, buf, copied0, len0, rlen0, false, k0, d0)
      requires blockState == NewBlock ==> j.off == 0 && k0 == j.k && d0 == j.d
      modifies this`disk, this`writePtr, this`blockFree, this`blist, this`blockState, this`recordState, this`recordLeft
      ensures InBlock(j, data, buf, copied, len, rlen, over, k, d)
      ensures len < len0 || (len == len0 && old(recordState) == WrIncomplete && recordState == WrComplete)
      ensures blockFree == old(blockFree) - (len0 - len) && d0 <= HEADER_SIZE + |j.t.ys[k0]|
      ensures blockState == (if old(blockState) == NewBlock then UsedBlock else old(blockState))
      ensures blist == if old(blockState) == NewBlock then Marked(old(blist), nrBlocks, NewDisp(B, HEADER_SIZE + |j.t.ys[k0]|, d0)) else old(blist)
    {
      hide Ends, Encode, NewDisp, Written, Upto, Marked, JobOk, Feeds, Start, FileStart, DataPart, InBlock, AfterNext, Midway, Reached;
      InBlockNext(j, data, buf, copied0, len0, rlen0, k0, d0);
      ghost var closing := recordState == WrIncomplete && d0 == 0;
      var vhLen, n;
      vhLen, n, k, d := WriteNext(buf, |buf| - copied0, len0, rlen0, data, j, k0, d0);
      StepBound(j.t, k0, d0, |buf| - copied0, len0, closing, vhLen, n, k, d);
      copied := copied0 + n;
      over := vhLen == len0 || copied == |buf|;
      len, rlen := len0 - vhLen - n, rlen0;
      if !over && recordLeft == 0 {
        rlen := GetRecordLen(|buf| - copied);
      }
      StepDone(j, data, buf, copied0, len0, rlen0, k0, d0, closing, vhLen, n, k, d);
    }

    /** What a round of the loop may rely on. */
    lemma InBlockNext(j: Job, data: seq<byte>, buf: seq<byte>, copied: nat, len: nat, rlen: nat, k: nat, d: nat)
      requires JobOk(j) && 0 < len && InBlock(j, data, buf, copied, len, rlen, false, k, d)
      ensures j.k < |j.t.ys| && Reached(j, k, d) && k < |j.t.ys| && d <= HEADER_SIZE + |j.t.ys[k]| && copied <= |buf|
      ensures Midway(j.t, k, d, |buf| - copied, rlen) && Upto(data, j.off, j.t.ys, At(j.t.ys, j.k, j.d), k, d)
      ensures len == j.t.B - j.off - (At(j.t.ys, k, d) - At(j.t.ys, j.k, j.d)) && |buf| == |j.t.whole| - Taken(j.t.ys, j.k, j.d)
      ensures copied == Taken(j.t.ys, k, d) - Taken(j.t.ys, j.k, j.d)
    {
      hide Ends, Encode, Start, FileStart, Upto, TaskOk;
    }

    lemma StepBound(t: Task, k0: nat, d0: nat, size: nat, len: nat, closing: bool, vhLen: nat, n: nat, k: nat, d: nat)
      requires k0 < |t.ys| && AfterNext(t, k0, d0, size, len, closing, vhLen, n, k, d) && 0 < len
      ensures n <= size && vhLen + n <= len && (vhLen + n == 0 ==> closing && recordState == WrComplete)
    {
      hide Start, FileStart, Written, Pausing;
    }

    /** A round of the loop leads to the next one or to the end of the block or the buffer. */
    lemma StepDone(j: Job, data: seq<byte>, buf: seq<byte>, copied: nat, len: nat, rlen: nat, k0: nat, d0: nat,
                   closing: bool, vhLen: nat, n: nat, k: nat, d: nat)
      requires JobOk(j) && 0 < len && copied <= |buf| == |j.t.whole| - Taken(j.t.ys, j.k, j.d) && Reached(j, k0, d0)
      requires copied == Taken(j.t.ys, k0, d0) - Taken(j.t.ys, j.k, j.d)
      requires len == j.t.B - j.off - (At(j.t.ys, k0, d0) - At(j.t.ys, j.k, j.d))
      requires AfterNext(j.t, k0, d0, |buf| - copied, len, closing, vhLen, n, k, d)
      requires n <= |buf| - copied && vhLen + n <= len && Upto(data, j.off, j.t.ys, At(j.t.ys, j.k, j.d), k, d)
      ensures
        var over := vhLen == len || copied + n == |buf|;
        var next := if !over && recordLeft == 0 then GetRecordLen(|buf| - copied - n) else rlen;
        InBlock(j, data, buf, copied + n, len - vhLen - n, next, over, k, d)
    {
      hide Ends, Encode, Start, FileStart, Upto, TaskOk, Pausing, Written, DataPart, Midway, Off;
      var over := vhLen == len || copied + n == |buf|;
      if !over && len - vhLen - n > 0 {
        NextReached(j, k0, d0, k, d);
        NextSuits(j.t, k, d, |buf| - copied - n, GetRecordLen(|buf| - copied - n));
      }
    }

    lemma BlockDone(j: Job, data: seq<byte>, buf: seq<byte>, copied: nat, len: nat, rlen: nat, over: bool, k: nat, d: nat)
      requires JobOk(j)
      requires InBlock(j, data, buf, copied, len, rlen, over, k, d) && (len == 0 || over)
      ensures (over ==> Written(j.t.ys, k, d)) && (!over ==> Pausing(j.t.ys, k, d))
      ensures Place(j.t.ys, k, d) && Upto(data, j.off, j.t.ys, At(j.t.ys, j.k, j.d), k, d)
      ensures
        var at, now := At(j.t.ys, j.k, j.d), At(j.t.ys, k, d);
        && now == Min(|Encode(j.t.ys)|, at + (j.t.B - j.off)) && copied == Taken(j.t.ys, k, d) - Taken(j.t.ys, j.k, j.d)
        && now - at == j.t.B - j.off - len
    {
      hide Ends, Start, FileStart, Off, TaskOk, Encode, Upto;
      UptoBound(data, j.off, j.t.ys, At(j.t.ys, j.k, j.d), k, d);
    }

    /** With room left on the block the write has come to the start of the record behind. */
    lemma NextReached(j: Job, k0: nat, d0: nat, k: nat, d: nat)
      requires JobOk(j) && Reached(j, k0, d0) && k < |j.t.ys| && d == 0 && (k == k0 + 1 || (k == k0 && d == d0))
      requires At(j.t.ys, k, d) - At(j.t.ys, j.k, j.d) < j.t.B - j.off
      ensures Reached(j, k, d)
    {
      hide TaskOk, Start, Off;
      if k == j.k + 2 { NoThird(j); }
    }

    lemma WritePtrOffset(data: seq<byte>, off: nat)
      requires Ends(data, off) && off < B
      ensures writePtr % B == off
    {
      BaseOf(B, addrs[|addrs| - 1], off);
    }

    /** The blocks hold exactly the stream data and the write pointer stands behind it. */
    ghost predicate AtEnd(data: seq<byte>)
      reads this`addrs, this`disk, this`writePtr, this`nrBlocks, this`blist, store`used
    {
      && Blksize(B) && B == store.B && AddrsOk(B, addrs) && Stored(B, disk, addrs, data)
      && nrBlocks == |addrs| <= |blist| && Fits(B, |addrs|, |data|)
      && writePtr == (if |addrs| == 0 then 0 else addrs[|addrs| - 1] + (|data| - Off(B, |addrs| - 1)))
      && (forall i :: 0 <= i < |addrs| ==> addrs[i] in store.used && blist[i].diskAddr == addrs[i])
    }

    /** Allocates a block if the last one is full and returns the number of bytes left on the current block. */
    method WritePrepareBlock(ghost data: seq<byte>) returns (len: nat, ghost off: nat)
      requires AtEnd(data) && (|data| == Off(B, |addrs|) ==> |addrs| < |blist|)
      modifies this`disk, this`writePtr, this`blockState, this`blockFree, this`blist, this`nrBlocks, this`addrs, store`used
      ensures Ends(data, off) && off < B && len == B - off
      ensures |data| == old(Off(B, |addrs|)) ==>
        && off == 0 && blockState == NewBlock && blockFree == B && writePtr !in old(store.used)
        && addrs == old(addrs) + [writePtr] && store.used == old(store.used) + {writePtr}
        && blist == old(blist)[old(nrBlocks) := old(blist)[old(nrBlocks)].(diskAddr := writePtr)]
      ensures |data| != old(Off(B, |addrs|)) ==>
        && off > 0 && addrs == old(addrs) && store.used == old(store.used) && blist == old(blist)
        && blockState == old(blockState) && blockFree == old(blockFree) && |data| == Off(B, |addrs| - 1) + off
    {
      hide Stored;
      ghost var n := |addrs|;
      PtrAligned(B, addrs, |data|, writePtr);
      if writePtr % B == 0 {
        var a := store.GetZeroBlock();
        StoredNew(B, disk, addrs, data, a);
        writePtr := a;
        disk := disk[a := Zeros(B)];
        addrs := addrs + [a];
        blockState := NewBlock;
        blist := blist[nrBlocks := blist[nrBlocks].(diskAddr := writePtr)];
        blockFree := B;
        nrBlocks := nrBlocks + 1;
        len, off := B, 0;
      } else {
        len, off := B - writePtr % B, |data| - Off(B, n - 1);
      }
    }

    /** Of the stream of ys the bytes from at up to byte d of record k lie behind data, and the write pointer behind them. */
    ghost predicate AtPlace(data: seq<byte>, ys: seq<Record>, at: nat, k: nat, d: nat)
      reads this`addrs, this`disk, this`writePtr, this`nrBlocks, this`blist, store`used
    {
      Place(ys, k, d) && at <= At(ys, k, d) <= |Encode(ys)| && AtEnd(data + Encode(ys)[at..At(ys, k, d)])
    }

    /** The block list with a new block n. */
    static ghost function Entered(blist: seq<BlockEntry>, n: nat, a: nat, disp: nat): seq<BlockEntry> {
      if n < |blist| then blist[n := blist[n].(diskAddr := a, disp := disp)] else blist
    }

    /** Extends the last block or writes on a new one. */
    method ExtendBlock(buf: seq<byte>, rlen: nat, ghost data: seq<byte>, ghost t: Task, ghost k0: nat, ghost d0: nat)
      returns (copied: nat, ghost k: nat, ghost d: nat)
      requires AtEnd(data) && (|data| == Off(B, |addrs|) ==> |addrs| < |blist|)
      requires t.B == B && TaskOk(t) && Written(t.ys, k0, d0) && k0 < |t.ys| && |data| == t.p + At(t.ys, k0, d0)
      requires |data| == Off(B, |addrs|) || (k0 == 0 && d0 == 0)
      requires Feeds(buf, t, k0, d0) && rlen == GetRecordLen(|t.whole|) && blockState != NewBlock
      modifies this`disk, this`writePtr, this`blockState, this`blockFree, this`blist, this`nrBlocks, this`addrs,
               this`recordState, this`recordLeft, store`used
      ensures Written(t.ys, k, d) && AtPlace(data, t.ys, At(t.ys, k0, d0), k, d)
      ensures
        var at, now, end := At(t.ys, k0, d0), At(t.ys, k, d), old(Off(B, |addrs|));
        && now == Min(|Encode(t.ys)|, at + if |data| == end then B else end - |data|)
        && copied == Taken(t.ys, k, d) - Taken(t.ys, k0, d0)
        && blockFree == (if |data| == end then B else old(blockFree)) - (now - at)
        && blockState == (if |data| == end then UsedBlock else old(blockState))
        && (|data| == end ==>
             && |addrs| == old(|addrs|) + 1 && addrs[..old(|addrs|)] == old(addrs) && addrs[old(|addrs|)] !in old(store.used)
             && store.used == old(store.used) + {addrs[old(|addrs|)]}
             && blist == Entered(old(blist), old(|addrs|), addrs[old(|addrs|)], NewDisp(B, HEADER_SIZE + |t.ys[k0]|, d0)))
        && (|data| != end ==> addrs == old(addrs) && store.used == old(store.used) && blist == old(blist))
    {
      hide Stored, AddrsOk, NewDisp, Encode, Start, FileStart, RecordsOk, TaskOk;
      PieceOf(t.ys, k0, d0, 1);
      var len; ghost var off;
      len, off := WritePrepareBlock(data);
      copied, k, d := ExtendBlockVariable(buf, len, rlen, data, Job(t, |addrs| - 1, off, k0, d0));
    }

    // ----------------------------------------------------------------
    // Bringing the index up to date
    // ----------------------------------------------------------------

    /** The scan may go on with block i, skip bytes into it. */
    ghost predicate Ready(i: nat, skip: nat, record: int, total: nat)
      requires B > 0 && i <= |addrs|
      reads this`recs, this`addrs, this`rlist, this`scanState
    {
      && -1 <= record < |recs|
      && (skip == 0 ==> AtBlock(V(), i, rlist, scanState, record, total))
      && (skip > 0 ==>
           && i < |addrs| && skip < B && AtHeader(V(), i, record + 1, rlist, scanState, record, total)
           && Start(recs, record + 1) == Off(B, i) + skip)
    }

    /** Scans the data blocks from block bnr0 to the end of the file. */
    method RescanFrom(bnr0: nat, skip0: nat, rnr0: int, total0: nat) returns (rc: int)
      requires OnDisk() && bnr0 < |addrs| && Ready(bnr0, skip0, rnr0, total0) && BlocksDone(bnr0)
      modifies this`rlist, this`scanState, this`blist
      ensures rc == 0
      ensures rlist == RecordIndex(B, addrs, recs, Lf()) && blist == BlockIndex(B, addrs, recs)
    {
      hide Stored, Encode, Scanned, StateAt, Opened, Total, Hi, Disp, Off, BlockAt, AtHeader, AtBlock;
      var bnr, skip, rnr, total := bnr0, skip0, rnr0, total0;
      rc := 0;
      while bnr < nrBlocks
        invariant bnr0 <= bnr <= |addrs| && rc == 0 && BlocksDone(bnr) && (bnr > bnr0 ==> skip == 0)
        invariant if bnr < |addrs| then Ready(bnr, skip, rnr, total) else AtBlock(V(), bnr, rlist, scanState, rnr, total)
      {
        rc, bnr, rnr, total := CacheVariableDataBlock(blist[bnr].diskAddr + skip, bnr, rnr, blist[bnr].disp, total, skip);
        skip := 0;
        if bnr < |addrs| { RecordInRange(V(), bnr, rlist, scanState, rnr, total); }
      }
      ScanDone(V(), rlist, scanState, rnr, total);
    }

    /** The index describes the file v, which has since been extended by the records xs on disk. */
    ghost predicate Outdated(v: View, xs: seq<Record>)
      reads this`recs, this`addrs, this`disk, this`nrRecords, this`nrBlocks, this`rlist, this`blist
    {
      && ViewOk(v) && ViewOk(V()) && Grown(v, V(), xs) && xs != [] && RecordsOk(xs) && Stored(B, disk, addrs, Encode(recs))
      && nrRecords == |v.recs| && nrBlocks == |addrs| == |blist|
      && rlist == RecordIndex(B, v.addrs, v.recs, v.lf) + Blank(|xs|)
      && (forall i :: 0 <= i < |v.addrs| ==> blist[i] == BlockAt(v.B, v.addrs, v.recs, i))
      && (forall i :: 0 <= i < |addrs| ==> blist[i].diskAddr == addrs[i] && blist[i].disp == Disp(B, recs, Off(B, i)))
    }

    /** Updates the index from the previous last record on, starting in front of its header. */
    method UpdateRecords(nrecords: nat, ghost v: View, ghost xs: seq<Record>) returns (rc: int)
      requires Outdated(v, xs) && nrecords == |xs|
      modifies this`rlist, this`scanState, this`blist, this`nrRecords
      ensures rc == 0 && OnDisk()
      ensures rlist == RecordIndex(B, addrs, recs, Lf()) && blist == BlockIndex(B, addrs, recs)
    {
      hide Stored, Encode, Hi, Disp, Off, BlockAt, AtHeader, AtBlock, Entry, FileStart, Start, AddrsOk, RecordsOk;
      var rnr: int, bnr: int, skip: int, total: nat := nrRecords - 1, 0, 0, 0;
      if rnr >= 0 {
        RestartAt(v);
        TotalBefore(v, |v.recs| - 1);
        total := rlist[rnr].fileStart;
        if linefeed && total > 0 {
          total := total - 1;
        }
        bnr := rlist[rnr].blockNr;
        skip := rlist[rnr].diskStart % B;
        if skip >= HEADER_SIZE {
          skip := skip - HEADER_SIZE;
        } else if skip == 1 {
          bnr, skip := bnr - 1, B - 1;
        } else if skip == 0 && rlist[rnr].diskStart > 0 {
          bnr, skip := bnr - 1, B - 2;
        }
        rlist := rlist[rnr := NoRecord];
        assert rlist == RecordIndex(B, v.addrs, v.recs, v.lf)[rnr := NoRecord] + Blank(|xs|);
        RestartReady(v, V(), xs, rlist, bnr, skip, total);
        BlocksBelowAppend(v, V(), xs, bnr);
        rnr := rnr - 1;
      } else {
        FirstScan(v, V(), xs, rlist);
      }
      nrRecords := nrRecords + nrecords;
      scanState := DataStarted;
      rc := RescanFrom(bnr, skip, rnr, total);
    }

    // ----------------------------------------------------------------
    // Appending a buffer
    // ----------------------------------------------------------------

    /** Disk, index and write state agree; the pointers are not looked at. */
    ghost predicate Indexed()
      reads this, store
    {
      && OnDisk() && B == store.B && store.Valid() && store.variable
      && rlist == RecordIndex(B, addrs, recs, Lf()) && blist == BlockIndex(B, addrs, recs)
      && (forall i :: 0 <= i < |addrs| ==> addrs[i] in store.used && addrs[i] !in store.ptrs)
      && recordLen == Longest(recs) && StateFits(V())
    }

    /** Number of unused bytes in the last block. */
    method ExamineLastBlock() returns (last: int)
      requires Indexed()
      ensures last == Off(B, |addrs|) - |Encode(recs)|
    {
      hide Stored, Encode, Hi, Disp, BlockAt, Entry;
      if nrBlocks == 0 || nrRecords == 0 {
        EmptyFits(V());
        return 0;
      }
      if blockState != NotInit {
        return blockFree;
      }
      TailFacts(V());
      var lastBnr := nrBlocks - 1;
      var rec := rlist[nrRecords - 1];
      AddrAligned(B, addrs, lastBnr);
      if rec.blockNr == lastBnr {
        BaseOf(B, addrs[lastBnr], rec.diskStart - addrs[lastBnr]);
        return (Base(B, rec.diskStart) + B) - (rec.diskStart + rec.firstBlockLen);
      }
      if rec.ext == [] {
        return 0;
      }
      var j := 0;
      while j < |rec.ext|
        invariant 0 <= j < |rec.ext|
      {
        if rec.ext[j].blockNr == lastBnr {
          return (Base(B, rec.ext[j].diskStart) + B) - (rec.ext[j].diskStart + rec.ext[j].len);
        }
        j := j + 1;
      }
      return 0;
    }

    /** Disk address of the first byte behind the last record. */
    method DiskEnd() returns (ptr: nat)
      requires Indexed()
      ensures ptr == if |addrs| == 0 then 0 else addrs[|addrs| - 1] + (|Encode(recs)| - Off(B, |addrs| - 1))
    {
      hide Stored, Encode, Hi, Disp, BlockAt, Entry;
      if nrRecords == 0 {
        EmptyFits(V());
        return 0;
      }
      if blockState != NotInit {
        return writePtr;
      }
      TailFacts(V());
      var rec := rlist[nrRecords - 1];
      if rec.ext == [] {
        return rec.diskStart + rec.firstBlockLen;
      }
      var rext := rec.ext[|rec.ext| - 1];
      return rext.diskStart + rext.len;
    }

    /** Number of records a write of size bytes makes. */
    static function NewRecords(size: nat, rlen: nat): nat
      requires rlen > 0
    {
      CeilDiv(rlen, size)
    }

    /** Number of blocks a write of size bytes needs beyond the last unused bytes of the last block. */
    function NewBlocks(size: nat, last: nat, nrecords: nat): (n: nat)
      requires Blksize(B) && size > 0 && last < B && nrecords == NewRecords(size, GetRecordLen(size))
      ensures n == CeilDiv(B, Max0(size + nrecords * HEADER_SIZE - last))
    {
      var usable := if last == 0 || last == 1 then 0 else last - HEADER_SIZE;
      if size <= usable then 0 else CeilDiv(B, size + nrecords * HEADER_SIZE - last)
    }

    static function Max0(n: int): nat {
      if n < 0 then 0 else n
    }

    /** The stream of a write is as long as its bytes and the headers of its records. */
    lemma TaskSize(t: Task)
      requires TaskOk(t) && t.whole != []
      ensures RecordsOk(t.ys) && |t.ys| == NewRecords(|t.whole|, GetRecordLen(|t.whole|))
      ensures |Encode(t.ys)| == |t.whole| + |t.ys| * HEADER_SIZE
    {
      hide TaskOk, Put;
      TaskRecord(t, |t.ys|);
      SplitCount(t.whole);
      EncodeLength(t.ys);
      LogicalLength(t.ys, 0, |t.ys|);
    }

    /** The write of the bytes whole at the end of the file v. */
    static ghost function TaskOf(v: View, whole: seq<byte>): (t: Task)
      requires ViewOk(v)
      ensures TaskOk(t) && t.whole == whole && t.p == |Encode(v.recs)| && t.B == v.B && RecordsOk(t.ys) && |t.ys| == |Split(whole)|
    {
      var p := |Encode(v.recs)|;
      Task(v.B, p, whole, Put(v.B, p, whole))
    }

    /** In the middle of the write t at the end of the file v: everything up to byte d of record k is on disk. */
    ghost predicate Appending(v: View, t: Task, k: nat, d: nat)
      reads this`addrs, this`disk, this`writePtr, this`nrBlocks, this`blist, this`recordState, this`recordLeft,
            this`blockState, this`blockFree, store`used, store`ptrs
    {
      && ViewOk(v) && v.B == t.B == B && TaskOk(t) && Written(t.ys, k, d) && At(t.ys, k, d) <= |Encode(t.ys)|
      && t.p == |Encode(v.recs)| && AtEnd(Encode(v.recs) + Encode(t.ys)[..At(t.ys, k, d)])
      && |v.addrs| <= |addrs| && addrs[..|v.addrs|] == v.addrs
      && (forall i :: 0 <= i < |v.addrs| ==> blist[i] == BlockAt(v.B, v.addrs, v.recs, i))
      && (forall i :: |v.addrs| <= i < |addrs| ==> blist[i] == BlockEntry(addrs[i], Disp(B, v.recs + t.ys, Off(B, i)), 0))
      && (forall i :: |addrs| <= i < |blist| ==> blist[i] == NoBlock)
      && (forall i :: 0 <= i < |addrs| ==> addrs[i] !in store.ptrs)
      && blockState != NewBlock
      && (|addrs| > |v.addrs| ==> blockState == UsedBlock)
      && (blockState == UsedBlock ==> |addrs| > 0 && blockFree == Off(B, |addrs|) - |Encode(v.recs)| - At(t.ys, k, d))
    }

    /** Writes the next piece of the buffer and moves on. */
    method AppendPiece(buf: seq<byte>, rlen: nat, ghost v: View, ghost t: Task, ghost k0: nat, ghost d0: nat)
      returns (copied: nat, ghost k: nat, ghost d: nat)
      requires store.Valid() && Appending(v, t, k0, d0) && k0 < |t.ys| && Feeds(buf, t, k0, d0) && rlen == GetRecordLen(|t.whole|)
      requires t.p + At(t.ys, k0, d0) == Off(B, |addrs|) || (k0 == 0 && d0 == 0)
      requires t.p + At(t.ys, k0, d0) == Off(B, |addrs|) ==> |addrs| < |blist|
      modifies this`disk, this`writePtr, this`blockState, this`blockFree, this`blist, this`nrBlocks, this`addrs,
               this`recordState, this`recordLeft, store`used
      ensures store.Valid() && Appending(v, t, k, d) && |blist| == old(|blist|) && store.used >= old(store.used)
      ensures
        var room := old(Off(B, |addrs|)) - t.p - At(t.ys, k0, d0);
        && At(t.ys, k, d) == Min(|Encode(t.ys)|, At(t.ys, k0, d0) + if room == 0 then B else room)
        && |addrs| == old(|addrs|) + (if room == 0 then 1 else 0)
        && copied == Taken(t.ys, k, d) - Taken(t.ys, k0, d0)
    {
      hide Stored, Encode, Hi, Disp, BlockAt, AddrsOk, RecordsOk, NewDisp, Start, FileStart, TaskOk;
      ghost var at := At(t.ys, k0, d0);
      ghost var data := Encode(v.recs) + Encode(t.ys)[..at];
      ghost var n := |addrs|;
      copied, k, d := ExtendBlock(buf, rlen, data, t, k0, d0);
      assert data + Encode(t.ys)[at..At(t.ys, k, d)] == Encode(v.recs) + Encode(t.ys)[..At(t.ys, k, d)];
      if |data| == Off(B, n) {
        NewDispRight(B, v.recs, t.ys, k0, d0);
      }
    }

    /** Writes the pieces of the buffer: first on the last block, then on nblocks new ones. */
    method AppendPieces(buf: seq<byte>, last: nat, nblocks: nat, ghost v: View, ghost t: Task) returns (copied: nat)
      requires store.Valid() && RecordsOk(t.ys) && ViewOk(v) && Appending(v, t, 0, 0) && t.whole == buf && v.addrs == addrs
      requires last == Off(B, |addrs|) - |Encode(v.recs)|
      requires B > 0 && nblocks == CeilDiv(B, Max0(|Encode(t.ys)| - last)) && |blist| == |addrs| + nblocks && buf != []
      modifies this`disk, this`writePtr, this`blockState, this`blockFree, this`blist, this`nrBlocks, this`addrs,
               this`recordState, this`recordLeft, store`used
      ensures store.Valid() && Appending(v, t, |t.ys|, 0) && copied == |buf| && |addrs| == |blist| == |v.addrs| + nblocks
      ensures store.used >= old(store.used)
    {
      hide Encode, Appending, AddrsOk, RecordsOk, CeilDiv, Fits, Feeds;
      copied := 0;
      ghost var k: nat, d: nat := 0, 0;
      AppendingFacts(v, t, 0, 0);
      if last > 0 {
        assert buf[0..] == buf;
        copied, k, d := AppendPiece(buf, GetRecordLen(|buf|), v, t, 0, 0);
        AppendingFacts(v, t, k, d);
      }
      copied := AppendNew(buf, nblocks, v, t, k, d, Max0(|Encode(t.ys)| - last), copied);
    }

    /** Writes what is left of the buffer behind its first bytes on nblocks new blocks. */
    method AppendNew(buf: seq<byte>, nblocks: nat, ghost v: View, ghost t: Task, ghost k0: nat, ghost d0: nat, ghost left: nat, start: nat)
      returns (copied: nat)
      requires store.Valid() && RecordsOk(t.ys) && k0 <= |t.ys| && Appending(v, t, k0, d0) && t.whole == buf
      requires B > 0 && At(t.ys, k0, d0) + left == |Encode(t.ys)| && nblocks == CeilDiv(B, left) && start == Taken(t.ys, k0, d0)
      requires |addrs| == |v.addrs| && |blist| == |v.addrs| + nblocks
      requires nblocks > 0 ==> t.p + At(t.ys, k0, d0) == Off(B, |addrs|)
      modifies this`disk, this`writePtr, this`blockState, this`blockFree, this`blist, this`nrBlocks, this`addrs,
               this`recordState, this`recordLeft, store`used
      ensures store.Valid() && Appending(v, t, |t.ys|, 0) && copied == |buf| && |addrs| == |blist| == |v.addrs| + nblocks
      ensures store.used >= old(store.used)
    {
      hide Encode, Appending, AddrsOk, RecordsOk, CeilDiv, Fits, Start, FileStart, Written, Feeds, Taken;
      ghost var first := At(t.ys, k0, d0);
      AppendingFacts(v, t, k0, d0);
      copied := start;
      ghost var k: nat, d: nat := k0, d0;
      var i := 0;
      while i < nblocks
        invariant 0 <= i <= nblocks && store.Valid() && Appending(v, t, k, d) && k <= |t.ys|
        invariant At(t.ys, k, d) == Min(|Encode(t.ys)|, first + Off(B, i)) && copied == Taken(t.ys, k, d) <= |buf|
        invariant |addrs| == |v.addrs| + i && |blist| == |v.addrs| + nblocks && store.used >= old(store.used)
        invariant i < nblocks ==> t.p + At(t.ys, k, d) == Off(B, |addrs|) && At(t.ys, k, d) < |Encode(t.ys)|
        invariant i == nblocks ==> At(t.ys, k, d) == |Encode(t.ys)|
      {
        ghost var n, done := |addrs|, At(t.ys, k, d);
        AppendingFacts(v, t, k, d);
        var len;
        len, k, d := AppendPiece(buf[copied..], GetRecordLen(|buf|), v, t, k, d);
        AppendingFacts(v, t, k, d);
        PieceAdvance(B, |Encode(t.ys)|, first, left, i, nblocks, t.p, n, done, At(t.ys, k, d));
        copied := copied + len;
        i := i + 1;
      }
      AppendingFacts(v, t, k, d);
    }

    /** How far the pieces of a write reach, one block after the other. */
    lemma PieceAdvance(B: nat, total: nat, first: nat, left: nat, i: nat, nblocks: nat, start: nat, n: nat, done: nat, now: nat)
      requires B > 0 && nblocks == CeilDiv(B, left) && i < nblocks && first + left == total
      requires done == Min(total, first + Off(B, i)) && start + done == Off(B, n) && done < total && now == Min(total, done + B)
      ensures now == Min(total, first + Off(B, i + 1))
      ensures i + 1 < nblocks ==> start + now == Off(B, n + 1) && now < total
      ensures i + 1 == nblocks ==> now == total
    {
      hide CeilDiv;
      if i + 1 < nblocks { OffMono(B, i + 1, nblocks - 1); }
    }

    lemma AppendingFacts(v: View, t: Task, k: nat, d: nat)
      requires Appending(v, t, k, d)
      ensures |addrs| <= |blist| && Blksize(B) && k <= |t.ys| && t.p == |Encode(v.recs)|
      ensures t.p + At(t.ys, k, d) <= Off(B, |addrs|) && Taken(t.ys, k, d) <= |t.whole| && Feeds(t.whole[Taken(t.ys, k, d)..], t, k, d)
      ensures At(t.ys, k, d) < |Encode(t.ys)| ==> k < |t.ys|
      ensures At(t.ys, k, d) == |Encode(t.ys)| ==> k == |t.ys| && d == 0 && Taken(t.ys, k, d) == |t.whole|
    {
      hide Stored, AddrsOk, Encode, Disp, TaskOk;
      EncodeLength(t.ys);
      TaskRecord(t, k);
      if k < |t.ys| {
        TaskRecord(t, k + 1);
        StartMono(t.ys, k + 1, |t.ys|);
      }
    }

    /** Everything is ready to append a buffer to the file v. */
    lemma AppendingStart(v: View, whole: seq<byte>, nblocks: nat)
      requires ViewOk(v) && v.B == B == store.B && v.addrs == addrs && whole != []
      requires Stored(B, disk, addrs, Encode(v.recs)) && nrBlocks == |addrs|
      requires blist == BlockIndex(B, addrs, v.recs) + seq(nblocks, _ => NoBlock)
      requires recordState == WrComplete && blockState != NewBlock
      requires writePtr == if |addrs| == 0 then 0 else addrs[|addrs| - 1] + (|Encode(v.recs)| - Off(B, |addrs| - 1))
      requires forall i :: 0 <= i < |addrs| ==> addrs[i] in store.used && addrs[i] !in store.ptrs
      requires blockState == UsedBlock ==> |addrs| > 0 && blockFree == Off(B, |addrs|) - |Encode(v.recs)|
      ensures Appending(v, TaskOf(v, whole), 0, 0)
    {
      hide Stored, AddrsOk, Disp, Hi, Encode, TaskOk, TaskOf;
      var t := TaskOf(v, whole);
      TaskRecord(t, 0);
      assert RecordOk(t.ys[0]);
      assert Encode(v.recs) + Encode(t.ys)[..0] == Encode(v.recs);
    }

    /** Address behind the last byte of the file v. */
    ghost function EndPtr(v: View): nat
      requires ViewOk(v)
    {
      if |v.addrs| == 0 then 0 else v.addrs[|v.addrs| - 1] + (|Encode(v.recs)| - Off(v.B, |v.addrs| - 1))
    }

    /** The write state is either not set up yet or stands at the end of the file v. */
    ghost predicate StateFits(v: View)
      requires ViewOk(v)
      reads this`blockState, this`writePtr, this`blockFree
    {
      blockState != NotInit ==>
        && blockState == UsedBlock && |v.addrs| > 0
        && writePtr == EndPtr(v) && blockFree == Off(v.B, |v.addrs|) - |Encode(v.recs)|
    }

    /** The records are on disk; the index still has to follow. */
    lemma AppendingDone(v: View, t: Task)
      requires t.ys != [] && Appending(v, t, |t.ys|, 0) && |addrs| == |blist| && nrRecords == |v.recs|
      requires recs == v.recs + t.ys && v.lf == Lf() && rlist == RecordIndex(B, v.addrs, v.recs, v.lf) + Blank(|t.ys|)
      ensures Outdated(v, t.ys) && StateFits(V())
      ensures forall i :: 0 <= i < |addrs| ==> addrs[i] in store.used && addrs[i] !in store.ptrs
    {
      hide Stored, AddrsOk, Hi, Encode, Disp, TaskOk;
      EncodeAppend(v.recs, t.ys);
      EncodeLength(t.ys);
      assert Encode(t.ys)[..|Encode(t.ys)|] == Encode(t.ys);
      forall i | 0 <= i < |v.addrs|
        ensures blist[i].diskAddr == addrs[i] && blist[i].disp == Disp(B, recs, Off(B, i))
      {
        assert addrs[i] == addrs[..|v.addrs|][i];
        EncodeLength(v.recs);
        OffMono(B, i, |v.addrs| - 1);
        DispAppend(B, v.recs, t.ys, Off(B, i));
      }
    }

    /** Sets up the write: number of new records, room on the last block, number of new blocks, space in the lists. */
    method PrepareAppend(buf: seq<byte>, ghost v: View) returns (nrecords: nat, last: nat, nblocks: nat)
      requires Indexed() && buf != [] && v == V()
      modifies this`writePtr, this`rlist, this`blist, this`recordState, this`recordLeft
      ensures Appending(v, TaskOf(v, buf), 0, 0) && nrecords == |TaskOf(v, buf).ys| && last == Off(B, |addrs|) - |Encode(v.recs)|
      ensures nblocks == CeilDiv(B, Max0(|Encode(TaskOf(v, buf).ys)| - last)) && |blist| == |addrs| + nblocks
      ensures rlist == old(rlist) + Blank(nrecords)
    {
      hide Stored, AddrsOk, RecordsOk, Disp, Hi, Encode, Appending, RecordIndex, Entry, Off, Longest, CeilDiv, TaskOf, TaskOk;
      FitsRoom(v);
      TaskSize(TaskOf(v, buf));
      nrecords := NewRecords(|buf|, GetRecordLen(|buf|));
      last := ExamineLastBlock();
      writePtr := DiskEnd();
      nblocks := NewBlocks(|buf|, last, nrecords);
      rlist := rlist + Blank(nrecords);
      blist := blist + seq(nblocks, _ => NoBlock);
      recordState, recordLeft := WrComplete, 0;
      AppendingStart(v, buf, nblocks);
    }

    /** Puts the records of the buffer on disk; the index and the record count do not know them yet. */
    method AppendToDisk(buf: seq<byte>, ghost v: View) returns (nrecords: nat, copied: nat, dirty: bool)
      requires Indexed() && buf != [] && v == V()
      modifies this, store`used
      ensures store.Valid() && Outdated(v, TaskOf(v, buf).ys) && StateFits(V()) && nrecords == |TaskOf(v, buf).ys| && copied == |buf|
      ensures forall i :: 0 <= i < |addrs| ==> addrs[i] in store.used && addrs[i] !in store.ptrs
      ensures dirty <==> |addrs| > |v.addrs|
      ensures store.used >= old(store.used) && fop == old(fop) && levels == old(levels) && recordLen == old(recordLen)
      ensures sessionSize == old(sessionSize)
      ensures recs == old(recs) + TaskOf(v, buf).ys
    {
      hide Stored, AddrsOk, RecordsOk, Disp, Hi, Encode, Appending, Outdated, RecordIndex, Off, Longest, CeilDiv, Fits, StateFits, TaskOf, TaskOk;
      ghost var t := TaskOf(v, buf);
      TaskSize(t);
      var last, nblocks;
      nrecords, last, nblocks := PrepareAppend(buf, v);
      dirty := nblocks > 0;
      copied := AppendPieces(buf, last, nblocks, v, t);
      recs := recs + t.ys;
      AppendingDone(v, t);
    }

    lemma TaskLongest(v: View, buf: seq<byte>)
      requires ViewOk(v) && buf != []
      ensures
        var rlen, longest := GetRecordLen(|buf|), Longest(v.recs);
        Longest(v.recs + TaskOf(v, buf).ys) == if rlen > longest then rlen else longest
    {
      hide Put, Longest;
      LongestAppend(v.recs, TaskOf(v, buf).ys);
      LongestPut(v.B, |Encode(v.recs)|, buf);
    }

    /** Appends a buffer at the end of the file, cut into records; new data blocks make the pointers dirty. */
    method WriteAppend(buf: seq<byte>) returns (copied: nat, dirty: bool)
      requires Indexed() && buf != []
      modifies this, store`used
      ensures Indexed() && recs == old(recs) + old(TaskOf(V(), buf).ys) && copied == |buf|
      ensures |old(addrs)| <= |addrs| && addrs[..|old(addrs)|] == old(addrs)
      ensures dirty <==> |addrs| > |old(addrs)|
      ensures store.used >= old(store.used) && fop == old(fop) && levels == old(levels) && sessionSize == old(sessionSize)
    {
      hide Stored, AddrsOk, RecordsOk, Disp, Hi, Encode, RecordIndex, BlockIndex, Longest, Off, TaskOk, TaskOf;
      ghost var v := V();
      ghost var t := TaskOf(v, buf);
      TaskLongest(v, buf);
      var rlen := GetRecordLen(|buf|);
      var nrecords;
      nrecords, copied, dirty := AppendToDisk(buf, v);
      var rc := UpdateRecords(nrecords, v, t.ys);
      if rlen > recordLen {
        recordLen := rlen;
      }
    }

    // ----------------------------------------------------------------
    // File size from the end of the file
    // ----------------------------------------------------------------

    /** Adds up the records whose headers lie in the last block, starting at addr. */
    method WalkLastVarDataBlock(addr0: nat, total0: int, ghost r0: nat) returns (total: int)
      requires OnDisk() && |addrs| > 0 && r0 <= |recs|
      requires
        var i := |addrs| - 1;
        && Off(B, i) <= Start(recs, r0) < Off(B, i) + B && addr0 == addrs[i] + (Start(recs, r0) - Off(B, i))
      ensures total == total0 + |Encode(recs)| - Start(recs, r0)
    {
      hide Stored, Encode, AddrsOk;
      ghost var i := |addrs| - 1;
      AddrAligned(B, addrs, i);
      BaseOf(B, addrs[i], Start(recs, r0) - Off(B, i));
      EncodeLength(recs);
      var left, addr := B - addr0 % B, addr0;
      ghost var r := r0;
      total := total0;
      while left >= 2
        invariant r0 <= r <= |recs| && 0 <= left <= B && addr == addrs[i] + (B - left)
        invariant Start(recs, r) == Off(B, i) + (B - left) && total == total0 + Start(recs, r) - Start(recs, r0)
      {
        var len := ReadLength(addr, i, B - left, r);
        if len == 0 {
          return;
        }
        StartMono(recs, r + 1, |recs|);
        total := total + len + HEADER_SIZE;
        left := left - (len + HEADER_SIZE);
        addr := addr + len + HEADER_SIZE;
        r := r + 1;
      }
      if r < |recs| {
        StartMono(recs, r + 1, |recs|);
      }
    }

    /** The disk, the pointers and the file status fields describe the file; the index may still be empty. */
    ghost predicate Stocked()
      reads this, store
    {
      && OnDisk() && B == store.B && store.Valid() && store.variable
      && (forall i :: 0 <= i < |addrs| ==> addrs[i] in store.used && addrs[i] !in store.ptrs)
      && recordLen == Longest(recs)
      && Linked(store.ptrs, B, store.P, BlockIndex(B, addrs, recs), fop, levels)
    }

    /** The pointer to the last data block, found through the last pointers of all levels. */
    method LastDataVptr() returns (rc: int, vptr: Ptr)
      requires Stocked() && levels > 0
      ensures |addrs| >= 2 && rc == 0 && vptr.next > 0
      ensures Abs(B, vptr.next) == addrs[|addrs| - 1] && vptr.disp == Disp(B, recs, Off(B, |addrs| - 1))
    {
      hide Stored, AddrsOk, Entry, Levels, IsTree, Encode, NoDup, NodeList, Hi, Disp, Off;
      ghost var sh := FileShape(B, store.P, BlockIndex(B, addrs, recs));
      RootCovers(sh);
      store.BackFine(store.ptrs, sh, levels, Abs(B, fop), 0);
      HiAtEnd(V());
      AddrAligned(B, addrs, |addrs| - 1);
      rc, vptr := store.LocateLastDataVptr(Abs(B, fop), levels, nrRecords, sh, 0);
    }

    /** Size of the stream on disk, computed from the last pointer and the last block only. */
    method GetFileSizeVariable() returns (total: int)
      requires Stocked() && nrRecords > 0
      ensures total == |Encode(recs)|
    {
      hide Stored, Hi, Encode, Linked, AddrsOk, RecordsOk, Disp;
      ghost var i := |addrs| - 1;
      EmptyFits(V());
      OffIsProduct(B, i);
      LastBlockFacts(V());
      FlatLink(V(), store.ptrs, store.P, fop, levels);
      var full := (nrBlocks - 1) * B;
      assert full == Off(B, i);
      var ptr;
      total := 0;
      if levels > 0 {
        var rc, vptr := LastDataVptr();
        if rc < 0 {
          return rc;
        }
        ptr := Abs(B, vptr.next);
        if vptr.disp != SPANNED {
          ptr := ptr + vptr.disp;
          total := total + vptr.disp;
        } else {
          total := total + B;
          return total + full;
        }
      } else {
        ptr := Abs(B, fop);
      }
      hide Abs;
      ghost var r := if levels > 0 then Hi(recs, Off(B, i)) else 0;
      total := WalkLastVarDataBlock(ptr, total, r);
      total := total + full;
    }

    /** Size of the file as a reader sees it: without record headers, with one linefeed per record. */
    method GetFileSizeLogical() returns (total: int)
      requires Stocked()
      ensures total == FileStart(recs, Lf(), |recs|)
    {
      hide Stored, Entry, Purgeable, Levels, Hi, Encode, AddrsOk, RecordsOk;
      if nrRecords == 0 {
        return 0;
      }
      EmptyFits(V());
      if fop == 0 {
        return EIO;
      }
      total := GetFileSizeVariable();
      total := total - nrRecords * HEADER_SIZE;
      if linefeed {
        total := total + nrRecords;
      }
      LogicalSize(recs, Lf());
    }

    // ----------------------------------------------------------------
    // Whole operations
    // ----------------------------------------------------------------

    /** Linefeeds that a reader of the file sees but the session does not count. */
    ghost function Uncounted(): int
      reads this`recs, this`sessionSize
    {
      FileStart(recs, Lf(), |recs|) - sessionSize
    }

    /** Disk, index and pointers all describe the same records. */
    ghost predicate Valid()
      reads this, store
    {
      Indexed() && Stocked() && 0 <= sessionSize && 0 <= Uncounted()
    }

    /** Writes the pointers for the current block list; the old ones are gone. */
    method RewritePointers()
      requires Indexed() && levels == if nrBlocks < 2 then 0 else Levels(store.P, nrBlocks)
      modifies this`fop, store`ptrs, store`used
      ensures Indexed() && Stocked()
    {
      hide Stored, Entry, Purgeable, Levels, Hi, Encode, AddrsOk, RecordsOk, Disp, Off, RecordIndex, Longest;
      if nrBlocks == 0 {
        fop := 0;
        return;
      }
      if nrBlocks == 1 {
        SingleBlock(V());
        SingleEntry(V());
        fop := Rel(B, rlist[0].diskStart);
        return;
      }
      FileShapeOk(V(), store.P);
      var root := store.WriteTree(FileShape(B, store.P, blist), levels);
      AbsRel(B, root);
      fop := Rel(B, root);
    }

    /** Frees the pointers that describe the block list of the file v. */
    method DeletePointers(oldLevels: nat, ghost v: View)
      requires Indexed() && ViewOk(v) && v.B == B && oldLevels == levels
      requires Linked(store.ptrs, B, store.P, BlockIndex(B, v.addrs, v.recs), fop, levels)
      modifies store`ptrs, store`used
      ensures Indexed()
    {
      hide Stored, Entry, Levels, Hi, Encode, AddrsOk, RecordsOk, Disp, Off, RecordIndex, Longest, NoDup, Elements;
      if fop > 0 {
        FileShapeOk(v, store.P);
        store.PurgeVariable(oldLevels, Abs(B, fop), FileShape(B, store.P, BlockIndex(B, v.addrs, v.recs)), 0);
      }
    }

    /** Stores the new record count in the last pointers after an append that needed no block. */
    method PatchPointers(ghost v: View, ghost xs: seq<Record>)
      requires Indexed() && ViewOk(v) && Grown(v, V(), xs) && xs != [] && |v.addrs| == |addrs|
      requires Linked(store.ptrs, B, store.P, BlockIndex(B, v.addrs, v.recs), fop, levels)
      modifies store`ptrs
      ensures Indexed() && Stocked()
    {
      hide Stored, Entry, Levels, Hi, Encode, AddrsOk, RecordsOk, Disp, Off, RecordIndex, Longest, NoDup, Elements, IsTree, NodeList;
      EmptyFits(V());
      PatchedShape(v, V(), xs, store.P);
      if levels > 0 {
        ghost var sh := FileShape(B, store.P, BlockIndex(B, v.addrs, v.recs));
        RootCovers(sh);
        store.BackFine(store.ptrs, sh, levels, Abs(B, fop), 0);
        var rc := store.UpdateLastBlockVptr(Abs(B, fop), levels, nrRecords, sh, 0);
      }
    }

    /** Brings the pointers up to date after the records xs have been appended to the file v. */
    method UpdatePointers(dirty: bool, ghost v: View, ghost xs: seq<Record>)
      requires Indexed() && ViewOk(v) && Grown(v, V(), xs) && xs != [] && (dirty <==> |addrs| > |v.addrs|)
      requires Linked(store.ptrs, B, store.P, BlockIndex(B, v.addrs, v.recs), fop, levels)
      modifies this`fop, this`levels, store`ptrs, store`used
      ensures Indexed() && Stocked()
    {
      hide Stored, Entry, Hi, Encode, AddrsOk, RecordsOk, Disp, Off, RecordIndex, BlockIndex, Longest, Purgeable, Linked, StateFits;
      if dirty {
        var oldLevels := levels;
        DeletePointers(oldLevels, v);
        levels := store.UpdateLevels(nrBlocks);
        RewritePointers();
      } else {
        PatchPointers(v, xs);
      }
    }

    /** The logical size of the records of a write. */
    lemma TaskLogical(t: Task, lf: nat)
      requires TaskOk(t)
      ensures FileStart(t.ys, lf, |t.ys|) == |t.whole| + lf * |t.ys|
    {
      hide TaskOk;
      TaskRecord(t, |t.ys|);
      LogicalLength(t.ys, lf, |t.ys|);
      LogicalLength(t.ys, 0, |t.ys|);
    }

    /**
      Appends a buffer at the end of the file, cut into records, and makes
      everything on disk follow. The session counts one linefeed for it.
    */
    method DoWrite(buf: seq<byte>, offset: int) returns (rc: int)
      requires Valid()
      modifies this, store
      ensures Valid()
      ensures rc == if |buf| == 0 then 0
                    else if offset == old(sessionSize) - (if linefeed then |old(recs)| else 0) then |buf| else EINVAL
      ensures recs == if rc > 0 then old(recs) + old(TaskOf(V(), buf).ys) else old(recs)
      ensures sessionSize == old(sessionSize) + if rc > 0 then |buf| + Lf() else 0
      ensures Uncounted() == old(Uncounted()) + if rc > 0 && linefeed then |Split(buf)| - 1 else 0
      ensures rc <= 0 ==> rlist == old(rlist)
    {
      hide Stored, Entry, Hi, Encode, AddrsOk, RecordsOk, Disp, Off, RecordIndex, BlockIndex, Longest, Purgeable, Linked, StateFits, Split, TaskOf, TaskOk, FileStart;
      if |buf| == 0 {
        return 0;
      }
      var len := sessionSize;
      if linefeed {
        len := len - nrRecords;
      }
      if offset < len || offset > len {
        return EINVAL;
      }
      ghost var v := V();
      var copied, dirty := WriteAppend(buf);
      sessionSize := sessionSize + copied;
      if linefeed {
        sessionSize := sessionSize + 1;
      }
      ghost var t := TaskOf(v, buf);
      StartBehind(v.recs, t.ys, |t.ys|, v.lf);
      TaskLogical(t, v.lf);
      UpdatePointers(dirty, v, t.ys);
      rc := copied;
    }

    /** Builds the index of a file that has just been opened, walking its pointers and data blocks. */
    method Load() returns (rc: int)
      requires Stocked() && scanState == DataStarted && blockState == NotInit
      requires rlist == seq(|recs|, _ => NoRecord) && blist == seq(|addrs|, _ => NoBlock)
      modifies this`rlist, this`blist, this`scanState, this`sessionSize
      ensures rc == 0 && Valid() && Uncounted() == 0
    {
      hide Stored, Entry, Hi, Encode, AddrsOk, RecordsOk, Disp, Off, Longest, IsTree, NoDup, NodeList;
      EmptyFits(V());
      rc := 0;
      if nrRecords > 0 {
        var found := FindBlocks();
        rc := CacheFile(found);
      } else {
        EmptyIndex(V());
      }
      sessionSize := GetFileSizeLogical();
    }

    /** The data blocks with their displacements, as the pointers tell them. */
    method FindBlocks() returns (found: seq<Found>)
      requires Stocked() && nrRecords > 0
      ensures |found| == |addrs|
      ensures forall i :: 0 <= i < |found| ==> found[i] == Found(addrs[i], Disp(B, recs, Off(B, i)))
    {
      hide Stored, Entry, Hi, Encode, AddrsOk, RecordsOk, Disp, Longest, IsTree, NoDup, NodeList, Levels;
      ghost var sh := FileShape(B, store.P, BlockIndex(B, addrs, recs));
      EmptyFits(V());
      FileShapeOk(V(), store.P);
      FlatLink(V(), store.ptrs, store.P, fop, levels);
      ListedBlocks(V(), store.P);
      RootCovers(sh);
      if levels == 0 { SingleBlock(V()); }
      found := store.WalkVariable(Abs(B, fop), levels, 0, sh, 0);
    }
  }

  /** Opening a file again from disk gives the index that was kept up to date while writing, and counts every linefeed. */
  method Reopen(f: VarFile) returns (g: VarFile)
    requires f.Valid()
    ensures fresh(g) && g.Valid() && g.recs == f.recs && g.store == f.store && g.linefeed == f.linefeed
    ensures g.rlist == f.rlist && g.blist == f.blist && g.Uncounted() == 0
  {
    g := new VarFile(f.store, f.linefeed, f.disk, Fst(f.recordLen, f.fop, f.nrBlocks, f.nrRecords, f.levels), f.recs, f.addrs);
    var rc := g.Load();
  }

  /** A file that has just been created. */
  method NewFile(store: PtrStore, linefeed: bool) returns (f: VarFile)
    requires store.Valid() && store.variable && Blksize(store.B)
    ensures fresh(f) && f.Valid() && f.store == store && f.linefeed == linefeed && f.recs == [] && f.Uncounted() == 0
  {
    f := new VarFile(store, linefeed, map[], Fst(0, 0, 0, 0, 0), [], []);
    assert f.rlist == RecordIndex(f.B, [], [], f.Lf()) && f.blist == BlockIndex(f.B, [], []);
  }

  lemma SplitMany(buf: seq<byte>)
    ensures buf == [] <==> Split(buf) == []
    ensures |buf| > MAX_RECORD_LEN <==> |Split(buf)| > 1
  {
    if |buf| > MAX_RECORD_LEN {
      assert |Split(buf[MAX_RECORD_LEN..])| > 0;
    } else if buf != [] {
      SplitOne(buf);
    }
  }

  /**
    Writing any buffers one by one to a new file, and opening the file again:
    both hold exactly the records these writes put, with the same index. The
    size kept while writing is the size of the file unless a text write made
    more than one record.
  */
  method AppendAll(store: PtrStore, linefeed: bool, bufs: seq<seq<byte>>) returns (f: VarFile, g: VarFile)
    requires store.Valid() && store.variable && Blksize(store.B)
    modifies store
    ensures fresh(f) && fresh(g) && f.Valid() && g.Valid() && f.recs == g.recs == AfterWrites(store.B, [], bufs)
    ensures g.rlist == f.rlist && g.blist == f.blist && g.Uncounted() == 0
    ensures f.sessionSize == g.sessionSize <==> !linefeed || forall i :: 0 <= i < |bufs| ==> |bufs[i]| <= MAX_RECORD_LEN
    ensures f.store == g.store == store && f.linefeed == g.linefeed == linefeed
  {
    hide VarFile.Indexed, VarFile.Stocked, Split, FileStart, Put, Encode;
    f := NewFile(store, linefeed);
    CountsRecords(f);
    var i := 0;
    while i < |bufs|
      invariant 0 <= i <= |bufs| && fresh(f) && f.Valid() && f.store == store && f.linefeed == linefeed
      invariant f.recs == AfterWrites(store.B, [], bufs[..i]) && f.nrRecords == |f.recs|
      invariant f.Uncounted() == 0 <==> !linefeed || forall j :: 0 <= j < i ==> |bufs[j]| <= MAX_RECORD_LEN
    {
      CountsRecords(f);
      var rc := f.DoWrite(bufs[i], f.sessionSize - if linefeed then f.nrRecords else 0);
      assert bufs[..i + 1][..i] == bufs[..i] && bufs[..i + 1][i] == bufs[i];
      SplitMany(bufs[i]);
      CountsRecords(f);
      i := i + 1;
    }
    assert bufs[..i] == bufs;
    g := Reopen(f);
  }

  lemma CountsRecords(f: VarFile)
    requires f.Valid()
    ensures f.nrRecords == |f.recs| && f.B == f.store.B
  {
  }
}
