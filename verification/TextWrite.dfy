/**
  Writing text: the write operation cuts the byte stream of the writer into
  lines, translates each line and appends it as one record.  The bytes of an
  unfinished line wait in the write cache.
*/
module TextWrites {
  import opened Blocks
  import opened Errors
  import opened VarLayout
  import opened VarPut
  import opened VarFiles
  import opened ReadPath
  import opened VarReads

  const WCACHE_MAX: nat := MAX_RECORD_LEN + 1
  const FILLER_EBCDIC: byte := 0x40
  const FILLER_ASCII: byte := 0x20
  const INT_MAX: nat := 0x7fff_ffff

  // ------------------------------------------------------------------
  // The meaning of a text
  // ------------------------------------------------------------------

  function Translated(conv: byte -> byte, s: seq<byte>): seq<byte> {
    seq<byte>(|s|, i requires 0 <= i < |s| => conv(s[i]))
  }

  /** The record for a line; CMS has no empty records, a single blank stands for them. */
  function LineRecord(conv: byte -> byte, line: seq<byte>): Record {
    if line == [] then [FILLER_EBCDIC] else Translated(conv, line)
  }

  /** The records of the lines that text completes, the first one already begun with p. */
  ghost function Lines(conv: byte -> byte, p: seq<byte>, text: seq<byte>): seq<Record>
    decreases |text|
  {
    if text == [] then []
    else if text[0] == LINEFEED_ASCII then [LineRecord(conv, p)] + Lines(conv, [], text[1..])
    else Lines(conv, p + [text[0]], text[1..])
  }

  /** The unfinished line behind text. */
  ghost function Rest(p: seq<byte>, text: seq<byte>): seq<byte>
    decreases |text|
  {
    if text == [] then p
    else if text[0] == LINEFEED_ASCII then Rest([], text[1..])
    else Rest(p + [text[0]], text[1..])
  }

  /** Every line that text completes fits a record. */
  ghost predicate Bounded(p: seq<byte>, text: seq<byte>)
    decreases |text|
  {
    if text == [] then true
    else if text[0] == LINEFEED_ASCII then |p| <= MAX_RECORD_LEN && Bounded([], text[1..])
    else Bounded(p + [text[0]], text[1..])
  }

  /** The text with one blank in every empty line; empty says that nothing of the line was seen. */
  ghost function Blanked(empty: bool, text: seq<byte>): seq<byte>
    decreases |text|
  {
    if text == [] then []
    else if text[0] == LINEFEED_ASCII then
      (if empty then [FILLER_ASCII, LINEFEED_ASCII] else [LINEFEED_ASCII]) + Blanked(true, text[1..])
    else [text[0]] + Blanked(false, text[1..])
  }

  // ------------------------------------------------------------------
  // Laws of the meaning
  // ------------------------------------------------------------------

  /** It does not matter where a text is cut. */
  lemma {:induction false} CutAnywhere(conv: byte -> byte, p: seq<byte>, a: seq<byte>, b: seq<byte>)
    ensures Lines(conv, p, a + b) == Lines(conv, p, a) + Lines(conv, Rest(p, a), b)
    ensures Rest(p, a + b) == Rest(Rest(p, a), b)
    ensures Bounded(p, a + b) <==> Bounded(p, a) && Bounded(Rest(p, a), b)
    decreases |a|
  {
    if a == [] {
      assert a + b == b;
    } else {
      assert (a + b)[1..] == a[1..] + b;
      CutAnywhere(conv, if a[0] == LINEFEED_ASCII then [] else p + [a[0]], a[1..], b);
    }
  }

  /** Bytes without a newline extend the unfinished line, whatever follows. */
  lemma {:induction false} NoNewline(conv: byte -> byte, p: seq<byte>, a: seq<byte>)
    requires LINEFEED_ASCII !in a
    ensures Lines(conv, p, a) == [] && Rest(p, a) == p + a && Bounded(p, a)
    decreases |a|
  {
    if a != [] {
      NoNewline(conv, p + [a[0]], a[1..]);
      assert p + [a[0]] + a[1..] == p + a;
    } else {
      assert p + a == p;
    }
  }

  lemma Halves(s: seq<byte>, n: nat)
    requires n <= |s|
    ensures s == s[..n] + s[n..] && (n < |s| ==> s[n..][1..] == s[n + 1..])
  {
  }

  /** A newline at n ends the first line. */
  lemma FirstLine(conv: byte -> byte, p: seq<byte>, text: seq<byte>, n: nat)
    requires n < |text| && text[n] == LINEFEED_ASCII && LINEFEED_ASCII !in text[..n]
    ensures Lines(conv, p, text) == [LineRecord(conv, p + text[..n])] + Lines(conv, [], text[n + 1..])
    ensures Rest(p, text) == Rest([], text[n + 1..])
    ensures Bounded(p, text) <==> |p| + n <= MAX_RECORD_LEN && Bounded([], text[n + 1..])
  {
    Halves(text, n);
    NoNewline(conv, p, text[..n]);
    CutAnywhere(conv, p, text[..n], text[n..]);
  }

  lemma {:induction false} TextConcat(m: Mode, a: seq<Record>, b: seq<Record>)
    ensures Text(m, a + b) == Text(m, a) + Text(m, b)
    decreases |b|
  {
    if b == [] {
      assert a + b == a;
    } else {
      hide Seen;
      var init, last := b[..|b| - 1], b[|b| - 1];
      TextConcat(m, a, init);
      assert (a + b)[..|a + b| - 1] == a + init;
      Regroup(Text(m, a), Text(m, init), Seen(m, last), Text(m, b));
    }
  }

  /** The reader translates what the writer translated, and the filler is a blank to the reader. */
  ghost predicate Inverse(to: byte -> byte, from: byte -> byte) {
    && (forall x :: from(to(x)) == x)
    && from(FILLER_EBCDIC) == FILLER_ASCII
  }

  lemma LineReads(m: Mode, conv: byte -> byte, p: seq<byte>)
    requires m.translate && m.linefeed && Inverse(conv, m.conv)
    ensures Text(m, [LineRecord(conv, p)]) == (if p == [] then [FILLER_ASCII] else p) + [LINEFEED_ASCII]
  {
    var r := LineRecord(conv, p);
    var none: seq<Record> := [];
    assert [r][..0] == none;
    assert Text(m, none) == [];
    assert Convert(m, r) == if p == [] then [FILLER_ASCII] else p;
  }

  lemma Regroup(a: seq<byte>, b: seq<byte>, c: seq<byte>, d: seq<byte>)
    requires b + c == d
    ensures (a + b) + c == a + d
  {
    assert (a + b) + c == a + (b + c);
  }

  lemma LineThenRest(m: Mode, conv: byte -> byte, p: seq<byte>, tail: seq<byte>)
    requires m.translate && m.linefeed && Inverse(conv, m.conv)
    requires Text(m, Lines(conv, [], tail)) + Rest([], tail) == [] + Blanked(true, tail)
    ensures
      Text(m, [LineRecord(conv, p)] + Lines(conv, [], tail)) + Rest([], tail)
        == p + ((if p == [] then [FILLER_ASCII, LINEFEED_ASCII] else [LINEFEED_ASCII]) + Blanked(true, tail))
  {
    hide Text, LineRecord, Inverse, Lines, Rest, Blanked;
    var line, blanked := Text(m, [LineRecord(conv, p)]), Blanked(true, tail);
    TextConcat(m, [LineRecord(conv, p)], Lines(conv, [], tail));
    LineReads(m, conv, p);
    assert [] + blanked == blanked;
    Regroup(line, Text(m, Lines(conv, [], tail)), Rest([], tail), blanked);
    assert line + blanked == p + ((if p == [] then [FILLER_ASCII, LINEFEED_ASCII] else [LINEFEED_ASCII]) + blanked);
  }

  /** What a reader sees of a text that was cut into records: the text, with blanks in empty lines. */
  lemma {:induction false} LinesRead(m: Mode, conv: byte -> byte, p: seq<byte>, text: seq<byte>)
    requires m.translate && m.linefeed && Inverse(conv, m.conv)
    ensures Text(m, Lines(conv, p, text)) + Rest(p, text) == p + Blanked(p == [], text)
    decreases |text|
  {
    if text == [] {
      assert Text(m, Lines(conv, p, text)) == [];
    } else if text[0] == LINEFEED_ASCII {
      LinesRead(m, conv, [], text[1..]);
      LineThenRest(m, conv, p, text[1..]);
    } else {
      LinesRead(m, conv, p + [text[0]], text[1..]);
      Regroup(p, [text[0]], Blanked(false, text[1..]), [text[0]] + Blanked(false, text[1..]));
    }
  }

  lemma {:induction false} LastNewline(p: seq<byte>, text: seq<byte>)
    requires text != [] && text[|text| - 1] == LINEFEED_ASCII
    ensures Rest(p, text) == []
    decreases |text|
  {
    if |text| > 1 {
      LastNewline(if text[0] == LINEFEED_ASCII then [] else p + [text[0]], text[1..]);
    }
  }

  ghost function NewlineAt(buf: seq<byte>): (n: nat)
    ensures n <= |buf| && LINEFEED_ASCII !in buf[..n]
    ensures n < |buf| ==> buf[n] == LINEFEED_ASCII
  {
    if buf == [] || buf[0] == LINEFEED_ASCII then 0 else
      var n := NewlineAt(buf[1..]);
      assert buf[..n + 1] == [buf[0]] + buf[1..][..n];
      n + 1
  }

  /** Lines fit if and only if their records do. */
  lemma {:induction false} LinesOk(conv: byte -> byte, p: seq<byte>, text: seq<byte>)
    ensures RecordsOk(Lines(conv, p, text)) <==> Bounded(p, text)
    decreases |text|
  {
    if text != [] {
      if text[0] == LINEFEED_ASCII {
        LinesOk(conv, [], text[1..]);
        var line, rest := LineRecord(conv, p), Lines(conv, [], text[1..]);
        assert RecordOk(line) <==> |p| <= MAX_RECORD_LEN;
        RecordsSplit([line], rest);
      } else {
        LinesOk(conv, p + [text[0]], text[1..]);
      }
    }
  }

  lemma RecordsSplit(a: seq<Record>, b: seq<Record>)
    ensures RecordsOk(a + b) <==> RecordsOk(a) && RecordsOk(b)
  {
    if RecordsOk(a + b) {
      forall k | 0 <= k < |a| ensures RecordOk(a[k]) { assert (a + b)[k] == a[k]; }
      forall k | 0 <= k < |b| ensures RecordOk(b[k]) { assert (a + b)[|a| + k] == b[k]; }
    }
  }

  // ------------------------------------------------------------------
  // What a write makes of a text
  // ------------------------------------------------------------------

  /** The records that a complete line makes; what does not fit into the write cache is cut off. */
  ghost function LineRecords(B: nat, conv: byte -> byte, recs: seq<Record>, line: seq<byte>): (xs: seq<Record>)
    requires Blksize(B) && RecordsOk(recs)
    ensures RecordsOk(xs)
  {
    if line == [] then [[FILLER_EBCDIC]] else Put(B, |Encode(recs)|, Translated(conv, line[..Min(|line|, WCACHE_MAX)]))
  }

  /** A line that fits makes one record. */
  lemma OneRecord(B: nat, conv: byte -> byte, recs: seq<Record>, line: seq<byte>)
    requires Blksize(B) && RecordsOk(recs) && |line| <= MAX_RECORD_LEN
    ensures LineRecords(B, conv, recs, line) == [LineRecord(conv, line)] && RecordOk(LineRecord(conv, line))
  {
    hide Put, Encode;
    if line != [] {
      assert line[..|line|] == line;
      PutOne(B, |Encode(recs)|, Translated(conv, line));
    }
  }

  /** Records and write cache after a write, how many bytes it took and whether it came to the end. */
  datatype Progress = Progress(recs: seq<Record>, cache: seq<byte>, taken: nat, ok: bool)

  /** How many bytes a newline at n takes behind the cached bytes p: it is counted even if the line is cut off. */
  function LineTaken(p: seq<byte>, n: nat): (m: int)
    requires |p| <= MAX_RECORD_LEN
    ensures 0 < m <= n + 1
  {
    Min(|p| + n, WCACHE_MAX) - |p| + 1
  }

  /** A write of buf to a file of the records recs with the bytes p in the write cache. */
  ghost function Typed(B: nat, conv: byte -> byte, recs: seq<Record>, p: seq<byte>, buf: seq<byte>): (o: Progress)
    requires Blksize(B) && RecordsOk(recs) && |p| <= MAX_RECORD_LEN
    ensures RecordsOk(o.recs) && |o.cache| <= MAX_RECORD_LEN && o.taken <= |buf|
    decreases |buf|
  {
    if buf == [] then Progress(recs, p, 0, true) else
      var scan := Min(|buf|, WCACHE_MAX);
      var n := NewlineAt(buf[..scan]);
      if n < scan then
        var m := LineTaken(p, n);
        var o := Typed(B, conv, recs + LineRecords(B, conv, recs, p + buf[..n]), [], buf[m..]);
        o.(taken := o.taken + m)
      else if |p| + scan >= WCACHE_MAX then Progress(recs, [], 0, false)
      else Progress(recs, p + buf, scan, true)
  }

  /** The newline that the scan window shows, if the lines of the buffer fit. */
  lemma WindowNewline(p: seq<byte>, buf: seq<byte>)
    requires Bounded(p, buf) && buf != []
    ensures
      var scan := Min(|buf|, WCACHE_MAX);
      var n := NewlineAt(buf[..scan]);
      && (n < scan ==> buf[n] == LINEFEED_ASCII && LINEFEED_ASCII !in buf[..n] && |p| + n <= MAX_RECORD_LEN)
      && (n == scan ==> LINEFEED_ASCII !in buf)
  {
    var scan := Min(|buf|, WCACHE_MAX);
    var n, all := NewlineAt(buf[..scan]), NewlineAt(buf);
    assert buf[..scan][..n] == buf[..n];
    if n < scan {
      FirstLine(x => x, p, buf, n);
    } else if all < |buf| {
      FirstLine(x => x, p, buf, all);
    } else {
      assert buf[..all] == buf;
    }
  }

  /** If the lines fit, a write makes one record of each and keeps the unfinished line, or drops that if it is too long. */
  lemma {:induction false} TypedLines(B: nat, conv: byte -> byte, recs: seq<Record>, p: seq<byte>, buf: seq<byte>)
    requires Blksize(B) && RecordsOk(recs) && |p| <= MAX_RECORD_LEN && Bounded(p, buf)
    ensures
      var o, rest := Typed(B, conv, recs, p, buf), Rest(p, buf);
      && o.recs == recs + Lines(conv, p, buf) && (o.ok <==> |rest| <= MAX_RECORD_LEN)
      && o.cache == (if o.ok then rest else [])
      && o.taken == if o.ok then |buf| else if LINEFEED_ASCII in buf then |buf| - |rest| else 0
    decreases |buf|
  {
    hide LineRecords, LineRecord;
    if buf == [] {
      assert recs + [] == recs;
    } else {
      WindowNewline(p, buf);
      var scan := Min(|buf|, WCACHE_MAX);
      var n := NewlineAt(buf[..scan]);
      if n < scan {
        FirstLine(conv, p, buf, n);
        OneRecord(B, conv, recs, p + buf[..n]);
        TypedRest(B, conv, recs, p, buf, n);
      } else {
        NoNewline(conv, p, buf);
        assert recs + [] == recs && (scan == |buf| ==> buf[..scan] == buf);
      }
    }
  }

  lemma {:induction false} TypedRest(B: nat, conv: byte -> byte, recs: seq<Record>, p: seq<byte>, buf: seq<byte>, n: nat)
    requires Blksize(B) && RecordsOk(recs) && |p| + n <= MAX_RECORD_LEN && Bounded(p, buf)
    requires n < |buf| && buf[n] == LINEFEED_ASCII && LINEFEED_ASCII !in buf[..n] && Bounded([], buf[n + 1..])
    requires RecordOk(LineRecord(conv, p + buf[..n]))
    ensures
      var line := LineRecord(conv, p + buf[..n]);
      var o, rest := Typed(B, conv, recs + [line], [], buf[n + 1..]), Rest(p, buf);
      && o.recs == recs + Lines(conv, p, buf) && (o.ok <==> |rest| <= MAX_RECORD_LEN)
      && o.cache == (if o.ok then rest else [])
      && o.taken + n + 1 == if o.ok then |buf| else |buf| - |rest|
    decreases |buf|, 0
  {
    hide LineRecord, Typed;
    var line, tail := LineRecord(conv, p + buf[..n]), buf[n + 1..];
    FirstLine(conv, p, buf, n);
    TypedLines(B, conv, recs + [line], [], tail);
    assert recs + ([line] + Lines(conv, [], tail)) == recs + [line] + Lines(conv, [], tail);
    if LINEFEED_ASCII !in tail { NoNewline(conv, [], tail); }
  }

  /** A write without a newline makes no record. */
  lemma TypedNoNewline(B: nat, conv: byte -> byte, recs: seq<Record>, p: seq<byte>, buf: seq<byte>)
    requires Blksize(B) && RecordsOk(recs) && |p| <= MAX_RECORD_LEN && LINEFEED_ASCII !in buf
    ensures Typed(B, conv, recs, p, buf).recs == recs
  {
  }

  /**
    A line of 65537 bytes that is completed behind a full write cache is
    reported as written, but makes the records of its first 65536 bytes and an
    empty line; its last byte is gone.
  */
  lemma LostByte(B: nat, conv: byte -> byte, recs: seq<Record>, p: seq<byte>, a: byte, b: byte)
    requires Blksize(B) && RecordsOk(recs) && |p| == MAX_RECORD_LEN && a != LINEFEED_ASCII && b != LINEFEED_ASCII
    ensures
      var first := Put(B, |Encode(recs)|, Translated(conv, p + [a]));
      Typed(B, conv, recs, p, [a, b, LINEFEED_ASCII]) == Progress(recs + first + [[FILLER_EBCDIC]], [], 3, true)
  {
    hide Put, Encode;
    var buf, lf := [a, b, LINEFEED_ASCII], [LINEFEED_ASCII];
    assert buf[..3] == buf && NewlineAt(buf) == 2 by { assert buf[1..] == [b, LINEFEED_ASCII] && buf[1..][1..] == lf; }
    assert (p + buf[..2])[..WCACHE_MAX] == p + [a] && buf[2..] == lf;
    var now := recs + Put(B, |Encode(recs)|, Translated(conv, p + [a]));
    assert Typed(B, conv, now, [], lf) == Progress(now + [[FILLER_EBCDIC]], [], 1, true) by {
      assert lf[..1] == lf && NewlineAt(lf) == 0 && [] + lf[..0] == [] && lf[1..] == [];
    }
  }

  // ------------------------------------------------------------------
  // The write operation
  // ------------------------------------------------------------------

  class TextFile {
    const file: VarFile
    /** Translation of the writer's bytes into those of a record. */
    const convTo: byte -> byte
    /** Bytes of the unfinished line. */
    var wcache: seq<byte>
    /** How many of them were reported to the writer as written. */
    var wcacheCommited: nat
    /** Empty lines written in this session; each takes one byte more than the writer sent. */
    var nullRecords: nat

    constructor (file: VarFile, convTo: byte -> byte)
      requires file.linefeed && file.Valid()
      ensures this.file == file && this.convTo == convTo && wcache == [] && nullRecords == 0
      ensures Valid() && Position() == file.sessionSize
    {
      this.file, this.convTo := file, convTo;
      wcache, wcacheCommited, nullRecords := [], 0, 0;
    }

    ghost predicate Valid()
      reads this, file, file.store
    {
      && file.linefeed && file.Valid()
      && wcacheCommited == |wcache| <= MAX_RECORD_LEN && LINEFEED_ASCII !in wcache
    }

    /** The offset at which the writer has to go on. */
    function Position(): int
      reads this, file
    {
      file.sessionSize - nullRecords + |wcache|
    }

    method CacheWriteData(buf: seq<byte>)
      requires |wcache| <= WCACHE_MAX
      modifies this`wcache
      ensures |wcache| <= WCACHE_MAX
      ensures wcache == old(wcache) + buf[..Min(|buf|, WCACHE_MAX - |old(wcache)|)]
    {
      var len := |buf|;
      if |wcache| + len > WCACHE_MAX {
        len := WCACHE_MAX - |wcache|;
      }
      wcache := wcache + buf[..len];
    }

    method PurgeWcache()
      modifies this`wcache, this`wcacheCommited
      ensures wcache == [] && wcacheCommited == 0
    {
      wcache, wcacheCommited := [], 0;
    }

    /** The offset of the next newline; |buf| when there is none. */
    static method FindNewline(buf: seq<byte>) returns (n: nat)
      ensures n <= |buf| && LINEFEED_ASCII !in buf[..n]
      ensures n < |buf| ==> buf[n] == LINEFEED_ASCII
    {
      n := 0;
      while n < |buf| && buf[n] != LINEFEED_ASCII
        invariant n <= |buf| && LINEFEED_ASCII !in buf[..n]
      {
        n := n + 1;
      }
    }

    lemma Facts()
      requires Valid()
      ensures Blksize(file.B) && RecordsOk(file.recs) && file.nrRecords == |file.recs| && 0 <= file.sessionSize
      ensures |wcache| <= MAX_RECORD_LEN
    {
    }

    /** Takes the bytes up to the next newline of the scan window, or the whole buffer when it has none. */
    method WriteStrings(buf: seq<byte>, offset: int) returns (rc: int)
      requires Valid() && buf != []
      modifies this, file, file.store
      ensures Valid()
      ensures offset != old(Position()) ==>
        rc == EINVAL && wcache == old(wcache) && file.recs == old(file.recs) && Position() == old(Position())
      ensures offset == old(Position()) ==>
        var scan := Min(|buf|, WCACHE_MAX);
        var n := NewlineAt(buf[..scan]);
        if n < scan then
          && rc == LineTaken(old(wcache), n) && wcache == [] && Position() == offset + rc
          && file.recs == old(file.recs) + old(LineRecords(file.B, convTo, file.recs, wcache + buf[..n]))
        else if |old(wcache)| + scan >= WCACHE_MAX then rc == EINVAL && wcache == [] && file.recs == old(file.recs)
        else rc == |buf| && wcache == old(wcache) + buf && file.recs == old(file.recs) && Position() == offset + rc
    {
      hide VarFile.Valid, LineRecords, FileStart;
      Facts();
      var scanLen := Min(|buf|, MAX_RECORD_LEN + 1);
      var off := offset - wcacheCommited;
      if off + nullRecords != file.sessionSize {
        return EINVAL;
      }
      var rsize := TextFile.FindNewline(buf[..scanLen]);
      FirstNewline(buf[..scanLen], rsize);
      if rsize == scanLen {
        if |wcache| + scanLen >= WCACHE_MAX {
          PurgeWcache();
          return EINVAL;
        }
        assert buf[..scanLen] == buf && buf[..|buf|] == buf;
        CacheWriteData(buf[..scanLen]);
        wcacheCommited := wcacheCommited + scanLen;
        return scanLen;
      }
      assert buf[..scanLen][..rsize] == buf[..rsize];
      rc := WriteLine(buf[..rsize], off);
    }

    /** Appends the cached bytes and tail, as far as they fit into the write cache. */
    method WriteLine(tail: seq<byte>, off: int) returns (rc: int)
      requires Valid() && off + nullRecords == file.sessionSize
      modifies this, file, file.store
      ensures Valid() && rc == LineTaken(old(wcache), |tail|) && wcache == []
      ensures file.recs == old(file.recs) + old(LineRecords(file.B, convTo, file.recs, wcache + tail))
      ensures Position() == old(Position()) + rc
    {
      hide VarFile.Valid, FileStart, Put, Encode;
      Facts();
      ghost var line := wcache + tail;
      CacheWriteData(tail);
      assert wcache == line[..Min(|line|, WCACHE_MAX)];
      var iconvBuf := Translated(convTo, wcache);
      var nlByte, nullRecord := 1, 0;
      if |wcache| == 0 {
        wcache, iconvBuf := [FILLER_EBCDIC], [FILLER_EBCDIC];
        nlByte, nullRecord := 0, 1;
        PutOne(file.B, |Encode(file.recs)|, iconvBuf);
      }
      var at := off - (file.nrRecords - nullRecords);
      rc := file.DoWrite(iconvBuf, at);
      rc := rc + nlByte;
      nullRecords := nullRecords + nullRecord;
      rc := rc - wcacheCommited;
      PurgeWcache();
    }

    /** Takes line after line until the buffer is empty or a line is too long. */
    method WriteText(buf: seq<byte>, offset: int) returns (rc: int)
      requires Valid()
      modifies this, file, file.store
      ensures Valid()
      ensures buf != [] && offset != old(Position()) ==>
        rc == EINVAL && wcache == old(wcache) && file.recs == old(file.recs) && Position() == old(Position())
      ensures buf == [] || offset == old(Position()) ==>
        var o := old(Typed(file.B, convTo, file.recs, wcache, buf));
        && file.recs == o.recs && wcache == o.cache && rc == (if !o.ok && o.taken == 0 then EINVAL else o.taken)
        && (o.ok ==> Position() == old(Position()) + rc)
    {
      hide VarFile.Valid, LineRecords, Typed;
      Facts();
      TypedStep(file.B, convTo, file.recs, wcache, buf);
      rc := 0;
      if buf == [] {
        return;
      }
      if offset != Position() {
        rc := WriteStrings(buf, offset);
        return;
      }
      ghost var o := Typed(file.B, convTo, file.recs, wcache, buf);
      var written := 0;
      assert buf[0..] == buf;
      while written < |buf|
        invariant written <= |buf| && Valid() && Position() == offset + written
        invariant Blksize(file.B) && RecordsOk(file.recs) && |wcache| <= MAX_RECORD_LEN
        invariant o == Later(Typed(file.B, convTo, file.recs, wcache, buf[written..]), written)
      {
        TypedStep(file.B, convTo, file.recs, wcache, buf[written..]);
        var one := WriteStrings(buf[written..], offset + written);
        if one < 0 {
          return if written > 0 then written else one;
        }
        assert buf[written..][one..] == buf[written + one..];
        written := written + one;
        Facts();
        if written == |buf| { TypedStep(file.B, convTo, file.recs, wcache, buf[written..]); }
      }
      TypedStep(file.B, convTo, file.recs, wcache, buf[written..]);
      rc := written;
    }

    /** The write operation of the file system; it reports no more than INT_MAX bytes as written. */
    method Write(buf: seq<byte>, offset: int) returns (rc: int)
      requires Valid()
      modifies this, file, file.store
      ensures Valid()
      ensures
        var b := buf[..Min(|buf|, INT_MAX)];
        var o := old(Typed(file.B, convTo, file.recs, wcache, b));
        if b != [] && offset != old(Position()) then
          rc == EINVAL && wcache == old(wcache) && file.recs == old(file.recs) && Position() == old(Position())
        else
          && file.recs == o.recs && wcache == o.cache && rc == (if !o.ok && o.taken == 0 then EINVAL else o.taken)
          && (o.ok ==> Position() == old(Position()) + rc)
    {
      hide VarFile.Valid, Typed;
      var nbytes := Min(|buf|, INT_MAX);
      rc := WriteText(buf[..nbytes], offset);
    }
  }

  ghost function Later(o: Progress, n: nat): Progress {
    o.(taken := o.taken + n)
  }

  /** A write takes one line after the other. */
  lemma TypedStep(B: nat, conv: byte -> byte, recs: seq<Record>, p: seq<byte>, buf: seq<byte>)
    requires Blksize(B) && RecordsOk(recs) && |p| <= MAX_RECORD_LEN
    ensures
      var scan := Min(|buf|, WCACHE_MAX);
      var n := NewlineAt(buf[..scan]);
      Typed(B, conv, recs, p, buf) ==
        if buf == [] then Progress(recs, p, 0, true)
        else if n < scan then
          Later(Typed(B, conv, recs + LineRecords(B, conv, recs, p + buf[..n]), [], buf[LineTaken(p, n)..]), LineTaken(p, n))
        else if |p| + scan >= WCACHE_MAX then Progress(recs, [], 0, false)
        else Progress(recs, p + buf, |buf|, true)
  {
    hide LineRecords;
  }

  lemma {:induction false} FirstNewline(buf: seq<byte>, n: nat)
    requires n <= |buf| && LINEFEED_ASCII !in buf[..n] && (n < |buf| ==> buf[n] == LINEFEED_ASCII)
    ensures NewlineAt(buf) == n
  {
    var m := NewlineAt(buf);
  }

  // ------------------------------------------------------------------
  // Lines and records
  // ------------------------------------------------------------------

  /** No record holds a byte that a reader takes for a newline. */
  ghost predicate Clean(from: byte -> byte, recs: seq<Record>) {
    forall k, i :: 0 <= k < |recs| && 0 <= i < |recs[k]| ==> from(recs[k][i]) != LINEFEED_ASCII
  }

  /** Behind the records a the records b have only clean ones. */
  ghost predicate Extends(from: byte -> byte, a: seq<Record>, b: seq<Record>) {
    |a| <= |b| && b[..|a|] == a && Clean(from, b[|a|..])
  }

  lemma ExtendsLonger(from: byte -> byte, a: seq<Record>, b: seq<Record>)
    requires Extends(from, a, b)
    ensures |a| <= |b|
  {
  }

  lemma ExtendsMore(from: byte -> byte, a: seq<Record>, b: seq<Record>, xs: seq<Record>)
    requires Extends(from, a, b) && Clean(from, xs)
    ensures Extends(from, a, b + xs)
  {
    assert (b + xs)[..|a|] == a && (b + xs)[|a|..] == b[|a|..] + xs;
  }

  lemma TranslatedClean(conv: byte -> byte, from: byte -> byte, s: seq<byte>)
    requires Inverse(conv, from) && LINEFEED_ASCII !in s
    ensures forall x :: x in Translated(conv, s) ==> from(x) != LINEFEED_ASCII
  {
  }

  lemma {:induction false} LinesClean(conv: byte -> byte, from: byte -> byte, p: seq<byte>, text: seq<byte>)
    requires Inverse(conv, from) && LINEFEED_ASCII !in p
    ensures Clean(from, Lines(conv, p, text))
    decreases |text|
  {
    if text != [] {
      if text[0] == LINEFEED_ASCII {
        LinesClean(conv, from, [], text[1..]);
        TranslatedClean(conv, from, p);
      } else {
        LinesClean(conv, from, p + [text[0]], text[1..]);
      }
    }
  }

  lemma LineRecordsClean(B: nat, conv: byte -> byte, from: byte -> byte, recs: seq<Record>, line: seq<byte>)
    requires Blksize(B) && RecordsOk(recs) && Inverse(conv, from) && LINEFEED_ASCII !in line
    ensures Clean(from, LineRecords(B, conv, recs, line))
  {
    hide Put, Encode;
    var cut := line[..Min(|line|, WCACHE_MAX)];
    TranslatedClean(conv, from, cut);
    PutFrom(B, |Encode(recs)|, Translated(conv, cut));
  }

  /** A write puts clean records behind the old ones and keeps no newline. */
  lemma {:induction false} TypedClean(B: nat, conv: byte -> byte, from: byte -> byte, a: seq<Record>, recs: seq<Record>, p: seq<byte>, buf: seq<byte>)
    requires Blksize(B) && RecordsOk(recs) && |p| <= MAX_RECORD_LEN && LINEFEED_ASCII !in p && Inverse(conv, from) && Extends(from, a, recs)
    ensures Extends(from, a, Typed(B, conv, recs, p, buf).recs)
    decreases |buf|
  {
    hide LineRecords, Extends, Inverse;
    if buf != [] {
      var scan := Min(|buf|, WCACHE_MAX);
      var n := NewlineAt(buf[..scan]);
      if n < scan {
        assert buf[..scan][..n] == buf[..n];
        var xs := LineRecords(B, conv, recs, p + buf[..n]);
        LineRecordsClean(B, conv, from, recs, p + buf[..n]);
        ExtendsMore(from, a, recs, xs);
        TypedClean(B, conv, from, a, recs + xs, [], buf[LineTaken(p, n)..]);
      }
    }
  }

  /** Clean records are determined by the text a reader sees. */
  lemma {:induction false} TextInjective(m: Mode, xs: seq<Record>, ys: seq<Record>)
    requires m.translate && m.linefeed && Clean(m.conv, xs) && Clean(m.conv, ys) && Text(m, xs) == Text(m, ys)
    ensures Text(m, xs) == Text(m, ys) && |xs| == |ys| && forall k :: 0 <= k < |xs| ==> Convert(m, xs[k]) == Convert(m, ys[k])
    decreases |xs|
  {
    if xs != [] && ys != [] {
      var a, b, x, y := xs[..|xs| - 1], ys[..|ys| - 1], xs[|xs| - 1], ys[|ys| - 1];
      LastSeen(m, a, x, b, y);
      TextInjective(m, a, b);
    }
  }

  lemma LastSeen(m: Mode, a: seq<Record>, x: Record, b: seq<Record>, y: Record)
    requires m.translate && m.linefeed && Clean(m.conv, [x]) && Clean(m.conv, [y])
    requires Text(m, a) + Seen(m, x) == Text(m, b) + Seen(m, y)
    ensures Convert(m, x) == Convert(m, y) && Text(m, a) == Text(m, b)
  {
    if |x| < |y| { NotShorter(m, a, x, b, y); }
    if |y| < |x| { NotShorter(m, b, y, a, x); }
    JoinedSame(Text(m, a), Seen(m, x), Text(m, b), Seen(m, y));
    assert Convert(m, x) == Seen(m, x)[..|x|] && Convert(m, y) == Seen(m, y)[..|x|];
  }

  lemma InsideRecord(m: Mode, b: seq<Record>, y: Record, i: nat)
    requires m.translate && Clean(m.conv, [y]) && |Text(m, b)| <= i < |Text(m, b)| + |y|
    ensures (Text(m, b) + Seen(m, y))[i] != LINEFEED_ASCII
  {
    hide Text;
    var j := i - |Text(m, b)|;
    assert Convert(m, y)[j] == m.conv([y][0][j]);
  }

  lemma NotShorter(m: Mode, a: seq<Record>, x: Record, b: seq<Record>, y: Record)
    requires m.translate && m.linefeed && Clean(m.conv, [y])
    requires Text(m, a) + Seen(m, x) == Text(m, b) + Seen(m, y)
    ensures |x| >= |y|
  {
    var s := Text(m, a) + Seen(m, x);
    var n := |Text(m, a)|;
    if |x| < |y| {
      assert a != [] by { assert |s| >= |y| + 1; }
      assert s[n - 1] == LINEFEED_ASCII by { var r := a[|a| - 1]; assert Text(m, a) == Text(m, a[..|a| - 1]) + Seen(m, r); }
      InsideRecord(m, b, y, n - 1);
    }
  }

  // ------------------------------------------------------------------
  // Whole texts
  // ------------------------------------------------------------------

  /** Every write gets at most what the write operation reports in one go. */
  ghost predicate Chunks(chunks: seq<seq<byte>>) {
    forall i :: 0 <= i < |chunks| ==> |chunks[i]| <= INT_MAX
  }

  /** The records and the write cache behind the bytes text, as long as its lines fit. */
  ghost predicate Kept(conv: byte -> byte, before: seq<Record>, p: seq<byte>, text: seq<byte>, recs: seq<Record>, cache: seq<byte>) {
    Bounded(p, text) ==>
      recs == before + Lines(conv, p, text) && (|Rest(p, text)| <= MAX_RECORD_LEN ==> cache == Rest(p, text))
  }

  /** An unfinished line that is too long never ends, if the lines of the text fit. */
  lemma NeverEnds(conv: byte -> byte, p: seq<byte>, text: seq<byte>)
    requires |p| > MAX_RECORD_LEN && Bounded(p, text)
    ensures LINEFEED_ASCII !in text && Rest(p, text) == p + text && Lines(conv, p, text) == []
  {
    var n := NewlineAt(text);
    if n < |text| {
      FirstLine(conv, p, text, n);
    }
    assert text[..n] == text;
    NoNewline(conv, p, text);
  }

  lemma NextChunk(B: nat, conv: byte -> byte, before: seq<Record>, p: seq<byte>, text: seq<byte>, recs: seq<Record>, cache: seq<byte>, chunk: seq<byte>)
    requires Blksize(B) && RecordsOk(recs) && |cache| <= MAX_RECORD_LEN && Kept(conv, before, p, text, recs, cache)
    ensures var o := Typed(B, conv, recs, cache, chunk); Kept(conv, before, p, text + chunk, o.recs, o.cache)
  {
    hide Bounded, Rest, Lines, Typed;
    CutAnywhere(conv, p, text, chunk);
    if Bounded(p, text + chunk) {
      var rest := Rest(p, text);
      if |rest| <= MAX_RECORD_LEN {
        TypedLines(B, conv, recs, cache, chunk);
        assert before + (Lines(conv, p, text) + Lines(conv, rest, chunk)) == before + Lines(conv, p, text) + Lines(conv, rest, chunk);
      } else {
        NeverEnds(conv, rest, chunk);
        TypedNoNewline(B, conv, recs, cache, chunk);
        assert Lines(conv, p, text) + [] == Lines(conv, p, text);
      }
    }
  }

  /** The records hold one line each of the text if and only if its lines fit. */
  lemma KeptExactly(conv: byte -> byte, before: seq<Record>, p: seq<byte>, text: seq<byte>, recs: seq<Record>, cache: seq<byte>)
    requires RecordsOk(recs) && Kept(conv, before, p, text, recs, cache)
    ensures recs == before + Lines(conv, p, text) <==> Bounded(p, text)
  {
    hide Bounded, Rest, Lines;
    LinesOk(conv, p, text);
    RecordsSplit(before, Lines(conv, p, text));
  }

  /**
    Writes a text in pieces, each where the one before ended. However the text
    is cut, its lines become the records of the file if and only if they fit.
  */
  method WriteChunks(t: TextFile, chunks: seq<seq<byte>>, ghost from: byte -> byte)
    requires t.Valid() && Chunks(chunks) && Inverse(t.convTo, from)
    modifies t, t.file, t.file.store
    ensures t.Valid()
    ensures
      var p, text := old(t.wcache), Concat(chunks);
      && (t.file.recs == old(t.file.recs) + Lines(t.convTo, p, text) <==> Bounded(p, text))
      && (Bounded(p, text) && |Rest(p, text)| <= MAX_RECORD_LEN ==> t.wcache == Rest(p, text))
    ensures Extends(from, old(t.file.recs), t.file.recs)
  {
    hide VarFile.Valid, Typed, Lines, Rest, Bounded, Concat, Kept, Extends, Inverse, Clean;
    ghost var p, recs := t.wcache, t.file.recs;
    var i := 0;
    NothingKept(t.convTo, recs, p, from);
    while i < |chunks|
      invariant i <= |chunks| && t.Valid() && Kept(t.convTo, recs, p, Concat(chunks[..i]), t.file.recs, t.wcache)
      invariant Extends(from, recs, t.file.recs)
    {
      var chunk := chunks[i];
      assert chunk[..|chunk|] == chunk;
      t.Facts();
      NextChunk(t.file.B, t.convTo, recs, p, Concat(chunks[..i]), t.file.recs, t.wcache, chunk);
      TypedClean(t.file.B, t.convTo, from, recs, t.file.recs, t.wcache, chunk);
      ConcatLast(chunks[..i + 1]);
      assert chunks[..i + 1][..i] == chunks[..i];
      var rc := t.Write(chunk, t.Position());
      i := i + 1;
    }
    assert chunks[..i] == chunks;
    t.Facts();
    KeptExactly(t.convTo, recs, p, Concat(chunks), t.file.recs, t.wcache);
    if Bounded(p, Concat(chunks)) && |Rest(p, Concat(chunks))| <= MAX_RECORD_LEN {
      KeptRest(t.convTo, recs, p, Concat(chunks), t.file.recs, t.wcache);
    }
  }

  lemma NothingKept(conv: byte -> byte, recs: seq<Record>, p: seq<byte>, from: byte -> byte)
    ensures Kept(conv, recs, p, Concat([]), recs, p) && Extends(from, recs, recs)
  {
    assert recs + [] == recs;
  }

  lemma KeptRest(conv: byte -> byte, before: seq<Record>, p: seq<byte>, text: seq<byte>, recs: seq<Record>, cache: seq<byte>)
    requires Kept(conv, before, p, text, recs, cache) && Bounded(p, text) && |Rest(p, text)| <= MAX_RECORD_LEN
    ensures cache == Rest(p, text)
  {
  }

  /** What a reader sees of records with the lines of a complete text behind them. */
  lemma WrittenText(m: Mode, conv: byte -> byte, recs: seq<Record>, text: seq<byte>)
    requires m.translate && m.linefeed && Inverse(conv, m.conv) && Rest([], text) == []
    ensures Text(m, recs + Lines(conv, [], text)) == Text(m, recs) + Blanked(true, text)
  {
    hide Lines, Rest, Text, Blanked, Inverse;
    LinesRead(m, conv, [], text);
    TextConcat(m, recs, Lines(conv, [], text));
    assert Text(m, Lines(conv, [], text)) + [] == Text(m, Lines(conv, [], text));
    assert [] + Blanked(true, text) == Blanked(true, text);
  }

  /** A reader sees the text behind the old records if and only if each line has become one record. */
  lemma ReadExactly(m: Mode, conv: byte -> byte, before: seq<Record>, text: seq<byte>, recs: seq<Record>)
    requires m.translate && m.linefeed && Inverse(conv, m.conv) && Rest([], text) == [] && Extends(m.conv, before, recs)
    requires recs == before + Lines(conv, [], text) <==> Bounded([], text)
    requires RecordsOk(recs)
    ensures Text(m, recs) == Text(m, before) + Blanked(true, text) <==> Bounded([], text)
  {
    hide Lines, Rest, Text, Blanked, Bounded, Inverse;
    var xs, lines := recs[|before|..], Lines(conv, [], text);
    assert recs == before + xs;
    WrittenText(m, conv, before, text);
    if Text(m, recs) == Text(m, before) + Blanked(true, text) {
      TextConcat(m, before, xs);
      TextConcat(m, before, lines);
      JoinedSame(Text(m, before), Text(m, xs), Text(m, before), Text(m, lines));
      LinesClean(conv, m.conv, [], text);
      TextInjective(m, xs, lines);
      SameLengths(m, conv, recs, xs, text);
    }
  }

  /** Lines that are as long as records fit. */
  lemma SameLengths(m: Mode, conv: byte -> byte, recs: seq<Record>, xs: seq<Record>, text: seq<byte>)
    requires RecordsOk(recs) && |xs| <= |recs| && recs[|recs| - |xs|..] == xs && |xs| == |Lines(conv, [], text)|
    requires forall k :: 0 <= k < |xs| ==> Convert(m, xs[k]) == Convert(m, Lines(conv, [], text)[k])
    ensures Bounded([], text)
  {
    var lines := Lines(conv, [], text);
    forall k | 0 <= k < |lines| ensures RecordOk(lines[k]) {
      assert RecordOk(recs[|recs| - |xs| + k]);
      assert |Convert(m, xs[k])| == |xs[k]| && |Convert(m, lines[k])| == |lines[k]|;
    }
    LinesOk(conv, [], text);
  }

  /** Text written in any pieces reads back behind what the file held before, with a blank in each empty line, if and only if its lines fit. */
  method WriteThenRead(t: TextFile, chunks: seq<seq<byte>>, convFrom: byte -> byte, hint: nat) returns (back: seq<byte>)
    requires t.Valid() && t.wcache == [] && Chunks(chunks) && Inverse(t.convTo, convFrom)
    requires Concat(chunks) != [] && Concat(chunks)[|Concat(chunks)| - 1] == LINEFEED_ASCII
    requires hint == 0 || hint < |t.file.recs|
    modifies t, t.file, t.file.store
    ensures t.Valid()
    ensures
      var text, m := Concat(chunks), Mode(t.file.B, true, true, convFrom);
      back == Text(m, old(t.file.recs)) + Blanked(true, text) <==> Bounded([], text)
  {
    hide Lines, Rest, Concat, Text, Blanked, Bounded, Inverse, Chunks, VarFile.Valid, Extends, FileStart;
    ghost var text, recs, m := Concat(chunks), t.file.recs, Mode(t.file.B, true, true, convFrom);
    LastNewline([], text);
    WriteChunks(t, chunks, convFrom);
    t.Facts();
    ReadExactly(m, t.convTo, recs, text, t.file.recs);
    var g := Reopen(t.file);
    CountsRecords(g);
    CountsRecords(t.file);
    ExtendsLonger(convFrom, recs, t.file.recs);
    var rc;
    rc, back := ReadBack(g, true, convFrom, hint, g.sessionSize, 0);
    ghost var all := Text(m, t.file.recs);
    assert all[0..|all|] == all;
  }
}
