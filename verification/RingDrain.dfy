/**
  Draining a perf ring buffer to a file.  The kernel appends to an endless
  stream of which the buffer holds the last bytes; head and tail are positions
  in the stream, not in the buffer.
*/
module RingDrain {
  import opened Blocks

  /** A difference of positions as the drain computes it, in 32 bits with sign. */
  function ToInt(d: int): int {
    var m := d % 0x1_0000_0000;
    if m < 0x8000_0000 then m else m - 0x1_0000_0000
  }

  /** The place of a stream position in the buffer, and how often the buffer was filled before it. */
  function Place(size: nat, p: nat): (r: nat)
    requires size > 0
    ensures r < size
  {
    p % size
  }

  function Lap(size: nat, p: nat): nat
    requires size > 0
  {
    p / size
  }

  class Ring {
    const size: nat
    /** The mapped buffer. */
    var data: seq<byte>
    var head: nat
    var tail: nat
    /** The output file. */
    var file: seq<byte>
    /** Everything the kernel has produced. */
    ghost var stream: seq<byte>

    /** An empty buffer; the size is one a 32-bit length can hold. */
    constructor (size: nat)
      requires 0 < size < 0x8000_0000
      ensures Valid() && stream == [] && file == []
    {
      this.size, data := size, seq(size, _ => 0);
      head, tail, file, stream := 0, 0, [], [];
    }

    /** The unread part of the stream is in the buffer, and what was read is in the file. */
    ghost predicate Valid()
      reads this
    {
      && 0 < size < 0x8000_0000 && |data| == size && head == |stream| && tail <= head <= tail + size
      && (forall p :: tail <= p < head ==> data[Place(size, p)] == stream[p])
      && file == stream[..tail]
    }

    /** The kernel appends bytes; it never overwrites what is still unread. */
    method Produce(bytes: seq<byte>)
      requires Valid() && |bytes| <= size - (head - tail)
      modifies this`data, this`head, this`stream
      ensures Valid() && stream == old(stream) + bytes
    {
      var i := 0;
      while i < |bytes|
        invariant 0 <= i <= |bytes| && Valid() && stream == old(stream) + bytes[..i] && head == old(head) + i
      {
        ghost var was := stream;
        Apart(size, head, tail);
        data := data[Place(size, head) := bytes[i]];
        stream := stream + [bytes[i]];
        head := head + 1;
        assert stream[..tail] == was[..tail];
        i := i + 1;
      }
      assert bytes[..i] == bytes;
    }

    /** Writes the unread part of the stream to the file, in one or two pieces. */
    method SaveMap()
      requires Valid()
      modifies this`tail, this`file
      ensures Valid() && stream == old(stream) && file == stream && tail == head
    {
      hide ToInt, Place, Lap;
      var dHeadOld, dHead, dPrev := head, head, tail;
      var diff := ToInt(dHead - dPrev);
      Narrow(head - tail);
      if diff == 0 {
        assert stream[..tail] == stream;
        return;
      }
      Pieces(size, tail, head);
      var wrapped := Lap(size, dHead) != Lap(size, dPrev);
      dHead := Place(size, dHead);
      if dHead == 0 {
        dHead := size;
        wrapped := false;
      }
      dPrev := Place(size, dPrev);
      WriteOut(dPrev, diff, wrapped, Lap(size, tail));
      tail := dHeadOld;
      assert stream[..tail] == stream;
    }

    /** The writes of a drain: the end of the buffer first when the unread part wraps around. */
    method WriteOut(dPrev: nat, diff: nat, wrapped: bool, ghost q: nat)
      requires Valid() && tail == size * q + dPrev && size * (q + 1) == size * q + size && dPrev < size
      requires diff == head - tail && (wrapped <==> dPrev + diff > size)
      modifies this`file
      ensures file == stream
    {
      if wrapped {
        var part2 := size - dPrev;
        Piece(tail, dPrev, part2, q);
        Piece(tail + part2, 0, diff - part2, q + 1);
        hide Valid;
        ghost var t, s := tail, stream;
        file := file + data[dPrev..dPrev + part2];
        assert file == s[..t + part2];
        file := file + data[0..diff - part2];
        assert file == s;
      } else {
        Piece(tail, dPrev, diff, q);
        hide Valid;
        file := file + data[dPrev..dPrev + diff];
        assert file == stream;
      }
    }

    /** A run of the buffer that holds a run of the stream. */
    lemma Piece(p: nat, at: nat, n: nat, q: nat)
      requires Valid() && tail <= p && p + n <= head && at + n <= size && p == size * q + at
      ensures data[at..at + n] == stream[p..p + n]
    {
      var a, b := data[at..at + n], stream[p..p + n];
      forall j | 0 <= j < n ensures a[j] == b[j] {
        ModUnique(size, q, at + j);
        assert size * q + (at + j) == p + j;
        assert data[Place(size, p + j)] == stream[p + j];
      }
    }
  }

  /** A buffer full is within the range of the 32-bit difference. */
  lemma Narrow(d: int)
    requires 0 <= d < 0x8000_0000
    ensures ToInt(d) == d
  {
  }

  /** The place of the next byte holds no unread one. */
  lemma Apart(size: nat, head: nat, tail: nat)
    requires size > 0 && tail <= head < tail + size
    ensures forall p :: tail <= p < head ==> Place(size, p) != Place(size, head)
  {
    forall p | tail <= p < head ensures Place(size, p) != Place(size, head) {
      OneLap(size, p, head);
    }
  }

  lemma OneLap(size: nat, p: nat, head: nat)
    requires size > 0 && p < head < p + size
    ensures Place(size, p) != Place(size, head)
  {
    var a, r := p / size, p % size;
    assert p == size * a + r;
    assert size * (a + 1) == size * a + size;
    var d := head - p;
    if r + d < size { ModUnique(size, a, r + d); } else { ModUnique(size, a + 1, r + d - size); }
  }

  /** Whether the unread bytes lie in the buffer in one piece, as the quotients of the positions tell. */
  lemma Pieces(size: nat, tail: nat, head: nat)
    requires size > 0 && tail < head <= tail + size
    ensures tail == size * Lap(size, tail) + Place(size, tail) && size * (Lap(size, tail) + 1) == size * Lap(size, tail) + size
    ensures Lap(size, head) != Lap(size, tail) && Place(size, head) != 0 <==> Place(size, tail) + (head - tail) > size
  {
    var q, r, n := tail / size, tail % size, head - tail;
    assert tail == size * q + r;
    assert size * (q + 1) == size * q + size;
    if r + n < size {
      ModUnique(size, q, r + n);
      assert head == size * q + (r + n);
    } else {
      ModUnique(size, q + 1, r + n - size);
      assert head == size * (q + 1) + (r + n - size);
    }
  }

  /** Over repeated drains, each of at most a buffer full, the file becomes exactly the stream. */
  method RunDrains(r: Ring, chunks: seq<seq<byte>>)
    requires r.Valid() && r.tail == r.head && forall i :: 0 <= i < |chunks| ==> |chunks[i]| <= r.size
    modifies r
    ensures r.Valid() && r.file == r.stream == old(r.stream) + Concat(chunks)
  {
    var i := 0;
    assert r.stream[..r.tail] == r.stream;
    while i < |chunks|
      invariant 0 <= i <= |chunks| && r.Valid() && r.tail == r.head
      invariant r.file == r.stream == old(r.stream) + Concat(chunks[..i])
    {
      r.Produce(chunks[i]);
      r.SaveMap();
      assert chunks[..i + 1][..i] == chunks[..i];
      i := i + 1;
    }
    assert chunks[..i] == chunks;
  }
}
