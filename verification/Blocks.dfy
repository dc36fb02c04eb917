/**
  Block arithmetic shared by the file system modules: byte values, block
  offsets inside a file's byte stream, and the image that a block of the
  stream leaves on disk.
*/
module Blocks {
  type byte = b: int | 0 <= b < 256

  /** Block sizes the file system is used with; the upper limit is the u16 the walk keeps a block length in. */
  ghost predicate Blksize(B: int) {
    2 <= B < 0x10000
  }

  function Min(a: int, b: int): int {
    if a < b then a else b
  }

  /** Stream offset of block i, i times the block size (written as a sum to stay linear). */
  function Off(B: nat, i: nat): nat {
    if i == 0 then 0 else Off(B, i - 1) + B
  }

  lemma {:induction false} OffIsProduct(B: nat, i: nat)
    ensures Off(B, i) == i * B
  {
    if i > 0 {
      OffIsProduct(B, i - 1);
      assert i * B == (i - 1) * B + B;
    }
  }

  lemma {:induction false} OffMono(B: nat, i: nat, j: nat)
    requires i <= j
    ensures Off(B, i) <= Off(B, j)
    ensures i < j ==> Off(B, i) + B <= Off(B, j)
    decreases j
  {
    if i < j {
      OffMono(B, i, j - 1);
    }
  }

  /** The block that holds stream position s. */
  function BlockOf(B: nat, s: nat): (q: nat)
    requires B > 0
    ensures Off(B, q) <= s < Off(B, q) + B
  {
    if s < B then 0 else 1 + BlockOf(B, s - B)
  }

  lemma BlockOfUnique(B: nat, s: nat, q: nat)
    requires B > 0 && Off(B, q) <= s < Off(B, q) + B
    ensures BlockOf(B, s) == q
  {
    var r := BlockOf(B, s);
    if r < q {
      OffMono(B, r, q);
    } else if q < r {
      OffMono(B, q, r);
    }
  }

  /** Number of blocks of P units that hold n units, n / P rounded up. */
  function CeilDiv(P: nat, n: nat): (q: nat)
    requires P > 0
    ensures n <= Off(P, q) && (q == 0 || Off(P, q - 1) < n) && (n > 0 ==> q > 0)
  {
    if n == 0 then 0 else 1 + BlockOf(P, n - 1)
  }

  /** Byte p of a stream that is padded with zeros behind its end. */
  function ByteAt(data: seq<byte>, p: nat): byte {
    if p < |data| then data[p] else 0
  }

  /** The bytes block i of a zero padded stream holds. */
  function Image(B: nat, data: seq<byte>, i: nat): (img: seq<byte>)
    ensures |img| == B
    ensures forall o :: 0 <= o < B ==> img[o] == ByteAt(data, Off(B, i) + o)
  {
    seq<byte>(B, o requires 0 <= o < B => ByteAt(data, Off(B, i) + o))
  }

  function Zeros(n: nat): (z: seq<byte>)
    ensures |z| == n && forall o :: 0 <= o < n ==> z[o] == 0
  {
    seq<byte>(n, _ => 0)
  }

  /** The block with the bytes w written at offset off. */
  function Splice(block: seq<byte>, off: nat, w: seq<byte>): (r: seq<byte>)
    requires off + |w| <= |block|
    ensures |r| == |block|
  {
    block[..off] + w + block[off + |w|..]
  }

  /** A block behind the end of the stream is all zero. */
  lemma FreshImage(B: nat, data: seq<byte>, i: nat)
    requires |data| <= Off(B, i)
    ensures Image(B, data, i) == Zeros(B)
  {
  }

  /** Appending to the stream inside block i rewrites exactly the bytes behind the old end. */
  lemma SpliceImage(B: nat, data: seq<byte>, w: seq<byte>, i: nat, off: nat)
    requires |data| == Off(B, i) + off && off + |w| <= B
    ensures Splice(Image(B, data, i), off, w) == Image(B, data + w, i)
  {
    var l := Splice(Image(B, data, i), off, w);
    var r := Image(B, data + w, i);
    forall o | 0 <= o < B ensures l[o] == r[o] {
    }
  }

  /** Appending to the stream leaves the blocks that were already full alone. */
  lemma FullImage(B: nat, data: seq<byte>, w: seq<byte>, i: nat)
    requires Off(B, i) + B <= |data|
    ensures Image(B, data + w, i) == Image(B, data, i)
  {
  }

  /** The address of the block a byte address lies in. */
  function Base(B: nat, addr: nat): (b: nat)
    requires B > 0
  {
    addr - addr % B
  }

  lemma BaseOf(B: nat, a: nat, o: nat)
    requires B > 0 && a % B == 0 && o < B
    ensures (a + o) % B == o && Base(B, a + o) == a
  {
    var q := a / B;
    assert a == B * q;
    ModUnique(B, q, o);
  }

  lemma ModUnique(B: nat, q: nat, o: nat)
    requires B > 0 && o < B
    ensures (B * q + o) % B == o && (B * q + o) / B == q
  {
    var x := B * q + o;
    var q2, o2 := x / B, x % B;
    assert x == B * q2 + o2;
    if q2 < q {
      assert B * q >= B * (q2 + 1) by { MulMono(B, q2 + 1, q); }
    } else if q2 > q {
      assert B * q2 >= B * (q + 1) by { MulMono(B, q + 1, q2); }
    }
  }

  lemma MulMono(B: nat, i: nat, j: nat)
    requires i <= j
    ensures B * i <= B * j
  {
  }

  lemma AlignedEnd(B: nat, a: nat)
    requires B > 0 && a % B == 0
    ensures (a + B) % B == 0
  {
    var q := a / B;
    assert a + B == B * (q + 1) + 0;
    ModUnique(B, q + 1, 0);
  }

  /** The lowest block address at or above a that is not taken. */
  function LowestFree(B: nat, taken: set<nat>, a: nat): (r: nat)
    requires B > 0 && a % B == 0
    ensures a <= r && r % B == 0 && r !in taken
    ensures forall x :: x % B == 0 && a <= x < r ==> x in taken
    decreases taken
  {
    if a in taken then
      AlignedEnd(B, a);
      var r := LowestFree(B, taken - {a}, a + B);
      assert forall x :: x % B == 0 && a < x < a + B ==> false by { NoneBetween(B, a); }
      r
    else a
  }

  lemma NoneBetween(B: nat, a: nat)
    requires B > 0 && a % B == 0
    ensures forall x :: x % B == 0 && a < x < a + B ==> false
  {
    forall x | x % B == 0 && a < x < a + B ensures false {
      BaseOf(B, a, x - a);
    }
  }

  lemma DivIsBlockOf(P: nat, n: nat)
    requires P > 0
    ensures n / P == BlockOf(P, n)
  {
    var q := BlockOf(P, n);
    OffIsProduct(P, q);
    ModUnique(P, q, n - Off(P, q));
    assert P * q == q * P;
  }

  lemma SlicesJoin(s: seq<byte>, a: nat, b: nat, c: nat)
    requires a <= b <= c <= |s|
    ensures s[a..b] + s[b..c] == s[a..c]
  {
  }

  lemma SliceOfSlice(s: seq<byte>, a: nat, b: nat, c: nat, d: nat)
    requires a <= b <= |s| && c <= d <= b - a
    ensures s[a..b][c..d] == s[a + c..a + d]
  {
    var x, y := s[a..b][c..d], s[a + c..a + d];
    forall i | 0 <= i < d - c ensures x[i] == y[i] {
    }
  }

  /** The pieces of a stream one after the other. */
  ghost function Concat(chunks: seq<seq<byte>>): seq<byte> {
    if chunks == [] then [] else Concat(chunks[..|chunks| - 1]) + chunks[|chunks| - 1]
  }
}
