/**
  The directory as a value: a packed list of entries, spread over blocks of K
  slots, and what happens to it when an entry is added, removed or renamed.
*/
module DirTables {
  import opened Blocks
  import opened DirNames

  datatype Slot = EndMark | Director | AllocMap | File(id: Id, body: nat)

  /** Where an entry lies on disk. */
  datatype Loc = Loc(block: nat, slot: nat)

  /** An entry of a file whose name can be looked up. */
  ghost predicate EntryOk(e: Slot) {
    e.File? && Encode(Decode(e.id)) == Some(e.id) && Canonical(Decode(e.id))
  }

  ghost predicate FilesOk(e: seq<Slot>) {
    forall t :: 0 <= t < |e| ==> EntryOk(e[t])
  }

  /** No two entries have the same name. */
  ghost predicate Unique(e: seq<Slot>)
    requires FilesOk(e)
  {
    forall t, u :: 0 <= t < u < |e| ==> e[t].id != e[u].id
  }

  /** All slots of the directory: two special entries, the files, and nothing behind them. */
  ghost function Flat(e: seq<Slot>, n: nat): (f: seq<Slot>)
    requires |e| + 2 <= n
    ensures |f| == n && f[0] == Director && f[1] == AllocMap
    ensures forall t :: 0 <= t < |e| ==> f[t + 2] == e[t]
    ensures forall i :: |e| + 2 <= i < n ==> f[i] == EndMark
  {
    [Director, AllocMap] + e + seq(n - 2 - |e|, _ => EndMark)
  }

  ghost predicate Chunk(K: nat, block: seq<Slot>, flat: seq<Slot>, b: nat) {
    |block| == K && Off(K, b) + K <= |flat| && block == flat[Off(K, b)..Off(K, b) + K]
  }

  /** The directory blocks hold these slots. */
  ghost predicate Holds(K: nat, blocks: seq<nat>, disk: map<nat, seq<Slot>>, flat: seq<Slot>) {
    && |flat| == Off(K, |blocks|) && (forall i, j :: 0 <= i < j < |blocks| ==> blocks[i] != blocks[j])
    && forall b :: 0 <= b < |blocks| ==> blocks[b] in disk && Chunk(K, disk[blocks[b]], flat, b)
  }

  ghost function LocOf(K: nat, blocks: seq<nat>, i: nat): Loc
    requires K > 0 && BlockOf(K, i) < |blocks|
  {
    Loc(blocks[BlockOf(K, i)], i - Off(K, BlockOf(K, i)))
  }

  lemma InBlocks(K: nat, n: nat, i: nat)
    requires K > 0 && i < Off(K, n)
    ensures BlockOf(K, i) < n
  {
    if BlockOf(K, i) >= n { OffMono(K, n, BlockOf(K, i)); }
  }

  lemma ReadSlot(K: nat, blocks: seq<nat>, disk: map<nat, seq<Slot>>, flat: seq<Slot>, b: nat, s: nat)
    requires K > 0 && Holds(K, blocks, disk, flat) && b < |blocks| && s < K
    ensures blocks[b] in disk && |disk[blocks[b]]| == K && Off(K, b) + s < |flat|
    ensures disk[blocks[b]][s] == flat[Off(K, b) + s]
    ensures BlockOf(K, Off(K, b) + s) == b && LocOf(K, blocks, Off(K, b) + s) == Loc(blocks[b], s)
  {
    assert Chunk(K, disk[blocks[b]], flat, b);
    BlockOfUnique(K, Off(K, b) + s, b);
  }

  /** Writing the slot of entry i changes just this slot. */
  lemma WriteSlot(K: nat, blocks: seq<nat>, disk: map<nat, seq<Slot>>, flat: seq<Slot>, i: nat, v: Slot)
    requires K > 0 && Holds(K, blocks, disk, flat) && i < |flat|
    ensures BlockOf(K, i) < |blocks|
    ensures
      var l := LocOf(K, blocks, i);
      && l.block in disk && l.slot < |disk[l.block]|
      && Holds(K, blocks, disk[l.block := disk[l.block][l.slot := v]], flat[i := v])
  {
    InBlocks(K, |blocks|, i);
    var b := BlockOf(K, i);
    var s := i - Off(K, b);
    ReadSlot(K, blocks, disk, flat, b, s);
    hide Chunk;
    var disk', flat' := disk[blocks[b] := disk[blocks[b]][s := v]], flat[i := v];
    forall c | 0 <= c < |blocks| ensures blocks[c] in disk' && Chunk(K, disk'[blocks[c]], flat', c) {
      assert Chunk(K, disk[blocks[c]], flat, c);
      ChunkWrite(K, disk[blocks[c]], flat, c, b, s, v);
    }
  }

  lemma ChunkWrite(K: nat, block: seq<Slot>, flat: seq<Slot>, c: nat, b: nat, s: nat, v: Slot)
    requires Chunk(K, block, flat, c) && s < K && Off(K, b) + s < |flat|
    ensures Chunk(K, if c == b then block[s := v] else block, flat[Off(K, b) + s := v], c)
  {
    if c < b { OffMono(K, c, b); } else if c > b { OffMono(K, b, c); }
  }

  /** A new, empty block at the end. */
  lemma AddBlock(K: nat, blocks: seq<nat>, disk: map<nat, seq<Slot>>, flat: seq<Slot>, a: nat)
    requires K > 0 && Holds(K, blocks, disk, flat) && a !in blocks
    ensures Holds(K, blocks + [a], disk[a := seq(K, _ => EndMark)], flat + seq(K, _ => EndMark))
  {
    var blocks', disk', flat' := blocks + [a], disk[a := seq(K, _ => EndMark)], flat + seq(K, _ => EndMark);
    forall c | 0 <= c < |blocks'| ensures blocks'[c] in disk' && Chunk(K, disk'[blocks'[c]], flat', c) {
      if c < |blocks| {
        assert Chunk(K, disk[blocks[c]], flat, c);
        assert blocks'[c] == blocks[c];
      }
    }
  }

  /** The last block given up. */
  lemma DropBlock(K: nat, blocks: seq<nat>, disk: map<nat, seq<Slot>>, flat: seq<Slot>)
    requires K > 0 && Holds(K, blocks, disk, flat) && |blocks| > 0
    ensures Off(K, |blocks| - 1) <= |flat|
    ensures Holds(K, blocks[..|blocks| - 1], disk, flat[..Off(K, |blocks| - 1)])
  {
    var n := |blocks| - 1;
    var flat' := flat[..Off(K, n)];
    forall c | 0 <= c < n ensures blocks[..n][c] in disk && Chunk(K, disk[blocks[..n][c]], flat', c) {
      assert Chunk(K, disk[blocks[c]], flat, c);
      OffMono(K, c, n);
    }
  }

  // ------------------------------------------------------------------
  // Entries
  // ------------------------------------------------------------------

  /** The entry with a given id; |e| when there is none. */
  ghost function Find(e: seq<Slot>, id: Id): (t: nat)
    requires forall t :: 0 <= t < |e| ==> e[t].File?
    ensures t <= |e| && (t < |e| ==> e[t].id == id) && forall u :: 0 <= u < t ==> e[u].id != id
  {
    if e == [] then 0 else if e[0].id == id then 0 else 1 + Find(e[1..], id)
  }

  lemma FindAt(e: seq<Slot>, t: nat)
    requires FilesOk(e) && Unique(e) && t < |e|
    ensures Find(e, e[t].id) == t
  {
    hide EntryOk;
    FilesOnly(e);
    var u := Find(e, e[t].id);
  }

  lemma FindFirst(e: seq<Slot>, id: Id, t: nat)
    requires (forall u :: 0 <= u < |e| ==> e[u].File?) && t < |e| && e[t].id == id && forall u :: 0 <= u < t ==> e[u].id != id
    ensures Find(e, id) == t
  {
    var u := Find(e, id);
  }

  lemma FindNone(e: seq<Slot>, id: Id)
    requires (forall t :: 0 <= t < |e| ==> e[t].File?) && forall t :: 0 <= t < |e| ==> e[t].id != id
    ensures Find(e, id) == |e|
  {
    var u := Find(e, id);
  }

  /** The last entry takes the place of entry t. */
  ghost function Killed(e: seq<Slot>, t: nat): (f: seq<Slot>)
    requires t < |e|
    ensures |f| == |e| - 1 && forall u :: 0 <= u < |f| ==> f[u] == if u == t then e[|e| - 1] else e[u]
  {
    e[t := e[|e| - 1]][..|e| - 1]
  }

  ghost function Renamed(e: seq<Slot>, t: nat, id: Id): seq<Slot>
    requires t < |e| && e[t].File?
  {
    e[t := e[t].(id := id)]
  }

  lemma KilledOk(e: seq<Slot>, t: nat)
    requires FilesOk(e) && t < |e|
    ensures FilesOk(Killed(e, t))
  {
    hide EntryOk, Killed;
  }

  lemma FilesOnly(e: seq<Slot>)
    requires FilesOk(e)
    ensures forall t :: 0 <= t < |e| ==> e[t].File?
  {
  }

  /** Deleting removes exactly one name. */
  lemma KilledNames(e: seq<Slot>, t: nat)
    requires FilesOk(e) && Unique(e) && t < |e|
    ensures FilesOk(Killed(e, t)) && Unique(Killed(e, t)) && Find(Killed(e, t), e[t].id) == |e| - 1
    ensures forall u :: 0 <= u < |e| && u != t ==> Find(Killed(e, t), e[u].id) == if u == |e| - 1 then t else u
  {
    hide EntryOk, Killed;
    KilledOk(e, t);
    FilesOnly(e);
    var f := Killed(e, t);
    FilesOnly(f);
    FindNone(f, e[t].id);
    forall u | 0 <= u < |e| && u != t ensures Find(f, e[u].id) == if u == |e| - 1 then t else u {
      FindAt(f, if u == |e| - 1 then t else u);
    }
  }

  /** A new name keeps the others where they are. */
  lemma AddedNames(e: seq<Slot>, x: Slot)
    requires FilesOk(e) && Unique(e) && EntryOk(x) && Find(e, x.id) == |e|
    ensures FilesOk(e + [x]) && Unique(e + [x])
    ensures forall u :: 0 <= u < |e| ==> Find(e + [x], e[u].id) == u
  {
    hide EntryOk;
    FilesOnly(e);
    var f := e + [x];
    forall u | 0 <= u < |f| ensures EntryOk(f[u]) {
    }
    FilesOnly(f);
    forall u | 0 <= u < |e| ensures Find(f, e[u].id) == u {
      FindAt(f, u);
    }
  }

  lemma RenamedOk(e: seq<Slot>, t: nat, id: Id)
    requires FilesOk(e) && t < |e| && Encode(Decode(id)) == Some(id) && Canonical(Decode(id))
    ensures e[t].File? && FilesOk(Renamed(e, t, id))
  {
    assert EntryOk(e[t]);
  }

  /** Writing a free name into an entry keeps the others where they are. */
  lemma RenamedNames(e: seq<Slot>, t: nat, id: Id)
    requires FilesOk(e) && Unique(e) && t < |e| && Encode(Decode(id)) == Some(id) && Canonical(Decode(id)) && Find(e, id) == |e|
    ensures e[t].File? && FilesOk(Renamed(e, t, id)) && Unique(Renamed(e, t, id))
    ensures Find(Renamed(e, t, id), id) == t && Find(Renamed(e, t, id), e[t].id) == |e|
    ensures forall u :: 0 <= u < |e| && u != t ==> Find(Renamed(e, t, id), e[u].id) == u
  {
    RenamedOk(e, t, id);
    hide EntryOk, FilesOk, Canonical, Encode, Decode;
    FilesOnly(e);
    var f := Renamed(e, t, id);
    FilesOnly(f);
    assert Unique(f);
    FindNone(f, e[t].id);
    FindAt(f, t);
    forall u | 0 <= u < |e| && u != t ensures Find(f, e[u].id) == u {
      FindAt(f, u);
    }
  }

  lemma FlatAppend(e: seq<Slot>, x: Slot, n: nat)
    requires |e| + 2 < n
    ensures Flat(e, n)[|e| + 2 := x] == Flat(e + [x], n)
  {
  }

  lemma FlatGrow(e: seq<Slot>, n: nat, K: nat)
    requires |e| + 2 <= n
    ensures Flat(e, n) + seq(K, _ => EndMark) == Flat(e, n + K)
  {
  }

  lemma FlatKill(e: seq<Slot>, t: nat, n: nat)
    requires |e| + 2 <= n && t < |e|
    ensures Flat(e, n)[t + 2 := e[|e| - 1]][|e| + 1 := EndMark] == Flat(Killed(e, t), n)
    ensures t == |e| - 1 ==> Flat(e, n)[|e| + 1 := EndMark] == Flat(Killed(e, t), n)
  {
    var f := Flat(e, n)[t + 2 := e[|e| - 1]][|e| + 1 := EndMark];
    forall i | 0 <= i < n ensures f[i] == Flat(Killed(e, t), n)[i] {
      if 2 <= i < |e| + 1 { assert Flat(Killed(e, t), n)[(i - 2) + 2] == Killed(e, t)[i - 2]; assert Flat(e, n)[(i - 2) + 2] == e[i - 2]; }
    }
  }

  lemma FlatShrink(e: seq<Slot>, n: nat, m: nat)
    requires |e| + 2 <= m <= n
    ensures Flat(e, n)[..m] == Flat(e, m)
  {
  }

  lemma FlatRename(e: seq<Slot>, t: nat, x: Slot, n: nat)
    requires |e| + 2 <= n && t < |e|
    ensures Flat(e, n)[t + 2 := x] == Flat(e[t := x], n)
  {
  }
}
