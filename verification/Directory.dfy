/**
  The root directory of the file system on disk, with its name cache: looking
  up, creating, deleting, renaming and listing files that are not open.
*/
module Directories {
  import opened Blocks
  import opened Errors
  import opened DirNames
  import opened DirTables
  import opened DirStates
  import opened DirLaws
  import opened DirRuns

  /** The address a lookup gives, none, or an address at which there is no file. */
  datatype Lookup = NotThere | Invalid | There(l: Loc)

  ghost function Address(s: State, hit: Hit): Lookup
    requires Sane(s) && (hit.Entry? ==> hit.t < |s.e|)
  {
    match hit
    case Missing => NotThere
    case Dead => Invalid
    case Entry(t) => There(Place(s.K, s.blocks, t))
  }

  /** Blocks that the directory has given up are empty. */
  ghost predicate Spare(K: nat, dblocks: seq<nat>, disk: map<nat, seq<Slot>>) {
    forall b :: b in disk ==> |disk[b]| == K && (b !in dblocks ==> forall i :: 0 <= i < K ==> disk[b][i] == EndMark)
  }

  /** Cached addresses are addresses of slots. */
  ghost predicate Addressable(K: nat, disk: map<nat, seq<Slot>>, cache: Cache) {
    forall key :: Kept(cache, key) ==> cache[key].value.block in disk && cache[key].value.slot < K
  }

  class Directory {
    /** Entries per block. */
    const K: nat
    /** Directory blocks in order, as the directory pointers list them. */
    var dblocks: seq<nat>
    var disk: map<nat, seq<Slot>>
    /** Blocks of the disk in use. */
    var taken: set<nat>
    var files: nat
    /** Name cache; an entry without address is stale. */
    var cache: Cache
    var cacheMax: nat
    /** The entries of the files. */
    ghost var entries: seq<Slot>

    /** The directory of a mounted disk, nothing cached yet. */
    constructor (K: nat, dblocks: seq<nat>, disk: map<nat, seq<Slot>>, taken: set<nat>, files: nat, ghost entries: seq<Slot>)
      requires Sane(State(K, dblocks, taken, entries, map[], Capacity(|entries|))) && files == |entries|
      requires Holds(K, dblocks, disk, Flat(entries, Off(K, |dblocks|))) && Spare(K, dblocks, disk)
      ensures Valid() && St() == State(K, dblocks, taken, entries, map[], Capacity(|entries|))
    {
      this.K, this.dblocks, this.disk, this.taken, this.files := K, dblocks, disk, taken, files;
      this.cache, this.cacheMax, this.entries := map[], files + 10 + files / 4, entries;
    }

    ghost function St(): State
      reads this
    {
      State(K, dblocks, taken, entries, cache, cacheMax)
    }

    /** The blocks hold the entries. */
    ghost predicate OnDisk()
      reads this
    {
      Sane(St()) && Holds(K, dblocks, disk, Flat(entries, Off(K, |dblocks|))) && files == |entries|
    }

    ghost predicate Valid()
      reads this
    {
      OnDisk() && Spare(K, dblocks, disk) && Addressable(K, disk, cache)
    }

    // ----------------------------------------------------------------
    // The cache
    // ----------------------------------------------------------------

    function MaxCacheEntries(): nat
      reads this
    {
      files + 10 + files / 4
    }

    /** Caches an address unless the name has an entry already; a full cache is emptied first. */
    method CacheFstAddr(addr: Loc, key: string)
      requires files == |entries| && Addressable(K, disk, cache) && addr.block in disk && addr.slot < K
      modifies this`cache, this`cacheMax
      ensures St() == Remember(old(St()), key, addr) && Addressable(K, disk, cache)
    {
      if key !in cache {
        if |cache| == cacheMax - 1 {
          cache := map[];
          cacheMax := MaxCacheEntries();
        }
        cache := cache[key := Some(addr)];
      }
    }

    method UpdateHtabEntry(addr: Loc, key: string)
      modifies this`cache
      ensures cache == if key in old(cache) then old(cache)[key := Some(addr)] else old(cache)
    {
      if key in cache {
        cache := cache[key := Some(addr)];
      }
    }

    method InvalidateHtabEntry(key: string)
      modifies this`cache
      ensures cache == Forget(old(cache), key)
    {
      if key in cache {
        cache := cache[key := None];
      }
    }

    // ----------------------------------------------------------------
    // Looking up
    // ----------------------------------------------------------------

    /** Walks over the slots of one block; none of the blocks before has the entry. */
    method WalkDirBlock(b: nat, id: Id) returns (hit: Option<Loc>)
      requires OnDisk() && b < |dblocks| && NotBefore(entries, id, Off(K, b))
      ensures hit.Some? ==> Find(entries, id) < |entries| && hit.value == Place(K, dblocks, Find(entries, id))
      ensures hit.None? ==> NotBefore(entries, id, Off(K, b + 1))
    {
      hide FilesOk, Holds, Flat, LocOf;
      FilesOnly(entries);
      ghost var flat := Flat(entries, Off(K, |dblocks|));
      var s := 0;
      while s < K
        invariant 0 <= s <= K && NotBefore(entries, id, Off(K, b) + s)
      {
        ReadSlot(K, dblocks, disk, flat, b, s);
        var slot := disk[dblocks[b]][s];
        SlotAt(entries, Off(K, |dblocks|), Off(K, b) + s);
        if slot.File? && slot.id == id {
          FindFirst(entries, id, Off(K, b) + s - 2);
          return Some(Loc(dblocks[b], s));
        }
        if slot.EndMark? {
          break;
        }
        s := s + 1;
      }
      return None;
    }

    /** Walks over all directory blocks for an entry. */
    method WalkLookup(id: Id) returns (hit: Option<Loc>)
      requires OnDisk()
      ensures FilesOk(entries)
      ensures hit == if Find(entries, id) < |entries| then Some(Place(K, dblocks, Find(entries, id))) else None
    {
      hide FilesOk, Holds, Flat, Place;
      FilesOnly(entries);
      var b := 0;
      while b < |dblocks|
        invariant 0 <= b <= |dblocks| && NotBefore(entries, id, Off(K, b))
      {
        hit := WalkDirBlock(b, id);
        if hit.Some? {
          return;
        }
        b := b + 1;
      }
      FindNone(entries, id);
      return None;
    }

    /**
      The address of a file's entry.  A cached address is taken as it is; when
      there is no file at it, the program ends.
    */
    method LookupFile(name: string) returns (found: Lookup)
      requires Valid()
      modifies this`cache, this`cacheMax
      ensures Valid() && St() == AfterLook(old(St()), Key(name))
      ensures Looked(old(St()), Key(name)).Entry? ==> Looked(old(St()), Key(name)).t < |entries|
      ensures found == Address(old(St()), Looked(old(St()), Key(name)))
    {
      hide Sane, Holds, Flat, FilesOk, Place, At;
      SaneParts(St());
      LookKeeps(St(), Key(name));
      var ucName := Key(name);
      if ucName in cache && cache[ucName].Some? {
        var l := cache[ucName].value;
        CachedSlot(l);
        if !disk[l.block][l.slot].File? {
          return Invalid;
        }
        return There(l);
      }
      match Encode(ucName) {
        case None => return NotThere;
        case Some(id) =>
          var addr := WalkLookup(id);
          if addr.None? {
            return NotThere;
          }
          StoredAt(Find(entries, id));
          CacheFstAddr(addr.value, ucName);
          return There(addr.value);
      }
    }

    /** What is at an address: an entry of the directory, or no file. */
    lemma CachedSlot(l: Loc)
      requires Valid() && l.block in disk && l.slot < K
      ensures l.slot < |disk[l.block]| && (disk[l.block][l.slot].File? <==> At(K, dblocks, |entries|, l) < |entries|)
      ensures At(K, dblocks, |entries|, l) < |entries| ==> disk[l.block][l.slot] == entries[At(K, dblocks, |entries|, l)]
    {
      hide FilesOk, Flat, LocOf, At, Holds;
      SaneParts(St());
      var t := At(K, dblocks, |entries|, l);
      if t < |entries| {
        StoredAt(t);
      } else if disk[l.block][l.slot].File? {
        var b :| 0 <= b < |dblocks| && dblocks[b] == l.block;
        ReadSlot(K, dblocks, disk, Flat(entries, Off(K, |dblocks|)), b, l.slot);
        SlotAt(entries, Off(K, |dblocks|), Off(K, b) + l.slot);
        PlaceIs(K, dblocks, b, l.slot);
      }
    }

    lemma StoredAt(t: nat)
      requires OnDisk() && t < |entries|
      ensures
        var l := Place(K, dblocks, t);
        l.block in dblocks && l.block in disk && l.slot < K == |disk[l.block]| && disk[l.block][l.slot] == entries[t]
    {
      hide FilesOk, Holds, Flat;
      FilesOnly(entries);
      InBlocks(K, |dblocks|, t + 2);
      var b := BlockOf(K, t + 2);
      ReadSlot(K, dblocks, disk, Flat(entries, Off(K, |dblocks|)), b, t + 2 - Off(K, b));
      SlotAt(entries, Off(K, |dblocks|), t + 2);
    }

    // ----------------------------------------------------------------
    // Creating
    // ----------------------------------------------------------------

    /** The first free slot, if there is one. */
    method WalkLocateEmpty() returns (hit: Option<Loc>)
      requires OnDisk()
      ensures hit == if |entries| + 2 < Off(K, |dblocks|) then Some(Place(K, dblocks, |entries|)) else None
    {
      hide FilesOk, Holds, Flat, LocOf;
      FilesOnly(entries);
      ghost var flat := Flat(entries, Off(K, |dblocks|));
      var b := 0;
      while b < |dblocks|
        invariant 0 <= b <= |dblocks| && Off(K, b) <= |entries| + 2
      {
        var s := 0;
        while s < K
          invariant 0 <= s <= K && Off(K, b) + s <= |entries| + 2
        {
          ReadSlot(K, dblocks, disk, flat, b, s);
          var slot := disk[dblocks[b]][s];
          SlotAt(entries, Off(K, |dblocks|), Off(K, b) + s);
          if slot.EndMark? {
            return Some(Loc(dblocks[b], s));
          }
          s := s + 1;
        }
        b := b + 1;
      }
      return None;
    }

    /** Appends a new, empty directory block. */
    method NewDirBlock() returns (l: Loc)
      requires Valid() && |entries| + 2 == Off(K, |dblocks|)
      modifies this`dblocks, this`disk, this`taken
      ensures St() == Room(old(St())) && Off(K, |dblocks|) == Off(K, |old(dblocks)|) + K
      ensures Holds(K, dblocks, disk, Flat(entries, Off(K, |dblocks|)))
      ensures Spare(K, dblocks, disk) && Addressable(K, disk, cache) && l == Place(K, dblocks, |entries|)
    {
      hide FilesOk, Flat, Holds;
      var a := LowestFree(1, taken, 1);
      AddBlock(K, dblocks, disk, Flat(entries, Off(K, |dblocks|)), a);
      FlatGrow(entries, Off(K, |dblocks|), K);
      BlockOfUnique(K, |entries| + 2, |dblocks|);
      taken, disk, dblocks := taken + {a}, disk[a := seq(K, _ => EndMark)], dblocks + [a];
      return Loc(a, 0);
    }

    /** Creates a file, unless there is one already. */
    method Create(name: string, body: nat) returns (rc: int)
      requires Valid()
      modifies this
      ensures Valid() && (rc, St()) == CreateOf(old(St()), name, body)
    {
      hide Sane, Holds, Flat, Place, NameValid, Encode, Add;
      LookKeeps(St(), Key(name));
      var found := LookupFile(name);
      if found.Invalid? {
        return DIED;
      }
      if found.There? {
        return 0;
      }
      if !NameValid(name) {
        return EINVAL;
      }
      var ucName := Key(name);
      if Encode(ucName).None? {
        return EINVAL;
      }
      NewEntry(name, body);
      AddEntry(File(Encode(ucName).value, body), ucName);
      return 0;
    }

    /** Puts a new entry in the first free slot and caches its address. */
    method AddEntry(x: Slot, key: string)
      requires Valid() && EntryOk(x)
      modifies this
      ensures Valid() && St() == Add(old(St()), x, key)
    {
      hide EntryOk, FilesOk, Holds, Flat, Place, Sane;
      SaneParts(St());
      AddKeeps(St(), x, key);
      ghost var s := St();
      var l := WalkLocateEmpty();
      if l.None? {
        var a := NewDirBlock();
        l := Some(a);
      }
      assert St() == Room(s);
      WriteNew(l.value, x);
      CacheFstAddr(l.value, key);
      files := files + 1;
      entries := entries + [x];
    }

    /** Writes a new entry behind the others. */
    method WriteNew(l: Loc, x: Slot)
      requires K > 0 && |entries| + 2 < Off(K, |dblocks|) && l == Place(K, dblocks, |entries|)
      requires Holds(K, dblocks, disk, Flat(entries, Off(K, |dblocks|))) && Spare(K, dblocks, disk) && Addressable(K, disk, cache)
      modifies this`disk
      ensures Holds(K, dblocks, disk, Flat(entries + [x], Off(K, |dblocks|)))
      ensures Spare(K, dblocks, disk) && Addressable(K, disk, cache) && l.block in disk && l.slot < K
    {
      hide Flat, Holds, Spare;
      InBlocks(K, |dblocks|, |entries| + 2);
      FlatAppend(entries, x, Off(K, |dblocks|));
      WriteFst(Flat(entries, Off(K, |dblocks|)), |entries| + 2, l, x);
    }

    // ----------------------------------------------------------------
    // Deleting
    // ----------------------------------------------------------------

    /** The last file entry: the last one of the last block. */
    method FindLastEntry() returns (l: Loc)
      requires OnDisk() && |entries| > 0
      ensures l == Place(K, dblocks, |entries| - 1) && (l.slot == 0 <==> Drops(K, dblocks, |entries|))
    {
      hide FilesOk, Holds, Flat, LocOf;
      FilesOnly(entries);
      ghost var flat := Flat(entries, Off(K, |dblocks|));
      var b, left := |dblocks| - 1, K;
      while left > 0
        invariant 0 <= left <= K && |entries| + 2 <= Off(K, b) + left
      {
        left := left - 1;
        ReadSlot(K, dblocks, disk, flat, b, left);
        var slot := disk[dblocks[b]][left];
        SlotAt(entries, Off(K, |dblocks|), Off(K, b) + left);
        if slot.File? {
          return Loc(dblocks[b], left);
        }
      }
      assert false;
    }

    /** Writes one slot of the directory. */
    method WriteFst(ghost flat: seq<Slot>, ghost i: nat, l: Loc, x: Slot)
      requires K > 0 && Holds(K, dblocks, disk, flat) && i < |flat| && BlockOf(K, i) < |dblocks| && l == LocOf(K, dblocks, i)
      requires Spare(K, dblocks, disk)
      modifies this`disk
      ensures Holds(K, dblocks, disk, flat[i := x]) && Spare(K, dblocks, disk) && disk.Keys == old(disk).Keys
      ensures l.block in disk && l.slot < K && disk == old(disk)[l.block := old(disk)[l.block][l.slot := x]]
    {
      hide Holds;
      WriteSlot(K, dblocks, disk, flat, i, x);
      disk := disk[l.block := disk[l.block][l.slot := x]];
    }

    /** Moves the last entry to the place of entry t and clears its old place. */
    method MoveLast(ghost t: nat, kill: Loc, last: Loc)
      requires OnDisk() && Spare(K, dblocks, disk) && Addressable(K, disk, cache)
      requires t < |entries| && kill == Place(K, dblocks, t) && last == Place(K, dblocks, |entries| - 1)
      modifies this`disk, this`cache
      ensures FilesOk(entries) && |entries| + 1 <= Off(K, |dblocks|) && entries[|entries| - 1].File?
      ensures Holds(K, dblocks, disk, Flat(Killed(entries, t), Off(K, |dblocks|)))
      ensures Spare(K, dblocks, disk) && Addressable(K, disk, cache)
      ensures cache == var moved := Decode(entries[|entries| - 1].id);
                       if t < |entries| - 1 && moved in old(cache) then old(cache)[moved := Some(kill)] else old(cache)
    {
      hide FilesOk, Holds, Flat, Killed, Spare, LocOf, Decode;
      SaneParts(St());
      ghost var n, e := Off(K, |dblocks|), entries;
      ghost var flat := Flat(e, n);
      PlaceDistinct(t);
      FlatKill(e, t, n);
      StoredAt(|e| - 1);
      StoredAt(t);
      InBlocks(K, |dblocks|, t + 2);
      InBlocks(K, |dblocks|, |e| + 1);
      if last != kill {
        var fst := disk[last.block][last.slot];
        WriteFst(flat, t + 2, kill, fst);
        UpdateHtabEntry(kill, Decode(fst.id));
        flat := flat[t + 2 := e[|e| - 1]];
      }
      WriteFst(flat, |e| + 1, last, EndMark);
    }

    lemma PlaceDistinct(t: nat)
      requires OnDisk() && t < |entries|
      ensures Place(K, dblocks, t) == Place(K, dblocks, |entries| - 1) <==> t == |entries| - 1
    {
      hide FilesOk, Place, Holds;
      if t != |entries| - 1 { PlaceInjective(K, dblocks, t, |entries| - 1); }
    }

    /** Gives up the last block when its only entry is gone. */
    method DropEmptyBlock(ghost e: seq<Slot>, first: bool)
      requires K >= 3 && |dblocks| >= 1 && Off(K, |dblocks| - 1) <= |e| + 2 < Off(K, |dblocks|)
      requires Holds(K, dblocks, disk, Flat(e, Off(K, |dblocks|))) && Spare(K, dblocks, disk)
      requires first <==> |e| + 2 == Off(K, |dblocks| - 1)
      modifies this`dblocks, this`taken
      ensures dblocks == (if first then old(dblocks)[..|old(dblocks)| - 1] else old(dblocks))
      ensures taken == if first then old(taken) - {old(dblocks)[|old(dblocks)| - 1]} else old(taken)
      ensures |e| + 2 <= Off(K, |dblocks|) && Holds(K, dblocks, disk, Flat(e, Off(K, |dblocks|))) && Spare(K, dblocks, disk)
    {
      hide Flat, Holds;
      if first {
        ghost var n := |dblocks|;
        DropBlock(K, dblocks, disk, Flat(e, Off(K, n)));
        FlatShrink(e, Off(K, n), Off(K, n - 1));
        EmptyLast(e);
        taken := taken - {dblocks[|dblocks| - 1]};
        dblocks := dblocks[..|dblocks| - 1];
      }
    }

    lemma EmptyLast(e: seq<Slot>)
      requires K > 0 && |dblocks| >= 1 && |e| + 2 == Off(K, |dblocks| - 1)
      requires Holds(K, dblocks, disk, Flat(e, Off(K, |dblocks|)))
      ensures
        var b := dblocks[|dblocks| - 1];
        b in disk && |disk[b]| == K && forall i :: 0 <= i < K ==> disk[b][i] == EndMark
    {
      hide Holds, Flat, LocOf;
      var n, flat := |dblocks| - 1, Flat(e, Off(K, |dblocks|));
      ReadSlot(K, dblocks, disk, flat, n, 0);
      forall i | 0 <= i < K ensures disk[dblocks[n]][i] == EndMark {
        ReadSlot(K, dblocks, disk, flat, n, i);
        assert flat[Off(K, n) + i] == EndMark;
      }
    }

    /** Deletes the file at the address that a lookup gives: the last entry takes its place in the directory. */
    method DeleteFile(name: string) returns (rc: int)
      requires Valid()
      modifies this
      ensures Valid() && (rc, St()) == DeleteOf(old(St()), name)
    {
      hide Sane, Holds, Flat, Place, Kill;
      LookKeeps(St(), Key(name));
      ghost var s := St();
      var kill := LookupFile(name);
      match kill {
        case NotThere => return ENOENT;
        case Invalid => return DIED;
        case There(l) =>
          RemoveEntry(Looked(s, Key(name)).t, l, Key(name));
          return 0;
      }
    }

    /** Moves the last entry over entry t, on disk and in the cache; first says that it was the only one of its block. */
    method Displace(ghost t: nat, kill: Loc, key: string) returns (first: bool)
      requires Valid() && t < |entries| && kill == Place(K, dblocks, t)
      modifies this`disk, this`cache
      ensures |entries| + 1 <= Off(K, |dblocks|) && Holds(K, dblocks, disk, Flat(Killed(entries, t), Off(K, |dblocks|)))
      ensures Spare(K, dblocks, disk) && Addressable(K, disk, cache) && (first <==> Drops(K, dblocks, |entries|))
      ensures entries[|entries| - 1].File?
      ensures cache == KillCache(old(cache), key, t < |entries| - 1, Decode(entries[|entries| - 1].id), kill)
    {
      hide FilesOk, Holds, Flat, Killed, Place, Decode, Sane, Spare;
      SaneParts(St());
      var last := FindLastEntry();
      CacheFree(St(), Forget(cache, key), cacheMax);
      InvalidateHtabEntry(key);
      MoveLast(t, kill, last);
      first := last.slot == 0;
    }

    /** Takes entry t out of the directory; key is the name it was reached by. */
    method RemoveEntry(ghost t: nat, kill: Loc, key: string)
      requires Valid() && t < |entries| && kill == Place(K, dblocks, t)
      modifies this
      ensures Valid() && St() == Kill(old(St()), key, t)
    {
      hide FilesOk, Holds, Flat, Killed, Place, Decode, Sane, Spare, KillCache, Addressable;
      SaneParts(St());
      KillKeeps(St(), key, t);
      var first := Displace(t, kill, key);
      DropEmptyBlock(Killed(entries, t), first);
      entries := Killed(entries, t);
      files := files - 1;
    }

    // ----------------------------------------------------------------
    // Renaming
    // ----------------------------------------------------------------

    /** Writes another name into entry t. */
    method WriteName(ghost t: nat, l: Loc, id: Id)
      requires Valid() && t < |entries| && l == Place(K, dblocks, t)
      requires Encode(Decode(id)) == Some(id) && Canonical(Decode(id))
      modifies this`disk, this`entries
      ensures t < |old(entries)| && old(entries)[t].File?
      ensures Valid() && St() == old(St()).(e := Renamed(old(entries), t, id))
    {
      hide FilesOk, Holds, Flat, Canonical, Encode, Decode;
      ghost var e, n := entries, Off(K, |dblocks|);
      FilesOnly(e);
      RenamedOk(e, t, id);
      FlatRename(e, t, e[t].(id := id), n);
      StoredAt(t);
      InBlocks(K, |dblocks|, t + 2);
      var fst := disk[l.block][l.slot];
      WriteFst(Flat(e, n), t + 2, l, fst.(id := id));
      entries := Renamed(entries, t, id);
    }

    /**
      Renames a file.  A file that has the new name is deleted first, even when
      the new name is then refused, and the old name is looked up once more.
    */
    method Rename(oldName: string, newName: string) returns (rc: int)
      requires Valid()
      modifies this
      ensures Valid() && (rc, St()) == RenameOf(old(St()), oldName, newName)
    {
      hide Sane, Holds, Flat, Place, Relabel, DeleteOf, Looked, AfterLook;
      ghost var s := St();
      LookKeeps(s, Key(oldName));
      var addr := LookupFile(oldName);
      ghost var hit, a := Looked(s, Key(oldName)), St();
      if addr.NotThere? {
        MissingSame(s, Key(oldName));
        return ENOENT;
      }
      if addr.Invalid? {
        return DIED;
      }
      LookKeeps(a, Key(newName));
      var target := LookupFile(newName);
      if target.Invalid? {
        DeadSame(a, Key(newName));
        return DIED;
      }
      if target.There? {
        DropKeeps(a, newName);
        var r := DeleteFile(newName);
        LookKeeps(St(), Key(oldName));
        hit := Looked(St(), Key(oldName));
        ghost var b := St();
        addr := LookupFile(oldName);
        if addr.Invalid? {
          DeadSame(b, Key(oldName));
          return DIED;
        }
      } else {
        MissingSame(a, Key(newName));
      }
      rc := ChangeName(oldName, newName, addr, hit);
    }

    /** Checks the new name and gives it to the entry, if that is still there. */
    method ChangeName(oldName: string, newName: string, addr: Lookup, ghost hit: Hit) returns (rc: int)
      requires Valid() && !addr.Invalid? && (hit.Entry? ==> hit.t < |entries|) && addr == Address(St(), hit)
      modifies this`disk, this`cache, this`entries
      ensures Valid() && (rc, St()) == Relabel(old(St()), hit, oldName, newName)
    {
      hide Sane, FilesOk, Holds, Flat, Place, NameValid, Encode, Decode, Canonical, Key, Upper, Spare;
      SaneParts(St());
      RelabelKeeps(St(), hit, oldName, newName);
      if !NameValid(newName) {
        return EINVAL;
      }
      var ucNewName := Upper(newName);
      if Encode(ucNewName).None? {
        return EINVAL;
      }
      NewName(newName);
      if addr.There? {
        WriteName(hit.t, addr.l, Encode(ucNewName).value);
      }
      // without an entry the name is written to disk address 0, outside the directory
      InvalidateHtabEntry(Key(oldName));
      return 0;
    }

    // ----------------------------------------------------------------
    // Listing
    // ----------------------------------------------------------------

    /** Lists the names of all files and caches their addresses. */
    method ReadDir() returns (names: seq<string>)
      requires Valid()
      modifies this`cache, this`cacheMax
      ensures Valid() && FilesOk(entries) && names == NamesOf(entries) && St() == Listing(old(St()), |entries|)
    {
      hide FilesOk, Holds, Flat, Place, Sane, Spare, Addressable;
      ghost var s := St();
      SaneParts(s);
      names := [];
      var b := 0;
      while b < |dblocks|
        invariant 0 <= b <= |dblocks| && Valid() && Listed(names, entries, Off(K, b))
        invariant |names| <= |entries| && St() == Listing(s, |names|)
      {
        names := ListBlock(b, names, s);
        b := b + 1;
      }
      assert names == NamesOf(entries);
    }

    /** Lists the files of one block. */
    method ListBlock(b: nat, before: seq<string>, ghost s: State) returns (names: seq<string>)
      requires Valid() && b < |dblocks| && Listed(before, entries, Off(K, b))
      requires Sane(s) && s.e == entries && |before| <= |entries| && St() == Listing(s, |before|)
      modifies this`cache, this`cacheMax
      ensures Valid() && Listed(names, entries, Off(K, b + 1)) && |names| <= |entries| && St() == Listing(s, |names|)
    {
      hide FilesOk, Holds, Flat, Place, Decode, LocOf, Sane, Spare, Addressable, Listing;
      SaneParts(s);
      ghost var flat := Flat(entries, Off(K, |dblocks|));
      names := before;
      var i := 0;
      while i < K
        invariant 0 <= i <= K && Valid() && Listed(names, entries, Off(K, b) + i)
        invariant |names| <= |entries| && St() == Listing(s, |names|)
      {
        ReadSlot(K, dblocks, disk, flat, b, i);
        var slot := disk[dblocks[b]][i];
        SlotAt(entries, Off(K, |dblocks|), Off(K, b) + i);
        if slot.File? {
          PlaceIs(K, dblocks, b, i);
          names := ListEntry(Loc(dblocks[b], i), slot, names, s);
        }
        if slot.EndMark? {
          break;
        }
        i := i + 1;
      }
    }

    /** Lists the next file. */
    method ListEntry(l: Loc, slot: Slot, before: seq<string>, ghost s: State) returns (names: seq<string>)
      requires Valid() && Sane(s) && s.e == entries && |before| < |entries| && St() == Listing(s, |before|)
      requires slot.File? && slot == entries[|before|] && l == Place(K, dblocks, |before|)
      modifies this`cache, this`cacheMax
      ensures Valid() && names == before + [Decode(slot.id)] && St() == Listing(s, |before| + 1)
    {
      hide FilesOk, Holds, Flat, Place, Decode, Sane, Spare;
      SaneParts(s);
      ListingKeeps(s, |before| + 1);
      StoredAt(|before|);
      CacheFstAddr(l, Decode(slot.id));
      names := before + [Decode(slot.id)];
    }
  }

  lemma CacheFree(s: State, c: Cache, max: nat)
    requires Sane(s) && max >= 2
    ensures Sane(s.(cache := c, max := max))
  {
  }

  lemma MissingSame(s: State, key: string)
    requires Sane(s) && Looked(s, key).Missing?
    ensures AfterLook(s, key) == s
  {
  }

  lemma DeadSame(s: State, key: string)
    requires Sane(s) && Looked(s, key).Dead?
    ensures AfterLook(s, key) == s
  {
  }

  /** The names of the entries before slot i. */
  ghost predicate Listed(names: seq<string>, e: seq<Slot>, i: nat) {
    && (|names| == if i < 2 then 0 else if i < |e| + 2 then i - 2 else |e|)
    && forall t :: 0 <= t < |names| ==> e[t].File? && names[t] == Decode(e[t].id)
  }

  lemma PlaceIs(K: nat, blocks: seq<nat>, b: nat, s: nat)
    requires K > 0 && b < |blocks| && s < K && 2 <= Off(K, b) + s < Off(K, |blocks|)
    ensures Place(K, blocks, Off(K, b) + s - 2) == Loc(blocks[b], s)
  {
    BlockOfUnique(K, Off(K, b) + s, b);
  }

  /** No entry with this id before slot i. */
  ghost predicate NotBefore(e: seq<Slot>, id: Id, i: nat) {
    forall t :: 0 <= t < |e| && t + 2 < i ==> e[t].File? && e[t].id != id
  }

  lemma SlotAt(e: seq<Slot>, n: nat, i: nat)
    requires |e| + 2 <= n && i < n && forall t :: 0 <= t < |e| ==> e[t].File?
    ensures i < 2 ==> !Flat(e, n)[i].File? && !Flat(e, n)[i].EndMark?
    ensures 2 <= i < |e| + 2 ==> Flat(e, n)[i] == e[i - 2]
    ensures Flat(e, n)[i].EndMark? <==> i >= |e| + 2
  {
    if 2 <= i < |e| + 2 { assert Flat(e, n)[(i - 2) + 2] == e[i - 2]; }
  }

  // ------------------------------------------------------------------
  // Runs
  // ------------------------------------------------------------------

  /** One operation of the file system. */
  method OneOp(d: Directory, op: DirOp) returns (reply: Reply)
    requires d.Valid()
    modifies d
    ensures d.Valid() && (reply, d.St()) == Step(old(d.St()), op)
  {
    hide Sane, Holds, Flat, Place, AfterLook, Looked, DeleteOf, RenameOf, CreateOf, Listing;
    ghost var s := d.St();
    SaneParts(s);
    match op {
      case LookUp(name) =>
        LookKeeps(s, Key(name));
        var found := d.LookupFile(name);
        match found {
          case NotThere => reply := Body(None);
          case Invalid => reply := Code(DIED);
          case There(l) =>
            d.StoredAt(Looked(s, Key(name)).t);
            reply := Body(Some(d.disk[l.block][l.slot].body));
        }
      case List =>
        var names := d.ReadDir();
        reply := Names(names);
      case CreateFile(name, body) =>
        var rc := d.Create(name, body);
        reply := Code(rc);
      case Unlink(name) =>
        var rc := d.DeleteFile(name);
        reply := Code(rc);
      case Move(name, newName) =>
        var rc := d.Rename(name, newName);
        reply := Code(rc);
    }
  }

  /**
    A run of operations through any names, up to its end or the end of the
    program.  When the cache is right and no operation does harm, the
    directory replies like a plain list of entries and ends with the same
    entries; names that do not end with blanks never do harm.
  */
  method RunDirectory(d: Directory, ops: seq<DirOp>) returns (replies: seq<Reply>)
    requires d.Valid()
    modifies d
    ensures d.Valid() && (replies, d.St()) == Outcome(old(d.St()), ops)
    ensures old(Right(d.St()) && AllHarmless(d.St(), ops)) ==>
      Right(d.St()) && FilesOk(old(d.entries)) && (replies, d.entries) == PlainRun(old(d.entries), ops)
    ensures old(Right(d.St())) && PlainOps(ops) ==> old(AllHarmless(d.St(), ops))
  {
    hide *;
    ghost var s := d.St();
    ValidSane(d);
    if Right(s) && AllHarmless(s, ops) { RunRight(s, ops); }
    if Right(s) && PlainOps(ops) { PlainRuns(s, ops); }
    replies := RunOps(d, ops);
    ValidSane(d);
  }

  lemma ValidSane(d: Directory)
    requires d.Valid()
    ensures Sane(d.St()) && FilesOk(d.entries) && d.St().e == d.entries
  {
  }

  /** Replies given so far and replies still to come make up the outcome of the run. */
  ghost predicate Underway(s: State, ops: seq<DirOp>, z: State, i: nat, replies: seq<Reply>) {
    && Sane(s) && Sane(z) && i <= |ops|
    && Outcome(s, ops) == (replies + Outcome(z, ops[i..]).0, Outcome(z, ops[i..]).1)
  }

  lemma UnderwayStart(s: State, ops: seq<DirOp>)
    requires Sane(s)
    ensures Underway(s, ops, s, 0, [])
  {
    hide Sane, Step, Outcome;
    assert ops[0..] == ops && [] + Outcome(s, ops).0 == Outcome(s, ops).0;
  }

  lemma UnderwayStep(s: State, ops: seq<DirOp>, z: State, i: nat, replies: seq<Reply>)
    requires i < |ops| && Underway(s, ops, z, i, replies)
    ensures
      var (r, y) := Step(z, ops[i]);
      && (r == Code(DIED) ==> Outcome(s, ops) == (replies + [r], y))
      && (r != Code(DIED) ==> Underway(s, ops, y, i + 1, replies + [r]))
  {
    hide Sane, Step;
    StepKeeps(z, ops[i]);
    assert ops[i..][0] == ops[i] && ops[i..][1..] == ops[i + 1..];
    var (r, y) := Step(z, ops[i]);
    if r != Code(DIED) {
      var rest := Outcome(y, ops[i + 1..]).0;
      assert replies + ([r] + rest) == (replies + [r]) + rest;
    }
  }

  lemma UnderwayDone(s: State, ops: seq<DirOp>, z: State, replies: seq<Reply>)
    requires Underway(s, ops, z, |ops|, replies)
    ensures Outcome(s, ops) == (replies, z)
  {
    hide Sane, Step;
    assert replies + [] == replies;
  }

  method RunOps(d: Directory, ops: seq<DirOp>) returns (replies: seq<Reply>)
    requires d.Valid()
    modifies d
    ensures d.Valid() && Sane(old(d.St())) && (replies, d.St()) == Outcome(old(d.St()), ops)
  {
    hide Sane, Step, Outcome, Underway;
    hide Directory.OnDisk, Directory.Valid;
    ghost var s := d.St();
    ValidSane(d);
    UnderwayStart(s, ops);
    replies := [];
    var i := 0;
    while i < |ops|
      invariant 0 <= i <= |ops| && d.Valid() && Underway(s, ops, d.St(), i, replies)
    {
      ValidSane(d);
      UnderwayStep(s, ops, d.St(), i, replies);
      var reply := OneOp(d, ops[i]);
      replies := replies + [reply];
      if reply == Code(DIED) {
        return;
      }
      i := i + 1;
    }
    UnderwayDone(s, ops, d.St(), replies);
  }
}
