/**
  When the name cache is right, which operations keep it so, and what the
  directory then has in common with a plain list of entries.
*/
module DirLaws {
  import opened Blocks
  import opened Errors
  import opened DirNames
  import opened DirTables
  import opened DirStates

  /** A cached address for the key is the one a scan finds. */
  ghost predicate RightKey(s: State, key: string)
    requires Sane(s)
  {
    Kept(s.cache, key) ==> Scan(s.e, key).Entry? && s.cache[key].value == Place(s.K, s.blocks, Scan(s.e, key).t)
  }

  /** All names are different, and the cache is right for every key that an entry can have as its name. */
  ghost predicate Right(s: State)
    requires Sane(s)
  {
    && Unique(s.e) && (forall key :: key in s.cache ==> Encode(key).Some?)
    && forall key :: Canonical(key) ==> RightKey(s, key)
  }

  /** A lookup agrees with a scan exactly when the address cached for the key, if there is one, is right. */
  lemma LookExactly(s: State, key: string)
    requires Sane(s)
    ensures Looked(s, key) == Scan(s.e, key) <==> RightKey(s, key)
  {
    hide FilesOk, Place, At;
    if Kept(s.cache, key) && Scan(s.e, key).Entry? {
      AtPlace(s, Scan(s.e, key).t);
    }
  }

  /** An entry has one canonical key. */
  lemma ScanCanonical(e: seq<Slot>, key: string)
    requires FilesOk(e) && Canonical(key) && Scan(e, key).Entry?
    ensures e[Scan(e, key).t].File? && key == Decode(e[Scan(e, key).t].id)
  {
    var t := Scan(e, key).t;
    assert EntryOk(e[t]);
    SameEntry(key, Decode(e[t].id));
  }

  lemma OwnKey(e: seq<Slot>, t: nat)
    requires FilesOk(e) && Unique(e) && t < |e|
    ensures e[t].File? && Canonical(Decode(e[t].id)) && Encode(Decode(e[t].id)) == Some(e[t].id)
    ensures Scan(e, Decode(e[t].id)) == Entry(t)
  {
    assert EntryOk(e[t]);
    FindAt(e, t);
  }

  lemma LookRight(s: State, key: string)
    requires Sane(s) && Right(s)
    ensures Sane(AfterLook(s, key)) && Right(AfterLook(s, key))
    ensures AfterLook(s, key).e == s.e && AfterLook(s, key).blocks == s.blocks && AfterLook(s, key).K == s.K
  {
    hide FilesOk, Place, At, Unique;
    LookKeeps(s, key);
    var a := AfterLook(s, key);
    forall k | Canonical(k) ensures RightKey(a, k) {
      assert RightKey(s, k);
    }
  }

  // ------------------------------------------------------------------
  // Deleting
  // ------------------------------------------------------------------

  /** The key is not the entry's own name, and an address is cached under that. */
  ghost predicate Orphans(s: State, key: string, t: nat)
    requires Sane(s) && t < |s.e| && s.e[t].File?
  {
    key != Decode(s.e[t].id) && Kept(s.cache, Decode(s.e[t].id))
  }

  /** What a scan finds once entry t is gone. */
  lemma ScanKilled(s: State, t: nat, key: string)
    requires Sane(s) && Unique(s.e) && t < |s.e| && FilesOk(Killed(s.e, t)) && Canonical(key)
    ensures s.e[t].File? && s.e[|s.e| - 1].File?
    ensures Scan(Killed(s.e, t), key)
         == if key == Decode(s.e[t].id) then Missing
            else if key == Decode(s.e[|s.e| - 1].id) then Entry(t)
            else Scan(s.e, key)
  {
    hide Sane, FilesOk, Encode, Decode, Canonical, Killed, Unique, Find;
    SaneParts(s);
    var e, last := s.e, |s.e| - 1;
    OwnKey(e, t);
    OwnKey(e, last);
    KilledNames(e, t);
    FilesOnly(Killed(e, t));
    if Scan(e, key).Entry? {
      ScanCanonical(e, key);
    } else if Scan(Killed(e, t), key).Entry? {
      ScanCanonical(Killed(e, t), key);
    }
  }

  lemma KilledPlace(s: State, key: string, t: nat, u: nat)
    requires Sane(s) && t < |s.e| && u < |s.e| - 1 && Sane(Kill(s, key, t))
    ensures Place(s.K, Kill(s, key, t).blocks, u) == Place(s.K, s.blocks, u)
  {
    hide FilesOk, Place, Killed, KillCache;
    PlaceStable(s.K, s.blocks, Kill(s, key, t).blocks, u);
  }

  /**
    After entry t was deleted through a key the cache is right if and only if
    the key was the entry's own name, or no address was cached under that.
  */
  lemma KillExactly(s: State, key: string, t: nat)
    requires Sane(s) && Right(s) && t < |s.e|
    ensures s.e[t].File? && Sane(Kill(s, key, t))
    ensures Right(Kill(s, key, t)) <==> !Orphans(s, key, t)
  {
    hide FilesOk, Encode, Canonical, Killed, Place, Kill, Unique, Decode;
    FilesOnly(s.e);
    KillKeeps(s, key, t);
    if Orphans(s, key, t) {
      KillOrphans(s, key, t);
    } else {
      KillParts(s, key, t);
      KilledNames(s.e, t);
      assert Kill(s, key, t).cache.Keys == s.cache.Keys;
      forall k | Canonical(k) ensures RightKey(Kill(s, key, t), k) {
        KillRightKey(s, key, t, k);
      }
    }
  }

  lemma KillParts(s: State, key: string, t: nat)
    requires Sane(s) && t < |s.e|
    ensures s.e[|s.e| - 1].File? && Kill(s, key, t).e == Killed(s.e, t) && Kill(s, key, t).K == s.K
    ensures Kill(s, key, t).cache
         == KillCache(s.cache, key, t < |s.e| - 1, Decode(s.e[|s.e| - 1].id), Place(s.K, s.blocks, t))
  {
    FilesOnly(s.e);
  }

  lemma KillOrphans(s: State, key: string, t: nat)
    requires Sane(s) && Right(s) && t < |s.e| && s.e[t].File? && Orphans(s, key, t) && Sane(Kill(s, key, t))
    ensures !Right(Kill(s, key, t))
  {
    hide FilesOk, Encode, Killed, Place, Kill, Decode, Canonical, Unique;
    var z, own := Kill(s, key, t), Decode(s.e[t].id);
    KillParts(s, key, t);
    OwnKey(s.e, t);
    OwnKey(s.e, |s.e| - 1);
    ScanKilled(s, t, own);
    assert Kept(z.cache, own);
    assert !RightKey(z, own);
  }

  lemma KillRightKey(s: State, key: string, t: nat, k: string)
    requires Sane(s) && Right(s) && t < |s.e| && s.e[t].File? && !Orphans(s, key, t) && Sane(Kill(s, key, t)) && Canonical(k)
    ensures RightKey(Kill(s, key, t), k)
  {
    hide FilesOk, Encode, Killed, Place, Kill, Decode, Canonical, Unique;
    var z, last := Kill(s, key, t), |s.e| - 1;
    KillParts(s, key, t);
    OwnKey(s.e, t);
    OwnKey(s.e, last);
    ScanKilled(s, t, k);
    if Kept(z.cache, k) {
      if t < last && k == Decode(s.e[last].id) {
        KilledPlace(s, key, t, t);
      } else {
        assert Kept(s.cache, k) && z.cache[k] == s.cache[k] && k != key;
        assert RightKey(s, k);
        ScanCanonical(s.e, k);
        KilledPlace(s, key, t, Scan(s.e, k).t);
      }
    }
  }

  // ------------------------------------------------------------------
  // Renaming
  // ------------------------------------------------------------------

  /** Entry t gets another name, and the key it was reached by is made stale. */
  ghost function Label(s: State, key: string, t: nat, id: Id): State
    requires Sane(s) && t < |s.e| && s.e[t].File?
  {
    s.(cache := Forget(s.cache, key), e := Renamed(s.e, t, id))
  }

  /** What a scan finds once entry t has another name that was free. */
  lemma ScanRenamed(e: seq<Slot>, t: nat, id: Id, key: string)
    requires FilesOk(e) && Unique(e) && t < |e| && Encode(Decode(id)) == Some(id) && Canonical(Decode(id)) && Find(e, id) == |e|
    requires e[t].File? && FilesOk(Renamed(e, t, id)) && Canonical(key)
    ensures Scan(Renamed(e, t, id), key)
         == if key == Decode(id) then Entry(t) else if key == Decode(e[t].id) then Missing else Scan(e, key)
  {
    hide FilesOk, Encode, Decode, Canonical, Unique, Find;
    var f := Renamed(e, t, id);
    OwnKey(e, t);
    RenamedNames(e, t, id);
    FilesOnly(e);
    FilesOnly(f);
    if Scan(e, key).Entry? {
      ScanCanonical(e, key);
    } else if Scan(f, key).Entry? {
      ScanCanonical(f, key);
      if Scan(f, key).t != t { OwnKey(e, Scan(f, key).t); }
    }
  }

  /** The same condition as for a deletion decides whether the cache is right after a free name was written. */
  lemma LabelExactly(s: State, key: string, t: nat, id: Id)
    requires Sane(s) && Right(s) && t < |s.e| && s.e[t].File?
    requires Encode(Decode(id)) == Some(id) && Canonical(Decode(id)) && Find(s.e, id) == |s.e|
    ensures Sane(Label(s, key, t, id)) && (Right(Label(s, key, t, id)) <==> !Orphans(s, key, t))
  {
    hide FilesOk, Encode, Decode, Canonical, Place, Unique, Find, RightKey, Label;
    SaneParts(s);
    RenamedNames(s.e, t, id);
    LabelSane(s, key, t, id);
    OwnKey(s.e, t);
    if Orphans(s, key, t) {
      LabelOrphans(s, key, t, id);
    } else {
      assert Label(s, key, t, id).cache.Keys == s.cache.Keys by { LabelKeys(s, key, t, id); }
      forall k | Canonical(k) ensures RightKey(Label(s, key, t, id), k) {
        LabelRightKey(s, key, t, id, k);
      }
    }
  }

  lemma LabelKeys(s: State, key: string, t: nat, id: Id)
    requires Sane(s) && t < |s.e| && s.e[t].File?
    ensures Label(s, key, t, id).cache.Keys == s.cache.Keys
  {
  }

  lemma LabelSane(s: State, key: string, t: nat, id: Id)
    requires Sane(s) && t < |s.e| && s.e[t].File? && FilesOk(Renamed(s.e, t, id))
    ensures Sane(Label(s, key, t, id)) && Label(s, key, t, id).e == Renamed(s.e, t, id)
  {
    hide FilesOk;
  }

  lemma LabelOrphans(s: State, key: string, t: nat, id: Id)
    requires Sane(s) && Right(s) && t < |s.e| && s.e[t].File? && Orphans(s, key, t) && Sane(Label(s, key, t, id))
    requires Encode(Decode(id)) == Some(id) && Canonical(Decode(id)) && Find(s.e, id) == |s.e|
    ensures !RightKey(Label(s, key, t, id), Decode(s.e[t].id))
  {
    hide FilesOk, Decode, Canonical, Place, Unique, Find;
    SaneParts(s);
    OwnKey(s.e, t);
    ScanRenamed(s.e, t, id, Decode(s.e[t].id));
    assert Decode(s.e[t].id) != Decode(id);
  }

  lemma LabelRightKey(s: State, key: string, t: nat, id: Id, k: string)
    requires Sane(s) && Right(s) && t < |s.e| && s.e[t].File? && !Orphans(s, key, t) && Sane(Label(s, key, t, id)) && Canonical(k)
    requires Encode(Decode(id)) == Some(id) && Canonical(Decode(id)) && Find(s.e, id) == |s.e|
    ensures RightKey(Label(s, key, t, id), k)
  {
    hide FilesOk, Decode, Canonical, Place, Unique, Find;
    SaneParts(s);
    OwnKey(s.e, t);
    ScanRenamed(s.e, t, id, k);
    assert RightKey(s, k);
  }

  // ------------------------------------------------------------------
  // A plain list of entries
  // ------------------------------------------------------------------

  /** The list has an entry for the name. */
  ghost predicate Has(e: seq<Slot>, name: string)
    requires FilesOk(e)
  {
    Scan(e, Key(name)).Entry?
  }

  /** The list without the entry for the name. */
  ghost function Without(e: seq<Slot>, name: string): (f: seq<Slot>)
    requires FilesOk(e)
    ensures FilesOk(f)
  {
    if Has(e, name) then
      KilledOk(e, Scan(e, Key(name)).t);
      Killed(e, Scan(e, Key(name)).t)
    else e
  }

  /** What a rename makes of the list: a file with the new name is deleted first, even when the new name is then refused. */
  ghost function Moved(e: seq<Slot>, name: string, newName: string): seq<Slot>
    requires FilesOk(e)
  {
    var w := Without(e, newName);
    FilesOnly(w);
    if !Has(e, name) then e
    else if Accepted(newName) && Has(w, name) then Renamed(w, Scan(w, Key(name)).t, Encode(Upper(newName)).value)
    else w
  }

  /** What an operation makes of the list. */
  ghost function After(e: seq<Slot>, op: DirOp): seq<Slot>
    requires FilesOk(e)
  {
    match op
    case LookUp(_) => e
    case List => e
    case CreateFile(name, body) =>
      if NameValid(name) && Encode(Key(name)).Some? && !Has(e, name) then e + [File(Encode(Key(name)).value, body)] else e
    case Unlink(name) => Without(e, name)
    case Move(name, newName) => Moved(e, name, newName)
  }

  /** What a directory that is just the list replies. */
  ghost function ReplyOf(e: seq<Slot>, op: DirOp): Reply
    requires FilesOk(e)
  {
    match op
    case LookUp(name) => LookReply(e, Scan(e, Key(name)))
    case List => Names(NamesOf(e))
    case CreateFile(name, _) => Code(if Has(e, name) || (NameValid(name) && Encode(Key(name)).Some?) then 0 else EINVAL)
    case Unlink(name) => Code(if Has(e, name) then 0 else ENOENT)
    case Move(name, newName) => Code(if !Has(e, name) then ENOENT else if Accepted(newName) then 0 else EINVAL)
  }

  // ------------------------------------------------------------------
  // Operations that do no harm
  // ------------------------------------------------------------------

  /** A deletion through the name reaches the right entry and leaves no address behind under the entry's own name. */
  ghost predicate SafeUnlink(s: State, name: string)
    requires Sane(s)
  {
    LookKeeps(s, Key(name));
    FilesOnly(s.e);
    && RightKey(s, Key(name))
    && (Has(s.e, name) ==> !Orphans(AfterLook(s, Key(name)), Key(name), Scan(s.e, Key(name)).t))
  }

  /** So does the last part of a rename. */
  ghost predicate SafeLabel(s: State, name: string, newName: string)
    requires Sane(s)
  {
    FilesOnly(s.e);
    Accepted(newName) && Has(s.e, name) ==> !Orphans(s, Key(name), Scan(s.e, Key(name)).t)
  }

  /** The name is found where it is, before and after the deletion of a file that has the new name. */
  ghost predicate SafeMove(s: State, name: string, newName: string)
    requires Sane(s)
  {
    LookKeeps(s, Key(name));
    var a := AfterLook(s, Key(name));
    && RightKey(s, Key(name))
    && (Has(s.e, name) ==>
         if Has(s.e, newName) then
           LookKeeps(a, Key(newName));
           DropKeeps(a, newName);
           var b := DropTarget(a, newName);
           LookKeeps(b, Key(name));
           && SafeUnlink(a, newName) && RightKey(b, Key(name)) && SafeLabel(AfterLook(b, Key(name)), name, newName)
         else RightKey(a, Key(newName)) && SafeLabel(a, name, newName))
  }

  /**
    The operation finds what a scan finds and leaves a right cache.  Only
    operations through names that end with blanks can fail this.
  */
  ghost predicate Harmless(s: State, op: DirOp)
    requires Sane(s)
  {
    match op
    case LookUp(name) => RightKey(s, Key(name))
    case CreateFile(name, _) => RightKey(s, Key(name))
    case Unlink(name) => SafeUnlink(s, name)
    case Move(name, newName) => SafeMove(s, name, newName)
    case List => true
  }

  lemma AddRight(s: State, x: Slot, key: string)
    requires Sane(s) && Right(s) && EntryOk(x) && Decode(x.id) == key && Scan(s.e, key).Missing?
    ensures Sane(Add(s, x, key)) && Right(Add(s, x, key)) && Add(s, x, key).e == s.e + [x]
  {
    hide EntryOk, FilesOk, Place, Unique, Decode, Encode, Canonical, Sane;
    SaneParts(s);
    AddKeeps(s, x, key);
    NameOf(x);
    AddedNames(s.e, x);
    var z := Add(s, x, key);
    SaneParts(z);
    forall k | Canonical(k) ensures RightKey(z, k) {
      AddRightKey(s, x, key, k);
    }
    forall k | k in z.cache ensures Encode(k).Some? {
      assert k == key || k in s.cache;
    }
  }

  lemma NameOf(x: Slot)
    requires EntryOk(x)
    ensures x.File? && Encode(Decode(x.id)) == Some(x.id) && Canonical(Decode(x.id))
  {
  }

  lemma AddRightKey(s: State, x: Slot, key: string, k: string)
    requires Sane(s) && Right(s) && EntryOk(x) && Decode(x.id) == key && Scan(s.e, key).Missing? && Encode(key) == Some(x.id)
    requires Sane(Add(s, x, key)) && Canonical(k)
    ensures RightKey(Add(s, x, key), k)
  {
    hide EntryOk, FilesOk, Place, Unique, Decode, Encode, Canonical, Sane;
    SaneParts(s);
    AddedNames(s.e, x);
    var z := Add(s, x, key);
    SaneParts(z);
    FindAt(z.e, |s.e|);
    if k != key && Kept(z.cache, k) {
      assert Kept(s.cache, k) && z.cache[k] == s.cache[k] && RightKey(s, k);
      PlaceStable(s.K, s.blocks, z.blocks, Scan(s.e, k).t);
    }
  }

  lemma {:induction false} ListingRight(s: State, n: nat)
    requires Sane(s) && Right(s) && n <= |s.e|
    ensures Sane(Listing(s, n)) && Right(Listing(s, n))
  {
    hide FilesOk, Place, Unique, Sane, Decode, Encode, Canonical;
    SaneParts(s);
    ListingKeeps(s, n);
    if n > 0 {
      ListingRight(s, n - 1);
      OwnKey(s.e, n - 1);
      var a, z := Listing(s, n - 1), Listing(s, n);
      forall k | Canonical(k) ensures RightKey(z, k) {
        assert RightKey(a, k);
      }
    }
  }

  /** A deletion finds the right entry and leaves a right cache if and only if it is safe. */
  lemma UnlinkExactly(s: State, name: string)
    requires Sane(s) && Right(s)
    ensures Sane(DeleteOf(s, name).1)
    ensures SafeUnlink(s, name) <==> Looked(s, Key(name)) == Scan(s.e, Key(name)) && Right(DeleteOf(s, name).1)
    ensures SafeUnlink(s, name) ==>
      DeleteOf(s, name).0 == (if Has(s.e, name) then 0 else ENOENT) && DeleteOf(s, name).1.e == Without(s.e, name)
  {
    hide Sane, Right, Kill, FilesOk, Orphans, RightKey, Killed;
    SaneParts(s);
    DeleteKeeps(s, name);
    LookExactly(s, Key(name));
    LookRight(s, Key(name));
    LookKeeps(s, Key(name));
    if Looked(s, Key(name)).Entry? {
      KillExactly(AfterLook(s, Key(name)), Key(name), Looked(s, Key(name)).t);
      KillParts(AfterLook(s, Key(name)), Key(name), Looked(s, Key(name)).t);
    }
  }
}
