/**
  The directory with its name cache as a value: what every operation replies
  and what it makes of the entries, the directory blocks and the cache.  A
  cached address is taken without looking at the name that stands there.
*/
module DirStates {
  import opened Blocks
  import opened Errors
  import opened DirNames
  import opened DirTables

  /** Not an error code: the program ends itself with a message. */
  const DIED := 1

  /** Addresses by key; a key without address is stale. */
  type Cache = map<string, Option<Loc>>

  /** Entries per block, directory blocks, blocks in use, entries, cache and its capacity. */
  datatype State = State(K: nat, blocks: seq<nat>, taken: set<nat>, e: seq<Slot>, cache: Cache, max: nat)

  /** Packed: all blocks are needed for the two special entries and the files. */
  ghost predicate Sane(s: State) {
    && s.K >= 3 && |s.blocks| >= 1 && FilesOk(s.e) && s.max >= 2
    && Off(s.K, |s.blocks| - 1) < |s.e| + 2 <= Off(s.K, |s.blocks|)
    && (forall i, j :: 0 <= i < j < |s.blocks| ==> s.blocks[i] != s.blocks[j])
    && (forall b :: 0 <= b < |s.blocks| ==> s.blocks[b] in s.taken) && 0 in s.taken && 0 !in s.blocks
  }

  lemma SaneParts(s: State)
    requires Sane(s)
    ensures s.K >= 3 && |s.blocks| >= 1 && FilesOk(s.e) && s.max >= 2
    ensures Off(s.K, |s.blocks| - 1) < |s.e| + 2 <= Off(s.K, |s.blocks|)
    ensures forall t :: 0 <= t < |s.e| ==> s.e[t].File?
  {
    FilesOnly(s.e);
  }

  // ------------------------------------------------------------------
  // Places
  // ------------------------------------------------------------------

  /** The place of an entry. */
  ghost function Place(K: nat, blocks: seq<nat>, t: nat): Loc
    requires K > 0 && t + 2 < Off(K, |blocks|)
  {
    InBlocks(K, |blocks|, t + 2);
    LocOf(K, blocks, t + 2)
  }

  /** Which of the first n entries is at a place; n when none is. */
  ghost function At(K: nat, blocks: seq<nat>, n: nat, l: Loc): (t: nat)
    requires K > 0 && n + 2 <= Off(K, |blocks|)
    ensures t <= n && (t < n ==> Place(K, blocks, t) == l) && forall u :: 0 <= u < t ==> Place(K, blocks, u) != l
  {
    if n == 0 then 0 else
      var t := At(K, blocks, n - 1, l);
      if t < n - 1 || Place(K, blocks, n - 1) == l then t else n
  }

  /** The place of an entry does not depend on blocks behind it. */
  lemma PlaceStable(K: nat, blocks: seq<nat>, blocks': seq<nat>, t: nat)
    requires K > 0 && t + 2 < Off(K, |blocks|) && t + 2 < Off(K, |blocks'|) && (blocks <= blocks' || blocks' <= blocks)
    ensures Place(K, blocks, t) == Place(K, blocks', t)
  {
    InBlocks(K, |blocks|, t + 2);
    InBlocks(K, |blocks'|, t + 2);
  }

  /** Two entries have different places. */
  lemma PlaceInjective(K: nat, blocks: seq<nat>, t: nat, u: nat)
    requires K > 0 && t + 2 < Off(K, |blocks|) && u + 2 < Off(K, |blocks|) && t != u
    requires forall i, j :: 0 <= i < j < |blocks| ==> blocks[i] != blocks[j]
    ensures Place(K, blocks, t) != Place(K, blocks, u)
  {
    InBlocks(K, |blocks|, t + 2);
    InBlocks(K, |blocks|, u + 2);
  }

  lemma AtPlace(s: State, t: nat)
    requires Sane(s) && t < |s.e|
    ensures At(s.K, s.blocks, |s.e|, Place(s.K, s.blocks, t)) == t
  {
    hide Place, At, FilesOk;
    var u := At(s.K, s.blocks, |s.e|, Place(s.K, s.blocks, t));
    if u != t { PlaceInjective(s.K, s.blocks, t, u); }
  }

  // ------------------------------------------------------------------
  // Looking up
  // ------------------------------------------------------------------

  /** What a lookup comes to: nothing, an address where no file is, or an entry. */
  datatype Hit = Missing | Dead | Entry(t: nat)

  /** An address is cached for the key. */
  predicate Kept(c: Cache, key: string) {
    key in c && c[key].Some?
  }

  /** What scanning the whole directory finds. */
  ghost function Scan(e: seq<Slot>, key: string): Hit
    requires FilesOk(e)
  {
    if Encode(key).None? then Missing else
      var t := Find(e, Encode(key).value);
      if t < |e| then Entry(t) else Missing
  }

  /** What a lookup finds. */
  ghost function Looked(s: State, key: string): Hit
    requires Sane(s)
  {
    if Kept(s.cache, key) then
      var t := At(s.K, s.blocks, |s.e|, s.cache[key].value);
      if t < |s.e| then Entry(t) else Dead
    else Scan(s.e, key)
  }

  function Capacity(files: nat): nat {
    files + 10 + files / 4
  }

  /** Caches an address unless the key is known, even as stale; a full cache is emptied first. */
  ghost function Remember(s: State, key: string, l: Loc): State {
    if key in s.cache then s
    else if |s.cache| == s.max - 1 then s.(cache := map[key := Some(l)], max := Capacity(|s.e|))
    else s.(cache := s.cache[key := Some(l)])
  }

  ghost function AfterLook(s: State, key: string): State
    requires Sane(s)
  {
    if Kept(s.cache, key) || Scan(s.e, key).Missing? then s
    else Remember(s, key, Place(s.K, s.blocks, Scan(s.e, key).t))
  }

  // ------------------------------------------------------------------
  // Changing
  // ------------------------------------------------------------------

  ghost function Forget(c: Cache, key: string): Cache {
    if key in c then c[key := None] else c
  }

  /** The deletion key made stale, and the name of the moved entry given its new address. */
  ghost function KillCache(c: Cache, key: string, moves: bool, moved: string, at: Loc): Cache {
    var d := Forget(c, key);
    if moves && moved in d then d[moved := Some(at)] else d
  }

  /** The only entry of the last block is the last one. */
  predicate Drops(K: nat, blocks: seq<nat>, n: nat)
    requires |blocks| >= 1
  {
    n + 1 == Off(K, |blocks| - 1)
  }

  /** Entry t deleted through a key: the last entry takes its place. */
  ghost function Kill(s: State, key: string, t: nat): State
    requires Sane(s) && t < |s.e|
  {
    FilesOnly(s.e);
    var last, n := |s.e| - 1, |s.blocks| - 1;
    var drops := Drops(s.K, s.blocks, |s.e|);
    s.(e := Killed(s.e, t),
       blocks := if drops then s.blocks[..n] else s.blocks,
       taken := if drops then s.taken - {s.blocks[n]} else s.taken,
       cache := KillCache(s.cache, key, t < last, Decode(s.e[last].id), Place(s.K, s.blocks, t)))
  }

  ghost function DeleteOf(s: State, name: string): (int, State)
    requires Sane(s)
  {
    match Looked(s, Key(name))
    case Missing => (ENOENT, s)
    case Dead => (DIED, s)
    case Entry(t) => LookKeeps(s, Key(name)); (0, Kill(AfterLook(s, Key(name)), Key(name), t))
  }

  /** Room for one more entry, in a new block if need be. */
  ghost function Room(s: State): State
    requires Sane(s)
  {
    if |s.e| + 2 < Off(s.K, |s.blocks|) then s else
      var a := LowestFree(1, s.taken, 1);
      s.(blocks := s.blocks + [a], taken := s.taken + {a})
  }

  ghost function Add(s: State, x: Slot, key: string): State
    requires Sane(s)
  {
    var r := Room(s);
    Remember(r, key, Place(s.K, r.blocks, |s.e|)).(e := s.e + [x])
  }

  ghost function CreateOf(s: State, name: string, body: nat): (int, State)
    requires Sane(s)
  {
    match Looked(s, Key(name))
    case Dead => (DIED, s)
    case Entry(_) => (0, AfterLook(s, Key(name)))
    case Missing =>
      if !NameValid(name) || Encode(Key(name)).None? then (EINVAL, s)
      else (0, Add(s, File(Encode(Key(name)).value, body), Key(name)))
  }

  /** The name is accepted and fits an entry. */
  predicate Accepted(name: string) {
    NameValid(name) && Encode(Upper(name)).Some?
  }

  /** The last part of a rename; without an entry the name is written outside the directory. */
  ghost function Relabel(s: State, hit: Hit, oldName: string, newName: string): (int, State)
    requires Sane(s) && (hit.Entry? ==> hit.t < |s.e|)
  {
    FilesOnly(s.e);
    if !Accepted(newName) then (EINVAL, s) else
      (0, s.(cache := Forget(s.cache, Key(oldName)),
             e := if hit.Entry? then Renamed(s.e, hit.t, Encode(Upper(newName)).value) else s.e))
  }

  /** After the deletion of the file that has the new name, the old one is looked up again. */
  ghost function DropTarget(s: State, newName: string): State
    requires Sane(s)
  {
    LookKeeps(s, Key(newName));
    DeleteOf(AfterLook(s, Key(newName)), newName).1
  }

  ghost function RenameOf(s: State, oldName: string, newName: string): (int, State)
    requires Sane(s)
  {
    var hit, a := Looked(s, Key(oldName)), AfterLook(s, Key(oldName));
    LookKeeps(s, Key(oldName));
    if hit.Missing? then (ENOENT, s)
    else if hit.Dead? || Looked(a, Key(newName)).Dead? then (DIED, a)
    else if Looked(a, Key(newName)).Missing? then Relabel(a, hit, oldName, newName)
    else
      var b := DropTarget(a, newName);
      DropKeeps(a, newName);
      LookKeeps(b, Key(oldName));
      if Looked(b, Key(oldName)).Dead? then (DIED, b)
      else Relabel(AfterLook(b, Key(oldName)), Looked(b, Key(oldName)), oldName, newName)
  }

  /** A listing caches the entries one after the other. */
  ghost function Listing(s: State, n: nat): (l: State)
    requires Sane(s) && n <= |s.e|
    ensures l == s.(cache := l.cache, max := l.max)
  {
    FilesOnly(s.e);
    if n == 0 then s else Remember(Listing(s, n - 1), Decode(s.e[n - 1].id), Place(s.K, s.blocks, n - 1))
  }

  // ------------------------------------------------------------------
  // Every operation keeps the directory packed
  // ------------------------------------------------------------------

  lemma LookKeeps(s: State, key: string)
    requires Sane(s)
    ensures Sane(AfterLook(s, key)) && AfterLook(s, key) == s.(cache := AfterLook(s, key).cache, max := AfterLook(s, key).max)
    ensures Looked(s, key).Entry? ==> Looked(s, key).t < |s.e|
    ensures Looked(AfterLook(s, key), key) == Looked(s, key) && AfterLook(AfterLook(s, key), key) == AfterLook(s, key)
  {
    hide FilesOk, Place, At;
    var a := AfterLook(s, key);
    if a != s { AtPlace(s, Scan(s.e, key).t); }
  }

  lemma KillKeeps(s: State, key: string, t: nat)
    requires Sane(s) && t < |s.e|
    ensures Sane(Kill(s, key, t))
  {
    hide FilesOk, Killed, Place, Decode;
    KilledOk(s.e, t);
    FilesOnly(s.e);
    if |s.blocks| >= 2 { OffMono(s.K, 1, |s.blocks| - 1); }
  }

  lemma DeleteKeeps(s: State, name: string)
    requires Sane(s)
    ensures Sane(DeleteOf(s, name).1)
  {
    hide Sane;
    LookKeeps(s, Key(name));
    if Looked(s, Key(name)).Entry? { KillKeeps(AfterLook(s, Key(name)), Key(name), Looked(s, Key(name)).t); }
  }

  lemma DropKeeps(s: State, newName: string)
    requires Sane(s)
    ensures Sane(DropTarget(s, newName))
  {
    LookKeeps(s, Key(newName));
    DeleteKeeps(AfterLook(s, Key(newName)), newName);
  }

  lemma AddKeeps(s: State, x: Slot, key: string)
    requires Sane(s) && EntryOk(x)
    ensures Sane(Add(s, x, key))
  {
    hide EntryOk, Place, LocOf;
    var a := LowestFree(1, s.taken, 1);
    var f := s.e + [x];
    forall t | 0 <= t < |f| ensures EntryOk(f[t]) {
    }
  }

  lemma CreateKeeps(s: State, name: string, body: nat)
    requires Sane(s)
    ensures Sane(CreateOf(s, name, body).1)
  {
    hide Sane, Add;
    LookKeeps(s, Key(name));
    if NameValid(name) && Encode(Key(name)).Some? {
      NewEntry(name, body);
      AddKeeps(s, File(Encode(Key(name)).value, body), Key(name));
    }
  }

  lemma RelabelKeeps(s: State, hit: Hit, oldName: string, newName: string)
    requires Sane(s) && (hit.Entry? ==> hit.t < |s.e|)
    ensures Sane(Relabel(s, hit, oldName, newName).1)
  {
    hide FilesOk, Encode, Decode, Canonical, NameValid, Upper, Key, Forget;
    FilesOnly(s.e);
    if Accepted(newName) && hit.Entry? {
      NewName(newName);
      RenamedOk(s.e, hit.t, Encode(Upper(newName)).value);
    }
  }

  lemma RenameKeeps(s: State, oldName: string, newName: string)
    requires Sane(s)
    ensures Sane(RenameOf(s, oldName, newName).1)
  {
    hide Sane, Relabel, DropTarget, Looked, AfterLook;
    var hit, a := Looked(s, Key(oldName)), AfterLook(s, Key(oldName));
    LookKeeps(s, Key(oldName));
    if !hit.Entry? || Looked(a, Key(newName)).Dead? {
    } else if Looked(a, Key(newName)).Missing? {
      RelabelKeeps(a, hit, oldName, newName);
    } else {
      var b := DropTarget(a, newName);
      DropKeeps(a, newName);
      LookKeeps(b, Key(oldName));
      RelabelKeeps(AfterLook(b, Key(oldName)), Looked(b, Key(oldName)), oldName, newName);
    }
  }

  lemma {:induction false} ListingKeeps(s: State, n: nat)
    requires Sane(s) && n <= |s.e|
    ensures Sane(Listing(s, n))
  {
    hide FilesOk, Place;
    if n > 0 { ListingKeeps(s, n - 1); }
  }

  // ------------------------------------------------------------------
  // Names of new entries
  // ------------------------------------------------------------------

  /** An accepted name that fits an entry is not cut. */
  lemma NewName(name: string)
    requires Accepted(name)
    ensures Key(name) == Upper(name) && Encode(Decode(Encode(Upper(name)).value)) == Encode(Upper(name))
    ensures Canonical(Decode(Encode(Upper(name)).value)) && Decode(Encode(Upper(name)).value) == Key(name)
  {
    ValidCanonical(name);
    DecodeEncode(Key(name));
  }

  lemma NewEntry(name: string, body: nat)
    requires NameValid(name) && Encode(Key(name)).Some?
    ensures EntryOk(File(Encode(Key(name)).value, body)) && Decode(Encode(Key(name)).value) == Key(name) && Canonical(Key(name))
  {
    ValidCanonical(name);
    DecodeEncode(Key(name));
  }

  // ------------------------------------------------------------------
  // Runs
  // ------------------------------------------------------------------

  datatype DirOp =
    | LookUp(name: string)
    | CreateFile(name: string, body: nat)
    | Unlink(name: string)
    | Move(name: string, newName: string)
    | List

  /** What the user of the directory gets to know: a return code, a file or a list of names. */
  datatype Reply = Code(rc: int) | Body(body: Option<nat>) | Names(names: seq<string>)

  /** The names in a directory. */
  ghost function NamesOf(e: seq<Slot>): (n: seq<string>)
    requires FilesOk(e)
    ensures |n| == |e| && forall t :: 0 <= t < |e| ==> n[t] == Decode(e[t].id)
  {
    seq(|e|, t requires 0 <= t < |e| => Decode(e[t].id))
  }

  ghost function LookReply(e: seq<Slot>, hit: Hit): Reply
    requires FilesOk(e) && (hit.Entry? ==> hit.t < |e|)
  {
    match hit
    case Missing => Body(None)
    case Dead => Code(DIED)
    case Entry(t) => Body(Some(e[t].body))
  }

  /** One operation: the reply and the state behind it. */
  ghost function Step(s: State, op: DirOp): (Reply, State)
    requires Sane(s)
  {
    match op
    case LookUp(name) => LookKeeps(s, Key(name)); (LookReply(s.e, Looked(s, Key(name))), AfterLook(s, Key(name)))
    case CreateFile(name, body) => var (rc, z) := CreateOf(s, name, body); (Code(rc), z)
    case Unlink(name) => var (rc, z) := DeleteOf(s, name); (Code(rc), z)
    case Move(name, newName) => var (rc, z) := RenameOf(s, name, newName); (Code(rc), z)
    case List => (Names(NamesOf(s.e)), Listing(s, |s.e|))
  }

  lemma StepKeeps(s: State, op: DirOp)
    requires Sane(s)
    ensures Sane(Step(s, op).1)
  {
    hide Sane, AfterLook, CreateOf, DeleteOf, RenameOf, Listing, Looked;
    match op
    case LookUp(name) => LookKeeps(s, Key(name));
    case CreateFile(name, body) => CreateKeeps(s, name, body);
    case Unlink(name) => DeleteKeeps(s, name);
    case Move(name, newName) => RenameKeeps(s, name, newName);
    case List => ListingKeeps(s, |s.e|);
  }

  /** A run: the replies and the state behind it; it ends when the program does. */
  ghost function Outcome(s: State, ops: seq<DirOp>): (seq<Reply>, State)
    requires Sane(s)
    decreases |ops|
  {
    if ops == [] then ([], s) else
      var (r, z) := Step(s, ops[0]);
      StepKeeps(s, ops[0]);
      if r == Code(DIED) then ([r], z) else
        var (rs, end) := Outcome(z, ops[1..]);
        ([r] + rs, end)
  }
}
