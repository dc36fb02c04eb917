/**
  Runs of the directory with its cache against runs of a plain list of
  entries, and the names with which the two part.
*/
module DirRuns {
  import opened Blocks
  import opened Errors
  import opened DirNames
  import opened DirTables
  import opened DirStates
  import opened DirLaws

  // ------------------------------------------------------------------
  // One operation
  // ------------------------------------------------------------------

  lemma DropIs(s: State, name: string)
    requires Sane(s) && Looked(s, Key(name)).Entry?
    ensures DropTarget(s, name) == DeleteOf(s, name).1
  {
    hide Sane, Looked, AfterLook, Kill;
    LookKeeps(s, Key(name));
  }

  /** Once a name is gone from the list, no entry has it. */
  lemma WithoutName(e: seq<Slot>, name: string)
    requires FilesOk(e) && Unique(e)
    ensures Unique(Without(e, name)) && !Has(Without(e, name), name)
  {
    hide FilesOk, Killed;
    FilesOnly(e);
    if Has(e, name) { KilledNames(e, Scan(e, Key(name)).t); }
  }

  lemma RelabelExactly(s: State, name: string, newName: string)
    requires Sane(s) && Right(s) && !Has(s.e, newName)
    ensures Scan(s.e, Key(name)).Entry? ==> Scan(s.e, Key(name)).t < |s.e|
    ensures
      var r := Relabel(s, Scan(s.e, Key(name)), name, newName);
      && Sane(r.1) && (Right(r.1) <==> SafeLabel(s, name, newName)) && r.0 == (if Accepted(newName) then 0 else EINVAL)
      && (forall t :: 0 <= t < |s.e| ==> s.e[t].File?)
      && r.1.e == if Accepted(newName) && Has(s.e, name)
                  then Renamed(s.e, Scan(s.e, Key(name)).t, Encode(Upper(newName)).value) else s.e
  {
    hide Sane, FilesOk, Right, NameValid, Key, Encode, Decode, Canonical, Orphans;
    SaneParts(s);
    RelabelKeeps(s, Scan(s.e, Key(name)), name, newName);
    if Accepted(newName) {
      NewName(newName);
      if Has(s.e, name) {
        LabelExactly(s, Key(name), Scan(s.e, Key(name)).t, Encode(Upper(newName)).value);
      } else {
        ForgetRight(s, Key(name));
      }
    }
  }

  lemma ForgetRight(s: State, key: string)
    requires Sane(s) && Right(s)
    ensures Sane(s.(cache := Forget(s.cache, key))) && Right(s.(cache := Forget(s.cache, key)))
  {
    hide FilesOk, Unique, Place, Encode, Canonical;
    var z := s.(cache := Forget(s.cache, key));
    forall k | Canonical(k) ensures RightKey(z, k) {
      assert RightKey(s, k);
    }
  }

  /** The lookups on the way of a rename find what a scan finds, and the cache is right after each change. */
  ghost predicate Faithful(s: State, name: string, newName: string)
    requires Sane(s)
  {
    LookKeeps(s, Key(name));
    RenameKeeps(s, name, newName);
    var a, z := AfterLook(s, Key(name)), RenameOf(s, name, newName).1;
    && Looked(s, Key(name)) == Scan(s.e, Key(name))
    && (Has(s.e, name) ==>
         && Looked(a, Key(newName)) == Scan(a.e, Key(newName)) && Right(z)
         && (Has(s.e, newName) ==>
              var b := (DropKeeps(a, newName); DropTarget(a, newName));
              Right(b) && Looked(b, Key(name)) == Scan(b.e, Key(name))))
  }

  /** A rename is faithful if and only if it is safe; then it does what it does to a plain list. */
  lemma MoveExactly(s: State, name: string, newName: string)
    requires Sane(s) && Right(s)
    ensures SafeMove(s, name, newName) <==> Faithful(s, name, newName)
    ensures SafeMove(s, name, newName) ==>
      && Sane(RenameOf(s, name, newName).1) && Right(RenameOf(s, name, newName).1)
      && Code(RenameOf(s, name, newName).0) == ReplyOf(s.e, Move(name, newName))
      && RenameOf(s, name, newName).1.e == Moved(s.e, name, newName)
  {
    hide Sane, Right, FilesOk, Accepted, Key, RightKey, Relabel, SafeUnlink, SafeLabel, Looked, AfterLook, DropTarget, Without;
    SaneParts(s);
    RenameKeeps(s, name, newName);
    LookExactly(s, Key(name));
    if Looked(s, Key(name)) == Scan(s.e, Key(name)) && Has(s.e, name) {
      LookRight(s, Key(name));
      var a := AfterLook(s, Key(name));
      LookExactly(a, Key(newName));
      if Has(s.e, newName) {
        DropKeeps(a, newName);
        LookKeeps(DropTarget(a, newName), Key(name));
        MoveOver(a, name, newName);
      } else {
        RelabelExactly(a, name, newName);
        assert Without(s.e, newName) == s.e by { WithoutNone(s.e, newName); }
      }
    }
  }

  lemma WithoutNone(e: seq<Slot>, name: string)
    requires FilesOk(e) && !Has(e, name)
    ensures Without(e, name) == e
  {
  }

  /** The way of a rename over a file that has the new name. */
  lemma MoveOver(a: State, name: string, newName: string)
    requires Sane(a) && Right(a) && Has(a.e, newName) && Sane(DropTarget(a, newName))
    ensures
      var b := DropTarget(a, newName);
      SafeUnlink(a, newName) <==> Looked(a, Key(newName)) == Scan(a.e, Key(newName)) && Right(b)
    ensures SafeUnlink(a, newName) ==>
      var b := DropTarget(a, newName);
      && b.e == Without(a.e, newName) && (Looked(b, Key(name)) == Scan(b.e, Key(name)) <==> RightKey(b, Key(name)))
      && (Scan(b.e, Key(name)).Entry? ==> Scan(b.e, Key(name)).t < |b.e|)
      && Sane(AfterLook(b, Key(name))) && AfterLook(b, Key(name)).e == b.e
      && var r := Relabel(AfterLook(b, Key(name)), Scan(b.e, Key(name)), name, newName);
         && Sane(r.1) && (Right(r.1) <==> SafeLabel(AfterLook(b, Key(name)), name, newName))
         && r.0 == (if Accepted(newName) then 0 else EINVAL)
         && (forall t :: 0 <= t < |b.e| ==> b.e[t].File?)
         && r.1.e == if Accepted(newName) && Has(b.e, name)
                     then Renamed(b.e, Scan(b.e, Key(name)).t, Encode(Upper(newName)).value) else b.e
  {
    hide Sane, Right, FilesOk, Accepted, Key, RightKey, Relabel, SafeUnlink, SafeLabel, Looked, AfterLook, Kill, Without, DropTarget, DeleteOf;
    SaneParts(a);
    UnlinkExactly(a, newName);
    LookExactly(a, Key(newName));
    if Looked(a, Key(newName)) == Scan(a.e, Key(newName)) {
      DropIs(a, newName);
      if SafeUnlink(a, newName) {
        var b := DropTarget(a, newName);
        RightUnique(a);
        WithoutName(a.e, newName);
        LookExactly(b, Key(name));
        LookRight(b, Key(name));
        RelabelExactly(AfterLook(b, Key(name)), name, newName);
      }
    }
  }

  lemma RightUnique(s: State)
    requires Sane(s) && Right(s)
    ensures FilesOk(s.e) && Unique(s.e)
  {
  }

  /** A harmless operation replies and changes the entries like on a plain list, and leaves a right cache. */
  lemma StepRight(s: State, op: DirOp)
    requires Sane(s) && Right(s) && Harmless(s, op)
    ensures Sane(Step(s, op).1) && Right(Step(s, op).1)
    ensures Step(s, op).0 == ReplyOf(s.e, op) && Step(s, op).1.e == After(s.e, op)
  {
    hide Sane, Right, FilesOk, Key, RightKey, SafeUnlink, SafeMove, AfterLook, Looked, DeleteOf, RenameOf, Listing, Moved, Without, Add;
    SaneParts(s);
    match op
    case LookUp(name) =>
      LookExactly(s, Key(name));
      LookRight(s, Key(name));
    case CreateFile(name, body) =>
      LookExactly(s, Key(name));
      LookRight(s, Key(name));
      if Scan(s.e, Key(name)).Missing? && NameValid(name) && Encode(Key(name)).Some? {
        NewEntry(name, body);
        AddRight(s, File(Encode(Key(name)).value, body), Key(name));
      }
    case Unlink(name) => UnlinkExactly(s, name);
    case Move(name, newName) => MoveExactly(s, name, newName);
    case List => ListingRight(s, |s.e|);
  }

  // ------------------------------------------------------------------
  // Names that do no harm
  // ------------------------------------------------------------------

  /** A name that is looked up under an entry's own key, or can be no entry's name. */
  ghost predicate Plain(name: string) {
    Encode(Key(name)).Some? ==> Canonical(Key(name))
  }

  lemma PlainKey(s: State, name: string)
    requires Sane(s) && Right(s) && Plain(name)
    ensures RightKey(s, Key(name))
    ensures Has(s.e, name) ==>
      && Scan(s.e, Key(name)).t < |s.e| && s.e[Scan(s.e, Key(name)).t].File?
      && Key(name) == Decode(s.e[Scan(s.e, Key(name)).t].id)
  {
    hide FilesOk, Place, Decode, Canonical;
    SaneParts(s);
    if Has(s.e, name) { ScanCanonical(s.e, Key(name)); }
  }

  lemma PlainUnlink(s: State, name: string)
    requires Sane(s) && Right(s) && Plain(name)
    ensures SafeUnlink(s, name)
  {
    hide Sane, Right, FilesOk, Key, RightKey, AfterLook, Plain, Decode;
    LookKeeps(s, Key(name));
    PlainKey(s, name);
  }

  /** Operations through names that do not end with blanks are always harmless. */
  lemma PlainHarmless(s: State, op: DirOp)
    requires Sane(s) && Right(s) && (!op.List? ==> Plain(op.name)) && (op.Move? ==> Plain(op.newName))
    ensures Harmless(s, op)
  {
    hide Sane, Right, FilesOk, Key, RightKey, AfterLook, Plain, Decode, SafeUnlink, SafeLabel, DropTarget, Accepted;
    SaneParts(s);
    match op
    case LookUp(name) => PlainKey(s, name);
    case CreateFile(name, body) => PlainKey(s, name);
    case Unlink(name) => PlainUnlink(s, name);
    case List =>
    case Move(name, newName) =>
      PlainKey(s, name);
      LookRight(s, Key(name));
      var a := AfterLook(s, Key(name));
      PlainKey(a, newName);
      if Has(s.e, newName) {
        PlainUnlink(a, newName);
        LookExactly(a, Key(newName));
        UnlinkExactly(a, newName);
        DropIs(a, newName);
        var b := DropTarget(a, newName);
        PlainKey(b, name);
        LookRight(b, Key(name));
        PlainLabel(AfterLook(b, Key(name)), name, newName);
      } else {
        PlainLabel(a, name, newName);
      }
  }

  lemma PlainLabel(s: State, name: string, newName: string)
    requires Sane(s) && Right(s) && Plain(name)
    ensures SafeLabel(s, name, newName)
  {
    hide Sane, Right, FilesOk, Key, RightKey, Plain, Decode, Accepted;
    PlainKey(s, name);
  }

  // ------------------------------------------------------------------
  // Runs
  // ------------------------------------------------------------------

  lemma AfterOk(e: seq<Slot>, op: DirOp)
    requires FilesOk(e)
    ensures FilesOk(After(e, op))
  {
    hide EntryOk, Encode, Decode, Canonical, NameValid, Key, Killed;
    match op
    case LookUp(_) =>
    case List =>
    case Unlink(_) =>
    case CreateFile(name, body) =>
      if NameValid(name) && Encode(Key(name)).Some? { NewEntry(name, body); }
    case Move(name, newName) =>
      var w := Without(e, newName);
      if Accepted(newName) && Has(w, name) {
        NewName(newName);
        RenamedOk(w, Scan(w, Key(name)).t, Encode(Upper(newName)).value);
      }
  }

  /** Replies and entries of a run of the plain list. */
  ghost function PlainRun(e: seq<Slot>, ops: seq<DirOp>): (seq<Reply>, seq<Slot>)
    requires FilesOk(e)
    decreases |ops|
  {
    if ops == [] then ([], e) else
      AfterOk(e, ops[0]);
      var (rs, f) := PlainRun(After(e, ops[0]), ops[1..]);
      ([ReplyOf(e, ops[0])] + rs, f)
  }

  /** No operation of the run does harm. */
  ghost predicate AllHarmless(s: State, ops: seq<DirOp>)
    requires Sane(s)
    decreases |ops|
  {
    ops != [] ==> Harmless(s, ops[0]) && (StepKeeps(s, ops[0]); AllHarmless(Step(s, ops[0]).1, ops[1..]))
  }

  /**
    Over every run of harmless operations the cached directory replies like a
    plain list, ends with the same entries, and its cache is right.
  */
  lemma {:induction false} RunRight(s: State, ops: seq<DirOp>)
    requires Sane(s) && Right(s) && AllHarmless(s, ops)
    ensures Sane(Outcome(s, ops).1) && Right(Outcome(s, ops).1)
    ensures Outcome(s, ops).0 == PlainRun(s.e, ops).0 && Outcome(s, ops).1.e == PlainRun(s.e, ops).1
    decreases |ops|
  {
    hide Sane, Right, FilesOk, Harmless, Step, After, ReplyOf;
    SaneParts(s);
    if ops != [] {
      StepRight(s, ops[0]);
      SaneParts(Step(s, ops[0]).1);
      RunRight(Step(s, ops[0]).1, ops[1..]);
      NeverDies(s.e, ops[0]);
    }
  }

  lemma NeverDies(e: seq<Slot>, op: DirOp)
    requires FilesOk(e)
    ensures ReplyOf(e, op) != Code(DIED)
  {
  }

  ghost predicate PlainOps(ops: seq<DirOp>) {
    forall i :: 0 <= i < |ops| ==> (!ops[i].List? ==> Plain(ops[i].name)) && (ops[i].Move? ==> Plain(ops[i].newName))
  }

  /** A run through names that do not end with blanks is harmless throughout. */
  lemma {:induction false} PlainRuns(s: State, ops: seq<DirOp>)
    requires Sane(s) && Right(s) && PlainOps(ops)
    ensures AllHarmless(s, ops)
    decreases |ops|
  {
    hide Sane, Right, Harmless, Step, Plain;
    if ops != [] {
      PlainHarmless(s, ops[0]);
      StepRight(s, ops[0]);
      PlainRuns(Step(s, ops[0]).1, ops[1..]);
    }
  }

  // ------------------------------------------------------------------
  // Renames that lose a file
  // ------------------------------------------------------------------

  /** A rename keeps the file, under its new name, exactly when the two names mean different entries. */
  lemma RenameExactly(e: seq<Slot>, name: string, newName: string)
    requires FilesOk(e) && Unique(e) && Has(e, name) && Accepted(newName)
    ensures FilesOk(Moved(e, name, newName)) && Unique(Moved(e, name, newName))
    ensures
      var r := Moved(e, name, newName);
      && (Encode(Key(name)) != Encode(Key(newName)) ==>
           && Has(r, newName) && !Has(r, name)
           && LookReply(r, Scan(r, Key(newName))) == LookReply(e, Scan(e, Key(name))))
      && (Encode(Key(name)) == Encode(Key(newName)) ==> !Has(r, newName) && |r| == |e| - 1)
  {
    hide FilesOk, Decode, Canonical, NameValid, Killed, Unique, Find, Key, Encode;
    FilesOnly(e);
    NewName(newName);
    var w, id := Without(e, newName), Encode(Upper(newName)).value;
    FilesOnly(w);
    WithoutName(e, newName);
    if Encode(Key(name)) != Encode(Key(newName)) {
      StillThere(e, name, newName);
      RenamedNames(w, Scan(w, Key(name)).t, id);
    }
  }

  /** Deleting one name leaves the file of another as it was. */
  lemma StillThere(e: seq<Slot>, name: string, gone: string)
    requires FilesOk(e) && Unique(e) && Has(e, name) && Encode(Key(name)) != Encode(Key(gone))
    ensures Has(Without(e, gone), name)
    ensures LookReply(Without(e, gone), Scan(Without(e, gone), Key(name))) == LookReply(e, Scan(e, Key(name)))
  {
    hide FilesOk, Killed, Unique, Find, Key, Encode;
    FilesOnly(e);
    FilesOnly(Without(e, gone));
    if Has(e, gone) { KilledNames(e, Scan(e, Key(gone)).t); }
  }

  /** A refused rename changes nothing exactly when no entry has the key of the new name. */
  lemma RefusedExactly(e: seq<Slot>, name: string, newName: string)
    requires FilesOk(e) && Has(e, name) && !Accepted(newName)
    ensures ReplyOf(e, Move(name, newName)) == Code(EINVAL)
    ensures Moved(e, name, newName) == e <==> !Has(e, newName)
  {
    hide FilesOk;
    FilesOnly(e);
  }

  lemma UpperSame(s: string)
    requires forall i :: 0 <= i < |s| ==> UpperChar(s[i]) == s[i]
    ensures Upper(s) == s
  {
    hide Upper;
  }

  /** Such a name: too long to be accepted, its key is cut to that of another file. */
  lemma RefusedName()
    ensures !Accepted("ABCDEFGH.ABCDEFGHX") && Key("ABCDEFGH.ABCDEFGHX") == "ABCDEFGH.ABCDEFGH"
    ensures Encode("ABCDEFGH.ABCDEFGH").Some? && Canonical("ABCDEFGH.ABCDEFGH")
  {
    hide Upper, Dot, Fill, NameValid;
    var long, short := "ABCDEFGH.ABCDEFGHX", "ABCDEFGH.ABCDEFGH";
    assert |long| == 18 && |short| == 17 && long[..17] == short;
    UpperSame(long);
    UpperSame(short);
    DotUnique(short, 8);
    DotUnique(long, 8);
  }

  // ------------------------------------------------------------------
  // Names that end with blanks
  // ------------------------------------------------------------------

  const AB := Id("A" + Blanks(7), "B" + Blanks(7))
  const CD := Id("C" + Blanks(7), "D" + Blanks(7))

  /** Two spellings of a name in the directory, and another name. */
  lemma Spellings()
    ensures Key("A.B") == "A.B" && Key("A .B") == "A .B" && !Canonical("A .B")
    ensures Encode("A.B") == Encode("A .B") == Some(AB) && Decode(AB) == "A.B" && Canonical("A.B")
    ensures Encode("C.D") == Some(CD) && Decode(CD) == "C.D" && Canonical("C.D") && AB != CD
    ensures Accepted("A.B") && Upper("A.B") == "A.B"
  {
    hide Upper, Dot, StripRight;
    UpperSame("A.B");
    UpperSame("A .B");
    DotUnique("A.B", 1);
    DotUnique("A .B", 2);
    DotUnique("C.D", 1);
    assert "A .B"[..2] + Blanks(6) == "A" + Blanks(7);
    assert "A.B"[..1] == "A" && "A.B"[2..] == "B" && "A .B"[3..] == "B" && "C.D"[..1] == "C" && "C.D"[2..] == "D";
    DecodeEncode("A.B");
    DecodeEncode("C.D");
    assert AB.fname[0] != CD.fname[0];
  }

  /** Names differ only in case, or only in blanks that the entry does not keep. */
  lemma SameEntryNames()
    ensures Key("a.b") == Key("A.B") && "a.b" != "A.B"
    ensures Encode(Key("A .B")) == Encode(Key("A.B")) && Encode(Key("A.B")).Some?
  {
    assert Upper("a.b") == "A.B" && Upper("A.B") == "A.B";
    Spellings();
  }

  /** A directory of one block with room for the cache, nothing cached. */
  ghost function Fresh(e: seq<Slot>): State {
    State(16, [7], {0, 7}, e, map[], 100)
  }

  lemma FreshRight(e: seq<Slot>)
    requires |e| <= 2 && FilesOk(e) && Unique(e)
    ensures Sane(Fresh(e)) && Right(Fresh(e))
  {
    hide FilesOk, Unique;
    assert Off(16, 0) == 0 && Off(16, 1) == 16;
  }

  /** The first lookup of a name caches its address. */
  lemma FirstLook(s: State, name: string, t: nat)
    requires Sane(s) && Scan(s.e, Key(name)) == Entry(t) && Key(name) !in s.cache && |s.cache| < s.max - 1
    ensures t < |s.e| && s.e[t].File?
    ensures Step(s, LookUp(name)) == (Body(Some(s.e[t].body)), s.(cache := s.cache[Key(name) := Some(Place(s.K, s.blocks, t))]))
  {
    hide FilesOk, Place, Key;
    SaneParts(s);
  }

  /** A cached address leads to the entry that is there now. */
  lemma CachedLook(s: State, key: string, t: nat)
    requires Sane(s) && t < |s.e| && Kept(s.cache, key) && s.cache[key].value == Place(s.K, s.blocks, t)
    ensures Looked(s, key) == Entry(t) && AfterLook(s, key) == s
  {
    hide FilesOk, Place, At;
    AtPlace(s, t);
  }

  lemma TwoSteps(s: State, p: DirOp, q: DirOp)
    requires Sane(s) && Step(s, p).0 != Code(DIED)
    ensures Sane(Step(s, p).1)
    ensures Outcome(s, [p, q]) == ([Step(s, p).0, Step(Step(s, p).1, q).0], Step(Step(s, p).1, q).1)
  {
    hide Sane, Step;
    StepKeeps(s, p);
    StepKeeps(Step(s, p).1, q);
    assert [p, q][1..] == [q] && [q][1..] == [];
    var z := Step(s, p).1;
    var r := Step(z, q);
    assert Outcome(z, [q]) == ([r.0], r.1) by { assert Outcome(r.1, []) == ([], r.1); assert [r.0] + [] == [r.0]; }
    assert [Step(s, p).0] + [r.0] == [Step(s, p).0, r.0];
  }

  /** The directory with the one file A.B, its address cached under its own name and under the padded one. */
  ghost function BothCached(x: nat): State
    requires FilesOk([File(AB, x)])
  {
    assert Off(16, 1) == 16;
    Fresh([File(AB, x)]).(cache := map["A.B" := Some(Place(16, [7], 0)), "A .B" := Some(Place(16, [7], 0))])
  }

  lemma SampleFiles(x: nat, y: nat)
    ensures FilesOk([File(AB, x)]) && Unique([File(AB, x)])
    ensures FilesOk([File(AB, x), File(CD, y)]) && Unique([File(AB, x), File(CD, y)])
    ensures FilesOk([File(CD, y)]) && Unique([File(CD, y)]) && FilesOk([]) && Unique([])
    ensures Scan([File(AB, x)], "A.B") == Scan([File(AB, x)], "A .B") == Entry(0)
    ensures Scan([File(AB, x), File(CD, y)], "A.B") == Scan([File(AB, x), File(CD, y)], "A .B") == Entry(0)
  {
    hide Decode, Canonical, Encode, Key, Upper;
    Spellings();
  }

  /**
    The file A.B, looked up as A.B and as A .B, then deleted as A .B: a scan
    finds no A.B, but its address is still cached, and the next lookup of A.B
    ends the program.
  */
  lemma OwnNameStale(x: nat)
    ensures FilesOk([File(AB, x)]) && Sane(BothCached(x)) && Right(BothCached(x))
    ensures Outcome(BothCached(x), [Unlink("A .B"), LookUp("A.B")]).0 == [Code(0), Code(DIED)]
    ensures !Harmless(BothCached(x), Unlink("A .B"))
  {
    hide Decode, Canonical, Encode, Upper, FilesOk, Unique, Place, Find;
    Spellings();
    SampleFiles(x, 0);
    var s := BothCached(x);
    FreshRight(s.e);
    assert Sane(s);
    assert Off(16, 0) == 0 && Off(16, 1) == 16;
    forall k | Canonical(k) ensures RightKey(s, k) {
    }
    CachedLook(s, "A .B", 0);
    TwoSteps(s, Unlink("A .B"), LookUp("A.B"));
    var z := Step(s, Unlink("A .B")).1;
    assert z == Kill(s, "A .B", 0) && z.e == [] && Kept(z.cache, "A.B");
  }

  /**
    A name padded with blanks that is cached outlives the deletion of its file.
    Deleting through it then deletes the file that was moved to that place.
  */
  lemma WrongFileDeleted(x: nat, y: nat)
    ensures FilesOk([File(AB, x), File(CD, y)])
    ensures
      var s := Fresh([File(AB, x), File(CD, y)]);
      && Sane(s) && Right(s) && Step(s, LookUp("A .B")).0 == Body(Some(x)) && Sane(Step(s, LookUp("A .B")).1)
      && Outcome(Step(s, LookUp("A .B")).1, [Unlink("A.B"), Unlink("A .B")]).0 == [Code(0), Code(0)]
      && Outcome(Step(s, LookUp("A .B")).1, [Unlink("A.B"), Unlink("A .B")]).1.e == []
  {
    hide Decode, Canonical, Encode, Upper, FilesOk, Unique, Place, Find;
    Spellings();
    SampleFiles(x, y);
    var s := Fresh([File(AB, x), File(CD, y)]);
    FreshRight(s.e);
    assert Off(16, 0) == 0 && Off(16, 1) == 16;
    FirstLook(s, "A .B", 0);
    StepKeeps(s, LookUp("A .B"));
    var a := Step(s, LookUp("A .B")).1;
    LookKeeps(a, "A.B");
    TwoSteps(a, Unlink("A.B"), Unlink("A .B"));
    var b := Step(a, Unlink("A.B")).1;
    assert b == Kill(AfterLook(a, "A.B"), "A.B", 0);
    assert b.e == [File(CD, y)] && Kept(b.cache, "A .B") && b.cache["A .B"].value == Place(16, [7], 0);
    CachedLook(b, "A .B", 0);
    assert Step(b, Unlink("A .B")) == (Code(0), Kill(b, "A .B", 0));
  }

  /** Renaming A .B to A.B deletes the file and gives its name to the file that was moved to its place. */
  lemma WrongFileRenamed(x: nat, y: nat)
    ensures FilesOk([File(AB, x), File(CD, y)])
    ensures
      var s := Fresh([File(AB, x), File(CD, y)]);
      Sane(s) && Right(s) && RenameOf(s, "A .B", "A.B").0 == 0 && RenameOf(s, "A .B", "A.B").1.e == [File(AB, y)]
  {
    hide Decode, Canonical, Encode, Upper, FilesOk, Unique, Place, Find;
    Spellings();
    SampleFiles(x, y);
    var s := Fresh([File(AB, x), File(CD, y)]);
    FreshRight(s.e);
    assert Off(16, 0) == 0 && Off(16, 1) == 16;
    FirstLook(s, "A .B", 0);
    StepKeeps(s, LookUp("A .B"));
    var a := AfterLook(s, "A .B");
    LookKeeps(s, "A .B");
    LookKeeps(a, "A.B");
    DropIs(a, "A.B");
    DropKeeps(a, "A.B");
    var b := DropTarget(a, "A.B");
    assert b == Kill(AfterLook(a, "A.B"), "A.B", 0);
    assert b.e == [File(CD, y)] && Kept(b.cache, "A .B") && b.cache["A .B"].value == Place(16, [7], 0);
    CachedLook(b, "A .B", 0);
  }
}
